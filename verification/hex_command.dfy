/** The VE.Direct hex-protocol command line the history scripts send:
    `':' + base_command + checksum_hex + '\n'` with
    `base_command = '7' + str(50 + day) + '10' + '00'`, the checksum taken
    over `bytes.fromhex('0' + base_command)`. The leading '7' is a single
    nibble (the Get opcode), hence the padding '0'. */
module HexCommand {

  import opened Options
  import opened Bytes
  import opened Hex

  /** `calculate_checksum`: `(0x55 - sum(message)) & 0xFF`, one byte. */
  function Checksum(message: seq<byte>): (c: byte)
    ensures (Sum(message) + c) % 256 == 0x55
  {
    (0x55 - Sum(message)) % 256
  }

  /** The checksum is the only byte that brings the sum to 0x55. */
  lemma ChecksumUnique(message: seq<byte>, c: byte)
    requires (Sum(message) + c) % 256 == 0x55
    ensures c == Checksum(message)
  {
    var k := Checksum(message);
    assert (c - k) % 256 == 0;
  }

  /** The worked example of the protocol documentation:
      0x55 - 0x08 - 0xF0 - 0xED - 0x00 - 0x64 - 0x00 = 0x0C. */
  lemma ChecksumExample()
    ensures Checksum([0x08, 0xF0, 0xED, 0x00, 0x64, 0x00]) == 0x0C
  {
    Sum4(0xED, 0x00, 0x64, 0x00);
    assert [0x08, 0xF0, 0xED, 0x00, 0x64, 0x00][1..] == [0xF0, 0xED, 0x00, 0x64, 0x00];
    assert [0xF0, 0xED, 0x00, 0x64, 0x00][1..] == [0xED, 0x00, 0x64, 0x00];
  }

  /** `str(n)`: the decimal digits of `n`, most significant first. */
  function Decimal(n: nat): (r: seq<byte>)
    ensures |r| >= 1
    ensures forall i | 0 <= i < |r| :: 48 <= r[i] <= 57
    decreases n
  {
    if n < 10 then [48 + n] else Decimal(n / 10) + [48 + n % 10]
  }

  /** The value a string of decimal digits spells. */
  function DecimalValue(s: seq<byte>): nat
    requires forall i | 0 <= i < |s| :: 48 <= s[i] <= 57
  {
    if |s| == 0 then 0 else 10 * DecimalValue(s[..|s| - 1]) + (s[|s| - 1] - 48)
  }

  /** `str` writes a number in a form that reads back as the number. */
  lemma {:induction false} DecimalRoundTrip(n: nat)
    ensures DecimalValue(Decimal(n)) == n
    decreases n
  {
    if n >= 10 {
      var r := Decimal(n);
      assert r[..|r| - 1] == Decimal(n / 10);
      DecimalRoundTrip(n / 10);
    }
  }

  /** `base_command` for a day offset, as the bytes `str.encode` gives: '7',
      the day register's decimal digits, then flags "10" and "00"; every byte
      is a decimal digit, so `bytes.fromhex` can only object to its parity. */
  function BaseCommand(day: nat): (r: seq<byte>)
    ensures |r| == |Decimal(50 + day)| + 5
    ensures forall i | 0 <= i < |r| :: 48 <= r[i] <= 57 && IsHexDigit(r[i])
    ensures r[0] == 55 && r[|r| - 4..] == [49, 48, 48, 48]
  {
    [55] + Decimal(50 + day) + [49, 48, 48, 48]
  }

  /** The command line for a day offset; `None` where `bytes.fromhex` raises
      because `'0' + base_command` has an odd number of digits. */
  function HistoryCommand(day: nat): (r: Option<seq<byte>>)
    ensures r.Some? <==> |Decimal(50 + day)| % 2 == 0
    ensures r.Some? ==> |r.value| == |BaseCommand(day)| + 4 && r.value[0] == COLON && r.value[|r.value| - 1] == LF
  {
    var base := BaseCommand(day);
    FromHexAllDigits([48] + base);
    match FromHex([48] + base)
    case None => None
    case Some(m) => Some([COLON] + base + ToHex([Checksum(m)]) + [LF])
  }

  /** A register command as the device reads it. */
  datatype Command = Command(opcode: byte, register: nat, flags: byte, data: seq<byte>)

  /** Reading a command line back: strip ':' and LF, pad with '0', decode the
      hex digits, check that the bytes sum to 0x55 and split them into opcode,
      little-endian register, flags, data and checksum. */
  function DecodeCommand(line: seq<byte>): (r: Option<Command>)
    ensures r.Some? ==> |line| >= 2 && line[0] == COLON && line[|line| - 1] == LF
  {
    if |line| < 2 || line[0] != COLON || line[|line| - 1] != LF then None
    else
      match FromHex([48] + line[1..|line| - 1])
      case None => None
      case Some(m) =>
        if |m| < 5 || Sum(m) % 256 != 0x55 then None
        else Some(Command(m[0], (m[1] as int) + 256 * (m[2] as int), m[3], m[4..|m| - 1]))
  }

  /** The register `str(50 + day)` actually names: its two decimal digits read
      as hex digits of the register's low byte. */
  function RegisterFor(day: nat): nat
    requires day < 50
  {
    0x1000 + 16 * ((50 + day) / 10) + (50 + day) % 10
  }

  lemma TwoDigitDecimal(n: nat)
    requires 10 <= n < 100
    ensures Decimal(n) == [48 + n / 10, 48 + n % 10]
  {
  }

  lemma Sum4(a: byte, b: byte, c: byte, d: byte)
    ensures Sum([a, b, c, d]) == a + b + c + d
  {
    assert [d][1..] == [];
    assert Sum([d]) == d;
    assert [c, d][1..] == [d];
    assert Sum([c, d]) == c + d;
    assert [b, c, d][1..] == [c, d];
    assert Sum([b, c, d]) == b + c + d;
    assert [a, b, c, d][1..] == [b, c, d];
  }

  /** The digits after ':' of a Get of the register whose low byte has hex
      digits `hi`, `lo` (high byte 0x10, flags 0), before the checksum. */
  function GetDigits(hi: nat, lo: nat): seq<byte>
    requires hi < 16 && lo < 16
  {
    [55, UpperDigit(hi), UpperDigit(lo), 49, 48, 48, 48]
  }

  /** That Get as a full command line, with its checksum. */
  function GetLine(hi: nat, lo: nat): seq<byte>
    requires hi < 16 && lo < 16
  {
    [COLON] + GetDigits(hi, lo) + ToHex([Checksum([7, 16 * hi + lo, 16, 0])]) + [LF]
  }

  lemma {:induction false} GetDigitsDecode(hi: nat, lo: nat)
    requires hi < 16 && lo < 16
    ensures HexPairs([48] + GetDigits(hi, lo))
    ensures FromHex([48] + GetDigits(hi, lo)) == Some([7, 16 * hi + lo, 16, 0])
  {
    var pad := [48] + GetDigits(hi, lo);
    assert pad == [48, 55, UpperDigit(hi), UpperDigit(lo), 49, 48, 48, 48];
    assert HexPairs(pad);
    FromHexPairsAt(pad, 0);
    FromHexPairsAt(pad, 1);
    FromHexPairsAt(pad, 2);
    FromHexPairsAt(pad, 3);
    var v := FromHex(pad).value;
    assert v[0] == 7 && v[1] == 16 * hi + lo && v[2] == 16 && v[3] == 0;
    assert v == [7, 16 * hi + lo, 16, 0];
  }

  /** Reading back a line whose padded digits decode to `m`. */
  lemma DecodeCommandOf(body: seq<byte>, m: seq<byte>)
    requires FromHex([48] + body) == Some(m)
    requires |m| >= 5 && Sum(m) % 256 == 0x55
    ensures DecodeCommand([COLON] + body + [LF]) == Some(Command(m[0], (m[1] as int) + 256 * (m[2] as int), m[3], m[4..|m| - 1]))
  {
    var line := [COLON] + body + [LF];
    assert line[1..|line| - 1] == body;
  }

  /** The padded digits of a Get line, checksum included, decode to the
      message bytes followed by the checksum, which sum to 0x55. */
  lemma {:induction false} GetBodyDecodes(hi: nat, lo: nat)
    requires hi < 16 && lo < 16
    ensures var m: seq<byte> := [7, 16 * hi + lo, 16, 0];
            var c := Checksum(m);
            && FromHex([48] + (GetDigits(hi, lo) + ToHex([c]))) == Some(m + [c])
            && Sum(m + [c]) % 256 == 0x55
  {
    var m: seq<byte> := [7, 16 * hi + lo, 16, 0];
    var c := Checksum(m);
    var digits := GetDigits(hi, lo);
    GetDigitsDecode(hi, lo);
    assert [48] + (digits + ToHex([c])) == [48] + digits + ToHex([c]);
    FromHexPairsThen([48] + digits, ToHex([c]));
    FromHexToHex([c]);
    Sum4(7, 16 * hi + lo, 16, 0);
    SumAppend(m, [c]);
    assert [c][1..] == [];
  }

  /** A Get line decodes as opcode 7 of register 0x10xx with flags 0 and no data. */
  lemma {:induction false} GetLineDecodes(hi: nat, lo: nat)
    requires hi < 16 && lo < 16
    ensures DecodeCommand(GetLine(hi, lo)) == Some(Command(7, 0x1000 + 16 * hi + lo, 0, []))
  {
    var m: seq<byte> := [7, 16 * hi + lo, 16, 0];
    var c := Checksum(m);
    var body := GetDigits(hi, lo) + ToHex([c]);
    GetBodyDecodes(hi, lo);
    DecodeCommandOf(body, m + [c]);
    assert (m + [c])[4..|m + [c]| - 1] == [];
    assert GetLine(hi, lo) == [COLON] + body + [LF];
  }

  /** Below day 50, `str(50 + day)` has two decimal digits, and the command is
      the Get line those digits spell. */
  lemma {:induction false} HistoryCommandIsGetLine(day: nat)
    requires day < 50
    ensures HistoryCommand(day) == Some(GetLine((50 + day) / 10, (50 + day) % 10))
  {
    var n := 50 + day;
    TwoDigitDecimal(n);
    var q := n / 10;
    var r := n % 10;
    var base := BaseCommand(day);
    assert UpperDigit(q) == 48 + q && UpperDigit(r) == 48 + r;
    assert base == GetDigits(q, r);
    GetDigitsDecode(q, r);
  }

  /** For day offsets below 50 the command decodes as a Get (opcode 7) of
      `RegisterFor(day)` with flags 0, no data and a valid checksum. */
  lemma HistoryCommandDecodes(day: nat)
    requires day < 50
    ensures HistoryCommand(day).Some?
    ensures DecodeCommand(HistoryCommand(day).value) == Some(Command(7, RegisterFor(day), 0, []))
  {
    HistoryCommandIsGetLine(day);
    GetLineDecodes((50 + day) / 10, (50 + day) % 10);
  }

  /** The command names register 0x1050 + day, as the comment "registers
      0x1050..0x106E" and the `hist_list` table intend, exactly when the day
      offset is below 10: from day 10 on, `str(50 + day)` spells decimal
      digits where hex digits were meant (day 10 reads register 0x1060). */
  lemma RegisterMatchesDayIffBelowTen(day: nat)
    requires day < 50
    ensures RegisterFor(day) == 0x1050 + day <==> day < 10
  {
  }

  /** `hist_list`: the Get command lines for registers 0x1050 to 0x105F. */
  const HistList: seq<string> := [
    ":7501000EE\n", ":7511000ED\n", ":7521000EC\n", ":7531000EB\n",
    ":7541000EA\n", ":7551000E9\n", ":7561000E8\n", ":7571000E7\n",
    ":7581000E6\n", ":7591000E5\n", ":75A1000E4\n", ":75B1000E3\n",
    ":75C1000E2\n", ":75D1000E1\n", ":75E1000E0\n", ":75F1000DF\n"
  ]

  function HistLine(i: nat): seq<byte>
    requires i < |HistList|
  {
    Ascii(HistList[i])
  }

  /** The Get line of register 0x1050 + i, written out digit by digit. */
  lemma GetLineFifty(i: nat)
    requires i < 16
    ensures GetLine(5, i) == [COLON, 55, 53, UpperDigit(i), 49, 48, 48, 48,
                              UpperDigit((238 - i) / 16), UpperDigit((238 - i) % 16), LF]
  {
    Sum4(7, 80 + i, 16, 0);
    assert Checksum([7, 80 + i, 16, 0]) == 238 - i;
  }

  /** The digits of table entry i: "75", the digit of i, "1000", the two
      checksum digits of 0xEE - i, then LF. */
  function FiftyShape(i: nat): seq<byte>
    requires i < 16
  {
    [COLON, 55, 53, UpperDigit(i), 49, 48, 48, 48, UpperDigit((238 - i) / 16), UpperDigit((238 - i) % 16), LF]
  }

  // The sixteen table entries are checked four at a time: each entry is a
  // literal whose evaluation is costly, and one lemma for all sixteen exceeds
  // the solver's budget.
  lemma HistLineShape0(i: nat)
    requires i < 4
    ensures HistLine(i) == FiftyShape(i)
  {
    if i == 0 {} else if i == 1 {} else if i == 2 {} else {}
  }

  lemma HistLineShape4(i: nat)
    requires 4 <= i < 8
    ensures HistLine(i) == FiftyShape(i)
  {
    if i == 4 {} else if i == 5 {} else if i == 6 {} else {}
  }

  lemma HistLineShape8(i: nat)
    requires 8 <= i < 12
    ensures HistLine(i) == FiftyShape(i)
  {
    if i == 8 {} else if i == 9 {} else if i == 10 {} else {}
  }

  lemma HistLineShape12(i: nat)
    requires 12 <= i < 16
    ensures HistLine(i) == FiftyShape(i)
  {
    if i == 12 {} else if i == 13 {} else if i == 14 {} else {}
  }

  lemma HistLineIsGetLine(i: nat)
    requires i < 16
    ensures HistLine(i) == GetLine(5, i)
  {
    GetLineFifty(i);
    if i < 4 {
      HistLineShape0(i);
    } else if i < 8 {
      HistLineShape4(i);
    } else if i < 12 {
      HistLineShape8(i);
    } else {
      HistLineShape12(i);
    }
  }

  /** For day offsets below 10 the script's command is exactly the table's
      entry (":7501000EE\n" for day 0, ":7511000ED\n" for day 1, ...). */
  lemma HistoryCommandMatchesTable(day: nat)
    requires day < 10
    ensures HistoryCommand(day) == Some(HistLine(day))
  {
    HistoryCommandIsGetLine(day);
    HistLineIsGetLine(day);
  }

  /** From day 10 on the script's command differs from the table's entry: it
      reads another register. */
  lemma HistoryCommandLeavesTable(day: nat)
    requires 10 <= day < 16
    ensures HistoryCommand(day) != Some(HistLine(day))
  {
    HistoryCommandDecodes(day);
    HistLineIsGetLine(day);
    GetLineDecodes(5, day);
    RegisterMatchesDayIffBelowTen(day);
  }

  /** The digits of the documented "set battery maximum current to 10.0 A"
      line `:8F0ED0064000C`, between ':' and LF. */
  const SetDigits: seq<byte> := [56, 70, 48, 69, 68, 48, 48, 54, 52, 48, 48, 48, 67]

  lemma SetLineShape()
    ensures Ascii(":8F0ED0064000C\n") == [COLON] + SetDigits + [LF]
  {
  }

  /** Seven bytes with the Set command's values are spelled by its digits. */
  lemma SetBytesHex(m: seq<byte>)
    requires |m| == 7 && m[0] == 0x08 && m[1] == 0xF0 && m[2] == 0xED && m[3] == 0x00
    requires m[4] == 0x64 && m[5] == 0x00 && m[6] == 0x0C
    ensures ToHex(m) == [48] + SetDigits
  {
    ToHexAt(m, 0);
    ToHexAt(m, 1);
    ToHexAt(m, 2);
    ToHexAt(m, 3);
    ToHexAt(m, 4);
    ToHexAt(m, 5);
    ToHexAt(m, 6);
  }

  lemma SetDigitsDecode()
    ensures FromHex([48] + SetDigits) == Some([0x08, 0xF0, 0xED, 0x00, 0x64, 0x00, 0x0C])
  {
    var m: seq<byte> := [0x08, 0xF0, 0xED, 0x00, 0x64, 0x00, 0x0C];
    SetBytesHex(m);
    FromHexToHex(m);
  }

  /** The documented line reads back as a Set (opcode 8) of register 0xEDF0,
      flags 0, data 0x0064 little-endian, with a valid checksum 0x0C. */
  lemma DocumentedSetDecodes()
    ensures DecodeCommand(Ascii(":8F0ED0064000C\n")) == Some(Command(8, 0xEDF0, 0, [0x64, 0x00]))
  {
    var message: seq<byte> := [0x08, 0xF0, 0xED, 0x00, 0x64, 0x00];
    var m := message + [0x0C];
    SetLineShape();
    SetDigitsDecode();
    assert m == [0x08, 0xF0, 0xED, 0x00, 0x64, 0x00, 0x0C];
    ChecksumExample();
    SumAppend(message, [0x0C]);
    assert [0x0C][1..] == [];
    DecodeCommandOf(SetDigits, m);
    assert m[4..|m| - 1] == [0x64, 0x00];
  }
}
