/** `parse_history_record`: the reply to a Get of a history-day register,
    after its header, as hex text. The text is hex-decoded and the first 34
    bytes are read as little-endian fields at fixed offsets. Python's slices
    clamp, so a short payload reads as zeros or as a partial field. */
module HistoryRecord {

  import opened Options
  import opened Bytes
  import opened Hex

  type Divisor = d: nat | d > 0 witness 1

  /** A raw field and the divisor the script applies to it (`/ 100.0`,
      `/ 10.0`); the value in engineering units is the quotient. */
  datatype Scaled = Scaled(raw: nat, divisor: Divisor)
  {
    function Value(): real
    {
      raw as real / divisor as real
    }
  }

  /** The dictionary `parse_history_record` returns, one field per key. */
  datatype HistoryRecord = HistoryRecord(
    reserved: nat,
    yieldTotal: Scaled,         // kWh
    consumed: Scaled,           // kWh
    maxBatteryVoltage: Scaled,  // V
    minBatteryVoltage: Scaled,  // V
    errorDatabase: nat,
    error0: nat,                // most recent
    error1: nat,
    error2: nat,
    error3: nat,                // oldest
    timeBulk: nat,              // minutes
    timeAbsorption: nat,        // minutes
    timeFloat: nat,             // minutes
    maxPower: nat,              // W
    maxBatteryCurrent: Scaled,  // A
    maxPvVoltage: Scaled,       // V
    daySequence: nat)

  /** The length of the payload the fields are read from. */
  const PayloadLength: nat := 34

  /** The byte width of each field, in payload order. */
  const Layout: seq<nat> := [1, 4, 4, 2, 2, 1, 1, 1, 1, 1, 2, 2, 2, 4, 2, 2, 2]

  /** `int.from_bytes(response[lo:hi], 'little')`. */
  function FieldAt(p: seq<byte>, lo: nat, hi: nat): (v: nat)
    requires lo <= hi
    ensures v < Pow256(hi - lo)
    ensures |p| <= lo ==> v == 0
  {
    var s := Slice(p, lo, hi);
    LittleEndianBound(s);
    Pow256Monotone(|s|, hi - lo);
    LittleEndian(s)
  }

  /** The fields of a decoded payload, read at offsets 0:1, 1:5, 5:9, 9:11,
      11:13, 13:14, ..., 17:18, 18:20, 20:22, 22:24, 24:28, 28:30, 30:32, 32:34. */
  function DecodePayload(p: seq<byte>): (r: HistoryRecord)
    ensures r.reserved < 0x100 && r.errorDatabase < 0x100
    ensures r.error0 < 0x100 && r.error1 < 0x100 && r.error2 < 0x100 && r.error3 < 0x100
    ensures r.yieldTotal.raw < 0x1_0000_0000 && r.consumed.raw < 0x1_0000_0000 && r.maxPower < 0x1_0000_0000
    ensures r.maxBatteryVoltage.raw < 0x1_0000 && r.minBatteryVoltage.raw < 0x1_0000
    ensures r.timeBulk < 0x1_0000 && r.timeAbsorption < 0x1_0000 && r.timeFloat < 0x1_0000
    ensures r.maxBatteryCurrent.raw < 0x1_0000 && r.maxPvVoltage.raw < 0x1_0000 && r.daySequence < 0x1_0000
    ensures r.yieldTotal.divisor == 100 && r.consumed.divisor == 100
    ensures r.maxBatteryVoltage.divisor == 100 && r.minBatteryVoltage.divisor == 100
    ensures r.maxBatteryCurrent.divisor == 10 && r.maxPvVoltage.divisor == 100
  {
    assert Pow256(1) == 0x100 && Pow256(2) == 0x1_0000 && Pow256(4) == 0x1_0000_0000;
    HistoryRecord(
      FieldAt(p, 0, 1),
      Scaled(FieldAt(p, 1, 5), 100),
      Scaled(FieldAt(p, 5, 9), 100),
      Scaled(FieldAt(p, 9, 11), 100),
      Scaled(FieldAt(p, 11, 13), 100),
      FieldAt(p, 13, 14),
      FieldAt(p, 14, 15),
      FieldAt(p, 15, 16),
      FieldAt(p, 16, 17),
      FieldAt(p, 17, 18),
      FieldAt(p, 18, 20),
      FieldAt(p, 20, 22),
      FieldAt(p, 22, 24),
      FieldAt(p, 24, 28),
      Scaled(FieldAt(p, 28, 30), 10),
      Scaled(FieldAt(p, 30, 32), 100),
      FieldAt(p, 32, 34))
  }

  /** `parse_history_record(response)`: `None` when the raw text is shorter
      than 34 bytes (before decoding) or when `bytes.fromhex` raises. */
  function ParseHistoryRecord(response: seq<byte>): (r: Option<HistoryRecord>)
    ensures |response| < PayloadLength ==> r == None
    ensures r.Some? <==> |response| >= PayloadLength && FromHex(response).Some?
    ensures r.Some? ==> forall i | 0 <= i < |response| :: IsHexDigit(response[i]) || IsSpace(response[i])
    ensures HexDigitCount(response) % 2 == 1 ==> r == None
  {
    if |response| < PayloadLength then None
    else
      match FromHex(response)
      case None => None
      case Some(p) => Some(DecodePayload(p))
  }

  /** The raw field values of a record, in payload order. */
  function Raw(r: HistoryRecord): (vs: seq<nat>)
    ensures |vs| == |Layout|
  {
    [r.reserved, r.yieldTotal.raw, r.consumed.raw, r.maxBatteryVoltage.raw,
     r.minBatteryVoltage.raw, r.errorDatabase, r.error0, r.error1, r.error2,
     r.error3, r.timeBulk, r.timeAbsorption, r.timeFloat, r.maxPower,
     r.maxBatteryCurrent.raw, r.maxPvVoltage.raw, r.daySequence]
  }

  /** A record a device can send: every raw value fits its field and the
      divisors are the script's. */
  predicate Fits(r: HistoryRecord)
  {
    && (forall i | 0 <= i < |Layout| :: Raw(r)[i] < Pow256(Layout[i]))
    && r.yieldTotal.divisor == 100 && r.consumed.divisor == 100
    && r.maxBatteryVoltage.divisor == 100 && r.minBatteryVoltage.divisor == 100
    && r.maxBatteryCurrent.divisor == 10 && r.maxPvVoltage.divisor == 100
  }

  /** The offset of field `i`: the sum of the widths of the fields before it. */
  function Offset(ws: seq<nat>, i: nat): nat
    requires i <= |ws|
  {
    if i == 0 then 0 else Offset(ws, i - 1) + ws[i - 1]
  }

  /** An offset depends only on the widths before it. */
  lemma {:induction false} OffsetPrefix(ws: seq<nat>, n: nat, i: nat)
    requires i <= n <= |ws|
    ensures Offset(ws[..n], i) == Offset(ws, i)
  {
    if i > 0 {
      OffsetPrefix(ws, n, i - 1);
    }
  }

  /** Values written little-endian, each in its width, one after another. */
  function Pack(vs: seq<nat>, ws: seq<nat>): (p: seq<byte>)
    requires |vs| == |ws|
    ensures |p| == Offset(ws, |ws|)
  {
    if |ws| == 0 then []
    else
      var n := |ws| - 1;
      OffsetPrefix(ws, n, n);
      Pack(vs[..n], ws[..n]) + ToLittleEndian(vs[n], ws[n])
  }

  /** The payload a device sends for a record. */
  function EncodePayload(r: HistoryRecord): (p: seq<byte>)
    ensures |p| == PayloadLength
  {
    LayoutOffsets();
    Pack(Raw(r), Layout)
  }

  /** Slicing past a prefix. */
  lemma SliceShift(a: seq<byte>, b: seq<byte>, lo: nat, hi: nat)
    requires lo <= hi
    ensures Slice(a + b, |a| + lo, |a| + hi) == Slice(b, lo, hi)
  {
  }

  /** Field `i` of packed values, whatever follows them, reads back as value `i`. */
  lemma {:induction false} PackField(vs: seq<nat>, ws: seq<nat>, i: nat, rest: seq<byte>)
    requires |vs| == |ws| && i < |ws| && vs[i] < Pow256(ws[i])
    ensures FieldAt(Pack(vs, ws) + rest, Offset(ws, i), Offset(ws, i) + ws[i]) == vs[i]
    decreases |ws|
  {
    var n := |ws| - 1;
    var front := Pack(vs[..n], ws[..n]);
    var last := ToLittleEndian(vs[n], ws[n]);
    assert Pack(vs, ws) + rest == front + (last + rest);
    OffsetPrefix(ws, n, i);
    if i == n {
      OffsetPrefix(ws, n, n);
      SliceShift(front, last + rest, 0, ws[n]);
      assert Slice(last + rest, 0, ws[n]) == last;
      LittleEndianRoundTrip(vs[n], ws[n]);
    } else {
      PackField(vs[..n], ws[..n], i, last + rest);
    }
  }

  /** The offsets the script slices at are those of the layout. */
  lemma LayoutOffsets()
    ensures Offset(Layout, 0) == 0 && Offset(Layout, 1) == 1 && Offset(Layout, 2) == 5
    ensures Offset(Layout, 3) == 9 && Offset(Layout, 4) == 11 && Offset(Layout, 5) == 13
    ensures Offset(Layout, 6) == 14 && Offset(Layout, 7) == 15 && Offset(Layout, 8) == 16
    ensures Offset(Layout, 9) == 17 && Offset(Layout, 10) == 18 && Offset(Layout, 11) == 20
    ensures Offset(Layout, 12) == 22 && Offset(Layout, 13) == 24 && Offset(Layout, 14) == 28
    ensures Offset(Layout, 15) == 30 && Offset(Layout, 16) == 32 && Offset(Layout, 17) == 34
  {
  }

  /** Field `i` of an encoded record, read at the layout's offsets. */
  lemma EncodedField(r: HistoryRecord, rest: seq<byte>, i: nat)
    requires Fits(r) && i < |Layout|
    ensures FieldAt(EncodePayload(r) + rest, Offset(Layout, i), Offset(Layout, i) + Layout[i]) == Raw(r)[i]
  {
    PackField(Raw(r), Layout, i, rest);
  }

  /** Decoding reads back every field of an encoded record; bytes after the
      34th, such as the reply's checksum, do not matter. */
  lemma DecodeEncode(r: HistoryRecord, rest: seq<byte>)
    requires Fits(r)
    ensures DecodePayload(EncodePayload(r) + rest) == r
  {
    var p := EncodePayload(r) + rest;
    LayoutOffsets();
    assert FieldAt(p, 0, 1) == r.reserved by {
      EncodedField(r, rest, 0);
    }
    assert FieldAt(p, 1, 5) == r.yieldTotal.raw by {
      EncodedField(r, rest, 1);
    }
    assert FieldAt(p, 5, 9) == r.consumed.raw by {
      EncodedField(r, rest, 2);
    }
    assert FieldAt(p, 9, 11) == r.maxBatteryVoltage.raw by {
      EncodedField(r, rest, 3);
    }
    assert FieldAt(p, 11, 13) == r.minBatteryVoltage.raw by {
      EncodedField(r, rest, 4);
    }
    assert FieldAt(p, 13, 14) == r.errorDatabase by {
      EncodedField(r, rest, 5);
    }
    assert FieldAt(p, 14, 15) == r.error0 by {
      EncodedField(r, rest, 6);
    }
    assert FieldAt(p, 15, 16) == r.error1 by {
      EncodedField(r, rest, 7);
    }
    assert FieldAt(p, 16, 17) == r.error2 by {
      EncodedField(r, rest, 8);
    }
    assert FieldAt(p, 17, 18) == r.error3 by {
      EncodedField(r, rest, 9);
    }
    assert FieldAt(p, 18, 20) == r.timeBulk by {
      EncodedField(r, rest, 10);
    }
    assert FieldAt(p, 20, 22) == r.timeAbsorption by {
      EncodedField(r, rest, 11);
    }
    assert FieldAt(p, 22, 24) == r.timeFloat by {
      EncodedField(r, rest, 12);
    }
    assert FieldAt(p, 24, 28) == r.maxPower by {
      EncodedField(r, rest, 13);
    }
    assert FieldAt(p, 28, 30) == r.maxBatteryCurrent.raw by {
      EncodedField(r, rest, 14);
    }
    assert FieldAt(p, 30, 32) == r.maxPvVoltage.raw by {
      EncodedField(r, rest, 15);
    }
    assert FieldAt(p, 32, 34) == r.daySequence by {
      EncodedField(r, rest, 16);
    }
  }

  /** A reply as it follows the header: the payload and checksum in hex, then LF.
      It parses to the record it carries, whatever the checksum byte. */
  lemma ParseReply(r: HistoryRecord, checksum: byte)
    requires Fits(r)
    ensures ParseHistoryRecord(ToHex(EncodePayload(r) + [checksum]) + [LF]) == Some(r)
  {
    var bs := EncodePayload(r) + [checksum];
    FromHexToHex(bs);
    FromHexTrailingSpace(ToHex(bs), [LF]);
    DecodeEncode(r, [checksum]);
  }

  /** The trailing checksum digits are decoded but never checked: any two hex
      digits in their place give the same result. */
  lemma {:induction false} ChecksumNotVerified(body: seq<byte>, c1: seq<byte>, c2: seq<byte>)
    requires HexPairs(body) && |body| >= 2 * PayloadLength
    requires HexPairs(c1) && |c1| == 2 && HexPairs(c2) && |c2| == 2
    ensures ParseHistoryRecord(body + c1).Some? && ParseHistoryRecord(body + c2).Some?
    ensures ParseHistoryRecord(body + c1) == ParseHistoryRecord(body + c2)
  {
    FromHexPairsThen(body, c1);
    FromHexPairsThen(body, c2);
    FromHexPairsThen(c1, []);
    FromHexPairsThen(c2, []);
    assert c1 + [] == c1 && c2 + [] == c2;
    var p := FromHex(body).value;
    PrefixDecode(p, FromHex(c1).value);
    PrefixDecode(p, FromHex(c2).value);
  }

  /** Only the first 34 bytes of the payload are read. */
  lemma PrefixDecode(p: seq<byte>, extra: seq<byte>)
    requires |p| >= PayloadLength
    ensures DecodePayload(p + extra) == DecodePayload(p)
  {
    forall lo: nat, hi: nat | lo <= hi <= PayloadLength
      ensures Slice(p + extra, lo, hi) == Slice(p, lo, hi)
    {
    }
  }

  /** A reply of 34 to 65 characters passes the length guard but decodes to
      at most 32 bytes, so its day sequence reads as 0. */
  lemma ShortReplyReadsZero(response: seq<byte>)
    requires PayloadLength <= |response| < 66
    requires FromHex(response).Some?
    ensures ParseHistoryRecord(response).Some?
    ensures ParseHistoryRecord(response).value.daySequence == 0
  {
    HexDigitCountBound(response);
  }

  /** A payload of exactly 33 bytes yields a partial day sequence: the low
      byte alone. */
  lemma PartialDaySequence(p: seq<byte>)
    requires |p| == 33
    ensures DecodePayload(p).daySequence == p[32]
  {
    var s := Slice(p, 32, 34);
    assert s == [p[32]];
    assert s[1..] == [];
    assert LittleEndian(s) == s[0] + 256 * LittleEndian(s[1..]) == p[32];
    assert DecodePayload(p).daySequence == FieldAt(p, 32, 34) == LittleEndian(s);
  }

  /** The scaled fields divide by 100 or 10: a raw yield of 12345 is 123.45 kWh. */
  lemma ScaledYield(p: seq<byte>)
    requires |p| >= PayloadLength
    requires FieldAt(p, 1, 5) == 12345
    ensures DecodePayload(p).yieldTotal.Value() == 123.45
  {
  }
}
