/** The VE.Direct text-protocol decoder of `Vedirect.input`: a six-state
    machine fed one byte at a time. It collects `Key<TAB>Value<CR><LF>` lines
    into a field map and hands that map back when the running byte sum,
    including the raw checksum byte, is 0 modulo 256. Hex-protocol echoes
    (lines starting with ':') are folded into the same map under "Get".

    The decoder keeps the code's quirks: the field map is never reset (the
    live map is what an emission returns), the value buffer is not cleared
    when a hex line ends, so its text prefixes the next field's value, and
    bytes of a "Get" echo count towards the text checksum. */
module TextFrame {

  import opened Options
  import opened Bytes

  datatype Phase = Hex | WaitHeader | InKey | InValue | InChecksum | InGet

  /** The field map (`self.dict`). */
  type Frame = map<string, string>

  /** `key`, `value`, `bytes_sum`, `state` and `dict` of a `Vedirect` object. */
  datatype Decoder = Decoder(phase: Phase, key: string, value: string, bytesSum: nat, fields: Frame)

  const Initial: Decoder := Decoder(WaitHeader, "", "", 0, map[])

  const ChecksumKey: string := "Checksum"
  const GetKey: string := "Get"

  /** The result of `input(byte)`: the next decoder and the returned map, if any. */
  datatype StepResult = StepResult(next: Decoder, frame: Option<Frame>)

  /** `chr(byte)`. */
  function Chr(b: byte): char
  {
    b as char
  }

  function Chars(bs: seq<byte>): (r: string)
    ensures |r| == |bs|
  {
    if |bs| == 0 then "" else [Chr(bs[0])] + Chars(bs[1..])
  }

  /** `chr` undoes `str.encode` on ASCII text, and `str.encode` undoes `chr`
      on bytes below 128: the key and value text the decoder builds are the
      bytes that were sent. */
  lemma {:induction false} CharsAscii(s: string)
    requires forall i | 0 <= i < |s| :: s[i] as int < 128
    ensures Chars(Ascii(s)) == s
  {
    if |s| > 0 {
      assert Ascii(s)[1..] == Ascii(s[1..]);
      CharsAscii(s[1..]);
    }
  }

  lemma {:induction false} AsciiChars(bs: seq<byte>)
    requires forall i | 0 <= i < |bs| :: bs[i] < 128
    ensures forall i | 0 <= i < |bs| :: Chars(bs)[i] as int < 128
    ensures Ascii(Chars(bs)) == bs
  {
    if |bs| > 0 {
      AsciiChars(bs[1..]);
      assert Chars(bs)[1..] == Chars(bs[1..]);
      assert Chars(bs)[0] == Chr(bs[0]);
    }
  }

  /** `Vedirect.input`: consume one byte. */
  function Step(d: Decoder, b: byte): (r: StepResult)
    // A map comes back only on the checksum byte, exactly when it zeroes the sum.
    ensures r.frame.Some? <==> d.phase == InChecksum && (d.bytesSum + b) % 256 == 0
    ensures r.frame.Some? ==> r.frame.value == d.fields
  {
    var e := if b == COLON && d.phase != InChecksum then d.(phase := Hex, key := "", value := "") else d;
    match e.phase
    case WaitHeader =>
      StepResult(e.(phase := if b == LF then InKey else WaitHeader, bytesSum := e.bytesSum + b), None)
    case InKey =>
      if b == TAB then
        StepResult(e.(phase := if e.key == ChecksumKey then InChecksum else InValue, bytesSum := e.bytesSum + b), None)
      else
        StepResult(e.(key := e.key + [Chr(b)], bytesSum := e.bytesSum + b), None)
    case InValue =>
      if b == CR then
        StepResult(Decoder(WaitHeader, "", "", e.bytesSum + b, e.fields[e.key := e.value]), None)
      else
        StepResult(e.(value := e.value + [Chr(b)], bytesSum := e.bytesSum + b), None)
    case InChecksum =>
      StepResult(Decoder(WaitHeader, "", "", 0, e.fields), if (e.bytesSum + b) % 256 == 0 then Some(e.fields) else None)
    case Hex =>
      var value := e.value + [Chr(b)];
      StepResult(e.(bytesSum := 0, value := value,
                    phase := if value == ":7" then InGet else if b == LF then WaitHeader else Hex), None)
    case InGet =>
      var value := e.value + [Chr(b)];
      if b == LF then
        StepResult(e.(bytesSum := e.bytesSum + b, value := value, phase := WaitHeader, fields := e.fields[GetKey := value]), None)
      else
        StepResult(e.(bytesSum := e.bytesSum + b, value := value), None)
  }

  /** What one byte does in each phase. These clauses live in a lemma rather
      than on `Step` so that they are only instantiated where a proof asks for
      them; the result is passed in as `r` to keep `Step(d, b)` out of every
      clause. */
  lemma StepCases(d: Decoder, b: byte, r: StepResult)
    requires r == Step(d, b)
    // After the checksum byte, valid or not, everything but the map is reset.
    ensures d.phase == InChecksum ==> r.next == Decoder(WaitHeader, "", "", 0, d.fields)
    // A ':' outside the checksum field starts a hex echo from scratch.
    ensures b == COLON && d.phase != InChecksum ==> r.next == Decoder(Hex, "", ":", 0, d.fields)
    // Waiting for a header: every byte counts, LF opens a key.
    ensures d.phase == WaitHeader && b != COLON ==>
      r.next == d.(phase := if b == LF then InKey else WaitHeader, bytesSum := d.bytesSum + b)
    // In a key: TAB ends it, any other byte (CR and LF included) extends it.
    ensures d.phase == InKey && b == TAB ==>
      r.next == d.(phase := if d.key == ChecksumKey then InChecksum else InValue, bytesSum := d.bytesSum + TAB)
    ensures d.phase == InKey && b != TAB && b != COLON ==>
      r.next == d.(key := d.key + [Chr(b)], bytesSum := d.bytesSum + b)
    // In a value: CR stores the pair and clears both buffers.
    ensures d.phase == InValue && b == CR ==>
      r.next == Decoder(WaitHeader, "", "", d.bytesSum + CR, d.fields[d.key := d.value])
    ensures d.phase == InValue && b != CR && b != COLON ==>
      r.next == d.(value := d.value + [Chr(b)], bytesSum := d.bytesSum + b)
    // In a hex echo: the sum is zeroed, ":7" marks a Get echo, LF abandons the line.
    ensures d.phase == Hex && b != COLON ==>
      && r.next.bytesSum == 0 && r.next.value == d.value + [Chr(b)] && r.next.key == d.key
      && r.next.fields == d.fields
      && r.next.phase == (if r.next.value == ":7" then InGet else if b == LF then WaitHeader else Hex)
    // In a Get echo: bytes count and are kept; LF stores the line under "Get".
    ensures d.phase == InGet && b != COLON ==>
      && r.next.bytesSum == d.bytesSum + b && r.next.value == d.value + [Chr(b)] && r.next.key == d.key
      && r.next.phase == (if b == LF then WaitHeader else InGet)
      && r.next.fields == (if b == LF then d.fields[GetKey := d.value + [Chr(b)]] else d.fields)
    // The map only grows, and only a completed pair or a completed echo writes to it.
    ensures d.fields.Keys <= r.next.fields.Keys
    ensures r.next.fields != d.fields ==> (d.phase == InValue && b == CR) || (d.phase == InGet && b == LF)
  {
  }

  /** The decoder after a byte sequence, with every map returned on the way. */
  datatype RunResult = RunResult(last: Decoder, frames: seq<Frame>)

  /** `input` applied to each byte of `bs` in turn (what `read_data_callback` does). */
  function Run(d: Decoder, bs: seq<byte>): (r: RunResult)
    ensures |r.frames| <= |bs|
    decreases |bs|
  {
    if |bs| == 0 then RunResult(d, [])
    else
      var s := Step(d, bs[0]);
      var rest := Run(s.next, bs[1..]);
      RunResult(rest.last, (if s.frame.Some? then [s.frame.value] else []) + rest.frames)
  }

  /** The map only grows over a run, and each map handed back holds every
      key of the one before it and of the map the run started from. */
  lemma {:induction false} RunMapGrows(d: Decoder, bs: seq<byte>)
    ensures var r := Run(d, bs);
      && d.fields.Keys <= r.last.fields.Keys
      && (forall i | 0 <= i < |r.frames| :: d.fields.Keys <= r.frames[i].Keys <= r.last.fields.Keys)
      && (forall i, j | 0 <= i < j < |r.frames| :: r.frames[i].Keys <= r.frames[j].Keys)
    decreases |bs|
  {
    if |bs| > 0 {
      var s := Step(d, bs[0]);
      StepCases(d, bs[0], s);
      RunMapGrows(s.next, bs[1..]);
      var rest := Run(s.next, bs[1..]);
      var r := Run(d, bs);
      if s.frame.Some? {
        assert r.frames == [d.fields] + rest.frames;
        forall i, j | 0 <= i < j < |r.frames|
          ensures r.frames[i].Keys <= r.frames[j].Keys
        {
          assert r.frames[j] == rest.frames[j - 1];
          if i > 0 {
            assert r.frames[i] == rest.frames[i - 1];
          }
        }
      } else {
        assert r.frames == rest.frames;
      }
    }
  }

  /** What the code relies on between bytes: a hex echo starts with ':' and a
      Get echo with ":7". */
  ghost predicate Inv(d: Decoder)
  {
    && (d.phase == Hex ==> |d.value| >= 1 && d.value[0] == ':')
    && (d.phase == InGet ==> |d.value| >= 2 && d.value[..2] == ":7")
  }

  lemma {:induction false} RunKeepsInv(d: Decoder, bs: seq<byte>)
    requires Inv(d)
    ensures Inv(Run(d, bs).last)
    decreases |bs|
  {
    if |bs| > 0 {
      var e := Step(d, bs[0]).next;
      assert Inv(e);
      RunKeepsInv(e, bs[1..]);
    }
  }

  /** A line feed ending a Get echo stores the whole echoed line, from ":7" to
      the line feed, under "Get". */
  lemma GetEchoStored(d: Decoder)
    requires Inv(d) && d.phase == InGet
    ensures var g := Step(d, LF).next.fields[GetKey];
      |g| >= 3 && g[..2] == ":7" && g[|g| - 1] == '\n' && g == d.value + "\n"
  {
  }

  /** Feeding a prefix that returns no map, then the rest, is feeding the rest
      to the decoder the prefix left behind. */
  lemma {:induction false} QuietPrefix(d: Decoder, a: seq<byte>, b: seq<byte>, e: Decoder)
    requires Run(d, a) == RunResult(e, [])
    ensures Run(d, a + b) == Run(e, b)
    decreases |a|
  {
    if |a| > 0 {
      assert (a + b)[1..] == a[1..] + b;
      assert (a + b)[0] == a[0];
      var s := Step(d, a[0]);
      assert s.frame.None? && Run(s.next, a[1..]) == RunResult(e, []);
      QuietPrefix(s.next, a[1..], b, e);
    } else {
      assert a + b == b;
    }
  }

  /** A key's bytes are taken into the key buffer one by one. */
  lemma {:induction false} KeyBytes(d: Decoder, k: seq<byte>)
    requires d.phase == InKey
    requires forall i | 0 <= i < |k| :: k[i] != TAB && k[i] != COLON
    ensures Run(d, k) == RunResult(d.(key := d.key + Chars(k), bytesSum := d.bytesSum + Sum(k)), [])
    decreases |k|
  {
    if |k| > 0 {
      var e := Step(d, k[0]).next;
      KeyBytes(e, k[1..]);
      assert e.key + Chars(k[1..]) == d.key + Chars(k);
    }
  }

  /** A value's bytes are taken into the value buffer one by one. */
  lemma {:induction false} ValueBytes(d: Decoder, v: seq<byte>)
    requires d.phase == InValue
    requires forall i | 0 <= i < |v| :: v[i] != CR && v[i] != COLON
    ensures Run(d, v) == RunResult(d.(value := d.value + Chars(v), bytesSum := d.bytesSum + Sum(v)), [])
    decreases |v|
  {
    if |v| > 0 {
      var e := Step(d, v[0]).next;
      ValueBytes(e, v[1..]);
      assert e.value + Chars(v[1..]) == d.value + Chars(v);
    }
  }

  /** One `Key<TAB>Value<CR><LF>` line of a text frame. */
  datatype Field = Field(key: seq<byte>, value: seq<byte>)

  const ChecksumKeyBytes: seq<byte> := [67, 104, 101, 99, 107, 115, 117, 109]

  /** A field the decoder reads back as written: no TAB or ':' in the key, which
      is not "Checksum", and no CR or ':' in the value. */
  predicate FieldOk(f: Field)
  {
    && (forall i | 0 <= i < |f.key| :: f.key[i] != TAB && f.key[i] != COLON)
    && Chars(f.key) != ChecksumKey
    && (forall i | 0 <= i < |f.value| :: f.value[i] != CR && f.value[i] != COLON)
  }

  function FieldBytes(f: Field): seq<byte>
  {
    f.key + [TAB] + f.value + [CR, LF]
  }

  function FieldsBytes(fs: seq<Field>): seq<byte>
  {
    if |fs| == 0 then [] else FieldBytes(fs[0]) + FieldsBytes(fs[1..])
  }

  /** A text frame on the wire: CR LF, the field lines, then the key
      "Checksum" (spelled by `checksumKey`), TAB and one raw checksum byte. */
  function FrameBytes(fs: seq<Field>, checksumKey: seq<byte>, checksum: byte): seq<byte>
  {
    [CR, LF] + FieldsBytes(fs) + checksumKey + [TAB, checksum]
  }

  /** The field map after storing the fields in order over `m`. */
  function Apply(m: Frame, fs: seq<Field>): Frame
    decreases |fs|
  {
    if |fs| == 0 then m else Apply(m[Chars(fs[0].key) := Chars(fs[0].value)], fs[1..])
  }

  /** The field map after storing the fields in order over `m` when the value
      buffer still holds `stale`, text an earlier hex echo left there: it is
      never cleared before the first field, so that field's value is stored
      with `stale` in front; every later field starts from a cleared buffer. */
  function ApplyStale(m: Frame, stale: string, fs: seq<Field>): Frame
  {
    if |fs| == 0 then m else Apply(m[Chars(fs[0].key) := stale + Chars(fs[0].value)], fs[1..])
  }

  lemma ApplyNoStale(m: Frame, fs: seq<Field>)
    ensures ApplyStale(m, "", fs) == Apply(m, fs)
  {
    if |fs| > 0 {
      assert "" + Chars(fs[0].value) == Chars(fs[0].value);
    }
  }

  /** Feeding one byte that returns no map, then the rest. */
  lemma QuietCons(d: Decoder, b: byte, rest: seq<byte>)
    requires Step(d, b).frame.None?
    ensures Run(d, [b] + rest) == Run(Step(d, b).next, rest)
  {
    assert ([b] + rest)[0] == b;
    assert ([b] + rest)[1..] == rest;
  }

  /** A key's bytes, then whatever follows. */
  lemma KeyPrefix(d: Decoder, k: seq<byte>, rest: seq<byte>, e: Decoder)
    requires d.phase == InKey
    requires forall i | 0 <= i < |k| :: k[i] != TAB && k[i] != COLON
    requires e == d.(key := d.key + Chars(k), bytesSum := d.bytesSum + Sum(k))
    ensures Run(d, k + rest) == Run(e, rest)
  {
    KeyBytes(d, k);
    QuietPrefix(d, k, rest, e);
  }

  /** A value's bytes, then whatever follows. */
  lemma ValuePrefix(d: Decoder, v: seq<byte>, rest: seq<byte>, e: Decoder)
    requires d.phase == InValue
    requires forall i | 0 <= i < |v| :: v[i] != CR && v[i] != COLON
    requires e == d.(value := d.value + Chars(v), bytesSum := d.bytesSum + Sum(v))
    ensures Run(d, v + rest) == Run(e, rest)
  {
    ValueBytes(d, v);
    QuietPrefix(d, v, rest, e);
  }

  /** The TAB after a key other than "Checksum" opens the value. */
  lemma TabToValue(d: Decoder, rest: seq<byte>, e: Decoder)
    requires d.phase == InKey && d.key != ChecksumKey
    requires e == d.(phase := InValue, bytesSum := d.bytesSum + TAB)
    ensures Run(d, [TAB] + rest) == Run(e, rest)
  {
    QuietCons(d, TAB, rest);
  }

  /** CR LF after a value stores the pair and opens the next key. */
  lemma CrLfStores(d: Decoder)
    requires d.phase == InValue
    ensures Run(d, [CR, LF]) == RunResult(Decoder(InKey, "", "", d.bytesSum + CR + LF, d.fields[d.key := d.value]), [])
  {
    var d4 := Decoder(WaitHeader, "", "", d.bytesSum + CR, d.fields[d.key := d.value]);
    assert [CR, LF] == [CR] + [LF];
    QuietCons(d, CR, [LF]);
    assert [LF] == [LF] + [];
    QuietCons(d4, LF, []);
  }

  /** A key that is not "Checksum" and its TAB move the decoder to the value. */
  lemma KeyThenTab(d: Decoder, k: seq<byte>, rest: seq<byte>, e: Decoder)
    requires d.phase == InKey && d.key == ""
    requires forall i | 0 <= i < |k| :: k[i] != TAB && k[i] != COLON
    requires Chars(k) != ChecksumKey
    requires e == Decoder(InValue, Chars(k), d.value, d.bytesSum + Sum(k) + TAB, d.fields)
    ensures Run(d, k + ([TAB] + rest)) == Run(e, rest)
  {
    var d1 := d.(key := Chars(k), bytesSum := d.bytesSum + Sum(k));
    assert d.key + Chars(k) == Chars(k);
    KeyPrefix(d, k, [TAB] + rest, d1);
    TabToValue(d1, rest, e);
  }

  /** A value and its CR LF store the pair, after whatever the value buffer
      already held, and open the next key with both buffers cleared. */
  lemma ValueThenCrLf(d: Decoder, v: seq<byte>)
    requires d.phase == InValue
    requires forall i | 0 <= i < |v| :: v[i] != CR && v[i] != COLON
    ensures Run(d, v + [CR, LF])
         == RunResult(Decoder(InKey, "", "", d.bytesSum + Sum(v) + CR + LF, d.fields[d.key := d.value + Chars(v)]), [])
  {
    var d3 := d.(value := d.value + Chars(v), bytesSum := d.bytesSum + Sum(v));
    ValuePrefix(d, v, [CR, LF], d3);
    CrLfStores(d3);
  }

  lemma FieldSum(f: Field)
    ensures Sum(FieldBytes(f)) == Sum(f.key) + TAB + Sum(f.value) + CR + LF
  {
    var crlf: seq<byte> := [CR, LF];
    var afterTab := f.value + crlf;
    assert FieldBytes(f) == f.key + ([TAB] + afterTab);
    SumAppend(f.key, [TAB] + afterTab);
    SumAppend([TAB], afterTab);
    SumAppend(f.value, crlf);
    assert crlf[1..] == [LF] && [LF][1..] == [];
  }

  /** One field line stores its value after whatever the value buffer held,
      and leaves both buffers cleared. */
  lemma {:induction false} OneField(d: Decoder, f: Field)
    requires d.phase == InKey && d.key == ""
    requires FieldOk(f)
    ensures Run(d, FieldBytes(f))
         == RunResult(d.(value := "", bytesSum := d.bytesSum + Sum(FieldBytes(f)),
                         fields := d.fields[Chars(f.key) := d.value + Chars(f.value)]), [])
  {
    var crlf: seq<byte> := [CR, LF];
    var d2 := d.(phase := InValue, key := Chars(f.key), bytesSum := d.bytesSum + Sum(f.key) + TAB);
    assert Run(d, FieldBytes(f)) == Run(d2, f.value + crlf) by {
      assert FieldBytes(f) == f.key + ([TAB] + (f.value + crlf));
      KeyThenTab(d, f.key, f.value + crlf, d2);
    }
    ValueThenCrLf(d2, f.value);
    FieldSum(f);
  }

  lemma {:induction false} ManyFields(d: Decoder, fs: seq<Field>)
    requires d.phase == InKey && d.key == "" && d.value == ""
    requires forall i | 0 <= i < |fs| :: FieldOk(fs[i])
    ensures Run(d, FieldsBytes(fs))
         == RunResult(d.(bytesSum := d.bytesSum + Sum(FieldsBytes(fs)), fields := Apply(d.fields, fs)), [])
    decreases |fs|
  {
    if |fs| > 0 {
      var e := d.(bytesSum := d.bytesSum + Sum(FieldBytes(fs[0])),
                  fields := d.fields[Chars(fs[0].key) := Chars(fs[0].value)]);
      OneField(d, fs[0]);
      assert d.value + Chars(fs[0].value) == Chars(fs[0].value);
      QuietPrefix(d, FieldBytes(fs[0]), FieldsBytes(fs[1..]), e);
      ManyFields(e, fs[1..]);
      SumAppend(FieldBytes(fs[0]), FieldsBytes(fs[1..]));
    }
  }

  lemma ChecksumKeyBytesOk()
    ensures IsChecksumKey(ChecksumKeyBytes)
  {
  }

  /** TAB after the "Checksum" key, then the checksum byte. */
  lemma ChecksumTab(d: Decoder, c: byte)
    requires d.phase == InKey && d.key == ChecksumKey
    ensures Run(d, [TAB, c])
         == RunResult(Decoder(WaitHeader, "", "", 0, d.fields),
                      if (d.bytesSum + TAB + c) % 256 == 0 then [d.fields] else [])
  {
    var d2 := d.(phase := InChecksum, bytesSum := d.bytesSum + TAB);
    assert [TAB, c] == [TAB] + [c];
    QuietCons(d, TAB, [c]);
    assert [c][0] == c && [c][1..] == [];
  }

  lemma ChecksumTailSum(k: seq<byte>, c: byte)
    ensures Sum(k + [TAB, c]) == Sum(k) + TAB + c
  {
    var tc: seq<byte> := [TAB, c];
    SumAppend(k, tc);
    assert tc[0] == TAB && tc[1..] == [c] && [c][1..] == [];
    assert Sum([c]) == c + Sum([]);
    assert Sum(tc) == TAB + Sum([c]);
  }

  lemma {:induction false} ChecksumField(d: Decoder, k: seq<byte>, c: byte)
    requires d.phase == InKey && d.key == ""
    requires IsChecksumKey(k)
    ensures Run(d, k + [TAB, c])
         == RunResult(Decoder(WaitHeader, "", "", 0, d.fields),
                      if (d.bytesSum + Sum(k + [TAB, c])) % 256 == 0 then [d.fields] else [])
  {
    var d1 := d.(key := Chars(k), bytesSum := d.bytesSum + Sum(k));
    assert d.key + Chars(k) == Chars(k);
    KeyPrefix(d, k, [TAB, c], d1);
    ChecksumTab(d1, c);
    ChecksumTailSum(k, c);
  }

  /** The "Checksum" key the decoder recognises, spelled in bytes. */
  predicate IsChecksumKey(k: seq<byte>)
  {
    Chars(k) == ChecksumKey && forall i | 0 <= i < |k| :: k[i] != TAB && k[i] != COLON
  }

  lemma {:induction false} FrameHead(d: Decoder)
    requires d.phase == WaitHeader
    ensures Run(d, [CR, LF]) == RunResult(d.(phase := InKey, bytesSum := d.bytesSum + CR + LF), [])
  {
    var d1 := Step(d, CR).next;
    assert [CR, LF] == [CR] + [LF];
    QuietCons(d, CR, [LF]);
    assert [LF] == [LF] + [];
    QuietCons(d1, LF, []);
  }

  lemma FrameSum(fs: seq<Field>, k: seq<byte>, c: byte)
    ensures Sum(FrameBytes(fs, k, c)) == CR + LF + Sum(FieldsBytes(fs)) + Sum(k + [TAB, c])
  {
    var head: seq<byte> := [CR, LF];
    var body := FieldsBytes(fs);
    var tail := k + [TAB, c];
    assert FrameBytes(fs, k, c) == head + (body + tail);
    SumAppend(head, body + tail);
    SumAppend(body, tail);
    PairSum(CR, LF);
  }

  lemma PairSum(a: byte, b: byte)
    ensures Sum([a, b]) == a + b
  {
    assert [a, b][1..] == [b] && [b][1..] == [];
    assert Sum([b]) == b + Sum([]);
  }

  /** The field lines, then whatever follows. */
  lemma FieldsThen(d: Decoder, fs: seq<Field>, rest: seq<byte>, e: Decoder)
    requires d.phase == InKey && d.key == "" && d.value == ""
    requires forall i | 0 <= i < |fs| :: FieldOk(fs[i])
    requires e == d.(bytesSum := d.bytesSum + Sum(FieldsBytes(fs)), fields := Apply(d.fields, fs))
    ensures Run(d, FieldsBytes(fs) + rest) == Run(e, rest)
  {
    ManyFields(d, fs);
    QuietPrefix(d, FieldsBytes(fs), rest, e);
  }

  /** The field lines, with the value buffer still holding stale text, then
      whatever follows. */
  lemma StaleFieldsThen(d: Decoder, fs: seq<Field>, rest: seq<byte>, e: Decoder)
    requires d.phase == InKey && d.key == ""
    requires forall i | 0 <= i < |fs| :: FieldOk(fs[i])
    requires e == d.(value := if |fs| == 0 then d.value else "",
                     bytesSum := d.bytesSum + Sum(FieldsBytes(fs)),
                     fields := ApplyStale(d.fields, d.value, fs))
    ensures Run(d, FieldsBytes(fs) + rest) == Run(e, rest)
  {
    if |fs| == 0 {
      assert FieldsBytes(fs) + rest == rest;
    } else {
      var e1 := d.(value := "", bytesSum := d.bytesSum + Sum(FieldBytes(fs[0])),
                   fields := d.fields[Chars(fs[0].key) := d.value + Chars(fs[0].value)]);
      assert FieldsBytes(fs) == FieldBytes(fs[0]) + FieldsBytes(fs[1..]);
      assert FieldsBytes(fs) + rest == FieldBytes(fs[0]) + (FieldsBytes(fs[1..]) + rest);
      FirstFieldThen(d, fs[0], FieldsBytes(fs[1..]) + rest, e1);
      SumAppend(FieldBytes(fs[0]), FieldsBytes(fs[1..]));
      assert ApplyStale(d.fields, d.value, fs) == Apply(e1.fields, fs[1..]);
      FieldsThen(e1, fs[1..], rest, e);
    }
  }

  /** One field line after stale value text, then whatever follows. */
  lemma FirstFieldThen(d: Decoder, f: Field, rest: seq<byte>, e: Decoder)
    requires d.phase == InKey && d.key == "" && FieldOk(f)
    requires e == d.(value := "", bytesSum := d.bytesSum + Sum(FieldBytes(f)),
                     fields := d.fields[Chars(f.key) := d.value + Chars(f.value)])
    ensures Run(d, FieldBytes(f) + rest) == Run(e, rest)
  {
    OneField(d, f);
    QuietPrefix(d, FieldBytes(f), rest, e);
  }

  /** A well-formed text frame, fed to a decoder waiting for a header, stores
      every field, and is returned exactly when the running sum including the
      checksum byte is 0 modulo 256; either way the decoder ends reset,
      keeping the map. Text a hex echo left in the value buffer is not
      cleared first: it ends up in front of the first field's value. */
  lemma {:induction false} DecodeFrame(d: Decoder, fs: seq<Field>, k: seq<byte>, c: byte)
    requires d.phase == WaitHeader && d.key == ""
    requires forall i | 0 <= i < |fs| :: FieldOk(fs[i])
    requires IsChecksumKey(k)
    ensures var m := ApplyStale(d.fields, d.value, fs);
            Run(d, FrameBytes(fs, k, c)) ==
              RunResult(Decoder(WaitHeader, "", "", 0, m),
                        if (d.bytesSum + Sum(FrameBytes(fs, k, c))) % 256 == 0 then [m] else [])
  {
    var body := FieldsBytes(fs);
    var tail := k + [TAB, c];
    var d2 := d.(phase := InKey, bytesSum := d.bytesSum + CR + LF);
    var d3 := d2.(value := if |fs| == 0 then d.value else "", bytesSum := d2.bytesSum + Sum(body),
                  fields := ApplyStale(d.fields, d.value, fs));
    assert Run(d, FrameBytes(fs, k, c)) == Run(d2, body + tail) by {
      assert FrameBytes(fs, k, c) == [CR, LF] + (body + tail);
      FrameHead(d);
      QuietPrefix(d, [CR, LF], body + tail, d2);
    }
    assert Run(d2, body + tail) == Run(d3, tail) by {
      StaleFieldsThen(d2, fs, tail, d3);
    }
    assert Run(d3, tail)
        == RunResult(Decoder(WaitHeader, "", "", 0, d3.fields),
                     if (d3.bytesSum + Sum(tail)) % 256 == 0 then [d3.fields] else []) by {
      ChecksumField(d3, k, c);
    }
    assert d3.bytesSum + Sum(tail) == d.bytesSum + Sum(FrameBytes(fs, k, c)) by {
      FrameSum(fs, k, c);
    }
  }

  /** The checksum byte a sender puts at the end of a frame that starts from a
      zero sum. */
  function FrameChecksum(fs: seq<Field>, k: seq<byte>): (c: byte)
    ensures (Sum(FrameBytes(fs, k, c))) % 256 == 0
  {
    var pre := [CR, LF] + FieldsBytes(fs) + k + [TAB];
    var c := (256 - Sum(pre) % 256) % 256;
    assert FrameBytes(fs, k, c) == pre + [c];
    SumAppend(pre, [c]);
    assert [c][1..] == [];
    c
  }

  /** Spelling a frame out with its checksum and decoding it from a decoder
      in its initial or just-reset shape returns exactly one map: the previous
      map with every field stored. From `Initial` that is just the fields. */
  lemma EncodeDecodeFrame(d: Decoder, fs: seq<Field>, k: seq<byte>)
    requires d.phase == WaitHeader && d.key == "" && d.value == "" && d.bytesSum == 0
    requires forall i | 0 <= i < |fs| :: FieldOk(fs[i])
    requires IsChecksumKey(k)
    ensures Run(d, FrameBytes(fs, k, FrameChecksum(fs, k))).frames == [Apply(d.fields, fs)]
  {
    var c := FrameChecksum(fs, k);
    CheckedFrame(d, fs, k, c);
    ApplyNoStale(d.fields, fs);
  }

  /** A frame whose bytes bring the running sum to 0 modulo 256 is returned. */
  lemma CheckedFrame(d: Decoder, fs: seq<Field>, k: seq<byte>, c: byte)
    requires d.phase == WaitHeader && d.key == ""
    requires forall i | 0 <= i < |fs| :: FieldOk(fs[i])
    requires IsChecksumKey(k)
    requires (d.bytesSum + Sum(FrameBytes(fs, k, c))) % 256 == 0
    ensures Run(d, FrameBytes(fs, k, c)).frames == [ApplyStale(d.fields, d.value, fs)]
  {
    DecodeFrame(d, fs, k, c);
  }

  /** Feeding an echoed Get command to a decoder outside the checksum field
      stores it under "Get" with its line feed, leaves the echo in the value
      buffer, and leaves a sum that counts the echo from its third byte on. */
  lemma {:induction false} GetEcho(d: Decoder, body: seq<byte>)
    requires d.phase != InChecksum
    requires forall i | 0 <= i < |body| :: body[i] != COLON && body[i] != LF
    ensures var r := Run(d, [COLON, 55] + body + [LF]);
      && r.frames == []
      && r.last.phase == WaitHeader
      && r.last.key == ""
      && r.last.value == ":7" + Chars(body) + "\n"
      && r.last.fields == d.fields[GetKey := ":7" + Chars(body) + "\n"]
      && r.last.bytesSum == Sum(body) + LF
  {
    var d2 := Decoder(InGet, "", ":7", 0, d.fields);
    assert Run(d, [COLON, 55]) == RunResult(d2, []) by {
      assert [COLON, 55][1..] == [55];
      assert [55][1..] == [];
    }
    QuietPrefix(d, [COLON, 55], body + [LF], d2);
    assert [COLON, 55] + body + [LF] == [COLON, 55] + (body + [LF]);
    GetBody(d2, body);
    QuietPrefix(d2, body, [LF], d2.(value := d2.value + Chars(body), bytesSum := d2.bytesSum + Sum(body)));
  }

  /** A Get echo followed by a text frame. The echo leaves `e`: its text in
      the value buffer and under "Get", and its bytes from the third on in
      the sum. The frame is then returned exactly when that sum and the
      frame's bytes total 0 modulo 256, and the echo text ends up in front of
      the first field's value. */
  lemma EchoThenFrame(d: Decoder, body: seq<byte>, fs: seq<Field>, k: seq<byte>, c: byte, e: Decoder)
    requires d.phase != InChecksum
    requires forall i | 0 <= i < |body| :: body[i] != COLON && body[i] != LF
    requires forall i | 0 <= i < |fs| :: FieldOk(fs[i])
    requires IsChecksumKey(k)
    requires e == Run(d, [COLON, 55] + body + [LF]).last
    ensures e.value == ":7" + Chars(body) + "\n" && e.fields == d.fields[GetKey := e.value]
    ensures e.bytesSum == Sum(body) + LF
    ensures Run(d, [COLON, 55] + body + [LF] + FrameBytes(fs, k, c)).frames ==
              if (e.bytesSum + Sum(FrameBytes(fs, k, c))) % 256 == 0
              then [ApplyStale(e.fields, e.value, fs)] else []
  {
    var echoBytes := [COLON, 55] + body + [LF];
    GetEcho(d, body);
    assert Run(d, echoBytes) == RunResult(e, []);
    QuietThenFrame(d, echoBytes, e, fs, k, c);
  }

  /** Bytes that return nothing, then a text frame. */
  lemma QuietThenFrame(d: Decoder, a: seq<byte>, e: Decoder, fs: seq<Field>, k: seq<byte>, c: byte)
    requires Run(d, a) == RunResult(e, [])
    requires e.phase == WaitHeader && e.key == ""
    requires forall i | 0 <= i < |fs| :: FieldOk(fs[i])
    requires IsChecksumKey(k)
    ensures Run(d, a + FrameBytes(fs, k, c)).frames ==
              if (e.bytesSum + Sum(FrameBytes(fs, k, c))) % 256 == 0
              then [ApplyStale(e.fields, e.value, fs)] else []
  {
    QuietPrefix(d, a, FrameBytes(fs, k, c), e);
    DecodeFrame(e, fs, k, c);
  }

  lemma {:induction false} GetBody(d: Decoder, body: seq<byte>)
    requires d.phase == InGet
    requires forall i | 0 <= i < |body| :: body[i] != COLON && body[i] != LF
    ensures Run(d, body) == RunResult(d.(value := d.value + Chars(body), bytesSum := d.bytesSum + Sum(body)), [])
    decreases |body|
  {
    if |body| > 0 {
      var e := Step(d, body[0]).next;
      GetBody(e, body[1..]);
      assert e.value + Chars(body[1..]) == d.value + Chars(body);
    }
  }
}
