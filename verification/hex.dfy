/** Hexadecimal text as the scripts produce and consume it:
    `bytes_to_hex_string` (two upper-case digits per byte) and
    `bytes.fromhex` (digit pairs, ASCII whitespace allowed between pairs). */
module Hex {

  import opened Options
  import opened Bytes

  /** ASCII '0'-'9', 'A'-'F' and 'a'-'f'. */
  predicate IsHexDigit(b: byte)
  {
    48 <= b <= 57 || 65 <= b <= 70 || 97 <= b <= 102
  }

  predicate IsUpperHexDigit(b: byte)
  {
    48 <= b <= 57 || 65 <= b <= 70
  }

  /** The ASCII whitespace `bytes.fromhex` skips: space, TAB, LF, VT, FF, CR. */
  predicate IsSpace(b: byte)
  {
    b == 32 || 9 <= b <= 13
  }

  function DigitValue(b: byte): (v: nat)
    requires IsHexDigit(b)
    ensures v < 16
  {
    if b <= 57 then b - 48 else if b <= 70 then b - 55 else b - 87
  }

  /** The digit `format(v, 'X')` writes for a nibble. */
  function UpperDigit(v: nat): (b: byte)
    requires v < 16
    ensures IsUpperHexDigit(b) && IsHexDigit(b) && DigitValue(b) == v
  {
    if v < 10 then 48 + v else 55 + v
  }

  /** The number of hexadecimal digits in `s`. */
  function HexDigitCount(s: seq<byte>): nat
  {
    if |s| == 0 then 0 else (if IsHexDigit(s[0]) then 1 else 0) + HexDigitCount(s[1..])
  }

  lemma {:induction false} HexDigitCountBound(s: seq<byte>)
    ensures HexDigitCount(s) <= |s|
  {
    if |s| > 0 {
      HexDigitCountBound(s[1..]);
    }
  }

  /** `bytes_to_hex_string`: `''.join(f'{b:02X}' for b in bs)`. */
  function ToHex(bs: seq<byte>): (r: seq<byte>)
    ensures |r| == 2 * |bs|
    ensures forall i | 0 <= i < |r| :: IsUpperHexDigit(r[i])
  {
    if |bs| == 0 then []
    else [UpperDigit(bs[0] / 16), UpperDigit(bs[0] % 16)] + ToHex(bs[1..])
  }

  /** Hex spelling distributes over concatenation. */
  lemma {:induction false} ToHexAppend(a: seq<byte>, b: seq<byte>)
    ensures ToHex(a + b) == ToHex(a) + ToHex(b)
    decreases |a|
  {
    if |a| == 0 {
      assert a + b == b;
    } else {
      assert (a + b)[0] == a[0];
      assert (a + b)[1..] == a[1..] + b;
      ToHexAppend(a[1..], b);
    }
  }

  /** Byte `i` is spelled by digits `2i` and `2i+1`. */
  lemma {:induction false} ToHexAt(bs: seq<byte>, i: nat)
    requires i < |bs|
    ensures ToHex(bs)[2 * i] == UpperDigit(bs[i] / 16) && ToHex(bs)[2 * i + 1] == UpperDigit(bs[i] % 16)
  {
    if i > 0 {
      ToHexAt(bs[1..], i - 1);
    }
  }

  /** `bytes.fromhex(s)`; `None` where Python raises `ValueError`. Whitespace
      is skipped only in front of a digit pair, never between its two digits. */
  function FromHex(s: seq<byte>): (r: Option<seq<byte>>)
    ensures r.Some? ==> forall i | 0 <= i < |s| :: IsHexDigit(s[i]) || IsSpace(s[i])
    ensures r.Some? ==> 2 * |r.value| == HexDigitCount(s)
    decreases |s|
  {
    if |s| == 0 then Some([])
    else if IsSpace(s[0]) then FromHex(s[1..])
    else if |s| < 2 || !IsHexDigit(s[0]) || !IsHexDigit(s[1]) then None
    else
      assert s[1..][1..] == s[2..];
      match FromHex(s[2..])
      case None => None
      case Some(rest) => Some([16 * DigitValue(s[0]) + DigitValue(s[1])] + rest)
  }

  /** True of a sequence made only of hexadecimal digits, in pairs. */
  predicate HexPairs(s: seq<byte>)
  {
    |s| % 2 == 0 && forall i | 0 <= i < |s| :: IsHexDigit(s[i])
  }

  /** `hex_to_bytes` inverts `bytes_to_hex_string`. */
  lemma {:induction false} FromHexToHex(bs: seq<byte>)
    ensures FromHex(ToHex(bs)) == Some(bs)
  {
    if |bs| > 0 {
      var h := ToHex(bs);
      var hi, lo := UpperDigit(bs[0] / 16), UpperDigit(bs[0] % 16);
      assert h[0] == hi && h[1] == lo;
      assert h[2..] == ToHex(bs[1..]);
      FromHexToHex(bs[1..]);
      FromHexPair(h);
      assert 16 * DigitValue(hi) + DigitValue(lo) == bs[0];
      assert [bs[0]] + bs[1..] == bs;
    }
  }

  /** A leading digit pair decodes to one byte in front of the rest. */
  lemma FromHexPair(s: seq<byte>)
    requires |s| >= 2 && IsHexDigit(s[0]) && IsHexDigit(s[1])
    ensures FromHex(s) == if FromHex(s[2..]).None? then None
                          else Some([16 * DigitValue(s[0]) + DigitValue(s[1])] + FromHex(s[2..]).value)
  {
  }

  /** Decoding digit pairs followed by anything decodes the pairs, then the rest. */
  lemma {:induction false} FromHexPairsThen(a: seq<byte>, b: seq<byte>)
    requires HexPairs(a)
    ensures FromHex(a).Some? && |FromHex(a).value| == |a| / 2
    ensures FromHex(a + b).Some? <==> FromHex(b).Some?
    ensures FromHex(b).Some? ==> FromHex(a + b).value == FromHex(a).value + FromHex(b).value
  {
    if |a| == 0 {
      assert a + b == b;
    } else {
      var ab := a + b;
      assert ab[0] == a[0] && ab[1] == a[1];
      assert ab[2..] == a[2..] + b;
      FromHexPairsThen(a[2..], b);
      FromHexPair(a);
      FromHexPair(ab);
      if FromHex(b).Some? {
        var x := [16 * DigitValue(a[0]) + DigitValue(a[1])];
        assert x + (FromHex(a[2..]).value + FromHex(b).value) == (x + FromHex(a[2..]).value) + FromHex(b).value;
      }
    }
  }

  /** The byte at position `j` of decoded digit pairs comes from digits `2j` and `2j+1`. */
  lemma {:induction false} FromHexPairsAt(a: seq<byte>, j: nat)
    requires HexPairs(a) && j < |a| / 2
    ensures && FromHex(a).Some? && |FromHex(a).value| == |a| / 2
            && FromHex(a).value[j] == 16 * DigitValue(a[2 * j]) + DigitValue(a[2 * j + 1])
  {
    FromHexPairsThen(a, []);
    assert a + [] == a;
    if j > 0 {
      FromHexPairsThen(a[2..], []);
      assert a[2..] + [] == a[2..];
      FromHexPairsAt(a[2..], j - 1);
    }
  }

  /** Trailing whitespace, such as the line feed ending a response, is ignored. */
  lemma {:induction false} FromHexTrailingSpace(s: seq<byte>, w: seq<byte>)
    requires forall i | 0 <= i < |w| :: IsSpace(w[i])
    ensures FromHex(s + w) == FromHex(s)
    decreases |s| + |w|
  {
    if |s| == 0 {
      assert s + w == w;
      if |w| > 0 {
        FromHexTrailingSpace(s, w[1..]);
        assert s + w[1..] == w[1..];
      }
    } else if IsSpace(s[0]) {
      assert (s + w)[1..] == s[1..] + w;
      FromHexTrailingSpace(s[1..], w);
    } else if |s| == 1 {
      if |w| > 0 {
        assert (s + w)[1] == w[0];
      }
    } else {
      assert (s + w)[2..] == s[2..] + w;
      assert (s + w)[0] == s[0] && (s + w)[1] == s[1];
      FromHexTrailingSpace(s[2..], w);
    }
  }

  /** For a sequence of digits only, decoding succeeds exactly when their
      number is even. */
  lemma {:induction false} FromHexAllDigits(s: seq<byte>)
    requires forall i | 0 <= i < |s| :: IsHexDigit(s[i])
    ensures FromHex(s).Some? <==> |s| % 2 == 0
  {
    AllDigitsCount(s);
    if |s| % 2 == 0 {
      FromHexPairsThen(s, []);
      assert s + [] == s;
    }
  }

  lemma {:induction false} AllDigitsCount(s: seq<byte>)
    requires forall i | 0 <= i < |s| :: IsHexDigit(s[i])
    ensures HexDigitCount(s) == |s|
  {
    if |s| > 0 {
      AllDigitsCount(s[1..]);
    }
  }
}
