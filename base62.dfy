/** Base-62 positional notation for the short-code generator.

    The generator relies on a base-62 encoder that is not part of the
    repository; this module supplies one. Its alphabet is `0-9`, `A-Z`, `a-z`,
    so `'0'` is the zero digit, the symbol the generator pads with. No claim is
    made about the lexicographic order of encodings. */
module Base62 {

  const Base: nat := 62

  predicate IsDigit(c: char) {
    '0' <= c <= '9' || 'A' <= c <= 'Z' || 'a' <= c <= 'z'
  }

  predicate IsDigits(s: string) {
    forall i :: 0 <= i < |s| ==> IsDigit(s[i])
  }

  /** The value of one digit. */
  function Value(c: char): (v: nat)
    requires IsDigit(c)
    ensures v < Base
    ensures v == 0 <==> c == '0'
  {
    if c <= '9' then c as int - '0' as int
    else if c <= 'Z' then c as int - 'A' as int + 10
    else c as int - 'a' as int + 36
  }

  /** The digit of a value below the base. */
  function Digit(v: nat): (c: char)
    requires v < Base
    ensures IsDigit(c) && Value(c) == v
  {
    if v < 10 then (v + '0' as int) as char
    else if v < 36 then (v - 10 + 'A' as int) as char
    else (v - 36 + 'a' as int) as char
  }

  lemma DigitOfValue(c: char)
    requires IsDigit(c)
    ensures Digit(Value(c)) == c
  {
  }

  /** The shortest base-62 numeral of `n`: never empty, and with no leading
      zero digit unless `n` is zero. */
  function Encode(n: nat): (s: string)
    ensures |s| >= 1 && IsDigits(s)
    ensures s[0] == '0' <==> n == 0
    decreases n
  {
    if n < Base then [Digit(n)] else Encode(n / Base) + [Digit(n % Base)]
  }

  /** The value of a numeral, most significant digit first. */
  function Decode(s: string): (n: nat)
    requires IsDigits(s)
  {
    if s == [] then 0 else Decode(s[..|s| - 1]) * Base + Value(s[|s| - 1])
  }

  function Zeros(k: nat): (z: string)
    ensures |z| == k && IsDigits(z)
    ensures forall i :: 0 <= i < k ==> z[i] == '0'
  {
    seq(k, _ => '0')
  }

  /** `s` left-padded with the zero digit to at least `width` symbols; a
      longer `s` is kept whole, never truncated. */
  function PadLeft(s: string, width: nat): (p: string)
    ensures |p| == if |s| < width then width else |s|
    ensures p[|p| - |s|..] == s
    ensures forall i :: 0 <= i < |p| - |s| ==> p[i] == '0'
  {
    if |s| < width then Zeros(width - |s|) + s else s
  }

  function Pow(k: nat): (p: nat)
    ensures p >= 1
  {
    if k == 0 then 1 else Base * Pow(k - 1)
  }

  /** Decoding undoes encoding. */
  lemma {:induction false} DecodeEncode(n: nat)
    ensures Decode(Encode(n)) == n
    decreases n
  {
    if n >= Base {
      var s := Encode(n);
      assert s[..|s| - 1] == Encode(n / Base);
      DecodeEncode(n / Base);
    }
  }

  /** Every numeral without a superfluous leading zero is the encoding of its
      value, so `Encode` is a bijection onto such numerals. */
  lemma {:induction false} EncodeDecode(s: string)
    requires IsDigits(s) && |s| >= 1
    requires s[0] == '0' ==> |s| == 1
    ensures Encode(Decode(s)) == s
    decreases |s|
  {
    if |s| == 1 {
      DigitOfValue(s[0]);
      assert Encode(Decode(s)) == [s[0]];
    } else {
      var p := s[..|s| - 1];
      EncodeDecode(p);
      assert Decode(p) != 0;
      var n := Decode(s);
      assert n / Base == Decode(p) && n % Base == Value(s[|s| - 1]);
      DigitOfValue(s[|s| - 1]);
      assert s == p + [s[|s| - 1]];
    }
  }

  /** Leading zero digits do not change the value of a numeral. */
  lemma {:induction false} DecodeZeros(k: nat, s: string)
    requires IsDigits(s)
    ensures IsDigits(Zeros(k) + s) && Decode(Zeros(k) + s) == Decode(s)
    decreases |s|, k
  {
    var z := Zeros(k) + s;
    if s == [] {
      assert z == Zeros(k);
      if k > 0 {
        assert z[..k - 1] == Zeros(k - 1) + [];
        DecodeZeros(k - 1, []);
      }
    } else {
      assert z[..|z| - 1] == Zeros(k) + s[..|s| - 1];
      DecodeZeros(k, s[..|s| - 1]);
    }
  }

  /** Padding preserves the value. */
  lemma DecodePadLeft(s: string, width: nat)
    requires IsDigits(s)
    ensures IsDigits(PadLeft(s, width)) && Decode(PadLeft(s, width)) == Decode(s)
  {
    if |s| < width {
      DecodeZeros(width - |s|, s);
    }
  }

  /** Distinct values give distinct padded encodings, whatever the width. */
  lemma PaddedEncodingInjective(n1: nat, n2: nat, width: nat)
    requires PadLeft(Encode(n1), width) == PadLeft(Encode(n2), width)
    ensures n1 == n2
  {
    DecodePadLeft(Encode(n1), width);
    DecodePadLeft(Encode(n2), width);
    DecodeEncode(n1);
    DecodeEncode(n2);
  }

  /** An encoding fits in `k` symbols exactly when the value is below 62^k. */
  lemma {:induction false} EncodeLength(n: nat, k: nat)
    requires k >= 1
    ensures |Encode(n)| <= k <==> n < Pow(k)
    decreases n
  {
    if n < Base {
      PowAtLeastBase(k);
    } else if k == 1 {
      assert Pow(1) == Base;
    } else {
      EncodeLength(n / Base, k - 1);
    }
  }

  lemma {:induction false} PowAtLeastBase(k: nat)
    requires k >= 1
    ensures Pow(k) >= Base
  {
    if k > 1 {
      PowAtLeastBase(k - 1);
    }
  }
}
