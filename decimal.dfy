/**
 * Decimal text of non-negative integers, as the backup script produces it
 * with Python's `str(no)` and `str.zfill(width)`, together with a parser of
 * ASCII digit strings that serves as their inverse in the properties below.
 */
module Decimal {
  import opened Wrappers

  predicate IsDigit(c: char) {
    '0' <= c <= '9'
  }

  predicate AllDigits(s: string) {
    forall i :: 0 <= i < |s| ==> IsDigit(s[i])
  }

  function DigitChar(d: nat): (c: char)
    requires d < 10
    ensures IsDigit(c) && c as int - '0' as int == d
  {
    ('0' as int + d) as char
  }

  function DigitValue(c: char): nat
    requires IsDigit(c)
  {
    c as int - '0' as int
  }

  function Pow10(k: nat): (p: nat)
    ensures p >= 1
  {
    if k == 0 then 1 else 10 * Pow10(k - 1)
  }

  /** Number of decimal digits of `n`; 0 has one digit, as in `str(0) == "0"`. */
  function NumDigits(n: nat): (k: nat)
    ensures k >= 1
  {
    if n < 10 then 1 else 1 + NumDigits(n / 10)
  }

  /** `n` fits in `k` digits exactly when it is below 10^k. */
  lemma {:induction false} NumDigitsBound(n: nat, k: nat)
    requires k >= 1
    ensures NumDigits(n) <= k <==> n < Pow10(k)
  {
    if n >= 10 {
      if k == 1 {
        assert Pow10(1) == 10;
      } else {
        NumDigitsBound(n / 10, k - 1);
        assert n < Pow10(k) <==> n / 10 < Pow10(k - 1);
      }
    }
  }

  /** Python's `str(n)` for a non-negative int: the shortest decimal form. */
  function DecimalString(n: nat): (s: string)
    ensures |s| == NumDigits(n)
    ensures AllDigits(s)
    ensures n >= 1 ==> s[0] != '0'
  {
    if n < 10 then [DigitChar(n)] else DecimalString(n / 10) + [DigitChar(n % 10)]
  }

  /** The value of a string of digits, read most significant digit first. */
  function ParseDigits(s: string): nat
    requires AllDigits(s)
  {
    if s == [] then 0 else 10 * ParseDigits(s[..|s| - 1]) + DigitValue(s[|s| - 1])
  }

  /**
   * Reads back a string of ASCII digits: `None` for the empty string and for
   * any string holding a character other than `'0'`..`'9'`. Leading zeros
   * are accepted, so padded text reads back to the number it renders.
   */
  function ParseNat(s: string): (r: Option<nat>)
    ensures r.Some? <==> s != [] && AllDigits(s)
  {
    if s != [] && AllDigits(s) then Some(ParseDigits(s)) else None
  }

  /** `k` copies of the padding character `'0'`. */
  function Zeros(k: nat): (z: string)
    ensures |z| == k && AllDigits(z)
    ensures forall i :: 0 <= i < k ==> z[i] == '0'
  {
    if k == 0 then [] else ['0'] + Zeros(k - 1)
  }

  /**
   * Python's `s.zfill(width)`: a string at least `width` long is returned
   * unchanged; otherwise `'0'`s are inserted on the left, after a leading
   * `'+'` or `'-'` sign when there is one.
   */
  function ZFill(s: string, width: nat): string
  {
    if |s| >= width then s
    else if |s| > 0 && (s[0] == '+' || s[0] == '-') then [s[0]] + Zeros(width - |s|) + s[1..]
    else Zeros(width - |s|) + s
  }

  /** Removes every `'0'` at the front of `s`. */
  function StripLeadingZeros(s: string): (r: string)
    ensures |r| <= |s| && r == s[|s| - |r|..]
    ensures r == [] || r[0] != '0'
  {
    if |s| > 0 && s[0] == '0' then StripLeadingZeros(s[1..]) else s
  }

  /** Padding never shortens: the result is `max(width, |s|)` long and keeps `s` as its tail. */
  lemma ZFillShape(s: string, width: nat)
    requires s == [] || (s[0] != '+' && s[0] != '-')
    ensures |ZFill(s, width)| == if |s| >= width then |s| else width
    ensures ZFill(s, width) == Zeros(|ZFill(s, width)| - |s|) + s
  {
    if |s| >= width {
      assert Zeros(0) + s == s;
    }
  }

  /** A sign stays in front of the inserted zeros. */
  lemma ZFillSigned(s: string, width: nat)
    requires |s| > 0 && (s[0] == '+' || s[0] == '-')
    ensures |ZFill(s, width)| == if |s| >= width then |s| else width
    ensures ZFill(s, width)[0] == s[0]
    ensures |s| < width ==> ZFill(s, width)[1..] == Zeros(width - |s|) + s[1..]
  {
    if |s| < width {
      var t := Zeros(width - |s|) + s[1..];
      assert ZFill(s, width) == [s[0]] + t;
      assert ([s[0]] + t)[1..] == t;
    }
  }


  lemma {:induction false} ParseDigitsZeros(k: nat)
    ensures ParseDigits(Zeros(k)) == 0
  {
    if k > 0 {
      ZerosSnoc(k);
      assert Zeros(k)[..k - 1] == Zeros(k - 1);
      ParseDigitsZeros(k - 1);
    }
  }

  /** Leading zeros do not change the value read back. */
  lemma {:induction false} ParseDigitsPadded(k: nat, s: string)
    requires AllDigits(s)
    ensures ParseDigits(Zeros(k) + s) == ParseDigits(s)
  {
    if s == [] {
      assert Zeros(k) + s == Zeros(k);
      ParseDigitsZeros(k);
    } else {
      var t := Zeros(k) + s;
      assert t[..|t| - 1] == Zeros(k) + s[..|s| - 1];
      ParseDigitsPadded(k, s[..|s| - 1]);
    }
  }

  /** Reading `str(n)` back gives `n`. */
  lemma {:induction false} ParseDecimalString(n: nat)
    ensures ParseDigits(DecimalString(n)) == n
  {
    if n >= 10 {
      var s := DecimalString(n);
      assert s[..|s| - 1] == DecimalString(n / 10);
      ParseDecimalString(n / 10);
    }
  }

  /** Zeros in front of a string that does not start with `'0'` are exactly what stripping removes. */
  lemma {:induction false} StripZerosPadded(k: nat, s: string)
    requires s == [] || s[0] != '0'
    ensures StripLeadingZeros(Zeros(k) + s) == s
  {
    if k == 0 {
      assert Zeros(k) + s == s;
      StripNothing(s);
    } else {
      var t := Zeros(k - 1) + s;
      assert Zeros(k) + s == ['0'] + t;
      StripCons(t);
      StripZerosPadded(k - 1, s);
    }
  }

  /** Text that does not start with `'0'` is left as it is. */
  lemma StripNothing(s: string)
    requires s == [] || s[0] != '0'
    ensures StripLeadingZeros(s) == s
  {
  }

  /** Stripping goes past one leading `'0'`. */
  lemma StripCons(t: string)
    ensures StripLeadingZeros(['0'] + t) == StripLeadingZeros(t)
  {
    assert (['0'] + t)[1..] == t;
  }

  lemma ZerosSnoc(k: nat)
    requires k > 0
    ensures Zeros(k) == Zeros(k - 1) + ['0']
  {
  }


  /** A digit string padded by `zfill` is itself behind zeros, and reads back to the same value. */
  lemma PaddedDigits(s: string, width: nat)
    requires s != [] && AllDigits(s)
    ensures |ZFill(s, width)| == if |s| >= width then |s| else width
    ensures AllDigits(ZFill(s, width))
    ensures ZFill(s, width) == Zeros(|ZFill(s, width)| - |s|) + s
    ensures ParseNat(ZFill(s, width)) == ParseNat(s)
  {
    assert IsDigit(s[0]);
    ZFillShape(s, width);
    var k := |ZFill(s, width)| - |s|;
    ParseDigitsPadded(k, s);
    AllDigitsConcat(Zeros(k), s);
  }

  /** `str(n).zfill(width)` is `str(n)` behind zeros up to `width` and reads back as `n`. */
  lemma PaddedDecimal(n: nat, width: nat)
    ensures |ZFill(DecimalString(n), width)| == if NumDigits(n) >= width then NumDigits(n) else width
    ensures AllDigits(ZFill(DecimalString(n), width))
    ensures ZFill(DecimalString(n), width)
         == Zeros(|ZFill(DecimalString(n), width)| - NumDigits(n)) + DecimalString(n)
    ensures ParseNat(ZFill(DecimalString(n), width)) == Some(n)
  {
    PaddedDigits(DecimalString(n), width);
    ParseDecimalString(n);
  }

  /** Digit strings stay digit strings when joined. */
  lemma AllDigitsConcat(a: string, b: string)
    requires AllDigits(a) && AllDigits(b)
    ensures AllDigits(a + b)
  {
    forall i | 0 <= i < |a + b| ensures IsDigit((a + b)[i]) {
      if i >= |a| {
        assert (a + b)[i] == b[i - |a|];
      }
    }
  }
}
