/**
 * Decimal text of integers, as Python's `str(int)`, `str.zfill` and `int(str)`
 * produce and read it. Used by the copy identifier of a book copy and by the
 * error messages that print a received number.
 */
module Decimal {
  import opened Wrappers

  predicate IsDigit(c: char) {
    '0' <= c <= '9'
  }

  predicate AllDigits(s: string) {
    forall i :: 0 <= i < |s| ==> IsDigit(s[i])
  }

  function DigitChar(d: nat): (c: char)
    requires d < 10
    ensures IsDigit(c)
  {
    ('0' as int + d) as char
  }

  function DigitValue(c: char): (d: nat)
    requires IsDigit(c)
    ensures d < 10
  {
    c as int - '0' as int
  }

  function Pow10(n: nat): (r: nat)
    ensures r >= 1
  {
    if n == 0 then 1 else 10 * Pow10(n - 1)
  }

  /** `k` zero characters, as `'0' * k`. */
  function Zeros(k: nat): (s: string)
    ensures |s| == k && AllDigits(s)
  {
    if k == 0 then [] else Zeros(k - 1) + ['0']
  }

  /** The decimal digits of a natural number, most significant first, without leading zeros. */
  function NatStr(n: nat): (s: string)
    ensures |s| > 0 && AllDigits(s)
    ensures s[0] == '0' <==> n == 0
  {
    if n < 10 then [DigitChar(n)] else NatStr(n / 10) + [DigitChar(n % 10)]
  }

  /** Python's `str(n)` on an integer: a minus sign, then the digits of the magnitude. */
  function Str(n: int): (r: string)
    ensures |r| > 0 && (r[0] == '-' <==> n < 0)
    ensures n < 0 ==> |r| > 1 && AllDigits(r[1..]) && r[1] != '0'
    ensures n >= 0 ==> AllDigits(r) && (r[0] == '0' <==> n == 0)
  {
    if n < 0 then "-" + NatStr(-n) else NatStr(n)
  }

  /** `str(1)`, `str(2)` and `str(20)`, as the error messages of the tests spell them. */
  lemma StrExamples()
    ensures Str(1) == "1" && Str(2) == "2" && Str(20) == "20"
  {
    assert DigitChar(0) == '0' && DigitChar(1) == '1' && DigitChar(2) == '2';
    assert NatStr(20) == NatStr(2) + [DigitChar(0)];
  }

  /** The value of a string of digits read in base ten. */
  function DigitsValue(s: string): nat
    requires AllDigits(s)
  {
    if s == [] then 0 else DigitsValue(s[..|s| - 1]) * 10 + DigitValue(s[|s| - 1])
  }

  /** The string starts with a sign character. */
  predicate HasSign(s: string) {
    |s| > 0 && (s[0] == '-' || s[0] == '+')
  }

  /**
   * Python's `str.zfill(width)`: pads with zeros on the left up to `width`,
   * keeping a leading sign in front of the zeros; never truncates.
   */
  function ZFill(s: string, width: nat): (r: string)
    ensures |r| == if |s| >= width then |s| else width
    ensures |s| >= width ==> r == s
    ensures |s| < width && HasSign(s) ==>
      r[0] == s[0] && r[1..width - |s| + 1] == Zeros(width - |s|) && r[width - |s| + 1..] == s[1..]
    ensures |s| < width && !HasSign(s) ==>
      r[..width - |s|] == Zeros(width - |s|) && r[width - |s|..] == s
  {
    if |s| >= width then s
    else if HasSign(s) then [s[0]] + Zeros(width - |s|) + s[1..]
    else Zeros(width - |s|) + s
  }

  /**
   * Python's `int(s)` on a string of an optional sign followed by decimal digits;
   * `None` stands for the `ValueError` it raises on anything else.
   */
  function ParseInt(s: string): (r: Option<int>)
    ensures r.Some? <==> |s| > 0 && (AllDigits(s) || (HasSign(s) && |s| > 1 && AllDigits(s[1..])))
    ensures r.Some? && s[0] == '-' ==> r.value <= 0
    ensures r.Some? && s[0] != '-' ==> r.value >= 0
  {
    if HasSign(s) then
      if |s| > 1 && AllDigits(s[1..]) then
        var magnitude: int := DigitsValue(s[1..]);
        Some(if s[0] == '-' then -magnitude else magnitude)
      else None
    else if |s| > 0 && AllDigits(s) then Some(DigitsValue(s))
    else None
  }

  // ---------------------------------------------------------------------------
  // Lemmas
  // ---------------------------------------------------------------------------

  lemma AllDigitsAppend(a: string, b: string)
    requires AllDigits(a) && AllDigits(b)
    ensures AllDigits(a + b)
  {
    forall i | 0 <= i < |a + b| ensures IsDigit((a + b)[i]) {
      if i < |a| { assert (a + b)[i] == a[i]; } else { assert (a + b)[i] == b[i - |a|]; }
    }
  }

  /** One more digit on the right: `(x * p + y) * 10 + d` regrouped. */
  lemma ShiftOneDigit(x: int, p: int, y: int, d: int)
    ensures (x * p + y) * 10 + d == x * (p * 10) + (y * 10 + d)
  {
  }

  /** Reading a concatenation shifts the left part by the length of the right part. */
  lemma {:induction false} DigitsValueAppend(a: string, b: string)
    requires AllDigits(a) && AllDigits(b)
    ensures AllDigits(a + b)
    ensures DigitsValue(a + b) == DigitsValue(a) * Pow10(|b|) + DigitsValue(b)
  {
    AllDigitsAppend(a, b);
    if b == [] {
      assert a + b == a;
    } else {
      var b' := b[..|b| - 1];
      var last := b[|b| - 1];
      assert AllDigits(b');
      assert (a + b)[..|a + b| - 1] == a + b';
      assert (a + b)[|a + b| - 1] == last;
      DigitsValueAppend(a, b');
      ShiftOneDigit(DigitsValue(a), Pow10(|b'|), DigitsValue(b'), DigitValue(last));
    }
  }

  /** Leading zeros do not change the value read. */
  lemma {:induction false} ZerosValue(k: nat)
    ensures DigitsValue(Zeros(k)) == 0
  {
    if k > 0 {
      ZerosValue(k - 1);
      assert Zeros(k)[..k - 1] == Zeros(k - 1);
    }
  }

  /** The digits of `n` read back give `n`. */
  lemma {:induction false} NatStrValue(n: nat)
    ensures DigitsValue(NatStr(n)) == n
  {
    if n >= 10 {
      NatStrValue(n / 10);
      var s := NatStr(n);
      assert s[..|s| - 1] == NatStr(n / 10);
    }
  }

  /** A natural number has at most `k` digits exactly when it is below `10^k` (zero has one digit). */
  lemma {:induction false} NatStrLength(n: nat, k: nat)
    requires n > 0 || k > 0
    ensures |NatStr(n)| <= k <==> n < Pow10(k)
  {
    if n >= 10 {
      if k > 0 {
        NatStrLength(n / 10, k - 1);
      } else {
        assert |NatStr(n)| >= 1;
      }
    } else if k > 0 {
      assert |NatStr(n)| == 1;
      assert Pow10(k) == 10 * Pow10(k - 1) >= 10;
    }
  }

  /** `int` of a minus sign followed by digits. */
  lemma ParseNegative(digits: string)
    requires |digits| > 0 && AllDigits(digits)
    ensures ParseInt("-" + digits) == Some(-(DigitsValue(digits) as int))
  {
    var s := "-" + digits;
    assert s[1..] == digits;
  }

  /** `int` of a non-empty string of digits. */
  lemma ParseDigits(digits: string)
    requires |digits| > 0 && AllDigits(digits)
    ensures ParseInt(digits) == Some(DigitsValue(digits) as int)
  {
    assert IsDigit(digits[0]);
  }

  /** Python's `int(str(n)) == n`. */
  lemma ParseStr(n: int)
    ensures ParseInt(Str(n)) == Some(n)
  {
    if n < 0 {
      NatStrValue(-n);
      ParseNegative(NatStr(-n));
    } else {
      NatStrValue(n);
      ParseDigits(NatStr(n));
    }
  }

  /** `zfill` of the digits of a natural number: digits, at least `width` of them, same value. */
  lemma ZFillNatStr(n: nat, width: nat)
    ensures AllDigits(ZFill(NatStr(n), width))
    ensures |ZFill(NatStr(n), width)| == if |NatStr(n)| >= width then |NatStr(n)| else width
    ensures DigitsValue(ZFill(NatStr(n), width)) == n
  {
    var s := NatStr(n);
    NatStrValue(n);
    if |s| < width {
      assert !HasSign(s) by { assert IsDigit(s[0]); }
      assert ZFill(s, width) == Zeros(width - |s|) + s;
      ZerosValue(width - |s|);
      DigitsValueAppend(Zeros(width - |s|), s);
    }
  }
}
