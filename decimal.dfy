/** Decimal rendering of integers, as JavaScript's `Number.prototype.toString()`
    produces it for integral values, together with the value a digit string
    denotes, so that rendering can be stated as the inverse of reading. */
module Decimal {

  predicate IsDigit(c: char) {
    '0' <= c <= '9'
  }

  predicate AllDigits(s: string) {
    forall i :: 0 <= i < |s| ==> IsDigit(s[i])
  }

  function DigitValue(c: char): nat
    requires IsDigit(c)
  {
    (c as int) - ('0' as int)
  }

  /** The character of the decimal digit `d`. */
  function Digit(d: nat): (c: char)
    requires d < 10
    ensures IsDigit(c) && DigitValue(c) == d
  {
    (('0' as int) + d) as char
  }

  /** The number a string of decimal digits denotes, most significant digit first. */
  function Value(s: string): nat
    requires AllDigits(s)
  {
    if s == [] then 0 else 10 * Value(s[..|s| - 1]) + DigitValue(s[|s| - 1])
  }

  function Pow10(k: nat): (p: nat)
    ensures p >= 1
  {
    if k == 0 then 1 else 10 * Pow10(k - 1)
  }

  /** `n.toString()` for a non-negative integer `n`: digits only, and no leading
      zero except for `n == 0` itself (what it denotes is `NatToStringValue`). */
  function NatToString(n: nat): (s: string)
    ensures |s| >= 1 && AllDigits(s)
    ensures s[0] == '0' ==> n == 0
    decreases n
  {
    if n < 10 then [Digit(n)] else NatToString(n / 10) + [Digit(n % 10)]
  }

  /** Reading the decimal string of `n` back gives `n`. */
  lemma {:induction false} NatToStringValue(n: nat)
    ensures Value(NatToString(n)) == n
    decreases n
  {
    if n >= 10 {
      var s := NatToString(n);
      assert s[..|s| - 1] == NatToString(n / 10);
      NatToStringValue(n / 10);
    }
  }

  /** `i.toString()` for any integer `i`: a minus sign for a negative `i`, then
      the digits of its magnitude. */
  function IntToString(i: int): (s: string)
    ensures |s| >= 1
    ensures s[0] == '-' <==> i < 0
    ensures i >= 0 ==> s == NatToString(i)
    ensures i < 0 ==> s[1..] == NatToString(-i)
  {
    if i < 0 then "-" + NatToString(-i) else NatToString(i)
  }

  /** Rendering is injective: two numbers with the same decimal string are equal. */
  lemma NatToStringInjective(m: nat, n: nat)
    requires NatToString(m) == NatToString(n)
    ensures m == n
  {
    NatToStringValue(m);
    NatToStringValue(n);
  }

  /** The length of the decimal string of `n` is the number of digits `n` needs:
      exactly `k` when `10^(k-1) <= n < 10^k`. */
  lemma {:induction false} NatToStringLength(n: nat, k: nat)
    requires k >= 1
    ensures n < Pow10(k) ==> |NatToString(n)| <= k
    ensures Pow10(k - 1) <= n ==> |NatToString(n)| >= k
  {
    if n >= 10 && k >= 2 {
      NatToStringLength(n / 10, k - 1);
    }
  }

  function Zeros(k: nat): (z: string)
    ensures |z| == k && AllDigits(z)
    ensures forall i :: 0 <= i < k ==> z[i] == '0'
  {
    if k == 0 then [] else Zeros(k - 1) + ['0']
  }

  /** Leading zeros do not change the value of a digit string. */
  lemma {:induction false} ValueLeadingZeros(k: nat, s: string)
    requires AllDigits(s)
    ensures AllDigits(Zeros(k) + s) && Value(Zeros(k) + s) == Value(s)
    decreases |s|
  {
    var z := Zeros(k) + s;
    if s == [] {
      assert z == Zeros(k);
      ZerosValue(k);
    } else {
      var init := s[..|s| - 1];
      assert z[..|z| - 1] == Zeros(k) + init;
      ValueLeadingZeros(k, init);
    }
  }

  lemma {:induction false} ZerosValue(k: nat)
    ensures Value(Zeros(k)) == 0
  {
    if k > 0 {
      assert Zeros(k)[..k - 1] == Zeros(k - 1);
      ZerosValue(k - 1);
    }
  }

  lemma {:induction false} ValueBound(s: string)
    requires AllDigits(s)
    ensures Value(s) < Pow10(|s|)
    decreases |s|
  {
    if s != [] {
      ValueBound(s[..|s| - 1]);
    }
  }

  /** A digit string splits at `i` into a high part, scaled by ten to the
      length of the rest, and the low part. */
  lemma {:induction false} ValueSplit(s: string, i: nat)
    requires AllDigits(s) && i <= |s|
    ensures Value(s) == Value(s[..i]) * Pow10(|s| - i) + Value(s[i..])
    decreases |s|
  {
    if i < |s| {
      var t := s[..|s| - 1];
      ValueSplit(t, i);
      assert t[..i] == s[..i];
      var high, p, low, d := Value(s[..i]), Pow10(|t| - i), Value(t[i..]), DigitValue(s[|s| - 1]);
      assert Value(t) == high * p + low;
      assert s[i..][..|s[i..]| - 1] == t[i..];
      assert Value(s[i..]) == 10 * low + d;
      assert Pow10(|s| - i) == 10 * p;
      ScaleByTen(high, p);
    } else {
      assert s[..i] == s;
    }
  }

  lemma ScaleByTen(a: nat, b: nat)
    ensures 10 * (a * b) == a * (10 * b)
  {
  }
}
