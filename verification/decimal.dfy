/** Decimal text of integers as the kernel's printf family writes it
    (`%d`, `%0<width>d`), and the reading of digit strings back into numbers. */
module Decimal {

  predicate IsDigit(c: char) {
    '0' <= c <= '9'
  }

  predicate AllDigits(s: seq<char>) {
    forall i :: 0 <= i < |s| ==> IsDigit(s[i])
  }

  function DigitChar(d: nat): (c: char)
    requires d < 10
    ensures IsDigit(c)
  {
    ('0' as int + d) as char
  }

  function DigitValue(c: char): nat
    requires IsDigit(c)
  {
    c as int - '0' as int
  }

  /** The number a string of decimal digits denotes (most significant first). */
  function DigitsValue(s: seq<char>): nat
    requires AllDigits(s)
  {
    if |s| == 0 then 0 else 10 * DigitsValue(s[..|s| - 1]) + DigitValue(s[|s| - 1])
  }

  function Pow10(k: nat): (p: nat)
    ensures p >= 1
  {
    if k == 0 then 1 else 10 * Pow10(k - 1)
  }

  /** The shortest decimal text of `n`, as `%d` prints a non-negative value. */
  function Dec(n: nat): (r: seq<char>)
    ensures 1 <= |r| && AllDigits(r)
    ensures DigitsValue(r) == n
    ensures |r| > 1 ==> r[0] != '0'
  {
    if n < 10 then [DigitChar(n)]
    else
      var r := Dec(n / 10) + [DigitChar(n % 10)];
      assert r[..|r| - 1] == Dec(n / 10);
      r
  }

  /** Values below 10^k need at most k digits. */
  lemma {:induction false} DecLength(n: nat, k: nat)
    requires 1 <= k && n < Pow10(k)
    ensures |Dec(n)| <= k
  {
    if n >= 10 {
      assert k >= 2;
      DecLength(n / 10, k - 1);
    }
  }

  /** A string of k digits denotes less than 10^k. */
  lemma {:induction false} DigitsValueBound(s: seq<char>)
    requires AllDigits(s)
    ensures DigitsValue(s) < Pow10(|s|)
  {
    if |s| > 0 {
      DigitsValueBound(s[..|s| - 1]);
    }
  }

  lemma {:induction false} PowMonotone(i: nat, j: nat)
    requires i <= j
    ensures Pow10(i) <= Pow10(j)
  {
    if i < j {
      PowMonotone(i, j - 1);
    }
  }

  /** Values of at least 10^k need more than k digits. */
  lemma DecLengthAtLeast(n: nat, k: nat)
    requires Pow10(k) <= n
    ensures |Dec(n)| > k
  {
    DigitsValueBound(Dec(n));
    if |Dec(n)| <= k {
      PowMonotone(|Dec(n)|, k);
    }
  }

  function Zeros(n: nat): (r: seq<char>)
    ensures |r| == n && AllDigits(r)
    ensures forall i :: 0 <= i < n ==> r[i] == '0'
  {
    seq(n, _ => '0')
  }

  /** Leading zeros do not change the value of a digit string. */
  lemma {:induction false} ZerosValue(n: nat, s: seq<char>)
    requires AllDigits(s)
    ensures AllDigits(Zeros(n) + s)
    ensures DigitsValue(Zeros(n) + s) == DigitsValue(s)
    decreases |s|, n
  {
    var t := Zeros(n) + s;
    if |s| == 0 {
      assert t == Zeros(n);
      if n > 0 {
        assert t[..n - 1] == Zeros(n - 1) + [];
        ZerosValue(n - 1, []);
      }
    } else {
      assert t[..|t| - 1] == Zeros(n) + s[..|s| - 1];
      ZerosValue(n, s[..|s| - 1]);
    }
  }

  /** `s` preceded by zeros up to `width` characters. */
  function PadZeros(s: seq<char>, width: nat): (r: seq<char>)
    requires AllDigits(s)
    ensures |r| == if |s| < width then width else |s|
    ensures AllDigits(r) && DigitsValue(r) == DigitsValue(s)
  {
    ZerosValue(if |s| < width then width - |s| else 0, s);
    Zeros(if |s| < width then width - |s| else 0) + s
  }

  /** Length of the decimal text of `n` with its sign, before any padding. */
  function SignedLength(n: int): nat {
    if n < 0 then 1 + |Dec(-n)| else |Dec(n)|
  }

  /** printf's `%0<width>d` of an int: a minus sign for negative values, then
      zeros after the sign so that the whole field is at least `width` wide.
      `%d` is `width` 0. */
  function FormatInt(n: int, width: nat): (r: seq<char>)
    ensures |r| == if SignedLength(n) < width then width else SignedLength(n)
    ensures n >= 0 ==> AllDigits(r) && DigitsValue(r) == n
    ensures n < 0 ==> |r| >= 2 && r[0] == '-' && AllDigits(r[1..]) && DigitsValue(r[1..]) == -n
  {
    if n >= 0 then PadZeros(Dec(n), width)
    else
      var r := ['-'] + PadZeros(Dec(-n), if width > 0 then width - 1 else 0);
      assert r[1..] == PadZeros(Dec(-n), if width > 0 then width - 1 else 0);
      r
  }
}
