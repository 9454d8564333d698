/** Positional numerals in bases up to 16: the value of a digit string (the
    part of the kernel's `strict_strtoul` the resolver relies on, and the
    digit groups of address literals) and the shortest numeral of a number,
    which is its inverse. */
module Numerals {

  /** The value of a digit character, or 16 for a character that is a digit
      in no base up to 16. Both letter cases are accepted. */
  function DigitValue(c: char): (v: nat)
    ensures v <= 16
  {
    if '0' <= c <= '9' then c as nat - '0' as nat
    else if 'a' <= c <= 'f' then c as nat - 'a' as nat + 10
    else if 'A' <= c <= 'F' then c as nat - 'A' as nat + 10
    else 16
  }

  predicate IsDigit(c: char, base: nat)
  {
    DigitValue(c) < base
  }

  predicate AllDigits(s: string, base: nat)
  {
    forall i :: 0 <= i < |s| ==> IsDigit(s[i], base)
  }

  /** A decimal digit is an ASCII digit, so it is none of the resolver's
      delimiters or markers. */
  lemma DecimalDigitIsAscii(c: char)
    requires IsDigit(c, 10)
    ensures '0' <= c <= '9'
  {
  }

  /** A digit string holds no character that is not a digit. */
  lemma DigitsAvoid(f: string, base: nat, c: char)
    requires AllDigits(f, base) && !IsDigit(c, base)
    ensures c !in f
  {
  }

  /** The value of a numeral, most significant digit first. */
  function Value(s: string, base: nat): nat
    decreases |s|
  {
    if |s| == 0 then 0 else Value(s[..|s| - 1], base) * base + DigitValue(s[|s| - 1])
  }

  /** The lower-case digit character for `d`. */
  function DigitChar(d: nat): (c: char)
    requires d < 16
    ensures DigitValue(c) == d
  {
    if d < 10 then ('0' as int + d) as char else ('a' as int + d - 10) as char
  }

  /** The two bases the resolver writes numbers in. */
  predicate Radix(base: nat)
  {
    base == 10 || base == 16
  }

  /** The shortest numeral of `n` in `base`, lower-case. */
  function ToDigits(n: nat, base: nat): (s: string)
    requires Radix(base)
    ensures 0 < |s| && AllDigits(s, base)
    ensures Value(s, base) == n
    decreases n
  {
    if n < base then
      ValueAppend([], DigitChar(n), base);
      [DigitChar(n)]
    else
      DivMod(n, base);
      var high := ToDigits(n / base, base);
      var low := DigitChar(n % base);
      var s := high + [low];
      ValueAppend(high, low, base);
      assert AllDigits(s, base) by {
        forall i | 0 <= i < |s|
          ensures IsDigit(s[i], base)
        {
          if i < |high| {
            assert s[i] == high[i];
          }
        }
      }
      s
  }

  lemma ValueAppend(high: string, low: char, base: nat)
    ensures Value(high + [low], base) == Value(high, base) * base + DigitValue(low)
  {
    assert (high + [low])[..|high|] == high;
  }

  lemma DivMod(n: nat, base: nat)
    requires Radix(base)
    ensures n == (n / base) * base + n % base
    ensures n % base < base
    ensures n > 0 ==> n / base < n
  {
    if base == 10 {
      assert n == (n / 10) * 10 + n % 10;
    } else {
      assert n == (n / 16) * 16 + n % 16;
    }
  }

  function Pow(base: nat, k: nat): nat
  {
    if k == 0 then 1 else base * Pow(base, k - 1)
  }

  lemma CancelFactor(a: nat, b: nat, c: nat)
    requires a * c < b * c
    ensures a < b
  {
  }

  /** A number below `base^k` has a numeral of at most `k` digits. */
  lemma {:induction false} ToDigitsLength(n: nat, base: nat, k: nat)
    requires Radix(base) && 0 < k
    requires n < Pow(base, k)
    ensures |ToDigits(n, base)| <= k
    decreases k
  {
    if n >= base {
      assert k != 1;
      var q := n / base;
      assert q * base <= n;
      assert n < base * Pow(base, k - 1);
      CancelFactor(q, Pow(base, k - 1), base);
      ToDigitsLength(q, base, k - 1);
    }
  }
}
