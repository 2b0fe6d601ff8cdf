/**
 Decimal text for natural numbers: Python's `str(n)` for the 1-based row
 number of the task list, and the zero-padded fixed-width fields that
 `strftime` writes for `%Y`, `%m`, `%d`, `%H`, `%M` and `%S`.
 */
module Decimal {

  predicate IsDigit(c: char) {
    '0' <= c <= '9'
  }

  predicate AllDigits(s: string) {
    forall i :: 0 <= i < |s| ==> IsDigit(s[i])
  }

  function DigitChar(d: nat): (c: char)
    requires d < 10
    ensures IsDigit(c)
  {
    ('0' as int + d) as char
  }

  function DigitValue(c: char): (d: nat)
    requires IsDigit(c)
    ensures d < 10 && DigitChar(d) == c
  {
    c as int - '0' as int
  }

  function Pow10(w: nat): (p: nat)
    ensures p >= 1
  {
    if w == 0 then 1 else 10 * Pow10(w - 1)
  }

  /** The number a string of decimal digits denotes (most significant first). */
  function Value(s: string): (n: nat)
    requires AllDigits(s)
    ensures n < Pow10(|s|)
  {
    if s == [] then 0 else Value(s[..|s| - 1]) * 10 + DigitValue(s[|s| - 1])
  }

  /** Python's `str(n)` for a non-negative integer: at least one digit and no
      leading zero, except for "0" itself. */
  function Show(n: nat): (r: string)
    ensures |r| >= 1 && AllDigits(r)
    ensures |r| > 1 ==> r[0] != '0'
  {
    if n < 10 then [DigitChar(n)] else Show(n / 10) + [DigitChar(n % 10)]
  }

  /** Reading back what `Show` wrote gives the number again. */
  lemma {:induction false} ValueShow(n: nat)
    ensures Value(Show(n)) == n
  {
    if n >= 10 {
      var s := Show(n);
      assert s[..|s| - 1] == Show(n / 10);
      ValueShow(n / 10);
    }
  }

  /** Different numbers are shown differently. */
  lemma ShowInjective(a: nat, b: nat)
    requires Show(a) == Show(b)
    ensures a == b
  {
    ValueShow(a);
    ValueShow(b);
  }

  /** `n` as exactly `w` digits, zero-padded on the left, as `strftime`
      writes a field whose value fits in `w` digits. */
  function Fixed(n: nat, w: nat): (r: string)
    requires n < Pow10(w)
    ensures |r| == w && AllDigits(r)
  {
    if w == 0 then [] else Fixed(n / 10, w - 1) + [DigitChar(n % 10)]
  }

  /** Reading back a fixed-width field gives its value. */
  lemma {:induction false} ValueFixed(n: nat, w: nat)
    requires n < Pow10(w)
    ensures Value(Fixed(n, w)) == n
  {
    if w > 0 {
      var s := Fixed(n, w);
      assert s[..|s| - 1] == Fixed(n / 10, w - 1);
      ValueFixed(n / 10, w - 1);
    }
  }

  /** Writing back the value of a digit string at its own width gives the
      string again: fixed-width fields lose nothing. */
  lemma {:induction false} FixedValue(s: string)
    requires AllDigits(s)
    ensures Fixed(Value(s), |s|) == s
  {
    if s != [] {
      var init := s[..|s| - 1];
      FixedValue(init);
      assert Value(s) / 10 == Value(init);
      assert Value(s) % 10 == DigitValue(s[|s| - 1]);
      assert s == init + [s[|s| - 1]];
    }
  }
}
