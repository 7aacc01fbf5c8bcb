/** Unsigned decimal numerals: what `%u` and `%lu` print, and how they are read back. */
module Decimal {
  predicate IsDigit(c: char) {
    '0' <= c <= '9'
  }

  predicate AllDigits(s: string) {
    forall i :: 0 <= i < |s| ==> IsDigit(s[i])
  }

  function DigitChar(d: nat): (c: char)
    requires d < 10
    ensures IsDigit(c) && DigitValue(c) == d
  {
    '0' + d as char
  }

  function DigitValue(c: char): (d: nat)
    requires IsDigit(c)
    ensures d < 10
  {
    c as int - '0' as int
  }

  function Print(n: nat): (s: string)
    ensures |s| >= 1 && AllDigits(s)
  {
    if n < 10 then [DigitChar(n)] else Print(n / 10) + [DigitChar(n % 10)]
  }

  /** Value of a digit string, most significant digit first; the empty string counts as 0. */
  function Value(s: string): nat
    requires AllDigits(s)
  {
    if s == "" then 0 else Value(s[..|s| - 1]) * 10 + DigitValue(s[|s| - 1])
  }

  lemma {:induction false} ValuePrint(n: nat)
    ensures Value(Print(n)) == n
  {
    if n >= 10 {
      ValuePrint(n / 10);
      assert Print(n)[..|Print(n)| - 1] == Print(n / 10);
    } else {
      assert Print(n)[..0] == "";
    }
  }

  /** Reading a numeral without leading zeros and printing the number gives the numeral back, so every
      such numeral is printed for exactly one number. */
  lemma {:induction false} PrintValue(s: string)
    requires s != "" && AllDigits(s) && (|s| == 1 || s[0] != '0')
    ensures Print(Value(s)) == s
  {
    var t, c := s[..|s| - 1], s[|s| - 1];
    assert s == t + [c];
    if t == "" {
      assert Value(t) == 0;
    } else {
      PrintValue(t);
      assert Print(0) == "0";
      assert Value(t) >= 1;
      assert Value(s) / 10 == Value(t) && Value(s) % 10 == DigitValue(c);
    }
  }

  lemma {:induction false} NoLeadingZero(n: nat)
    ensures n < 10 ==> |Print(n)| == 1
    ensures n >= 10 ==> |Print(n)| >= 2 && Print(n)[0] != '0'
  {
    if n >= 10 {
      NoLeadingZero(n / 10);
      if n / 10 < 10 {
        assert DigitValue(Print(n / 10)[0]) == n / 10;
      }
    }
  }

  /** Different numbers have different numerals. */
  lemma PrintInjective(m: nat, n: nat)
    requires Print(m) == Print(n)
    ensures m == n
  {
    ValuePrint(m);
    ValuePrint(n);
  }

  // ---------- reading a numeral off the front of a text ----------

  function DigitPrefix(s: string): (n: nat)
    ensures n <= |s| && AllDigits(s[..n])
    ensures n < |s| ==> !IsDigit(s[n])
  {
    if s == "" || !IsDigit(s[0]) then 0 else 1 + DigitPrefix(s[1..])
  }

  /** A digit string followed by a non-digit is recovered exactly. */
  lemma {:induction false} DigitsThenText(digits: string, rest: string)
    requires AllDigits(digits)
    requires rest != "" && !IsDigit(rest[0])
    ensures DigitPrefix(digits + rest) == |digits|
  {
    if digits == "" {
      assert digits + rest == rest;
    } else {
      DigitsThenText(digits[1..], rest);
      assert (digits + rest)[1..] == digits[1..] + rest;
    }
  }
}
