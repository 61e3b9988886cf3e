/**
 * The few string facts both handlers rely on: how JavaScript prints a
 * non-negative integer inside a template string, and when one string ends
 * with or contains another.
 */
module Text {

  predicate IsDigit(c: char) {
    '0' <= c <= '9'
  }

  predicate IsDigits(s: string) {
    forall i :: 0 <= i < |s| ==> IsDigit(s[i])
  }

  function DigitChar(d: nat): (c: char)
    requires d < 10
    ensures IsDigit(c) && c as int - '0' as int == d
  {
    ('0' as int + d) as char
  }

  /**
   * The decimal text of `n`, as `${n}` renders an integer-valued number
   * below 10^21: digits only, and no leading zero unless `n` is zero.
   */
  function Show(n: nat): (s: string)
    ensures |s| >= 1 && IsDigits(s)
    ensures s[0] == '0' <==> n == 0
    decreases n
  {
    if n < 10 then [DigitChar(n)] else Show(n / 10) + [DigitChar(n % 10)]
  }

  /** The number a string of decimal digits denotes. */
  function Value(s: string): nat
    requires IsDigits(s)
    decreases |s|
  {
    if s == [] then 0 else 10 * Value(s[..|s| - 1]) + (s[|s| - 1] as int - '0' as int)
  }

  /** Reading back the decimal text of `n` gives `n`. */
  lemma {:induction false} ValueOfShow(n: nat)
    ensures Value(Show(n)) == n
    decreases n
  {
    if n >= 10 {
      ValueOfShow(n / 10);
      var s := Show(n);
      assert s[..|s| - 1] == Show(n / 10);
    }
  }

  predicate EndsWith(s: string, suffix: string) {
    |suffix| <= |s| && s[|s| - |suffix|..] == suffix
  }

  /** `part` occurs somewhere inside `s`. */
  predicate IsInfix(part: string, s: string)
    decreases |s|
  {
    (|part| <= |s| && s[..|part|] == part) || (s != [] && IsInfix(part, s[1..]))
  }

  /** Text that occurs in `s` also occurs in any extension of `s`. */
  lemma {:induction false} InfixOfLonger(part: string, s: string, more: string)
    requires IsInfix(part, s)
    ensures IsInfix(part, s + more)
    decreases |s|
  {
    if |part| <= |s| && s[..|part|] == part {
      assert (s + more)[..|part|] == part;
    } else {
      assert (s + more)[1..] == s[1..] + more;
      InfixOfLonger(part, s[1..], more);
    }
  }

  /** Text occurs in anything that ends with it. */
  lemma {:induction false} InfixOfSuffix(before: string, part: string)
    ensures IsInfix(part, before + part)
    decreases |before|
  {
    var s := before + part;
    if before == [] {
      assert s[..|part|] == part;
    } else {
      assert s[1..] == before[1..] + part;
      InfixOfSuffix(before[1..], part);
    }
  }

  /** Text inside text inside `s` is inside `s`. */
  lemma {:induction false} InfixWithin(part: string, middle: string, s: string)
    requires IsInfix(part, middle) && IsInfix(middle, s)
    ensures IsInfix(part, s)
    decreases |s|
  {
    if |middle| <= |s| && s[..|middle|] == middle {
      assert s == middle + s[|middle|..];
      InfixOfLonger(part, middle, s[|middle|..]);
    } else {
      InfixWithin(part, middle, s[1..]);
    }
  }
}
