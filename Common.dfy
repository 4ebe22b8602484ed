/** The optional value of a JavaScript prop or DOM attribute that may be
    `undefined` or `null`. */
module Wrappers {
  datatype Option<+T> = None | Some(value: T) {
    /** `x ?? d` and, for props whose falsy values are all absent, `x || d`. */
    function GetOr(default: T): T {
      match this
      case Some(v) => v
      case None => default
    }
  }
}

/** Decimal rendering of integers, as JavaScript template literals print
    whole numbers (`${n}`) of magnitude below 10^21, with a parser that
    undoes it. (From 10^21 on, JavaScript switches to exponent notation.) */
module Decimal {

  predicate IsDigit(c: char) {
    '0' <= c <= '9'
  }

  function DigitChar(d: nat): (c: char)
    requires d < 10
    ensures IsDigit(c)
  {
    ('0' as int + d) as char
  }

  function DigitValue(c: char): (d: nat)
    requires IsDigit(c)
    ensures d < 10 && DigitChar(d) == c
  {
    c as int - '0' as int
  }

  /** The decimal digits of `n`, most significant first, without leading zeros. */
  function NatToString(n: nat): (s: string)
    ensures |s| > 0
    ensures forall i :: 0 <= i < |s| ==> IsDigit(s[i])
    ensures |s| > 1 ==> s[0] != '0'
  {
    if n < 10 then [DigitChar(n)] else NatToString(n / 10) + [DigitChar(n % 10)]
  }

  /** A whole number as `${i}` prints it: a minus sign before negative numbers. */
  function IntToString(i: int): (s: string)
    ensures |s| > 0
    ensures i >= 0 ==> forall k :: 0 <= k < |s| ==> IsDigit(s[k])
    ensures i < 0 ==> |s| >= 2 && s[0] == '-' && forall k :: 1 <= k < |s| ==> IsDigit(s[k])
    ensures |s| > 1 && s[0] != '-' ==> s[0] != '0'
    ensures i < 0 ==> s[1] != '0'
  {
    if i < 0 then "-" + NatToString(-i) else NatToString(i)
  }

  /** The value of a string of decimal digits. */
  function ParseNat(s: string): nat
    requires forall i :: 0 <= i < |s| ==> IsDigit(s[i])
  {
    if s == [] then 0 else 10 * ParseNat(s[..|s| - 1]) + DigitValue(s[|s| - 1])
  }

  function ParseInt(s: string): int
    requires |s| > 0
    requires s[0] == '-' ==> forall i :: 1 <= i < |s| ==> IsDigit(s[i])
    requires s[0] != '-' ==> forall i :: 0 <= i < |s| ==> IsDigit(s[i])
  {
    if s[0] == '-' then -(ParseNat(s[1..]) as int) else ParseNat(s)
  }

  lemma {:induction false} ParseNatToString(n: nat)
    ensures ParseNat(NatToString(n)) == n
  {
    if n >= 10 {
      var s := NatToString(n);
      assert s[..|s| - 1] == NatToString(n / 10);
      ParseNatToString(n / 10);
    }
  }

  /** Printing an integer loses nothing: parsing the text gives the number back. */
  lemma IntToStringRoundTrip(i: int)
    ensures var s := IntToString(i);
      (s[0] == '-' ==> forall k :: 1 <= k < |s| ==> IsDigit(s[k])) &&
      (s[0] != '-' ==> forall k :: 0 <= k < |s| ==> IsDigit(s[k])) &&
      ParseInt(s) == i
  {
    var s := IntToString(i);
    if i < 0 {
      assert s[1..] == NatToString(-i);
      ParseNatToString(-i);
    } else {
      ParseNatToString(i);
    }
  }

  /** Distinct integers print differently. */
  lemma IntToStringInjective(i: int, j: int)
    requires IntToString(i) == IntToString(j)
    ensures i == j
  {
    IntToStringRoundTrip(i);
    IntToStringRoundTrip(j);
  }
}
