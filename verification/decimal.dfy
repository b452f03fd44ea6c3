/** Python's `str(n)` for integers, which is how an f-string renders an id, and its inverse. */
module Decimal {
  import opened Wrappers

  predicate IsDigit(c: char) { '0' <= c <= '9' }

  predicate AllDigits(s: string)
  {
    forall i :: 0 <= i < |s| ==> IsDigit(s[i])
  }

  function DigitChar(d: nat): (c: char)
    requires d < 10
    ensures IsDigit(c)
  {
    ('0' as int + d) as char
  }

  function DigitValue(c: char): (d: nat)
    requires IsDigit(c)
    ensures d < 10
  {
    c as int - '0' as int
  }

  /** The decimal digits of `n`, most significant first, with no leading zero. */
  function NatToString(n: nat): (s: string)
    ensures |s| >= 1 && AllDigits(s)
  {
    if n < 10 then [DigitChar(n)] else NatToString(n / 10) + [DigitChar(n % 10)]
  }

  /** `str(n)`: a minus sign for a negative number, then the digits of its magnitude. */
  function IntToString(n: int): (s: string)
  {
    if n < 0 then "-" + NatToString(-n) else NatToString(n)
  }

  function ParseNat(s: string): nat
    requires AllDigits(s)
  {
    if s == [] then 0 else 10 * ParseNat(s[..|s| - 1]) + DigitValue(s[|s| - 1])
  }

  lemma {:induction false} ParseNatToString(n: nat)
    ensures ParseNat(NatToString(n)) == n
  {
    if n >= 10 {
      var s := NatToString(n);
      assert s[..|s| - 1] == NatToString(n / 10);
      ParseNatToString(n / 10);
    }
  }

  /** The number of leading decimal digits of `s`. */
  function DigitRun(s: string): (k: nat)
    ensures k <= |s| && AllDigits(s[..k])
    ensures k < |s| ==> !IsDigit(s[k])
  {
    if s == [] || !IsDigit(s[0]) then 0
    else
      var k := 1 + DigitRun(s[1..]);
      assert s[..k] == [s[0]] + s[1..][..k - 1];
      k
  }

  lemma {:induction false} DigitRunOfDigits(d: string, rest: string)
    requires AllDigits(d)
    requires rest == [] || !IsDigit(rest[0])
    ensures DigitRun(d + rest) == |d|
  {
    if d != [] {
      assert (d + rest)[1..] == d[1..] + rest;
      DigitRunOfDigits(d[1..], rest);
    }
  }

  /** Reads a nonempty run of digits from the front of `s`: the number and what follows it. */
  function TakeNat(s: string): Option<(nat, string)>
  {
    var k := DigitRun(s);
    if k == 0 then None else Some((ParseNat(s[..k]), s[k..]))
  }

  /** Reads an optional minus sign and a nonempty run of digits from the front of `s`. */
  function TakeInt(s: string): Option<(int, string)>
  {
    if |s| > 0 && s[0] == '-' then
      match TakeNat(s[1..])
      case None => None
      case Some((m, rest)) => Some((-(m as int), rest))
    else
      match TakeNat(s)
      case None => None
      case Some((m, rest)) => Some((m, rest))
  }

  lemma TakeNatOfString(n: nat, rest: string)
    requires rest == [] || !IsDigit(rest[0])
    ensures TakeNat(NatToString(n) + rest) == Some((n, rest))
  {
    var digits := NatToString(n);
    DigitRunOfDigits(digits, rest);
    assert (digits + rest)[..|digits|] == digits;
    assert (digits + rest)[|digits|..] == rest;
    ParseNatToString(n);
  }

  lemma TakeIntOfNegative(m: nat, rest: string)
    requires m > 0
    requires rest == [] || !IsDigit(rest[0])
    ensures TakeInt("-" + NatToString(m) + rest) == Some((-(m as int), rest))
  {
    var s := "-" + NatToString(m) + rest;
    assert s[1..] == NatToString(m) + rest;
    TakeNatOfString(m, rest);
  }

  lemma TakeIntOfNonNegative(m: nat, rest: string)
    requires rest == [] || !IsDigit(rest[0])
    ensures TakeInt(NatToString(m) + rest) == Some((m, rest))
  {
    TakeNatOfString(m, rest);
  }

  /** `str(n)` followed by anything that does not start with a digit reads back as `n`. */
  lemma TakeIntOfString(n: int, rest: string)
    requires rest == [] || !IsDigit(rest[0])
    ensures TakeInt(IntToString(n) + rest) == Some((n, rest))
  {
    if n < 0 {
      TakeIntOfNegative(-n, rest);
    } else {
      TakeIntOfNonNegative(n, rest);
    }
  }
}
