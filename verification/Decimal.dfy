// Decimal notation of integers, as the C++ streams and std::to_string print them, and its inverse.
module Decimal {
  function Digit(d: nat): char
    requires d < 10
  {
    '0' + d as char
  }

  predicate IsDigit(c: char) {
    '0' <= c <= '9'
  }

  function DigitValue(c: char): (d: nat)
    requires IsDigit(c)
    ensures d < 10
  {
    (c - '0') as nat
  }

  function NatText(n: nat): (s: string)
    ensures s != []
    ensures forall i :: 0 <= i < |s| ==> IsDigit(s[i])
  {
    if n < 10 then [Digit(n)] else NatText(n / 10) + [Digit(n % 10)]
  }

  function IntText(n: int): string {
    if n < 0 then ['-'] + NatText(-n) else NatText(n)
  }

  /** The value of a string of digits. */
  function NatValue(s: string): nat
    requires forall i :: 0 <= i < |s| ==> IsDigit(s[i])
  {
    if s == [] then 0 else 10 * NatValue(s[..|s| - 1]) + DigitValue(s[|s| - 1])
  }

  lemma {:induction false} NatTextValue(n: nat)
    ensures NatValue(NatText(n)) == n
  {
    if n < 10 {
    } else {
      NatTextValue(n / 10);
      var s := NatText(n);
      assert s[..|s| - 1] == NatText(n / 10);
    }
  }

  lemma NatTextInjective(m: nat, n: nat)
    requires NatText(m) == NatText(n)
    ensures m == n
  {
    NatTextValue(m);
    NatTextValue(n);
  }

  /** The notation is the usual one: the ten digits, no leading zero, a minus before a negative number. */
  lemma {:induction false} NatTextIsCanonical(n: nat)
    ensures NatText(n)[0] == '0' <==> n == 0
    ensures n < 10 ==> NatText(n) == ["0123456789"[n]]
  {
    if n < 10 {
    } else {
      NatTextIsCanonical(n / 10);
    }
  }

  lemma IntTextExactly(n: int)
    ensures n < 0 ==> IntText(n) == "-" + NatText(-n)
    ensures n >= 0 ==> IntText(n) == NatText(n)
  {
  }

  lemma NatTextExactly(n: nat)
    requires n >= 10
    ensures NatText(n) == NatText(n / 10) + ["0123456789"[n % 10]]
  {
  }

  /** The number of leading digits of a text. */
  function DigitSpan(s: string): (n: nat)
    ensures n <= |s|
    ensures forall i :: 0 <= i < n ==> IsDigit(s[i])
    ensures n < |s| ==> !IsDigit(s[n])
  {
    if s == [] || !IsDigit(s[0]) then 0
    else
      var n := DigitSpan(s[1..]);
      assert forall i :: 0 < i <= n ==> s[i] == s[1..][i - 1];
      n + 1
  }

  lemma {:induction false} DigitSpanStops(s: string, rest: string)
    requires forall i :: 0 <= i < |s| ==> IsDigit(s[i])
    requires rest == [] || !IsDigit(rest[0])
    ensures DigitSpan(s + rest) == |s|
    decreases |s|
  {
    if s == [] {
      assert s + rest == rest;
    } else {
      assert (s + rest)[1..] == s[1..] + rest;
      DigitSpanStops(s[1..], rest);
    }
  }
}
