/** Numbers printed with "%d" or "%ld" and read back with atoi or strtol. */
module Decimal {

  predicate IsDigit(c: char) {
    '0' <= c <= '9'
  }

  function DigitChar(d: nat): (c: char)
    requires d < 10
    ensures IsDigit(c) && c as int == '0' as int + d
  {
    ('0' as int + d) as char
  }

  function Print(n: nat): (s: string)
    ensures s != [] && forall i :: 0 <= i < |s| ==> IsDigit(s[i])
  {
    if n < 10 then [DigitChar(n)] else Print(n / 10) + [DigitChar(n % 10)]
  }

  function Digit(c: char): (d: nat)
    requires IsDigit(c)
    ensures d < 10
  {
    c as int - '0' as int
  }

  /** The number written by a run of digits; 0 for an empty run, as atoi has it. */
  function Read(s: string): nat
    requires forall i :: 0 <= i < |s| ==> IsDigit(s[i])
  {
    if s == [] then 0 else Read(s[..|s| - 1]) * 10 + Digit(s[|s| - 1])
  }

  lemma {:induction false} ReadPrint(n: nat)
    ensures Read(Print(n)) == n
  {
    var s := Print(n);
    if n < 10 {
      assert s[..0] == [];
    } else {
      assert s[..|s| - 1] == Print(n / 10);
      ReadPrint(n / 10);
    }
  }

  /** A number has fewer digits than its own value, from 2 on. */
  lemma {:induction false} PrintIsShort(n: nat)
    ensures n >= 2 ==> |Print(n)| < n
    ensures n < 10 ==> |Print(n)| == 1
  {
    if n >= 10 {
      PrintIsShort(n / 10);
    }
  }

  function Power10(k: nat): nat {
    if k == 0 then 1 else 10 * Power10(k - 1)
  }

  lemma {:induction false} PrintBound(n: nat, k: nat)
    requires 1 <= k && n < Power10(k)
    ensures |Print(n)| <= k
  {
    if n >= 10 {
      PrintBound(n / 10, k - 1);
    }
  }

  /** The length of the run of digits s starts with. */
  function DigitRun(s: string): (d: nat)
    ensures d <= |s|
    ensures forall i :: 0 <= i < d ==> IsDigit(s[i])
    ensures d < |s| ==> !IsDigit(s[d])
  {
    if s == [] || !IsDigit(s[0]) then 0 else 1 + DigitRun(s[1..])
  }

  /** What atoi makes of a text that starts with digits. */
  function Atoi(s: string): nat {
    Read(s[..DigitRun(s)])
  }

  lemma RunIs(s: string, d: nat)
    requires d <= |s| && forall i :: 0 <= i < d ==> IsDigit(s[i])
    requires d < |s| ==> !IsDigit(s[d])
    ensures DigitRun(s) == d
  {
  }

  lemma RunGoesOn(s: string, d: nat)
    requires d <= DigitRun(s) && d < |s|
    ensures IsDigit(s[d]) <==> d < DigitRun(s)
  {
  }

  lemma AtoiPrint(n: nat, rest: string)
    requires rest != [] ==> !IsDigit(rest[0])
    ensures DigitRun(Print(n) + rest) == |Print(n)| && Atoi(Print(n) + rest) == n
  {
    var s := Print(n) + rest;
    RunIs(s, |Print(n)|);
    assert s[..|Print(n)|] == Print(n);
    ReadPrint(n);
  }
}
