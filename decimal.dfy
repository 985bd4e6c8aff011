/** Decimal text of integers, as PHP's string conversion of an int and JavaScript's `String(n)` write it. */
module Decimal {

  function DigitChar(d: nat): (c: char)
    requires d < 10
    ensures '0' <= c <= '9'
  {
    (48 + d) as char
  }

  predicate AllDigits(s: string) {
    forall i :: 0 <= i < |s| ==> '0' <= s[i] <= '9'
  }

  /** The decimal digits of `n`, most significant first, without leading zeros. */
  function NatToString(n: nat): (r: string)
    ensures |r| >= 1 && AllDigits(r)
    ensures |r| > 1 ==> r[0] != '0'
    decreases n
  {
    if n < 10 then [DigitChar(n)] else NatToString(n / 10) + [DigitChar(n % 10)]
  }

  /** A negative number gets a leading minus sign. */
  function IntToString(i: int): string {
    if i < 0 then "-" + NatToString(-i) else NatToString(i)
  }

  /** The number a string of decimal digits stands for. */
  function DigitsValue(s: string): nat
    requires AllDigits(s)
  {
    if s == [] then 0 else DigitsValue(s[..|s| - 1]) * 10 + (s[|s| - 1] as int - 48)
  }

  /** Reading back the decimal text gives the number. */
  lemma {:induction false} ValueOfNatToString(n: nat)
    ensures DigitsValue(NatToString(n)) == n
  {
    if n >= 10 {
      var s := NatToString(n);
      assert s[..|s| - 1] == NatToString(n / 10);
      ValueOfNatToString(n / 10);
    }
  }

  /** Different numbers have different decimal text. */
  lemma {:induction false} NatToStringInjective(m: nat, n: nat)
    requires NatToString(m) == NatToString(n)
    ensures m == n
  {
    ValueOfNatToString(m);
    ValueOfNatToString(n);
  }

  /** The length of the run of decimal digits at the start of `s`. */
  function DigitRun(s: string): (n: nat)
    ensures n <= |s| && AllDigits(s[..n])
    ensures n < |s| ==> !('0' <= s[n] <= '9')
  {
    if s != [] && '0' <= s[0] <= '9' then
      var n := 1 + DigitRun(s[1..]);
      assert forall i :: 1 <= i < n ==> s[..n][i] == s[1..][..n - 1][i - 1];
      n
    else 0
  }

  /** The run of digits stops where the digits stop. */
  lemma {:induction false} DigitRunOf(ds: string, rest: string)
    requires AllDigits(ds) && (rest == [] || !('0' <= rest[0] <= '9'))
    ensures DigitRun(ds + rest) == |ds| && (ds + rest)[..|ds|] == ds && (ds + rest)[|ds|..] == rest
  {
    var s := ds + rest;
    assert forall i :: 0 <= i < |ds| ==> s[i] == ds[i];
    assert rest != [] ==> s[|ds|] == rest[0];
  }

  /** A string of zeros stands for 0. */
  lemma {:induction false} ZerosValue(zeros: string)
    requires forall i :: 0 <= i < |zeros| ==> zeros[i] == '0'
    ensures AllDigits(zeros) && DigitsValue(zeros) == 0
    decreases |zeros|
  {
    if zeros != [] {
      ZerosValue(zeros[..|zeros| - 1]);
    }
  }

  /** Leading zeros do not change the number a string of digits stands for. */
  lemma {:induction false} LeadingZeros(zeros: string, ds: string)
    requires forall i :: 0 <= i < |zeros| ==> zeros[i] == '0'
    requires AllDigits(ds)
    ensures AllDigits(zeros + ds) && DigitsValue(zeros + ds) == DigitsValue(ds)
    decreases |ds|
  {
    var s := zeros + ds;
    ZerosValue(zeros);
    if ds == [] {
      assert s == zeros;
    } else {
      assert s[..|s| - 1] == zeros + ds[..|ds| - 1];
      LeadingZeros(zeros, ds[..|ds| - 1]);
      assert s[|s| - 1] == ds[|ds| - 1];
    }
  }
}
