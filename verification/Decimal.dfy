/** Unsigned decimal numbers, as printf writes and sscanf and atoi read them. */
module Decimal {
  import opened Bytes

  const ZERO: byte := 48

  predicate IsDigit(c: byte)
  {
    48 <= c <= 57
  }

  function Print(n: nat): (s: seq<byte>)
    ensures s != [] && forall i :: 0 <= i < |s| ==> IsDigit(s[i])
  {
    if n < 10 then [ZERO + n] else Print(n / 10) + [ZERO + n % 10]
  }

  function Value(digits: seq<byte>): nat
    requires forall i :: 0 <= i < |digits| ==> IsDigit(digits[i])
  {
    if digits == [] then 0 else
      var k := |digits| - 1;
      assert IsDigit(digits[k]);
      Value(digits[..k]) * 10 + (digits[k] - ZERO)
  }

  /** How many digits s starts with. */
  function DigitCount(s: seq<byte>): (n: nat)
    ensures n <= |s| && forall i :: 0 <= i < n ==> IsDigit(s[i])
    ensures n < |s| ==> !IsDigit(s[n])
  {
    if s == [] || !IsDigit(s[0]) then 0 else 1 + DigitCount(s[1..])
  }

  lemma {:induction false} ValueOfPrint(n: nat)
    ensures Value(Print(n)) == n
  {
    if n >= 10 {
      ValueOfPrint(n / 10);
      assert Print(n)[..|Print(n)| - 1] == Print(n / 10);
    }
  }

  lemma {:induction false} DigitsOnly(s: seq<byte>, rest: seq<byte>)
    requires forall i :: 0 <= i < |s| ==> IsDigit(s[i])
    requires rest == [] || !IsDigit(rest[0])
    ensures DigitCount(s + rest) == |s|
  {
    if s == [] {
      assert s + rest == rest;
    } else {
      assert (s + rest)[1..] == s[1..] + rest;
      DigitsOnly(s[1..], rest);
    }
  }

  /** Reading back a printed number, whatever comes after it that is not a digit. */
  lemma ScanPrinted(n: nat, rest: seq<byte>)
    requires rest == [] || !IsDigit(rest[0])
    ensures var s := Print(n) + rest;
      DigitCount(s) == |Print(n)| && Value(s[..DigitCount(s)]) == n && s[DigitCount(s)..] == rest
  {
    DigitsOnly(Print(n), rest);
    ValueOfPrint(n);
    assert (Print(n) + rest)[..|Print(n)|] == Print(n);
  }

  /** A number below 10^k has at most k digits. */
  lemma {:induction false} PrintLength(n: nat, k: nat)
    requires k > 0 && n < Power10(k)
    ensures |Print(n)| <= k
    decreases k
  {
    if n >= 10 {
      assert Power10(1) == 10;
      PrintLength(n / 10, k - 1);
    }
  }

  function Power10(k: nat): nat
  {
    if k == 0 then 1 else 10 * Power10(k - 1)
  }
}
