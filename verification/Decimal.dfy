/** Unsigned decimal text, as BigInt(text) reads it and toString() prints it. */
module Decimal {

  predicate IsDigit(c: char) {
    '0' <= c <= '9'
  }

  predicate Digits(s: string) {
    s != "" && forall i :: 0 <= i < |s| ==> IsDigit(s[i])
  }

  function DigitValue(c: char): nat
    requires IsDigit(c)
  {
    c as int - 48
  }

  function Parse(s: string): nat
    requires forall i :: 0 <= i < |s| ==> IsDigit(s[i])
  {
    if s == "" then 0 else Parse(s[..|s| - 1]) * 10 + DigitValue(s[|s| - 1])
  }

  function Print(n: nat): (s: string)
    ensures Digits(s)
  {
    var last := [(n % 10 + 48) as char];
    if n < 10 then last else Print(n / 10) + last
  }

  /** Reading back a printed number gives the number. */
  lemma {:induction false} ParsePrint(n: nat)
    ensures Parse(Print(n)) == n
  {
    var s := Print(n);
    if n < 10 {
      assert s[..0] == "";
    } else {
      ParsePrint(n / 10);
      assert s[..|s| - 1] == Print(n / 10);
    }
  }
}
