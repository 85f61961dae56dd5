/** Small shared vocabulary: optional values, sums over sequences, JavaScript integer bounds. */
module Basics {

  datatype Option<+T> = None | Some(value: T)

  /** Number.MAX_SAFE_INTEGER. */
  const MAX_SAFE_INTEGER: int := 9_007_199_254_740_991

  /** Number.isSafeInteger(n) && n >= 0, for an integer n. */
  predicate SafeNat(n: int) {
    0 <= n <= MAX_SAFE_INTEGER
  }

  /** A digit of lower-case hexadecimal text. */
  predicate LowerHex(c: char) {
    '0' <= c <= '9' || 'a' <= c <= 'f'
  }

  function Max(a: int, b: int): int {
    if a >= b then a else b
  }

  function Min(a: int, b: int): int {
    if a <= b then a else b
  }

  /** The sum of f over the elements of xs. */
  function Sum<T>(xs: seq<T>, f: T -> nat): nat {
    if xs == [] then 0 else Sum(xs[..|xs| - 1], f) + f(xs[|xs| - 1])
  }

  lemma {:induction false} SumAppend<T>(xs: seq<T>, x: T, f: T -> nat)
    ensures Sum(xs + [x], f) == Sum(xs, f) + f(x)
  {
    assert (xs + [x])[..|xs|] == xs;
  }

  /** Replacing one element moves the sum by the difference of the two terms. */
  lemma {:induction false} SumUpdate<T>(xs: seq<T>, i: nat, x: T, f: T -> nat)
    requires i < |xs|
    ensures Sum(xs[i := x], f) == Sum(xs, f) - f(xs[i]) + f(x)
  {
    var last := |xs| - 1;
    if i == last {
      assert xs[i := x][..last] == xs[..last];
    } else {
      SumUpdate(xs[..last], i, x, f);
      assert xs[i := x][..last] == xs[..last][i := x];
    }
  }

  /** A term never exceeds the sum. */
  lemma {:induction false} SumAtLeast<T>(xs: seq<T>, i: nat, f: T -> nat)
    requires i < |xs|
    ensures f(xs[i]) <= Sum(xs, f)
  {
    if i < |xs| - 1 {
      SumAtLeast(xs[..|xs| - 1], i, f);
    }
  }

  /** Termwise comparison carries over to sums. */
  lemma {:induction false} SumMonotone<T>(xs: seq<T>, f: T -> nat, g: T -> nat)
    requires forall i :: 0 <= i < |xs| ==> f(xs[i]) <= g(xs[i])
    ensures Sum(xs, f) <= Sum(xs, g)
  {
    if xs != [] {
      SumMonotone(xs[..|xs| - 1], f, g);
    }
  }

  lemma {:induction false} SumSame<T>(xs: seq<T>, f: T -> nat, g: T -> nat)
    requires forall i :: 0 <= i < |xs| ==> f(xs[i]) == g(xs[i])
    ensures Sum(xs, f) == Sum(xs, g)
  {
    SumMonotone(xs, f, g);
    SumMonotone(xs, g, f);
  }

  lemma {:induction false} SumOfTwo<T>(xs: seq<T>, f: T -> nat, g: T -> nat, h: T -> nat)
    requires forall i :: 0 <= i < |xs| ==> f(xs[i]) <= g(xs[i]) + h(xs[i])
    ensures Sum(xs, f) <= Sum(xs, g) + Sum(xs, h)
  {
    if xs != [] {
      SumOfTwo(xs[..|xs| - 1], f, g, h);
    }
  }

  lemma {:induction false} TwoTermsInSum<T>(xs: seq<T>, f: T -> nat, i: nat, j: nat)
    requires i < j < |xs|
    ensures f(xs[i]) + f(xs[j]) <= Sum(xs, f)
  {
    if j == |xs| - 1 {
      SumAtLeast(xs[..j], i, f);
    } else {
      TwoTermsInSum(xs[..|xs| - 1], f, i, j);
    }
  }

  /** Some name of length n; names of different lengths differ. */
  function Name(n: nat): string { seq(n, _ => 'x') }
}
