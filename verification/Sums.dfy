/** Sums of a natural-valued measure over a sequence. Both the global-time protocol (how many
    threads still have to tick) and the descriptor counters (how many descriptors name an object)
    count over an unbounded number of threads; these lemmas say how one change moves such a count. */
module Sums {

  function Sum<T>(s: seq<T>, f: T -> nat): nat {
    if s == [] then 0 else Sum(s[..|s| - 1], f) + f(s[|s| - 1])
  }

  lemma {:induction false} SumUpdate<T>(s: seq<T>, f: T -> nat, i: nat, x: T)
    requires i < |s|
    ensures Sum(s[i := x], f) + f(s[i]) == Sum(s, f) + f(x)
  {
    var u := s[i := x];
    if i == |s| - 1 {
      assert u[..|s| - 1] == s[..|s| - 1];
    } else {
      assert u[..|s| - 1] == s[..|s| - 1][i := x];
      SumUpdate(s[..|s| - 1], f, i, x);
    }
  }

  lemma SumAppend<T>(s: seq<T>, f: T -> nat, x: T)
    ensures Sum(s + [x], f) == Sum(s, f) + f(x)
  {
    assert (s + [x])[..|s + [x]| - 1] == s;
  }

  /** One element never outweighs the whole sum. */
  lemma {:induction false} SumAtLeast<T>(s: seq<T>, f: T -> nat, i: nat)
    requires i < |s|
    ensures f(s[i]) <= Sum(s, f)
  {
    if i < |s| - 1 { SumAtLeast(s[..|s| - 1], f, i); }
  }

  lemma {:induction false} SumAtLeastTwo<T>(s: seq<T>, f: T -> nat, i: nat, j: nat)
    requires i < j < |s|
    ensures f(s[i]) + f(s[j]) <= Sum(s, f)
  {
    if j == |s| - 1 { SumAtLeast(s[..j], f, i); } else { SumAtLeastTwo(s[..|s| - 1], f, i, j); }
  }

  /** A positive sum has a positive element. */
  lemma {:induction false} SumWitness<T>(s: seq<T>, f: T -> nat) returns (i: nat)
    requires Sum(s, f) > 0
    ensures i < |s| && f(s[i]) > 0
  {
    if f(s[|s| - 1]) > 0 { i := |s| - 1; } else { i := SumWitness(s[..|s| - 1], f); }
  }

  lemma {:induction false} SumPointwise<T, U>(s: seq<T>, f: T -> nat, r: seq<U>, g: U -> nat)
    requires |s| == |r|
    requires forall i :: 0 <= i < |s| ==> f(s[i]) == g(r[i])
    ensures Sum(s, f) == Sum(r, g)
  {
    if s != [] {
      SumPointwise(s[..|s| - 1], f, r[..|r| - 1], g);
    }
  }
}
