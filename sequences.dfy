/** Facts about sequences of reals shared by the C++ error sweep and the
    Python reference quantizer: sortedness, the "first level at least v"
    search both of them perform, and order-independent summation. */
module Sequences {

  /** A sample vector or a codebook in ascending order (ties allowed). */
  predicate NonDecreasing(s: seq<real>)
  {
    forall i, j :: 0 <= i < j < |s| ==> s[i] <= s[j]
  }

  /** The all-ones weight vector that stands in for "no weights". */
  function Ones(n: nat): (w: seq<real>)
    ensures |w| == n
    ensures forall i :: 0 <= i < n ==> w[i] == 1.0
  {
    seq(n, _ => 1.0)
  }

  /** The smallest index k >= from whose level is at least v, or |s| when
      there is none. */
  function FirstAtLeast(s: seq<real>, v: real, from: nat): (k: nat)
    requires from <= |s|
    ensures from <= k <= |s|
    ensures k < |s| ==> v <= s[k]
    ensures forall j :: from <= j < k ==> s[j] < v
    decreases |s| - from
  {
    if from == |s| then from
    else if v <= s[from] then from
    else FirstAtLeast(s, v, from + 1)
  }

  /** Any index with the defining property of FirstAtLeast is its result. */
  lemma FirstAtLeastIs(s: seq<real>, v: real, from: nat, k: nat)
    requires from <= k <= |s|
    requires k < |s| ==> v <= s[k]
    requires forall j :: from <= j < k ==> s[j] < v
    ensures FirstAtLeast(s, v, from) == k
  {
  }

  /** Sum of f over the elements of s, accumulated from the front as a
      sequential loop does. */
  function SumOf(s: seq<real>, f: real -> real): real
  {
    if s == [] then 0.0 else SumOf(s[..|s| - 1], f) + f(s[|s| - 1])
  }

  /** Taking one element out of the sum leaves the rest of the sum. */
  lemma {:induction false} SumOfRemove(s: seq<real>, k: nat, f: real -> real)
    requires k < |s|
    ensures SumOf(s, f) == SumOf(s[..k] + s[k + 1..], f) + f(s[k])
    decreases |s|
  {
    var n := |s| - 1;
    var rest := s[..k] + s[k + 1..];
    if k == n {
      assert rest == s[..n];
    } else {
      var front := s[..n];
      assert front[..k] + front[k + 1..] == rest[..|rest| - 1];
      assert rest[|rest| - 1] == s[n];
      SumOfRemove(front, k, f);
    }
  }

  /** The sum does not depend on the order of the elements. */
  lemma {:induction false} SumOfPermutation(a: seq<real>, b: seq<real>, f: real -> real)
    requires multiset(a) == multiset(b)
    ensures SumOf(a, f) == SumOf(b, f)
    decreases |a|
  {
    if a == [] {
      assert |b| == |multiset(b)| == 0;
    } else {
      var n := |a| - 1;
      var x := a[n];
      assert a == a[..n] + [x];
      assert x in multiset(b);
      var k :| 0 <= k < |b| && b[k] == x;
      var rest := b[..k] + b[k + 1..];
      assert b == b[..k] + [x] + b[k + 1..];
      assert multiset(b) == multiset(b[..k]) + multiset{x} + multiset(b[k + 1..]);
      assert multiset(rest) == multiset(b[..k]) + multiset(b[k + 1..]);
      assert multiset(a) == multiset(a[..n]) + multiset{x};
      assert multiset(a[..n]) == multiset(a) - multiset{x};
      assert multiset(rest) == multiset(b) - multiset{x};
      SumOfPermutation(a[..n], rest, f);
      SumOfRemove(b, k, f);
    }
  }
}
