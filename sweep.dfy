/** The error sweep of defs.cpp: sq_mse walks the sorted samples and the
    codebook together with one monotone index and accumulates the weighted
    bracket cost of every sample; sq_vnmse divides that by the weighted
    squared norm of the samples. */
module Sweep {
  import opened Sequences
  import opened ErrorModel

  /** What sq_mse needs to stay inside the codebook: with no samples nothing
      is read; otherwise the codebook has a pair of levels and no sample lies
      above its last level. */
  predicate SweepSafe(svec: seq<real>, sqv: seq<real>)
  {
    |svec| == 0 || (2 <= |sqv| && forall i :: 0 <= i < |svec| ==> svec[i] <= sqv[|sqv| - 1])
  }

  /** Index of the upper level of v's bracket: the smallest index from 1 on
      whose level is at least v. The lower level is the one just before it. */
  function HiIndex(sqv: seq<real>, v: real): (h: nat)
    requires 2 <= |sqv| && v <= sqv[|sqv| - 1]
    ensures 1 <= h < |sqv|
    ensures v <= sqv[h]
    ensures forall j :: 1 <= j < h ==> sqv[j] < v
    ensures sqv[0] <= v ==> sqv[h - 1] <= v <= sqv[h]
  {
    FirstAtLeast(sqv, v, 1)
  }

  /** No sample lies below the first level of the codebook. */
  predicate AboveFirstLevel(svec: seq<real>, sqv: seq<real>)
  {
    forall i :: 0 <= i < |svec| ==> 0 < |sqv| && sqv[0] <= svec[i]
  }

  /** Every weight is non-negative. */
  predicate NonNegativeWeights(w: seq<real>)
  {
    forall i :: 0 <= i < |w| ==> 0.0 <= w[i]
  }

  /** The weighted error one sample contributes to sq_mse, the bracket cost
      of v between the levels at HiIndex - 1 and HiIndex times its weight. It
      is non-negative for a sample not below the first level with a
      non-negative weight, and 0 for a sample on a level of a sorted
      codebook. */
  function SampleCost(sqv: seq<real>, v: real, w: real): (c: real)
    requires 2 <= |sqv| && v <= sqv[|sqv| - 1]
    ensures sqv[0] <= v && 0.0 <= w ==> 0.0 <= c
    ensures NonDecreasing(sqv) && v in sqv ==> c == 0.0
  {
    var h := HiIndex(sqv, v);
    LevelIsBracketEnd(sqv, v);
    BracketCost(v, sqv[h - 1], sqv[h]) * w
  }

  /** On a sorted codebook a sample equal to a level is an end of its
      bracket. */
  lemma LevelIsBracketEnd(sqv: seq<real>, v: real)
    requires 2 <= |sqv| && v <= sqv[|sqv| - 1]
    ensures NonDecreasing(sqv) && v in sqv ==>
              v == sqv[HiIndex(sqv, v) - 1] || v == sqv[HiIndex(sqv, v)]
  {
    if NonDecreasing(sqv) && v in sqv {
      var j :| 0 <= j < |sqv| && sqv[j] == v;
      var h := HiIndex(sqv, v);
      if j == 0 {
        assert sqv[0] <= sqv[1];
      } else {
        assert h <= j;
      }
    }
  }

  /** The declarative total that sq_mse computes over the first n samples:
      the sum of their weighted bracket costs. It is non-negative when no
      sample lies below the first level and no weight is negative. */
  function SweepCost(svec: seq<real>, sqv: seq<real>, w: seq<real>, n: nat): (c: real)
    requires n <= |svec| == |w| && SweepSafe(svec, sqv)
    ensures AboveFirstLevel(svec, sqv) && NonNegativeWeights(w) ==> 0.0 <= c
  {
    if n == 0 then 0.0 else SweepCost(svec, sqv, w, n - 1) + SampleCost(sqv, svec[n - 1], w[n - 1])
  }

  /** A larger sample never has an earlier bracket: this is why one index
      that only moves forward serves a sorted sample vector. */
  lemma HiIndexMonotone(sqv: seq<real>, v: real, u: real)
    requires 2 <= |sqv| && u <= sqv[|sqv| - 1] && v <= u
    ensures HiIndex(sqv, v) <= HiIndex(sqv, u)
  {
  }

  /** The weighted squared norm of the first n samples, sum_i v_i * v_i * w_i.
      It is non-negative when no weight is negative. */
  function WeightedSquaredNorm(svec: seq<real>, w: seq<real>, n: nat): (r: real)
    requires n <= |svec| == |w|
    ensures NonNegativeWeights(w) ==> 0.0 <= r
  {
    if n == 0 then 0.0
    else
      WeightedSquareNonNegative(svec[n - 1], w[n - 1]);
      WeightedSquaredNorm(svec, w, n - 1) + svec[n - 1] * svec[n - 1] * w[n - 1]
  }

  lemma WeightedSquareNonNegative(v: real, wt: real)
    ensures 0.0 <= wt ==> 0.0 <= v * v * wt
  {
  }

  /** The weights sq_mse and sq_vnmse use: the first n entries of W, or all
      ones when W is the null pointer. */
  ghost function Weights(W: array?<real>, n: nat): (w: seq<real>)
    requires W == null || n <= W.Length
    reads W
    ensures |w| == n
    ensures W != null ==> w == W[..n]
    ensures W == null ==> w == Ones(n)
  {
    if W == null then Ones(n) else W[..n]
  }

  /** The value sq_vnmse returns: the sweep cost over the weighted squared
      norm, or a non-finite ratio when that norm is zero. */
  function Vnmse(svec: seq<real>, sqv: seq<real>, w: seq<real>): (r: Result<real>)
    requires |w| == |svec| && SweepSafe(svec, sqv)
    ensures r.Err? <==> WeightedSquaredNorm(svec, w, |svec|) == 0.0
    ensures r.Err? ==> r.error == NonFiniteRatio
    ensures r.Ok? ==> r.value * WeightedSquaredNorm(svec, w, |svec|) == SweepCost(svec, sqv, w, |svec|)
  {
    var snorm := WeightedSquaredNorm(svec, w, |svec|);
    if snorm == 0.0 then Err(NonFiniteRatio)
    else
      var cost := SweepCost(svec, sqv, w, |svec|);
      QuotientScalesBack(cost, snorm);
      Ok(cost / snorm)
  }

  lemma QuotientScalesBack(a: real, b: real)
    requires b != 0.0
    ensures (a / b) * b == a
  {
  }

  /** sq_mse. The vectors are passed by value and W by pointer (null for no
      weights). For sorted samples the result is the declarative SweepCost; the
      ghost result counts how often the codebook index moved forward. */
  method SqMse(svec: seq<real>, sqv: seq<real>, W: array?<real>) returns (mse: real, ghost advances: nat)
    requires W == null || |svec| <= W.Length
    requires SweepSafe(svec, sqv)
    ensures NonDecreasing(svec) ==> mse == SweepCost(svec, sqv, Weights(W, |svec|), |svec|)
    ensures |svec| == 0 ==> advances == 0
    ensures 0 < |svec| ==> advances <= |sqv| - 2
    ensures 0 < |svec| && NonDecreasing(svec) ==> advances + 1 == HiIndex(sqv, svec[|svec| - 1])
  {
    var curr := 0;
    mse := 0.0;
    advances := 0;
    ghost var w := Weights(W, |svec|);
    for i := 0 to |svec|
      invariant advances == curr
      invariant i == 0 ==> curr == 0
      invariant 0 < |svec| ==> curr + 2 <= |sqv|
      invariant NonDecreasing(svec) && 0 < i ==> curr + 1 == HiIndex(sqv, svec[i - 1])
      invariant NonDecreasing(svec) ==> mse == SweepCost(svec, sqv, w, i)
    {
      if NonDecreasing(svec) && 0 < i {
        HiIndexMonotone(sqv, svec[i - 1], svec[i]);
      }
      while svec[i] > sqv[curr + 1]
        invariant advances == curr
        invariant curr + 2 <= |sqv|
        invariant NonDecreasing(svec) ==> curr + 1 <= HiIndex(sqv, svec[i])
        decreases |sqv| - curr
      {
        curr := curr + 1;
        advances := advances + 1;
      }
      var wi := if W != null then W[i] else 1.0;
      assert wi == w[i];
      if NonDecreasing(svec) {
        assert curr + 1 == HiIndex(sqv, svec[i]);
        SweepCostNext(svec, sqv, w, i, curr, wi);
      }
      mse := mse + BracketCost(svec[i], sqv[curr], sqv[curr + 1]) * wi;
    }
  }

  /** One more sample adds its weighted bracket cost, the bracket being the
      one whose upper index is HiIndex. */
  lemma SweepCostNext(svec: seq<real>, sqv: seq<real>, w: seq<real>, n: nat, lo: nat, wn: real)
    requires n < |svec| == |w| && SweepSafe(svec, sqv)
    requires lo + 1 == HiIndex(sqv, svec[n]) && wn == w[n]
    ensures SweepCost(svec, sqv, w, n + 1)
         == SweepCost(svec, sqv, w, n) + BracketCost(svec[n], sqv[lo], sqv[lo + 1]) * wn
  {
  }

  /** sq_vnmse. The vectors are passed by reference and only read: no array
      is in a modifies clause. */
  method SqVnmse(svec: array<real>, sqv: array<real>, W: array?<real>) returns (r: Result<real>)
    requires W == null || svec.Length <= W.Length
    requires SweepSafe(svec[..], sqv[..])
    ensures r.Err? <==> WeightedSquaredNorm(svec[..], Weights(W, svec.Length), svec.Length) == 0.0
    ensures NonDecreasing(svec[..]) ==> r == Vnmse(svec[..], sqv[..], Weights(W, svec.Length))
  {
    ghost var w := Weights(W, svec.Length);
    var snorm := 0.0;
    if W != null {
      for i := 0 to svec.Length
        invariant snorm == WeightedSquaredNorm(svec[..], w, i)
      {
        snorm := snorm + svec[i] * svec[i] * W[i];
      }
    } else {
      for i := 0 to svec.Length
        invariant snorm == WeightedSquaredNorm(svec[..], w, i)
      {
        snorm := snorm + svec[i] * svec[i];
      }
    }
    var mse, _ := SqMse(svec[..], sqv[..], W);
    if snorm == 0.0 {
      r := Err(NonFiniteRatio);
    } else {
      r := Ok(mse / snorm);
    }
  }

  /** An all-zero sample vector has a zero norm whatever the weights, so
      sq_vnmse cannot return a finite ratio for it. */
  lemma {:induction false} ZeroSamplesHaveNoRatio(svec: seq<real>, sqv: seq<real>, w: seq<real>, n: nat)
    requires n <= |svec| == |w| && SweepSafe(svec, sqv)
    requires forall i :: 0 <= i < |svec| ==> svec[i] == 0.0
    ensures WeightedSquaredNorm(svec, w, n) == 0.0
    ensures n == |svec| ==> Vnmse(svec, sqv, w) == Err(NonFiniteRatio)
  {
    if n > 0 {
      ZeroSamplesHaveNoRatio(svec, sqv, w, n - 1);
      assert svec[n - 1] == 0.0;
    }
  }

  /** With samples inside the codebook's range and non-negative weights, a
      finite ratio returned by sq_vnmse is non-negative. */
  lemma VnmseNonNegative(svec: seq<real>, sqv: seq<real>, w: seq<real>)
    requires |w| == |svec| && SweepSafe(svec, sqv)
    requires AboveFirstLevel(svec, sqv) && NonNegativeWeights(w)
    ensures Vnmse(svec, sqv, w).Ok? ==> 0.0 <= Vnmse(svec, sqv, w).value
  {
    var snorm := WeightedSquaredNorm(svec, w, |svec|);
    if snorm != 0.0 {
      QuotientNonNegative(SweepCost(svec, sqv, w, |svec|), snorm);
    }
  }

  /** A non-negative amount over a positive one is non-negative. */
  lemma QuotientNonNegative(a: real, b: real)
    requires 0.0 <= a && 0.0 < b
    ensures 0.0 <= a / b
  {
  }

  /** A weight array of all ones gives the same weights as passing no array,
      so sq_mse and sq_vnmse return the same value either way. */
  lemma UnitWeightsAreNoWeights(W: array<real>, n: nat)
    requires n <= W.Length
    requires forall i :: 0 <= i < n ==> W[i] == 1.0
    ensures Weights(W, n) == Weights(null, n)
  {
  }
}
