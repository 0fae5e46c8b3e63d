/** The Python metric against the C++ sweep: for values inside the codebook's
    range, calc_vNMSE on any ordering of the values equals sq_vnmse without
    weights on the sorted values. */
module CrossCheck {
  import opened Sequences
  import opened ErrorModel
  import opened Sweep
  import opened Reference

  /** Inside the codebook's range the two codes charge a value the same
      bracket cost: where the sweep's bracket starts at index 1, bucketize's
      starts at 0, and the wrap of sqv[b - 1] at b == 0 only meets a value
      equal to the first level, whose term is 0 either way. */
  lemma TermsAgree(sqv: seq<real>, v: real)
    requires NonDecreasing(sqv) && 2 <= |sqv|
    requires sqv[0] <= v <= sqv[|sqv| - 1]
    ensures VnmseTerm(sqv, v) == SampleCost(sqv, v, 1.0)
  {
  }

  /** Every value lies inside the codebook's range. */
  predicate InRange(vec: seq<real>, sqv: seq<real>)
  {
    2 <= |sqv| && forall i :: 0 <= i < |vec| ==> sqv[0] <= vec[i] <= sqv[|sqv| - 1]
  }

  /** The numerator of calc_vNMSE over the first n values is sq_mse's sum
      with unit weights over them. */
  lemma {:induction false} NumeratorIsSweepCost(vec: seq<real>, sqv: seq<real>, n: nat)
    requires NonDecreasing(sqv) && InRange(vec, sqv) && n <= |vec|
    ensures SumOf(vec[..n], TermOf(sqv)) == SweepCost(vec, sqv, Ones(|vec|), n)
  {
    if n > 0 {
      assert vec[..n][..n - 1] == vec[..n - 1];
      NumeratorIsSweepCost(vec, sqv, n - 1);
      TermsAgree(sqv, vec[n - 1]);
    }
  }

  /** The squared Euclidean norm over the first n values is sq_vnmse's norm
      with unit weights over them. */
  lemma {:induction false} NormIsUnweighted(vec: seq<real>, n: nat)
    requires n <= |vec|
    ensures SumOf(vec[..n], Square) == WeightedSquaredNorm(vec, Ones(|vec|), n)
  {
    if n > 0 {
      assert vec[..n][..n - 1] == vec[..n - 1];
      NormIsUnweighted(vec, n - 1);
    }
  }

  /** For sorted values inside the codebook's range the Python metric is the
      unweighted sq_vnmse. */
  lemma CalcVnmseIsSqVnmse(svec: seq<real>, sqv: seq<real>)
    requires NonDecreasing(sqv) && InRange(svec, sqv)
    ensures CalcVnmse(svec, sqv) == Vnmse(svec, sqv, Ones(|svec|))
  {
    IndexableIff(svec, sqv);
    assert svec[..|svec|] == svec;
    NumeratorIsSweepCost(svec, sqv, |svec|);
    NormIsUnweighted(svec, |svec|);
  }

  /** calc_vNMSE on the values in any order equals the unweighted sq_vnmse on
      the same values sorted: the Python script and the C++ driver report one
      metric in two ways. */
  lemma CalcVnmseOfAnyOrder(vec: seq<real>, svec: seq<real>, sqv: seq<real>)
    requires NonDecreasing(sqv) && NonDecreasing(svec) && InRange(svec, sqv)
    requires multiset(vec) == multiset(svec)
    ensures CalcVnmse(vec, sqv) == Vnmse(svec, sqv, Ones(|svec|))
  {
    CalcVnmseOrderIndependent(vec, svec, sqv);
    CalcVnmseIsSqVnmse(svec, sqv);
  }
}
