/** The Python reference in the speed/error tests: the stochastic quantizer
    that rounds each value to one of the two codebook levels around it, and
    calc_vNMSE, the error metric the tests report. Both locate a value's
    bracket with torch.bucketize; the random draws of torch.rand are an
    explicit argument. */
module Reference {
  import opened Sequences
  import opened ErrorModel

  /** torch.bucketize(v, sqv) with its default right=False on a sorted
      codebook: the first index whose level is at least v, or |sqv| when v lies
      above every level. */
  function Bucketize(sqv: seq<real>, v: real): (b: nat)
    ensures b <= |sqv|
    ensures b < |sqv| ==> v <= sqv[b]
    ensures forall j :: 0 <= j < b ==> sqv[j] < v
  {
    FirstAtLeast(sqv, v, 0)
  }

  /** Number of levels strictly below v. */
  function CountBelow(sqv: seq<real>, v: real): nat
  {
    if sqv == [] then 0
    else CountBelow(sqv[..|sqv| - 1], v) + (if sqv[|sqv| - 1] < v then 1 else 0)
  }

  /** On a sorted codebook the bucket of v is the number of levels below v. */
  lemma {:induction false} BucketizeCountsBelow(sqv: seq<real>, v: real)
    requires NonDecreasing(sqv)
    ensures Bucketize(sqv, v) == CountBelow(sqv, v)
    decreases |sqv|
  {
    if sqv != [] {
      var n := |sqv| - 1;
      var front := sqv[..n];
      BucketizeCountsBelow(front, v);
      var b := Bucketize(front, v);
      if sqv[n] < v {
        assert forall j :: 0 <= j < n ==> sqv[j] <= sqv[n];
        FirstAtLeastIs(sqv, v, 0, n + 1);
      } else if b < n {
        assert sqv[b] == front[b];
        FirstAtLeastIs(sqv, v, 0, b);
      } else {
        FirstAtLeastIs(sqv, v, 0, n);
      }
    }
  }

  /** torch.take(sqv, buckets) succeeds for every value of vec. */
  predicate Indexable(vec: seq<real>, sqv: seq<real>)
  {
    forall i :: 0 <= i < |vec| ==> Bucketize(sqv, vec[i]) < |sqv|
  }

  /** On a sorted codebook a value has a bucket exactly when it does not lie
      above the last level. */
  lemma IndexableIff(vec: seq<real>, sqv: seq<real>)
    requires NonDecreasing(sqv)
    ensures Indexable(vec, sqv) <==> forall i :: 0 <= i < |vec| ==> 0 < |sqv| && vec[i] <= sqv[|sqv| - 1]
  {
    if Indexable(vec, sqv) {
      forall i | 0 <= i < |vec|
        ensures 0 < |sqv| && vec[i] <= sqv[|sqv| - 1]
      {
        var b := Bucketize(sqv, vec[i]);
        assert sqv[b] <= sqv[|sqv| - 1];
      }
    }
  }

  /** The level above v: torch.take(sqv, buckets). It is a level of the
      codebook at least v, and on a sorted codebook the least such level. */
  function UpLevel(sqv: seq<real>, v: real): (u: real)
    requires Bucketize(sqv, v) < |sqv|
    ensures u in sqv && v <= u
    ensures NonDecreasing(sqv) ==> forall j :: 0 <= j < |sqv| && v <= sqv[j] ==> u <= sqv[j]
  {
    sqv[Bucketize(sqv, v)]
  }

  /** The level below v: torch.take(sqv, clip(buckets - 1, min=0)). It is a
      level of the codebook; above the first level it is below v, and on a
      sorted codebook it is then the greatest level below v. */
  function DownLevel(sqv: seq<real>, v: real): (d: real)
    requires Bucketize(sqv, v) < |sqv|
    ensures d in sqv
    ensures sqv[0] < v ==> d < v
    ensures NonDecreasing(sqv) && sqv[0] < v ==> forall j :: 0 <= j < |sqv| && sqv[j] < v ==> sqv[j] <= d
  {
    var b := Bucketize(sqv, v);
    if b == 0 then sqv[0] else sqv[b - 1]
  }

  /** The two levels quantize chooses between bracket v: below the first
      level both are the first level; otherwise down < v <= up. */
  lemma LevelsBracket(sqv: seq<real>, v: real)
    requires NonDecreasing(sqv) && Bucketize(sqv, v) < |sqv|
    ensures DownLevel(sqv, v) <= UpLevel(sqv, v)
    ensures v <= UpLevel(sqv, v)
    ensures v <= sqv[0] ==> DownLevel(sqv, v) == UpLevel(sqv, v) == sqv[0]
    ensures sqv[0] < v ==> DownLevel(sqv, v) < v
  {
  }

  /** Probability that quantize rounds v down, p = (up - v) / (up - down):
      the share of the bracket that lies above v. */
  function DownProbability(v: real, down: real, up: real): (p: real)
    requires down != up
    ensures p * (up - down) == up - v
    ensures down < up && down <= v <= up ==> 0.0 <= p <= 1.0
  {
    FractionInUnitInterval(up - v, up - down);
    (up - v) / (up - down)
  }

  lemma FractionInUnitInterval(a: real, d: real)
    ensures 0.0 <= a <= d && 0.0 < d ==> 0.0 <= a / d <= 1.0
  {
    if 0.0 < d {
      assert a / d * d == a;
    }
  }

  /** One element of quantize: up when the draw exceeds the probability of
      rounding down, down otherwise. When up == down the division is 0/0 or
      x/0 in IEEE-754, the comparison is false, and the result is down. */
  function RoundStochastic(v: real, down: real, up: real, draw: real): (q: real)
    ensures q == down || q == up
  {
    if up == down then down
    else if DownProbability(v, down, up) < draw then up
    else down
  }

  /** A distinct pair of levels is rounded up exactly when the draw exceeds
      the probability of rounding down. */
  lemma RoundsUpIff(v: real, down: real, up: real, draw: real)
    requires down < up
    ensures RoundStochastic(v, down, up, draw) == up <==> DownProbability(v, down, up) < draw
  {
  }

  /** Stochastic rounding is unbiased: inside the bracket, rounding down with
      probability p gives the expected result v, and the expected squared error
      is the bracket cost of the error model. */
  lemma RoundingUnbiased(v: real, down: real, up: real)
    requires down < up && down <= v <= up
    ensures DownProbability(v, down, up) * down + (1.0 - DownProbability(v, down, up)) * up == v
    ensures DownProbability(v, down, up) * ((v - down) * (v - down))
          + (1.0 - DownProbability(v, down, up)) * ((up - v) * (up - v))
         == BracketCost(v, down, up)
  {
    var p := DownProbability(v, down, up);
    var d := up - down;
    assert p * d == up - v;
    assert (1.0 - p) * d == v - down;
    ExpectedSquaredError(p, v - down, up - v, d);
  }

  /** With a = v - down, c = up - v and d = a + c: p = c / d gives
      p * a^2 + (1 - p) * c^2 == a * c. */
  lemma ExpectedSquaredError(p: real, a: real, c: real, d: real)
    requires d == a + c && d != 0.0 && p * d == c
    ensures p * (a * a) + (1.0 - p) * (c * c) == a * c
  {
  }

  /** quantize(vec, sqv) with draws[i] the i-th value of torch.rand. */
  function Quantize(vec: seq<real>, sqv: seq<real>, draws: seq<real>): (r: Result<seq<real>>)
    requires NonDecreasing(sqv) && |draws| == |vec|
    ensures r.Ok? <==> forall i :: 0 <= i < |vec| ==> 0 < |sqv| && vec[i] <= sqv[|sqv| - 1]
    ensures r.Err? ==> r.error == IndexOutOfRange
    ensures r.Ok? ==> |r.value| == |vec|
    ensures r.Ok? ==> forall i :: 0 <= i < |vec| ==>
              Bucketize(sqv, vec[i]) < |sqv|
              && (r.value[i] == DownLevel(sqv, vec[i]) || r.value[i] == UpLevel(sqv, vec[i]))
  {
    IndexableIff(vec, sqv);
    if Indexable(vec, sqv) then
      Ok(seq(|vec|, i requires 0 <= i < |vec| =>
        RoundStochastic(vec[i], DownLevel(sqv, vec[i]), UpLevel(sqv, vec[i]), draws[i])))
    else
      Err(IndexOutOfRange)
  }

  /** Every value at or below the first level is quantized to the first level,
      whatever the draw. */
  lemma QuantizeBelowFirstLevel(vec: seq<real>, sqv: seq<real>, draws: seq<real>, i: nat)
    requires NonDecreasing(sqv) && |draws| == |vec| && i < |vec|
    requires Quantize(vec, sqv, draws).Ok? && 0 < |sqv| && vec[i] <= sqv[0]
    ensures Quantize(vec, sqv, draws).value[i] == sqv[0]
  {
  }

  /** Inside the codebook's range each output is the upper level exactly when
      its draw exceeds the probability of rounding down. */
  lemma QuantizeUpIff(vec: seq<real>, sqv: seq<real>, draws: seq<real>, i: nat)
    requires NonDecreasing(sqv) && |draws| == |vec| && i < |vec|
    requires Quantize(vec, sqv, draws).Ok? && 0 < |sqv| && sqv[0] < vec[i]
    ensures DownLevel(sqv, vec[i]) < UpLevel(sqv, vec[i])
    ensures Quantize(vec, sqv, draws).value[i] == UpLevel(sqv, vec[i])
        <==> DownProbability(vec[i], DownLevel(sqv, vec[i]), UpLevel(sqv, vec[i])) < draws[i]
  {
  }

  /** A value above the last level has bucket |sqv|, so quantize's take and
      calc_vNMSE's sqv[b] both fail with an index error. */
  lemma AboveLastLevelFails(vec: seq<real>, sqv: seq<real>, draws: seq<real>, i: nat)
    requires NonDecreasing(sqv) && |draws| == |vec| && i < |vec|
    requires 0 < |sqv| && sqv[|sqv| - 1] < vec[i]
    ensures Bucketize(sqv, vec[i]) == |sqv|
    ensures Quantize(vec, sqv, draws) == Err(IndexOutOfRange)
    ensures CalcVnmse(vec, sqv) == Err(IndexOutOfRange)
  {
  }

  /** Python's sqv[k]: a negative k counts from the end, so the index read
      is k modulo the length. */
  function PyIndex(sqv: seq<real>, k: int): (x: real)
    requires -|sqv| <= k < |sqv|
    ensures x == sqv[(k + |sqv|) % |sqv|]
  {
    if k < 0 then sqv[|sqv| + k] else sqv[k]
  }

  /** The term calc_vNMSE adds for v: (up - v) * (v - down) with
      up = sqv[b] and down = sqv[b - 1], where b - 1 == -1 wraps to the last
      level. A value without a bucket makes the whole call fail (see
      CalcVnmse); its term is 0 here. */
  function VnmseTerm(sqv: seq<real>, v: real): (t: real)
    ensures NonDecreasing(sqv) && 0 < |sqv| && sqv[0] <= v <= sqv[|sqv| - 1] ==> 0.0 <= t
    ensures NonDecreasing(sqv) && v in sqv ==> t == 0.0
  {
    LevelIsOwnBucket(sqv, v);
    var b := Bucketize(sqv, v);
    if b == |sqv| then 0.0
    else
      var up := sqv[b];
      var down := PyIndex(sqv, b - 1);
      ProductNonNegative(up - v, v - down);
      (up - v) * (v - down)
  }

  lemma ProductNonNegative(a: real, c: real)
    ensures a == 0.0 || (0.0 <= a && 0.0 <= c) ==> 0.0 <= a * c
  {
  }

  /** On a sorted codebook a level's bucket holds that level. */
  lemma LevelIsOwnBucket(sqv: seq<real>, v: real)
    ensures NonDecreasing(sqv) && v in sqv ==> Bucketize(sqv, v) < |sqv| && sqv[Bucketize(sqv, v)] == v
  {
    if NonDecreasing(sqv) && v in sqv {
      var j :| 0 <= j < |sqv| && sqv[j] == v;
      assert Bucketize(sqv, v) <= j;
    }
  }

  /** VnmseTerm for a fixed codebook, as the function summed over vec. */
  function TermOf(sqv: seq<real>): real -> real
  {
    v => VnmseTerm(sqv, v)
  }

  function Square(v: real): real
  {
    v * v
  }

  /** calc_vNMSE(vec, sqv): the summed terms over the squared Euclidean norm.
      An out-of-range bucket is an IndexError; a zero norm makes the division
      non-finite. */
  function CalcVnmse(vec: seq<real>, sqv: seq<real>): (r: Result<real>)
    requires NonDecreasing(sqv)
    ensures !Indexable(vec, sqv) ==> r == Err(IndexOutOfRange)
    ensures Indexable(vec, sqv) && SumOf(vec, Square) == 0.0 ==> r == Err(NonFiniteRatio)
    ensures r.Ok? <==> Indexable(vec, sqv) && SumOf(vec, Square) != 0.0
  {
    if !Indexable(vec, sqv) then Err(IndexOutOfRange)
    else if SumOf(vec, Square) == 0.0 then Err(NonFiniteRatio)
    else Ok(SumOf(vec, TermOf(sqv)) / SumOf(vec, Square))
  }

  /** The wrap of sqv[b - 1] at b == 0 is harmless for a value equal to the
      first level: its term is 0. */
  lemma FirstLevelTermIsZero(sqv: seq<real>)
    requires 0 < |sqv|
    ensures VnmseTerm(sqv, sqv[0]) == 0.0
  {
  }

  /** For a value below the first level the wrap pairs it with the last
      level, and the term is negative on any non-empty sorted codebook;
      calc_vNMSE is only meaningful when the first level is the smallest
      value. */
  lemma BelowFirstLevelTermIsNegative(sqv: seq<real>, v: real)
    requires NonDecreasing(sqv) && 0 < |sqv| && v < sqv[0]
    ensures VnmseTerm(sqv, v) == (sqv[0] - v) * (v - sqv[|sqv| - 1])
    ensures VnmseTerm(sqv, v) < 0.0
  {
    assert Bucketize(sqv, v) == 0;
    var a := sqv[0] - v;
    var c := v - sqv[|sqv| - 1];
    assert 0.0 < a && c < 0.0;
    assert VnmseTerm(sqv, v) == a * c;
  }

  /** The metric does not depend on the order of the values. */
  lemma CalcVnmseOrderIndependent(vec: seq<real>, other: seq<real>, sqv: seq<real>)
    requires NonDecreasing(sqv) && multiset(vec) == multiset(other)
    ensures CalcVnmse(vec, sqv) == CalcVnmse(other, sqv)
  {
    if Indexable(vec, sqv) {
      IndexablePermutation(vec, other, sqv);
    }
    if Indexable(other, sqv) {
      IndexablePermutation(other, vec, sqv);
    }
    SumOfPermutation(vec, other, Square);
    SumOfPermutation(vec, other, TermOf(sqv));
  }

  lemma IndexablePermutation(vec: seq<real>, other: seq<real>, sqv: seq<real>)
    requires multiset(vec) == multiset(other) && Indexable(vec, sqv)
    ensures Indexable(other, sqv)
  {
    forall i | 0 <= i < |other|
      ensures Bucketize(sqv, other[i]) < |sqv|
    {
      assert other[i] in multiset(vec);
      var j :| 0 <= j < |vec| && vec[j] == other[i];
    }
  }
}
