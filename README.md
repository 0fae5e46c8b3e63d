# QUIVER error model and stochastic quantizer

QUIVER chooses a small set of quantization values (the codebook `sqv`) for a
vector of samples so as to minimise the expected squared error of stochastic
rounding. A value `v` between two adjacent levels `lo <= v <= hi` is rounded
to `hi` with probability `(v - lo) / (hi - lo)` and to `lo` otherwise; its
expected squared error is `(v - lo) * (hi - v)`. This project models, over
Dafny's `real` in place of `double`, the two places where the repository
computes with that model:

- `sq_mse` and `sq_vnmse` in `defs.cpp`. They make one pass over the sorted
  samples with a codebook index that only moves forward. Each sample's
  (optionally weighted) bracket cost is added up, and `sq_vnmse` divides the
  total by the weighted squared norm of the samples. Both are imperative
  methods in module `Sweep`. For a non-decreasing sample vector, each is
  proved equal to a declarative definition: a sum over samples
  (`SweepCost`) or its ratio to the weighted squared norm (`Vnmse`).
- `quantize` and `calc_vNMSE` in the Python speed/error tests. They bucket
  each value with `torch.bucketize`. `quantize` rounds each value
  stochastically to one of its two levels. `calc_vNMSE` reports the summed
  bracket cost over the squared norm. Both are pure functions over sequences
  in module `Reference`. The random draws of `torch.rand` are an explicit
  argument.

Module `ErrorModel` holds the bracket cost and the error values. Module
`Sequences` holds sortedness, the "first level at least v" search and
order-independent sums. Module `CrossCheck` proves that for values inside
the codebook's range, `calc_vNMSE` on the values in any order equals the
unweighted `sq_vnmse` on the sorted values.

Errors are values (`Result`):
- `IndexOutOfRange` is an index past the codebook's end. This is the
  `IndexError` of `torch.take` or `sqv[b]`.
- `NonFiniteRatio` is a division by a zero norm, where IEEE-754 gives inf or
  NaN.

In C++ an out-of-range read is undefined behaviour. So `SqMse` and
`SqVnmse` require what keeps every read inside the vectors:
- there are no samples, or
- the codebook has at least two levels and no sample lies above the last
  one.

`SqMse` makes its promises about the result only for a non-decreasing
sample vector, which the source assumes. It does not need the codebook to be
sorted.

## Model

| member | source | states |
|---|---|---|
| ErrorModel.BracketCost | QUIVER/defs.cpp:22 | a sample's error `(v - lo) * (hi - v)` is non-negative inside its bracket and exactly 0 at either end |
| Sequences.FirstAtLeast | QUIVER/defs.cpp:17-20 | the search the inner `while` performs: the first index from a start whose level is at least v, every level before it below v |
| Sequences.Ones | QUIVER/defs.cpp:21 | the implicit weight 1 used when no weight vector is given, one per sample |
| Sequences.SumOfPermutation | QUIVER/tests/speed_error_tests.py:44 | a sum over the values does not depend on their order |
| Sweep.HiIndex | QUIVER/defs.cpp:17-20 | the index the `while` stops at plus one: in bounds (between 1 and the last index), the first level from index 1 on that is at least v, and with `sqv[0] <= v` the pair brackets v |
| Sweep.SampleCost | QUIVER/defs.cpp:21-22 | the weighted error one sample adds: its bracket cost between the levels at `HiIndex - 1` and `HiIndex` times its weight; non-negative for a sample not below the first level with a non-negative weight, and 0 for a sample on a level of a sorted codebook |
| Sweep.SweepCost | QUIVER/defs.cpp:15-23 | the declarative total of sq_mse over the first n samples, the sum of their sample costs; non-negative when no sample lies below the first level and no weight is negative |
| Sweep.WeightedSquaredNorm | QUIVER/defs.cpp:35-46 | the sum over the first n samples of `v * v * w`; non-negative when no weight is negative |
| Sweep.HiIndexMonotone | QUIVER/defs.cpp:11 | a larger sample never has an earlier bracket, so one forward-only index serves a sorted vector |
| Sweep.Weights | QUIVER/defs.cpp:21 | the weights in use: the first n entries of W, or all ones for a null W |
| Sweep.SqMse | QUIVER/defs.cpp:9-26 | every read is in bounds; the index advances at most the codebook's length minus 2 times in total and not at all for no samples; for sorted samples its last position is `HiIndex` of the last sample minus 1, a bracket when that sample is not below the first level, and `mse` equals the sum over samples of weight times bracket cost |
| Sweep.Vnmse | QUIVER/defs.cpp:31-48 | the declarative sq_vnmse: an error exactly when the weighted squared norm is 0, and otherwise a ratio that times the norm gives the sweep cost |
| Sweep.SqVnmse | QUIVER/defs.cpp:31-49 | both norm loops compute the weighted squared norm (with unit weights for a null W); the result is an error exactly when that norm is 0; for sorted samples it is `Vnmse`; no array is modified |
| Sweep.ZeroSamplesHaveNoRatio | QUIVER/defs.cpp:31-48 | an all-zero sample vector has norm 0 and sq_vnmse returns no finite ratio for it |
| Sweep.VnmseNonNegative | QUIVER/defs.cpp:31-48 | with samples in range and non-negative weights, any ratio sq_vnmse returns is non-negative |
| Sweep.UnitWeightsAreNoWeights | QUIVER/defs.cpp:35-46 | a weight array of all ones gives the same weights as a null pointer, so both functions return the same value either way |
| Reference.Bucketize | QUIVER/tests/speed_error_tests.py:25 | the bucket is at most the codebook's length, its level is at least v, and every level before it is below v |
| Reference.BucketizeCountsBelow | QUIVER/tests/speed_error_tests.py:39 | on a sorted codebook the bucket equals the number of levels strictly below v |
| Reference.IndexableIff | QUIVER/tests/speed_error_tests.py:27 | every value has an in-range bucket exactly when the codebook is non-empty and no value lies above its last level |
| Reference.AboveLastLevelFails | QUIVER/tests/speed_error_tests.py:41 | a value above the last level has the codebook's length as bucket, and both quantize and calc_vNMSE fail with an index error |
| Reference.UpLevel | QUIVER/tests/speed_error_tests.py:27 | `sqv[b]`, the level `torch.take` reads: a level of the codebook at least v, and on a sorted codebook the least such level |
| Reference.DownLevel | QUIVER/tests/speed_error_tests.py:28 | `sqv[max(b - 1, 0)]`, the level read after the clip: a level of the codebook, below v when v is above the first level, and then on a sorted codebook the greatest level below v |
| Reference.LevelsBracket | QUIVER/tests/speed_error_tests.py:27-28 | down <= up and v <= up; at or below the first level both are the first level (the clip); above it down < v |
| Reference.DownProbability | QUIVER/tests/speed_error_tests.py:30 | `p = (up - v) / (up - down)`: p times the bracket width is the distance from v up to `up`, and for v inside the bracket p lies in [0, 1] |
| Reference.RoundStochastic | QUIVER/tests/speed_error_tests.py:30-33 | each rounded value is either down or up |
| Reference.RoundsUpIff | QUIVER/tests/speed_error_tests.py:30-33 | for down < up the result is up exactly when `p < r` with `p = (up - v) / (up - down)` |
| Reference.RoundingUnbiased | QUIVER/tests/speed_error_tests.py:30-33 | inside the bracket the expected result `p * down + (1 - p) * up` is v, and the expected squared error is the bracket cost |
| Reference.Quantize | QUIVER/tests/speed_error_tests.py:23-33 | succeeds exactly when every value is at most the last level (index error otherwise); the output has the input's length and each element is its value's down or up level |
| Reference.QuantizeBelowFirstLevel | QUIVER/tests/speed_error_tests.py:28 | a value at or below the first level is quantized to the first level whatever the draw |
| Reference.QuantizeUpIff | QUIVER/tests/speed_error_tests.py:30-33 | above the first level the two levels differ and the output is up exactly when the draw exceeds p |
| Reference.PyIndex | QUIVER/tests/speed_error_tests.py:42 | Python's `sqv[k]` for `-len <= k < len`: the level at k modulo the codebook's length |
| Reference.VnmseTerm | QUIVER/tests/speed_error_tests.py:41-44 | the summand `(up - v) * (v - down)` with `up = sqv[b]` and `down = sqv[b - 1]` (wrapping at b = 0); non-negative for v inside a sorted codebook's range, and 0 for v equal to a level of a sorted codebook |
| Reference.CalcVnmse | QUIVER/tests/speed_error_tests.py:38-44 | an index error exactly when some value has no bucket; a non-finite ratio exactly when every value has one and the squared norm is 0; a ratio otherwise (its value is related to the sweep by `CrossCheck.CalcVnmseIsSqVnmse`) |
| Reference.FirstLevelTermIsZero | QUIVER/tests/speed_error_tests.py:41-44 | a value equal to the first level contributes 0 although `sqv[b - 1]` wraps to the last level |
| Reference.BelowFirstLevelTermIsNegative | QUIVER/tests/speed_error_tests.py:42-44 | a value below the first level is paired with the last level by the wrap and contributes a negative term |
| Reference.CalcVnmseOrderIndependent | QUIVER/tests/speed_error_tests.py:44 | the metric is the same for any ordering of the values |
| CrossCheck.TermsAgree | QUIVER/tests/speed_error_tests.py:39-44 | inside the codebook's range a value's calc_vNMSE term equals its unweighted sq_mse term |
| CrossCheck.NumeratorIsSweepCost | QUIVER/tests/speed_error_tests.py:44 | the numerator of calc_vNMSE equals sq_mse's sum with unit weights |
| CrossCheck.NormIsUnweighted | QUIVER/defs.cpp:42-46 | the squared Euclidean norm equals sq_vnmse's norm with unit weights |
| CrossCheck.CalcVnmseIsSqVnmse | QUIVER/defs.cpp:31-48 | for values inside the codebook's range, calc_vNMSE equals the unweighted sq_vnmse |
| CrossCheck.CalcVnmseOfAnyOrder | QUIVER/tests/speed_error_tests.py:38-44 | calc_vNMSE on the values in any order equals the unweighted sq_vnmse on the same values sorted |

## Left out

- The level-selection solvers (`ExactQUIVER`, `ApproxQUIVER`, `calcQuantizationValues`) are not part of this model. Their headers are not among the repository files modelled here; the code only calls them.
- `python_bindings.cpp` is not modelled. It is device, dtype and contiguity checks and copying into tensors.
- `main.cpp` is not modelled. It is a benchmark driver: random input, timing and console output.
- The Python harness after line 78, `plotQUIVER.py` and `setup.py` are not modelled. They are I/O, orchestration, plotting and build configuration.
- The `CEIL` macro in `defs.h` is not modelled; the modelled code does not use it.
- Arithmetic is over `real`, so IEEE-754 rounding is not modelled. Neither is the exact NaN or inf of a zero-norm division; it is the error `NonFiniteRatio`. Nor is the rounding of `down + (up - down) * (p < r)`; it is taken to be exactly up or down.
- `torch.rand` is the explicit `draws` argument. No distribution over draws is modelled: unbiasedness is stated for a given probability p of rounding down.
- The width of the C++ `int` loop indices is not modelled. Nor is the comparison of a signed index with `size()`. Vectors are taken to be shorter than `2^31`.
- Sweep.ZeroSamplesHaveNoRatio: proves only that an all-zero sample vector gives no finite ratio. The converse is not proved, namely that a non-zero sample with positive weights gives a positive norm and so a finite ratio: Dafny's arithmetic does not conclude `0 < sum of v * v * w` from one strictly positive term, even with `0 < x * x` supplied by a helper lemma.
- Sweep.SqMse: the result is specified only for a non-decreasing sample vector. For unsorted input only memory safety and the bound on index advances are stated.
