# Descriptive statistics over a growable sample buffer

A Dafny model of the statistics core of `basicstate.c`. The samples live in a
growable buffer (`DynamicArray`). The program computes six statistics over it.
Five are modelled: mean, median, mode, harmonic mean, and the guard logic of the
geometric mean. The sixth, `calculate_stddev`, is left out. Sample
values are modelled as exact `real`s. The properties proved are about the
buffer's structure and growth, about the sort and the index selection of the
median, about the run-length scan of the mode, and about the guards and error
results of the means. None of them concern float rounding.

Modules:

- `Samples` (`samples.dfy`) holds the reference definitions the statistics are
  specified against. These are the left-to-right sum, the sum of reciprocals,
  and the number of elements strictly below or above a pivot. It also proves
  that each of them depends only on the multiset of the sample. This matters
  because the program takes the harmonic mean of a buffer that the median and
  the mode have already reordered.
- `Buffer` (`buffer.dfy`) models `DynamicArray` as a value. `storage` is the
  allocated block, so its length is the capacity. `numValues` is the count.
  `Init` and `AddValue` model `init_dynamic_array` and `add_value`.
- `OrderStatistics` (`order.dfy`) holds `compare_floats`, the `qsort` call, and
  `calculate_median` and `calculate_mode`. The source sorts the buffer in
  place, so both methods return the reordered buffer next to the statistic.
- `Moments` and `CompositeMeans` (`means.dfy`) hold `calculate_mean`,
  `calculate_geometric_mean` and `calculate_harmonic_mean`.
- `Examples` (`examples.dfy`) gives the statistics of a few concrete samples.
  It also runs one sample through the modelled operations in the entry point's
  order: append, mean, median, mode, then harmonic mean.

The median is specified by rank, not by index. `IsOrderStat(a, k, x)` says
that `x` occurs in `a`, that at most `k` elements lie below it, and that at
most `|a|-1-k` lie above it. `IsMedian` is the middle order statistic, or the
mean of the two middle ones. The mode is specified on the multiset of the
sample. `IsMode(ms, m)` says that `m` occurs, that no value occurs more often,
and that `m` is the smallest of the values that occur as often.

A reading of the mode in which the later of two equally long runs wins would
be wrong. The code updates only on a strictly greater count (`basicstate.c:107`
and `basicstate.c:116`). So the first maximal run in ascending order is kept,
which holds the smallest such value. `IsMode` and the example
`TieGoesToSmallest` state that behaviour.

## Model

| member | source | states |
|---|---|---|
| `Buffer.Init` | basicstate.c:13-28 | a new buffer is valid and empty, with count 0 and capacity 20, and it satisfies the growth invariant |
| `Buffer.AddValue` | basicstate.c:31-46 | appending increases the count by one, puts `value` last and keeps every earlier sample; the capacity doubles exactly when the count equals the capacity, otherwise it is unchanged |
| `Buffer.AddValuePreservesWellGrown` | basicstate.c:33-45 | every append preserves the invariant: count ≤ capacity, capacity is 20 doubled k times, and a grown buffer is more than half full |
| `Buffer.Appended` | basicstate.c:19-45 | creating a buffer and appending a sequence of values one at a time gives a buffer holding exactly those values in order, satisfying the growth invariant |
| `Buffer.CapacityDetermined` | basicstate.c:33-44 | two buffers that satisfy the growth invariant and hold the same number of samples have the same capacity, so the capacity after n appends depends only on n |
| `OrderStatistics.CompareFloats` | basicstate.c:55-59 | the comparator returns -1, 0 or 1, negative exactly when a < b, zero exactly when they are equal, positive exactly when a > b, so "not positive" is exactly a ≤ b |
| `OrderStatistics.Sort` | basicstate.c:73 | the outcome of `qsort` with `compare_floats` is an ascending permutation of its input |
| `OrderStatistics.SortBuffer` | basicstate.c:96 | sorting the buffer in place reorders its first `numValues` slots into ascending order and keeps the count, the capacity and the unused slots |
| `OrderStatistics.SortedOrderStat` | basicstate.c:74-80 | in a sorted sample the element at index k has at most k elements below it and at most n-1-k above it, so indexing the sorted buffer selects order statistics |
| `OrderStatistics.OrderStatUnique` | basicstate.c:74-80 | the k-th order statistic of a sample is unique |
| `OrderStatistics.OrderStatPermutation` | basicstate.c:73 | being the k-th order statistic depends only on the multiset of the sample |
| `OrderStatistics.CalculateMedian` | basicstate.c:72-82 | for a non-empty buffer: the buffer is returned as an ascending permutation of itself; the result is the element at n/2 for odd n and the average of the elements at n/2-1 and n/2 for even n; this is the median by rank of the original samples |
| `OrderStatistics.MedianUnique` | basicstate.c:72-82 | a sample has at most one median by rank |
| `OrderStatistics.MedianPermutation` | basicstate.c:72-82 | a value is a median of a sample exactly when it is a median of any permutation of it, so the median does not depend on input order |
| `OrderStatistics.RunCounts` | basicstate.c:103-113 | in a sorted sample a completed run of equal values is absent from the prefix before it, which holds only smaller values, and it adds exactly its length to that value's count |
| `OrderStatistics.CloseRun` | basicstate.c:107-118 | closing a run, and replacing the mode only when the run is strictly longer than the longest so far, keeps "mode of the prefix scanned, smallest among ties" with the maximum count equal to the mode's count |
| `OrderStatistics.CalculateMode` | basicstate.c:95-122 | for a non-empty buffer: the buffer is returned sorted and permuted; the result occurs in the sample, no value occurs more often, and among equally frequent values it is the smallest; the last run is included |
| `OrderStatistics.ModeUnique` | basicstate.c:95-122 | the value the mode scan must report is unique for a given multiset of samples |
| `OrderStatistics.StrictlyMostFrequentIsMode` | basicstate.c:95-122 | a value occurring strictly more often than every other is the mode, wherever it appears in the input |
| `Moments.CalculateMean` | basicstate.c:62-69 | an empty buffer gives 0; otherwise the result times the count equals the sum of the samples |
| `Moments.MeanUnchangedByReordering` | basicstate.c:62-69 | a buffer reordered by the median or mode sort has the same count and sum, so its mean is unchanged |
| `Samples.SumPermutation` | basicstate.c:65-67 | the sum of the samples depends only on their multiset |
| `Samples.CountPermutation` | basicstate.c:73 | the number of samples below or above a pivot depends only on their multiset |
| `Samples.SumReciprocalsPermutation` | basicstate.c:199-205 | a reordering of a sample without zeros still has no zeros and has the same sum of reciprocals, so the harmonic mean of a buffer sorted by the median or mode is unchanged |
| `CompositeMeans.MyLn` | basicstate.c:139-142 | a non-positive argument gives -1; a positive one gives the series approximation lnApprox(x) |
| `CompositeMeans.CalculateGeometricMean` | basicstate.c:177-191 | an empty sample gives 0; any value ≤ 0 gives -1, because `my_ln` returns -1 for it; any value whose logarithm is -1 gives -1; otherwise the result is the exponential of the average logarithm |
| `CompositeMeans.CalculateHarmonicMean` | basicstate.c:194-207 | an empty sample gives 0; a zero value gives -1; otherwise the result times the sum of reciprocals equals the count |
| `Examples.FiveSampleSum` | basicstate.c:62-69 | the sample 5, 3, 8, 3, 1 sums to 20 |
| `Examples.FiveSampleMedian` | basicstate.c:72-82 | the median of 5, 3, 8, 3, 1 is 3 |
| `Examples.FiveSampleMode` | basicstate.c:95-122 | the mode of 5, 3, 8, 3, 1 is 3 |
| `Examples.TieGoesToSmallest` | basicstate.c:107-118 | in 2, 1, 2, 1 both values occur twice; the mode is 1, the first run in sorted order, and not 2 |
| `Examples.OneTwoFourSumReciprocals` | basicstate.c:204-206 | the reciprocals of 1, 2, 4 sum to 7/4, the divisor the harmonic mean uses for them |
| `Examples.HarmonicMeanOfOneTwoFour` | basicstate.c:194-207 | running the harmonic mean on 1, 2, 4 gives 12/7 |
| `Examples.FiveSampleSumReciprocals` | basicstate.c:204-206 | the reciprocals of 5, 3, 8, 3, 1 sum to 239/120 |
| `Examples.FiveSampleRoundTrip` | basicstate.c:236-244 | appending 5, 3, 8, 3, 1 to a fresh buffer and then taking the mean, the median, the mode of the re-sorted buffer and the harmonic mean of its values gives count 5, mean 4, median 3, mode 3 and harmonic mean 600/239 |

## Left out

- `calculate_stddev` (basicstate.c:85-92) is not modelled. It needs the C library `sqrt` and divides by zero on an empty buffer.
- `nth_root`, and the series parts of `my_ln` and `my_exp` (basicstate.c:126-174), are not modelled. They are fixed-iteration float approximations. Their only meaningful properties concern rounding and approximation error. `my_ln` keeps its `x <= 0` guard (`MyLn`). Its range reduction and series, and all of `my_exp`, are the function parameters `lnApprox` and `expApprox`.
- `read_values_from_file`, `main` and all `printf`/`fprintf` output are not modelled (basicstate.c:210-261). They cover file I/O, argument handling and formatting. `Buffer.Appended` stands for the loop of appends that reads the file. `Examples.FiveSampleRoundTrip` follows `main`'s order of statistic calls on one fixed sample.
- Allocation failure and `exit(EXIT_FAILURE)` after `malloc`/`realloc` are not modelled, and neither is `free_dynamic_array`. Memory is not finite in the model.
- Buffer.AddValue: the bytes `realloc` adds are indeterminate in the source; the model fills them with 0.0. The function also requires a non-zero capacity, which every buffer from `Init` has. No buffer has capacity 0: `init_dynamic_array` starts at 20 and `add_value` only doubles. At capacity 0 the source would call `realloc` with size 0 (basicstate.c:34-35), whose outcome depends on the C library.
- Buffer.AddValue: the `int` fields are unbounded in the model. In the source, `capacity * 2` overflows once the capacity reaches 2^30.
- `float` precision and accumulation order are not modelled. Values are exact reals, so there are no NaNs, infinities or signed zeros, and `compare_floats` on NaN is not modelled.
- OrderStatistics.Sort: `qsort` is specified by its outcome, an ascending permutation. An insertion sort produces it. For a total order, that outcome is the same whatever algorithm produces it.
- OrderStatistics.CalculateMedian and OrderStatistics.CalculateMode require a non-empty buffer. On an empty buffer `calculate_median` reads `values[-1]`, out of bounds (basicstate.c:77). `calculate_mode` stays in bounds: capacity is at least 20, so `values[0]` (basicstate.c:98) is an allocated but uninitialised slot. The loop at basicstate.c:103 does not run and the check at basicstate.c:116 fails, so it returns that slot's indeterminate value. The model does not describe that value.
- CompositeMeans.CalculateHarmonicMean requires a non-zero sum of reciprocals whenever the sample is non-empty and has no zeros. With mixed signs that sum can be exactly 0 in real arithmetic, and the source would then divide by zero.
- CompositeMeans.CalculateGeometricMean states the -1 result only in one direction for values ≤ 0. A positive value whose approximate logarithm happens to be -1 also gives -1. A successful result may itself equal -1.
