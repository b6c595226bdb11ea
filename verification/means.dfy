/**
 The arithmetic mean of the buffer (`calculate_mean`).
 */
module Moments {
  import opened Samples
  import opened Buffer

  /**
   `calculate_mean`: sums the samples left to right and divides by the count;
   an empty buffer yields 0.
   */
  method CalculateMean(arr: DynamicArray) returns (mean: real)
    requires arr.Valid()
    ensures arr.numValues == 0 ==> mean == 0.0
    ensures arr.numValues > 0 ==> mean * arr.numValues as real == Sum(arr.Contents())
  {
    var values := arr.Contents();
    var sum := 0.0;
    for i := 0 to arr.numValues
      invariant sum == Sum(values[..i])
    {
      assert values[..i + 1][..i] == values[..i];
      sum := sum + values[i];
    }
    assert values[..arr.numValues] == values;
    mean := if arr.numValues != 0 then sum / arr.numValues as real else 0.0;
  }

  /**
   Reordering the buffer, as the median and mode do, leaves its sum and
   hence its mean unchanged.
   */
  lemma MeanUnchangedByReordering(arr: DynamicArray, reordered: DynamicArray)
    requires arr.Valid() && reordered.Valid()
    requires multiset(reordered.Contents()) == multiset(arr.Contents())
    ensures reordered.numValues == arr.numValues
    ensures Sum(reordered.Contents()) == Sum(arr.Contents())
  {
    assert |reordered.Contents()| == |multiset(reordered.Contents())| == |arr.Contents()|;
    SumPermutation(reordered.Contents(), arr.Contents());
  }
}

/**
 The geometric and harmonic means. Unlike the other statistics they take the
 sample as a plain sequence of values (the source passes `arr->values` and
 `arr->num_values`).
 */
module CompositeMeans {
  import opened Samples

  /**
   `my_ln` as far as it is modelled: a non-positive argument yields the error
   value -1; for a positive argument the result is whatever the series
   approximation `lnApprox` computes.
   */
  function MyLn(lnApprox: real -> real, x: real): (r: real)
    ensures x <= 0.0 ==> r == -1.0
    ensures x > 0.0 ==> r == lnApprox(x)
  {
    if x <= 0.0 then -1.0 else lnApprox(x)
  }

  /** Sum of `MyLn` over the sample, accumulated left to right. */
  function SumLn(lnApprox: real -> real, a: seq<real>): real
  {
    if |a| == 0 then 0.0 else SumLn(lnApprox, a[..|a| - 1]) + MyLn(lnApprox, a[|a| - 1])
  }

  /**
   `calculate_geometric_mean`: 0 for an empty sample; otherwise the logarithm
   of each value in turn, returning -1 as soon as one of them is -1, and
   finally `expApprox` of the average logarithm. `lnApprox` and `expApprox`
   stand for the series parts of `my_ln` and `my_exp`.
   */
  method CalculateGeometricMean(values: seq<real>, lnApprox: real -> real, expApprox: real -> real)
    returns (r: real)
    ensures |values| == 0 ==> r == 0.0
    ensures (exists i :: 0 <= i < |values| && values[i] <= 0.0) ==> r == -1.0
    ensures (exists i :: 0 <= i < |values| && MyLn(lnApprox, values[i]) == -1.0) ==> r == -1.0
    ensures |values| > 0 && (forall i :: 0 <= i < |values| ==> MyLn(lnApprox, values[i]) != -1.0) ==>
      r == expApprox(SumLn(lnApprox, values) / |values| as real)
  {
    if |values| == 0 {
      return 0.0;
    }
    var logSum := 0.0;
    for i := 0 to |values|
      invariant logSum == SumLn(lnApprox, values[..i])
      invariant forall j :: 0 <= j < i ==> MyLn(lnApprox, values[j]) != -1.0
    {
      var logValue := MyLn(lnApprox, values[i]);
      if logValue == -1.0 {
        return -1.0;
      }
      assert values[..i + 1][..i] == values[..i];
      logSum := logSum + logValue;
    }
    assert values[..|values|] == values;
    r := expApprox(logSum / |values| as real);
  }

  /**
   `calculate_harmonic_mean`: 0 for an empty sample; -1 as soon as a zero
   value is met; otherwise the count divided by the sum of reciprocals. With
   exact arithmetic that sum can vanish for mixed signs, which the
   precondition excludes.
   */
  method CalculateHarmonicMean(values: seq<real>) returns (r: real)
    requires |values| > 0 && NoZero(values) ==> SumReciprocals(values) != 0.0
    ensures |values| == 0 ==> r == 0.0
    ensures (exists i :: 0 <= i < |values| && values[i] == 0.0) ==> r == -1.0
    ensures |values| > 0 && NoZero(values) ==> r * SumReciprocals(values) == |values| as real
  {
    if |values| == 0 {
      return 0.0;
    }
    var sumReciprocals := 0.0;
    for i := 0 to |values|
      invariant NoZero(values[..i])
      invariant sumReciprocals == SumReciprocals(values[..i])
    {
      if values[i] == 0.0 {
        return -1.0;
      }
      assert values[..i + 1][..i] == values[..i];
      sumReciprocals := sumReciprocals + 1.0 / values[i];
    }
    assert values[..|values|] == values;
    r := |values| as real / sumReciprocals;
  }
}
