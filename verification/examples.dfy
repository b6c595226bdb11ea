/**
 Worked samples: the statistics the reference definitions assign to a few
 concrete inputs, and one pass through the modelled operations in the order
 the program's entry point calls them.
 */
module Examples {
  import opened Samples
  import opened Buffer
  import opened OrderStatistics
  import opened Moments
  import opened CompositeMeans

  /** A sample of five values in which one value, 3, is repeated. */
  function FiveSample(): seq<real>
  {
    [5.0, 3.0, 8.0, 3.0, 1.0]
  }

  /** Its sum is 20. */
  lemma FiveSampleSum()
    ensures Sum(FiveSample()) == 20.0
  {
    var a := FiveSample();
    var a1, a2, a3, a4 := [5.0], [5.0, 3.0], [5.0, 3.0, 8.0], [5.0, 3.0, 8.0, 3.0];
    assert a1[..0] == [] && a2[..1] == a1 && a3[..2] == a2 && a4[..3] == a3 && a[..4] == a4;
    assert Sum(a1) == 5.0 && Sum(a2) == 8.0 && Sum(a3) == 16.0 && Sum(a4) == 19.0;
  }

  /** Its median is 3: one value lies below 3 and two above. */
  lemma FiveSampleMedian()
    ensures IsMedian(FiveSample(), 3.0)
  {
    var a := FiveSample();
    var a1, a2, a3, a4 := [5.0], [5.0, 3.0], [5.0, 3.0, 8.0], [5.0, 3.0, 8.0, 3.0];
    assert a1[..0] == [] && a2[..1] == a1 && a3[..2] == a2 && a4[..3] == a3 && a[..4] == a4;
    assert Count(a1, Below, 3.0) == 0 && Count(a2, Below, 3.0) == 0 && Count(a3, Below, 3.0) == 0;
    assert Count(a4, Below, 3.0) == 0 && Count(a, Below, 3.0) == 1;
    assert Count(a1, Above, 3.0) == 1 && Count(a2, Above, 3.0) == 1 && Count(a3, Above, 3.0) == 2;
    assert Count(a4, Above, 3.0) == 2 && Count(a, Above, 3.0) == 2;
    assert a[1] == 3.0;
  }

  /** Its mode is 3, the only value occurring twice. */
  lemma FiveSampleMode()
    ensures IsMode(multiset(FiveSample()), 3.0)
  {
  }

  /**
   Two values tie for the highest count: the scan keeps the first run, so the
   smaller value is reported, not the later one.
   */
  lemma TieGoesToSmallest()
    ensures IsMode(multiset([2.0, 1.0, 2.0, 1.0]), 1.0)
    ensures !IsMode(multiset([2.0, 1.0, 2.0, 1.0]), 2.0)
  {
  }

  /** The reciprocals of 1, 2, 4 sum to 7/4. */
  lemma OneTwoFourSumReciprocals()
    ensures NoZero([1.0, 2.0, 4.0])
    ensures SumReciprocals([1.0, 2.0, 4.0]) == 7.0 / 4.0
  {
    var a := [1.0, 2.0, 4.0];
    var a1, a2 := [1.0], [1.0, 2.0];
    assert a1[..0] == [] && a2[..1] == a1 && a[..2] == a2;
    assert SumReciprocals(a1) == 1.0 && SumReciprocals(a2) == 1.5;
  }

  /** The harmonic mean of 1, 2, 4 is 12/7. */
  method HarmonicMeanOfOneTwoFour() returns (h: real)
    ensures h == 12.0 / 7.0
  {
    OneTwoFourSumReciprocals();
    h := CalculateHarmonicMean([1.0, 2.0, 4.0]);
    assert h * (7.0 / 4.0) == 3.0;
  }

  /** The reciprocals of 5, 3, 8, 3, 1 sum to 239/120. */
  lemma FiveSampleSumReciprocals()
    ensures NoZero(FiveSample())
    ensures SumReciprocals(FiveSample()) == 239.0 / 120.0
  {
    var a := FiveSample();
    var a1, a2, a3, a4 := [5.0], [5.0, 3.0], [5.0, 3.0, 8.0], [5.0, 3.0, 8.0, 3.0];
    assert a1[..0] == [] && a2[..1] == a1 && a3[..2] == a2 && a4[..3] == a3 && a[..4] == a4;
    assert SumReciprocals(a1) == 1.0 / 5.0;
    assert SumReciprocals(a2) == 8.0 / 15.0;
    assert SumReciprocals(a3) == 79.0 / 120.0;
    assert SumReciprocals(a4) == 119.0 / 120.0;
  }

  /**
   The entry point's sequence on the five-value sample: read the values into
   a fresh buffer, then take the mean, the median (which sorts the buffer),
   the mode of the sorted buffer, and the harmonic mean of its values. The
   count is 5, the mean 4, the median 3, the mode 3 and the harmonic mean
   600/239; the sort in between changes none of them.
   */
  method FiveSampleRoundTrip()
    returns (count: int, mean: real, median: real, mode: real, harmonic: real)
    ensures count == 5
    ensures mean == 4.0
    ensures median == 3.0
    ensures mode == 3.0
    ensures harmonic == 600.0 / 239.0
  {
    var arr := Appended(FiveSample());
    assert arr.Contents() == FiveSample();
    assert |arr.Contents()| == 5;
    count := arr.numValues;
    mean := CalculateMean(arr);
    FiveSampleSum();
    assert mean * 5.0 == 20.0;
    var sorted;
    median, sorted := CalculateMedian(arr);
    FiveSampleMedian();
    MedianUnique(arr.Contents(), median, 3.0);
    var sortedAgain;
    mode, sortedAgain := CalculateMode(sorted);
    FiveSampleMode();
    ModeUnique(multiset(FiveSample()), mode, 3.0);
    FiveSampleSumReciprocals();
    SumReciprocalsPermutation(FiveSample(), sortedAgain.Contents());
    harmonic := CalculateHarmonicMean(sortedAgain.Contents());
    assert harmonic * (239.0 / 120.0) == 5.0;
  }
}
