/**
 The order statistics of the sample buffer. Both `calculate_median` and
 `calculate_mode` first sort the buffer in place with `qsort` and the
 `compare_floats` comparator, so the buffer they hand back is reordered; the
 model returns that reordered buffer next to the statistic.
 */
module OrderStatistics {
  import opened Samples
  import opened Buffer

  /** `compare_floats`: the three-way comparison `(a > b) - (a < b)`. */
  function CompareFloats(a: real, b: real): (r: int)
    ensures -1 <= r <= 1
    ensures r < 0 <==> a < b
    ensures r == 0 <==> a == b
    ensures r > 0 <==> a > b
    ensures r <= 0 <==> a <= b
  {
    (if a > b then 1 else 0) - (if a < b then 1 else 0)
  }

  /**
   Ascending order. By the contract of `CompareFloats` this is exactly the
   order `compare_floats` sorts into: no later element compares below an
   earlier one.
   */
  ghost predicate Sorted(s: seq<real>)
  {
    forall i, j :: 0 <= i < j < |s| ==> s[i] <= s[j]
  }

  /** Places `x` into the sorted sequence `s`, before the first element not below it. */
  function Insert(s: seq<real>, x: real): (r: seq<real>)
    requires Sorted(s)
    ensures Sorted(r)
    ensures multiset(r) == multiset(s) + multiset{x}
    decreases |s|
  {
    if |s| == 0 || CompareFloats(x, s[0]) <= 0 then [x] + s
    else
      var rest := Insert(s[1..], x);
      assert forall j :: 0 <= j < |rest| ==> s[0] <= rest[j] by {
        forall j | 0 <= j < |rest|
          ensures s[0] <= rest[j]
        {
          assert rest[j] in multiset(rest);
          assert rest[j] in s[1..] || rest[j] == x;
        }
      }
      assert s == [s[0]] + s[1..];
      assert multiset([s[0]] + rest) == multiset{s[0]} + multiset(rest);
      [s[0]] + rest
  }

  /** The effect of `qsort` with `compare_floats`: a sorted permutation. */
  method Sort(a: seq<real>) returns (s: seq<real>)
    ensures Sorted(s)
    ensures multiset(s) == multiset(a)
  {
    s := [];
    for i := 0 to |a|
      invariant Sorted(s)
      invariant multiset(s) == multiset(a[..i])
    {
      assert a[..i + 1] == a[..i] + [a[i]];
      s := Insert(s, a[i]);
    }
    assert a[..|a|] == a;
  }

  /**
   `qsort(arr->values, arr->num_values, ...)`: sorts the first `numValues`
   slots and leaves the count and the rest of the block alone.
   */
  method SortBuffer(arr: DynamicArray) returns (sorted: DynamicArray)
    requires arr.Valid()
    ensures sorted.Valid()
    ensures sorted.numValues == arr.numValues && sorted.Capacity() == arr.Capacity()
    ensures Sorted(sorted.Contents())
    ensures multiset(sorted.Contents()) == multiset(arr.Contents())
    ensures sorted.storage[sorted.numValues..] == arr.storage[arr.numValues..]
  {
    var s := Sort(arr.Contents());
    sorted := DynamicArray(s + arr.storage[arr.numValues..], arr.numValues);
    assert sorted.Contents() == s;
  }

  /**
   `x` is the k-th smallest element (0-based) of `a`: it occurs in `a`, at
   most k elements lie strictly below it and at most |a|-1-k strictly above.
   */
  ghost predicate IsOrderStat(a: seq<real>, k: int, x: real)
  {
    && 0 <= k < |a|
    && x in a
    && Count(a, Below, x) <= k
    && Count(a, Above, x) <= |a| - 1 - k
  }

  /**
   The median by rank: the middle order statistic for an odd count, the mean
   of the two middle ones for an even count.
   */
  ghost predicate IsMedian(a: seq<real>, m: real)
  {
    && |a| > 0
    && if |a| % 2 == 1 then IsOrderStat(a, |a| / 2, m)
       else exists lo, hi :: MiddlePair(a, lo, hi) && m == (lo + hi) / 2.0
  }

  /** `lo` and `hi` are the two middle order statistics of an even-sized sample. */
  ghost predicate MiddlePair(a: seq<real>, lo: real, hi: real)
  {
    |a| >= 2 && IsOrderStat(a, |a| / 2 - 1, lo) && IsOrderStat(a, |a| / 2, hi)
  }

  /** In a sorted sequence the element at index k is the k-th order statistic. */
  lemma SortedOrderStat(s: seq<real>, k: int)
    requires Sorted(s) && 0 <= k < |s|
    ensures IsOrderStat(s, k, s[k])
  {
    SortedCountBelow(s, k);
    SortedCountAbove(s, k);
  }

  /** Only elements before index k can lie below s[k]. */
  lemma SortedCountBelow(s: seq<real>, k: int)
    requires Sorted(s) && 0 <= k < |s|
    ensures Count(s, Below, s[k]) <= k
  {
    var before, rest := s[..k], s[k..];
    assert s == before + rest;
    CountAppend(before, rest, Below, s[k]);
    CountAtMostSize(before, Below, s[k]);
    forall i | 0 <= i < |rest|
      ensures !OnSide(Below, rest[i], s[k])
    {
      assert rest[i] == s[k + i];
    }
    CountNone(rest, Below, s[k]);
  }

  /** Only elements after index k can lie above s[k]. */
  lemma SortedCountAbove(s: seq<real>, k: int)
    requires Sorted(s) && 0 <= k < |s|
    ensures Count(s, Above, s[k]) <= |s| - 1 - k
  {
    var upTo, after := s[..k + 1], s[k + 1..];
    assert s == upTo + after;
    CountAppend(upTo, after, Above, s[k]);
    CountAtMostSize(after, Above, s[k]);
    forall i | 0 <= i < |upTo|
      ensures !OnSide(Above, upTo[i], s[k])
    {
      assert upTo[i] == s[i];
    }
    CountNone(upTo, Above, s[k]);
  }

  /** The k-th order statistic is unique. */
  lemma OrderStatUnique(a: seq<real>, k: int, x: real, y: real)
    requires IsOrderStat(a, k, x) && IsOrderStat(a, k, y)
    ensures x == y
  {
    if x < y {
      CountCovers(a, x, y);
    } else if y < x {
      CountCovers(a, y, x);
    }
  }

  /** Being the k-th order statistic depends only on the multiset of the sample. */
  lemma OrderStatPermutation(a: seq<real>, b: seq<real>, k: int, x: real)
    requires multiset(a) == multiset(b)
    ensures IsOrderStat(a, k, x) <==> IsOrderStat(b, k, x)
  {
    assert |a| == |multiset(a)| == |b|;
    assert x in a <==> x in multiset(a);
    CountPermutation(a, b, Below, x);
    CountPermutation(a, b, Above, x);
  }

  /** A sample has at most one median. */
  lemma MedianUnique(a: seq<real>, m1: real, m2: real)
    requires IsMedian(a, m1) && IsMedian(a, m2)
    ensures m1 == m2
  {
    var n := |a|;
    if n % 2 == 1 {
      OrderStatUnique(a, n / 2, m1, m2);
    } else {
      var lo1, hi1 :| MiddlePair(a, lo1, hi1) && m1 == (lo1 + hi1) / 2.0;
      var lo2, hi2 :| MiddlePair(a, lo2, hi2) && m2 == (lo2 + hi2) / 2.0;
      OrderStatUnique(a, n / 2 - 1, lo1, lo2);
      OrderStatUnique(a, n / 2, hi1, hi2);
    }
  }

  /** The median does not depend on the order of the samples. */
  lemma MedianPermutation(a: seq<real>, b: seq<real>, m: real)
    requires multiset(a) == multiset(b)
    ensures IsMedian(a, m) <==> IsMedian(b, m)
  {
    var n := |a|;
    assert n == |multiset(a)| == |b|;
    if n > 0 {
      if n % 2 == 1 {
        OrderStatPermutation(a, b, n / 2, m);
      } else {
        forall lo, hi
          ensures MiddlePair(a, lo, hi) <==> MiddlePair(b, lo, hi)
        {
          OrderStatPermutation(a, b, n / 2 - 1, lo);
          OrderStatPermutation(a, b, n / 2, hi);
        }
      }
    }
  }

  /**
   `calculate_median`: sorts the buffer, then takes the middle element of an
   odd count or the average of the two middle elements of an even count.
   */
  method CalculateMedian(arr: DynamicArray) returns (median: real, sorted: DynamicArray)
    requires arr.Valid() && arr.numValues > 0
    ensures sorted.Valid()
    ensures sorted.numValues == arr.numValues && sorted.Capacity() == arr.Capacity()
    ensures Sorted(sorted.Contents())
    ensures multiset(sorted.Contents()) == multiset(arr.Contents())
    ensures sorted.storage[sorted.numValues..] == arr.storage[arr.numValues..]
    ensures arr.numValues % 2 == 1 ==> median == sorted.Contents()[arr.numValues / 2]
    ensures arr.numValues % 2 == 0 ==>
      median == (sorted.Contents()[arr.numValues / 2 - 1] + sorted.Contents()[arr.numValues / 2]) / 2.0
    ensures IsMedian(arr.Contents(), median)
  {
    sorted := SortBuffer(arr);
    var s := sorted.Contents();
    var mid := sorted.numValues / 2;
    if sorted.numValues % 2 == 0 {
      median := (s[mid - 1] + s[mid]) / 2.0;
      SortedOrderStat(s, mid - 1);
      SortedOrderStat(s, mid);
      assert MiddlePair(s, s[mid - 1], s[mid]);
    } else {
      median := s[mid];
      SortedOrderStat(s, mid);
    }
    assert IsMedian(s, median);
    MedianPermutation(s, arr.Contents(), median);
  }

  /**
   `m` is the value the mode scan reports for the sample `ms`: it occurs, no
   value occurs more often, and among the values occurring as often it is the
   smallest (the first run in ascending order).
   */
  ghost predicate IsMode(ms: multiset<real>, m: real)
  {
    && ms[m] > 0
    && (forall v :: ms[v] <= ms[m])
    && (forall v :: ms[v] == ms[m] ==> m <= v)
  }

  /** A sample has exactly one mode in the sense of `IsMode`. */
  lemma ModeUnique(ms: multiset<real>, m1: real, m2: real)
    requires IsMode(ms, m1) && IsMode(ms, m2)
    ensures m1 == m2
  {
  }

  /** A strictly most frequent value is the mode, wherever it sits in the input. */
  lemma StrictlyMostFrequentIsMode(ms: multiset<real>, v: real, m: real)
    requires forall w :: w != v ==> ms[w] < ms[v]
    requires IsMode(ms, m)
    ensures m == v
  {
  }

  /**
   Facts about a finished run s[p..q] of equal values in a sorted sequence:
   the run value does not occur before p, every earlier value is smaller, and
   extending the prefix by the run adds exactly q-p copies of the run value.
   */
  lemma RunCounts(s: seq<real>, p: int, q: int)
    requires Sorted(s) && 0 <= p < q <= |s|
    requires forall j :: p <= j < q ==> s[j] == s[p]
    requires p > 0 ==> s[p - 1] != s[p]
    ensures forall v :: multiset(s[..p])[v] > 0 ==> v < s[p]
    ensures multiset(s[..q])[s[p]] == q - p
    ensures forall v :: v != s[p] ==> multiset(s[..q])[v] == multiset(s[..p])[v]
  {
    forall v | multiset(s[..p])[v] > 0
      ensures v < s[p]
    {
      assert v in s[..p];
      var j :| 0 <= j < p && s[j] == v;
      assert s[j] <= s[p - 1];
    }
    assert s[..q] == s[..p] + s[p..q];
    RunMultiset(s[p..q], s[p]);
  }

  /** A sequence all of whose elements equal x holds |t| copies of x and nothing else. */
  lemma {:induction false} RunMultiset(t: seq<real>, x: real)
    requires forall j :: 0 <= j < |t| ==> t[j] == x
    ensures multiset(t)[x] == |t|
    ensures forall v :: v != x ==> multiset(t)[v] == 0
  {
    if |t| > 0 {
      RunMultiset(t[..|t| - 1], x);
      assert t == t[..|t| - 1] + [x];
    }
  }

  /**
   The update the scan performs when the run `s[p..q]` of `q - p` copies of
   `s[p]` ends: the reported mode changes only when the run is strictly
   longer than the longest run so far. Keeps `IsMode` of the prefix seen so
   far.
   */
  lemma CloseRun(s: seq<real>, p: int, q: int, mode: real, maxCount: int)
    requires Sorted(s) && 0 <= p < q <= |s|
    requires forall j :: p <= j < q ==> s[j] == s[p]
    requires p > 0 ==> s[p - 1] != s[p]
    requires p == 0 ==> mode == s[0] && maxCount == 1
    requires p > 0 ==> IsMode(multiset(s[..p]), mode) && maxCount == multiset(s[..p])[mode]
    ensures q - p > maxCount ==> IsMode(multiset(s[..q]), s[q - 1]) && q - p == multiset(s[..q])[s[q - 1]]
    ensures q - p <= maxCount ==> IsMode(multiset(s[..q]), mode) && maxCount == multiset(s[..q])[mode]
  {
    RunCounts(s, p, q);
    var ms := multiset(s[..q]);
    if p == 0 {
      assert forall v :: v != s[p] ==> ms[v] == 0;
    } else if q - p <= maxCount {
      assert mode != s[p];
    }
  }

  /**
   `calculate_mode`: sorts the buffer, then scans it once, counting the length
   of the current run of equal values and remembering the value of the first
   longest run; the last run is examined after the loop.
   */
  method CalculateMode(arr: DynamicArray) returns (mode: real, sorted: DynamicArray)
    requires arr.Valid() && arr.numValues > 0
    ensures sorted.Valid()
    ensures sorted.numValues == arr.numValues && sorted.Capacity() == arr.Capacity()
    ensures Sorted(sorted.Contents())
    ensures multiset(sorted.Contents()) == multiset(arr.Contents())
    ensures sorted.storage[sorted.numValues..] == arr.storage[arr.numValues..]
    ensures IsMode(multiset(arr.Contents()), mode)
  {
    sorted := SortBuffer(arr);
    var s := sorted.Contents();
    var n := sorted.numValues;
    mode := s[0];
    var currentCount := 1;
    var maxCount := 1;
    var i := 1;
    ghost var start := 0;
    while i < n
      invariant 1 <= i <= n
      invariant 0 <= start < i && currentCount == i - start
      invariant forall j :: start <= j < i ==> s[j] == s[start]
      invariant start > 0 ==> s[start - 1] != s[start]
      invariant start == 0 ==> mode == s[0] && maxCount == 1
      invariant start > 0 ==> IsMode(multiset(s[..start]), mode) && maxCount == multiset(s[..start])[mode]
    {
      if s[i] == s[i - 1] {
        currentCount := currentCount + 1;
      } else {
        CloseRun(s, start, i, mode, maxCount);
        if currentCount > maxCount {
          maxCount := currentCount;
          mode := s[i - 1];
        }
        currentCount := 1;
        start := i;
      }
      i := i + 1;
    }
    CloseRun(s, start, n, mode, maxCount);
    if currentCount > maxCount {
      maxCount := currentCount;
      mode := s[n - 1];
    }
    assert s[..n] == s;
  }
}
