/**
 Reference definitions over a sample, used as the specification of the
 statistics: the left-to-right sum, the sum of reciprocals, and the number of
 elements lying strictly below or strictly above a pivot. Each is defined by
 recursion on the last element, which is the order in which the source's loops
 accumulate, and each is shown to depend only on the multiset of the sample.
 */
module Samples {

  /** Sum of the sample, accumulated left to right. */
  function Sum(a: seq<real>): real
  {
    if |a| == 0 then 0.0 else Sum(a[..|a| - 1]) + a[|a| - 1]
  }

  /** True when no element of the sample is zero. */
  predicate NoZero(a: seq<real>)
  {
    forall i :: 0 <= i < |a| ==> a[i] != 0.0
  }

  /** Sum of the reciprocals of a sample without zeros. */
  function SumReciprocals(a: seq<real>): real
    requires NoZero(a)
  {
    if |a| == 0 then 0.0 else SumReciprocals(a[..|a| - 1]) + 1.0 / a[|a| - 1]
  }

  /** Which side of a pivot an element is counted on. */
  datatype Side = Below | Above

  predicate OnSide(side: Side, y: real, pivot: real)
  {
    match side
    case Below => y < pivot
    case Above => y > pivot
  }

  /** Number of elements of `a` strictly on the given side of `pivot`. */
  function Count(a: seq<real>, side: Side, pivot: real): nat
  {
    if |a| == 0 then 0
    else Count(a[..|a| - 1], side, pivot) + (if OnSide(side, a[|a| - 1], pivot) then 1 else 0)
  }

  lemma {:induction false} SumAppend(u: seq<real>, v: seq<real>)
    ensures Sum(u + v) == Sum(u) + Sum(v)
    decreases |v|
  {
    if |v| == 0 {
      assert u + v == u;
    } else {
      var v' := v[..|v| - 1];
      assert (u + v)[..|u + v| - 1] == u + v';
      SumAppend(u, v');
    }
  }

  /**
   Matches the last element of `a` with some position `k` of its permutation
   `b`; the remaining elements are again permutations of each other.
   */
  lemma MatchLast(a: seq<real>, b: seq<real>) returns (k: nat)
    requires multiset(a) == multiset(b) && |a| > 0
    ensures k < |b| && b[k] == a[|a| - 1]
    ensures multiset(a[..|a| - 1]) == multiset(b[..k] + b[k + 1..])
  {
    var a', y := a[..|a| - 1], a[|a| - 1];
    assert a == a' + [y];
    assert y in multiset(b);
    k :| 0 <= k < |b| && b[k] == y;
    var left, right := b[..k], b[k + 1..];
    assert b == left + [y] + right;
    assert multiset(a') == multiset(a) - multiset{y};
    assert multiset(left) + multiset(right) == multiset(b) - multiset{y};
    assert multiset(left + right) == multiset(left) + multiset(right);
  }

  /** The sum does not depend on the order of the elements. */
  lemma {:induction false} SumPermutation(a: seq<real>, b: seq<real>)
    requires multiset(a) == multiset(b)
    ensures Sum(a) == Sum(b)
    decreases |a|
  {
    if |a| == 0 {
      assert |b| == |multiset(b)| == 0;
    } else {
      var k := MatchLast(a, b);
      var left, y, right := b[..k], b[k], b[k + 1..];
      assert b == left + [y] + right;
      SumPermutation(a[..|a| - 1], left + right);
      SumAppend(left + [y], right);
      SumAppend(left, [y]);
      SumAppend(left, right);
      assert Sum([y]) == y by {
        assert [y][..0] == [];
      }
    }
  }

  lemma {:induction false} SumReciprocalsAppend(u: seq<real>, v: seq<real>)
    requires NoZero(u) && NoZero(v)
    ensures NoZero(u + v)
    ensures SumReciprocals(u + v) == SumReciprocals(u) + SumReciprocals(v)
    decreases |v|
  {
    if |v| == 0 {
      assert u + v == u;
    } else {
      var v' := v[..|v| - 1];
      assert (u + v)[..|u + v| - 1] == u + v';
      SumReciprocalsAppend(u, v');
    }
  }

  /**
   The sum of reciprocals does not depend on the order of the elements, and a
   reordered sample without zeros still has none.
   */
  lemma {:induction false} SumReciprocalsPermutation(a: seq<real>, b: seq<real>)
    requires multiset(a) == multiset(b) && NoZero(a)
    ensures NoZero(b)
    ensures SumReciprocals(a) == SumReciprocals(b)
    decreases |a|
  {
    forall i | 0 <= i < |b|
      ensures b[i] != 0.0
    {
      assert b[i] in multiset(a);
    }
    if |a| == 0 {
      assert |b| == |multiset(b)| == 0;
    } else {
      var k := MatchLast(a, b);
      var left, y, right := b[..k], b[k], b[k + 1..];
      assert b == left + [y] + right;
      SumReciprocalsPermutation(a[..|a| - 1], left + right);
      SumReciprocalsAppend(left + [y], right);
      SumReciprocalsAppend(left, [y]);
      SumReciprocalsAppend(left, right);
      assert SumReciprocals([y]) == 1.0 / y by {
        assert [y][..0] == [];
      }
    }
  }

  lemma {:induction false} CountAppend(u: seq<real>, v: seq<real>, side: Side, pivot: real)
    ensures Count(u + v, side, pivot) == Count(u, side, pivot) + Count(v, side, pivot)
    decreases |v|
  {
    if |v| == 0 {
      assert u + v == u;
    } else {
      var v' := v[..|v| - 1];
      assert (u + v)[..|u + v| - 1] == u + v';
      CountAppend(u, v', side, pivot);
    }
  }

  /** The counts do not depend on the order of the elements. */
  lemma {:induction false} CountPermutation(a: seq<real>, b: seq<real>, side: Side, pivot: real)
    requires multiset(a) == multiset(b)
    ensures Count(a, side, pivot) == Count(b, side, pivot)
    decreases |a|
  {
    if |a| == 0 {
      assert |b| == |multiset(b)| == 0;
    } else {
      var k := MatchLast(a, b);
      var left, y, right := b[..k], b[k], b[k + 1..];
      assert b == left + [y] + right;
      CountPermutation(a[..|a| - 1], left + right, side, pivot);
      CountAppend(left + [y], right, side, pivot);
      CountAppend(left, [y], side, pivot);
      CountAppend(left, right, side, pivot);
      assert [y][..0] == [];
    }
  }

  /** A count never exceeds the sample size. */
  lemma {:induction false} CountAtMostSize(a: seq<real>, side: Side, pivot: real)
    ensures Count(a, side, pivot) <= |a|
    decreases |a|
  {
    if |a| > 0 {
      CountAtMostSize(a[..|a| - 1], side, pivot);
    }
  }

  /** A count is zero when no element lies on that side of the pivot. */
  lemma {:induction false} CountNone(a: seq<real>, side: Side, pivot: real)
    requires forall i :: 0 <= i < |a| ==> !OnSide(side, a[i], pivot)
    ensures Count(a, side, pivot) == 0
    decreases |a|
  {
    if |a| > 0 {
      CountNone(a[..|a| - 1], side, pivot);
    }
  }

  /**
   For pivots x < y every element is above x or below y, so the two counts
   together cover the sample.
   */
  lemma {:induction false} CountCovers(a: seq<real>, x: real, y: real)
    requires x < y
    ensures Count(a, Above, x) + Count(a, Below, y) >= |a|
    decreases |a|
  {
    if |a| > 0 {
      CountCovers(a[..|a| - 1], x, y);
    }
  }
}
