/**
 The growable sample buffer (`DynamicArray`). The allocated block is modelled
 as `storage`, whose length is the capacity; the first `numValues` slots hold
 the samples in insertion order. Slots past `numValues` hold whatever the
 allocator left there; the model fills fresh slots with 0.0.
 */
module Buffer {

  /** Capacity of a freshly created buffer. */
  const InitialCapacity: nat := 20

  datatype DynamicArray = DynamicArray(storage: seq<real>, numValues: int)
  {
    function Capacity(): nat
    {
      |storage|
    }

    /** The element count lies within the allocated block. */
    predicate Valid()
    {
      0 <= numValues <= |storage|
    }

    /** The samples currently held, in buffer order. */
    function Contents(): seq<real>
      requires Valid()
    {
      storage[..numValues]
    }
  }

  /** Capacities reachable from the initial one by repeated doubling. */
  ghost predicate DoubledFromInitial(c: int)
    decreases c
  {
    c == InitialCapacity || (c > InitialCapacity && c % 2 == 0 && DoubledFromInitial(c / 2))
  }

  /**
   The invariant of every buffer the program builds: the count fits the
   capacity, the capacity is 20 doubled some number of times, and it was
   doubled only when needed, so more than half of a grown buffer is in use.
   */
  ghost predicate WellGrown(arr: DynamicArray)
  {
    && arr.Valid()
    && DoubledFromInitial(arr.Capacity())
    && (arr.Capacity() == InitialCapacity || arr.Capacity() < 2 * arr.numValues)
  }

  /** `init_dynamic_array`: an empty buffer with room for 20 samples. */
  function Init(): (arr: DynamicArray)
    ensures arr.Valid() && arr.Contents() == []
    ensures arr.numValues == 0 && arr.Capacity() == 20
    ensures WellGrown(arr)
  {
    DynamicArray(seq(InitialCapacity, _ => 0.0), 0)
  }

  /**
   `add_value`: when the buffer is full the block is reallocated at twice the
   capacity (keeping its contents), then `value` is stored at index
   `numValues` and the count is incremented.
   */
  function AddValue(arr: DynamicArray, value: real): (r: DynamicArray)
    requires arr.Valid() && arr.Capacity() > 0
    ensures r.Valid() && r.Capacity() > 0
    ensures r.numValues == arr.numValues + 1
    ensures r.Contents() == arr.Contents() + [value]
    ensures arr.numValues == arr.Capacity() ==> r.Capacity() == 2 * arr.Capacity()
    ensures arr.numValues < arr.Capacity() ==> r.Capacity() == arr.Capacity()
  {
    var block :=
      if arr.numValues == |arr.storage|
      then arr.storage + seq(|arr.storage|, _ => 0.0)
      else arr.storage;
    DynamicArray(block[arr.numValues := value], arr.numValues + 1)
  }

  /** Every append keeps the buffer invariant. */
  lemma AddValuePreservesWellGrown(arr: DynamicArray, value: real)
    requires WellGrown(arr)
    ensures arr.Capacity() >= InitialCapacity
    ensures WellGrown(AddValue(arr, value))
  {
  }

  /**
   The buffer obtained by creating it and appending `vs` one at a time, as
   the reading loop of the program does.
   */
  function Appended(vs: seq<real>): (arr: DynamicArray)
    ensures WellGrown(arr)
    ensures arr.Contents() == vs
    decreases |vs|
  {
    if |vs| == 0 then Init()
    else
      var prev := Appended(vs[..|vs| - 1]);
      AddValuePreservesWellGrown(prev, vs[|vs| - 1]);
      assert vs == prev.Contents() + [vs[|vs| - 1]];
      AddValue(prev, vs[|vs| - 1])
  }

  /** Of two capacities reachable by doubling, the larger is at least twice the smaller. */
  lemma {:induction false} DoubledCapacitiesSpread(c1: int, c2: int)
    requires DoubledFromInitial(c1) && DoubledFromInitial(c2) && c1 < c2
    ensures 2 * c1 <= c2
    decreases c2
  {
    var half := c2 / 2;
    if c1 < half {
      DoubledCapacitiesSpread(c1, half);
    } else if half < c1 {
      DoubledCapacitiesSpread(half, c1);
    }
  }

  /**
   The capacity of a well-grown buffer is determined by its count alone: it
   is the one capacity reachable by doubling that fits the count without
   being more than twice it.
   */
  lemma CapacityDetermined(a: DynamicArray, b: DynamicArray)
    requires WellGrown(a) && WellGrown(b) && a.numValues == b.numValues
    ensures a.Capacity() == b.Capacity()
  {
    if a.Capacity() < b.Capacity() {
      DoubledCapacitiesSpread(a.Capacity(), b.Capacity());
    } else if b.Capacity() < a.Capacity() {
      DoubledCapacitiesSpread(b.Capacity(), a.Capacity());
    }
  }
}
