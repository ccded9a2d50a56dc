/**
 * The append allocator of the disk, on values: one reservation is one step
 * of a bump allocator over the write offset, and a run is a sequence of them.
 */
module Reservations {
  import opened Storage

  /** What a reservation returns and the write offset it leaves behind. */
  datatype Step = Step(result: Result<nat, DiskError>, offset: nat)

  /** A granted byte range [start, start + size). */
  datatype Range = Range(start: nat, size: nat) {
    function End(): nat { start + size }
  }

  /**
   * One reservation of `size` bytes at write offset `offset`. A locked disk
   * refuses and keeps the offset. Otherwise the offset always advances by
   * `size`, and the old offset is granted unless the range would end past
   * `capacity`.
   */
  function Reserve(locked: bool, offset: nat, capacity: nat, size: nat): (s: Step)
    ensures s.offset >= offset
    ensures locked ==> s == Step(Err(Locked), offset)
    ensures !locked ==> s.offset == offset + size
    ensures !locked ==> (s.result.Ok? <==> offset + size <= capacity)
    ensures !locked && s.result.Err? ==> s.result.error == CapacityReached
    ensures s.result.Ok? ==> s.result.value == offset
  {
    if locked then Step(Err(Locked), offset)
    else if offset + size > capacity then Step(Err(CapacityReached), offset + size)
    else Step(Ok(offset), offset + size)
  }

  /** A range that ends exactly at the capacity is granted; one byte more is refused. */
  lemma ReserveBoundary(offset: nat, capacity: nat)
    requires offset <= capacity
    ensures Reserve(false, offset, capacity, capacity - offset) == Step(Ok(offset), capacity)
    ensures Reserve(false, offset, capacity, capacity - offset + 1) == Step(Err(CapacityReached), capacity + 1)
  {
  }

  function Sum(sizes: seq<nat>): nat {
    if sizes == [] then 0 else sizes[0] + Sum(sizes[1..])
  }

  /** One step of prefix sums. */
  lemma {:induction false} SumPrefixStep(sizes: seq<nat>, i: nat)
    requires i < |sizes|
    ensures Sum(sizes[..i + 1]) == Sum(sizes[..i]) + sizes[i]
  {
    if i > 0 {
      assert sizes[..i + 1][1..] == sizes[1..][..i];
      assert sizes[..i][1..] == sizes[1..][..i - 1];
      SumPrefixStep(sizes[1..], i - 1);
    }
  }

  /** Longer prefixes have larger sums. */
  lemma {:induction false} SumPrefixMonotone(sizes: seq<nat>, i: nat, j: nat)
    requires i <= j <= |sizes|
    ensures Sum(sizes[..i]) <= Sum(sizes[..j])
  {
    if i < j {
      SumPrefixMonotone(sizes, i, j - 1);
      SumPrefixStep(sizes, j - 1);
    }
  }

  /** The results of unlocked reservations made one after another, and the final write offset. */
  datatype Run = Run(results: seq<Result<nat, DiskError>>, offset: nat)

  function ReserveAll(offset: nat, capacity: nat, sizes: seq<nat>): (run: Run)
    ensures |run.results| == |sizes|
    decreases sizes
  {
    if sizes == [] then Run([], offset)
    else
      var step := Reserve(false, offset, capacity, sizes[0]);
      var rest := ReserveAll(step.offset, capacity, sizes[1..]);
      Run([step.result] + rest.results, rest.offset)
  }

  /** After a run the write offset has moved by the total requested, failures included. */
  lemma {:induction false} ReserveAllOffset(offset: nat, capacity: nat, sizes: seq<nat>)
    ensures ReserveAll(offset, capacity, sizes).offset == offset + Sum(sizes)
    decreases sizes
  {
    if sizes != [] {
      ReserveAllOffset(offset + sizes[0], capacity, sizes[1..]);
    }
  }

  /**
   * The i-th reservation of a run starts where the earlier ones, granted or
   * not, left the offset, and it is granted exactly when it ends within the capacity.
   */
  lemma {:induction false} ReserveAllResult(offset: nat, capacity: nat, sizes: seq<nat>, i: nat)
    requires i < |sizes|
    ensures ReserveAll(offset, capacity, sizes).results[i] ==
      if offset + Sum(sizes[..i + 1]) > capacity then Err(CapacityReached)
      else Ok(offset + Sum(sizes[..i]))
    decreases i
  {
    SumPrefixStep(sizes, i);
    if i > 0 {
      assert sizes[..i + 1][1..] == sizes[1..][..i];
      assert sizes[..i][1..] == sizes[1..][..i - 1];
      ReserveAllResult(offset + sizes[0], capacity, sizes[1..], i - 1);
    }
  }

  /** Granted ranges lie at or above the starting offset and are pairwise disjoint, in order. */
  lemma ReserveAllDisjoint(offset: nat, capacity: nat, sizes: seq<nat>, i: nat, j: nat)
    requires i < j < |sizes|
    requires ReserveAll(offset, capacity, sizes).results[i].Ok?
    requires ReserveAll(offset, capacity, sizes).results[j].Ok?
    ensures var results := ReserveAll(offset, capacity, sizes).results;
      offset <= results[i].value && results[i].value + sizes[i] <= results[j].value
      && results[j].value + sizes[j] <= capacity
  {
    ReserveAllResult(offset, capacity, sizes, i);
    ReserveAllResult(offset, capacity, sizes, j);
    SumPrefixStep(sizes, i);
    SumPrefixStep(sizes, j);
    SumPrefixMonotone(sizes, i + 1, j);
  }

  /** Once a reservation fails on capacity, every later one fails too. */
  lemma CapacityIsCeiling(offset: nat, capacity: nat, sizes: seq<nat>, i: nat, j: nat)
    requires i < j < |sizes|
    requires ReserveAll(offset, capacity, sizes).results[i].Err?
    ensures ReserveAll(offset, capacity, sizes).results[j] == Err(CapacityReached)
  {
    ReserveAllResult(offset, capacity, sizes, i);
    ReserveAllResult(offset, capacity, sizes, j);
    SumPrefixMonotone(sizes, i + 1, j + 1);
  }

  /**
   * When the total fits, every reservation is granted and the granted ranges
   * tile [offset, offset + Sum(sizes)) with no gap: each starts where the
   * previous one ends.
   */
  lemma ReserveAllTiles(offset: nat, capacity: nat, sizes: seq<nat>)
    requires offset + Sum(sizes) <= capacity
    ensures var results := ReserveAll(offset, capacity, sizes).results;
      (forall i :: 0 <= i < |sizes| ==> results[i] == Ok(offset + Sum(sizes[..i])))
      && (forall i :: 0 <= i < |sizes| - 1 ==> results[i].value + sizes[i] == results[i + 1].value)
      && (|sizes| > 0 ==> results[|sizes| - 1].value + sizes[|sizes| - 1] == offset + Sum(sizes))
  {
    var results := ReserveAll(offset, capacity, sizes).results;
    forall i | 0 <= i < |sizes|
      ensures results[i] == Ok(offset + Sum(sizes[..i]))
      ensures results[i].value + sizes[i] == offset + Sum(sizes[..i + 1])
    {
      ReserveAllResult(offset, capacity, sizes, i);
      SumPrefixStep(sizes, i);
      SumPrefixMonotone(sizes, i + 1, |sizes|);
      assert sizes[..|sizes|] == sizes;
    }
    assert sizes[..|sizes|] == sizes;
  }

  /**
   * A 28-byte disk whose header and metadata take 19 bytes has 9 bytes of
   * data: of a 4-byte and an 8-byte reservation, in either order, exactly one
   * is granted and the other fails on capacity.
   */
  lemma SpaceLimitRun()
    ensures ReserveAll(19, 28, [4, 8]).results == [Ok(19), Err(CapacityReached)]
    ensures ReserveAll(19, 28, [8, 4]).results == [Ok(19), Err(CapacityReached)]
  {
  }
}
