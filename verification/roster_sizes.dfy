/** The sizes of the managed rosters, computed from the sizes of the
    provided rosters alone, and the proof that the roster-level passes
    agree with this arithmetic description whatever the shuffles are. */
module RosterSizes {
  import opened Wrappers
  import opened Rosters
  import opened RosterManager

  /** The size of every roster, in order. */
  function Sizes(rs: seq<Roster>): (s: seq<nat>)
    ensures |s| == |rs|
  {
    if rs == [] then [] else [Size(rs[0])] + Sizes(rs[1..])
  }

  lemma {:induction false} SizesAppend(a: seq<Roster>, b: seq<Roster>)
    ensures Sizes(a + b) == Sizes(a) + Sizes(b)
    decreases |a|
  {
    if a != [] {
      assert (a + b)[1..] == a[1..] + b;
      SizesAppend(a[1..], b);
    } else {
      assert a + b == b;
    }
  }

  /** Rosters of the same sizes, position by position, have the same sizes. */
  lemma {:induction false} SizesAgree(a: seq<Roster>, b: seq<Roster>)
    requires |a| == |b|
    requires forall i :: 0 <= i < |a| ==> Size(a[i]) == Size(b[i])
    ensures Sizes(a) == Sizes(b)
    decreases |a|
  {
    if a != [] {
      SizesAgree(a[1..], b[1..]);
    }
  }

  lemma {:induction false} SizesAt(rs: seq<Roster>, i: nat)
    requires i < |rs|
    ensures Sizes(rs)[i] == Size(rs[i])
    decreases i
  {
    if i > 0 {
      SizesAt(rs[1..], i - 1);
    }
  }

  // ---------------------------------------------------------------------
  // The arithmetic description

  /** Trimming: every size is cut at the capacity. */
  function FitSizes(sizes: seq<nat>, capacity: nat): seq<nat> {
    if sizes == [] then [] else [Min(sizes[0], capacity)] + FitSizes(sizes[1..], capacity)
  }

  /** How many elements trimming takes off, over all rosters. */
  function Overflow(sizes: seq<nat>, capacity: nat): nat {
    if sizes == [] then 0
    else (if sizes[0] > capacity then sizes[0] - capacity else 0) + Overflow(sizes[1..], capacity)
  }

  /** What one backfill step takes from the queue. */
  function Take(size: nat, capacity: nat, pool: nat): nat {
    if 0 < size < capacity then Min(capacity - size, pool) else 0
  }

  /** Backfilling: in order, each non-empty roster below capacity takes
      from the pool as much as it has room for; the pool that is left is
      the second component. */
  function BackfillSizes(sizes: seq<nat>, capacity: nat, pool: nat): (seq<nat>, nat) {
    if sizes == [] then ([], pool)
    else
      var take := Take(sizes[0], capacity, pool);
      var (rest, left) := BackfillSizes(sizes[1..], capacity, pool - take);
      ([sizes[0] + take] + rest, left)
  }

  /** New rosters: as many full ones as the pool allows, then one with
      the remainder. */
  function ExtraSizes(pool: nat, capacity: nat): seq<nat>
    requires capacity > 0
    decreases pool
  {
    if pool == 0 then [] else [Min(pool, capacity)] + ExtraSizes(pool - Min(pool, capacity), capacity)
  }

  /** The sizes of the managed view for the given provided sizes. */
  function ManagedSizes(sizes: seq<nat>, capacity: nat): seq<nat>
    requires capacity > 0
  {
    var (filled, pool) := BackfillSizes(FitSizes(sizes, capacity), capacity, Overflow(sizes, capacity));
    filled + ExtraSizes(pool, capacity)
  }

  // ---------------------------------------------------------------------
  // Each pass agrees with its arithmetic description

  lemma {:induction false} FitAllSizes(rs: seq<Roster>, capacity: nat, leftovers: seq<string>)
    ensures Sizes(FitAll(rs, capacity, leftovers).0) == FitSizes(Sizes(rs), capacity)
    ensures |FitAll(rs, capacity, leftovers).1| == |leftovers| + Overflow(Sizes(rs), capacity)
    decreases |rs|
  {
    if rs != [] {
      var (trimmed, queue) := Trim(rs[0], capacity, leftovers);
      TrimLeftovers(rs[0], capacity, leftovers);
      var (rest, queue') := FitAll(rs[1..], capacity, queue);
      FitAllSizes(rs[1..], capacity, queue);
      assert FitAll(rs, capacity, leftovers) == ([trimmed] + rest, queue');
      assert ([trimmed] + rest)[1..] == rest;
      assert Sizes(rs)[1..] == Sizes(rs[1..]);
    }
  }

  lemma BackfillOneSize(r: Roster, capacity: nat, leftovers: seq<string>)
    requires AllNonEmpty(leftovers)
    ensures Take(Size(r), capacity, |leftovers|) <= |leftovers|
    ensures Size(BackfillOne(r, capacity, leftovers).0) == Size(r) + Take(Size(r), capacity, |leftovers|)
    ensures |BackfillOne(r, capacity, leftovers).1| == |leftovers| - Take(Size(r), capacity, |leftovers|)
  {
  }

  lemma {:induction false} BackfillAllSizes(rs: seq<Roster>, capacity: nat, leftovers: seq<string>)
    requires AllNonEmpty(leftovers)
    ensures Sizes(BackfillAll(rs, capacity, leftovers).0) == BackfillSizes(Sizes(rs), capacity, |leftovers|).0
    ensures |BackfillAll(rs, capacity, leftovers).1| == BackfillSizes(Sizes(rs), capacity, |leftovers|).1
    decreases |rs|
  {
    if rs != [] {
      var one := BackfillOne(rs[0], capacity, leftovers);
      var tail := BackfillAll(rs[1..], capacity, one.1);
      BackfillOneSize(rs[0], capacity, leftovers);
      BackfillAllSizes(rs[1..], capacity, one.1);
      var all := BackfillAll(rs, capacity, leftovers);
      assert all.0 == [one.0] + tail.0 && all.1 == tail.1;
      assert all.0[1..] == tail.0;
      assert Sizes(rs)[1..] == Sizes(rs[1..]);
    }
  }

  lemma {:induction false} CreateExtrasSizes(leftovers: seq<string>, capacity: nat, counter: nat)
    requires capacity > 0
    requires AllNonEmpty(leftovers)
    ensures Sizes(CreateExtras(leftovers, capacity, counter)) == ExtraSizes(|leftovers|, capacity)
    decreases |leftovers|
  {
    if leftovers != [] {
      var (filled, rest) := NewExtra(leftovers, capacity, counter + 1);
      assert Size(filled) == Min(|leftovers|, capacity) by {
        assert |filled.elements| + |rest| == |leftovers|;
      }
      var more := CreateExtras(rest, capacity, counter + 1);
      CreateExtrasSizes(rest, capacity, counter + 1);
      var extras := CreateExtras(leftovers, capacity, counter);
      assert extras == [filled] + more;
      assert extras[1..] == more;
    }
  }

  /** With an empty pool backfilling changes nothing. */
  lemma {:induction false} BackfillSizesEmptyPool(sizes: seq<nat>, capacity: nat)
    ensures BackfillSizes(sizes, capacity, 0) == (sizes, 0)
    decreases |sizes|
  {
    if sizes != [] {
      BackfillSizesEmptyPool(sizes[1..], capacity);
      assert sizes == [sizes[0]] + sizes[1..];
    }
  }

  lemma ManagedFittedSizes(m: Manager, shuffles: seq<seq<string>>)
    requires ValidManager(m)
    requires IsShuffleOf(shuffles, m.provided)
    ensures Sizes(RunPasses(m, shuffles).fitted) == FitSizes(Sizes(m.provided), m.capacity)
    ensures |RunPasses(m, shuffles).overflow| == Overflow(Sizes(m.provided), m.capacity)
  {
    var p := RunPasses(m, shuffles);
    ShuffleKeepsSizes(shuffles, m.provided);
    SizesAgree(p.copies, m.provided);
    FitAllSizes(p.copies, m.capacity, []);
  }

  lemma ManagedFilledSizes(m: Manager, shuffles: seq<seq<string>>)
    requires ValidManager(m)
    requires IsShuffleOf(shuffles, m.provided)
    ensures var pool := Overflow(Sizes(m.provided), m.capacity);
      var fitted := FitSizes(Sizes(m.provided), m.capacity);
      Sizes(RunPasses(m, shuffles).filled) == BackfillSizes(fitted, m.capacity, pool).0 &&
      |RunPasses(m, shuffles).remaining| == BackfillSizes(fitted, m.capacity, pool).1
  {
    var p := RunPasses(m, shuffles);
    ManagedFittedSizes(m, shuffles);
    if p.overflow != [] {
      ManagedFittedValid(m, shuffles);
      BackfillAllSizes(p.fitted, m.capacity, p.overflow);
    } else {
      BackfillSizesEmptyPool(FitSizes(Sizes(m.provided), m.capacity), m.capacity);
    }
  }

  /** The managed view has exactly the sizes the arithmetic description
      gives for the provided sizes, whatever the shuffles. */
  lemma ManagedRostersSizes(m: Manager, shuffles: seq<seq<string>>)
    requires ValidManager(m)
    requires IsShuffleOf(shuffles, m.provided)
    ensures Sizes(ManagedRosters(m, shuffles)) == ManagedSizes(Sizes(m.provided), m.capacity)
  {
    var p := RunPasses(m, shuffles);
    ManagedFilledSizes(m, shuffles);
    if p.remaining != [] {
      ManagedFittedValid(m, shuffles);
      if p.overflow != [] {
        BackfillAllKeepsValid(p.fitted, m.capacity, p.overflow);
      }
      CreateExtrasSizes(p.remaining, m.capacity, 0);
    }
    SizesAppend(p.filled, p.extras);
  }
}
