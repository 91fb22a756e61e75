/** The behaviour the unit tests of the roster classes describe, stated
    for every possible shuffle rather than for one random run. */
module RosterScenarios {
  import opened Wrappers
  import opened Rosters
  import opened RosterManager
  import opened RosterSizes

  /** Three pushes onto an empty roster pop back in reverse order. */
  lemma PushesPopInReverseOrder()
    ensures NewRoster(Some("A")).Ok?
    ensures var r := Push(Push(Push(NewRoster(Some("A")).value, Some("one")).value, Some("two")).value, Some("three")).value;
      Size(r) == 3 && Pop(r).0 == "three" && Pop(Pop(r).1).0 == "two" && Pop(Pop(Pop(r).1).1).0 == "one"
  {
    var r0 := NewRoster(Some("A")).value;
    var r1 := Push(r0, Some("one")).value;
    var r2 := Push(r1, Some("two")).value;
    var r3 := Push(r2, Some("three")).value;
    PushThenPop(r2, "three");
    PushThenPop(r1, "two");
    PushThenPop(r0, "one");
  }

  /** The arithmetic behind the scenarios below, one pass at a time. */
  lemma SizesOfThreeAndOne()
    ensures ManagedSizes([3, 1], 2) == [2, 2]
  {
    assert FitSizes([1], 2) == [1];
    assert FitSizes([3, 1], 2) == [2, 1];
    assert Overflow([1], 2) == 0;
    assert Overflow([3, 1], 2) == 1;
    assert BackfillSizes([], 2, 0) == ([], 0);
    assert [1][1..] == [];
    assert Min(2 - 1, 1) == 1;
    assert [2] + [] == [2];
    assert BackfillSizes([1], 2, 1) == ([2], 0);
    assert [2, 1][1..] == [1];
    assert [2] + [2] == [2, 2];
    assert BackfillSizes([2, 1], 2, 1) == ([2, 2], 0);
  }

  lemma SizesOfThreeAndThree()
    ensures ManagedSizes([3, 3], 2) == [2, 2, 2]
  {
    assert FitSizes([3], 2) == [2];
    assert FitSizes([3, 3], 2) == [2, 2];
    assert Overflow([3], 2) == 1;
    assert Overflow([3, 3], 2) == 2;
    assert BackfillSizes([], 2, 2) == ([], 2);
    assert BackfillSizes([2], 2, 2) == ([2], 2);
    assert BackfillSizes([2, 2], 2, 2) == ([2, 2], 2);
    assert ExtraSizes(0, 2) == [];
    assert ExtraSizes(2, 2) == [2];
  }

  lemma SizesOfThree()
    ensures ManagedSizes([3], 2) == [2, 1]
  {
    assert FitSizes([3], 2) == [2];
    assert Overflow([3], 2) == 1;
    assert BackfillSizes([], 2, 1) == ([], 1);
    assert BackfillSizes([2], 2, 1) == ([2], 1);
    assert ExtraSizes(0, 2) == [];
    assert ExtraSizes(1, 2) == [1];
  }

  lemma SizesOfZeroAndThree()
    ensures ManagedSizes([0, 3], 2) == [0, 2, 1]
  {
    assert FitSizes([3], 2) == [2];
    assert FitSizes([0, 3], 2) == [0, 2];
    assert Overflow([3], 2) == 1;
    assert Overflow([0, 3], 2) == 1;
    assert BackfillSizes([], 2, 1) == ([], 1);
    assert BackfillSizes([2], 2, 1) == ([2], 1);
    assert [0, 2][1..] == [2];
    assert [0] + [2] == [0, 2];
    assert BackfillSizes([0, 2], 2, 1) == ([0, 2], 1);
    assert ExtraSizes(0, 2) == [];
    assert ExtraSizes(1, 2) == [1];
  }

  lemma SizesOfPair(a: Roster, b: Roster)
    ensures Sizes([a, b]) == [Size(a), Size(b)]
  {
    assert [a, b][1..] == [b];
    assert [b][1..] == [];
  }

  lemma SizesOfOne(a: Roster)
    ensures Sizes([a]) == [Size(a)]
  {
    assert [a][1..] == [];
  }

  /** Registers `a` and then `b` with a manager of capacity two. */
  function CapacityTwoWith(a: Roster, b: Roster): (m: Manager)
    requires ValidRoster(a) && ValidRoster(b) && a.name != b.name
    ensures ValidManager(m)
    ensures m == Manager(2, [a, b])
  {
    var m0 := NewManager(2).value;
    var m1 := Manage(m0, Some(a)).value;
    assert m1.provided == [a];
    Manage(m1, Some(b)).value
  }

  /** A registered empty roster comes back as the only managed roster,
      under its own name. */
  lemma ManageOneRoster(a: Roster)
    requires ValidRoster(a) && Size(a) == 0
    ensures NewManager(2).Ok? && Manage(NewManager(2).value, Some(a)).Ok?
    ensures |ManagedRosters(Manage(NewManager(2).value, Some(a)).value, [[]])| == 1
    ensures Equals(ManagedRosters(Manage(NewManager(2).value, Some(a)).value, [[]])[0], Some(a))
  {
    var m := Manage(NewManager(2).value, Some(a)).value;
    assert m.provided == [a];
    ManagedRostersSizes(m, [[]]);
    SizesOfOne(a);
    assert ManagedSizes([0], 2) == [0];
    var managed := ManagedRosters(m, [[]]);
    assert CopiesShaped(m.provided, [[]], managed[..1], 2);
    assert managed[..1][0] == managed[0];
  }

  /** Capacity two, rosters of three and of one element: one element
      moves from the first roster to the second and both end up full,
      whichever way the rosters are shuffled. */
  lemma TakeElementsFromOneRosterToTheNextOne(a: Roster, b: Roster, shuffles: seq<seq<string>>)
    requires ValidRoster(a) && ValidRoster(b) && a.name != b.name
    requires Size(a) == 3 && Size(b) == 1
    requires IsShuffleOf(shuffles, [a, b])
    ensures Sizes(ManagedRosters(CapacityTwoWith(a, b), shuffles)) == [2, 2]
  {
    var m := CapacityTwoWith(a, b);
    ManagedRostersSizes(m, shuffles);
    SizesOfPair(a, b);
    SizesOfThreeAndOne();
  }

  /** Capacity two, two rosters of three elements: both are trimmed to
      two and the two leftovers make a third roster of two. */
  lemma CreateNewRosterForLeftovers(a: Roster, b: Roster, shuffles: seq<seq<string>>)
    requires ValidRoster(a) && ValidRoster(b) && a.name != b.name
    requires Size(a) == 3 && Size(b) == 3
    requires IsShuffleOf(shuffles, [a, b])
    ensures Sizes(ManagedRosters(CapacityTwoWith(a, b), shuffles)) == [2, 2, 2]
  {
    var m := CapacityTwoWith(a, b);
    ManagedRostersSizes(m, shuffles);
    SizesOfPair(a, b);
    SizesOfThreeAndThree();
  }

  /** Capacity two, an empty roster and a roster of three elements: the
      empty copy is skipped when backfilling although it has room, so the
      leftover goes to a new roster. */
  lemma EmptyRosterIsNotBackfilled(a: Roster, b: Roster, shuffles: seq<seq<string>>)
    requires ValidRoster(a) && ValidRoster(b) && a.name != b.name
    requires Size(a) == 0 && Size(b) == 3
    requires IsShuffleOf(shuffles, [a, b])
    ensures Sizes(ManagedRosters(CapacityTwoWith(a, b), shuffles)) == [0, 2, 1]
  {
    var m := CapacityTwoWith(a, b);
    ManagedRostersSizes(m, shuffles);
    SizesOfPair(a, b);
    SizesOfZeroAndThree();
  }

  /** Capacity two, one roster of three elements: the roster is trimmed
      to two and the leftover goes to a new roster carrying the first
      automatic name. */
  lemma OneRosterOverCapacity(a: Roster, shuffles: seq<seq<string>>)
    requires ValidRoster(a) && Size(a) == 3
    requires IsShuffleOf(shuffles, [a])
    ensures ValidManager(Manager(2, [a]))
    ensures Sizes(ManagedRosters(Manager(2, [a]), shuffles)) == [2, 1]
    ensures ManagedRosters(Manager(2, [a]), shuffles)[1].name == AutoName(1)
  {
    var m := Manager(2, [a]);
    assert ValidManager(m);
    ManagedRostersSizes(m, shuffles);
    SizesOfOne(a);
    SizesOfThree();
    var managed := ManagedRosters(m, shuffles);
    var extras := managed[1..];
    assert Names(extras) == AutoNames(0, 1) == [AutoName(1)];
    assert Names(extras)[0] == extras[0].name;
    assert extras[0] == managed[1];
  }

  /** The first automatic name is "Automatic Roster1". */
  lemma FirstAutomaticName()
    ensures AutoName(1) == "Automatic Roster1"
  {
    assert Decimal.NatToString(1) == "1";
  }

  /** A provided roster that is exactly full comes back in the order of
      its shuffle, so the element on top is whichever the shuffle put
      last. */
  lemma ManagedRosterFollowsTheShuffle(a: Roster, shuffled: seq<string>)
    requires ValidRoster(a) && Size(a) == 2
    requires IsShuffleOf([shuffled], [a])
    ensures ValidManager(Manager(2, [a]))
    ensures |ManagedRosters(Manager(2, [a]), [shuffled])| >= 1
    ensures ManagedRosters(Manager(2, [a]), [shuffled])[0].elements == shuffled
  {
    var m := Manager(2, [a]);
    assert ValidManager(m);
    ShuffleKeepsSizes([shuffled], [a]);
    var managed := ManagedRosters(m, [shuffled]);
    assert managed[..1][0] == managed[0];
  }
}
