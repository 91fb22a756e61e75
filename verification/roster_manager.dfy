/** The roster manager: holds a capacity and the provided rosters, and
    rebuilds the managed rosters from them on every request in four passes:
    shuffled copies, trimming to capacity, backfilling the non-empty copies
    from the leftovers, and new "Automatic Roster" rosters for the rest. */
module RosterManager {
  import opened Wrappers
  import opened Rosters
  import Decimal

  /** The name prefix of the rosters created for leftovers. */
  const AutoRosterPrefix: string := "Automatic Roster"

  /** Why a manager operation rejects its argument. Each one is an
      IllegalArgumentException in the original class. */
  datatype ManagerError = NonPositiveCapacity | NullRoster | DuplicateRoster

  /** `capacity` is the largest size a managed roster may have;
      `provided` lists the registered rosters in registration order. */
  datatype Manager = Manager(capacity: int, provided: seq<Roster>)

  predicate DistinctNames(rs: seq<Roster>) {
    forall i, j :: 0 <= i < j < |rs| ==> rs[i].name != rs[j].name
  }

  predicate AllValid(rs: seq<Roster>) {
    forall i :: 0 <= i < |rs| ==> ValidRoster(rs[i])
  }

  lemma AllValidCons(r: Roster, rs: seq<Roster>)
    requires ValidRoster(r) && AllValid(rs)
    ensures AllValid([r] + rs)
  {
    forall i | 0 <= i < |rs| + 1
      ensures ValidRoster(([r] + rs)[i])
    {
      if i > 0 {
        assert ([r] + rs)[i] == rs[i - 1];
      }
    }
  }

  /** The manager's invariant: a positive capacity and valid provided
      rosters with pairwise distinct names. */
  predicate ValidManager(m: Manager) {
    m.capacity > 0 && DistinctNames(m.provided) && AllValid(m.provided)
  }

  function Min(a: int, b: int): int {
    if a <= b then a else b
  }

  /** `s` read from its last element to its first. */
  function Reverse(s: seq<string>): (r: seq<string>)
    ensures |r| == |s|
    ensures forall i :: 0 <= i < |s| ==> r[i] == s[|s| - 1 - i]
  {
    if s == [] then [] else [s[|s| - 1]] + Reverse(s[..|s| - 1])
  }

  /** All elements of all rosters, as a multiset. */
  function Bag(rs: seq<Roster>): multiset<string> {
    if rs == [] then multiset{} else multiset(rs[0].elements) + Bag(rs[1..])
  }

  /** All elements of all rosters, roster after roster, each bottom to top. */
  function Concat(rs: seq<Roster>): seq<string> {
    if rs == [] then [] else rs[0].elements + Concat(rs[1..])
  }

  lemma BagCons(r: Roster, rs: seq<Roster>)
    ensures Bag([r] + rs) == multiset(r.elements) + Bag(rs)
  {
    assert ([r] + rs)[1..] == rs;
  }

  /** One roster's conservation, added to the conservation of the rest. */
  lemma ConservedStep(head: multiset<string>, tail: multiset<string>, queue': multiset<string>,
                      tailBefore: multiset<string>, queue: multiset<string>,
                      headBefore: multiset<string>, leftovers: multiset<string>)
    requires tail + queue' == tailBefore + queue
    requires head + queue == headBefore + leftovers
    ensures head + tail + queue' == headBefore + tailBefore + leftovers
  {
    calc {
      head + tail + queue';
      head + (tail + queue');
      head + (tailBefore + queue);
      (head + queue) + tailBefore;
      (headBefore + leftovers) + tailBefore;
      headBefore + tailBefore + leftovers;
    }
  }

  lemma {:induction false} BagAppend(a: seq<Roster>, b: seq<Roster>)
    ensures Bag(a + b) == Bag(a) + Bag(b)
    decreases |a|
  {
    if a != [] {
      calc {
        Bag(a + b);
        { assert a + b == [a[0]] + (a[1..] + b); }
        Bag([a[0]] + (a[1..] + b));
        { BagCons(a[0], a[1..] + b); }
        multiset(a[0].elements) + Bag(a[1..] + b);
        { BagAppend(a[1..], b); }
        multiset(a[0].elements) + Bag(a[1..]) + Bag(b);
        Bag(a) + Bag(b);
      }
    } else {
      assert a + b == b;
    }
  }

  /** The multiset of all elements is the multiset of their concatenation. */
  lemma {:induction false} BagIsConcat(rs: seq<Roster>)
    ensures Bag(rs) == multiset(Concat(rs))
    decreases |rs|
  {
    if rs != [] {
      BagIsConcat(rs[1..]);
    }
  }

  /** `shuffles[i]` is a rearrangement of the elements of `provided[i]`:
      the outcome of Collections.shuffle, supplied by the caller. */
  predicate IsShuffleOf(shuffles: seq<seq<string>>, provided: seq<Roster>) {
    |shuffles| == |provided| &&
    forall i :: 0 <= i < |provided| ==> multiset(shuffles[i]) == multiset(provided[i].elements)
  }

  /** A shuffled copy has the length of its roster. */
  lemma ShuffleKeepsSizes(shuffles: seq<seq<string>>, provided: seq<Roster>)
    requires IsShuffleOf(shuffles, provided)
    ensures forall i :: 0 <= i < |provided| ==> |shuffles[i]| == Size(provided[i])
  {
    forall i | 0 <= i < |provided|
      ensures |shuffles[i]| == Size(provided[i])
    {
      assert |multiset(shuffles[i])| == |multiset(provided[i].elements)|;
    }
  }

  // ---------------------------------------------------------------------
  // Registration

  /** The constructor: rejects a capacity that is not positive. */
  function NewManager(capacity: int): (res: Result<Manager, ManagerError>)
    ensures res.Err? <==> capacity <= 0
    ensures res.Err? ==> res.error == NonPositiveCapacity
    ensures res.Ok? ==> res.value.capacity == capacity && res.value.provided == []
    ensures res.Ok? ==> ValidManager(res.value)
  {
    if capacity <= 0 then Err(NonPositiveCapacity) else Ok(Manager(capacity, []))
  }

  /** Is a roster equal (by name) to one already registered? */
  predicate IsRegistered(rs: seq<Roster>, r: Roster) {
    exists i :: 0 <= i < |rs| && Equals(r, Some(rs[i]))
  }

  /** Registers one more roster: null and a roster named like a
      registered one are rejected; otherwise it is appended and the
      capacity stays as it was. */
  function Manage(m: Manager, roster: Option<Roster>): (res: Result<Manager, ManagerError>)
    ensures roster == None ==> res == Err(NullRoster)
    ensures roster.Some? ==>
      (res == Err(DuplicateRoster) <==>
        exists i :: 0 <= i < |m.provided| && m.provided[i].name == roster.value.name)
    ensures res.Err? ==> res.error == (if roster == None then NullRoster else DuplicateRoster)
    ensures res.Ok? ==> roster.Some? && res.value == Manager(m.capacity, m.provided + [roster.value])
    ensures res.Ok? && ValidManager(m) && ValidRoster(roster.value) ==> ValidManager(res.value)
  {
    match roster
    case None => Err(NullRoster)
    case Some(r) =>
      if IsRegistered(m.provided, r) then Err(DuplicateRoster)
      else Ok(Manager(m.capacity, m.provided + [r]))
  }

  /** Registering the same roster twice fails the second time. */
  lemma ManageTwiceFails(m: Manager, r: Roster)
    requires !IsRegistered(m.provided, r)
    ensures Manage(m, Some(r)).Ok?
    ensures Manage(Manage(m, Some(r)).value, Some(r)) == Err(DuplicateRoster)
  {
    var m' := Manage(m, Some(r)).value;
    assert m'.provided[|m.provided|] == r;
  }

  // ---------------------------------------------------------------------
  // Predicates of the passes

  /** `thereAre`: the leftovers queue is not empty. */
  predicate HasLeftovers(leftovers: seq<string>) {
    leftovers != []
  }

  /** `thereIsRoomOn`: the roster is below capacity. */
  predicate HasRoom(r: Roster, capacity: int) {
    Size(r) < capacity
  }

  /** `thereAreLeftoversOn`: the roster is above capacity. */
  predicate IsOverCapacity(r: Roster, capacity: int) {
    Size(r) > capacity
  }

  // ---------------------------------------------------------------------
  // Pass 1: shuffled copies

  /** Pushes the elements onto the roster, first to last. */
  function PushAll(r: Roster, es: seq<string>): (r': Roster)
    requires AllNonEmpty(es)
    ensures r'.name == r.name
    ensures r'.elements == r.elements + es
    decreases |es|
  {
    if es == [] then r else PushAll(Push(r, Some(es[0])).value, es[1..])
  }

  /** A new roster with the source's name holding the shuffled elements,
      pushed in shuffled order; the source itself is only read. */
  function ShuffleCopy(source: Roster, shuffled: seq<string>): (copy: Roster)
    requires ValidRoster(source)
    requires multiset(shuffled) == multiset(source.elements)
    ensures copy.name == source.name
    ensures copy.elements == shuffled
    ensures ValidRoster(copy)
  {
    assert AllNonEmpty(shuffled) by {
      forall i | 0 <= i < |shuffled|
        ensures shuffled[i] != ""
      {
        assert shuffled[i] in multiset(source.elements);
      }
    }
    PushAll(NewRoster(Some(source.name)).value, shuffled)
  }

  /** Dropping the first roster and its shuffle keeps the rest matched. */
  lemma ShuffleTail(shuffles: seq<seq<string>>, provided: seq<Roster>)
    requires IsShuffleOf(shuffles, provided) && provided != []
    ensures IsShuffleOf(shuffles[1..], provided[1..])
  {
    forall i | 0 <= i < |provided| - 1
      ensures multiset(shuffles[1..][i]) == multiset(provided[1..][i].elements)
    {
      assert shuffles[1..][i] == shuffles[i + 1];
    }
  }

  /** `shuffleProvidedRosters`: one shuffled copy per provided roster, in
      order. */
  function ShuffleCopies(provided: seq<Roster>, shuffles: seq<seq<string>>): (copies: seq<Roster>)
    requires AllValid(provided)
    requires IsShuffleOf(shuffles, provided)
    ensures |copies| == |provided|
    ensures forall i :: 0 <= i < |copies| ==>
      copies[i].name == provided[i].name && copies[i].elements == shuffles[i]
    decreases |provided|
  {
    if provided == [] then []
    else
      ShuffleTail(shuffles, provided);
      [ShuffleCopy(provided[0], shuffles[0])] + ShuffleCopies(provided[1..], shuffles[1..])
  }

  /** The copies are valid rosters. */
  lemma ShuffleCopiesValid(provided: seq<Roster>, shuffles: seq<seq<string>>)
    requires AllValid(provided)
    requires IsShuffleOf(shuffles, provided)
    ensures AllValid(ShuffleCopies(provided, shuffles))
  {
    var copies := ShuffleCopies(provided, shuffles);
    forall i | 0 <= i < |copies|
      ensures ValidRoster(copies[i])
    {
      var copy := ShuffleCopy(provided[i], shuffles[i]);
      assert copies[i].name == copy.name && copies[i].elements == copy.elements;
    }
  }

  /** The copies hold exactly the provided elements. */
  lemma {:induction false} ShuffleCopiesConserve(provided: seq<Roster>, shuffles: seq<seq<string>>)
    requires AllValid(provided)
    requires IsShuffleOf(shuffles, provided)
    ensures Bag(ShuffleCopies(provided, shuffles)) == Bag(provided)
    decreases |provided|
  {
    if provided != [] {
      ShuffleTail(shuffles, provided);
      var rest := ShuffleCopies(provided[1..], shuffles[1..]);
      ShuffleCopiesConserve(provided[1..], shuffles[1..]);
      var copy := ShuffleCopy(provided[0], shuffles[0]);
      assert ShuffleCopies(provided, shuffles) == [copy] + rest;
      BagCons(copy, rest);
    }
  }

  // ---------------------------------------------------------------------
  // Pass 2: trimming to capacity

  /** Pops the roster down to `capacity`, offering each popped element to
      the leftovers queue: the roster keeps its bottom elements, and the
      queue gains the removed ones top first. */
  function Trim(r: Roster, capacity: nat, leftovers: seq<string>): (res: (Roster, seq<string>))
    ensures res.0.name == r.name
    ensures Size(res.0) == Min(Size(r), capacity)
    ensures res.0.elements == r.elements[..Size(res.0)]
    decreases Size(r)
  {
    if IsOverCapacity(r, capacity) then
      var (top, rest) := Pop(r);
      Trim(rest, capacity, leftovers + [top])
    else
      (r, leftovers)
  }

  /** The queue gains the removed elements top first. */
  lemma {:induction false} TrimLeftovers(r: Roster, capacity: nat, leftovers: seq<string>)
    ensures Trim(r, capacity, leftovers).1 == leftovers + Reverse(r.elements[Min(Size(r), capacity)..])
    decreases Size(r)
  {
    if IsOverCapacity(r, capacity) {
      var (top, rest) := Pop(r);
      TrimLeftovers(rest, capacity, leftovers + [top]);
      var gone := r.elements[capacity..];
      assert gone[..|gone| - 1] == rest.elements[capacity..];
      assert Reverse(gone) == [top] + Reverse(rest.elements[capacity..]);
    } else {
      assert r.elements[Min(Size(r), capacity)..] == [];
    }
  }

  /** Trimming neither loses nor invents elements. */
  lemma {:induction false} TrimConserves(r: Roster, capacity: nat, leftovers: seq<string>)
    ensures var res := Trim(r, capacity, leftovers);
      multiset(res.0.elements) + multiset(res.1) == multiset(r.elements) + multiset(leftovers)
    decreases Size(r)
  {
    if IsOverCapacity(r, capacity) {
      var (top, rest) := Pop(r);
      TrimConserves(rest, capacity, leftovers + [top]);
      assert multiset(r.elements) == multiset(rest.elements) + multiset{top} by {
        assert r.elements == rest.elements + [top];
      }
      assert multiset(leftovers + [top]) == multiset(leftovers) + multiset{top};
    }
  }

  /** Reading a sequence backwards keeps its elements non-empty. */
  lemma ReverseKeepsNonEmpty(s: seq<string>)
    requires AllNonEmpty(s)
    ensures AllNonEmpty(Reverse(s))
  {
    var rs := Reverse(s);
    forall i | 0 <= i < |rs|
      ensures rs[i] != ""
    {
      assert rs[i] == s[|s| - 1 - i];
    }
  }

  /** Trimming a valid roster leaves a valid roster and a queue of
      non-empty elements. */
  lemma TrimKeepsValid(r: Roster, capacity: nat, leftovers: seq<string>)
    requires ValidRoster(r) && AllNonEmpty(leftovers)
    ensures var res := Trim(r, capacity, leftovers);
      ValidRoster(res.0) && AllNonEmpty(res.1)
  {
    var (kept, queue) := Trim(r, capacity, leftovers);
    TrimLeftovers(r, capacity, leftovers);
    var gone := r.elements[Size(kept)..];
    ReverseKeepsNonEmpty(gone);
    assert queue == leftovers + Reverse(gone);
  }

  /** `fitProvidedRostersToMaximumSize`: trims every roster in order,
      sharing one leftovers queue. */
  function FitAll(rs: seq<Roster>, capacity: nat, leftovers: seq<string>): (res: (seq<Roster>, seq<string>))
    ensures |res.0| == |rs|
    ensures forall i :: 0 <= i < |rs| ==>
      res.0[i].name == rs[i].name &&
      Size(res.0[i]) == Min(Size(rs[i]), capacity) &&
      res.0[i].elements == rs[i].elements[..Size(res.0[i])]
    decreases |rs|
  {
    if rs == [] then ([], leftovers)
    else
      var (trimmed, queue) := Trim(rs[0], capacity, leftovers);
      var (rest, queue') := FitAll(rs[1..], capacity, queue);
      ([trimmed] + rest, queue')
  }

  /** The fit pass neither loses nor invents elements: what leaves the
      rosters joins the queue. */
  lemma {:induction false} FitAllConserves(rs: seq<Roster>, capacity: nat, leftovers: seq<string>)
    ensures var res := FitAll(rs, capacity, leftovers);
      Bag(res.0) + multiset(res.1) == Bag(rs) + multiset(leftovers)
    decreases |rs|
  {
    if rs != [] {
      var (trimmed, queue) := Trim(rs[0], capacity, leftovers);
      var (rest, queue') := FitAll(rs[1..], capacity, queue);
      TrimConserves(rs[0], capacity, leftovers);
      FitAllConserves(rs[1..], capacity, queue);
      assert FitAll(rs, capacity, leftovers) == ([trimmed] + rest, queue');
      BagCons(trimmed, rest);
      ConservedStep(multiset(trimmed.elements), Bag(rest), multiset(queue'), Bag(rs[1..]),
                    multiset(queue), multiset(rs[0].elements), multiset(leftovers));
    }
  }

  /** The fit pass keeps every roster valid and every queued element
      non-empty. */
  lemma {:induction false} FitAllKeepsValid(rs: seq<Roster>, capacity: nat, leftovers: seq<string>)
    requires AllValid(rs) && AllNonEmpty(leftovers)
    ensures var res := FitAll(rs, capacity, leftovers);
      AllValid(res.0) && AllNonEmpty(res.1)
    decreases |rs|
  {
    if rs != [] {
      var (trimmed, queue) := Trim(rs[0], capacity, leftovers);
      TrimKeepsValid(rs[0], capacity, leftovers);
      FitAllKeepsValid(rs[1..], capacity, queue);
      AllValidCons(trimmed, FitAll(rs[1..], capacity, queue).0);
    }
  }

  // ---------------------------------------------------------------------
  // Passes 3 and 4: backfilling and new rosters

  /** Polls leftovers onto the roster while there are leftovers and room:
      the roster gains a prefix of the queue, in queue order, and keeps
      the rest of the queue waiting. */
  function Fill(r: Roster, capacity: int, leftovers: seq<string>): (res: (Roster, seq<string>))
    requires AllNonEmpty(leftovers)
    ensures res.0.name == r.name
    ensures Size(res.0) == if Size(r) < capacity then Min(capacity, Size(r) + |leftovers|) else Size(r)
    ensures res.0.elements == r.elements + leftovers[..Size(res.0) - Size(r)]
    ensures res.1 == leftovers[Size(res.0) - Size(r)..]
    ensures AllNonEmpty(res.1)
    ensures ValidRoster(r) ==> ValidRoster(res.0)
    decreases |leftovers|
  {
    if HasLeftovers(leftovers) && HasRoom(r, capacity) then
      Fill(Push(r, Some(leftovers[0])).value, capacity, leftovers[1..])
    else
      (r, leftovers)
  }

  /** Filling moves a prefix of the queue onto the roster and nothing else. */
  lemma FillConserves(r: Roster, capacity: int, leftovers: seq<string>)
    requires AllNonEmpty(leftovers)
    ensures var res := Fill(r, capacity, leftovers);
      multiset(res.0.elements) + multiset(res.1) == multiset(r.elements) + multiset(leftovers)
  {
    var res := Fill(r, capacity, leftovers);
    var k := Size(res.0) - Size(r);
    assert leftovers == leftovers[..k] + res.1;
  }

  /** The backfill step for one roster: empty rosters are skipped. */
  function BackfillOne(r: Roster, capacity: int, leftovers: seq<string>): (res: (Roster, seq<string>))
    requires AllNonEmpty(leftovers)
    ensures res.0.name == r.name
    ensures r.elements <= res.0.elements
    ensures r.elements == [] ==> res.0.elements == [] && res.1 == leftovers
    ensures Size(r) <= capacity ==> Size(res.0) <= capacity
    ensures res.1 != [] && r.elements != [] ==> Size(res.0) >= capacity
    ensures |res.1| <= |leftovers|
    ensures AllNonEmpty(res.1)
  {
    if !IsEmpty(r) then Fill(r, capacity, leftovers) else (r, leftovers)
  }

  lemma BackfillOneConserves(r: Roster, capacity: int, leftovers: seq<string>)
    requires AllNonEmpty(leftovers)
    ensures var res := BackfillOne(r, capacity, leftovers);
      multiset(res.0.elements) + multiset(res.1) == multiset(r.elements) + multiset(leftovers)
  {
    if !IsEmpty(r) {
      FillConserves(r, capacity, leftovers);
    }
  }

  lemma BackfillOneKeepsValid(r: Roster, capacity: int, leftovers: seq<string>)
    requires ValidRoster(r) && AllNonEmpty(leftovers)
    ensures ValidRoster(BackfillOne(r, capacity, leftovers).0)
  {
  }

  /** `allocateWithinManagedRosters`: fills every non-empty roster in
      order from the shared queue; empty rosters are skipped. */
  function BackfillAll(rs: seq<Roster>, capacity: int, leftovers: seq<string>): (res: (seq<Roster>, seq<string>))
    requires AllNonEmpty(leftovers)
    ensures |res.0| == |rs|
    ensures |res.1| <= |leftovers|
    ensures AllNonEmpty(res.1)
    decreases |rs|
  {
    if rs == [] then ([], leftovers)
    else
      var (filled, queue) := BackfillOne(rs[0], capacity, leftovers);
      var (rest, queue') := BackfillAll(rs[1..], capacity, queue);
      ([filled] + rest, queue')
  }

  /** Roster by roster, `after` keeps the names of `before`, only adds on
      top, leaves empty rosters empty and goes past capacity only where
      `before` already did. */
  predicate BackfillShaped(before: seq<Roster>, after: seq<Roster>, capacity: int) {
    |after| == |before| &&
    forall i :: 0 <= i < |before| ==>
      && after[i].name == before[i].name
      && before[i].elements <= after[i].elements
      && (before[i].elements == [] ==> after[i].elements == [])
      && (Size(before[i]) <= capacity ==> Size(after[i]) <= capacity)
  }

  /** The backfill pass keeps the names, only pushes, leaves empty rosters
      empty and never pushes a roster past capacity. */
  lemma {:induction false} BackfillAllShape(rs: seq<Roster>, capacity: int, leftovers: seq<string>)
    requires AllNonEmpty(leftovers)
    ensures BackfillShaped(rs, BackfillAll(rs, capacity, leftovers).0, capacity)
    decreases |rs|
  {
    if rs != [] {
      var (filled, queue) := BackfillOne(rs[0], capacity, leftovers);
      var (rest, queue') := BackfillAll(rs[1..], capacity, queue);
      BackfillAllShape(rs[1..], capacity, queue);
      var after := BackfillAll(rs, capacity, leftovers).0;
      forall i | 0 <= i < |rs|
        ensures after[i].name == rs[i].name
        ensures rs[i].elements <= after[i].elements
        ensures rs[i].elements == [] ==> after[i].elements == []
        ensures Size(rs[i]) <= capacity ==> Size(after[i]) <= capacity
      {
        if i > 0 {
          var j := i - 1;
          assert after[i] == rest[j];
          assert rs[i] == rs[1..][j];
        }
      }
    }
  }

  /** The backfill pass neither loses nor invents elements: what leaves
      the queue joins the rosters. */
  lemma {:induction false} BackfillAllConserves(rs: seq<Roster>, capacity: int, leftovers: seq<string>)
    requires AllNonEmpty(leftovers)
    ensures var res := BackfillAll(rs, capacity, leftovers);
      Bag(res.0) + multiset(res.1) == Bag(rs) + multiset(leftovers)
    decreases |rs|
  {
    if rs != [] {
      var (filled, queue) := BackfillOne(rs[0], capacity, leftovers);
      var (rest, queue') := BackfillAll(rs[1..], capacity, queue);
      BackfillAllConserves(rs[1..], capacity, queue);
      BackfillOneConserves(rs[0], capacity, leftovers);
      BagCons(filled, rest);
      ConservedStep(multiset(filled.elements), Bag(rest), multiset(queue'), Bag(rs[1..]),
                    multiset(queue), multiset(rs[0].elements), multiset(leftovers));
    }
  }

  /** Every roster that was non-empty in `before` is full in `after`. */
  predicate NonEmptyAreFull(before: seq<Roster>, after: seq<Roster>, capacity: int) {
    forall i :: 0 <= i < |before| && i < |after| && before[i].elements != [] ==> Size(after[i]) >= capacity
  }

  /** Leftovers survive the backfill pass only when every non-empty
      roster has been filled to capacity. */
  lemma {:induction false} BackfillAllIsGreedy(rs: seq<Roster>, capacity: int, leftovers: seq<string>)
    requires AllNonEmpty(leftovers)
    ensures BackfillAll(rs, capacity, leftovers).1 != [] ==>
      NonEmptyAreFull(rs, BackfillAll(rs, capacity, leftovers).0, capacity)
    decreases |rs|
  {
    if rs != [] {
      var (filled, queue) := BackfillOne(rs[0], capacity, leftovers);
      var (rest, queue') := BackfillAll(rs[1..], capacity, queue);
      BackfillAllIsGreedy(rs[1..], capacity, queue);
      var after := BackfillAll(rs, capacity, leftovers).0;
      if queue' != [] {
        assert queue != [];
        forall i | 0 <= i < |rs| && i < |after| && rs[i].elements != []
          ensures Size(after[i]) >= capacity
        {
          if i > 0 {
            var j := i - 1;
            assert after[i] == rest[j];
            assert rs[i] == rs[1..][j];
          }
        }
      }
    }
  }

  /** The backfill pass keeps every roster valid. */
  lemma {:induction false} BackfillAllKeepsValid(rs: seq<Roster>, capacity: int, leftovers: seq<string>)
    requires AllValid(rs) && AllNonEmpty(leftovers)
    ensures AllValid(BackfillAll(rs, capacity, leftovers).0)
    decreases |rs|
  {
    if rs != [] {
      var (filled, queue) := BackfillOne(rs[0], capacity, leftovers);
      BackfillOneKeepsValid(rs[0], capacity, leftovers);
      BackfillAllKeepsValid(rs[1..], capacity, queue);
      AllValidCons(filled, BackfillAll(rs[1..], capacity, queue).0);
    }
  }

  /** The name of the `k`-th roster created for leftovers. */
  function AutoName(k: nat): string {
    AutoRosterPrefix + Decimal.NatToString(k)
  }

  /** One new roster named `AutoName(k)`, filled from the queue as far
      as capacity allows. */
  function NewExtra(leftovers: seq<string>, capacity: int, k: nat): (res: (Roster, seq<string>))
    requires capacity > 0
    requires leftovers != [] && AllNonEmpty(leftovers)
    ensures res.0.name == AutoName(k)
    ensures ValidRoster(res.0)
    ensures 0 < Size(res.0) <= capacity
    ensures res.1 != [] ==> Size(res.0) == capacity
    ensures res.0.elements + res.1 == leftovers
    ensures AllNonEmpty(res.1)
  {
    var blank := NewRoster(Some(AutoName(k))).value;
    var res := Fill(blank, capacity, leftovers);
    assert leftovers == leftovers[..Size(res.0)] + res.1;
    res
  }

  /** `createNewManagedRostersFor`: new rosters named with the counter
      after `counter`, each filled to capacity from the queue until the
      queue is empty. Between them they hold the queue, in queue order. */
  function CreateExtras(leftovers: seq<string>, capacity: int, counter: nat): (extras: seq<Roster>)
    requires capacity > 0
    requires AllNonEmpty(leftovers)
    ensures Concat(extras) == leftovers
    decreases |leftovers|
  {
    if !HasLeftovers(leftovers) then []
    else
      var (filled, rest) := NewExtra(leftovers, capacity, counter + 1);
      var extras := [filled] + CreateExtras(rest, capacity, counter + 1);
      assert extras[1..] == CreateExtras(rest, capacity, counter + 1);
      extras
  }

  /** The names of the rosters, in order. */
  function Names(rs: seq<Roster>): (names: seq<string>)
    ensures |names| == |rs|
  {
    if rs == [] then [] else [rs[0].name] + Names(rs[1..])
  }

  /** `count` automatic names, from counter value `counter + 1` on. */
  function AutoNames(counter: nat, count: nat): (names: seq<string>)
    decreases count
  {
    if count == 0 then [] else [AutoName(counter + 1)] + AutoNames(counter + 1, count - 1)
  }

  /** The `i`-th automatic name after `counter` is the one for `counter + i + 1`. */
  lemma {:induction false} AutoNamesAt(counter: nat, count: nat, i: nat)
    requires i < count
    ensures |AutoNames(counter, count)| == count
    ensures AutoNames(counter, count)[i] == AutoName(counter + i + 1)
    decreases count
  {
    var rest := AutoNames(counter + 1, count - 1);
    assert AutoNames(counter, count) == [AutoName(counter + 1)] + rest;
    if i > 0 {
      AutoNamesAt(counter + 1, count - 1, i - 1);
      var k := counter + 1 + (i - 1) + 1;
      assert k == counter + i + 1;
      assert rest[i - 1] == AutoName(k);
    } else if count > 1 {
      AutoNamesAt(counter + 1, count - 1, 0);
    }
  }

  /** Different counter values give different automatic names. */
  lemma AutoNameInjective(a: nat, b: nat)
    ensures AutoName(a) == AutoName(b) <==> a == b
  {
    if AutoName(a) == AutoName(b) {
      assert AutoName(a)[|AutoRosterPrefix|..] == Decimal.NatToString(a);
      assert AutoName(b)[|AutoRosterPrefix|..] == Decimal.NatToString(b);
      Decimal.NatToStringInjective(a, b);
    }
  }

  /** The automatic names of one request are pairwise distinct. */
  lemma AutoNamesDistinct(counter: nat, count: nat)
    ensures |AutoNames(counter, count)| == count
    ensures forall i, j :: 0 <= i < j < count ==> AutoNames(counter, count)[i] != AutoNames(counter, count)[j]
  {
    if count > 0 {
      AutoNamesAt(counter, count, 0);
    }
    forall i, j | 0 <= i < j < count
      ensures AutoNames(counter, count)[i] != AutoNames(counter, count)[j]
    {
      AutoNamesAt(counter, count, i);
      AutoNamesAt(counter, count, j);
      AutoNameInjective(counter + i + 1, counter + j + 1);
    }
  }

  /** The extras are valid, non-empty and within capacity, and all but the
      last are full. */
  predicate ExtrasShaped(extras: seq<Roster>, capacity: int) {
    forall i :: 0 <= i < |extras| ==>
      && ValidRoster(extras[i])
      && 0 < Size(extras[i]) <= capacity
      && (i < |extras| - 1 ==> Size(extras[i]) == capacity)
  }

  /** The rosters created for leftovers carry the counter-based names. */
  lemma {:induction false} CreateExtrasNamed(leftovers: seq<string>, capacity: int, counter: nat)
    requires capacity > 0
    requires AllNonEmpty(leftovers)
    ensures var extras := CreateExtras(leftovers, capacity, counter);
      Names(extras) == AutoNames(counter, |extras|)
    decreases |leftovers|
  {
    if leftovers != [] {
      var (filled, rest) := NewExtra(leftovers, capacity, counter + 1);
      var more := CreateExtras(rest, capacity, counter + 1);
      CreateExtrasNamed(rest, capacity, counter + 1);
      var extras := CreateExtras(leftovers, capacity, counter);
      assert extras == [filled] + more;
      assert AutoNames(counter, |extras|) == [AutoName(counter + 1)] + AutoNames(counter + 1, |more|);
      assert extras[1..] == more;
    }
  }

  /** The rosters created for leftovers are non-empty, within capacity,
      and full except possibly the last. */
  lemma {:induction false} CreateExtrasShape(leftovers: seq<string>, capacity: int, counter: nat)
    requires capacity > 0
    requires AllNonEmpty(leftovers)
    ensures ExtrasShaped(CreateExtras(leftovers, capacity, counter), capacity)
    decreases |leftovers|
  {
    if leftovers != [] {
      var (filled, rest) := NewExtra(leftovers, capacity, counter + 1);
      var more := CreateExtras(rest, capacity, counter + 1);
      CreateExtrasShape(rest, capacity, counter + 1);
      var extras := CreateExtras(leftovers, capacity, counter);
      assert extras == [filled] + more;
      forall i | 0 <= i < |extras|
        ensures ValidRoster(extras[i])
        ensures 0 < Size(extras[i]) <= capacity
        ensures i < |extras| - 1 ==> Size(extras[i]) == capacity
      {
        if i > 0 {
          assert extras[i] == more[i - 1];
        } else if i < |extras| - 1 {
          assert rest != [];
        }
      }
    }
  }

  // ---------------------------------------------------------------------
  // The managed view

  /** The state after each pass, as `getManagedRosters` computes it. */
  datatype Passes = Passes(
    copies: seq<Roster>,
    fitted: seq<Roster>, overflow: seq<string>,
    filled: seq<Roster>, remaining: seq<string>,
    extras: seq<Roster>)

  function RunPasses(m: Manager, shuffles: seq<seq<string>>): (p: Passes)
    requires ValidManager(m)
    requires IsShuffleOf(shuffles, m.provided)
  {
    var copies := ShuffleCopies(m.provided, shuffles);
    var fitted := FitAll(copies, m.capacity, []);
    ShuffleCopiesValid(m.provided, shuffles);
    FitAllKeepsValid(copies, m.capacity, []);
    var filled := if HasLeftovers(fitted.1) then BackfillAll(fitted.0, m.capacity, fitted.1) else fitted;
    var extras := if HasLeftovers(filled.1) then CreateExtras(filled.1, m.capacity, 0) else [];
    Passes(copies, fitted.0, fitted.1, filled.0, filled.1, extras)
  }

  /** After trimming, the copies are valid and the queue holds only
      non-empty elements. */
  lemma ManagedFittedValid(m: Manager, shuffles: seq<seq<string>>)
    requires ValidManager(m)
    requires IsShuffleOf(shuffles, m.provided)
    ensures AllValid(RunPasses(m, shuffles).fitted)
    ensures AllNonEmpty(RunPasses(m, shuffles).overflow)
  {
    ShuffleCopiesValid(m.provided, shuffles);
    FitAllKeepsValid(ShuffleCopies(m.provided, shuffles), m.capacity, []);
  }

  /** After trimming, the copies and the queue hold the provided elements. */
  lemma ManagedFittedConserves(m: Manager, shuffles: seq<seq<string>>)
    requires ValidManager(m)
    requires IsShuffleOf(shuffles, m.provided)
    ensures Bag(RunPasses(m, shuffles).fitted) + multiset(RunPasses(m, shuffles).overflow) == Bag(m.provided)
  {
    var p := RunPasses(m, shuffles);
    ShuffleCopiesConserve(m.provided, shuffles);
    FitAllConserves(p.copies, m.capacity, []);
  }

  /** After backfilling, the copies and the queue hold the provided elements. */
  lemma ManagedFilledConserves(m: Manager, shuffles: seq<seq<string>>)
    requires ValidManager(m)
    requires IsShuffleOf(shuffles, m.provided)
    ensures Bag(RunPasses(m, shuffles).filled) + multiset(RunPasses(m, shuffles).remaining) == Bag(m.provided)
  {
    var p := RunPasses(m, shuffles);
    ManagedFittedConserves(m, shuffles);
    if p.overflow != [] {
      ManagedFittedValid(m, shuffles);
      BackfillAllConserves(p.fitted, m.capacity, p.overflow);
    }
  }

  /** The managed view holds exactly the provided elements. */
  lemma ManagedConserves(m: Manager, shuffles: seq<seq<string>>)
    requires ValidManager(m)
    requires IsShuffleOf(shuffles, m.provided)
    ensures Bag(RunPasses(m, shuffles).filled + RunPasses(m, shuffles).extras) == Bag(m.provided)
  {
    var p := RunPasses(m, shuffles);
    ManagedFilledConserves(m, shuffles);
    BagAppend(p.filled, p.extras);
    BagIsConcat(p.extras);
    assert Concat(p.extras) == p.remaining;
  }

  /** What the managed copy of each provided roster looks like in the end. */
  predicate CopiesShaped(provided: seq<Roster>, shuffles: seq<seq<string>>, managed: seq<Roster>, capacity: int) {
    |managed| == |provided| == |shuffles| &&
    forall i :: 0 <= i < |provided| ==>
      && managed[i].name == provided[i].name
      && ValidRoster(managed[i])
      && Size(managed[i]) <= capacity
      && (managed[i].elements == [] <==> provided[i].elements == [])
      && shuffles[i][..Min(|shuffles[i]|, capacity)] <= managed[i].elements
  }

  /** What the copy of each provided roster looks like after trimming. */
  predicate FittedShaped(provided: seq<Roster>, shuffles: seq<seq<string>>, fitted: seq<Roster>, capacity: int) {
    |fitted| == |provided| == |shuffles| &&
    forall i :: 0 <= i < |provided| ==>
      && fitted[i].name == provided[i].name
      && ValidRoster(fitted[i])
      && Size(fitted[i]) <= capacity
      && (fitted[i].elements == [] <==> provided[i].elements == [])
      && fitted[i].elements == shuffles[i][..Min(|shuffles[i]|, capacity)]
  }

  /** Trimming copies that carry the shuffles gives the trimmed shape. */
  lemma FitAllOfCopies(provided: seq<Roster>, shuffles: seq<seq<string>>, copies: seq<Roster>, capacity: nat)
    requires |copies| == |provided| == |shuffles|
    requires forall i :: 0 <= i < |provided| ==>
      copies[i].name == provided[i].name && copies[i].elements == shuffles[i] &&
      |shuffles[i]| == Size(provided[i])
    requires capacity > 0
    requires AllValid(FitAll(copies, capacity, []).0)
    ensures FittedShaped(provided, shuffles, FitAll(copies, capacity, []).0, capacity)
  {
    var fitted := FitAll(copies, capacity, []).0;
    forall i | 0 <= i < |provided|
      ensures Size(fitted[i]) <= capacity
      ensures fitted[i].elements == [] <==> provided[i].elements == []
      ensures fitted[i].elements == shuffles[i][..Min(|shuffles[i]|, capacity)]
    {
      assert Size(fitted[i]) == Min(Size(copies[i]), capacity);
    }
  }

  /** After trimming, each copy is the bottom of its shuffled copy, cut at
      the capacity, and is empty exactly when its provided roster is. */
  lemma ManagedFitted(m: Manager, shuffles: seq<seq<string>>)
    requires ValidManager(m)
    requires IsShuffleOf(shuffles, m.provided)
    ensures FittedShaped(m.provided, shuffles, RunPasses(m, shuffles).fitted, m.capacity)
  {
    var copies := ShuffleCopies(m.provided, shuffles);
    ManagedFittedValid(m, shuffles);
    ShuffleKeepsSizes(shuffles, m.provided);
    FitAllOfCopies(m.provided, shuffles, copies, m.capacity);
  }

  /** Backfilling keeps what trimming established, except that a copy may
      grow beyond the bottom of its shuffled copy. */
  lemma CopiesShapedAfterBackfill(provided: seq<Roster>, shuffles: seq<seq<string>>,
                                  fitted: seq<Roster>, filled: seq<Roster>, capacity: int)
    requires FittedShaped(provided, shuffles, fitted, capacity)
    requires BackfillShaped(fitted, filled, capacity)
    requires AllValid(filled)
    ensures CopiesShaped(provided, shuffles, filled, capacity)
  {
    forall i | 0 <= i < |provided|
      ensures filled[i].elements == [] <==> provided[i].elements == []
    {
      assert fitted[i].elements <= filled[i].elements;
    }
  }

  /** Each managed copy keeps its source's name, stays within capacity,
      is empty exactly when its source is, and starts with the bottom of
      its shuffled copy. */
  lemma ManagedCopiesShape(m: Manager, shuffles: seq<seq<string>>)
    requires ValidManager(m)
    requires IsShuffleOf(shuffles, m.provided)
    ensures CopiesShaped(m.provided, shuffles, RunPasses(m, shuffles).filled, m.capacity)
  {
    var p := RunPasses(m, shuffles);
    ManagedFitted(m, shuffles);
    if p.overflow != [] {
      ManagedFittedValid(m, shuffles);
      BackfillAllShape(p.fitted, m.capacity, p.overflow);
      BackfillAllKeepsValid(p.fitted, m.capacity, p.overflow);
    }
    CopiesShapedAfterBackfill(m.provided, shuffles, p.fitted, p.filled, m.capacity);
  }

  /** The extra rosters: automatic names in order, valid, non-empty, within
      capacity, all but the last full. */
  lemma ManagedExtrasShape(m: Manager, shuffles: seq<seq<string>>)
    requires ValidManager(m)
    requires IsShuffleOf(shuffles, m.provided)
    ensures Names(RunPasses(m, shuffles).extras) == AutoNames(0, |RunPasses(m, shuffles).extras|)
    ensures ExtrasShaped(RunPasses(m, shuffles).extras, m.capacity)
  {
    var p := RunPasses(m, shuffles);
    if p.remaining != [] {
      ManagedFittedValid(m, shuffles);
      CreateExtrasNamed(p.remaining, m.capacity, 0);
      CreateExtrasShape(p.remaining, m.capacity, 0);
    }
  }

  /** Fullness carries over between two lists of rosters that are empty
      at the same positions. */
  lemma NonEmptyAreFullTransfer(a: seq<Roster>, b: seq<Roster>, after: seq<Roster>, capacity: int)
    requires |a| == |b|
    requires forall i :: 0 <= i < |a| ==> (a[i].elements == [] <==> b[i].elements == [])
    requires NonEmptyAreFull(a, after, capacity)
    ensures NonEmptyAreFull(b, after, capacity)
  {
    forall i | 0 <= i < |b| && i < |after| && b[i].elements != []
      ensures Size(after[i]) >= capacity
    {
      assert a[i].elements != [];
    }
  }

  /** Extra rosters exist only when every managed copy of a non-empty
      provided roster is full. */
  lemma ManagedExtrasOnlyWhenFull(m: Manager, shuffles: seq<seq<string>>)
    requires ValidManager(m)
    requires IsShuffleOf(shuffles, m.provided)
    ensures RunPasses(m, shuffles).extras != [] ==>
      NonEmptyAreFull(m.provided, RunPasses(m, shuffles).filled, m.capacity)
  {
    var p := RunPasses(m, shuffles);
    if p.extras != [] {
      ManagedFittedValid(m, shuffles);
      ManagedFitted(m, shuffles);
      BackfillAllIsGreedy(p.fitted, m.capacity, p.overflow);
      NonEmptyAreFullTransfer(p.fitted, m.provided, p.filled, m.capacity);
    }
  }

  /** `getManagedRosters`: the managed rosters rebuilt from the provided
      ones under the given shuffles. */
  function ManagedRosters(m: Manager, shuffles: seq<seq<string>>): (managed: seq<Roster>)
    requires ValidManager(m)
    requires IsShuffleOf(shuffles, m.provided)
    ensures Bag(managed) == Bag(m.provided)
    ensures |m.provided| <= |managed|
    ensures CopiesShaped(m.provided, shuffles, managed[..|m.provided|], m.capacity)
    ensures Names(managed[|m.provided|..]) == AutoNames(0, |managed| - |m.provided|)
    ensures ExtrasShaped(managed[|m.provided|..], m.capacity)
    ensures |managed| > |m.provided| ==> NonEmptyAreFull(m.provided, managed, m.capacity)
  {
    var p := RunPasses(m, shuffles);
    ManagedConserves(m, shuffles);
    ManagedCopiesShape(m, shuffles);
    ManagedExtrasShape(m, shuffles);
    ManagedExtrasOnlyWhenFull(m, shuffles);
    assert (p.filled + p.extras)[..|m.provided|] == p.filled;
    assert (p.filled + p.extras)[|m.provided|..] == p.extras;
    p.filled + p.extras
  }
}
