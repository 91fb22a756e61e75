# kafetaka-roster in Dafny

A model of the two classes at the heart of kafetaka-roster.

- A **roster** is a named last-in-first-out stack of non-empty strings. Its identity is its name alone.
- A **roster manager** holds a capacity and a list of registered ("provided") rosters. Every time the managed rosters are requested, it rebuilds them from the provided ones in four passes:
  1. shuffled copies of the provided rosters;
  2. trimming each copy down to the capacity, queueing what is popped off;
  3. backfilling the non-empty copies from that queue, in order;
  4. new rosters named "Automatic Roster1", "Automatic Roster2", … for whatever is still queued.

The model is functional:

- `Roster` and `Manager` are immutable datatypes.
- Every mutating Java method returns the new value.
- Java `null` is `Option.None`.
- Every `IllegalArgumentException` is a `Result.Err` carrying one error constructor per throw site.
- The outcome of `Collections.shuffle` is a parameter: one rearrangement of each provided roster's elements, constrained only by multiset equality. Every property about the managed rosters therefore holds for every possible shuffle.

Files:

- `wrappers.dfy`: `Option` and `Result`.
- `decimal.dfy`: the decimal rendering of the counter in automatic names, with its inverse.
- `roster.dfy`: the `Roster` class.
- `roster_manager.dfy`: the `RosterManager` class and its passes.
- `roster_sizes.dfy`: an arithmetic reference definition of the sizes of the managed rosters, proved to agree with the passes.
- `scenarios.dfy`: the unit tests' scenarios, stated for all shuffles.

The class documentation of `RosterManager` (RosterManager.java:56-62) says surplus elements move to another managed roster with room left, and that new rosters are created only when no managed roster has room. The model follows the code, which agrees with that for one roster of three elements at capacity two. The only managed copy is full after trimming, so the leftover element goes into a new roster named "Automatic Roster1", giving sizes [2, 1] (`RosterScenarios.OneRosterOverCapacity`).

The code departs from that documentation in one respect: the backfill pass skips empty copies (RosterManager.java:171), although they have room. At capacity two, an empty roster and a roster of three come back with sizes [0, 2, 1]. A new roster is created while the first copy stays empty (`RosterScenarios.EmptyRosterIsNotBackfilled`). The model follows the code here too.

## Model

| member | source | states |
|---|---|---|
| Rosters.NewRoster | src/main/java/com/itfraud/kafetaka/roster/Roster.java:54-61 | a null name is rejected as NullName and an empty one as EmptyName; otherwise the result is an empty, valid roster with exactly that name |
| Rosters.Push | src/main/java/com/itfraud/kafetaka/roster/Roster.java:80-88 | null and empty elements are rejected (iff); on success the name is kept, the size grows by one, the element is the new top, the old elements stay below it, and validity is preserved |
| Rosters.Pop | src/main/java/com/itfraud/kafetaka/roster/Roster.java:95-97 | returns the top element and the rest of the stack: rest followed by the element is the original roster, the name is unchanged, and validity is preserved |
| Rosters.IsEmpty | src/main/java/com/itfraud/kafetaka/roster/Roster.java:104-116 | true exactly when the size is zero |
| Rosters.EmptyIffNothingStreamed | src/main/java/com/itfraud/kafetaka/roster/Roster.java:114-125 | a roster is empty exactly when its element stream is empty |
| Rosters.Elements | src/main/java/com/itfraud/kafetaka/roster/Roster.java:123-125 | the element stream holds exactly the roster's elements (same multiset, as many as its size), with the top last |
| Rosters.StreamEndsWithPopped | src/main/java/com/itfraud/kafetaka/roster/Roster.java:95-125 | the stream of a non-empty roster is the stream of what popping leaves, followed by the popped element: it runs bottom to top |
| Rosters.PushIsStreamedLast | src/main/java/com/itfraud/kafetaka/roster/Roster.java:80-125 | a push appends the pushed element to the end of the stream, so the stream lists elements in push order |
| Rosters.PushThenPop | src/test/java/com/itfraud/kafetaka/roster/RosterTest.java:62-69 | pushing a non-empty element and then popping returns that element and the roster as it was |
| Rosters.PopThenPush | src/main/java/com/itfraud/kafetaka/roster/Roster.java:80-97 | on a valid non-empty roster, pushing the popped element back restores the roster |
| Rosters.PushedElementIsStreamed | src/test/java/com/itfraud/kafetaka/roster/RosterTest.java:50-56 | after a push, the element view contains the pushed element |
| Rosters.Int32 | src/main/java/com/itfraud/kafetaka/roster/Roster.java:133-136 | the result is in Java's int range and congruent to the input modulo 2^32 (two's-complement wrap-around) |
| Rosters.EqualsIsNameEquality | src/main/java/com/itfraud/kafetaka/roster/Roster.java:145-158 | equals is false against null, reflexive, symmetric and transitive; it holds iff the names agree, whatever the elements |
| Rosters.HashCodeAgreesWithEquals | src/main/java/com/itfraud/kafetaka/roster/Roster.java:132-137 | equal rosters have equal hash codes, for any string hash |
| Decimal.NatToStringIsCanonical | src/main/java/com/itfraud/kafetaka/roster/RosterManager.java:186 | the counter's rendering is a non-empty digit string with no leading zero; it is one digit exactly below ten |
| Decimal.ParseOfNatToString | src/main/java/com/itfraud/kafetaka/roster/RosterManager.java:186 | reading the rendered counter back as a decimal number gives the counter |
| Decimal.NatToStringInjective | src/main/java/com/itfraud/kafetaka/roster/RosterManager.java:186 | two counters render to the same string iff they are equal |
| RosterManager.NewManager | src/main/java/com/itfraud/kafetaka/roster/RosterManager.java:88-93 | fails with NonPositiveCapacity iff the capacity is not positive; otherwise a valid manager with that capacity and no rosters |
| RosterManager.Manage | src/main/java/com/itfraud/kafetaka/roster/RosterManager.java:105-113 | null is rejected as NullRoster; the roster is rejected as DuplicateRoster iff a registered roster has its name; otherwise it is appended and the capacity is kept; a valid roster keeps the manager valid, including pairwise distinct names |
| RosterManager.ManageTwiceFails | src/test/java/com/itfraud/kafetaka/roster/RosterManagerTest.java:88-93 | a roster not yet registered is accepted once and rejected as a duplicate the second time |
| RosterManager.ShuffleKeepsSizes | src/main/java/com/itfraud/kafetaka/roster/RosterManager.java:146-148 | each shuffled element list has the size of its roster |
| RosterManager.PushAll | src/main/java/com/itfraud/kafetaka/roster/RosterManager.java:149 | pushing a list of elements one after the other appends them, in order, above the existing ones |
| RosterManager.ShuffleCopy | src/main/java/com/itfraud/kafetaka/roster/RosterManager.java:145-149 | the copy has the source's name, holds exactly the shuffled elements bottom to top, and is valid |
| RosterManager.ShuffleCopies | src/main/java/com/itfraud/kafetaka/roster/RosterManager.java:143-151 | one copy per provided roster, in order, each with its roster's name and its shuffle as elements |
| RosterManager.ShuffleCopiesValid | src/main/java/com/itfraud/kafetaka/roster/RosterManager.java:143-151 | every copy is a valid roster |
| RosterManager.ShuffleCopiesConserve | src/main/java/com/itfraud/kafetaka/roster/RosterManager.java:143-151 | the copies hold, as a multiset, exactly the provided elements |
| RosterManager.Trim | src/main/java/com/itfraud/kafetaka/roster/RosterManager.java:160-161 | the trimmed roster keeps its name and its bottom min(size, capacity) elements |
| RosterManager.TrimLeftovers | src/main/java/com/itfraud/kafetaka/roster/RosterManager.java:160-161 | the queue gains exactly the removed elements, top first, after what it already held |
| RosterManager.TrimConserves | src/main/java/com/itfraud/kafetaka/roster/RosterManager.java:160-161 | the roster and the queue together hold the same multiset before and after trimming |
| RosterManager.TrimKeepsValid | src/main/java/com/itfraud/kafetaka/roster/RosterManager.java:160-161 | trimming a valid roster leaves a valid roster and a queue of non-empty elements |
| RosterManager.FitAll | src/main/java/com/itfraud/kafetaka/roster/RosterManager.java:157-163 | every roster in order keeps its name and its bottom min(size, capacity) elements |
| RosterManager.FitAllConserves | src/main/java/com/itfraud/kafetaka/roster/RosterManager.java:157-163 | what leaves the rosters joins the queue: nothing is lost or invented |
| RosterManager.FitAllKeepsValid | src/main/java/com/itfraud/kafetaka/roster/RosterManager.java:157-163 | the fit pass keeps every roster valid and every queued element non-empty |
| RosterManager.Fill | src/main/java/com/itfraud/kafetaka/roster/RosterManager.java:172-173 | a roster below capacity gains the longest prefix of the queue that fits, in queue order; the rest of the queue remains; a roster at or over capacity gains nothing |
| RosterManager.FillConserves | src/main/java/com/itfraud/kafetaka/roster/RosterManager.java:172-173 | the roster and the queue together hold the same multiset before and after filling |
| RosterManager.BackfillOne | src/main/java/com/itfraud/kafetaka/roster/RosterManager.java:171-173 | an empty roster is left empty and the queue untouched; a non-empty one only gains elements on top, is not pushed past capacity, and is full whenever the queue is not exhausted |
| RosterManager.BackfillOneConserves | src/main/java/com/itfraud/kafetaka/roster/RosterManager.java:171-173 | one backfill step moves elements from the queue to the roster and nothing else |
| RosterManager.BackfillOneKeepsValid | src/main/java/com/itfraud/kafetaka/roster/RosterManager.java:171-173 | one backfill step keeps a valid roster valid |
| RosterManager.BackfillAll | src/main/java/com/itfraud/kafetaka/roster/RosterManager.java:169-175 | the pass returns one roster per input roster, and the queue only shrinks |
| RosterManager.BackfillAllShape | src/main/java/com/itfraud/kafetaka/roster/RosterManager.java:169-175 | every roster keeps its name, only gains elements on top, stays empty if it was empty, and is not pushed past capacity |
| RosterManager.BackfillAllConserves | src/main/java/com/itfraud/kafetaka/roster/RosterManager.java:169-175 | what leaves the queue joins the rosters: nothing is lost or invented |
| RosterManager.BackfillAllIsGreedy | src/main/java/com/itfraud/kafetaka/roster/RosterManager.java:169-175 | if the queue is not exhausted, every roster that was non-empty is full |
| RosterManager.BackfillAllKeepsValid | src/main/java/com/itfraud/kafetaka/roster/RosterManager.java:169-175 | the backfill pass keeps every roster valid |
| RosterManager.NewExtra | src/main/java/com/itfraud/kafetaka/roster/RosterManager.java:185-188 | the new roster is named prefix + counter, is valid and non-empty, takes a prefix of the queue within capacity, and is full unless the queue is exhausted |
| RosterManager.CreateExtras | src/main/java/com/itfraud/kafetaka/roster/RosterManager.java:181-193 | the new rosters, read one after another, hold exactly the queue in queue order |
| RosterManager.CreateExtrasNamed | src/main/java/com/itfraud/kafetaka/roster/RosterManager.java:183-186 | the new rosters are named prefix + 1, prefix + 2, … in order |
| RosterManager.CreateExtrasShape | src/main/java/com/itfraud/kafetaka/roster/RosterManager.java:184-191 | the new rosters are valid, non-empty and within capacity, and all but the last are full |
| RosterManager.AutoNamesAt | src/main/java/com/itfraud/kafetaka/roster/RosterManager.java:183-186 | the i-th automatic name after counter c is the name for c + i + 1 |
| RosterManager.AutoNameInjective | src/main/java/com/itfraud/kafetaka/roster/RosterManager.java:73 | two automatic names are equal iff their counters are |
| RosterManager.AutoNamesDistinct | src/main/java/com/itfraud/kafetaka/roster/RosterManager.java:183-186 | the automatic names of one request are pairwise distinct |
| RosterManager.ManagedFittedValid | src/main/java/com/itfraud/kafetaka/roster/RosterManager.java:122-125 | after trimming, all copies are valid and the queue holds only non-empty elements |
| RosterManager.ManagedFittedConserves | src/main/java/com/itfraud/kafetaka/roster/RosterManager.java:122-125 | after trimming, the copies and the queue hold exactly the provided elements |
| RosterManager.ManagedFilledConserves | src/main/java/com/itfraud/kafetaka/roster/RosterManager.java:122-127 | after backfilling, the copies and the queue hold exactly the provided elements |
| RosterManager.ManagedConserves | src/main/java/com/itfraud/kafetaka/roster/RosterManager.java:122-131 | the managed rosters hold exactly the provided elements, as a multiset |
| RosterManager.FitAllOfCopies | src/main/java/com/itfraud/kafetaka/roster/RosterManager.java:157-163 | trimming the shuffled copies leaves each one as the bottom of its shuffle cut at the capacity, empty exactly when its provided roster is |
| RosterManager.ManagedFitted | src/main/java/com/itfraud/kafetaka/roster/RosterManager.java:122-125 | the same after the first two passes of a request |
| RosterManager.CopiesShapedAfterBackfill | src/main/java/com/itfraud/kafetaka/roster/RosterManager.java:169-175 | backfilling keeps names, emptiness and the capacity bound; each copy still starts with the bottom of its shuffle |
| RosterManager.ManagedCopiesShape | src/main/java/com/itfraud/kafetaka/roster/RosterManager.java:122-127 | the managed copy of each provided roster has its name, is valid, within capacity, empty iff the provided roster is, and starts with the bottom of its shuffle |
| RosterManager.ManagedExtrasShape | src/main/java/com/itfraud/kafetaka/roster/RosterManager.java:128-129 | the extra rosters carry the automatic names in order, are valid, non-empty and within capacity, and all but the last are full |
| RosterManager.NonEmptyAreFullTransfer | src/main/java/com/itfraud/kafetaka/roster/RosterManager.java:171 | fullness of the rosters that were non-empty carries over between lists that are empty at the same positions |
| RosterManager.ManagedExtrasOnlyWhenFull | src/main/java/com/itfraud/kafetaka/roster/RosterManager.java:126-129 | extra rosters exist only if every managed copy of a non-empty provided roster is full |
| RosterManager.ManagedRosters | src/main/java/com/itfraud/kafetaka/roster/RosterManager.java:122-131 | the managed rosters hold exactly the provided elements; the first ones correspond to the provided rosters in order (name, validity, capacity, emptiness, shuffled bottom); the rest are automatic rosters named in order, non-empty, within capacity, all but the last full, and they exist only when the copies of non-empty rosters are full |
| RosterSizes.SizesAppend | src/main/java/com/itfraud/kafetaka/roster/RosterManager.java:192 | the sizes of two lists put together are the sizes of each, one after the other |
| RosterSizes.FitAllSizes | src/main/java/com/itfraud/kafetaka/roster/RosterManager.java:157-163 | the fit pass cuts every size at the capacity, and the queue grows by the total overflow |
| RosterSizes.BackfillAllSizes | src/main/java/com/itfraud/kafetaka/roster/RosterManager.java:169-175 | the backfill pass agrees with the arithmetic backfill on the sizes and on the queue length |
| RosterSizes.CreateExtrasSizes | src/main/java/com/itfraud/kafetaka/roster/RosterManager.java:181-193 | the new rosters have sizes capacity, capacity, …, remainder |
| RosterSizes.BackfillSizesEmptyPool | src/main/java/com/itfraud/kafetaka/roster/RosterManager.java:126-127 | with nothing queued, backfilling changes no size |
| RosterSizes.ManagedRostersSizes | src/main/java/com/itfraud/kafetaka/roster/RosterManager.java:122-131 | the sizes of the managed rosters are those of the arithmetic reference definition, for every shuffle |
| RosterScenarios.PushesPopInReverseOrder | src/test/java/com/itfraud/kafetaka/roster/RosterTest.java:75-83 | three pushes onto a new roster pop back in reverse order |
| RosterScenarios.CapacityTwoWith | src/test/java/com/itfraud/kafetaka/roster/RosterManagerTest.java:102-116 | registering two distinct valid rosters with a manager of capacity two succeeds and gives a valid manager holding them in order |
| RosterScenarios.ManageOneRoster | src/test/java/com/itfraud/kafetaka/roster/RosterManagerTest.java:72-81 | one registered empty roster comes back as the only managed roster, equal to it |
| RosterScenarios.TakeElementsFromOneRosterToTheNextOne | src/test/java/com/itfraud/kafetaka/roster/RosterManagerTest.java:102-116 | at capacity two, rosters of three and one element come back as two rosters of two, for every shuffle |
| RosterScenarios.CreateNewRosterForLeftovers | src/test/java/com/itfraud/kafetaka/roster/RosterManagerTest.java:133-147 | at capacity two, two rosters of three come back as three rosters of two, for every shuffle |
| RosterScenarios.EmptyRosterIsNotBackfilled | src/main/java/com/itfraud/kafetaka/roster/RosterManager.java:169-193 | at capacity two, an empty roster and a roster of three come back with sizes [0, 2, 1], for every shuffle: the empty copy is skipped and a new roster takes the leftover |
| RosterScenarios.OneRosterOverCapacity | src/main/java/com/itfraud/kafetaka/roster/RosterManager.java:122-131 | at capacity two, one roster of three comes back as rosters of sizes two and one, the second with the first automatic name |
| RosterScenarios.FirstAutomaticName | src/main/java/com/itfraud/kafetaka/roster/RosterManager.java:183-186 | the first automatic name is "Automatic Roster1" |
| RosterScenarios.ManagedRosterFollowsTheShuffle | src/test/java/com/itfraud/kafetaka/roster/RosterManagerTest.java:156-173 | a provided roster of exactly the capacity comes back holding its shuffle, in shuffle order |

## Left out

- Randomness: `Collections.shuffle` is a parameter, so the model says nothing about how uniform or how random the shuffle is. The element-order test only holds with high probability in Java; the model states what holds for every shuffle instead.
- Concurrency: the synchronized lists and any interleaving of calls are not modelled.
- The unmodifiable-list wrapper, the `getName` accessor and `toString` are not modelled: they are representation only, and the name field is read directly. `size` is modelled by `Rosters.Size`.
- The `setUpManagedRosters` field state is not modelled: each request is a pure function of the manager, which is equivalent because the Java class rebuilds the list from scratch on every request.
- That the provided rosters are left unchanged by a request holds by construction: values are immutable, and `ManagedRosters` does not return a manager.
- Rosters.Pop: popping an empty roster, an EmptyStackException in Java, is a precondition and not an error value.
- Rosters.HashCode: `String.hashCode` is a parameter, and `Objects.hashCode` of a null name cannot arise because names are never null.
- Rosters.EqualsIsNameEquality: only arguments that are rosters or null are modelled; the class check against other types is left out.
- RosterManager.Manage: the manager holds a snapshot of each roster's value at registration, while Java holds a reference, so a push or pop on a registered roster reaches the next request. A later change to a registered roster is modelled by building `Manager(capacity, <current rosters>)` and requesting the managed rosters from that.
- RosterManager.NewManager: the capacity is an unbounded integer. The manager does not model Java's 32-bit `int`, and the counter of automatic names cannot overflow in the model.
- RosterManager.ManagedRosters: automatic names are not checked against provided names, and neither is the Java code. A provided roster may already be called "Automatic Roster1".
- Characters are Dafny `char`, not UTF-16 code units; no operation depends on the difference.
