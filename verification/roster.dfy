/** A roster: a named last-in-first-out stack of non-empty strings whose
    identity is its name alone. */
module Rosters {
  import opened Wrappers

  /** Why a roster operation rejects its argument. Each one is an
      IllegalArgumentException in the original class. */
  datatype Error = NullName | EmptyName | NullElement | EmptyElement

  /** The stack's storage order is bottom first, so the top is the last
      element of `elements`, as with java.util.Stack. */
  datatype Roster = Roster(name: string, elements: seq<string>)

  /** Every element is a non-empty string. */
  predicate AllNonEmpty(s: seq<string>) {
    forall i :: 0 <= i < |s| ==> s[i] != ""
  }

  /** The class invariant: a non-empty name and non-empty elements. Every
      roster the operations below build satisfies it. */
  predicate ValidRoster(r: Roster) {
    r.name != "" && AllNonEmpty(r.elements)
  }

  /** The constructor: rejects a null or an empty name, else an empty
      roster carrying that name. */
  function NewRoster(rosterName: Option<string>): (r: Result<Roster, Error>)
    ensures rosterName == None ==> r == Err(NullName)
    ensures rosterName == Some("") ==> r == Err(EmptyName)
    ensures r.Ok? <==> rosterName.Some? && rosterName.value != ""
    ensures r.Ok? ==> r.value.name == rosterName.value && Size(r.value) == 0
    ensures r.Ok? ==> ValidRoster(r.value)
  {
    match rosterName
    case None => Err(NullName)
    case Some(n) => if n == "" then Err(EmptyName) else Ok(Roster(n, []))
  }

  function Size(r: Roster): nat {
    |r.elements|
  }

  /** The element most recently pushed. */
  function Top(r: Roster): string
    requires Size(r) > 0
  {
    r.elements[|r.elements| - 1]
  }

  /** The elements in storage order (bottom to top), as the element stream
      exposes them: the top comes last. */
  function Elements(r: Roster): (s: seq<string>)
    ensures |s| == Size(r)
    ensures multiset(s) == multiset(r.elements)
    ensures Size(r) > 0 ==> s[|s| - 1] == Top(r)
  {
    r.elements
  }

  function IsEmpty(r: Roster): (b: bool)
    ensures b <==> Size(r) == 0
  {
    r.elements == []
  }

  /** A roster is empty exactly when its element stream is. */
  lemma EmptyIffNothingStreamed(r: Roster)
    ensures IsEmpty(r) <==> Elements(r) == []
  {
  }

  /** Pushes an element as the new top; a null or an empty element is
      rejected and nothing changes. */
  function Push(r: Roster, element: Option<string>): (res: Result<Roster, Error>)
    ensures element == None ==> res == Err(NullElement)
    ensures element == Some("") ==> res == Err(EmptyElement)
    ensures res.Ok? <==> element.Some? && element.value != ""
    ensures res.Ok? ==> res.value.name == r.name
    ensures res.Ok? ==> Size(res.value) == Size(r) + 1
    ensures res.Ok? ==> Top(res.value) == element.value
    ensures res.Ok? ==> res.value.elements[..Size(r)] == r.elements
    ensures res.Ok? && ValidRoster(r) ==> ValidRoster(res.value)
  {
    match element
    case None => Err(NullElement)
    case Some(e) => if e == "" then Err(EmptyElement) else Ok(Roster(r.name, r.elements + [e]))
  }

  /** Removes the top element and returns it with the remaining roster.
      Popping an empty roster (an EmptyStackException in Java) is excluded
      by the precondition. */
  function Pop(r: Roster): (res: (string, Roster))
    requires Size(r) > 0
    ensures res.0 == Top(r)
    ensures res.1.name == r.name
    ensures Size(res.1) == Size(r) - 1
    ensures res.1.elements + [res.0] == r.elements
    ensures ValidRoster(r) ==> ValidRoster(res.1) && res.0 != ""
  {
    (r.elements[|r.elements| - 1], Roster(r.name, r.elements[..|r.elements| - 1]))
  }

  /** Pushing then popping hands back the pushed element and the roster
      as it was. */
  lemma PushThenPop(r: Roster, e: string)
    requires e != ""
    ensures Push(r, Some(e)).Ok?
    ensures Pop(Push(r, Some(e)).value) == (e, r)
  {
    var p := Push(r, Some(e)).value;
    assert p.elements[..Size(r)] == r.elements;
  }

  /** Popping then pushing the popped element back restores the roster. */
  lemma PopThenPush(r: Roster)
    requires ValidRoster(r) && Size(r) > 0
    ensures Push(Pop(r).1, Some(Pop(r).0)) == Ok(r)
  {
  }

  /** After a push the element view contains the pushed element. */
  lemma PushedElementIsStreamed(r: Roster, e: string)
    requires e != ""
    ensures Push(r, Some(e)).Ok?
    ensures e in Elements(Push(r, Some(e)).value)
  {
    var p := Push(r, Some(e)).value;
    assert Elements(p)[Size(r)] == e;
  }

  /** Two rosters are equal when the other one is not null and has the
      same name; the elements play no part. */
  function Equals(r: Roster, obj: Option<Roster>): bool {
    obj.Some? && r.name == obj.value.name
  }

  /** Wraps an integer to Java's 32-bit int range. */
  function Int32(x: int): (w: int)
    ensures -0x8000_0000 <= w < 0x8000_0000
    ensures (w - x) % 0x1_0000_0000 == 0
  {
    (x + 0x8000_0000) % 0x1_0000_0000 - 0x8000_0000
  }

  /** The hash code: `83 * 3 + hash(name)` in int arithmetic. The string
      hash of the name is a parameter, standing for String.hashCode. */
  function HashCode(r: Roster, stringHash: string -> int): int {
    Int32(83 * 3 + stringHash(r.name))
  }

  /** The stream lists the elements in push order: a push appends to it. */
  lemma PushIsStreamedLast(r: Roster, e: string)
    requires e != ""
    ensures Push(r, Some(e)).Ok?
    ensures Elements(Push(r, Some(e)).value) == Elements(r) + [e]
  {
  }

  /** The stream of a non-empty roster is the stream of what popping
      leaves, followed by the popped element. */
  lemma StreamEndsWithPopped(r: Roster)
    requires Size(r) > 0
    ensures Elements(r) == Elements(Pop(r).1) + [Pop(r).0]
  {
  }

  /** Equality is name equality: reflexive, symmetric, transitive, false
      against null, and blind to the elements. */
  lemma EqualsIsNameEquality(a: Roster, b: Roster, c: Roster)
    ensures !Equals(a, None)
    ensures Equals(a, Some(a))
    ensures Equals(a, Some(b)) <==> Equals(b, Some(a))
    ensures Equals(a, Some(b)) && Equals(b, Some(c)) ==> Equals(a, Some(c))
    ensures Equals(a, Some(b)) <==> a.name == b.name
    ensures forall es :: Equals(a, Some(Roster(a.name, es)))
  {
  }

  /** Equal rosters have equal hash codes, whatever their elements. */
  lemma HashCodeAgreesWithEquals(a: Roster, b: Roster, stringHash: string -> int)
    requires Equals(a, Some(b))
    ensures HashCode(a, stringHash) == HashCode(b, stringHash)
  {
  }
}
