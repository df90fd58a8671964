/** Moving one element of a list to another index, as drag-and-drop does. */
module Moves {

  predicate Distinct<T(==)>(s: seq<T>) {
    forall i, j :: 0 <= i < j < |s| ==> s[i] != s[j]
  }

  function Clamp(v: int, high: nat): (r: nat)
    ensures r <= high
  {
    if v < 0 then 0 else if v > high then high else v
  }

  /** `splice(i, 1)`. */
  function RemoveAt<T>(s: seq<T>, i: nat): (r: seq<T>)
    requires i < |s|
    ensures |r| == |s| - 1
  {
    s[..i] + s[i + 1..]
  }

  /** `splice(i, 0, x)`. */
  function InsertAt<T>(s: seq<T>, i: nat, x: T): (r: seq<T>)
    requires i <= |s|
    ensures |r| == |s| + 1
  {
    s[..i] + [x] + s[i..]
  }

  function MoveTo<T>(s: seq<T>, i: nat, j: nat): (r: seq<T>)
    requires i < |s| && j < |s|
    ensures |r| == |s|
  {
    InsertAt(RemoveAt(s, i), j, s[i])
  }

  function IndexOf<T(==)>(s: seq<T>, x: T): (i: nat)
    ensures i <= |s|
    ensures i < |s| ==> s[i] == x
    ensures forall k :: 0 <= k < i ==> s[k] != x
    ensures i == |s| <==> x !in s
  {
    if s == [] || s[0] == x then 0 else 1 + IndexOf(s[1..], x)
  }

  lemma RemoveInsert<T>(s: seq<T>, i: nat, x: T)
    requires i <= |s|
    ensures RemoveAt(InsertAt(s, i, x), i) == s
  {}

  lemma InsertRemove<T>(s: seq<T>, i: nat)
    requires i < |s|
    ensures InsertAt(RemoveAt(s, i), i, s[i]) == s
  {}

  lemma InsertPermutes<T>(s: seq<T>, i: nat, x: T)
    requires i <= |s|
    ensures multiset(InsertAt(s, i, x)) == multiset(s) + multiset{x}
  {
    assert s == s[..i] + s[i..];
  }

  /** A move permutes the list, lands at its target and leaves the others in their order. */
  lemma MoveIsExact<T>(s: seq<T>, i: nat, j: nat)
    requires i < |s| && j < |s|
    ensures multiset(MoveTo(s, i, j)) == multiset(s)
    ensures MoveTo(s, i, j)[j] == s[i]
    ensures RemoveAt(MoveTo(s, i, j), j) == RemoveAt(s, i)
  {
    InsertPermutes(RemoveAt(s, i), j, s[i]);
    InsertPermutes(RemoveAt(s, i), i, s[i]);
    InsertRemove(s, i);
    RemoveInsert(RemoveAt(s, i), j, s[i]);
  }

  /** The elements a move from `i` to `j` passes. */
  function Passed<T>(s: seq<T>, i: nat, j: nat): seq<T>
    requires i < |s| && j < |s|
  {
    if i < j then s[i + 1..j + 1] else s[j..i]
  }

  /** A move forwards changes places with the elements it passes, as one block, and with nothing else. */
  lemma MoveForwards<T>(s: seq<T>, i: nat, j: nat)
    requires i < j < |s|
    ensures s == s[..i] + ([s[i]] + Passed(s, i, j)) + s[j + 1..]
    ensures MoveTo(s, i, j) == s[..i] + (Passed(s, i, j) + [s[i]]) + s[j + 1..]
  {}

  /** So does a move backwards. */
  lemma MoveBackwards<T>(s: seq<T>, i: nat, j: nat)
    requires j <= i < |s|
    ensures s == s[..j] + (Passed(s, i, j) + [s[i]]) + s[i + 1..]
    ensures MoveTo(s, i, j) == s[..j] + ([s[i]] + Passed(s, i, j)) + s[i + 1..]
  {}

  /** Two moves of one element are one move to where the second puts it. */
  lemma MoveTwice<T>(s: seq<T>, i: nat, j: nat, k: nat)
    requires i < |s| && j < |s| && k < |s|
    ensures MoveTo(MoveTo(s, i, j), j, k) == MoveTo(s, i, k)
  {
    MoveIsExact(s, i, j);
  }

  /** Among distinct elements only a move to the same place changes nothing. */
  lemma StaysExactly<T>(s: seq<T>, i: nat, j: nat)
    requires Distinct(s) && i < |s| && j < |s|
    ensures MoveTo(s, i, j) == s <==> i == j
  {
    MoveIsExact(s, i, j);
    InsertRemove(s, i);
  }

  /** Among distinct elements a move is undone by the move back and by no other. */
  lemma MoveBackExactly<T>(s: seq<T>, i: nat, j: nat, k: nat)
    requires Distinct(s) && i < |s| && j < |s| && k < |s|
    ensures MoveTo(MoveTo(s, i, j), j, k) == s <==> k == i
  {
    MoveIsExact(s, i, j);
    MoveIsExact(MoveTo(s, i, j), j, k);
    InsertRemove(s, i);
    if MoveTo(MoveTo(s, i, j), j, k) == s {
      assert s[k] == s[i];
    }
  }

  lemma {:induction false} CountOfMember<T>(s: seq<T>)
    requires Distinct(s)
    ensures forall x :: multiset(s)[x] <= 1
  {
    if s != [] {
      CountOfMember(s[1..]);
      assert s == [s[0]] + s[1..];
      assert s[0] !in s[1..];
    }
  }

  lemma CountOfRepeated<T>(s: seq<T>, i: nat, j: nat)
    requires i < j < |s| && s[i] == s[j]
    ensures multiset(s)[s[i]] >= 2
  {
    assert s == s[..j] + s[j..];
    assert s[i] in s[..j] && s[j] in s[j..];
  }

  /** Being distinct depends on the elements, not on their order. */
  lemma DistinctPermutes<T>(s: seq<T>, t: seq<T>)
    requires Distinct(s) && multiset(s) == multiset(t)
    ensures Distinct(t)
  {
    CountOfMember(s);
    forall i, j | 0 <= i < j < |t|
      ensures t[i] != t[j]
    {
      if t[i] == t[j] {
        CountOfRepeated(t, i, j);
      }
    }
  }

  /** A move keeps elements distinct, and the moved one is found at its new place. */
  lemma MoveKeepsDistinct<T>(s: seq<T>, i: nat, j: nat)
    requires Distinct(s) && i < |s| && j < |s|
    ensures Distinct(MoveTo(s, i, j))
    ensures IndexOf(MoveTo(s, i, j), s[i]) == j
    ensures forall x :: x in MoveTo(s, i, j) <==> x in s
  {
    MoveIsExact(s, i, j);
    DistinctPermutes(s, MoveTo(s, i, j));
    forall x
      ensures x in MoveTo(s, i, j) <==> x in s
    {
      assert x in s <==> x in multiset(s);
      assert x in MoveTo(s, i, j) <==> x in multiset(MoveTo(s, i, j));
    }
  }

  // ---------------------------------------------------------------- moving by an amount

  /** Where an element at `i` of `n` ends up after a move by `delta`. */
  function Target(i: nat, n: nat, delta: int): (j: nat)
    requires i < n
    ensures j < n
  {
    Clamp(i + delta, n - 1)
  }

  /** The move stays inside the list, or is clamped while crossing it from end to end. */
  predicate Undoable(i: nat, n: nat, delta: int) {
    0 <= i + delta < n || (delta > 0 && i == 0) || (delta < 0 && i == n - 1)
  }

  lemma UndoneIndex(i: nat, n: nat, delta: int)
    requires i < n
    ensures Target(Target(i, n, delta), n, -delta) == i <==> Undoable(i, n, delta)
  {}
}
