/**
  Stable sorting by an arbitrary order. The library sorts used by the repository are all stable,
  and a stable sort has only one possible outcome, so one definition serves for all of them.
  */
module Sorting {

  type Order<!T> = (T, T) -> bool

  /** A reflexive comparison in which any two elements are related, and which is transitive. */
  ghost predicate TotalPreorder<T(!new)>(le: Order<T>) {
    && (forall x, y :: le(x, y) || le(y, x))
    && (forall x, y, z :: le(x, y) && le(y, z) ==> le(x, z))
  }

  predicate Equivalent<T>(le: Order<T>, x: T, y: T) {
    le(x, y) && le(y, x)
  }

  ghost predicate Sorted<T>(le: Order<T>, s: seq<T>) {
    forall i, j :: 0 <= i < j < |s| ==> le(s[i], s[j])
  }

  /** The elements of `s` that are equivalent to `x`, in order. */
  function Peers<T>(le: Order<T>, s: seq<T>, x: T): seq<T> {
    if s == [] then [] else (if Equivalent(le, s[0], x) then [s[0]] else []) + Peers(le, s[1..], x)
  }

  /** `r` is `s` sorted stably: in order, with each class of equivalent elements exactly as in `s`. */
  ghost predicate IsStableSort<T(!new)>(le: Order<T>, s: seq<T>, r: seq<T>) {
    Sorted(le, r) && forall x :: Peers(le, r, x) == Peers(le, s, x)
  }

  function Insert<T>(le: Order<T>, x: T, s: seq<T>): (r: seq<T>)
    ensures |r| == |s| + 1
  {
    if s == [] then [x]
    else if le(x, s[0]) then [x] + s
    else [s[0]] + Insert(le, x, s[1..])
  }

  function Sort<T>(le: Order<T>, s: seq<T>): (r: seq<T>)
    ensures |r| == |s|
  {
    if s == [] then [] else Insert(le, s[0], Sort(le, s[1..]))
  }

  lemma {:induction false} InsertElements<T>(le: Order<T>, x: T, s: seq<T>)
    ensures multiset(Insert(le, x, s)) == multiset(s) + multiset{x}
  {
    if s != [] && !le(x, s[0]) {
      InsertElements(le, x, s[1..]);
      assert s == [s[0]] + s[1..];
    }
  }

  /** Sorting permutes. */
  lemma {:induction false} SortElements<T>(le: Order<T>, s: seq<T>)
    ensures multiset(Sort(le, s)) == multiset(s)
  {
    if s != [] {
      SortElements(le, s[1..]);
      InsertElements(le, s[0], Sort(le, s[1..]));
      assert s == [s[0]] + s[1..];
    }
  }

  lemma SortMember<T>(le: Order<T>, s: seq<T>, k: nat)
    requires k < |s|
    ensures Sort(le, s)[k] in s
  {
    SortElements(le, s);
    assert Sort(le, s)[k] in multiset(Sort(le, s));
  }

  // ---------------------------------------------------------------- the sort is a stable sort

  lemma {:induction false} InsertSorted<T(!new)>(le: Order<T>, x: T, s: seq<T>)
    requires TotalPreorder(le) && Sorted(le, s)
    ensures Sorted(le, Insert(le, x, s))
  {
    if s != [] && !le(x, s[0]) {
      var rest := Insert(le, x, s[1..]);
      InsertSorted(le, x, s[1..]);
      InsertElements(le, x, s[1..]);
      forall j | 0 <= j < |rest|
        ensures le(s[0], rest[j])
      {
        assert rest[j] in multiset(rest);
        assert rest[j] == x || rest[j] in s[1..];
      }
    }
  }

  lemma {:induction false} SortSorted<T(!new)>(le: Order<T>, s: seq<T>)
    requires TotalPreorder(le)
    ensures Sorted(le, Sort(le, s))
  {
    if s != [] {
      SortSorted(le, s[1..]);
      InsertSorted(le, s[0], Sort(le, s[1..]));
    }
  }

  /** An element that must go after `z` shares no class with it. */
  lemma ClassesApart<T(!new)>(le: Order<T>, x: T, z: T, y: T)
    requires TotalPreorder(le) && !le(x, z)
    ensures !(Equivalent(le, x, y) && Equivalent(le, z, y))
  {}

  lemma {:induction false} InsertPeers<T>(le: Order<T>, x: T, s: seq<T>, y: T)
    requires forall k :: 0 <= k < |s| && !le(x, s[k]) ==> !(Equivalent(le, x, y) && Equivalent(le, s[k], y))
    ensures Peers(le, Insert(le, x, s), y) == (if Equivalent(le, x, y) then [x] else []) + Peers(le, s, y)
  {
    var r := Insert(le, x, s);
    if s == [] || le(x, s[0]) {
      assert r[1..] == s;
    } else {
      assert r[0] == s[0] && r[1..] == Insert(le, x, s[1..]);
      InsertPeers(le, x, s[1..], y);
      if Equivalent(le, s[0], y) {
        assert !Equivalent(le, x, y);
      }
    }
  }

  lemma {:induction false} SortPeers<T(!new)>(le: Order<T>, s: seq<T>, y: T)
    requires TotalPreorder(le)
    ensures Peers(le, Sort(le, s), y) == Peers(le, s, y)
  {
    if s != [] {
      SortPeers(le, s[1..], y);
      var sorted := Sort(le, s[1..]);
      forall k | 0 <= k < |sorted| && !le(s[0], sorted[k])
        ensures !(Equivalent(le, s[0], y) && Equivalent(le, sorted[k], y))
      {
        ClassesApart(le, s[0], sorted[k], y);
      }
      InsertPeers(le, s[0], sorted, y);
    }
  }

  lemma SortIsStable<T(!new)>(le: Order<T>, s: seq<T>)
    requires TotalPreorder(le)
    ensures IsStableSort(le, s, Sort(le, s))
  {
    SortSorted(le, s);
    forall x
      ensures Peers(le, Sort(le, s), x) == Peers(le, s, x)
    {
      SortPeers(le, s, x);
    }
  }

  // ---------------------------------------------------------------- and the only one

  lemma {:induction false} PeerOfMember<T(!new)>(le: Order<T>, s: seq<T>, x: T)
    requires TotalPreorder(le)
    ensures Peers(le, s, x) == [] <==> forall i :: 0 <= i < |s| ==> !Equivalent(le, s[i], x)
  {
    if s != [] {
      PeerOfMember(le, s[1..], x);
    }
  }

  lemma {:induction false} PeersOfAppended<T>(le: Order<T>, s: seq<T>, x: T, y: T)
    ensures Peers(le, s + [x], y) == Peers(le, s, y) + (if Equivalent(le, x, y) then [x] else [])
  {
    if s == [] {
      assert [] + [x] == [x] && [x][1..] == [];
    } else {
      PeersOfAppended(le, s[1..], x, y);
      assert (s + [x])[1..] == s[1..] + [x];
    }
  }

  /** Two sorted sequences with the same classes start with the same element. */
  lemma SameHead<T(!new)>(le: Order<T>, r: seq<T>, q: seq<T>)
    requires TotalPreorder(le) && Sorted(le, r) && Sorted(le, q)
    requires r != [] && forall x :: Peers(le, r, x) == Peers(le, q, x)
    ensures q != [] && q[0] == r[0]
  {
    PeerOfMember(le, r, r[0]);
    PeerOfMember(le, q, r[0]);
    assert Peers(le, q, r[0]) != [];
    var i :| 0 <= i < |q| && Equivalent(le, q[i], r[0]);
    PeerOfMember(le, q, q[0]);
    PeerOfMember(le, r, q[0]);
    assert Equivalent(le, q[0], q[0]);
    var j :| 0 <= j < |r| && Equivalent(le, r[j], q[0]);
    assert le(q[0], q[i]) && le(r[0], r[j]);
    assert Equivalent(le, q[0], r[0]);
    assert Peers(le, r, r[0])[0] == r[0];
    assert Peers(le, q, r[0])[0] == q[0];
  }

  /** A stable sort has only one outcome. */
  lemma {:induction false} StableSortUnique<T(!new)>(le: Order<T>, r: seq<T>, q: seq<T>)
    requires TotalPreorder(le) && Sorted(le, r) && Sorted(le, q)
    requires forall x :: Peers(le, r, x) == Peers(le, q, x)
    ensures r == q
    decreases |r|
  {
    if r == [] {
      if q != [] {
        SameHead(le, q, r);
      }
    } else {
      SameHead(le, r, q);
      forall x
        ensures Peers(le, r[1..], x) == Peers(le, q[1..], x)
      {
        assert Peers(le, r, x) == Peers(le, q, x);
        var head := if Equivalent(le, r[0], x) then [r[0]] else [];
        assert Peers(le, r[1..], x) == Peers(le, r, x)[|head|..];
        assert Peers(le, q[1..], x) == Peers(le, q, x)[|head|..];
      }
      StableSortUnique(le, r[1..], q[1..]);
    }
  }

  /** Whatever algorithm sorts stably, it computes `Sort`. */
  lemma AnyStableSortIsSort<T(!new)>(le: Order<T>, s: seq<T>, r: seq<T>)
    requires TotalPreorder(le)
    ensures IsStableSort(le, s, r) <==> r == Sort(le, s)
  {
    SortIsStable(le, s);
    if IsStableSort(le, s, r) {
      StableSortUnique(le, r, Sort(le, s));
    }
  }

  /** A sequence that is in order already is left alone. */
  lemma SortOfSorted<T(!new)>(le: Order<T>, s: seq<T>)
    requires TotalPreorder(le) && Sorted(le, s)
    ensures Sort(le, s) == s
  {
    AnyStableSortIsSort(le, s, s);
  }

  // ---------------------------------------------------------------- orders without ties

  /** Only equal elements are equivalent. */
  ghost predicate Antisymmetric<T(!new)>(le: Order<T>) {
    forall x, y :: Equivalent(le, x, y) ==> x == y
  }

  lemma {:induction false} PeersCount<T(!new)>(le: Order<T>, s: seq<T>, x: T)
    requires Antisymmetric(le) && le(x, x)
    ensures Peers(le, s, x) == seq(multiset(s)[x], _ => x)
  {
    if s != [] {
      PeersCount(le, s[1..], x);
      assert multiset(s) == multiset{s[0]} + multiset(s[1..]) by {
        assert s == [s[0]] + s[1..];
      }
      assert Equivalent(le, s[0], x) <==> s[0] == x;
    }
  }

  /** Without ties the outcome depends only on which elements there are, not on their order. */
  lemma SortIsCanonical<T(!new)>(le: Order<T>, s: seq<T>, t: seq<T>)
    requires TotalPreorder(le) && Antisymmetric(le)
    ensures Sort(le, s) == Sort(le, t) <==> multiset(s) == multiset(t)
  {
    if multiset(s) == multiset(t) {
      SortIsStable(le, s);
      SortIsStable(le, t);
      forall x
        ensures Peers(le, Sort(le, s), x) == Peers(le, Sort(le, t), x)
      {
        PeersCount(le, s, x);
        PeersCount(le, t, x);
      }
      StableSortUnique(le, Sort(le, s), Sort(le, t));
    } else {
      SortElements(le, s);
      SortElements(le, t);
    }
  }

  // ---------------------------------------------------------------- decorated elements

  function Map<A, B>(f: A -> B, s: seq<A>): (r: seq<B>)
    ensures |r| == |s|
    ensures forall i :: 0 <= i < |s| ==> r[i] == f(s[i])
  {
    if s == [] then [] else [f(s[0])] + Map(f, s[1..])
  }

  lemma {:induction false} MapOfInsert<A, B>(f: A -> B, leA: Order<A>, leB: Order<B>, x: A, s: seq<A>)
    requires forall i :: 0 <= i < |s| ==> leA(x, s[i]) == leB(f(x), f(s[i]))
    ensures Map(f, Insert(leA, x, s)) == Insert(leB, f(x), Map(f, s))
  {
    if s == [] || leA(x, s[0]) {
      assert ([x] + s)[1..] == s;
    } else {
      MapOfInsert(f, leA, leB, x, s[1..]);
      assert Insert(leA, x, s)[1..] == Insert(leA, x, s[1..]);
    }
  }

  /**
    Sorting decorated elements by an order that breaks ties by position, and then dropping the
    decoration, is stable sorting without it.
    */
  lemma {:induction false} MapOfSort<A, B>(f: A -> B, leA: Order<A>, leB: Order<B>, s: seq<A>)
    requires forall i, j :: 0 <= i < j < |s| ==> leA(s[i], s[j]) == leB(f(s[i]), f(s[j]))
    ensures Map(f, Sort(leA, s)) == Sort(leB, Map(f, s))
  {
    if s != [] {
      var rest := s[1..];
      MapOfSort(f, leA, leB, rest);
      var sorted := Sort(leA, rest);
      forall k | 0 <= k < |sorted|
        ensures leA(s[0], sorted[k]) == leB(f(s[0]), f(sorted[k]))
      {
        SortMember(leA, rest, k);
        var j :| 0 <= j < |rest| && rest[j] == sorted[k];
        assert rest[j] == s[j + 1];
      }
      MapOfInsert(f, leA, leB, s[0], sorted);
    }
  }
}
