/** The iOS tab model: tabs with the pinned ones first. */
module TabModels {
  import opened Sorting
  import opened Wrappers

  datatype Tab = Tab(id: int, title: string, url: string, isPinned: bool)

  datatype Numbered = Numbered(offset: nat, element: Tab)

  function Enumerate(tabs: seq<Tab>, start: nat): (r: seq<Numbered>)
    ensures |r| == |tabs|
    ensures forall i :: 0 <= i < |r| ==> r[i] == Numbered(start + i, tabs[i])
  {
    if tabs == [] then [] else [Numbered(start, tabs[0])] + Enumerate(tabs[1..], start + 1)
  }

  /** The comparator of `sortPinnedFirst`, as "comes before". */
  predicate Before(lhs: Numbered, rhs: Numbered) {
    if lhs.element.isPinned != rhs.element.isPinned then lhs.element.isPinned && !rhs.element.isPinned
    else lhs.offset < rhs.offset
  }

  /** "Does not come after", which is what a sort by `Before` establishes. */
  predicate NotAfter(lhs: Numbered, rhs: Numbered) {
    !Before(rhs, lhs)
  }

  function SortPinnedFirst(tabs: seq<Tab>): seq<Tab> {
    Map((n: Numbered) => n.element, Sort(NotAfter, Enumerate(tabs, 0)))
  }

  function WithPin(tabs: seq<Tab>, pinned: bool): seq<Tab> {
    if tabs == [] then [] else (if tabs[0].isPinned == pinned then [tabs[0]] else []) + WithPin(tabs[1..], pinned)
  }

  /** The pinned tabs in their order, then the others in theirs. */
  function PinnedFirst(tabs: seq<Tab>): seq<Tab> {
    WithPin(tabs, true) + WithPin(tabs, false)
  }

  function Remove(tabs: seq<Tab>, id: int): (r: seq<Tab>)
    ensures forall t :: t in r <==> t in tabs && t.id != id
  {
    if tabs == [] then [] else (if tabs[0].id != id then [tabs[0]] else []) + Remove(tabs[1..], id)
  }

  /** `firstIndex(where:)`; the length if there is none. */
  function FirstIndex(tabs: seq<Tab>, id: int): (i: nat)
    ensures i <= |tabs|
    ensures i < |tabs| ==> tabs[i].id == id
    ensures forall k :: 0 <= k < i ==> tabs[k].id != id
  {
    if tabs == [] || tabs[0].id == id then 0 else 1 + FirstIndex(tabs[1..], id)
  }

  class TabModel {
    var tabs: seq<Tab>

    constructor ()
      ensures tabs == []
    {
      tabs := [];
    }

    method Add(tab: Tab)
      modifies this
      ensures tabs == PinnedFirst(old(tabs) + [tab])
    {
      tabs := tabs + [tab];
      SortIsPinnedFirst(tabs);
      tabs := SortPinnedFirst(tabs);
    }

    method Close(id: int)
      modifies this
      ensures tabs == Remove(old(tabs), id)
    {
      tabs := Remove(tabs, id);
    }

    method Pin(id: int, pinned: bool)
      modifies this
      ensures var i := FirstIndex(old(tabs), id);
              tabs == if i == |old(tabs)| then old(tabs)
                      else PinnedFirst(old(tabs)[i := old(tabs)[i].(isPinned := pinned)])
    {
      var i := FirstIndex(tabs, id);
      if i == |tabs| {
        return;
      }
      tabs := tabs[i := tabs[i].(isPinned := pinned)];
      SortIsPinnedFirst(tabs);
      tabs := SortPinnedFirst(tabs);
    }
  }

  // ---------------------------------------------------------------- the sort

  predicate PinOrder(a: Tab, b: Tab) {
    a.isPinned || !b.isPinned
  }

  lemma {:induction false} InsertPinned(x: Tab, p: seq<Tab>, u: seq<Tab>)
    requires forall i :: 0 <= i < |p| ==> p[i].isPinned
    requires forall i :: 0 <= i < |u| ==> !u[i].isPinned
    ensures Insert(PinOrder, x, p + u) == if x.isPinned then [x] + p + u else p + ([x] + u)
  {
    if p == [] {
      assert p + u == u && [] + ([x] + u) == [x] + u;
      if u == [] || PinOrder(x, u[0]) {
        assert [x] + p + u == [x] + u;
      }
    } else if !x.isPinned {
      InsertPinned(x, p[1..], u);
      assert (p + u)[1..] == p[1..] + u;
      assert [p[0]] + (p[1..] + ([x] + u)) == p + ([x] + u);
    } else {
      assert [x] + p + u == [x] + (p + u);
    }
  }

  lemma {:induction false} WithPinIs(tabs: seq<Tab>, pinned: bool)
    ensures forall i :: 0 <= i < |WithPin(tabs, pinned)| ==> WithPin(tabs, pinned)[i].isPinned == pinned
  {
    if tabs != [] {
      WithPinIs(tabs[1..], pinned);
    }
  }

  lemma {:induction false} SortByPin(tabs: seq<Tab>)
    ensures Sort(PinOrder, tabs) == PinnedFirst(tabs)
  {
    if tabs != [] {
      SortByPin(tabs[1..]);
      var p, u := WithPin(tabs[1..], true), WithPin(tabs[1..], false);
      WithPinIs(tabs[1..], true);
      WithPinIs(tabs[1..], false);
      InsertPinned(tabs[0], p, u);
    }
  }

  lemma {:induction false} ElementsOfEnumerate(tabs: seq<Tab>, start: nat)
    ensures Map((n: Numbered) => n.element, Enumerate(tabs, start)) == tabs
  {
    if tabs != [] {
      ElementsOfEnumerate(tabs[1..], start + 1);
      assert Enumerate(tabs, start)[1..] == Enumerate(tabs[1..], start + 1);
    }
  }

  /** The comparator sort puts the pinned tabs first and keeps the order otherwise. */
  lemma SortIsPinnedFirst(tabs: seq<Tab>)
    ensures SortPinnedFirst(tabs) == PinnedFirst(tabs)
  {
    MapOfSort((n: Numbered) => n.element, NotAfter, PinOrder, Enumerate(tabs, 0));
    ElementsOfEnumerate(tabs, 0);
    SortByPin(tabs);
  }

  // ---------------------------------------------------------------- runs

  datatype Operation = AddTab(tab: Tab) | CloseTab(id: int) | PinTab(id: int, pinned: bool)

  /** What the class methods do to the tabs. */
  function Apply(tabs: seq<Tab>, op: Operation): seq<Tab> {
    match op
    case AddTab(tab) => PinnedFirst(tabs + [tab])
    case CloseTab(id) => Remove(tabs, id)
    case PinTab(id, pinned) =>
      var i := FirstIndex(tabs, id);
      if i == |tabs| then tabs else PinnedFirst(tabs[i := tabs[i].(isPinned := pinned)])
  }

  function After(ops: seq<Operation>): seq<Tab>
    decreases |ops|
  {
    if ops == [] then [] else Apply(After(ops[..|ops| - 1]), ops[|ops| - 1])
  }

  /** No unpinned tab stands before a pinned one. */
  predicate Partitioned(tabs: seq<Tab>) {
    forall i, j :: 0 <= i < j < |tabs| && tabs[j].isPinned ==> tabs[i].isPinned
  }

  lemma PinnedFirstPartitions(tabs: seq<Tab>)
    ensures Partitioned(PinnedFirst(tabs))
  {
    WithPinIs(tabs, true);
    WithPinIs(tabs, false);
  }

  lemma PinOrderIsTotal()
    ensures TotalPreorder(PinOrder)
  {}

  lemma {:induction false} RemoveKeepsPartition(tabs: seq<Tab>, id: int)
    requires Partitioned(tabs)
    ensures Partitioned(Remove(tabs, id))
  {
    if tabs != [] {
      RemoveKeepsPartition(tabs[1..], id);
      var rest := Remove(tabs[1..], id);
      if !tabs[0].isPinned {
        forall j | 0 <= j < |rest|
          ensures !rest[j].isPinned
        {
          assert rest[j] in tabs[1..];
        }
      }
    }
  }

  /** In every reachable state the pinned tabs come first, and sorting again changes nothing. */
  lemma {:induction false} ReachableIsSorted(ops: seq<Operation>)
    ensures Partitioned(After(ops))
    ensures SortPinnedFirst(After(ops)) == After(ops) == PinnedFirst(After(ops))
    decreases |ops|
  {
    if ops != [] {
      var before, op := After(ops[..|ops| - 1]), ops[|ops| - 1];
      ReachableIsSorted(ops[..|ops| - 1]);
      match op
      case AddTab(tab) => PinnedFirstPartitions(before + [tab]);
      case CloseTab(id) => RemoveKeepsPartition(before, id);
      case PinTab(id, pinned) =>
        var i := FirstIndex(before, id);
        if i < |before| {
          PinnedFirstPartitions(before[i := before[i].(isPinned := pinned)]);
        }
    }
    var tabs := After(ops);
    SortIsPinnedFirst(tabs);
    PinOrderIsTotal();
    SortOfSorted(PinOrder, tabs);
    SortByPin(tabs);
  }

  // ---------------------------------------------------------------- what each operation touches

  lemma {:induction false} RemoveOfOthers(tabs: seq<Tab>, id: int)
    requires forall t :: t in tabs ==> t.id != id
    ensures Remove(tabs, id) == tabs
  {
    if tabs != [] {
      assert tabs == [tabs[0]] + tabs[1..];
      RemoveOfOthers(tabs[1..], id);
    }
  }

  /** Closing takes out the tab with that id and leaves the others where they are. */
  lemma {:induction false} CloseIsExact(a: seq<Tab>, tab: Tab, b: seq<Tab>)
    requires (forall t :: t in a ==> t.id != tab.id) && forall t :: t in b ==> t.id != tab.id
    ensures Apply(a + ([tab] + b), CloseTab(tab.id)) == a + b
  {
    if a == [] {
      assert a + ([tab] + b) == [tab] + b && a + b == b;
      assert ([tab] + b)[1..] == b;
      RemoveOfOthers(b, tab.id);
    } else {
      CloseIsExact(a[1..], tab, b);
      assert (a + ([tab] + b))[1..] == a[1..] + ([tab] + b);
      assert a + b == [a[0]] + (a[1..] + b);
    }
  }

  lemma {:induction false} WithPinOfConcat(a: seq<Tab>, b: seq<Tab>, pinned: bool)
    ensures WithPin(a + b, pinned) == WithPin(a, pinned) + WithPin(b, pinned)
  {
    if a == [] {
      assert a + b == b;
    } else {
      WithPinOfConcat(a[1..], b, pinned);
      assert (a + b)[1..] == a[1..] + b;
      Regroup(if a[0].isPinned == pinned then [a[0]] else [], WithPin(a[1..], pinned), WithPin(b, pinned));
    }
  }

  lemma {:induction false} WithPinOfAlike(tabs: seq<Tab>, pinned: bool)
    requires forall t :: t in tabs ==> t.isPinned == pinned
    ensures WithPin(tabs, pinned) == tabs && WithPin(tabs, !pinned) == []
  {
    if tabs != [] {
      assert tabs == [tabs[0]] + tabs[1..];
      WithPinOfAlike(tabs[1..], pinned);
    }
  }

  lemma WithPinOfAdded(pinned: seq<Tab>, others: seq<Tab>, tab: Tab, pin: bool)
    requires (forall t :: t in pinned ==> t.isPinned) && forall t :: t in others ==> !t.isPinned
    ensures WithPin(pinned + others + [tab], pin)
         == (if pin then pinned else others) + if tab.isPinned == pin then [tab] else []
  {
    WithPinOfAlike(pinned, true);
    WithPinOfAlike(others, false);
    WithPinOfAlike([tab], tab.isPinned);
    WithPinOfConcat(pinned + others, [tab], pin);
    WithPinOfConcat(pinned, others, pin);
    assert pinned + [] == pinned && [] + others == others;
  }

  lemma PlaceOfAdded(pinned: seq<Tab>, others: seq<Tab>, tab: Tab)
    ensures (pinned + [tab]) + (others + []) == pinned + [tab] + others
    ensures (pinned + []) + (others + [tab]) == pinned + others + [tab]
  {}

  /** A new pinned tab goes behind the pinned ones, any other to the very end. */
  lemma AddIsExact(pinned: seq<Tab>, others: seq<Tab>, tab: Tab)
    requires (forall t :: t in pinned ==> t.isPinned) && forall t :: t in others ==> !t.isPinned
    ensures Apply(pinned + others, AddTab(tab))
         == if tab.isPinned then pinned + [tab] + others else pinned + others + [tab]
  {
    WithPinOfAdded(pinned, others, tab, true);
    WithPinOfAdded(pinned, others, tab, false);
    PlaceOfAdded(pinned, others, tab);
  }
}
