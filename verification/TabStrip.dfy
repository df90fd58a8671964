/** The desktop shell's tab strip: an order, a tab table and optional groups. */
module Tabs {
  import opened Moves

  datatype Tab = Tab(id: string, title: string, url: string, audible: bool, muted: bool, pinned: bool)

  datatype TabGroup = TabGroup(id: string, name: string, color: string, collapsed: bool, tabIds: seq<string>)

  /** The whole state of a strip. */
  datatype Strip = Strip(tabs: map<string, Tab>, order: seq<string>, groups: map<string, TabGroup>)

  const EMPTY := Strip(map[], [], map[])

  /** `filter((t) => t !== id)`. */
  function Without(ids: seq<string>, id: string): (r: seq<string>)
    ensures forall x :: x in r <==> x in ids && x != id
  {
    if ids == [] then [] else (if ids[0] != id then [ids[0]] else []) + Without(ids[1..], id)
  }

  datatype Operation =
    | AddTab(tab: Tab)
    | CloseTab(id: string)
    | MoveTab(id: string, toIndex: int)
    | CreateGroup(group: TabGroup, tabIds: seq<string>)
    | ToggleCollapse(groupId: string)
    | SetMuted(tabId: string, muted: bool)

  function MovedOrder(order: seq<string>, id: string, toIndex: int): seq<string> {
    if id !in order then order else MoveTo(order, IndexOf(order, id), Clamp(toIndex, |order| - 1))
  }

  function Apply(s: Strip, op: Operation): Strip {
    match op
    case AddTab(tab) => s.(tabs := s.tabs[tab.id := tab], order := s.order + [tab.id])
    case CloseTab(id) =>
      Strip(s.tabs - {id}, Without(s.order, id),
            map g | g in s.groups :: s.groups[g].(tabIds := Without(s.groups[g].tabIds, id)))
    case MoveTab(id, toIndex) => s.(order := MovedOrder(s.order, id, toIndex))
    case CreateGroup(group, tabIds) => s.(groups := s.groups[group.id := group.(tabIds := tabIds)])
    case ToggleCollapse(g) =>
      if g in s.groups then s.(groups := s.groups[g := s.groups[g].(collapsed := !s.groups[g].collapsed)]) else s
    case SetMuted(id, muted) =>
      if id in s.tabs then s.(tabs := s.tabs[id := s.tabs[id].(muted := muted)]) else s
  }

  class TabStrip {
    var tabs: map<string, Tab>
    var order: seq<string>
    var groups: map<string, TabGroup>

    ghost function State(): Strip
      reads this
    {
      Strip(tabs, order, groups)
    }

    constructor ()
      ensures State() == EMPTY
    {
      tabs, order, groups := map[], [], map[];
    }

    method AddTab(tab: Tab)
      modifies this
      ensures State() == Apply(old(State()), Operation.AddTab(tab))
    {
      tabs := tabs[tab.id := tab];
      order := order + [tab.id];
    }

    method CloseTab(id: string)
      modifies this
      ensures State() == Apply(old(State()), Operation.CloseTab(id))
    {
      tabs := tabs - {id};
      order := Without(order, id);
      var todo := groups.Keys;
      while todo != {}
        invariant todo <= groups.Keys == old(groups).Keys
        invariant tabs == old(tabs) - {id} && order == Without(old(order), id)
        invariant forall g :: g in todo ==> groups[g] == old(groups)[g]
        invariant forall g :: g in groups && g !in todo ==>
                    groups[g] == old(groups)[g].(tabIds := Without(old(groups)[g].tabIds, id))
        decreases todo
      {
        var g :| g in todo;
        groups := groups[g := groups[g].(tabIds := Without(groups[g].tabIds, id))];
        todo := todo - {g};
      }
    }

    method MoveTab(id: string, toIndex: int)
      modifies this
      ensures State() == Apply(old(State()), Operation.MoveTab(id, toIndex))
    {
      var from := IndexOf(order, id);
      if from == |order| {
        return;
      }
      order := RemoveAt(order, from);
      var clamped := Clamp(toIndex, |order|);
      order := InsertAt(order, clamped, id);
    }

    method CreateGroup(group: TabGroup, tabIds: seq<string>)
      modifies this
      ensures State() == Apply(old(State()), Operation.CreateGroup(group, tabIds))
    {
      groups := groups[group.id := group.(tabIds := tabIds)];
    }

    method ToggleCollapse(groupId: string)
      modifies this
      ensures State() == Apply(old(State()), Operation.ToggleCollapse(groupId))
    {
      if groupId in groups {
        groups := groups[groupId := groups[groupId].(collapsed := !groups[groupId].collapsed)];
      }
    }

    method SetMuted(tabId: string, muted: bool)
      modifies this
      ensures State() == Apply(old(State()), Operation.SetMuted(tabId, muted))
    {
      if tabId in tabs {
        tabs := tabs[tabId := tabs[tabId].(muted := muted)];
      }
    }
  }

  // ---------------------------------------------------------------- consistency

  /** The order lists every open tab once, and groups name open tabs only. */
  ghost predicate Consistent(s: Strip) {
    && Distinct(s.order)
    && (forall id :: id in s.order <==> id in s.tabs)
    && (forall g :: g in s.groups ==> forall id :: id in s.groups[g].tabIds ==> id in s.tabs)
  }

  /** What callers must respect: new tabs have new ids, and groups are made from open tabs. */
  predicate Respectful(s: Strip, op: Operation) {
    match op
    case AddTab(tab) => tab.id !in s.tabs
    case CreateGroup(_, tabIds) => forall i :: 0 <= i < |tabIds| ==> tabIds[i] in s.tabs
    case _ => true
  }

  lemma {:induction false} WithoutKeepsDistinct(ids: seq<string>, id: string)
    requires Distinct(ids)
    ensures Distinct(Without(ids, id))
  {
    if ids != [] {
      WithoutKeepsDistinct(ids[1..], id);
      var rest := Without(ids[1..], id);
      forall j | 0 <= j < |rest|
        ensures rest[j] != ids[0]
      {
        assert rest[j] in rest;
      }
    }
  }

  lemma AppendKeepsDistinct(order: seq<string>, id: string)
    requires Distinct(order)
    ensures Distinct(order + [id]) <==> id !in order
  {
    var t := order + [id];
    if id in order {
      var i :| 0 <= i < |order| && order[i] == id;
      assert t[i] == t[|order|];
    } else {
      assert forall i :: 0 <= i < |order| ==> order[i] in order;
    }
  }

  lemma AddKeepsConsistencyExactly(s: Strip, tab: Tab)
    requires Consistent(s)
    ensures Consistent(Apply(s, AddTab(tab))) <==> tab.id !in s.tabs
  {
    AppendKeepsDistinct(s.order, tab.id);
  }

  lemma GroupKeepsConsistencyExactly(s: Strip, group: TabGroup, tabIds: seq<string>)
    requires Consistent(s)
    ensures Consistent(Apply(s, CreateGroup(group, tabIds))) <==> Respectful(s, CreateGroup(group, tabIds))
  {
    var t := Apply(s, CreateGroup(group, tabIds));
    assert t.groups[group.id].tabIds == tabIds;
    assert forall i :: 0 <= i < |tabIds| ==> tabIds[i] in tabIds;
  }

  lemma MoveKeepsConsistency(s: Strip, id: string, toIndex: int)
    requires Consistent(s)
    ensures Consistent(Apply(s, MoveTab(id, toIndex)))
  {
    if id in s.order {
      MoveKeepsDistinct(s.order, IndexOf(s.order, id), Clamp(toIndex, |s.order| - 1));
    }
  }

  /** A consistent strip stays consistent exactly when the operation is respectful. */
  lemma StepKeepsConsistencyExactly(s: Strip, op: Operation)
    requires Consistent(s)
    ensures Consistent(Apply(s, op)) <==> Respectful(s, op)
  {
    match op
    case AddTab(tab) => AddKeepsConsistencyExactly(s, tab);
    case CloseTab(id) => WithoutKeepsDistinct(s.order, id);
    case MoveTab(id, toIndex) => MoveKeepsConsistency(s, id, toIndex);
    case CreateGroup(group, tabIds) => GroupKeepsConsistencyExactly(s, group, tabIds);
    case ToggleCollapse(_) =>
    case SetMuted(_, _) =>
  }

  function After(s: Strip, ops: seq<Operation>): Strip
    decreases |ops|
  {
    if ops == [] then s else After(Apply(s, ops[0]), ops[1..])
  }

  predicate AllRespectful(s: Strip, ops: seq<Operation>)
    decreases |ops|
  {
    ops == [] || (Respectful(s, ops[0]) && AllRespectful(Apply(s, ops[0]), ops[1..]))
  }

  /** Over every run of respectful operations the strip stays consistent. */
  lemma {:induction false} RunKeepsConsistency(s: Strip, ops: seq<Operation>)
    requires Consistent(s) && AllRespectful(s, ops)
    ensures Consistent(After(s, ops))
    decreases |ops|
  {
    if ops != [] {
      StepKeepsConsistencyExactly(s, ops[0]);
      RunKeepsConsistency(Apply(s, ops[0]), ops[1..]);
    }
  }

  /**
    Dragging a tab: the order is permuted, the tab lands at the clamped index, the others keep
    their relative order, and nothing else changes.
    */
  lemma MoveTabIsExact(s: Strip, id: string, toIndex: int)
    requires id in s.order
    ensures var t, from, to := Apply(s, MoveTab(id, toIndex)), IndexOf(s.order, id), Clamp(toIndex, |s.order| - 1);
            && multiset(t.order) == multiset(s.order)
            && t.order[to] == id
            && RemoveAt(t.order, to) == RemoveAt(s.order, from)
            && t.tabs == s.tabs && t.groups == s.groups
  {
    MoveIsExact(s.order, IndexOf(s.order, id), Clamp(toIndex, |s.order| - 1));
  }

  lemma MovedOrderUndone(order: seq<string>, id: string, from: nat, to: nat, back: int)
    requires Distinct(order) && from < |order| && order[from] == id && to < |order|
    ensures MovedOrder(MoveTo(order, from, to), id, back) == order <==> Clamp(back, |order| - 1) == from
  {
    MoveKeepsDistinct(order, from, to);
    MoveBackExactly(order, from, to, Clamp(back, |order| - 1));
  }

  /** A second drag undoes the first exactly when it goes to the old index, clamping included. */
  lemma MoveTabUndoneExactly(s: Strip, id: string, toIndex: int, back: int)
    requires Distinct(s.order) && id in s.order
    ensures Apply(Apply(s, MoveTab(id, toIndex)), MoveTab(id, back)) == s
       <==> Clamp(back, |s.order| - 1) == IndexOf(s.order, id)
  {
    var from, to := IndexOf(s.order, id), Clamp(toIndex, |s.order| - 1);
    var t := s.(order := MoveTo(s.order, from, to));
    assert Apply(s, MoveTab(id, toIndex)) == t;
    assert Apply(t, MoveTab(id, back)) == t.(order := MovedOrder(t.order, id, back));
    MovedOrderUndone(s.order, id, from, to, back);
  }

  // ---------------------------------------------------------------- what each operation touches

  lemma {:induction false} WithoutIsOthers(a: seq<string>, id: string, b: seq<string>)
    requires id !in a && id !in b
    ensures Without(a, id) == a
    ensures Without(a + ([id] + b), id) == a + b
  {
    if a == [] {
      assert a + ([id] + b) == [id] + b;
      KeepsOthers(b, id);
      assert ([id] + b)[1..] == b;
    } else {
      WithoutIsOthers(a[1..], id, b);
      assert (a + ([id] + b))[1..] == a[1..] + ([id] + b);
      assert a == [a[0]] + a[1..] && a + b == [a[0]] + (a[1..] + b);
    }
  }

  lemma {:induction false} KeepsOthers(ids: seq<string>, id: string)
    requires id !in ids
    ensures Without(ids, id) == ids
  {
    if ids != [] {
      KeepsOthers(ids[1..], id);
      assert ids == [ids[0]] + ids[1..];
    }
  }

  /**
    Closing a tab: it goes from the table and from its place in the order, every other tab stays as it is and where it
    is, and every group keeps everything but that tab, its remaining members in their order.
    */
  lemma CloseTabIsExact(s: Strip, id: string, a: seq<string>, b: seq<string>)
    requires s.order == a + ([id] + b) && id !in a && id !in b
    ensures var t := Apply(s, CloseTab(id));
            && t.order == a + b
            && (forall x :: x in t.tabs <==> x in s.tabs && x != id)
            && (forall x :: x in t.tabs ==> t.tabs[x] == s.tabs[x])
            && (forall g :: g in t.groups <==> g in s.groups)
            && (forall g :: g in t.groups ==> t.groups[g].(tabIds := []) == s.groups[g].(tabIds := []))
            && (forall g :: g in t.groups && id !in s.groups[g].tabIds ==> t.groups[g] == s.groups[g])
  {
    WithoutIsOthers(a, id, b);
    forall g | g in s.groups && id !in s.groups[g].tabIds
      ensures Apply(s, CloseTab(id)).groups[g] == s.groups[g]
    {
      KeepsOthers(s.groups[g].tabIds, id);
    }
  }

  lemma CloseTabInGroup(s: Strip, id: string, g: string, a: seq<string>, b: seq<string>)
    requires g in s.groups && s.groups[g].tabIds == a + ([id] + b) && id !in a && id !in b
    ensures Apply(s, CloseTab(id)).groups[g].tabIds == a + b
  {
    WithoutIsOthers(a, id, b);
  }

  /** A new tab goes to the end of the order, a closed new tab leaves nothing behind. */
  lemma CloseUndoesAdd(s: Strip, tab: Tab)
    requires Consistent(s) && tab.id !in s.tabs
    ensures Apply(s, AddTab(tab)).order == s.order + [tab.id]
    ensures tab.id in Apply(s, AddTab(tab)).tabs && Apply(s, AddTab(tab)).tabs[tab.id] == tab
    ensures Apply(Apply(s, AddTab(tab)), CloseTab(tab.id)) == s
  {
    var t := Apply(s, AddTab(tab));
    CloseTabIsExact(t, tab.id, s.order, []);
    var u := Apply(t, CloseTab(tab.id));
    assert s.order + [] == s.order && t.order == s.order + ([tab.id] + []);
    assert u.tabs == s.tabs;
    assert u.groups == s.groups;
  }

  /** Creating a group stores its members in the order given, over whatever had that id, and touches nothing else. */
  lemma CreateGroupIsExact(s: Strip, group: TabGroup, tabIds: seq<string>)
    ensures var t := Apply(s, CreateGroup(group, tabIds));
            && t.tabs == s.tabs && t.order == s.order
            && (forall g :: g in t.groups <==> g in s.groups || g == group.id)
            && t.groups[group.id] == TabGroup(group.id, group.name, group.color, group.collapsed, tabIds)
            && (forall g :: g in s.groups && g != group.id ==> t.groups[g] == s.groups[g])
  {}

  /** Toggling twice is doing nothing; toggling once changes that flag of that group and nothing else. */
  lemma ToggleIsExact(s: Strip, g: string)
    ensures var t := Apply(s, ToggleCollapse(g));
            && Apply(t, ToggleCollapse(g)) == s
            && (t == s <==> g !in s.groups)
            && t.tabs == s.tabs && t.order == s.order && t.groups.Keys == s.groups.Keys
            && (forall h :: h in s.groups ==> t.groups[h].(collapsed := false) == s.groups[h].(collapsed := false))
            && (forall h :: h in s.groups && h != g ==> t.groups[h] == s.groups[h])
  {
    var t := Apply(s, ToggleCollapse(g));
    if g in s.groups {
      assert t.groups[g] != s.groups[g];
      assert Apply(t, ToggleCollapse(g)).groups == s.groups;
    }
  }

  /** Muting is remembered for that tab, whatever it was before, and changes nothing else. */
  lemma SetMutedIsExact(s: Strip, id: string, muted: bool, before: bool)
    ensures var t := Apply(s, SetMuted(id, muted));
            && Apply(Apply(s, SetMuted(id, before)), SetMuted(id, muted)) == t
            && (id in s.tabs ==> id in t.tabs && t.tabs[id].muted == muted)
            && t.order == s.order && t.groups == s.groups && t.tabs.Keys == s.tabs.Keys
            && (forall x :: x in s.tabs ==> t.tabs[x].(muted := false) == s.tabs[x].(muted := false))
            && (forall x :: x in s.tabs && x != id ==> t.tabs[x] == s.tabs[x])
  {}
}
