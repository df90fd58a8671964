/** Strict precedence between configuration layers: Enterprise over local admin over user over default. */
module Precedence {
  import opened Sorting
  import opened Wrappers

  datatype Layer = Default | User | LocalAdmin | Enterprise {
    function Rank(): nat {
      match this
      case Default => 0
      case User => 1
      case LocalAdmin => 2
      case Enterprise => 3
    }

    function Name(): string {
      match this
      case Default => "default"
      case User => "user"
      case LocalAdmin => "local_admin"
      case Enterprise => "enterprise"
    }
  }

  /** A value together with the layer that set it. */
  datatype Layered<+V> = Layered(layer: Layer, value: V)

  // ---------------------------------------------------------------- the trace of one key

  function LayerOrder<V>(): Order<Layered<V>> {
    (a: Layered<V>, b: Layered<V>) => a.layer.Rank() <= b.layer.Rank()
  }

  /** `retain(|lv| lv.layer != layer)`. */
  function Without<V>(trace: seq<Layered<V>>, layer: Layer): (r: seq<Layered<V>>)
    ensures forall i :: 0 <= i < |r| ==> r[i] in trace && r[i].layer != layer
    ensures forall i :: 0 <= i < |trace| && trace[i].layer != layer ==> trace[i] in r
  {
    if trace == [] then []
    else (if trace[0].layer != layer then [trace[0]] else []) + Without(trace[1..], layer)
  }

  /** Replace the value of one layer and keep the trace sorted. */
  function SetIn<V>(trace: seq<Layered<V>>, lv: Layered<V>): seq<Layered<V>> {
    Sort(LayerOrder(), Without(trace, lv.layer) + [lv])
  }

  /** The trace after a run of sets. */
  function TraceOf<V>(sets: seq<Layered<V>>): seq<Layered<V>>
    decreases |sets|
  {
    if sets == [] then [] else SetIn(TraceOf(sets[..|sets| - 1]), sets[|sets| - 1])
  }

  ghost predicate Ascending<V>(trace: seq<Layered<V>>) {
    forall i, j :: 0 <= i < j < |trace| ==> trace[i].layer.Rank() < trace[j].layer.Rank()
  }

  lemma RanksDiffer(a: Layer, b: Layer)
    ensures a.Rank() == b.Rank() <==> a == b
  {}

  lemma AscendingTail<V>(trace: seq<Layered<V>>)
    requires trace != [] && Ascending(trace)
    ensures Ascending(trace[1..])
    ensures forall lv :: lv in trace[1..] ==> trace[0].layer.Rank() < lv.layer.Rank()
  {}

  lemma AscendingCons<V>(lv: Layered<V>, rest: seq<Layered<V>>)
    requires Ascending(rest) && forall x :: x in rest ==> lv.layer.Rank() < x.layer.Rank()
    ensures Ascending([lv] + rest)
  {}

  lemma {:induction false} WithoutAscending<V>(trace: seq<Layered<V>>, layer: Layer)
    requires Ascending(trace)
    ensures Ascending(Without(trace, layer))
    ensures forall lv :: lv in Without(trace, layer) <==> lv in trace && lv.layer != layer
  {
    if trace != [] {
      AscendingTail(trace);
      WithoutAscending(trace[1..], layer);
      AscendingCons(trace[0], Without(trace[1..], layer));
    }
  }

  /** Inserting a layer that is not there yet keeps the order strict. */
  lemma {:induction false} InsertAscending<V(!new)>(lv: Layered<V>, trace: seq<Layered<V>>)
    requires Ascending(trace) && forall x :: x in trace ==> x.layer != lv.layer
    ensures Ascending(Insert(LayerOrder(), lv, trace))
    ensures forall x :: x in Insert(LayerOrder(), lv, trace) <==> x == lv || x in trace
  {
    if trace != [] {
      RanksDiffer(lv.layer, trace[0].layer);
      AscendingTail(trace);
      if LayerOrder<V>()(lv, trace[0]) {
        AscendingCons(lv, trace);
      } else {
        var rest := Insert(LayerOrder(), lv, trace[1..]);
        InsertAscending(lv, trace[1..]);
        forall x | x in rest
          ensures trace[0].layer.Rank() < x.layer.Rank()
        {
          assert x == lv || x in trace[1..];
        }
        AscendingCons(trace[0], rest);
      }
    }
  }

  lemma LayerOrderIsTotal<V(!new)>()
    ensures TotalPreorder(LayerOrder<V>())
  {}

  lemma PeersOfInserted<V(!new)>(trace: seq<Layered<V>>, lv: Layered<V>, x: Layered<V>)
    requires Ascending(trace) && forall y :: y in trace ==> y.layer != lv.layer
    ensures Peers(LayerOrder(), Insert(LayerOrder(), lv, trace), x) == Peers(LayerOrder(), trace + [lv], x)
  {
    var le := LayerOrder<V>();
    forall k | 0 <= k < |trace|
      ensures !(Equivalent(le, lv, x) && Equivalent(le, trace[k], x))
    {
      RanksDiffer(trace[k].layer, lv.layer);
      assert trace[k] in trace;
    }
    InsertPeers(le, lv, trace, x);
    PeersOfAppended(le, trace, lv, x);
    LayerOrderIsTotal<V>();
    PeerOfMember(le, trace, x);
  }

  /** Sorting an ascending trace with one more layer at its end just inserts that layer. */
  lemma SortOfAppended<V(!new)>(trace: seq<Layered<V>>, lv: Layered<V>)
    requires Ascending(trace) && forall x :: x in trace ==> x.layer != lv.layer
    ensures Sort(LayerOrder(), trace + [lv]) == Insert(LayerOrder(), lv, trace)
  {
    var le := LayerOrder<V>();
    InsertAscending(lv, trace);
    forall x
      ensures Peers(le, Insert(le, lv, trace), x) == Peers(le, trace + [lv], x)
    {
      PeersOfInserted(trace, lv, x);
    }
    AscendingIsSorted(Insert(le, lv, trace));
    LayerOrderIsTotal<V>();
    AnyStableSortIsSort(le, trace + [lv], Insert(le, lv, trace));
  }

  lemma AscendingIsSorted<V(!new)>(trace: seq<Layered<V>>)
    requires Ascending(trace)
    ensures Sorted(LayerOrder(), trace)
  {}

  lemma SetInAscending<V(!new)>(trace: seq<Layered<V>>, lv: Layered<V>)
    requires Ascending(trace)
    ensures Ascending(SetIn(trace, lv))
    ensures forall x :: x in SetIn(trace, lv) <==> x == lv || (x in trace && x.layer != lv.layer)
  {
    var kept := Without(trace, lv.layer);
    WithoutAscending(trace, lv.layer);
    SortOfAppended(kept, lv);
    InsertAscending(lv, kept);
  }

  /** The latest value set at `layer`. */
  function Latest<V>(sets: seq<Layered<V>>, layer: Layer): Option<Layered<V>>
    decreases |sets|
  {
    if sets == [] then None
    else if sets[|sets| - 1].layer == layer then Some(sets[|sets| - 1])
    else Latest(sets[..|sets| - 1], layer)
  }

  /** After any run of sets the trace is strictly ascending and holds exactly the latest value of each layer. */
  lemma {:induction false} TraceHoldsLatest<V(!new)>(sets: seq<Layered<V>>)
    ensures Ascending(TraceOf(sets))
    ensures forall lv :: lv in TraceOf(sets) <==> Latest(sets, lv.layer) == Some(lv)
    decreases |sets|
  {
    if sets != [] {
      TraceHoldsLatest(sets[..|sets| - 1]);
      SetInAscending(TraceOf(sets[..|sets| - 1]), sets[|sets| - 1]);
    }
  }

  /** One more set changes the trace by that layer alone. */
  lemma TraceAfterSet<V(!new)>(sets: seq<Layered<V>>, lv: Layered<V>)
    ensures Ascending(TraceOf(sets)) && Ascending(TraceOf(sets + [lv]))
    ensures forall x :: x in TraceOf(sets + [lv]) <==> x == lv || (x in TraceOf(sets) && x.layer != lv.layer)
  {
    TraceHoldsLatest(sets);
    SetInAscending(TraceOf(sets), lv);
    assert (sets + [lv])[..|sets|] == sets;
  }

  lemma TraceNonEmpty<V>(sets: seq<Layered<V>>)
    ensures TraceOf(sets) == [] <==> sets == []
  {}

  /** The i-th set decides: no set has a higher layer, and no later one has the same. */
  ghost predicate Decides<V>(sets: seq<Layered<V>>, i: nat) {
    && i < |sets|
    && (forall j :: 0 <= j < |sets| ==> sets[j].layer.Rank() <= sets[i].layer.Rank())
    && (forall j :: i < j < |sets| ==> sets[j].layer != sets[i].layer)
  }

  /** The last entry of the trace. */
  function Winner<V>(sets: seq<Layered<V>>): Layered<V>
    requires sets != []
  {
    TraceNonEmpty(sets);
    TraceOf(sets)[|TraceOf(sets)| - 1]
  }

  lemma {:induction false} LatestIsLast<V>(sets: seq<Layered<V>>, i: nat)
    requires i < |sets|
    ensures Latest(sets, sets[i].layer).Some?
    ensures Latest(sets, sets[i].layer).value.layer == sets[i].layer
    ensures (forall j :: i < j < |sets| ==> sets[j].layer != sets[i].layer)
        ==> Latest(sets, sets[i].layer) == Some(sets[i])
    decreases |sets|
  {
    if i < |sets| - 1 && sets[|sets| - 1].layer != sets[i].layer {
      LatestIsLast(sets[..|sets| - 1], i);
    }
  }

  /** The last entry of the trace is the latest value of the highest layer that set anything. */
  lemma WinnerDecides<V(!new)>(sets: seq<Layered<V>>, i: nat)
    requires Decides(sets, i)
    ensures Winner(sets) == sets[i]
  {
    TraceHoldsLatest(sets);
    TraceNonEmpty(sets);
    var trace, w := TraceOf(sets), Winner(sets);
    LatestIsLast(sets, i);
    assert sets[i] in trace;
    var k :| 0 <= k < |trace| && trace[k] == sets[i];
    assert w in trace;
    LatestMember(sets, w.layer);
    RanksDiffer(w.layer, sets[i].layer);
  }

  lemma {:induction false} LatestMember<V>(sets: seq<Layered<V>>, layer: Layer)
    ensures Latest(sets, layer).Some? ==> exists j :: 0 <= j < |sets| && sets[j] == Latest(sets, layer).value
    ensures Latest(sets, layer).Some? ==> Latest(sets, layer).value.layer == layer
    decreases |sets|
  {
    if sets != [] {
      LatestMember(sets[..|sets| - 1], layer);
    }
  }

  /** Whenever anything was set, some set decides. */
  lemma {:induction false} SomeDecides<V>(sets: seq<Layered<V>>) returns (i: nat)
    requires sets != []
    ensures Decides(sets, i)
    decreases |sets|
  {
    var n := |sets| - 1;
    i := n;
    if n > 0 {
      var k := SomeDecides(sets[..n]);
      RanksDiffer(sets[n].layer, sets[k].layer);
      if sets[n].layer.Rank() < sets[k].layer.Rank() {
        i := k;
      }
    }
  }

  // ---------------------------------------------------------------- layer by layer

  lemma {:induction false} AscendingUnique<V>(a: seq<Layered<V>>, b: seq<Layered<V>>)
    requires Ascending(a) && Ascending(b) && forall lv :: lv in a <==> lv in b
    ensures a == b
    decreases |a|
  {
    assert a != [] ==> a[0] in a;
    assert b != [] ==> b[0] in b;
    if a != [] {
      RanksDiffer(a[0].layer, b[0].layer);
      assert a[0] == b[0];
      AscendingTail(a);
      AscendingTail(b);
      assert a == [a[0]] + a[1..] && b == [b[0]] + b[1..];
      forall lv
        ensures lv in a[1..] <==> lv in b[1..]
      {
        assert lv in a[1..] <==> lv in a && lv != a[0];
        assert lv in b[1..] <==> lv in b && lv != b[0];
      }
      AscendingUnique(a[1..], b[1..]);
    }
  }

  /** The latest values from the lowest layer to the highest, by name. */
  function LatestByLayer<V>(sets: seq<Layered<V>>): seq<Layered<V>> {
    Present(Latest(sets, Default)) + Present(Latest(sets, User))
    + Present(Latest(sets, LocalAdmin)) + Present(Latest(sets, Enterprise))
  }

  lemma PresentHasLayer<V>(sets: seq<Layered<V>>, layer: Layer)
    ensures forall lv :: lv in Present(Latest(sets, layer)) <==> lv.layer == layer && Latest(sets, layer) == Some(lv)
  {
    LatestMember(sets, layer);
  }

  lemma LatestByLayerMembers<V>(sets: seq<Layered<V>>)
    ensures forall lv :: lv in LatestByLayer(sets) <==> Latest(sets, lv.layer) == Some(lv)
  {
    PresentHasLayer(sets, Default);
    PresentHasLayer(sets, User);
    PresentHasLayer(sets, LocalAdmin);
    PresentHasLayer(sets, Enterprise);
    forall lv
      ensures lv in LatestByLayer(sets) <==> Latest(sets, lv.layer) == Some(lv)
    {
      assert lv in LatestByLayer(sets) <==>
        || lv in Present(Latest(sets, Default)) || lv in Present(Latest(sets, User))
        || lv in Present(Latest(sets, LocalAdmin)) || lv in Present(Latest(sets, Enterprise));
    }
  }

  lemma LatestByLayerAscends<V>(sets: seq<Layered<V>>)
    ensures Ascending(LatestByLayer(sets))
  {
    LatestMember(sets, Default);
    LatestMember(sets, User);
    LatestMember(sets, LocalAdmin);
    LatestMember(sets, Enterprise);
  }

  /** The trace lists the latest default, user, local admin and enterprise values that exist, in this order. */
  lemma TraceByLayer<V(!new)>(sets: seq<Layered<V>>)
    ensures TraceOf(sets) == LatestByLayer(sets)
  {
    TraceHoldsLatest(sets);
    LatestByLayerAscends(sets);
    LatestByLayerMembers(sets);
    AscendingUnique(TraceOf(sets), LatestByLayer(sets));
  }

  /** Enterprise over local admin over user over default. */
  function Effective<V>(sets: seq<Layered<V>>): Option<Layered<V>> {
    if Latest(sets, Enterprise).Some? then Latest(sets, Enterprise)
    else if Latest(sets, LocalAdmin).Some? then Latest(sets, LocalAdmin)
    else if Latest(sets, User).Some? then Latest(sets, User)
    else Latest(sets, Default)
  }

  lemma WinnerIsEffective<V(!new)>(sets: seq<Layered<V>>)
    requires sets != []
    ensures Effective(sets) == Some(Winner(sets))
  {
    TraceByLayer(sets);
    TraceNonEmpty(sets);
  }

  // ---------------------------------------------------------------- the resolver

  /** A configured value and whether the layer locks it. */
  datatype Setting = Setting(value: string, locked: bool)

  type LayerValue = Layered<Setting>

  datatype ResolvedValue =
    ResolvedValue(key: string, effective: string, source: Layer, locked: bool, trace: seq<LayerValue>)

  type Values = map<string, seq<LayerValue>>

  function EntryOf(values: Values, key: string): seq<LayerValue> {
    if key in values then values[key] else []
  }

  function ResolveIn(values: Values, key: string): Option<ResolvedValue> {
    var trace := EntryOf(values, key);
    if trace == [] then None
    else
      var winner := trace[|trace| - 1];
      Some(ResolvedValue(key, winner.value.value, winner.layer, winner.value.locked, trace))
  }

  // ---------------------------------------------------------------- runs over all keys

  datatype SetCall = SetCall(key: string, setting: LayerValue)

  /** The resolver's map after a run of calls. */
  function ValuesAfter(calls: seq<SetCall>): Values
    decreases |calls|
  {
    if calls == [] then map[]
    else
      var before, last := ValuesAfter(calls[..|calls| - 1]), calls[|calls| - 1];
      before[last.key := SetIn(EntryOf(before, last.key), last.setting)]
  }

  /** What was set for one key, in order. */
  function SetsFor(calls: seq<SetCall>, key: string): seq<LayerValue>
    decreases |calls|
  {
    if calls == [] then []
    else
      var last := calls[|calls| - 1];
      SetsFor(calls[..|calls| - 1], key) + if last.key == key then [last.setting] else []
  }

  /** Keys do not disturb each other. */
  lemma {:induction false} KeysAreIndependent(calls: seq<SetCall>, key: string)
    ensures EntryOf(ValuesAfter(calls), key) == TraceOf(SetsFor(calls, key))
    decreases |calls|
  {
    if calls != [] {
      var front, last := calls[..|calls| - 1], calls[|calls| - 1];
      KeysAreIndependent(front, key);
      if last.key == key {
        assert (SetsFor(front, key) + [last.setting])[..|SetsFor(front, key)|] == SetsFor(front, key);
      } else {
        assert SetsFor(front, key) + [] == SetsFor(front, key);
      }
    }
  }

  /**
    Strict precedence over every run: a key resolves exactly when it was set, to the latest value
    of the highest layer that set it, with that layer as source, its lock, and the whole
    ascending trace of latest values.
    */
  lemma ResolveFollowsPrecedence(calls: seq<SetCall>, key: string)
    ensures var sets, r := SetsFor(calls, key), ResolveIn(ValuesAfter(calls), key);
            && (r.None? <==> sets == [])
            && (r.Some? ==> r.value.trace == TraceOf(sets) && Ascending(r.value.trace))
            && (r.Some? ==>
                  exists i: nat ::
                    && Decides(sets, i)
                    && Layered(r.value.source, Setting(r.value.effective, r.value.locked)) == sets[i])
  {
    KeysAreIndependent(calls, key);
    var sets := SetsFor(calls, key);
    TraceNonEmpty(sets);
    TraceHoldsLatest(sets);
    if sets != [] {
      var i := SomeDecides(sets);
      WinnerDecides(sets, i);
    }
  }

  /**
    The same by name: a key resolves to its latest enterprise value if it has one, else to its latest local admin
    value, else to its latest user value, else to its latest default; the trace lists those that exist from
    default to enterprise.
    */
  lemma ResolvesByLayer(calls: seq<SetCall>, key: string)
    ensures var sets, r := SetsFor(calls, key), ResolveIn(ValuesAfter(calls), key);
            && (r.None? <==> Effective(sets).None?)
            && (r.Some? ==> r.value.key == key && r.value.trace == LatestByLayer(sets))
            && (r.Some? ==>
                  Effective(sets) == Some(Layered(r.value.source, Setting(r.value.effective, r.value.locked))))
  {
    var sets := SetsFor(calls, key);
    KeysAreIndependent(calls, key);
    TraceNonEmpty(sets);
    TraceByLayer(sets);
    if sets != [] {
      WinnerIsEffective(sets);
    }
  }

  // ---------------------------------------------------------------- the class

  class Resolver {
    var values: Values
    ghost var calls: seq<SetCall>  // every set so far, in order

    ghost predicate Valid()
      reads this
    {
      values == ValuesAfter(calls)
    }

    constructor ()
      ensures Valid() && calls == []
    {
      values := map[];
      calls := [];
    }

    method Set(key: string, layer: Layer, value: string, locked: bool)
      requires Valid()
      modifies this
      ensures Valid() && calls == old(calls) + [SetCall(key, Layered(layer, Setting(value, locked)))]
      ensures values == old(values)[key := SetIn(EntryOf(old(values), key), Layered(layer, Setting(value, locked)))]
    {
      var entry := if key in values then values[key] else [];
      entry := Without(entry, layer);
      entry := entry + [Layered(layer, Setting(value, locked))];
      entry := Sort(LayerOrder(), entry);
      values := values[key := entry];
      calls := calls + [SetCall(key, Layered(layer, Setting(value, locked)))];
    }

    /** Nothing for a key never set; else its enterprise, local admin, user or default value, the first there is. */
    method Resolve(key: string) returns (r: Option<ResolvedValue>)
      requires Valid()
      ensures r == ResolveIn(values, key)
      ensures r.None? <==> SetsFor(calls, key) == []
      ensures r.Some? ==>
        && r.value.key == key && r.value.trace == LatestByLayer(SetsFor(calls, key))
        && Effective(SetsFor(calls, key)) == Some(Layered(r.value.source, Setting(r.value.effective, r.value.locked)))
    {
      ResolvesByLayer(calls, key);
      ResolveFollowsPrecedence(calls, key);
      if key !in values {
        return None;
      }
      var trace := values[key];
      if trace == [] {
        return None;
      }
      var winner := trace[|trace| - 1];
      return Some(ResolvedValue(key, winner.value.value, winner.layer, winner.value.locked, trace));
    }
  }
}
