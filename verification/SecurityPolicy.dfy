/**
  The mobile editions' default-deny policy. It keeps only the grant that currently wins for each
  capability, where the desktop resolver keeps the latest value of every layer.
  */
module SecurityPolicy {
  import opened Precedence
  import opened Wrappers

  datatype Capability =
    Network | Geolocation | Camera | Microphone | Notifications | AiLocal | AiRemote | Telemetry

  /** `T` is the edition's notion of time: milliseconds on Android, seconds on iOS. */
  datatype Grant<+T> = Grant(capability: Capability, layer: Layer, allowed: bool, expiresAt: Option<T>)

  type Grants<T> = map<Capability, Grant<T>>

  /** A grant replaces the stored one unless it comes from a lower layer. */
  function SetGrant<T>(grants: Grants<T>, grant: Grant<T>): Grants<T> {
    if grant.capability in grants && grant.layer.Rank() < grants[grant.capability].layer.Rank() then grants
    else grants[grant.capability := grant]
  }

  /** An allow that has not lapsed. */
  predicate Permits<T>(grant: Grant<T>, passed: T -> bool) {
    grant.allowed && (grant.expiresAt.Some? ==> !passed(grant.expiresAt.value))
  }

  /** Default deny: only a stored, unexpired allow permits anything. */
  predicate Allowed<T>(grants: Grants<T>, capability: Capability, passed: T -> bool) {
    capability in grants && Permits(grants[capability], passed)
  }

  // ---------------------------------------------------------------- runs

  datatype Operation<+T> = SetOp(grant: Grant<T>) | RevokeOp(capability: Capability)

  /** The grants stored after a run of operations. */
  function Stored<T>(ops: seq<Operation<T>>): Grants<T>
    decreases |ops|
  {
    if ops == [] then map[]
    else
      var before := Stored(ops[..|ops| - 1]);
      match ops[|ops| - 1]
      case SetOp(grant) => SetGrant(before, grant)
      case RevokeOp(capability) => before - {capability}
  }

  /** All grants for a capability since it was last revoked, each under its layer. */
  function SinceRevoke<T>(ops: seq<Operation<T>>, capability: Capability): seq<Layered<Grant<T>>>
    decreases |ops|
  {
    if ops == [] then []
    else
      var before := SinceRevoke(ops[..|ops| - 1], capability);
      match ops[|ops| - 1]
      case SetOp(grant) => if grant.capability == capability then before + [Layered(grant.layer, grant)] else before
      case RevokeOp(revoked) => if revoked == capability then [] else before
  }

  /** One more set moves the keep-all winner exactly as it moves the stored grant. */
  lemma WinnerAfterSet<V(!new)>(sets: seq<Layered<V>>, lv: Layered<V>)
    ensures Winner(sets + [lv])
         == if sets != [] && lv.layer.Rank() < Winner(sets).layer.Rank() then Winner(sets) else lv
  {
    TraceNonEmpty(sets);
    TraceNonEmpty(sets + [lv]);
    TraceAfterSet(sets, lv);
    LastAfterSet(TraceOf(sets), TraceOf(sets + [lv]), lv);
  }

  lemma LastAfterSet<V(!new)>(trace: seq<Layered<V>>, next: seq<Layered<V>>, lv: Layered<V>)
    requires Ascending(trace) && Ascending(next) && next != []
    requires forall x :: x in next <==> x == lv || (x in trace && x.layer != lv.layer)
    ensures next[|next| - 1]
         == if trace != [] && lv.layer.Rank() < trace[|trace| - 1].layer.Rank() then trace[|trace| - 1] else lv
  {
    var w := next[|next| - 1];
    assert w in next && lv in next;
    LastIsHighest(next);
    if trace != [] {
      var previous := trace[|trace| - 1];
      assert previous in trace;
      LastIsHighest(trace);
      RanksDiffer(lv.layer, previous.layer);
      if lv.layer.Rank() < previous.layer.Rank() {
        assert previous in next;
      }
    }
  }

  lemma LastIsHighest<V(!new)>(trace: seq<Layered<V>>)
    requires trace != [] && Ascending(trace)
    ensures forall lv :: lv in trace && lv != trace[|trace| - 1] ==> lv.layer.Rank() < trace[|trace| - 1].layer.Rank()
  {}

  /**
    The winner-only store refines the keep-all store: after every run it holds, for each
    capability, exactly the grant that the resolver's precedence picks among all
    grants since the last revocation, and nothing if there were none.
    */
  lemma {:induction false} StoredIsWinner<T(!new)>(ops: seq<Operation<T>>, capability: Capability)
    ensures capability in Stored(ops) <==> SinceRevoke(ops, capability) != []
    ensures capability in Stored(ops) ==>
              Layered(Stored(ops)[capability].layer, Stored(ops)[capability]) == Winner(SinceRevoke(ops, capability))
    decreases |ops|
  {
    if ops != [] {
      var front, last := ops[..|ops| - 1], ops[|ops| - 1];
      StoredIsWinner(front, capability);
      var before, sets := Stored(front), SinceRevoke(front, capability);
      if last.SetOp? && last.grant.capability == capability {
        WinnerAfterSet(sets, Layered(last.grant.layer, last.grant));
        assert Stored(ops) == SetGrant(before, last.grant);
        assert SinceRevoke(ops, capability) == sets + [Layered(last.grant.layer, last.grant)];
      }
    }
  }

  /**
    Default deny, over every history: a capability is allowed exactly when, among the grants since its last
    revocation, the latest one of the highest layer is an unexpired allow.
    */
  lemma AllowedExactly<T(!new)>(ops: seq<Operation<T>>, capability: Capability, passed: T -> bool)
    ensures Allowed(Stored(ops), capability, passed)
       <==> exists i: nat ::
              Decides(SinceRevoke(ops, capability), i) && Permits(SinceRevoke(ops, capability)[i].value, passed)
  {
    StoredIsWinner(ops, capability);
    var sets := SinceRevoke(ops, capability);
    forall i: nat | Decides(sets, i)
      ensures capability in Stored(ops) && Stored(ops)[capability] == sets[i].value
    {
      WinnerDecides(sets, i);
    }
    if sets != [] {
      var i := SomeDecides(sets);
    }
  }

  /**
    By name: after every history a capability holds its latest enterprise grant since the last revocation, else its
    latest local admin grant, else its latest user grant, else its latest default grant.
    */
  lemma StoredByLayer<T(!new)>(ops: seq<Operation<T>>, capability: Capability)
    ensures capability in Stored(ops) <==> Effective(SinceRevoke(ops, capability)).Some?
    ensures capability in Stored(ops) ==> Stored(ops)[capability] == Effective(SinceRevoke(ops, capability)).value.value
  {
    StoredIsWinner(ops, capability);
    if capability in Stored(ops) {
      WinnerIsEffective(SinceRevoke(ops, capability));
    }
  }

  /** The grants for a capability, in order. */
  function GrantsFor<T>(ops: seq<Operation<T>>, capability: Capability): seq<Layered<Grant<T>>>
    decreases |ops|
  {
    if ops == [] then []
    else
      var op, rest := ops[0], GrantsFor(ops[1..], capability);
      if op.SetOp? && op.grant.capability == capability then [Layered(op.grant.layer, op.grant)] + rest else rest
  }

  lemma {:induction false} GrantsForSnoc<T>(front: seq<Operation<T>>, last: Operation<T>, capability: Capability)
    ensures GrantsFor(front + [last], capability) == GrantsFor(front, capability) + GrantsFor([last], capability)
    decreases |front|
  {
    if front == [] {
      assert front + [last] == [last];
    } else {
      GrantsForSnoc(front[1..], last, capability);
      assert (front + [last])[1..] == front[1..] + [last];
    }
  }

  lemma {:induction false} NeverRevoked<T>(ops: seq<Operation<T>>, capability: Capability)
    requires forall op :: op in ops ==> op != RevokeOp(capability)
    ensures SinceRevoke(ops, capability) == GrantsFor(ops, capability)
    decreases |ops|
  {
    if ops != [] {
      var front, last := ops[..|ops| - 1], ops[|ops| - 1];
      assert ops == front + [last] && last in ops;
      assert forall op :: op in front ==> op in ops;
      NeverRevoked(front, capability);
      GrantsForSnoc(front, last, capability);
    }
  }

  /** A revocation and what came before it count for nothing. */
  lemma {:induction false} RevokedIsForgotten<T>(before: seq<Operation<T>>, after: seq<Operation<T>>,
                                                capability: Capability)
    ensures SinceRevoke(before + ([RevokeOp(capability)] + after), capability) == SinceRevoke(after, capability)
    decreases |after|
  {
    var all := before + ([RevokeOp(capability)] + after);
    if after == [] {
      assert all[..|all| - 1] == before;
    } else {
      RevokedIsForgotten(before, after[..|after| - 1], capability);
      assert all[..|all| - 1] == before + ([RevokeOp(capability)] + after[..|after| - 1]);
    }
  }

  /** What counts since the last revocation is exactly what was granted for that capability afterwards. */
  lemma SinceRevokeExactly<T>(before: seq<Operation<T>>, after: seq<Operation<T>>, capability: Capability)
    requires forall op :: op in after ==> op != RevokeOp(capability)
    ensures SinceRevoke(before + ([RevokeOp(capability)] + after), capability) == GrantsFor(after, capability)
    ensures SinceRevoke(after, capability) == GrantsFor(after, capability)
  {
    RevokedIsForgotten(before, after, capability);
    NeverRevoked(after, capability);
  }

  /** Explicit: a deny denies, an allow permits strictly before it lapses, nothing is permitted without a grant. */
  lemma AllowedByLayer<T(!new)>(ops: seq<Operation<T>>, capability: Capability, passed: T -> bool)
    ensures var grant := Effective(SinceRevoke(ops, capability));
            Allowed(Stored(ops), capability, passed) <==>
              && grant.Some? && grant.value.value.allowed
              && (grant.value.value.expiresAt == None || !passed(grant.value.value.expiresAt.value))
  {
    StoredByLayer(ops, capability);
  }

  // ---------------------------------------------------------------- the classes

  class AndroidSecurityPolicy {
    var grants: Grants<int>
    ghost var history: seq<Operation<int>>  // every set and revocation so far, in order

    ghost predicate Valid()
      reads this
    {
      grants == Stored(history)
    }

    constructor ()
      ensures Valid() && history == []
    {
      grants := map[];
      history := [];
    }

    method Set(grant: Grant<int>)
      requires Valid()
      modifies this
      ensures Valid() && history == old(history) + [SetOp(grant)]
      ensures grants == SetGrant(old(grants), grant)
    {
      history := history + [SetOp(grant)];
      if grant.capability !in grants || grant.layer.Rank() >= grants[grant.capability].layer.Rank() {
        grants := grants[grant.capability := grant];
      }
    }

    /** Decided by the enterprise, local admin, user or default grant since the last revocation, the first there is. */
    method IsAllowed(capability: Capability, now: int) returns (allowed: bool)
      requires Valid()
      ensures var grant := Effective(SinceRevoke(history, capability));
              allowed <==> grant.Some? && Permits(grant.value.value, (t: int) => now >= t)
      ensures allowed ==> Effective(SinceRevoke(history, capability)).value.value.allowed
    {
      StoredByLayer(history, capability);
      if capability !in grants {
        return false;
      }
      var g := grants[capability];
      if g.expiresAt.Some? && now >= g.expiresAt.value {
        return false;
      }
      return g.allowed;
    }

    method Revoke(capability: Capability)
      requires Valid()
      modifies this
      ensures Valid() && history == old(history) + [RevokeOp(capability)]
      ensures grants == old(grants) - {capability}
    {
      history := history + [RevokeOp(capability)];
      grants := grants - {capability};
    }
  }

  class IosSecurityPolicy {
    var grants: Grants<real>
    ghost var history: seq<Operation<real>>  // every set and revocation so far, in order

    ghost predicate Valid()
      reads this
    {
      grants == Stored(history)
    }

    constructor ()
      ensures Valid() && history == []
    {
      grants := map[];
      history := [];
    }

    method Set(grant: Grant<real>)
      requires Valid()
      modifies this
      ensures Valid() && history == old(history) + [SetOp(grant)]
      ensures grants == SetGrant(old(grants), grant)
    {
      history := history + [SetOp(grant)];
      if grant.capability in grants {
        var existing := grants[grant.capability];
        if grant.layer.Rank() < existing.layer.Rank() {
          return;
        }
      }
      grants := grants[grant.capability := grant];
    }

    /** Decided by the enterprise, local admin, user or default grant since the last revocation, the first there is. */
    method IsAllowed(capability: Capability, now: real) returns (allowed: bool)
      requires Valid()
      ensures var grant := Effective(SinceRevoke(history, capability));
              allowed <==> grant.Some? && Permits(grant.value.value, (t: real) => now >= t)
      ensures allowed ==> Effective(SinceRevoke(history, capability)).value.value.allowed
    {
      StoredByLayer(history, capability);
      if capability !in grants {
        return false;
      }
      var g := grants[capability];
      if g.expiresAt.Some? {
        if now >= g.expiresAt.value {
          return false;
        }
      }
      return g.allowed;
    }

    method Revoke(capability: Capability)
      requires Valid()
      modifies this
      ensures Valid() && history == old(history) + [RevokeOp(capability)]
      ensures grants == old(grants) - {capability}
    {
      history := history + [RevokeOp(capability)];
      grants := grants - {capability};
    }
  }

  // ---------------------------------------------------------------- the two editions agree

  /** How an Android time reads on the iOS clock: unit, epoch and rounding in one. */
  type Clock = int -> real

  /** Among these times, later ones read later. */
  ghost predicate KeepsOrder(clock: Clock, times: iset<int>) {
    forall s, t :: s in times && t in times && s < t ==> clock(s) < clock(t)
  }

  /** Every grant of the history that lapses does so at one of these times. */
  ghost predicate ExpiresIn(ops: seq<Operation<int>>, times: iset<int>) {
    forall op :: op in ops && op.SetOp? && op.grant.expiresAt.Some? ==> op.grant.expiresAt.value in times
  }

  lemma {:induction false} StoredExpiresIn(ops: seq<Operation<int>>, times: iset<int>, capability: Capability)
    requires ExpiresIn(ops, times) && capability in Stored(ops) && Stored(ops)[capability].expiresAt.Some?
    ensures Stored(ops)[capability].expiresAt.value in times
    decreases |ops|
  {
    var n := |ops| - 1;
    assert ops[n] in ops;
    if !(ops[n].SetOp? && Stored(ops)[capability] == ops[n].grant) {
      StoredExpiresIn(ops[..n], times, capability);
    }
  }

  function OnIos(clock: Clock, grant: Grant<int>): Grant<real> {
    Grant(grant.capability, grant.layer, grant.allowed,
          if grant.expiresAt.Some? then Some(clock(grant.expiresAt.value)) else None)
  }

  function OpOnIos(clock: Clock, op: Operation<int>): Operation<real> {
    match op
    case SetOp(grant) => SetOp(OnIos(clock, grant))
    case RevokeOp(capability) => RevokeOp(capability)
  }

  function OpsOnIos(clock: Clock, ops: seq<Operation<int>>): (r: seq<Operation<real>>)
    ensures |r| == |ops|
  {
    seq(|ops|, i requires 0 <= i < |ops| => OpOnIos(clock, ops[i]))
  }

  lemma {:induction false} StoredOnIos(clock: Clock, ops: seq<Operation<int>>, capability: Capability)
    ensures capability in Stored(OpsOnIos(clock, ops)) <==> capability in Stored(ops)
    ensures capability in Stored(ops) ==>
      Stored(OpsOnIos(clock, ops))[capability] == OnIos(clock, Stored(ops)[capability])
    decreases |ops|
  {
    if ops != [] {
      var front := ops[..|ops| - 1];
      assert OpsOnIos(clock, ops)[..|ops| - 1] == OpsOnIos(clock, front);
      StoredOnIos(clock, front, capability);
      assert OpsOnIos(clock, ops)[|ops| - 1] == OpOnIos(clock, ops[|ops| - 1]);
    }
  }

  /** The answer of the Android edition after a history. */
  predicate AndroidAllows(ops: seq<Operation<int>>, capability: Capability, now: int) {
    Allowed(Stored(ops), capability, (t: int) => now >= t)
  }

  /** The answer of the iOS edition after the same history on its own clock. */
  predicate IosAllows(clock: Clock, ops: seq<Operation<int>>, capability: Capability, now: int) {
    Allowed(Stored(OpsOnIos(clock, ops)), capability, (t: real) => clock(now) >= t)
  }

  lemma AgreeOnClock(clock: Clock, times: iset<int>, ops: seq<Operation<int>>, capability: Capability, now: int)
    requires KeepsOrder(clock, times) && ExpiresIn(ops, times) && now in times
    ensures AndroidAllows(ops, capability, now) <==> IosAllows(clock, ops, capability, now)
  {
    StoredOnIos(clock, ops, capability);
    if capability in Stored(ops) && Stored(ops)[capability].expiresAt.Some? {
      StoredExpiresIn(ops, times, capability);
      var expiry := Stored(ops)[capability].expiresAt.value;
      assert now < expiry ==> clock(now) < clock(expiry);
      assert expiry < now ==> clock(expiry) < clock(now);
    }
  }

  /** A clock that reads two times the wrong way round, or alike, lets a grant lapse too early. */
  lemma DisagreeOnClock(clock: Clock, s: int, t: int, capability: Capability) returns (ops: seq<Operation<int>>)
    requires s < t && clock(s) >= clock(t)
    ensures ExpiresIn(ops, iset{t})
    ensures AndroidAllows(ops, capability, s) && !IosAllows(clock, ops, capability, s)
  {
    var grant := Grant(capability, User, true, Some(t));
    ops := [SetOp(grant)];
    assert ops[..0] == [];
    assert Stored(ops) == map[capability := grant];
    StoredOnIos(clock, ops, capability);
  }

  /** After every history that lapses at some of these times, both editions answer alike at each of them. */
  ghost predicate AgreeAt(clock: Clock, times: iset<int>, capability: Capability) {
    forall ops, now :: ExpiresIn(ops, times) && now in times ==>
      (AndroidAllows(ops, capability, now) <==> IosAllows(clock, ops, capability, now))
  }

  /**
    The two editions answer alike exactly when the conversion keeps the order of the times in use; so
    rounding matters only once it makes two of them equal.
    */
  lemma EditionsAgreeExactly(clock: Clock, times: iset<int>, capability: Capability)
    ensures AgreeAt(clock, times, capability) <==> KeepsOrder(clock, times)
  {
    if KeepsOrder(clock, times) {
      forall ops, now | ExpiresIn(ops, times) && now in times
        ensures AndroidAllows(ops, capability, now) <==> IosAllows(clock, ops, capability, now)
      {
        AgreeOnClock(clock, times, ops, capability, now);
      }
    } else {
      var s, t :| s in times && t in times && s < t && clock(s) >= clock(t);
      var ops := DisagreeOnClock(clock, s, t, capability);
      assert ExpiresIn(ops, times);
    }
  }

  /** Milliseconds read exactly as seconds since some other epoch. */
  function Seconds(epoch: real, millis: int): real {
    millis as real / 1000.0 - epoch
  }

  /** A clock that rounds by less than half a millisecond at the times in use makes the editions agree. */
  lemma EditionsAgreeWhenRounded(clock: Clock, epoch: real, times: iset<int>, capability: Capability)
    requires forall t :: t in times ==> Seconds(epoch, t) - 0.0005 < clock(t) < Seconds(epoch, t) + 0.0005
    ensures AgreeAt(clock, times, capability)
  {
    forall s, t | s in times && t in times && s < t
      ensures clock(s) < clock(t)
    {
      OneMillisecond(epoch, s, t);
    }
    EditionsAgreeExactly(clock, times, capability);
  }

  lemma OneMillisecond(epoch: real, s: int, t: int)
    requires s < t
    ensures Seconds(epoch, s) + 0.001 <= Seconds(epoch, t)
  {}
}
