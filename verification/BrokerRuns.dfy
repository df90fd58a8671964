/**
  The broker shared by any number of threads. Every step below is one atomic action of the
  implementation: the fetch-add that opens a mint, the registration made later under the lock, the
  return of the finished capability, an attenuation, a verification or a revocation. Steps of
  different calls interleave freely; a call in progress is known by its place in `calls`.
  */
module BrokerRuns {
  import opened Ints
  import opened Wrappers
  import opened Ipc

  datatype Stage = Taken | Registered | Returned(cap: Capability)

  /** One call of `mint`. */
  datatype Call = Call(id: u64, origin: string, authorities: seq<Authority>, ttl: u64, stage: Stage)

  /** The broker, every call of `mint` so far, the capabilities in circulation and the ids revoked so far. */
  datatype System = System(registry: Registry, calls: seq<Call>, held: set<Capability>, revoked: set<u64>)

  const INITIAL := System(EMPTY_REGISTRY, [], {}, {})

  datatype Event =
    | TakeId(origin: string, authorities: seq<Authority>, ttl: u64)
    | Register(call: nat)
    | Return(call: nat, now: u64)
    | Attenuate(cap: Capability, authorities: seq<Authority>, expiresAt: u64)
    | Verify(cap: Capability, expectedOrigin: string, authority: Authority, now: u64)
    | Revoke(cap: Capability)

  predicate Enabled(s: System, e: Event) {
    match e
    case TakeId(_, _, _) => true
    case Register(i) => i < |s.calls| && s.calls[i].stage.Taken?
    case Return(i, _) => i < |s.calls| && s.calls[i].stage.Registered?
    case Attenuate(cap, _, _) => cap in s.held
    case Verify(cap, _, _, _) => cap in s.held
    case Revoke(cap) => cap in s.held
  }

  function Apply(s: System, e: Event): System
    requires Enabled(s, e)
  {
    match e
    case TakeId(origin, authorities, ttl) =>
      s.(registry := IdTaken(s.registry),
         calls := s.calls + [Call(s.registry.nextId, origin, authorities, ttl, Taken)])
    case Register(i) =>
      var call := s.calls[i];
      s.(registry := IdRegistered(s.registry, call.id, call.origin),
         calls := s.calls[i := call.(stage := Registered)])
    case Return(i, now) =>
      var call := s.calls[i];
      var cap := Minted(call.id, call.origin, call.authorities, call.ttl, now);
      s.(calls := s.calls[i := call.(stage := Returned(cap))], held := s.held + {cap})
    case Attenuate(cap, authorities, expiresAt) =>
      var r := cap.Attenuate(authorities, expiresAt);
      if r.Ok? then s.(held := s.held + {r.value}) else s
    case Verify(_, _, _, _) => s
    case Revoke(cap) =>
      s.(registry := IdRevoked(s.registry, cap.id), revoked := s.revoked + {cap.id})
  }

  /** Every event of the run is enabled when its turn comes. */
  predicate Runs(s: System, events: seq<Event>)
    decreases |events|
  {
    events == [] || (Enabled(s, events[0]) && Runs(Apply(s, events[0]), events[1..]))
  }

  function After(s: System, events: seq<Event>): System
    requires Runs(s, events)
    decreases |events|
  {
    if events == [] then s else After(Apply(s, events[0]), events[1..])
  }

  // ---------------------------------------------------------------- the invariant

  /** The id drawn by the i-th call, wherever the counter has wrapped to. */
  function IdOf(i: nat): u64 {
    (1 + i) % U64_LIMIT
  }

  /** The call that drew `id`, as long as the counter has not been through all its values. */
  function CallOf(id: u64): nat {
    if id == 0 then U64_LIMIT - 1 else id - 1
  }

  lemma CallOfIdOf(i: nat)
    requires i < U64_LIMIT
    ensures CallOf(IdOf(i)) == i
  {
    if i == U64_LIMIT - 1 {
      assert IdOf(i) == 0;
    } else {
      assert IdOf(i) == 1 + i;
    }
  }

  ghost predicate CounterInv(s: System) {
    && s.registry.nextId == IdOf(|s.calls|)
    && forall i :: 0 <= i < |s.calls| ==> s.calls[i].id == IdOf(i)
  }

  /** Where a call stands, against the registry. */
  ghost predicate CallInv(s: System, call: Call) {
    var issued := s.registry.issued;
    match call.stage
    case Taken => call.id !in issued && call.id !in s.revoked
    case Registered => call.id in issued && issued[call.id] == call.origin && call.id !in s.revoked
    case Returned(cap) =>
      && cap.id == call.id && cap.origin == call.origin && cap.authorities == call.authorities
      && (call.id in issued <==> call.id !in s.revoked)
      && (call.id in issued ==> issued[call.id] == call.origin)
  }

  ghost predicate HeldInv(s: System, cap: Capability) {
    var i := CallOf(cap.id);
    i < |s.calls| && s.calls[i].stage.Returned? && NoWiderThan(cap, s.calls[i].stage.cap)
  }

  ghost predicate Inv(s: System) {
    && CounterInv(s)
    && (forall i :: 0 <= i < |s.calls| ==> CallInv(s, s.calls[i]))
    && (forall cap :: cap in s.held ==> HeldInv(s, cap))
    && (forall id :: id in s.registry.issued ==> CallOf(id) < |s.calls|)
    && (forall id :: id in s.revoked ==> CallOf(id) < |s.calls|)
  }

  lemma CounterStep(s: System, e: Event)
    requires CounterInv(s) && Enabled(s, e)
    ensures CounterInv(Apply(s, e))
  {}

  lemma Distinct(s: System, i: nat, j: nat)
    requires CounterInv(s) && |s.calls| <= U64_LIMIT
    requires i < |s.calls| && j < |s.calls| && s.calls[i].id == s.calls[j].id
    ensures i == j
  {
    CallOfIdOf(i);
    CallOfIdOf(j);
  }

  lemma StepCalls(s: System, e: Event, i: nat)
    requires Inv(s) && Enabled(s, e) && |Apply(s, e).calls| <= U64_LIMIT
    requires i < |Apply(s, e).calls|
    ensures CallInv(Apply(s, e), Apply(s, e).calls[i])
  {
    var t := Apply(s, e);
    CounterStep(s, e);
    match e
    case TakeId(_, _, _) =>
      if i == |s.calls| {
        CallOfIdOf(i);
      }
    case Register(k) =>
      if t.calls[i].id == t.calls[k].id {
        Distinct(t, i, k);
      }
    case Return(_, _) =>
    case Attenuate(_, _, _) =>
    case Verify(_, _, _, _) =>
    case Revoke(cap) =>
      CallOfIdOf(i);
  }

  lemma StepHeld(s: System, e: Event, cap: Capability)
    requires Inv(s) && Enabled(s, e) && |Apply(s, e).calls| <= U64_LIMIT
    requires cap in Apply(s, e).held
    ensures HeldInv(Apply(s, e), cap)
  {
    if cap in s.held {
      assert HeldInv(s, cap);
    } else if e.Return? {
      CallOfIdOf(e.call);
    } else {
      assert HeldInv(s, e.cap);
    }
  }

  /** Every step keeps the invariant, as long as at most 2^64 ids have been drawn. */
  lemma StepKeepsInv(s: System, e: Event)
    requires Inv(s) && Enabled(s, e) && |Apply(s, e).calls| <= U64_LIMIT
    ensures Inv(Apply(s, e))
  {
    var t := Apply(s, e);
    CounterStep(s, e);
    forall i | 0 <= i < |t.calls|
      ensures CallInv(t, t.calls[i])
    {
      StepCalls(s, e, i);
    }
    forall cap | cap in t.held
      ensures HeldInv(t, cap)
    {
      StepHeld(s, e, cap);
    }
    if e.Register? {
      CallOfIdOf(e.call);
    }
    if e.Revoke? {
      assert HeldInv(s, e.cap);
    }
  }

  lemma StepGrows(s: System, e: Event)
    requires Enabled(s, e)
    ensures |s.calls| <= |Apply(s, e).calls|
    ensures s.revoked <= Apply(s, e).revoked
  {}

  lemma {:induction false} RunGrows(s: System, events: seq<Event>)
    requires Runs(s, events)
    ensures |s.calls| <= |After(s, events).calls|
    ensures s.revoked <= After(s, events).revoked
    decreases |events|
  {
    if events != [] {
      StepGrows(s, events[0]);
      RunGrows(Apply(s, events[0]), events[1..]);
    }
  }

  lemma {:induction false} RunKeepsInv(s: System, events: seq<Event>)
    requires Runs(s, events) && Inv(s) && |After(s, events).calls| <= U64_LIMIT
    ensures Inv(After(s, events))
    decreases |events|
  {
    if events != [] {
      RunGrows(Apply(s, events[0]), events[1..]);
      StepKeepsInv(s, events[0]);
      RunKeepsInv(Apply(s, events[0]), events[1..]);
    }
  }

  lemma {:induction false} RunKeepsCounter(s: System, events: seq<Event>)
    requires Runs(s, events) && CounterInv(s)
    ensures CounterInv(After(s, events))
    decreases |events|
  {
    if events != [] {
      CounterStep(s, events[0]);
      RunKeepsCounter(Apply(s, events[0]), events[1..]);
    }
  }

  // ---------------------------------------------------------------- what holds over every run

  /**
    Under every interleaving, all ids drawn are different exactly as long as at most 2^64
    have been drawn. (The very next call draws id 1 again.)
    */
  lemma IdsUniqueExactly(events: seq<Event>)
    requires Runs(INITIAL, events)
    ensures var calls := After(INITIAL, events).calls;
            (forall i, j :: 0 <= i < j < |calls| ==> calls[i].id != calls[j].id) <==> |calls| <= U64_LIMIT
  {
    RunKeepsCounter(INITIAL, events);
    var s := After(INITIAL, events);
    if |s.calls| <= U64_LIMIT {
      forall i, j | 0 <= i < j < |s.calls|
        ensures s.calls[i].id != s.calls[j].id
      {
        if s.calls[i].id == s.calls[j].id {
          Distinct(s, i, j);
        }
      }
    } else {
      assert IdOf(0) == IdOf(U64_LIMIT);
      assert s.calls[0].id == s.calls[U64_LIMIT].id;
    }
  }

  /** Until the counter wraps, which the (2^64 - 1)st mint makes it do, every registered id lies below it. */
  lemma RegisteredBelowCounter(events: seq<Event>)
    requires Runs(INITIAL, events) && |After(INITIAL, events).calls| <= U64_LIMIT - 1
    ensures var s := After(INITIAL, events);
            if |s.calls| < U64_LIMIT - 1
            then s.registry.nextId == |s.calls| + 1 &&
                 forall id :: id in s.registry.issued ==> 1 <= id < s.registry.nextId
            else s.registry.nextId == 0
  {
    RunKeepsInv(INITIAL, events);
  }

  /** An id once revoked is never registered again, whatever calls were in flight at the time. */
  lemma RevokedStaysRevoked(before: seq<Event>, after: seq<Event>, id: u64)
    requires Runs(INITIAL, before) && Runs(After(INITIAL, before), after)
    requires |After(After(INITIAL, before), after).calls| <= U64_LIMIT
    requires id in After(INITIAL, before).revoked
    ensures id !in After(After(INITIAL, before), after).registry.issued
  {
    var s := After(INITIAL, before);
    RunGrows(s, after);
    RunKeepsInv(INITIAL, before);
    RunKeepsInv(s, after);
    var t := After(s, after);
    var i := CallOf(id);
    assert IdOf(i) == id;
    assert CallInv(t, t.calls[i]);
  }

  /** The finished mint behind a capability in circulation. */
  predicate Backs(s: System, i: nat, cap: Capability) {
    && i < |s.calls| && s.calls[i].stage.Returned?
    && NoWiderThan(cap, s.calls[i].stage.cap)
    && s.calls[i].stage.cap.authorities == s.calls[i].authorities
  }

  /**
    Safety and completeness of `verify` over every run: a capability in circulation, however it was
    derived, is backed by one finished mint with the same id and origin, at least the same authorities
    and an expiry at least as late; it is refused as forged exactly when its id has been revoked; and
    otherwise the first of expiry, origin and authority that is wrong decides the answer.
    */
  lemma VerifyIsExact(events: seq<Event>, cap: Capability, origin: string, authority: Authority, now: u64)
    requires Runs(INITIAL, events) && |After(INITIAL, events).calls| <= U64_LIMIT
    requires cap in After(INITIAL, events).held
    ensures Backs(After(INITIAL, events), CallOf(cap.id), cap)
    ensures var s := After(INITIAL, events);
            var r := Verdict(s.registry.issued, cap, origin, authority, now);
            && (r == Err(Forged) <==> cap.id in s.revoked)
            && (r == Err(Expired) <==> cap.id !in s.revoked && cap.expiresAt <= now)
            && (r == Err(OriginMismatch) <==> cap.id !in s.revoked && now < cap.expiresAt && cap.origin != origin)
            && (r == Err(Unauthorized) <==>
                cap.id !in s.revoked && now < cap.expiresAt && cap.origin == origin && authority !in cap.authorities)
            && (r.Ok? <==>
                cap.id !in s.revoked && now < cap.expiresAt && cap.origin == origin && authority in cap.authorities)
  {
    RunKeepsInv(INITIAL, events);
    var s := After(INITIAL, events);
    assert HeldInv(s, cap);
    assert CallInv(s, s.calls[CallOf(cap.id)]);
  }

  /** Some mint of the run drew this id for this origin, is registered and has not been revoked. */
  ghost predicate IsRegistered(s: System, id: u64, origin: string) {
    exists i :: 0 <= i < |s.calls| &&
      s.calls[i].id == id && s.calls[i].origin == origin && !s.calls[i].stage.Taken? && id !in s.revoked
  }

  lemma IssuedExactly(s: System, id: u64, origin: string)
    requires Inv(s) && |s.calls| <= U64_LIMIT
    ensures id in s.registry.issued && s.registry.issued[id] == origin <==> IsRegistered(s, id, origin)
  {
    if id in s.registry.issued && s.registry.issued[id] == origin {
      var i := CallOf(id);
      assert IdOf(i) == id;
      assert CallInv(s, s.calls[i]);
    }
    if IsRegistered(s, id, origin) {
      var i :| 0 <= i < |s.calls| && s.calls[i].id == id && s.calls[i].origin == origin
               && !s.calls[i].stage.Taken? && id !in s.revoked;
      assert CallInv(s, s.calls[i]);
    }
  }

  /**
    The same for every capability whatever, in circulation or not, from this broker or another: it is forged exactly
    when no registered, unrevoked mint of the run has both its id and its origin, and accepted exactly when one has
    and expiry, expected origin and authority are right.
    */
  lemma VerifyAnyIsExact(events: seq<Event>, cap: Capability, origin: string, authority: Authority, now: u64)
    requires Runs(INITIAL, events) && |After(INITIAL, events).calls| <= U64_LIMIT
    ensures var s := After(INITIAL, events);
            var r := Verdict(s.registry.issued, cap, origin, authority, now);
            var known := IsRegistered(s, cap.id, cap.origin);
            && (r == Err(Forged) <==> !known)
            && (r == Err(Expired) <==> known && cap.expiresAt <= now)
            && (r == Err(OriginMismatch) <==> known && now < cap.expiresAt && cap.origin != origin)
            && (r == Err(Unauthorized) <==>
                known && now < cap.expiresAt && cap.origin == origin && authority !in cap.authorities)
            && (r.Ok? <==> known && now < cap.expiresAt && cap.origin == origin && authority in cap.authorities)
  {
    RunKeepsInv(INITIAL, events);
    IssuedExactly(After(INITIAL, events), cap.id, cap.origin);
  }

  /** What an accepted capability proves about the mint it came from. */
  lemma AcceptedMeansMinted(events: seq<Event>, cap: Capability, origin: string, authority: Authority, now: u64)
    requires Runs(INITIAL, events) && |After(INITIAL, events).calls| <= U64_LIMIT
    requires cap in After(INITIAL, events).held
    requires Verdict(After(INITIAL, events).registry.issued, cap, origin, authority, now).Ok?
    ensures var s := After(INITIAL, events);
            exists i :: 0 <= i < |s.calls| && s.calls[i].stage.Returned? &&
              var root := s.calls[i].stage.cap;
              && root.id == cap.id && root.id !in s.revoked
              && root.origin == origin && s.calls[i].origin == origin
              && authority in s.calls[i].authorities
              && now < cap.expiresAt <= root.expiresAt
  {
    VerifyIsExact(events, cap, origin, authority, now);
    var s := After(INITIAL, events);
    RunKeepsInv(INITIAL, events);
    assert CallInv(s, s.calls[CallOf(cap.id)]);
  }

  /** Revoking one capability refuses, from then on, every capability derived from the same mint. */
  lemma RevocationReachesDescendants(before: seq<Event>, cap: Capability, after: seq<Event>, other: Capability,
                                     origin: string, authority: Authority, now: u64)
    requires Runs(INITIAL, before) && cap in After(INITIAL, before).held
    requires Runs(Apply(After(INITIAL, before), Revoke(cap)), after)
    requires |After(Apply(After(INITIAL, before), Revoke(cap)), after).calls| <= U64_LIMIT
    requires other.id == cap.id
    ensures Verdict(After(Apply(After(INITIAL, before), Revoke(cap)), after).registry.issued,
                    other, origin, authority, now) == Err(Forged)
  {
    var s := After(INITIAL, before);
    var t := Apply(s, Revoke(cap));
    RunGrows(t, after);
    RunKeepsInv(INITIAL, before);
    StepKeepsInv(s, Revoke(cap));
    RunKeepsInv(t, after);
    var u := After(t, after);
    assert IdOf(CallOf(cap.id)) == cap.id;
    assert CallInv(u, u.calls[CallOf(cap.id)]);
  }

  // ---------------------------------------------------------------- past the last id

  lemma {:induction false} OneMoreEvent(s: System, events: seq<Event>, e: Event)
    requires Runs(s, events) && Enabled(After(s, events), e)
    ensures Runs(s, events + [e]) && After(s, events + [e]) == Apply(After(s, events), e)
    decreases |events|
  {
    if events == [] {
      assert [e][1..] == [];
    } else {
      OneMoreEvent(Apply(s, events[0]), events[1..], e);
      assert (events + [e])[1..] == events[1..] + [e];
    }
  }

  /** Any number of further mints can be opened. */
  lemma {:induction false} OpenMints(before: seq<Event>, n: nat, origin: string) returns (events: seq<Event>)
    requires Runs(INITIAL, before)
    ensures Runs(INITIAL, events)
    ensures var s, t := After(INITIAL, before), After(INITIAL, events);
            && |t.calls| == |s.calls| + n && s.calls <= t.calls
            && t.registry.issued == s.registry.issued && t.held == s.held && t.revoked == s.revoked
    ensures n > 0 ==> var calls := After(INITIAL, events).calls;
                      calls[|calls| - 1].origin == origin && calls[|calls| - 1].stage.Taken?
    decreases n
  {
    if n == 0 {
      events := before;
    } else {
      var front := OpenMints(before, n - 1, origin);
      OneMoreEvent(INITIAL, front, TakeId(origin, [], 0));
      events := front + [TakeId(origin, [], 0)];
    }
  }

  /** A mint that runs alone, from the fetch-add to the finished capability. */
  lemma FirstMint(origin: string, authorities: seq<Authority>, ttl: u64, now: u64) returns (events: seq<Event>)
    ensures Runs(INITIAL, events)
    ensures var s, cap := After(INITIAL, events), Minted(1, origin, authorities, ttl, now);
            && s.calls == [Call(1, origin, authorities, ttl, Returned(cap))] && s.held == {cap}
            && s.registry.issued == map[1 := origin] && s.revoked == {}
  {
    var take := TakeId(origin, authorities, ttl);
    OneMoreEvent(INITIAL, [], take);
    var s := After(INITIAL, [] + [take]);
    assert s.calls == [Call(1, origin, authorities, ttl, Taken)];
    OneMoreEvent(INITIAL, [] + [take], Register(0));
    OneMoreEvent(INITIAL, [] + [take] + [Register(0)], Return(0, now));
    events := [] + [take] + [Register(0)] + [Return(0, now)];
  }

  /** What the steps of one mint do, started in any state and left uninterrupted. */
  function MintSteps(s: System, origin: string, authorities: seq<Authority>, ttl: u64, now: u64): seq<Event> {
    [TakeId(origin, authorities, ttl), Register(|s.calls|), Return(|s.calls|, now)]
  }

  /**
    A mint that runs alone puts one capability, with an id that was neither registered nor revoked, into
    circulation and registers it for its origin.
    */
  lemma MintCirculates(before: seq<Event>, origin: string, authorities: seq<Authority>, ttl: u64, now: u64)
    requires Runs(INITIAL, before) && |After(INITIAL, before).calls| < U64_LIMIT
    ensures var s := After(INITIAL, before);
            var events := MintSteps(s, origin, authorities, ttl, now);
            var cap := Minted(IdOf(|s.calls|), origin, authorities, ttl, now);
            && Runs(s, events)
            && After(s, events).held == s.held + {cap}
            && After(s, events).registry.issued == s.registry.issued[cap.id := origin]
            && After(s, events).revoked == s.revoked
            && cap.id !in s.revoked && cap.id !in s.registry.issued
  {
    RunKeepsInv(INITIAL, before);
    var s := After(INITIAL, before);
    CallOfIdOf(|s.calls|);
    var s1 := Apply(s, TakeId(origin, authorities, ttl));
    var s2 := Apply(s1, Register(|s.calls|));
    var s3 := Apply(s2, Return(|s.calls|, now));
    var events := MintSteps(s, origin, authorities, ttl, now);
    assert events[1..][1..][1..] == [];
    assert Runs(s2, events[1..][1..]) && After(s2, events[1..][1..]) == s3;
    assert Runs(s1, events[1..]) && After(s1, events[1..]) == s3;
  }

  /** A capability and whatever is derived from it stay in circulation. */
  lemma {:induction false} HeldForever(s: System, events: seq<Event>, cap: Capability)
    requires Runs(s, events) && cap in s.held
    ensures cap in After(s, events).held
    decreases |events|
  {
    if events != [] {
      HeldForever(Apply(s, events[0]), events[1..], cap);
    }
  }

  /** Attenuating a capability in circulation adds the narrower one exactly when it is nowhere wider. */
  lemma AttenuationCirculates(s: System, cap: Capability, authorities: seq<Authority>, expiresAt: u64)
    requires cap in s.held
    ensures var t, narrow := Apply(s, Attenuate(cap, authorities, expiresAt)),
                             Capability(cap.id, cap.origin, authorities, expiresAt);
            t == if NoWiderThan(narrow, cap) then s.(held := s.held + {narrow}) else s
  {}

  /**
    Where uniqueness ends: a run of 2^64 + 1 mints in which the last draws the id of the first, and
    takes its place in the registry. The first capability is then refused as forged, although
    nothing was ever revoked.
    */
  lemma UniquenessEnds(origin: string, other: string, authorities: seq<Authority>, ttl: u64, now: u64)
    returns (events: seq<Event>)
    requires origin != other
    ensures Runs(INITIAL, events)
    ensures var s, cap := After(INITIAL, events), Minted(1, origin, authorities, ttl, now);
            && |s.calls| == U64_LIMIT + 1 && s.calls[0].id == s.calls[U64_LIMIT].id
            && cap in s.held && s.revoked == {}
            && forall authority, at :: Verdict(s.registry.issued, cap, origin, authority, at) == Err(Forged)
  {
    var first := FirstMint(origin, authorities, ttl, now);
    var all := OpenMints(first, U64_LIMIT, other);
    RunKeepsCounter(INITIAL, all);
    assert IdOf(0) == IdOf(U64_LIMIT) == 1;
    OneMoreEvent(INITIAL, all, Register(U64_LIMIT));
    events := all + [Register(U64_LIMIT)];
  }
}
