/** Capabilities and the broker that mints, verifies and revokes them (one call at a time). */
module Ipc {
  import opened Ints
  import opened Wrappers

  datatype Authority =
    NetworkFetch | StorageRead | StorageWrite | AgentActuate | AiObserve | AiLocal | AiRemote | Render

  datatype IpcError = Expired | Unauthorized | OriginMismatch | Amplification | Forged

  datatype Capability = Capability(id: u64, origin: string, authorities: seq<Authority>, expiresAt: u64) {

    predicate IsExpired(now: u64) {
      now >= expiresAt
    }

    predicate Grants(authority: Authority) {
      authority in authorities
    }

    /** A copy with fewer authorities and an earlier expiry; anything else is an amplification. */
    function Attenuate(wanted: seq<Authority>, expiry: u64): (r: Result<Capability, IpcError>)
      ensures r.Ok? ==> NoWiderThan(r.value, this) && r.value.authorities == wanted && r.value.expiresAt == expiry
      ensures r.Err? ==> r.error == Amplification && !NoWiderThan(Capability(id, origin, wanted, expiry), this)
    {
      if expiry > expiresAt then Err(Amplification)
      else if exists a :: a in wanted && a !in authorities then Err(Amplification)
      else Ok(Capability(id, origin, wanted, expiry))
    }
  }

  /** `narrow` stands for the same mint as `wide` and is nowhere more powerful. */
  predicate NoWiderThan(narrow: Capability, wide: Capability) {
    && narrow.id == wide.id
    && narrow.origin == wide.origin
    && (forall a :: a in narrow.authorities ==> a in wide.authorities)
    && narrow.expiresAt <= wide.expiresAt
  }

  // ---------------------------------------------------------------- chains of attenuations

  datatype Narrowing = Narrowing(authorities: seq<Authority>, expiresAt: u64)

  /** Attenuate along a whole chain, stopping at the first refusal. */
  function AttenuateAll(cap: Capability, chain: seq<Narrowing>): Result<Capability, IpcError>
    decreases |chain|
  {
    if chain == [] then Ok(cap)
    else
      var next := cap.Attenuate(chain[0].authorities, chain[0].expiresAt);
      if next.Err? then next else AttenuateAll(next.value, chain[1..])
  }

  /**
    A chain of successful attenuations never widens, and gives exactly what one direct attenuation
    of the root with the last request gives.
    */
  lemma {:induction false} ChainIsOneAttenuation(cap: Capability, chain: seq<Narrowing>)
    requires chain != [] && AttenuateAll(cap, chain).Ok?
    ensures NoWiderThan(AttenuateAll(cap, chain).value, cap)
    ensures var last := chain[|chain| - 1];
            AttenuateAll(cap, chain) == cap.Attenuate(last.authorities, last.expiresAt)
    decreases |chain|
  {
    var first := cap.Attenuate(chain[0].authorities, chain[0].expiresAt).value;
    if |chain| > 1 {
      ChainIsOneAttenuation(first, chain[1..]);
    } else {
      assert AttenuateAll(first, chain[1..]) == Ok(first);
    }
  }

  // ---------------------------------------------------------------- the broker's shared state

  /** The atomic counter and the mutex-guarded registry. */
  datatype Registry = Registry(nextId: u64, issued: map<u64, string>)

  const EMPTY_REGISTRY := Registry(1, map[])

  function IdTaken(r: Registry): Registry {
    r.(nextId := WrappingAdd64(r.nextId, 1))
  }

  function IdRegistered(r: Registry, id: u64, origin: string): Registry {
    r.(issued := r.issued[id := origin])
  }

  function IdRevoked(r: Registry, id: u64): Registry {
    r.(issued := r.issued - {id})
  }

  /** What `verify` answers while it holds the lock. */
  function Verdict(issued: map<u64, string>, cap: Capability, expectedOrigin: string, authority: Authority, now: u64):
    Result<(), IpcError>
  {
    if cap.id !in issued || issued[cap.id] != cap.origin then Err(Forged)
    else if cap.IsExpired(now) then Err(Expired)
    else if cap.origin != expectedOrigin then Err(OriginMismatch)
    else if !cap.Grants(authority) then Err(Unauthorized)
    else Ok(())
  }

  /** A capability that verifies vouches, at that instant, for everything it was attenuated from. */
  lemma ChildVouchesForParent(issued: map<u64, string>, parent: Capability, wanted: seq<Authority>, expiry: u64,
                              expectedOrigin: string, authority: Authority, now: u64)
    requires parent.Attenuate(wanted, expiry).Ok?
    requires Verdict(issued, parent.Attenuate(wanted, expiry).value, expectedOrigin, authority, now).Ok?
    ensures Verdict(issued, parent, expectedOrigin, authority, now).Ok?
  {
    assert authority in wanted;
  }

  /** The capability a mint hands out; the expiry is a wrapping `u64` sum. */
  function Minted(id: u64, origin: string, authorities: seq<Authority>, ttl: u64, now: u64): Capability {
    Capability(id, origin, authorities, WrappingAdd64(now, ttl))
  }

  /**
    A fresh capability verifies at the second it was minted exactly when the authority was asked for,
    the lifetime is positive and `now + ttl` does not overflow.
    */
  lemma FreshCapabilityVerifies(issued: map<u64, string>, id: u64, origin: string, authorities: seq<Authority>,
                                ttl: u64, now: u64, authority: Authority)
    requires id in issued && issued[id] == origin
    ensures Verdict(issued, Minted(id, origin, authorities, ttl, now), origin, authority, now).Ok?
       <==> authority in authorities && ttl > 0 && now + ttl < U64_LIMIT
  {
    if now + ttl >= U64_LIMIT {
      assert WrappingAdd64(now, ttl) == now + ttl - U64_LIMIT;
    }
  }

  /** The whole lifetime of a fresh capability: accepted exactly while `at` is below `now + ttl`, reduced to 64 bits. */
  lemma LifetimeIsExact(issued: map<u64, string>, id: u64, origin: string, authorities: seq<Authority>,
                        ttl: u64, now: u64, expectedOrigin: string, authority: Authority, at: u64)
    requires id in issued && issued[id] == origin
    ensures Verdict(issued, Minted(id, origin, authorities, ttl, now), expectedOrigin, authority, at).Ok?
       <==> && origin == expectedOrigin && authority in authorities
            && at < (if now + ttl < U64_LIMIT then now + ttl else now + ttl - U64_LIMIT)
  {}

  class Broker {
    var nextId: u64
    var issued: map<u64, string>

    ghost function State(): Registry
      reads this
    {
      Registry(nextId, issued)
    }

    constructor ()
      ensures State() == EMPTY_REGISTRY
    {
      nextId := 1;
      issued := map[];
    }

    /** The atomic `fetch_add` that opens a mint. */
    method TakeId() returns (id: u64)
      modifies this`nextId
      ensures id == old(nextId) && State() == IdTaken(old(State()))
    {
      id := nextId;
      nextId := WrappingAdd64(nextId, 1);
    }

    /** The registration made later, under the lock. */
    method Register(id: u64, origin: string)
      modifies this`issued
      ensures State() == IdRegistered(old(State()), id, origin)
    {
      issued := issued[id := origin];
    }

    method Mint(origin: string, authorities: seq<Authority>, ttl: u64, now: u64) returns (cap: Capability)
      modifies this
      ensures cap == Minted(old(nextId), origin, authorities, ttl, now)
      ensures State() == IdRegistered(IdTaken(old(State())), cap.id, origin)
      ensures forall a :: Verdict(issued, cap, origin, a, now).Ok?
                     <==> a in authorities && ttl > 0 && now + ttl < U64_LIMIT
    {
      var id := TakeId();
      Register(id, origin);
      cap := Minted(id, origin, authorities, ttl, now);
      forall a
        ensures Verdict(issued, cap, origin, a, now).Ok? <==> a in authorities && ttl > 0 && now + ttl < U64_LIMIT
      {
        FreshCapabilityVerifies(issued, id, origin, authorities, ttl, now, a);
      }
    }

    method Verify(cap: Capability, expectedOrigin: string, authority: Authority, now: u64)
      returns (r: Result<(), IpcError>)
      ensures r == Verdict(issued, cap, expectedOrigin, authority, now)
      ensures r != Err(Forged) ==> cap.id in issued && issued[cap.id] == cap.origin
      ensures r.Ok? <==>
        && cap.id in issued && issued[cap.id] == cap.origin == expectedOrigin
        && now < cap.expiresAt && authority in cap.authorities
    {
      if cap.id !in issued || issued[cap.id] != cap.origin {
        return Err(Forged);
      }
      if cap.IsExpired(now) {
        return Err(Expired);
      }
      if cap.origin != expectedOrigin {
        return Err(OriginMismatch);
      }
      if !cap.Grants(authority) {
        return Err(Unauthorized);
      }
      return Ok(());
    }

    method Revoke(cap: Capability)
      modifies this`issued
      ensures State() == IdRevoked(old(State()), cap.id)
      ensures forall c: Capability, o, a, now :: c.id == cap.id ==> Verdict(issued, c, o, a, now) == Err(Forged)
    {
      issued := issued - {cap.id};
    }
  }
}
