/** The zero-knowledge sync server's store: versioned, last writer wins. */
module Sync {
  import opened E2ee
  import opened Fnv
  import opened Ints
  import opened Wrappers

  datatype Blob = Blob(nonce: Nonce, ciphertext: seq<Byte>, version: u64)

  datatype RecordKey = RecordKey(account: string, collection: string, recordId: string)

  type Records = map<RecordKey, Blob>

  const STALE := "stale write: version older than stored"

  predicate IsStale(records: Records, key: RecordKey, blob: Blob) {
    key in records && blob.version < records[key].version
  }

  /** The store after an upsert; a stale one changes nothing. */
  function PutInto(records: Records, key: RecordKey, blob: Blob): Records {
    if IsStale(records, key, blob) then records else records[key := blob]
  }

  // ---------------------------------------------------------------- sequences of puts

  datatype Delivery = Delivery(key: RecordKey, blob: Blob)

  /** The store after the deliveries arrive, first to last. */
  function DeliverAll(records: Records, deliveries: seq<Delivery>): Records
    decreases |deliveries|
  {
    if deliveries == [] then records
    else
      var last := deliveries[|deliveries| - 1];
      PutInto(DeliverAll(records, deliveries[..|deliveries| - 1]), last.key, last.blob)
  }

  /** The i-th delivery is the last-arriving one among those of maximal version for `key`. */
  ghost predicate IsWinner(deliveries: seq<Delivery>, i: nat, key: RecordKey) {
    && i < |deliveries| && deliveries[i].key == key
    && (forall j :: 0 <= j < i && deliveries[j].key == key
          ==> deliveries[j].blob.version <= deliveries[i].blob.version)
    && (forall j :: i < j < |deliveries| && deliveries[j].key == key
          ==> deliveries[j].blob.version < deliveries[i].blob.version)
  }

  /** The delivery that ends up stored under `key`, if any arrived. */
  lemma {:induction false} StoredIsWinner(deliveries: seq<Delivery>, key: RecordKey)
    returns (winner: Option<nat>)
    ensures winner.Some? <==> key in DeliverAll(map[], deliveries)
    ensures winner.Some? <==> exists d :: d in deliveries && d.key == key
    ensures winner.Some? ==> IsWinner(deliveries, winner.value, key)
    ensures winner.Some? ==> DeliverAll(map[], deliveries)[key] == deliveries[winner.value].blob
    decreases |deliveries|
  {
    if deliveries == [] {
      return None;
    }
    var n := |deliveries| - 1;
    var front, last := deliveries[..n], deliveries[n];
    assert deliveries == front + [last];
    winner := StoredIsWinner(front, key);
    if last.key == key && !IsStale(DeliverAll(map[], front), key, last.blob) {
      winner := Some(n);
    }
  }

  lemma WinnerIsUnique(deliveries: seq<Delivery>, i: nat, j: nat, key: RecordKey)
    requires IsWinner(deliveries, i, key) && IsWinner(deliveries, j, key)
    ensures i == j
  {}

  /** After any sequence of puts a key holds exactly the last-arriving blob among those of maximal version. */
  lemma WinnerIsStored(deliveries: seq<Delivery>, i: nat, key: RecordKey)
    requires IsWinner(deliveries, i, key)
    ensures key in DeliverAll(map[], deliveries)
    ensures DeliverAll(map[], deliveries)[key] == deliveries[i].blob
  {
    var winner := StoredIsWinner(deliveries, key);
    assert deliveries[i] in deliveries;
    WinnerIsUnique(deliveries, i, winner.value, key);
  }

  /** Versions stored under a key never go down. */
  lemma {:induction false} VersionsNeverDecrease(records: Records, deliveries: seq<Delivery>, key: RecordKey)
    requires key in records
    ensures key in DeliverAll(records, deliveries)
    ensures records[key].version <= DeliverAll(records, deliveries)[key].version
    decreases |deliveries|
  {
    if deliveries != [] {
      VersionsNeverDecrease(records, deliveries[..|deliveries| - 1], key);
    }
  }

  /** No delivery for the same key has a higher version. */
  ghost predicate IsTop(d: Delivery, deliveries: seq<Delivery>) {
    d in deliveries && forall e :: e in deliveries && e.key == d.key ==> e.blob.version <= d.blob.version
  }

  lemma WinnerIsTop(deliveries: seq<Delivery>, i: nat, key: RecordKey)
    requires IsWinner(deliveries, i, key)
    ensures IsTop(deliveries[i], deliveries)
  {
    forall e | e in deliveries && e.key == key
      ensures e.blob.version <= deliveries[i].blob.version
    {
      var j :| 0 <= j < |deliveries| && deliveries[j] == e;
    }
  }

  // ---------------------------------------------------------------- the store

  /** `ids` lists the records of one collection, in some order, each exactly once. */
  ghost predicate IsListing(ids: seq<string>, records: Records, account: string, collection: string) {
    && (forall id :: id in ids <==> RecordKey(account, collection, id) in records)
    && (forall i, j :: 0 <= i < j < |ids| ==> ids[i] != ids[j])
  }

  class SyncStore {
    var records: Records
    ghost var history: seq<Delivery>  // every put so far, refused or not, in order

    ghost predicate Valid()
      reads this
    {
      records == DeliverAll(map[], history)
    }

    constructor ()
      ensures Valid() && history == []
    {
      records := map[];
      history := [];
    }

    /** Refused exactly when some earlier put of that key, refused or not, carried a higher version. */
    method Put(key: RecordKey, blob: Blob) returns (r: Result<(), string>)
      requires Valid()
      modifies this
      ensures Valid() && history == old(history) + [Delivery(key, blob)]
      ensures records == PutInto(old(records), key, blob)
      ensures r == Ok(()) || r == Err(STALE)
      ensures r.Err? <==> exists d :: d in old(history) && d.key == key && blob.version < d.blob.version
    {
      ghost var winner := StoredIsWinner(history, key);
      if winner.Some? {
        WinnerIsTop(history, winner.value, key);
      }
      history := history + [Delivery(key, blob)];
      if key in records {
        if blob.version < records[key].version {
          return Err(STALE);
        }
      }
      records := records[key := blob];
      return Ok(());
    }

    /** The last of the puts of maximal version for that key; nothing exactly when there was none. */
    method Get(key: RecordKey) returns (blob: Option<Blob>)
      requires Valid()
      ensures blob.None? <==> forall d :: d in history ==> d.key != key
      ensures blob.Some? ==> exists i: nat :: IsWinner(history, i, key) && blob.value == history[i].blob
    {
      ghost var winner := StoredIsWinner(history, key);
      blob := if key in records then Some(records[key]) else None;
    }

    /** Visits the keys in whatever order the hash map yields them. */
    method List(account: string, collection: string) returns (ids: seq<string>)
      requires Valid()
      ensures IsListing(ids, records, account, collection)
      ensures forall id :: id in ids <==>
        exists d :: d in history && d.key == RecordKey(account, collection, id)
    {
      ids := [];
      var todo := records.Keys;
      while todo != {}
        invariant todo <= records.Keys
        invariant forall id ::
          id in ids <==> RecordKey(account, collection, id) in records && RecordKey(account, collection, id) !in todo
        invariant forall i, j :: 0 <= i < j < |ids| ==> ids[i] != ids[j]
        decreases todo
      {
        var key :| key in todo;
        if key.account == account && key.collection == collection {
          assert key == RecordKey(account, collection, key.recordId);
          ids := ids + [key.recordId];
        }
        todo := todo - {key};
      }
      forall id
        ensures RecordKey(account, collection, id) in records <==>
          exists d :: d in history && d.key == RecordKey(account, collection, id)
      {
        ghost var winner := StoredIsWinner(history, RecordKey(account, collection, id));
      }
    }
  }

  // ---------------------------------------------------------------- convergence

  /** The same puts, in any order and with any number of repeated deliveries. */
  ghost predicate SamePuts(ds: seq<Delivery>, es: seq<Delivery>) {
    forall d :: d in ds <==> d in es
  }

  /** The highest version of each key carries only one blob. */
  ghost predicate TopsAgree(deliveries: seq<Delivery>) {
    forall d, e :: IsTop(d, deliveries) && IsTop(e, deliveries) && d.key == e.key ==> d.blob == e.blob
  }

  lemma StoredAgree(ds: seq<Delivery>, es: seq<Delivery>, key: RecordKey)
    requires SamePuts(ds, es) && TopsAgree(ds)
    ensures key in DeliverAll(map[], ds) <==> key in DeliverAll(map[], es)
    ensures key in DeliverAll(map[], ds) ==> DeliverAll(map[], ds)[key] == DeliverAll(map[], es)[key]
  {
    var i := StoredIsWinner(ds, key);
    var j := StoredIsWinner(es, key);
    if i.Some? {
      assert ds[i.value] in es;
    }
    if j.Some? {
      assert es[j.value] in ds;
    }
    if i.Some? && j.Some? {
      WinnerIsTop(ds, i.value, key);
      WinnerIsTop(es, j.value, key);
      assert IsTop(es[j.value], ds);
    }
  }

  lemma RedeliveryWins(ds: seq<Delivery>, d: Delivery)
    requires IsTop(d, ds)
    ensures SamePuts(ds, ds + [d])
    ensures d.key in DeliverAll(map[], ds + [d]) && DeliverAll(map[], ds + [d])[d.key] == d.blob
  {
    var es := ds + [d];
    forall j | 0 <= j < |ds| && es[j].key == d.key
      ensures es[j].blob.version <= d.blob.version
    {
      assert es[j] in ds;
    }
    WinnerIsStored(es, |ds|, d.key);
  }

  /**
    Convergence, exactly: every order and repetition of the same puts ends in the same store
    if and only if the highest version of each key carries only one blob.
    */
  lemma ConvergesExactly(ds: seq<Delivery>)
    ensures (forall es :: SamePuts(ds, es) ==> DeliverAll(map[], es) == DeliverAll(map[], ds)) <==> TopsAgree(ds)
  {
    if TopsAgree(ds) {
      forall es | SamePuts(ds, es)
        ensures DeliverAll(map[], es) == DeliverAll(map[], ds)
      {
        forall key
          ensures key in DeliverAll(map[], ds) <==> key in DeliverAll(map[], es)
          ensures key in DeliverAll(map[], ds) ==> DeliverAll(map[], ds)[key] == DeliverAll(map[], es)[key]
        {
          StoredAgree(ds, es, key);
        }
      }
    } else {
      var d, e :| IsTop(d, ds) && IsTop(e, ds) && d.key == e.key && d.blob != e.blob;
      RedeliveryWins(ds, d);
      RedeliveryWins(ds, e);
      assert DeliverAll(map[], ds + [d]) != DeliverAll(map[], ds + [e]);
    }
  }

  /**
    Where convergence fails: two devices put different blobs under one key and version, and the server
    that hears of the one first ends up with the other.
    */
  lemma EqualVersionsDiverge(key: RecordKey, a: Blob, b: Blob)
    requires a.version == b.version && a.ciphertext != b.ciphertext
    ensures var ab, ba := [Delivery(key, a), Delivery(key, b)], [Delivery(key, b), Delivery(key, a)];
            && SamePuts(ab, ba) && !TopsAgree(ab)
            && DeliverAll(map[], ab) == map[key := b] && DeliverAll(map[], ba) == map[key := a]
  {
    var d, e := Delivery(key, a), Delivery(key, b);
    assert IsTop(d, [d, e]) && IsTop(e, [d, e]);
    TwoPuts(d, e);
    TwoPuts(e, d);
  }

  lemma TwoPuts(d: Delivery, e: Delivery)
    requires d.key == e.key && d.blob.version <= e.blob.version
    ensures DeliverAll(map[], [d, e]) == map[d.key := e.blob]
  {
    assert [d, e][..1] == [d] && [d][..0] == [];
    assert DeliverAll(map[], [d]) == map[d.key := d.blob];
  }
}
