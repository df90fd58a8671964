/**
  Several devices that share one key, a network that delivers uploads late, repeatedly and in any
  order, and the server's store. The server's side of every step is `Sync.PutInto`.
  */
module SyncRuns {
  import opened E2ee
  import opened Fnv
  import opened Ints
  import opened Sync
  import opened Wrappers

  datatype DataType =
    Bookmarks | History | Passwords | OpenTabs | Extensions | Settings | PaymentMethods | Addresses | Themes

  datatype OutgoingRecord = OutgoingRecord(dataType: DataType, sealed: SealedRecord)

  function PrepareUpload(key: Key, dataType: DataType, nonce: Nonce, plaintext: seq<Byte>): OutgoingRecord {
    OutgoingRecord(dataType, Seal(key, nonce, plaintext))
  }

  function ApplyDownload(key: Key, record: SealedRecord): seq<Byte> {
    Open(key, record)
  }

  /** An upload as its device made it; only its `Wire` form leaves the device. */
  datatype Upload = Upload(to: RecordKey, dataType: DataType, nonce: Nonce, plaintext: seq<Byte>, version: u64)

  function Wire(key: Key, u: Upload): Delivery {
    var sealed := PrepareUpload(key, u.dataType, u.nonce, u.plaintext).sealed;
    Delivery(u.to, Blob(sealed.nonce, sealed.ciphertext, u.version))
  }

  /** The store, the uploads made so far by any device, and the uploads that have reached the server, in order. */
  datatype System = System(records: Records, sent: seq<Upload>, arrived: seq<Upload>)

  const INITIAL := System(map[], [], [])

  datatype Event =
    | Send(upload: Upload)
    | Arrive(index: nat)

  predicate Enabled(s: System, e: Event) {
    e.Arrive? ==> e.index < |s.sent|
  }

  function Apply(key: Key, s: System, e: Event): System
    requires Enabled(s, e)
  {
    match e
    case Send(upload) => s.(sent := s.sent + [upload])
    case Arrive(i) =>
      var d := Wire(key, s.sent[i]);
      s.(records := PutInto(s.records, d.key, d.blob), arrived := s.arrived + [s.sent[i]])
  }

  predicate Runs(key: Key, s: System, events: seq<Event>)
    decreases |events|
  {
    events == [] || (Enabled(s, events[0]) && Runs(key, Apply(key, s, events[0]), events[1..]))
  }

  function After(key: Key, s: System, events: seq<Event>): System
    requires Runs(key, s, events)
    decreases |events|
  {
    if events == [] then s else After(key, Apply(key, s, events[0]), events[1..])
  }

  /** A device's `get` followed by `apply_download`. */
  function Download(key: Key, s: System, record: RecordKey): Option<seq<Byte>> {
    if record in s.records then
      var blob := s.records[record];
      Some(ApplyDownload(key, SealedRecord(blob.nonce, blob.ciphertext)))
    else None
  }

  /** A prepared upload carries its own type and nonce, hides nothing but the content, and opens to what was sealed. */
  lemma UploadIsExact(key: Key, dataType: DataType, nonce: Nonce, plaintext: seq<Byte>)
    ensures var record := PrepareUpload(key, dataType, nonce, plaintext);
            && record.dataType == dataType && record.sealed.nonce == nonce
            && |record.sealed.ciphertext| == |plaintext|
            && ApplyDownload(key, record.sealed) == plaintext
  {
    OpenAndSealAreInverse(key, nonce, plaintext, Seal(key, nonce, plaintext));
  }

  /** What the server gets of an upload: where it goes, its version, its nonce and the ciphertext. */
  lemma WireIsExact(key: Key, u: Upload)
    ensures var d := Wire(key, u);
            && d.key == u.to && d.blob.version == u.version && d.blob.nonce == u.nonce
            && d.blob.ciphertext == Xored(key, u.nonce, u.plaintext)
  {}

  // ---------------------------------------------------------------- invariant

  function WireAll(key: Key, uploads: seq<Upload>): (ds: seq<Delivery>)
    ensures |ds| == |uploads|
  {
    seq(|uploads|, i requires 0 <= i < |uploads| => Wire(key, uploads[i]))
  }

  ghost predicate Inv(key: Key, s: System) {
    && s.records == DeliverAll(map[], WireAll(key, s.arrived))
    && forall u :: u in s.arrived ==> u in s.sent
  }

  lemma StepKeepsInv(key: Key, s: System, e: Event)
    requires Inv(key, s) && Enabled(s, e)
    ensures Inv(key, Apply(key, s, e))
  {
    if e.Arrive? {
      var t := Apply(key, s, e);
      assert WireAll(key, t.arrived)[..|s.arrived|] == WireAll(key, s.arrived);
    }
  }

  lemma {:induction false} RunKeepsInv(key: Key, s: System, events: seq<Event>)
    requires Inv(key, s) && Runs(key, s, events)
    ensures Inv(key, After(key, s, events))
    decreases |events|
  {
    if events != [] {
      StepKeepsInv(key, s, events[0]);
      RunKeepsInv(key, Apply(key, s, events[0]), events[1..]);
    }
  }

  // ---------------------------------------------------------------- end to end

  /** The i-th arrival is the last of maximal version for `record`. */
  ghost predicate IsCurrent(arrived: seq<Upload>, i: nat, record: RecordKey) {
    && i < |arrived| && arrived[i].to == record
    && (forall j :: 0 <= j < i && arrived[j].to == record ==> arrived[j].version <= arrived[i].version)
    && (forall j :: i < j < |arrived| && arrived[j].to == record ==> arrived[j].version < arrived[i].version)
  }

  lemma CurrentIsWinner(key: Key, arrived: seq<Upload>, i: nat, record: RecordKey)
    ensures IsCurrent(arrived, i, record) <==> IsWinner(WireAll(key, arrived), i, record)
  {
    forall j | 0 <= j < |arrived|
      ensures WireAll(key, arrived)[j].key == arrived[j].to
      ensures WireAll(key, arrived)[j].blob.version == arrived[j].version
    {}
    var ds := WireAll(key, arrived);
    if IsWinner(ds, i, record) {
      assert forall j :: 0 <= j < |arrived| && arrived[j].to == record ==> ds[j].key == record;
    }
    if IsCurrent(arrived, i, record) {
      assert forall j :: 0 <= j < |arrived| && ds[j].key == record ==> arrived[j].to == record;
    }
  }

  lemma WireOpens(key: Key, u: Upload)
    ensures var blob := Wire(key, u).blob;
            ApplyDownload(key, SealedRecord(blob.nonce, blob.ciphertext)) == u.plaintext
  {
    OpenAndSealAreInverse(key, u.nonce, u.plaintext, Seal(key, u.nonce, u.plaintext));
  }

  /**
    End to end, in every run: what any device downloads for a record is exactly the plaintext some
    device uploaded, namely the last arrival among those of maximal version; and a record
    downloads as missing exactly when nothing for it has arrived.
    */
  lemma DownloadIsCurrentPlaintext(key: Key, events: seq<Event>, record: RecordKey)
    requires Runs(key, INITIAL, events)
    ensures var s := After(key, INITIAL, events);
            && (Download(key, s, record) == None <==> forall u :: u in s.arrived ==> u.to != record)
            && (Download(key, s, record).Some? ==>
                  exists i: nat ::
                    && IsCurrent(s.arrived, i, record) && s.arrived[i] in s.sent
                    && Download(key, s, record) == Some(s.arrived[i].plaintext))
  {
    RunKeepsInv(key, INITIAL, events);
    var s := After(key, INITIAL, events);
    var i := Current(key, s, record);
    if i.Some? {
      assert s.arrived[i.value] in s.arrived;
    }
  }

  /** The arrival that a download of `record` shows, if there is one. */
  lemma Current(key: Key, s: System, record: RecordKey) returns (current: Option<nat>)
    requires Inv(key, s)
    ensures current.Some? <==> exists u :: u in s.arrived && u.to == record
    ensures current.None? ==> Download(key, s, record) == None
    ensures current.Some? ==> IsCurrent(s.arrived, current.value, record)
    ensures current.Some? ==> Download(key, s, record) == Some(s.arrived[current.value].plaintext)
  {
    var ds := WireAll(key, s.arrived);
    current := StoredIsWinner(ds, record);
    if current.Some? {
      CurrentIsWinner(key, s.arrived, current.value, record);
      WireOpens(key, s.arrived[current.value]);
      assert s.arrived[current.value] in s.arrived;
    } else {
      forall u | u in s.arrived
        ensures u.to != record
      {
        var j :| 0 <= j < |s.arrived| && s.arrived[j] == u;
        assert ds[j] in ds;
      }
    }
  }

  /** The version a device sees for a record never goes down from one download to a later one. */
  lemma {:induction false} SeenVersionsNeverDecrease(key: Key, s: System, events: seq<Event>, record: RecordKey)
    requires Runs(key, s, events) && record in s.records
    ensures record in After(key, s, events).records
    ensures s.records[record].version <= After(key, s, events).records[record].version
    decreases |events|
  {
    if events != [] {
      SeenVersionsNeverDecrease(key, Apply(key, s, events[0]), events[1..], record);
    }
  }

  /** Listing a collection names exactly the records for which some upload has arrived. */
  lemma ListingNamesArrivals(key: Key, events: seq<Event>, ids: seq<string>, account: string, collection: string)
    requires Runs(key, INITIAL, events)
    requires IsListing(ids, After(key, INITIAL, events).records, account, collection)
    ensures forall id :: id in ids <==>
              exists u :: u in After(key, INITIAL, events).arrived && u.to == RecordKey(account, collection, id)
  {
    RunKeepsInv(key, INITIAL, events);
    forall id
      ensures id in ids <==>
        exists u :: u in After(key, INITIAL, events).arrived && u.to == RecordKey(account, collection, id)
    {
      DownloadIsCurrentPlaintext(key, events, RecordKey(account, collection, id));
    }
  }

  // ---------------------------------------------------------------- replicas

  /** No arrival for the same record has a higher version. */
  ghost predicate IsTopUpload(u: Upload, uploads: seq<Upload>) {
    u in uploads && forall v :: v in uploads && v.to == u.to ==> v.version <= u.version
  }

  /** The highest version of each record carries one plaintext. */
  ghost predicate TopPlaintextsAgree(uploads: seq<Upload>) {
    forall u, v :: IsTopUpload(u, uploads) && IsTopUpload(v, uploads) && u.to == v.to ==> u.plaintext == v.plaintext
  }

  /** The same uploads have arrived in both runs, in whatever order and however often. */
  ghost predicate SameArrivals(key: Key, run: seq<Event>, other: seq<Event>)
    requires Runs(key, INITIAL, run)
  {
    Runs(key, INITIAL, other) &&
    forall u :: u in After(key, INITIAL, run).arrived <==> u in After(key, INITIAL, other).arrived
  }

  /** After both runs every record downloads alike. */
  ghost predicate ServeAlike(key: Key, run: seq<Event>, other: seq<Event>)
    requires Runs(key, INITIAL, run) && Runs(key, INITIAL, other)
  {
    forall record ::
      Download(key, After(key, INITIAL, run), record) == Download(key, After(key, INITIAL, other), record)
  }

  lemma CurrentIsTop(uploads: seq<Upload>, i: nat, record: RecordKey)
    requires IsCurrent(uploads, i, record)
    ensures IsTopUpload(uploads[i], uploads)
  {
    forall v | v in uploads && v.to == record
      ensures v.version <= uploads[i].version
    {
      var j :| 0 <= j < |uploads| && uploads[j] == v;
    }
  }

  lemma SameDownload(key: Key, s: System, t: System, record: RecordKey)
    requires Inv(key, s) && Inv(key, t) && TopPlaintextsAgree(s.arrived)
    requires forall u :: u in s.arrived <==> u in t.arrived
    ensures Download(key, s, record) == Download(key, t, record)
  {
    var i := Current(key, s, record);
    var j := Current(key, t, record);
    if i.Some? && j.Some? {
      CurrentIsTop(s.arrived, i.value, record);
      CurrentIsTop(t.arrived, j.value, record);
      assert IsTopUpload(t.arrived[j.value], s.arrived);
    }
  }

  lemma {:induction false} OneMoreEvent(key: Key, s: System, events: seq<Event>, e: Event)
    requires Runs(key, s, events) && Enabled(After(key, s, events), e)
    ensures Runs(key, s, events + [e])
    ensures After(key, s, events + [e]) == Apply(key, After(key, s, events), e)
    decreases |events|
  {
    if events == [] {
      assert [e][1..] == [];
    } else {
      OneMoreEvent(key, Apply(key, s, events[0]), events[1..], e);
      assert (events + [e])[1..] == events[1..] + [e];
    }
  }

  /** If one of the top uploads arrives again, a server serves that one. */
  lemma ArriveAgain(key: Key, run: seq<Event>, u: Upload) returns (other: seq<Event>)
    requires Runs(key, INITIAL, run) && IsTopUpload(u, After(key, INITIAL, run).arrived)
    ensures SameArrivals(key, run, other)
    ensures Download(key, After(key, INITIAL, other), u.to) == Some(u.plaintext)
  {
    RunKeepsInv(key, INITIAL, run);
    var s := After(key, INITIAL, run);
    var k :| 0 <= k < |s.sent| && s.sent[k] == u;
    OneMoreEvent(key, INITIAL, run, Arrive(k));
    other := run + [Arrive(k)];
    RunKeepsInv(key, INITIAL, other);
    LatestIsCurrent(s.arrived, u);
    CurrentIsWinner(key, s.arrived + [u], |s.arrived|, u.to);
    WinnerIsStored(WireAll(key, s.arrived + [u]), |s.arrived|, u.to);
    WireOpens(key, u);
  }

  lemma LatestIsCurrent(arrived: seq<Upload>, u: Upload)
    requires IsTopUpload(u, arrived)
    ensures IsCurrent(arrived + [u], |arrived|, u.to)
  {
    forall j | 0 <= j < |arrived| && arrived[j].to == u.to
      ensures arrived[j].version <= u.version
    {
      assert arrived[j] in arrived;
    }
  }

  /**
    Servers that have received the same uploads, in whatever order and however often, serve every device the
    same plaintexts if and only if the highest version of each record carries one plaintext.
    */
  lemma ReplicasAgreeExactly(key: Key, run: seq<Event>)
    requires Runs(key, INITIAL, run)
    ensures (forall other :: SameArrivals(key, run, other) ==> ServeAlike(key, run, other))
       <==> TopPlaintextsAgree(After(key, INITIAL, run).arrived)
  {
    var s := After(key, INITIAL, run);
    RunKeepsInv(key, INITIAL, run);
    if TopPlaintextsAgree(s.arrived) {
      forall other | SameArrivals(key, run, other)
        ensures ServeAlike(key, run, other)
      {
        RunKeepsInv(key, INITIAL, other);
        forall record
          ensures Download(key, s, record) == Download(key, After(key, INITIAL, other), record)
        {
          SameDownload(key, s, After(key, INITIAL, other), record);
        }
      }
    } else {
      var u, v :| IsTopUpload(u, s.arrived) && IsTopUpload(v, s.arrived) && u.to == v.to && u.plaintext != v.plaintext;
      var one := ArriveAgain(key, run, u);
      var two := ArriveAgain(key, run, v);
      assert !(ServeAlike(key, run, one) && ServeAlike(key, run, two));
    }
  }

  /** Where they differ: two devices claim one version of a record for different plaintexts. */
  lemma ReplicasDisagree(key: Key, u: Upload, v: Upload) returns (run: seq<Event>, other: seq<Event>)
    requires u.to == v.to && u.version == v.version && u.plaintext != v.plaintext
    ensures Runs(key, INITIAL, run) && SameArrivals(key, run, other)
    ensures Download(key, After(key, INITIAL, run), u.to) == Some(u.plaintext)
    ensures Download(key, After(key, INITIAL, other), u.to) == Some(v.plaintext)
  {
    OneMoreEvent(key, INITIAL, [], Send(u));
    OneMoreEvent(key, INITIAL, [] + [Send(u)], Send(v));
    var sends := [] + [Send(u)] + [Send(v)];
    assert After(key, INITIAL, sends).sent == [u, v];
    OneMoreEvent(key, INITIAL, sends, Arrive(0));
    OneMoreEvent(key, INITIAL, sends + [Arrive(0)], Arrive(1));
    var both := sends + [Arrive(0)] + [Arrive(1)];
    assert After(key, INITIAL, both).arrived == [u, v];
    assert IsTopUpload(u, [u, v]) && IsTopUpload(v, [u, v]);
    run := ArriveAgain(key, both, u);
    other := ArriveAgain(key, both, v);
  }

  lemma SameArrivalsSamePuts(key: Key, a: seq<Upload>, b: seq<Upload>)
    requires forall u :: u in a <==> u in b
    ensures SamePuts(WireAll(key, a), WireAll(key, b))
  {
    PutsOf(key, a, b);
    PutsOf(key, b, a);
  }

  lemma PutsOf(key: Key, a: seq<Upload>, b: seq<Upload>)
    requires forall u :: u in a ==> u in b
    ensures forall d :: d in WireAll(key, a) ==> d in WireAll(key, b)
  {
    forall d | d in WireAll(key, a)
      ensures d in WireAll(key, b)
    {
      var i :| 0 <= i < |a| && WireAll(key, a)[i] == d;
      assert a[i] in b;
      var j :| 0 <= j < |b| && b[j] == a[i];
      assert WireAll(key, b)[j] == d;
    }
  }

  /** The highest version of each record was sealed from one nonce and one plaintext. */
  ghost predicate TopUploadsAgree(uploads: seq<Upload>) {
    forall u, v :: IsTopUpload(u, uploads) && IsTopUpload(v, uploads) && u.to == v.to
      ==> u.nonce == v.nonce && u.plaintext == v.plaintext
  }

  /** If nonces agree as well, servers that have received the same uploads hold the same records. */
  lemma ReplicasHoldTheSame(key: Key, run: seq<Event>, other: seq<Event>)
    requires Runs(key, INITIAL, run) && SameArrivals(key, run, other)
    requires TopUploadsAgree(After(key, INITIAL, run).arrived)
    ensures After(key, INITIAL, run).records == After(key, INITIAL, other).records
  {
    RunKeepsInv(key, INITIAL, run);
    RunKeepsInv(key, INITIAL, other);
    var a, b := After(key, INITIAL, run).arrived, After(key, INITIAL, other).arrived;
    SameArrivalsSamePuts(key, a, b);
    TopWiresAgree(key, a);
    ConvergesExactly(WireAll(key, a));
  }

  lemma TopWiresAgree(key: Key, uploads: seq<Upload>)
    requires TopUploadsAgree(uploads)
    ensures TopsAgree(WireAll(key, uploads))
  {
    var ds := WireAll(key, uploads);
    forall d, e | IsTop(d, ds) && IsTop(e, ds) && d.key == e.key
      ensures d.blob == e.blob
    {
      var i :| 0 <= i < |ds| && ds[i] == d;
      var j :| 0 <= j < |ds| && ds[j] == e;
      TopWireIsTopUpload(key, uploads, i);
      TopWireIsTopUpload(key, uploads, j);
    }
  }

  lemma TopWireIsTopUpload(key: Key, uploads: seq<Upload>, i: nat)
    requires i < |uploads| && IsTop(WireAll(key, uploads)[i], WireAll(key, uploads))
    ensures IsTopUpload(uploads[i], uploads)
  {
    forall v | v in uploads && v.to == uploads[i].to
      ensures v.version <= uploads[i].version
    {
      var k :| 0 <= k < |uploads| && uploads[k] == v;
      assert WireAll(key, uploads)[k] in WireAll(key, uploads);
    }
  }
}
