/** One renderer process per site: the process maps of the two engines, over whole runs. */
module SiteIsolation {
  import opened Ints
  import opened Sites

  /** The process table: who has which pid, and the last pid handed out. */
  datatype Table = Table(pids: map<string, u32>, lastPid: u32)

  const BLINK_START := Table(map[], 1000)
  const GECKO_START := Table(map[], 2000)

  /** A known site keeps its process; a new one gets the next pid (a wrapping `u32` increment). */
  function Assign(t: Table, site: string): Table {
    if site in t.pids then t
    else
      var pid := WrappingAdd32(t.lastPid, 1);
      Table(t.pids[site := pid], pid)
  }

  class IsolationMap {
    var sites: map<string, u32>
    var nextPid: u32

    ghost function State(): Table
      reads this
    {
      Table(sites, nextPid)
    }

    constructor ()
      ensures State() == BLINK_START
    {
      sites := map[];
      nextPid := 1000;
    }

    method ProcessFor(url: string) returns (pid: u32)
      modifies this
      ensures State() == Assign(old(State()), SiteForUrl(url))
      ensures SiteForUrl(url) in sites && pid == sites[SiteForUrl(url)]
      ensures forall site :: site in old(sites) ==> site in sites && sites[site] == old(sites)[site]
    {
      var site := SiteForUrl(url);
      if site in sites {
        return sites[site];
      }
      nextPid := WrappingAdd32(nextPid, 1);
      pid := nextPid;
      sites := sites[site := pid];
    }
  }

  class FissionMap {
    var byPrincipal: map<string, u32>
    var nextPid: u32

    ghost function State(): Table
      reads this
    {
      Table(byPrincipal, nextPid)
    }

    constructor ()
      ensures State() == GECKO_START
    {
      byPrincipal := map[];
      nextPid := 2000;
    }

    method ProcessForFrame(frameOrigin: string) returns (pid: u32)
      modifies this
      ensures State() == Assign(old(State()), PrincipalFor(frameOrigin))
      ensures PrincipalFor(frameOrigin) in byPrincipal && pid == byPrincipal[PrincipalFor(frameOrigin)]
      ensures forall p :: p in old(byPrincipal) ==> p in byPrincipal && byPrincipal[p] == old(byPrincipal)[p]
    {
      var principal := PrincipalFor(frameOrigin);
      if principal in byPrincipal {
        return byPrincipal[principal];
      }
      nextPid := WrappingAdd32(nextPid, 1);
      pid := nextPid;
      byPrincipal := byPrincipal[principal := pid];
    }
  }

  // ---------------------------------------------------------------- runs

  /** The table after a run of requests. */
  function After(start: Table, requests: seq<string>): Table
    decreases |requests|
  {
    if requests == [] then start else Assign(After(start, requests[..|requests| - 1]), requests[|requests| - 1])
  }

  /** The different sites requested, in order of first request. */
  function FirstRequests(requests: seq<string>): seq<string>
    decreases |requests|
  {
    if requests == [] then []
    else
      var before, last := FirstRequests(requests[..|requests| - 1]), requests[|requests| - 1];
      if last in before then before else before + [last]
  }

  ghost predicate Distinct(f: seq<string>) {
    forall i, j :: 0 <= i < j < |f| ==> f[i] != f[j]
  }

  lemma {:induction false} FirstRequestsAreDistinct(requests: seq<string>)
    ensures forall site :: site in FirstRequests(requests) <==> site in requests
    ensures Distinct(FirstRequests(requests))
    decreases |requests|
  {
    if requests != [] {
      var before, last := FirstRequests(requests[..|requests| - 1]), requests[|requests| - 1];
      FirstRequestsAreDistinct(requests[..|requests| - 1]);
      assert requests == requests[..|requests| - 1] + [last];
      if last !in before {
        assert Distinct(before + [last]) by {
          assert forall i :: 0 <= i < |before| ==> before[i] in before;
        }
      }
    }
  }

  /** The pid of the i-th new site, wherever the counter has wrapped to. */
  function PidOf(base: u32, i: nat): u32 {
    (base + 1 + i) % U32_LIMIT
  }

  lemma WrapsAgain(base: u32, n: nat)
    ensures WrappingAdd32((base + n) % U32_LIMIT, 1) == PidOf(base, n)
  {}

  /** The table that has served the new sites `f`, in that order. */
  ghost predicate Serves(t: Table, base: u32, f: seq<string>) {
    && t.lastPid == (base + |f|) % U32_LIMIT
    && (forall site :: site in t.pids <==> site in f)
    && (forall i :: 0 <= i < |f| ==> t.pids[f[i]] == PidOf(base, i))
  }

  lemma ServesNext(t: Table, base: u32, f: seq<string>, site: string)
    requires Serves(t, base, f) && site !in f
    ensures Serves(Assign(t, site), base, f + [site])
  {
    WrapsAgain(base, |f|);
    assert forall i :: 0 <= i < |f| ==> f[i] in f;
  }

  /** The table is fully determined by the order of first requests. */
  lemma {:induction false} TableFollowsFirstRequests(base: u32, requests: seq<string>)
    ensures Serves(After(Table(map[], base), requests), base, FirstRequests(requests))
    decreases |requests|
  {
    if requests != [] {
      var front, last := requests[..|requests| - 1], requests[|requests| - 1];
      TableFollowsFirstRequests(base, front);
      if last !in FirstRequests(front) {
        ServesNext(After(Table(map[], base), front), base, FirstRequests(front), last);
      }
    }
  }

  lemma PidsDistinct(base: u32, i: nat, j: nat)
    requires i < j < U32_LIMIT
    ensures PidOf(base, i) != PidOf(base, j)
  {}

  /** Different sites never share a process. */
  ghost predicate Isolates(t: Table) {
    forall a, b :: a in t.pids && b in t.pids && a != b ==> t.pids[a] != t.pids[b]
  }

  /**
    Over every run, sites get different processes exactly as long as at most 2^32 different
    sites have been requested.
    */
  lemma IsolatesExactly(base: u32, requests: seq<string>)
    ensures Isolates(After(Table(map[], base), requests)) <==> |FirstRequests(requests)| <= U32_LIMIT
  {
    var t, f := After(Table(map[], base), requests), FirstRequests(requests);
    TableFollowsFirstRequests(base, requests);
    FirstRequestsAreDistinct(requests);
    if |f| <= U32_LIMIT {
      forall a, b | a in t.pids && b in t.pids && a != b
        ensures t.pids[a] != t.pids[b]
      {
        var i :| 0 <= i < |f| && f[i] == a;
        var j :| 0 <= j < |f| && f[j] == b;
        PidsDistinct(base, if i < j then i else j, if i < j then j else i);
      }
    } else {
      assert PidOf(base, 0) == PidOf(base, U32_LIMIT);
      assert t.pids[f[0]] == t.pids[f[U32_LIMIT]] && f[0] != f[U32_LIMIT];
    }
  }

  /** A process once assigned is never reassigned. */
  lemma {:induction false} PidsAreStable(start: Table, before: seq<string>, after: seq<string>, site: string)
    requires site in After(start, before).pids
    ensures site in After(start, before + after).pids
    ensures After(start, before + after).pids[site] == After(start, before).pids[site]
    decreases |after|
  {
    if after == [] {
      assert before + after == before;
    } else {
      PidsAreStable(start, before, after[..|after| - 1], site);
      assert (before + after)[..|before + after| - 1] == before + after[..|after| - 1];
    }
  }

  lemma {:induction false} RequestedIsAssigned(start: Table, requests: seq<string>, i: nat)
    requires i < |requests|
    ensures requests[i] in After(start, requests).pids
    decreases |requests|
  {
    if i < |requests| - 1 {
      RequestedIsAssigned(start, requests[..|requests| - 1], i);
    }
  }

  function SitesOf(siteOf: string -> string, urls: seq<string>): (r: seq<string>)
    ensures |r| == |urls|
  {
    seq(|urls|, i requires 0 <= i < |urls| => siteOf(urls[i]))
  }

  /** The pid returned for the i-th URL of a run that began with an empty table. */
  function PidReturned(base: u32, siteOf: string -> string, urls: seq<string>, i: nat): u32
    requires i < |urls|
  {
    RequestedIsAssigned(Table(map[], base), SitesOf(siteOf, urls[..i + 1]), i);
    After(Table(map[], base), SitesOf(siteOf, urls[..i + 1])).pids[siteOf(urls[i])]
  }

  /**
    Site isolation over every run of at most 2^32 sites, for Blink (1000, `SiteForUrl`) and Gecko
    (2000, `PrincipalFor`) alike: two requests, at whatever times, got the same process if and
    only if their URLs have the same site.
    */
  lemma SameProcessIffSameSite(base: u32, siteOf: string -> string, urls: seq<string>, i: nat, j: nat)
    requires i < |urls| && j < |urls|
    requires |FirstRequests(SitesOf(siteOf, urls))| <= U32_LIMIT
    ensures PidReturned(base, siteOf, urls, i) == PidReturned(base, siteOf, urls, j)
       <==> siteOf(urls[i]) == siteOf(urls[j])
  {
    PidIsFinal(base, siteOf, urls, i);
    PidIsFinal(base, siteOf, urls, j);
    IsolatesExactly(base, SitesOf(siteOf, urls));
  }

  lemma PidIsFinal(base: u32, siteOf: string -> string, urls: seq<string>, i: nat)
    requires i < |urls|
    ensures siteOf(urls[i]) in After(Table(map[], base), SitesOf(siteOf, urls)).pids
    ensures After(Table(map[], base), SitesOf(siteOf, urls)).pids[siteOf(urls[i])] == PidReturned(base, siteOf, urls, i)
  {
    var before, after := SitesOf(siteOf, urls[..i + 1]), SitesOf(siteOf, urls[i + 1..]);
    assert SitesOf(siteOf, urls) == before + after;
    RequestedIsAssigned(Table(map[], base), before, i);
    PidsAreStable(Table(map[], base), before, after, siteOf(urls[i]));
  }

  lemma NthPid(base: u32, requests: seq<string>, i: nat)
    requires i < |FirstRequests(requests)| && base + 1 + i < U32_LIMIT
    ensures var pids := After(Table(map[], base), requests).pids;
            FirstRequests(requests)[i] in pids && pids[FirstRequests(requests)[i]] == base + 1 + i
  {
    TableFollowsFirstRequests(base, requests);
    assert FirstRequests(requests)[i] in FirstRequests(requests);
  }

  /** The pids by number: Blink counts from 1001, Gecko from 2001, in the order in which sites are first requested. */
  lemma PidsByNumber(requests: seq<string>, i: nat)
    requires i < |FirstRequests(requests)| && i < U32_LIMIT - 2001
    ensures var site := FirstRequests(requests)[i];
            && site in After(BLINK_START, requests).pids && After(BLINK_START, requests).pids[site] == 1001 + i
            && site in After(GECKO_START, requests).pids && After(GECKO_START, requests).pids[site] == 2001 + i
  {
    NthPid(1000, requests, i);
    NthPid(2000, requests, i);
  }

  // ---------------------------------------------------------------- where isolation ends

  /** Binary numerals. */
  function Numeral(n: nat): string {
    (if n < 2 then "" else Numeral(n / 2)) + (if n % 2 == 0 then "0" else "1")
  }

  lemma {:induction false} NumeralCharacters(n: nat)
    ensures Numeral(n) != [] && forall i :: 0 <= i < |Numeral(n)| ==> Numeral(n)[i] in {'0', '1'}
  {
    if n >= 2 {
      NumeralCharacters(n / 2);
    }
  }

  lemma {:induction false} NumeralInjective(m: nat, n: nat)
    requires Numeral(m) == Numeral(n)
    ensures m == n
  {
    var x, y := Numeral(m), Numeral(n);
    assert x[|x| - 1] == y[|y| - 1];
    NumeralCharacters(m / 2);
    NumeralCharacters(n / 2);
    assert m >= 2 ==> x[..|x| - 1] == Numeral(m / 2);
    assert n >= 2 ==> y[..|y| - 1] == Numeral(n / 2);
    if m >= 2 && n >= 2 {
      NumeralInjective(m / 2, n / 2);
    }
  }

  function NumberedUrl(n: nat): string {
    "https" + "://" + (Numeral(n) + (['.'] + "com"))
  }

  lemma NumberedUrlInjective(m: nat, n: nat)
    requires NumberedUrl(m) == NumberedUrl(n)
    ensures m == n
  {
    var x, y := NumberedUrl(m), NumberedUrl(n);
    assert x[8..|x| - 4] == Numeral(m) && y[8..|y| - 4] == Numeral(n);
    NumeralInjective(m, n);
  }

  /** Each numbered URL is its own site. */
  ghost predicate KeepsNumbered(siteOf: string -> string) {
    forall n: nat :: siteOf(NumberedUrl(n)) == NumberedUrl(n)
  }

  lemma NumberedIsSite(stops: set<char>, n: nat)
    requires stops <= URL_STOPS
    ensures SiteWith(stops, NumberedUrl(n)) == NumberedUrl(n)
  {
    NumeralCharacters(n);
    var site := Numeral(n) + (['.'] + "com");
    SiteOfUrl(stops, "https", "", Numeral(n), "com", "");
    assert site + "" == site;
  }

  lemma EnginesKeepNumbered()
    ensures KeepsNumbered(SiteForUrl) && KeepsNumbered(PrincipalFor)
  {
    forall n: nat
      ensures SiteForUrl(NumberedUrl(n)) == NumberedUrl(n) && PrincipalFor(NumberedUrl(n)) == NumberedUrl(n)
    {
      NumberedIsSite(URL_STOPS, n);
      NumberedIsSite(ORIGIN_STOPS, n);
    }
  }

  lemma {:induction false} DistinctAreFirst(requests: seq<string>)
    requires Distinct(requests)
    ensures FirstRequests(requests) == requests
    decreases |requests|
  {
    if requests != [] {
      var front, last := requests[..|requests| - 1], requests[|requests| - 1];
      DistinctAreFirst(front);
      assert requests == front + [last];
    }
  }

  /**
    Where isolation ends: a run of 2^32 + 1 URLs, each of its own site, after which the first and the
    last of them share a process. Both engines are such a `siteOf`.
    */
  lemma IsolationEnds(base: u32, siteOf: string -> string) returns (urls: seq<string>)
    requires KeepsNumbered(siteOf)
    ensures |urls| == U32_LIMIT + 1 && Distinct(SitesOf(siteOf, urls))
    ensures !Isolates(After(Table(map[], base), SitesOf(siteOf, urls)))
    ensures PidReturned(base, siteOf, urls, 0) == PidReturned(base, siteOf, urls, U32_LIMIT)
  {
    urls := seq(U32_LIMIT + 1, i requires 0 <= i <= U32_LIMIT => NumberedUrl(i));
    var sites := SitesOf(siteOf, urls);
    forall i, j | 0 <= i < j < |sites|
      ensures sites[i] != sites[j]
    {
      if NumberedUrl(i) == NumberedUrl(j) {
        NumberedUrlInjective(i, j);
      }
    }
    DistinctAreFirst(sites);
    IsolatesExactly(base, sites);
    TableFollowsFirstRequests(base, sites);
    PidIsFinal(base, siteOf, urls, 0);
    PidIsFinal(base, siteOf, urls, U32_LIMIT);
    assert PidOf(base, 0) == PidOf(base, U32_LIMIT);
  }
}
