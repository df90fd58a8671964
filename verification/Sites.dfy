/** The site of a URL, as the two engines derive it: scheme plus the last two labels of the host. */
module Sites {
  import opened Wrappers

  predicate IsSeparator(s: string, i: nat) {
    i + 3 <= |s| && s[i] == ':' && s[i + 1] == '/' && s[i + 2] == '/'
  }

  /** `url.find("://")`, from position `from` on. */
  function FindSeparator(url: string, from: nat): (r: Option<nat>)
    ensures r.Some? ==> from <= r.value && IsSeparator(url, r.value)
    ensures r.Some? ==> forall i :: from <= i < r.value ==> !IsSeparator(url, i)
    ensures r.None? ==> forall i :: from <= i < |url| ==> !IsSeparator(url, i)
    decreases |url| - from
  {
    if from >= |url| then None else if IsSeparator(url, from) then Some(from) else FindSeparator(url, from + 1)
  }

  const DEFAULT_SCHEME := "https"

  function SchemeOf(url: string): string {
    var i := FindSeparator(url, 0);
    if i.Some? then url[..i.value] else DEFAULT_SCHEME
  }

  function AfterScheme(url: string): string {
    var i := FindSeparator(url, 0);
    if i.Some? then url[i.value + 3..] else url
  }

  /** `split(stops).next()`: everything before the first stop character. */
  function UpTo(s: string, stops: set<char>): (r: string)
    ensures r <= s
    ensures forall i :: 0 <= i < |r| ==> r[i] !in stops
    ensures |r| < |s| ==> s[|r|] in stops
  {
    if s == [] || s[0] in stops then [] else [s[0]] + UpTo(s[1..], stops)
  }

  /** Put a character in front of the first label. */
  function ConsHead(c: char, labels: seq<string>): (r: seq<string>)
    requires labels != []
    ensures |r| == |labels|
  {
    [[c] + labels[0]] + labels[1..]
  }

  /** `split('.')`. */
  function Labels(host: string): (labels: seq<string>)
    ensures labels != []
  {
    if host == [] then [[]]
    else if host[0] == '.' then [[]] + Labels(host[1..])
    else ConsHead(host[0], Labels(host[1..]))
  }

  function JoinLastTwo(labels: seq<string>): string
    requires |labels| >= 2
  {
    labels[|labels| - 2] + (['.'] + labels[|labels| - 1])
  }

  /** The last two labels, or the host itself if it has only one. */
  function LastTwo(host: string): string {
    var labels := Labels(host);
    if |labels| >= 2 then JoinLastTwo(labels) else host
  }

  /** The common shape of `site_for_url` and `principal_for`; they differ in where the host ends. */
  function SiteWith(stops: set<char>, url: string): string {
    SchemeOf(url) + "://" + LastTwo(UpTo(AfterScheme(url), stops))
  }

  const URL_STOPS := {'/', ':', '?', '#'}
  const ORIGIN_STOPS := {'/', ':'}

  function SiteForUrl(url: string): string {
    SiteWith(URL_STOPS, url)
  }

  function PrincipalFor(origin: string): string {
    SiteWith(ORIGIN_STOPS, origin)
  }

  // ---------------------------------------------------------------- labels

  lemma UpToIs(s: string, stops: set<char>, n: nat)
    requires n <= |s| && (forall i :: 0 <= i < n ==> s[i] !in stops)
    requires n < |s| ==> s[n] in stops
    ensures UpTo(s, stops) == s[..n]
  {}

  predicate NoDots(s: string) {
    forall i :: 0 <= i < |s| ==> s[i] != '.'
  }

  /** The last label of `x` runs into the first of `y`. */
  function Merge(x: seq<string>, y: seq<string>): (r: seq<string>)
    requires x != [] && y != []
    ensures |r| == |x| + |y| - 1
  {
    x[..|x| - 1] + ([x[|x| - 1] + y[0]] + y[1..])
  }

  lemma MergeCons(first: string, x: seq<string>, y: seq<string>)
    requires x != [] && y != []
    ensures Merge([first] + x, y) == [first] + Merge(x, y)
  {
    assert ([first] + x)[..|x|] == [first] + x[..|x| - 1];
  }

  lemma MergeConsHead(c: char, x: seq<string>, y: seq<string>)
    requires x != [] && y != []
    ensures Merge(ConsHead(c, x), y) == ConsHead(c, Merge(x, y))
  {
    if |x| == 1 {
      assert ([c] + x[0]) + y[0] == [c] + (x[0] + y[0]);
    } else {
      assert ConsHead(c, x)[..|x| - 1] == ConsHead(c, x[..|x| - 1]);
    }
  }

  /** Concatenation merges the last label of the one with the first label of the other. */
  lemma {:induction false} LabelsOfConcat(a: string, b: string)
    ensures Labels(a + b) == Merge(Labels(a), Labels(b))
  {
    if a == [] {
      assert a + b == b;
      assert [] + Labels(b)[0] == Labels(b)[0];
    } else {
      assert (a + b)[1..] == a[1..] + b;
      LabelsOfConcat(a[1..], b);
      MergeCons([], Labels(a[1..]), Labels(b));
      MergeConsHead(a[0], Labels(a[1..]), Labels(b));
    }
  }

  lemma {:induction false} LabelsWithoutDot(host: string)
    requires NoDots(host)
    ensures Labels(host) == [host]
  {
    if host != [] {
      LabelsWithoutDot(host[1..]);
      assert [host[0]] + host[1..] == host;
    }
  }

  /** A label has no dot and takes its characters from the host. */
  lemma {:induction false} LabelCharacters(host: string, i: nat)
    requires i < |Labels(host)|
    ensures NoDots(Labels(host)[i])
    ensures forall c :: c in Labels(host)[i] ==> c in host
  {
    if host != [] {
      if host[0] == '.' {
        if i > 0 {
          LabelCharacters(host[1..], i - 1);
        }
      } else {
        LabelCharacters(host[1..], i);
      }
    }
  }

  lemma {:induction false} DotInHost(host: string)
    requires |Labels(host)| >= 2
    ensures '.' in host
  {
    if host[0] != '.' {
      DotInHost(host[1..]);
    }
  }

  lemma TwoLabels(a: string, b: string)
    requires NoDots(a) && NoDots(b)
    ensures LastTwo(a + (['.'] + b)) == a + (['.'] + b)
  {
    LabelsWithoutDot(a);
    LabelsWithoutDot(b);
    assert (['.'] + b)[1..] == b;
    assert Labels(['.'] + b) == [[], b];
    LabelsOfConcat(a, ['.'] + b);
    assert a + [] == a;
    assert Merge([a], [[], b]) == [a, b];
  }

  /** Keeping two labels takes characters of the host only, and doing it again changes nothing. */
  lemma LastTwoIsStable(host: string)
    ensures forall c :: c in LastTwo(host) ==> c in host
    ensures LastTwo(LastTwo(host)) == LastTwo(host)
  {
    var n := |Labels(host)|;
    if n >= 2 {
      var a, b := Labels(host)[n - 2], Labels(host)[n - 1];
      DotInHost(host);
      LabelCharacters(host, n - 2);
      LabelCharacters(host, n - 1);
      TwoLabels(a, b);
      assert LastTwo(host) == a + (['.'] + b);
    }
  }

  lemma LastTwoOfSubdomain(sub: string, a: string, b: string)
    requires NoDots(a) && NoDots(b)
    ensures LastTwo(sub + (['.'] + (a + (['.'] + b)))) == a + (['.'] + b)
  {
    var site := a + (['.'] + b);
    LabelsWithoutDot(a);
    LabelsWithoutDot(b);
    assert (['.'] + b)[1..] == b && (['.'] + site)[1..] == site;
    LabelsOfConcat(a, ['.'] + b);
    assert a + [] == a;
    assert Merge([a], [[], b]) == [a, b];
    LabelsOfConcat(sub, ['.'] + site);
    assert Labels(['.'] + site) == [[], a, b];
    MergeKeepsLastTwo(Labels(sub), [[], a, b]);
  }

  // ---------------------------------------------------------------- reading a URL

  /**
    What the site of a well-formed URL is: the scheme, and of the host the part from the last dot
    but one on, whatever subdomain precedes it and whatever port, path, query or fragment follows.
    */
  lemma SiteOfUrl(stops: set<char>, scheme: string, sub: string, a: string, b: string, rest: string)
    requires forall i :: 0 <= i < |scheme| ==> !IsSeparator(scheme + "://", i)
    requires NoDots(a) && NoDots(b)
    requires forall i :: 0 <= i < |sub| ==> sub[i] !in stops
    requires forall i :: 0 <= i < |a| ==> a[i] !in stops
    requires forall i :: 0 <= i < |b| ==> b[i] !in stops
    requires '.' !in stops && (rest != [] ==> rest[0] in stops)
    ensures var site := a + (['.'] + b);
            && SiteWith(stops, scheme + "://" + (site + rest)) == scheme + "://" + site
            && SiteWith(stops, scheme + "://" + (sub + (['.'] + site) + rest)) == scheme + "://" + site
  {
    var site := a + (['.'] + b);
    var host := sub + (['.'] + site);
    ParseScheme(scheme, site + rest);
    ParseScheme(scheme, host + rest);
    UpToIs(site + rest, stops, |site|);
    UpToIs(host + rest, stops, |host|);
    assert (site + rest)[..|site|] == site && (host + rest)[..|host|] == host;
    TwoLabels(a, b);
    LastTwoOfSubdomain(sub, a, b);
  }

  lemma ParseScheme(scheme: string, rest: string)
    requires forall i :: 0 <= i < |scheme| ==> !IsSeparator(scheme + "://", i)
    ensures SchemeOf(scheme + "://" + rest) == scheme
    ensures AfterScheme(scheme + "://" + rest) == rest
  {
    var s := scheme + "://" + rest;
    assert IsSeparator(s, |scheme|);
    forall j | 0 <= j < |scheme|
      ensures !IsSeparator(s, j)
    {
      assert forall k :: 0 <= k < |scheme| + 3 ==> s[k] == (scheme + "://")[k];
      assert !IsSeparator(scheme + "://", j);
    }
    assert FindSeparator(s, 0) == Some(|scheme|);
  }

  // ---------------------------------------------------------------- idempotence

  /** Re-reading a scheme that was read before gives it back, with the rest intact. */
  lemma ReparseScheme(url: string, rest: string)
    ensures SchemeOf(SchemeOf(url) + "://" + rest) == SchemeOf(url)
    ensures AfterScheme(SchemeOf(url) + "://" + rest) == rest
  {
    var scheme := SchemeOf(url);
    var i := FindSeparator(url, 0);
    forall j | 0 <= j < |scheme|
      ensures !IsSeparator(scheme + "://", j)
    {
      if i.Some? {
        assert !IsSeparator(url, j);
        assert forall k :: 0 <= k < |scheme| + 3 ==> (scheme + "://")[k] == url[k];
      }
    }
    ParseScheme(scheme, rest);
  }

  /** Deriving the site of a site gives that site, on every string, for either engine. */
  lemma SiteIsIdempotent(stops: set<char>, url: string)
    ensures SiteWith(stops, SiteWith(stops, url)) == SiteWith(stops, url)
  {
    var host := UpTo(AfterScheme(url), stops);
    var site := LastTwo(host);
    LastTwoIsStable(host);
    ReparseScheme(url, site);
    forall i | 0 <= i < |site|
      ensures site[i] !in stops
    {
      assert site[i] in host;
    }
    UpToIs(site, stops, |site|);
    assert site[..|site|] == site;
  }

  // ---------------------------------------------------------------- where the engines agree

  /** The part of the host that only Gecko still counts in: from the first `?` or `#` to the first `/` or `:`. */
  function QueryTail(url: string): string {
    Between(AfterScheme(url), URL_STOPS, ORIGIN_STOPS)
  }

  /** What the longer prefix has beyond the shorter one. */
  function Between(s: string, stops: set<char>, fewer: set<char>): string {
    var n, m := |UpTo(s, stops)|, |UpTo(s, fewer)|;
    if n <= m then s[n..m] else []
  }

  /** Fewer stop characters let the prefix grow, starting with a character that no longer stops it. */
  lemma {:induction false} FewerStops(s: string, stops: set<char>, fewer: set<char>)
    requires fewer <= stops
    ensures |UpTo(s, stops)| <= |UpTo(s, fewer)|
    ensures |UpTo(s, stops)| < |UpTo(s, fewer)| ==> s[|UpTo(s, stops)|] in stops - fewer
  {
    if s != [] && s[0] !in stops {
      FewerStops(s[1..], stops, fewer);
    }
  }

  lemma PrefixesDiffer(s: string, stops: set<char>, fewer: set<char>)
    requires fewer <= stops
    ensures UpTo(s, fewer) == UpTo(s, stops) + Between(s, stops, fewer)
    ensures Between(s, stops, fewer) != [] ==> Between(s, stops, fewer)[0] in stops - fewer
  {
    FewerStops(s, stops, fewer);
    var n, m := |UpTo(s, stops)|, |UpTo(s, fewer)|;
    assert UpTo(s, stops) == s[..n] && UpTo(s, fewer) == s[..m];
    assert s[..m] == s[..n] + s[n..m];
  }

  lemma HostsDiffer(url: string)
    ensures UpTo(AfterScheme(url), ORIGIN_STOPS) == UpTo(AfterScheme(url), URL_STOPS) + QueryTail(url)
    ensures QueryTail(url) != [] ==> QueryTail(url)[0] in URL_STOPS - ORIGIN_STOPS
  {
    assert ORIGIN_STOPS <= URL_STOPS;
    PrefixesDiffer(AfterScheme(url), URL_STOPS, ORIGIN_STOPS);
  }

  /** With three labels or more in the tail, the last two are the tail's own. */
  lemma LongTail(front: string, tail: string)
    requires |Labels(tail)| >= 3
    ensures LastTwo(front + tail) == LastTwo(tail)
  {
    LabelsOfConcat(front, tail);
    MergeKeepsLastTwo(Labels(front), Labels(tail));
  }

  lemma MergeKeepsLastTwo(x: seq<string>, y: seq<string>)
    requires x != [] && |y| >= 3
    ensures JoinLastTwo(Merge(x, y)) == JoinLastTwo(y)
  {
    var r := Merge(x, y);
    assert r[|r| - 2] == y[|y| - 2] && r[|r| - 1] == y[|y| - 1];
  }

  /** With fewer, the start of the tail is still there. */
  lemma ShortTail(front: string, tail: string)
    requires |Labels(tail)| <= 2 && tail != [] && tail[0] != '.'
    ensures tail[0] in LastTwo(front + tail)
  {
    LabelsOfConcat(front, tail);
    FirstLabelStarts(tail);
    hide Labels, JoinLastTwo;
    var x, y, all := Labels(front), Labels(tail), Labels(front + tail);
    var merged := x[|x| - 1] + y[0];
    assert merged[|x[|x| - 1]|] == tail[0];
    assert tail[0] in merged;
    if |all| == 1 {
      assert (front + tail)[|front|] == tail[0];
    } else {
      assert all[|all| - |y|] == merged;
      LastTwoKept(all, |all| - |y|, tail[0]);
    }
  }

  lemma LastTwoKept(labels: seq<string>, k: nat, c: char)
    requires |labels| >= 2 && |labels| - 2 <= k < |labels| && c in labels[k]
    ensures c in JoinLastTwo(labels)
  {}

  lemma FirstLabelStarts(tail: string)
    requires tail != [] && tail[0] != '.'
    ensures Labels(tail)[0] != [] && Labels(tail)[0][0] == tail[0]
  {}

  /**
    The two engines derive the same site exactly when no `?` or `#` comes before the first `/` or `:`, or
    when what they disagree about has three labels or more and ends in the two that Blink keeps.
    */
  lemma EnginesAgreeExactly(url: string)
    ensures SiteForUrl(url) == PrincipalFor(url)
       <==> QueryTail(url) == []
            || (|Labels(QueryTail(url))| >= 3
                && LastTwo(QueryTail(url)) == LastTwo(UpTo(AfterScheme(url), URL_STOPS)))
  {
    var host, tail := UpTo(AfterScheme(url), URL_STOPS), QueryTail(url);
    HostsDiffer(url);
    SameSite(SchemeOf(url), LastTwo(host), LastTwo(host + tail));
    if tail == [] {
      assert host + tail == host;
    } else if |Labels(tail)| >= 3 {
      LongTail(host, tail);
    } else {
      ShortTail(host, tail);
      LastTwoIsStable(host);
      assert tail[0] !in host;
      assert tail[0] !in LastTwo(host);
    }
  }

  lemma SameSite(scheme: string, a: string, b: string)
    ensures scheme + "://" + a == scheme + "://" + b <==> a == b
  {
    var x, y := scheme + "://" + a, scheme + "://" + b;
    assert x[|scheme| + 3..] == a && y[|scheme| + 3..] == b;
  }

  /** Without a colon there is no scheme to read. */
  lemma ParseWithoutScheme(url: string)
    requires ':' !in url
    ensures SchemeOf(url) == DEFAULT_SCHEME && AfterScheme(url) == url
  {
    assert FindSeparator(url, 0) == None;
  }

  lemma SiteOfHost(stops: set<char>, a: string, b: string, rest: string)
    requires NoDots(a) && NoDots(b) && ':' !in a && ':' !in b && ':' !in rest
    requires forall i :: 0 <= i < |a| ==> a[i] !in stops
    requires forall i :: 0 <= i < |b| ==> b[i] !in stops
    requires '.' !in stops && (rest != [] ==> rest[0] in stops)
    ensures SiteWith(stops, a + (['.'] + b) + rest) == DEFAULT_SCHEME + "://" + (a + (['.'] + b))
  {
    var site := a + (['.'] + b);
    ParseWithoutScheme(site + rest);
    UpToIs(site + rest, stops, |site|);
    assert (site + rest)[..|site|] == site;
    TwoLabels(a, b);
  }

  predicate Plain(s: string) {
    forall i :: 0 <= i < |s| ==> s[i] != '.' && s[i] !in URL_STOPS
  }

  lemma BlinkDropsQuery(a: string, b: string, query: string)
    requires Plain(a) && Plain(b) && Plain(query)
    ensures SiteForUrl(a + (['.'] + b) + (['?'] + query)) == DEFAULT_SCHEME + "://" + (a + (['.'] + b))
  {
    SiteOfHost(URL_STOPS, a, b, ['?'] + query);
  }

  lemma GeckoKeepsQuery(a: string, b: string, query: string)
    requires Plain(a) && Plain(b) && Plain(query)
    ensures var url := a + (['.'] + b) + (['?'] + query);
            PrincipalFor(url) == DEFAULT_SCHEME + "://" + url
  {
    var last := b + (['?'] + query);
    SiteOfHost(ORIGIN_STOPS, a, last, "");
    assert a + (['.'] + b) + (['?'] + query) == a + (['.'] + last) == a + (['.'] + last) + "";
  }

  /** Where they differ: a query right after the host, which Gecko counts in. */
  lemma EnginesDisagreeOnQuery(a: string, b: string, query: string)
    requires Plain(a) && Plain(b) && Plain(query)
    ensures var url := a + (['.'] + b) + (['?'] + query);
            SiteForUrl(url) != PrincipalFor(url)
  {
    BlinkDropsQuery(a, b, query);
    GeckoKeepsQuery(a, b, query);
    SameSite(DEFAULT_SCHEME, a + (['.'] + b), a + (['.'] + b) + (['?'] + query));
  }

  lemma EnginesDisagreeExample()
    ensures SiteForUrl("a.b?x") != PrincipalFor("a.b?x")
  {
    assert "a.b?x" == "a" + (['.'] + "b") + (['?'] + "x");
    EnginesDisagreeOnQuery("a", "b", "x");
  }

  // ---------------------------------------------------------------- each engine by its own characters

  /** No dot, and none of the characters that end a host for Blink. */
  predicate InBlinkHost(c: char) {
    c != '/' && c != ':' && c != '?' && c != '#'
  }

  predicate InGeckoHost(c: char) {
    c != '/' && c != ':'
  }

  /** Blink: a slash, a colon, a question mark or a hash ends the host, and nothing else does. */
  lemma BlinkSite(sub: string, a: string, b: string, rest: string)
    requires NoDots(a) && NoDots(b) && forall c :: c in sub || c in a || c in b ==> InBlinkHost(c)
    requires rest != [] ==> rest[0] == '/' || rest[0] == ':' || rest[0] == '?' || rest[0] == '#'
    ensures var site := a + (['.'] + b);
            && SiteForUrl("https" + "://" + (site + rest)) == "https" + "://" + site
            && SiteForUrl("https" + "://" + (sub + (['.'] + site) + rest)) == "https" + "://" + site
  {
    assert forall i :: 0 <= i < |a| ==> a[i] in a;
    assert forall i :: 0 <= i < |b| ==> b[i] in b;
    assert forall i :: 0 <= i < |sub| ==> sub[i] in sub;
    SiteOfUrl(URL_STOPS, "https", sub, a, b, rest);
  }

  /** Gecko: a slash or a colon does, and nothing else. */
  lemma GeckoSite(sub: string, a: string, b: string, rest: string)
    requires NoDots(a) && NoDots(b) && forall c :: c in sub || c in a || c in b ==> InGeckoHost(c)
    requires rest != [] ==> rest[0] == '/' || rest[0] == ':'
    ensures var site := a + (['.'] + b);
            && PrincipalFor("https" + "://" + (site + rest)) == "https" + "://" + site
            && PrincipalFor("https" + "://" + (sub + (['.'] + site) + rest)) == "https" + "://" + site
  {
    assert forall i :: 0 <= i < |a| ==> a[i] in a;
    assert forall i :: 0 <= i < |b| ==> b[i] in b;
    assert forall i :: 0 <= i < |sub| ==> sub[i] in sub;
    SiteOfUrl(ORIGIN_STOPS, "https", sub, a, b, rest);
  }

  /** A host with one label is its own site, and a missing scheme is read as https. */
  lemma SiteOfOneLabel(stops: set<char>, host: string, rest: string)
    requires NoDots(host) && ':' !in host && (forall i :: 0 <= i < |host| ==> host[i] !in stops)
    requires ':' !in rest && (rest != [] ==> rest[0] in stops)
    ensures SiteWith(stops, host + rest) == "https" + "://" + host
    ensures SiteWith(stops, "http" + "://" + (host + rest)) == "http" + "://" + host
  {
    LabelsWithoutDot(host);
    ParseWithoutScheme(host + rest);
    UpToIs(host + rest, stops, |host|);
    assert (host + rest)[..|host|] == host;
    ParseScheme("http", host + rest);
  }
}
