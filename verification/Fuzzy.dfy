/** The fuzzy subsequence matcher of the command palette. */
module Fuzzy {
  import opened Sorting
  import opened Wrappers

  /** A UTF-16 code unit, which is what indexing a JavaScript string gives. */
  type CodeUnit = n: nat | n < 0x1_0000

  const SPACE: CodeUnit := 0x20
  const HYPHEN: CodeUnit := 0x2d
  const SLASH: CodeUnit := 0x2f

  datatype FuzzyMatch = FuzzyMatch(indices: seq<nat>, score: real)

  /** `toLowerCase`, of which nothing is assumed: it may change lengths and look at neighbouring units. */
  type LowerCase = seq<CodeUnit> -> seq<CodeUnit>

  // ---------------------------------------------------------------- embeddings, of strings already in lower case

  /** `indices` spells `query` inside `target`, left to right. */
  ghost predicate Embeds(query: seq<CodeUnit>, target: seq<CodeUnit>, indices: seq<nat>) {
    && |indices| == |query|
    && (forall k :: 0 <= k < |query| ==> indices[k] < |target| && target[indices[k]] == query[k])
    && (forall k, l :: 0 <= k < l < |query| ==> indices[k] < indices[l])
  }

  ghost predicate IsSubsequence(query: seq<CodeUnit>, target: seq<CodeUnit>) {
    exists indices :: Embeds(query, target, indices)
  }

  /** Nowhere later than any other embedding. */
  ghost predicate Leftmost(query: seq<CodeUnit>, target: seq<CodeUnit>, indices: seq<nat>) {
    && Embeds(query, target, indices)
    && forall other :: Embeds(query, target, other) ==>
         forall k :: 0 <= k < |query| ==> indices[k] <= other[k]
  }

  /** The first position from `from` on whose unit is `c`. */
  function First(c: CodeUnit, target: seq<CodeUnit>, from: nat): (r: Option<nat>)
    ensures r.Some? ==> from <= r.value < |target| && target[r.value] == c
    ensures r.Some? ==> forall i :: from <= i < r.value ==> target[i] != c
    ensures r.None? ==> forall i :: from <= i < |target| ==> target[i] != c
    decreases |target| - from
  {
    if from >= |target| then None
    else if target[from] == c then Some(from)
    else First(c, target, from + 1)
  }

  /** Where the search for the next unit starts. */
  function After(indices: seq<nat>): nat {
    if indices == [] then 0 else indices[|indices| - 1] + 1
  }

  /** The leftmost embedding, unit by unit of the query. */
  function LeftmostOf(query: seq<CodeUnit>, target: seq<CodeUnit>): (r: Option<seq<nat>>)
    ensures r.Some? ==> |r.value| == |query| && forall k :: 0 <= k < |query| ==> r.value[k] < |target|
    decreases |query|
  {
    if query == [] then Some([])
    else
      var front := LeftmostOf(query[..|query| - 1], target);
      if front.None? then None
      else
        var next := First(query[|query| - 1], target, After(front.value));
        if next.None? then None else Some(front.value + [next.value])
  }

  /** It exists exactly for subsequences, and is pointwise least among all embeddings. */
  lemma {:induction false} LeftmostOfIsLeftmost(query: seq<CodeUnit>, target: seq<CodeUnit>)
    ensures LeftmostOf(query, target).Some? <==> IsSubsequence(query, target)
    ensures LeftmostOf(query, target).Some? ==>
              Leftmost(query, target, LeftmostOf(query, target).value)
    decreases |query|
  {
    if query == [] {
      assert Embeds(query, target, []);
    } else {
      LeftmostOfIsLeftmost(query[..|query| - 1], target);
      var r := LeftmostOf(query, target);
      forall other | Embeds(query, target, other)
        ensures r.Some? && forall k :: 0 <= k < |query| ==> r.value[k] <= other[k]
      {
        EmbeddingIsLater(query, target, other);
      }
      if r.Some? {
        LeftmostOfEmbeds(query, target);
      }
    }
  }

  lemma EmbedsSnoc(query: seq<CodeUnit>, c: CodeUnit, target: seq<CodeUnit>, front: seq<nat>, i: nat)
    requires Embeds(query, target, front)
    requires After(front) <= i < |target| && target[i] == c
    ensures Embeds(query + [c], target, front + [i])
  {
    assert forall k :: 0 <= k < |front| ==> front[k] < After(front);
  }

  lemma LeftmostOfEmbeds(query: seq<CodeUnit>, target: seq<CodeUnit>)
    requires query != [] && LeftmostOf(query, target).Some?
    requires Embeds(query[..|query| - 1], target, LeftmostOf(query[..|query| - 1], target).value)
    ensures Embeds(query, target, LeftmostOf(query, target).value)
  {
    var n := |query| - 1;
    var front := LeftmostOf(query[..n], target).value;
    var next := First(query[n], target, After(front)).value;
    EmbedsSnoc(query[..n], query[n], target, front, next);
    assert query == query[..n] + [query[n]];
  }

  lemma EmbeddingIsLater(query: seq<CodeUnit>, target: seq<CodeUnit>, other: seq<nat>)
    requires query != [] && Embeds(query, target, other)
    requires IsSubsequence(query[..|query| - 1], target) ==>
               LeftmostOf(query[..|query| - 1], target).Some?
    requires LeftmostOf(query[..|query| - 1], target).Some? ==>
               Leftmost(query[..|query| - 1], target, LeftmostOf(query[..|query| - 1], target).value)
    ensures LeftmostOf(query, target).Some?
    ensures forall k :: 0 <= k < |query| ==> LeftmostOf(query, target).value[k] <= other[k]
  {
    var n := |query| - 1;
    assert Embeds(query[..n], target, other[..n]);
    var front := LeftmostOf(query[..n], target).value;
    assert forall k :: 0 <= k < n ==> front[k] <= other[..n][k];
    assert After(front) <= other[n];
  }

  /** Extending the query extends the list of indices: what was matched stays where it was. */
  lemma {:induction false} LongerQueryExtends(query: seq<CodeUnit>, more: seq<CodeUnit>, target: seq<CodeUnit>)
    requires LeftmostOf(query + more, target).Some?
    ensures LeftmostOf(query, target).Some?
    ensures LeftmostOf(query, target).value <= LeftmostOf(query + more, target).value
    decreases |more|
  {
    if more == [] {
      assert query + more == query;
    } else {
      var front := more[..|more| - 1];
      assert (query + more)[..|query + more| - 1] == query + front;
      LongerQueryExtends(query, front, target);
    }
  }

  lemma {:induction false} EmbedsItself(query: seq<CodeUnit>)
    ensures IsSubsequence(query, query)
  {
    var indices := seq(|query|, i requires 0 <= i < |query| => i as nat);
    assert Embeds(query, query, indices);
  }

  lemma SubsequenceTransitive(a: seq<CodeUnit>, b: seq<CodeUnit>, c: seq<CodeUnit>)
    requires IsSubsequence(a, b) && IsSubsequence(b, c)
    ensures IsSubsequence(a, c)
  {
    var f: seq<nat> :| Embeds(a, b, f);
    var g: seq<nat> :| Embeds(b, c, g);
    var indices: seq<nat> := seq(|a|, i requires 0 <= i < |a| => g[f[i]]);
    assert Embeds(a, c, indices);
  }

  lemma SubsequenceUnits(a: seq<CodeUnit>, b: seq<CodeUnit>, k: nat)
    requires IsSubsequence(a, b) && k < |a|
    ensures a[k] in b
  {
    var f: seq<nat> :| Embeds(a, b, f);
    assert b[f[k]] == a[k];
  }

  // ---------------------------------------------------------------- scores

  /** The unit before `i` is looked up in the target as it was given, which may be shorter than its lower case. */
  predicate AtBoundary(target: seq<CodeUnit>, i: nat) {
    i == 0 || (i <= |target| && (target[i - 1] == SPACE || target[i - 1] == HYPHEN || target[i - 1] == SLASH))
  }

  /** What the k-th matched index adds: 5 next to its predecessor and 1 otherwise, and 3 at a word boundary. */
  function Bonus(target: seq<CodeUnit>, indices: seq<nat>, k: nat): nat
    requires k < |indices|
  {
    (if k > 0 && indices[k] == indices[k - 1] + 1 then 5 else 1) + (if AtBoundary(target, indices[k]) then 3 else 0)
  }

  function Bonuses(target: seq<CodeUnit>, indices: seq<nat>): nat
    decreases |indices|
  {
    if indices == [] then 0
    else Bonuses(target, indices[..|indices| - 1]) + Bonus(target, indices, |indices| - 1)
  }

  /** Shorter targets are preferred; the quotient is exact in quarters. */
  function LengthBonus(target: seq<CodeUnit>): real {
    var room := 10.0 - |target| as real / 4.0;
    if room > 0.0 then room else 0.0
  }

  /** The score of an embedding; the empty query scores 1. */
  function Score(query: seq<CodeUnit>, target: seq<CodeUnit>, indices: seq<nat>): real {
    if query == [] then 1.0 else Bonuses(target, indices) as real + LengthBonus(target)
  }

  // ---------------------------------------------------------------- the matcher

  function MatchOf(lower: LowerCase, query: seq<CodeUnit>, target: seq<CodeUnit>): Option<FuzzyMatch> {
    var indices := if query == [] then Some([]) else LeftmostOf(lower(query), lower(target));
    if indices.None? then None else Some(FuzzyMatch(indices.value, Score(query, target, indices.value)))
  }

  /** The state of the pass: the first units are matched leftmost, and the next one has no match before `ti`. */
  ghost predicate Scanned(q: seq<CodeUnit>, t: seq<CodeUnit>, indices: seq<nat>, ti: nat) {
    && ti <= |t| && |indices| <= |q|
    && (forall k :: 0 <= k < |indices| ==> indices[k] < ti)
    && LeftmostOf(q[..|indices|], t) == Some(indices)
    && (|indices| < |q| ==> First(q[|indices|], t, After(indices)) == First(q[|indices|], t, ti))
  }

  lemma ScanStarts(q: seq<CodeUnit>, t: seq<CodeUnit>)
    ensures Scanned(q, t, [], 0)
  {
    assert q[..0] == [];
  }

  lemma ScanTakes(q: seq<CodeUnit>, t: seq<CodeUnit>, indices: seq<nat>, ti: nat)
    requires Scanned(q, t, indices, ti)
    requires ti < |t| && |indices| < |q| && t[ti] == q[|indices|]
    ensures Scanned(q, t, indices + [ti], ti + 1)
  {
    var n := |indices|;
    assert q[..n + 1][..n] == q[..n];
  }

  lemma ScanSkips(q: seq<CodeUnit>, t: seq<CodeUnit>, indices: seq<nat>, ti: nat)
    requires Scanned(q, t, indices, ti)
    requires ti < |t| && |indices| < |q| && t[ti] != q[|indices|]
    ensures Scanned(q, t, indices, ti + 1)
  {}

  /** `prevMatchIndex`. */
  function Previous(indices: seq<nat>): int {
    if indices == [] then -2 else indices[|indices| - 1]
  }

  /** What a match at `ti` adds after one at `prev`. */
  function Points(target: seq<CodeUnit>, ti: nat, prev: int): nat {
    (if ti == prev + 1 then 5 else 1) + (if AtBoundary(target, ti) then 3 else 0)
  }

  lemma OneMoreBonus(target: seq<CodeUnit>, indices: seq<nat>, i: nat)
    ensures Bonuses(target, indices + [i]) == Bonuses(target, indices) + Points(target, i, Previous(indices))
  {
    assert (indices + [i])[..|indices|] == indices;
  }

  /** The two bonuses for a match at `ti`. */
  method Award(target: seq<CodeUnit>, ti: nat, prevMatchIndex: int) returns (points: nat)
    ensures points == Points(target, ti, prevMatchIndex)
  {
    points := if ti == prevMatchIndex + 1 then 5 else 1;
    var prevChar := if 0 < ti <= |target| then Some(target[ti - 1]) else None;
    if ti == 0 || prevChar == Some(SPACE) || prevChar == Some(HYPHEN) || prevChar == Some(SLASH) {
      points := points + 3;
    }
  }

  /** The greedy pass of `fuzzyMatch`: matches in lower case, looks for boundaries in the target as given. */
  method Scan(q: seq<CodeUnit>, t: seq<CodeUnit>, target: seq<CodeUnit>)
    returns (indices: seq<nat>, score: nat, ti: nat)
    ensures Scanned(q, t, indices, ti)
    ensures |indices| == |q| || ti == |t|
    ensures score == Bonuses(target, indices)
  {
    hide LeftmostOf, First, Points;
    indices, score, ti := [], 0, 0;
    var prevMatchIndex: int := -2;
    ScanStarts(q, t);
    while ti < |t| && |indices| < |q|
      invariant Scanned(q, t, indices, ti)
      invariant prevMatchIndex == Previous(indices)
      invariant score == Bonuses(target, indices)
    {
      if t[ti] == q[|indices|] {
        ScanTakes(q, t, indices, ti);
        OneMoreBonus(target, indices, ti);
        var points := Award(target, ti, prevMatchIndex);
        score := score + points;
        indices := indices + [ti];
        prevMatchIndex := ti;
      } else {
        ScanSkips(q, t, indices, ti);
      }
      ti := ti + 1;
    }
  }

  /** When the pass is over, it has the leftmost embedding or there is none. */
  lemma PassDecides(q: seq<CodeUnit>, t: seq<CodeUnit>, indices: seq<nat>, ti: nat)
    requires Scanned(q, t, indices, ti) && (|indices| == |q| || ti == |t|)
    ensures LeftmostOf(q, t) == if |indices| < |q| then None else Some(indices)
  {
    if |indices| < |q| {
      NoneFromPrefix(q, t, |indices|);
    } else {
      assert q[..|indices|] == q;
    }
  }

  lemma MatchOfIsLeftmost(lower: LowerCase, query: seq<CodeUnit>, target: seq<CodeUnit>)
    ensures MatchOf(lower, query, target).Some? <==> query == [] || IsSubsequence(lower(query), lower(target))
    ensures MatchOf(lower, query, target).Some? && query != [] ==>
              Leftmost(lower(query), lower(target), MatchOf(lower, query, target).value.indices)
  {
    LeftmostOfIsLeftmost(lower(query), lower(target));
  }

  method ComputeMatch(lower: LowerCase, query: seq<CodeUnit>, target: seq<CodeUnit>) returns (r: Option<FuzzyMatch>)
    ensures r == MatchOf(lower, query, target)
  {
    hide LeftmostOf, First, Bonuses, LengthBonus, Scanned;
    if query == [] {
      return Some(FuzzyMatch([], 1.0));
    }
    var q, t := lower(query), lower(target);
    var indices, score, ti := Scan(q, t, target);
    PassDecides(q, t, indices, ti);
    if |indices| < |q| {
      return None;
    }
    return Some(FuzzyMatch(indices, score as real + LengthBonus(target)));
  }

  /** `fuzzyMatch`. */
  method Match(lower: LowerCase, query: seq<CodeUnit>, target: seq<CodeUnit>) returns (r: Option<FuzzyMatch>)
    ensures r == MatchOf(lower, query, target)
    ensures r.Some? <==> query == [] || IsSubsequence(lower(query), lower(target))
    ensures r.Some? && query != [] ==> Leftmost(lower(query), lower(target), r.value.indices)
  {
    MatchOfIsLeftmost(lower, query, target);
    r := ComputeMatch(lower, query, target);
  }

  lemma NoneFromPrefix(q: seq<CodeUnit>, t: seq<CodeUnit>, n: nat)
    requires n < |q| && LeftmostOf(q[..n], t).Some?
    requires First(q[n], t, After(LeftmostOf(q[..n], t).value)).None?
    ensures LeftmostOf(q, t).None?
  {
    var prefix, suffix := q[..n + 1], q[n + 1..];
    assert prefix[..n] == q[..n];
    assert q == prefix + suffix;
    if LeftmostOf(q, t).Some? {
      LongerQueryExtends(prefix, suffix, t);
    }
  }

  /**
    Between two matching targets with the same bonuses the shorter one scores higher exactly when it is shorter
    than forty units, and the query is not empty.
    */
  lemma ShorterWinsTieExactly(lower: LowerCase, query: seq<CodeUnit>, s: seq<CodeUnit>, t: seq<CodeUnit>)
    requires MatchOf(lower, query, s).Some? && MatchOf(lower, query, t).Some? && |s| < |t|
    requires Bonuses(s, MatchOf(lower, query, s).value.indices) == Bonuses(t, MatchOf(lower, query, t).value.indices)
    ensures MatchOf(lower, query, s).value.score > MatchOf(lower, query, t).value.score <==> query != [] && |s| < 40
    ensures MatchOf(lower, query, s).value.score >= MatchOf(lower, query, t).value.score
  {
    LengthDecides(s, t);
  }

  /** Targets of forty units or more that begin with the one letter sought all score alike. */
  lemma LongTargetsTie(lower: LowerCase, c: CodeUnit, s: seq<CodeUnit>, t: seq<CodeUnit>)
    requires lower([c]) == [c] && lower(s) == s && lower(t) == t
    requires 40 <= |s| < |t| && s[0] == c && t[0] == c
    ensures MatchOf(lower, [c], s) == MatchOf(lower, [c], t) == Some(FuzzyMatch([0], 4.0))
  {
    FirstLetterMatches(c, s);
    FirstLetterMatches(c, t);
  }

  lemma FirstLetterMatches(c: CodeUnit, t: seq<CodeUnit>)
    requires t != [] && t[0] == c
    ensures LeftmostOf([c], t) == Some([0]) && Bonuses(t, [0]) == 4
  {
    assert [c][..0] == [];
    OneMoreBonus(t, [], 0);
    assert [] + [0] == [0];
  }

  lemma LengthDecides(s: seq<CodeUnit>, t: seq<CodeUnit>)
    requires |s| < |t|
    ensures LengthBonus(s) > LengthBonus(t) <==> |s| < 40
    ensures LengthBonus(s) >= LengthBonus(t)
  {}

  /** A quarter point for every unit that the target is shorter than forty. */
  lemma LengthBonusIs(target: seq<CodeUnit>)
    ensures 4.0 * LengthBonus(target) == if |target| < 40 then (40 - |target|) as real else 0.0
  {}

  function UpTo(n: nat): (indices: seq<nat>)
    ensures |indices| == n
  {
    if n == 0 then [] else UpTo(n - 1) + [n - 1]
  }

  lemma {:induction false} PrefixMatches(q: seq<CodeUnit>, t: seq<CodeUnit>, n: nat)
    requires q <= t && n <= |q|
    ensures LeftmostOf(q[..n], t) == Some(UpTo(n))
  {
    if n > 0 {
      PrefixMatches(q, t, n - 1);
      assert q[..n][..n - 1] == q[..n - 1];
    }
  }

  /** A space, a hyphen or a slash. */
  predicate IsSeparator(u: CodeUnit) {
    u == 0x20 || u == 0x2d || u == 0x2f
  }

  predicate NoSeparators(target: seq<CodeUnit>, n: nat) {
    forall i :: 0 <= i < n && i < |target| ==> !IsSeparator(target[i])
  }

  lemma {:induction false} PrefixBonuses(target: seq<CodeUnit>, n: nat)
    requires 1 <= n && NoSeparators(target, n - 1)
    ensures Bonuses(target, UpTo(n)) == 4 + 5 * (n - 1)
  {
    OneMoreBonus(target, UpTo(n - 1), n - 1);
    if n > 1 {
      PrefixBonuses(target, n - 1);
    } else {
      assert UpTo(0) == [];
    }
  }

  lemma PrefixEmbeds(q: seq<CodeUnit>, t: seq<CodeUnit>)
    requires q <= t
    ensures LeftmostOf(q, t) == Some(UpTo(|q|))
  {
    PrefixMatches(q, t, |q|);
    assert q[..|q|] == q;
  }

  lemma MatchWith(lower: LowerCase, query: seq<CodeUnit>, target: seq<CodeUnit>, indices: seq<nat>, bonuses: nat)
    requires query != [] && LeftmostOf(lower(query), lower(target)) == Some(indices)
    requires Bonuses(target, indices) == bonuses
    ensures MatchOf(lower, query, target) == Some(FuzzyMatch(indices, bonuses as real + LengthBonus(target)))
  {
    hide LeftmostOf, First, Bonuses, LengthBonus;
  }

  /**
    A target that begins with the query: four points for the first unit, five for each that follows, and the
    length bonus, if there is no word boundary among them.
    */
  lemma ScoreOfPrefix(lower: LowerCase, query: seq<CodeUnit>, target: seq<CodeUnit>)
    requires query != [] && lower(query) != [] && lower(query) <= lower(target)
    requires NoSeparators(target, |lower(query)| - 1)
    ensures var n := |lower(query)|;
            MatchOf(lower, query, target)
            == Some(FuzzyMatch(UpTo(n), (4 + 5 * (n - 1)) as real + LengthBonus(target)))
  {
    hide LeftmostOf, First, Bonuses, LengthBonus, MatchOf, UpTo;
    var n := |lower(query)|;
    PrefixEmbeds(lower(query), lower(target));
    PrefixBonuses(target, n);
    MatchWith(lower, query, target, UpTo(n), 4 + 5 * (n - 1));
  }

  lemma OneEmbeds(q: seq<CodeUnit>, t: seq<CodeUnit>, k: nat)
    requires k < |t| && q == [t[k]] && q[0] !in t[..k]
    ensures LeftmostOf(q, t) == Some([k])
  {
    assert forall i :: 0 <= i < k ==> t[i] == t[..k][i];
    assert First(q[0], t, 0) == Some(k);
    assert LeftmostOf(q[..0], t) == Some([]) && [] + [k] == [k];
  }

  /**
    A single unit scores four points at the start of the target and after a space, a hyphen or a slash, and
    one anywhere else.
    */
  lemma ScoreOfOne(lower: LowerCase, query: seq<CodeUnit>, target: seq<CodeUnit>, k: nat)
    requires query != [] && k < |lower(target)| && lower(query) == [lower(target)[k]]
    requires lower(query)[0] !in lower(target)[..k]
    ensures var wordStart := k == 0 || (k <= |target| && IsSeparator(target[k - 1]));
            MatchOf(lower, query, target)
            == Some(FuzzyMatch([k], (if wordStart then 4.0 else 1.0) + LengthBonus(target)))
  {
    hide LeftmostOf, First, LengthBonus, MatchOf;
    OneEmbeds(lower(query), lower(target), k);
    OneMoreBonus(target, [], k);
    assert [] + [k] == [k];
    MatchWith(lower, query, target, [k], Points(target, k, -2));
  }

  // ---------------------------------------------------------------- ranking

  datatype Scored<T> = Scored(item: T, i: nat, m: FuzzyMatch)

  /** A label to match against, for any kind of item. */
  type Label<!T> = T -> seq<CodeUnit>

  predicate Matches<T>(lower: LowerCase, query: seq<CodeUnit>, labelOf: Label<T>, item: T) {
    MatchOf(lower, query, labelOf(item)).Some?
  }

  /** The matching items with their positions (counted from `start`) and their matches. */
  function ScoreAll<T>(lower: LowerCase, query: seq<CodeUnit>, labelOf: Label<T>, items: seq<T>, start: nat)
    : (scored: seq<Scored<T>>)
    ensures forall k :: 0 <= k < |scored| ==> scored[k].i >= start
    ensures forall k :: 0 <= k < |scored| ==> MatchOf(lower, query, labelOf(scored[k].item)) == Some(scored[k].m)
    decreases |items|
  {
    if items == [] then []
    else
      var m := MatchOf(lower, query, labelOf(items[0]));
      var rest := ScoreAll(lower, query, labelOf, items[1..], start + 1);
      if m.Some? then [Scored(items[0], start, m.value)] + rest else rest
  }

  /** The comparator of `rank`: by descending score, then by position. */
  predicate ScoreThenPosition<T>(a: Scored<T>, b: Scored<T>) {
    a.m.score > b.m.score || (a.m.score == b.m.score && a.i <= b.i)
  }

  function Rank<T>(lower: LowerCase, query: seq<CodeUnit>, labelOf: Label<T>, items: seq<T>): seq<T> {
    Map(ItemOf, Sort(ScoreThenPosition, ScoreAll(lower, query, labelOf, items, 0)))
  }

  function Matching<T>(lower: LowerCase, query: seq<CodeUnit>, labelOf: Label<T>, items: seq<T>): seq<T> {
    if items == [] then []
    else (if Matches(lower, query, labelOf, items[0]) then [items[0]] else [])
         + Matching(lower, query, labelOf, items[1..])
  }

  function ScoreOf<T>(lower: LowerCase, query: seq<CodeUnit>, labelOf: Label<T>, item: T): real {
    var m := MatchOf(lower, query, labelOf(item));
    if m.Some? then m.value.score else 0.0
  }

  /** Better or equal score. */
  function ByScore<T>(lower: LowerCase, query: seq<CodeUnit>, labelOf: Label<T>): Order<T> {
    (a: T, b: T) => ScoreOf(lower, query, labelOf, a) >= ScoreOf(lower, query, labelOf, b)
  }

  function ItemOf<T>(x: Scored<T>): T {
    x.item
  }

  lemma {:induction false} ScoreAllIsMatching<T>(lower: LowerCase, query: seq<CodeUnit>, labelOf: Label<T>,
                                                 items: seq<T>, start: nat)
    ensures Map(ItemOf, ScoreAll(lower, query, labelOf, items, start)) == Matching(lower, query, labelOf, items)
    decreases |items|
  {
    if items != [] {
      ScoreAllIsMatching(lower, query, labelOf, items[1..], start + 1);
      var rest := ScoreAll(lower, query, labelOf, items[1..], start + 1);
      var m := MatchOf(lower, query, labelOf(items[0]));
      if m.Some? {
        assert ([Scored(items[0], start, m.value)] + rest)[1..] == rest;
      }
    }
  }

  ghost predicate InPosition<T>(scored: seq<Scored<T>>) {
    forall k, l :: 0 <= k < l < |scored| ==> scored[k].i < scored[l].i
  }

  lemma InPositionCons<T>(x: Scored<T>, rest: seq<Scored<T>>)
    requires InPosition(rest) && forall k :: 0 <= k < |rest| ==> x.i < rest[k].i
    ensures InPosition([x] + rest)
  {}

  lemma {:induction false} ScoreAllInPosition<T>(lower: LowerCase, query: seq<CodeUnit>, labelOf: Label<T>,
                                                 items: seq<T>, start: nat)
    ensures InPosition(ScoreAll(lower, query, labelOf, items, start))
    decreases |items|
  {
    if items != [] {
      ScoreAllInPosition(lower, query, labelOf, items[1..], start + 1);
      var m := MatchOf(lower, query, labelOf(items[0]));
      if m.Some? {
        InPositionCons(Scored(items[0], start, m.value), ScoreAll(lower, query, labelOf, items[1..], start + 1));
      }
    }
  }

  /** The tie-break on positions makes the sort stable. */
  lemma RankIsSortOfMatching<T>(lower: LowerCase, query: seq<CodeUnit>, labelOf: Label<T>, items: seq<T>)
    ensures Rank(lower, query, labelOf, items)
         == Sort(ByScore(lower, query, labelOf), Matching(lower, query, labelOf, items))
  {
    ScoreAllIsMatching(lower, query, labelOf, items, 0);
    ScoreAllInPosition(lower, query, labelOf, items, 0);
    var s := ScoreAll(lower, query, labelOf, items, 0);
    MapOfSort(ItemOf, ScoreThenPosition, ByScore(lower, query, labelOf), s);
  }

  /** `rank` keeps exactly the matching items, best first, equal scores in input order; nothing else does. */
  lemma RankIsStableSort<T(!new)>(lower: LowerCase, query: seq<CodeUnit>, labelOf: Label<T>, items: seq<T>, r: seq<T>)
    ensures IsStableSort(ByScore(lower, query, labelOf), Matching(lower, query, labelOf, items), r)
       <==> r == Rank(lower, query, labelOf, items)
  {
    RankIsSortOfMatching(lower, query, labelOf, items);
    AnyStableSortIsSort(ByScore(lower, query, labelOf), Matching(lower, query, labelOf, items), r);
  }

  /** Nothing scores higher than what is ranked before it. */
  lemma RankDescends<T(!new)>(lower: LowerCase, query: seq<CodeUnit>, labelOf: Label<T>, items: seq<T>, i: nat, j: nat)
    requires i < j < |Rank(lower, query, labelOf, items)|
    ensures var r := Rank(lower, query, labelOf, items);
            ScoreOf(lower, query, labelOf, r[i]) >= ScoreOf(lower, query, labelOf, r[j])
  {
    RankIsSortOfMatching(lower, query, labelOf, items);
    SortSorted(ByScore(lower, query, labelOf), Matching(lower, query, labelOf, items));
  }

  /** The empty query matches everything, for one point, and so leaves the list as it is. */
  lemma EmptyQueryKeepsAll<T(!new)>(lower: LowerCase, labelOf: Label<T>, items: seq<T>, target: seq<CodeUnit>)
    ensures MatchOf(lower, [], target) == Some(FuzzyMatch([], 1.0))
    ensures Rank(lower, [], labelOf, items) == items
  {
    RankIsSortOfMatching(lower, [], labelOf, items);
    AllMatchEmpty(lower, labelOf, items);
    SortOfSorted(ByScore(lower, [], labelOf), items);
  }

  lemma {:induction false} AllMatchEmpty<T>(lower: LowerCase, labelOf: Label<T>, items: seq<T>)
    ensures Matching(lower, [], labelOf, items) == items
  {
    if items != [] {
      AllMatchEmpty(lower, labelOf, items[1..]);
      assert items == [items[0]] + items[1..];
    }
  }

  // ---------------------------------------------------------------- typing more

  /** What is typed after `query` leaves it a subsequence, in lower case. */
  ghost predicate KeepsQuery(lower: LowerCase, query: seq<CodeUnit>, more: seq<CodeUnit>) {
    query == [] || IsSubsequence(lower(query), lower(query + more))
  }

  lemma MatchesExactly<T>(lower: LowerCase, query: seq<CodeUnit>, labelOf: Label<T>, item: T)
    ensures Matches(lower, query, labelOf, item)
       <==> query == [] || IsSubsequence(lower(query), lower(labelOf(item)))
  {
    LeftmostOfIsLeftmost(lower(query), lower(labelOf(item)));
  }

  lemma MatchesLess<T>(lower: LowerCase, query: seq<CodeUnit>, more: seq<CodeUnit>, labelOf: Label<T>, item: T)
    requires KeepsQuery(lower, query, more)
    ensures Matches(lower, query + more, labelOf, item) ==> Matches(lower, query, labelOf, item)
  {
    MatchesExactly(lower, query, labelOf, item);
    MatchesExactly(lower, query + more, labelOf, item);
    if query != [] && Matches(lower, query + more, labelOf, item) {
      SubsequenceTransitive(lower(query), lower(query + more), lower(labelOf(item)));
    }
  }

  lemma {:induction false} MatchingShrinks<T>(lower: LowerCase, query: seq<CodeUnit>, more: seq<CodeUnit>,
                                              labelOf: Label<T>, items: seq<T>)
    requires KeepsQuery(lower, query, more)
    ensures multiset(Matching(lower, query + more, labelOf, items)) <= multiset(Matching(lower, query, labelOf, items))
  {
    if items != [] {
      MatchingShrinks(lower, query, more, labelOf, items[1..]);
      MatchesLess(lower, query, more, labelOf, items[0]);
    }
  }

  lemma RankElements<T(!new)>(lower: LowerCase, query: seq<CodeUnit>, labelOf: Label<T>, items: seq<T>)
    ensures multiset(Rank(lower, query, labelOf, items)) == multiset(Matching(lower, query, labelOf, items))
  {
    RankIsSortOfMatching(lower, query, labelOf, items);
    SortElements(ByScore(lower, query, labelOf), Matching(lower, query, labelOf, items));
  }

  /** Typing more only ever drops results, if lower-casing keeps what was typed before. */
  lemma RankShrinks<T(!new)>(lower: LowerCase, query: seq<CodeUnit>, more: seq<CodeUnit>,
                             labelOf: Label<T>, items: seq<T>)
    requires KeepsQuery(lower, query, more)
    ensures multiset(Rank(lower, query + more, labelOf, items)) <= multiset(Rank(lower, query, labelOf, items))
  {
    MatchingShrinks(lower, query, more, labelOf, items);
    RankElements(lower, query, labelOf, items);
    RankElements(lower, query + more, labelOf, items);
  }

  /** Whatever strings are searched, typing `more` only drops results. */
  ghost predicate OnlyDrops(lower: LowerCase, query: seq<CodeUnit>, more: seq<CodeUnit>) {
    forall items ::
      multiset(Rank(lower, query + more, ItIs, items)) <= multiset(Rank(lower, query, ItIs, items))
  }

  /** An item that is its own label. */
  function ItIs(item: seq<CodeUnit>): seq<CodeUnit> {
    item
  }

  /**
    Typing more only ever drops results exactly when it leaves the query a subsequence in lower case. It
    need not, because lower-casing looks at what follows a letter.
    */
  lemma RankShrinksExactly(lower: LowerCase, query: seq<CodeUnit>, more: seq<CodeUnit>)
    ensures OnlyDrops(lower, query, more) <==> KeepsQuery(lower, query, more)
  {
    if KeepsQuery(lower, query, more) {
      forall items
        ensures multiset(Rank(lower, query + more, ItIs, items)) <= multiset(Rank(lower, query, ItIs, items))
      {
        RankShrinks(lower, query, more, ItIs, items);
      }
    } else {
      ItemComesBack(lower, query, more, query + more);
    }
  }

  lemma ItemComesBack(lower: LowerCase, query: seq<CodeUnit>, more: seq<CodeUnit>, item: seq<CodeUnit>)
    requires query != [] && !IsSubsequence(lower(query), lower(item))
    requires IsSubsequence(lower(query + more), lower(item)) || item == query + more
    ensures item !in Rank(lower, query, ItIs, [item]) && item in Rank(lower, query + more, ItIs, [item])
    ensures !OnlyDrops(lower, query, more)
  {
    EmbedsItself(lower(query + more));
    MatchesExactly(lower, query, ItIs, item);
    MatchesExactly(lower, query + more, ItIs, item);
    RankElements(lower, query, ItIs, [item]);
    RankElements(lower, query + more, ItIs, [item]);
    assert [item][1..] == [];
    assert Matching(lower, query, ItIs, [item]) == [] && Matching(lower, query + more, ItIs, [item]) == [item];
    assert item in multiset(Rank(lower, query + more, ItIs, [item]));
    assert item !in multiset(Rank(lower, query, ItIs, [item]));
  }

  // A capital sigma is lower-cased differently at the end of a word (Unicode's Final_Sigma rule).
  const CAPITAL_ALPHA: CodeUnit := 0x391
  const CAPITAL_SIGMA: CodeUnit := 0x3a3
  const ALPHA: CodeUnit := 0x3b1
  const FINAL_SIGMA: CodeUnit := 0x3c2
  const SIGMA: CodeUnit := 0x3c3

  /** Typing a third letter brings back an item that the first two had dropped. */
  lemma SigmaComesBack(lower: LowerCase)
    requires lower([CAPITAL_ALPHA, CAPITAL_SIGMA]) == [ALPHA, FINAL_SIGMA]
    requires lower([CAPITAL_ALPHA, CAPITAL_SIGMA, CAPITAL_ALPHA]) == [ALPHA, SIGMA, ALPHA]
    ensures !OnlyDrops(lower, [CAPITAL_ALPHA, CAPITAL_SIGMA], [CAPITAL_ALPHA])
  {
    var query, more := [CAPITAL_ALPHA, CAPITAL_SIGMA], [CAPITAL_ALPHA];
    assert query + more == [CAPITAL_ALPHA, CAPITAL_SIGMA, CAPITAL_ALPHA];
    var q, t := [ALPHA, FINAL_SIGMA], [ALPHA, SIGMA, ALPHA];
    if IsSubsequence(q, t) {
      SubsequenceUnits(q, t, 1);
      assert false;
    }
    ItemComesBack(lower, query, more, query + more);
  }
}
