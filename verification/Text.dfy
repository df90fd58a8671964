/** Splitting text at whitespace and joining it again. */
module Text {

  /** `char::is_whitespace`: the Unicode White_Space property. */
  predicate IsWhitespace(c: char) {
    || '\U{0009}' <= c <= '\U{000D}' || c == '\U{0020}' || c == '\U{0085}' || c == '\U{00A0}' || c == '\U{1680}'
    || '\U{2000}' <= c <= '\U{200A}' || c == '\U{2028}' || c == '\U{2029}' || c == '\U{202F}' || c == '\U{205F}'
    || c == '\U{3000}'
  }

  /** The 25 characters with the property, one by one. */
  lemma WhitespaceIs(c: char)
    ensures IsWhitespace(c) <==> c in [
      '\U{0009}', '\U{000A}', '\U{000B}', '\U{000C}', '\U{000D}', ' ', '\U{0085}', '\U{00A0}', '\U{1680}',
      '\U{2000}', '\U{2001}', '\U{2002}', '\U{2003}', '\U{2004}', '\U{2005}', '\U{2006}', '\U{2007}', '\U{2008}',
      '\U{2009}', '\U{200A}', '\U{2028}', '\U{2029}', '\U{202F}', '\U{205F}', '\U{3000}']
  {}

  /** A non-empty string without whitespace. */
  predicate IsWord(s: string) {
    s != [] && forall i :: 0 <= i < |s| ==> !IsWhitespace(s[i])
  }

  predicate AreWords(words: seq<string>) {
    forall i :: 0 <= i < |words| ==> IsWord(words[i])
  }

  /** The length of the leading run of non-whitespace. */
  function WordLength(s: string): (n: nat)
    ensures n <= |s|
    ensures forall i :: 0 <= i < n ==> !IsWhitespace(s[i])
    ensures n < |s| ==> IsWhitespace(s[n])
  {
    if s == [] || IsWhitespace(s[0]) then 0 else 1 + WordLength(s[1..])
  }

  /** `split_whitespace`. */
  function Split(s: string): (words: seq<string>)
    ensures AreWords(words)
    decreases |s|
  {
    if s == [] then []
    else if IsWhitespace(s[0]) then Split(s[1..])
    else [s[..WordLength(s)]] + Split(s[WordLength(s)..])
  }

  /** `join(" ")`. */
  function Join(words: seq<string>): string {
    if words == [] then ""
    else if |words| == 1 then words[0]
    else words[0] + [' '] + Join(words[1..])
  }

  lemma WordLengthIs(s: string, n: nat)
    requires n <= |s| && (forall i :: 0 <= i < n ==> !IsWhitespace(s[i]))
    requires n < |s| ==> IsWhitespace(s[n])
    ensures WordLength(s) == n
  {}

  lemma SplitWord(word: string, rest: string)
    requires IsWord(word)
    requires rest == [] || IsWhitespace(rest[0])
    ensures Split(word + rest) == [word] + Split(rest)
  {
    var s := word + rest;
    WordLengthIs(s, |word|);
    assert s[..|word|] == word && s[|word|..] == rest;
    assert s[0] == word[0];
  }

  lemma SplitSpace(c: char, rest: string)
    requires IsWhitespace(c)
    ensures Split([c] + rest) == Split(rest)
  {
    assert ([c] + rest)[1..] == rest;
  }

  /** Splitting distributes over concatenation at a whitespace character. */
  lemma {:induction false} SplitOfConcat(a: string, c: char, b: string)
    requires IsWhitespace(c)
    ensures Split(a + ([c] + b)) == Split(a) + Split(b)
    decreases |a|
  {
    if a == [] {
      assert a + ([c] + b) == [c] + b;
      SplitSpace(c, b);
    } else if IsWhitespace(a[0]) {
      var rest := a[1..];
      assert a == [a[0]] + rest && a + ([c] + b) == [a[0]] + (rest + ([c] + b));
      SplitOfConcat(rest, c, b);
      SplitSpace(a[0], rest);
      SplitSpace(a[0], rest + ([c] + b));
    } else {
      var word, rest := a[..WordLength(a)], a[WordLength(a)..];
      assert a == word + rest && a + ([c] + b) == word + (rest + ([c] + b));
      SplitOfConcat(rest, c, b);
      SplitWord(word, rest);
      SplitWord(word, rest + ([c] + b));
    }
  }

  /** Splitting what was joined gives the words back. */
  lemma {:induction false} SplitOfJoin(words: seq<string>)
    requires AreWords(words)
    ensures Split(Join(words)) == words
    decreases |words|
  {
    if |words| == 1 {
      SplitWord(words[0], []);
      assert words[0] + [] == words[0];
    } else if |words| > 1 {
      SplitOfJoin(words[1..]);
      SplitOfConcat(words[0], ' ', Join(words[1..]));
      assert Join(words) == words[0] + ([' '] + Join(words[1..]));
      SplitWord(words[0], []);
      assert words[0] + [] == words[0];
    }
  }

  // ---------------------------------------------------------------- verbatim occurrences

  predicate OccursAt(t: string, s: string, k: nat) {
    k + |t| <= |s| && s[k..k + |t|] == t
  }

  /** `t` occurs verbatim somewhere in `s`. */
  predicate Contains(s: string, t: string) {
    exists k :: 0 <= k <= |s| && OccursAt(t, s, k)
  }

  lemma OccurringCharacters(s: string, t: string)
    requires Contains(s, t)
    ensures |t| <= |s| && forall c :: c in t ==> c in s
  {
    var k :| 0 <= k <= |s| && OccursAt(t, s, k);
    forall c | c in t
      ensures c in s
    {
      var i :| 0 <= i < |t| && t[i] == c;
      assert s[k..k + |t|][i] == s[k + i];
    }
  }

  lemma OccursInPart(t: string, a: string, b: string, k: nat)
    ensures OccursAt(t, a, k) ==> OccursAt(t, a + b, k)
    ensures OccursAt(t, b, k) ==> OccursAt(t, a + b, |a| + k)
  {
    if OccursAt(t, a, k) {
      assert (a + b)[k..k + |t|] == a[k..k + |t|];
    }
    if OccursAt(t, b, k) {
      assert (a + b)[|a| + k..|a| + k + |t|] == b[k..k + |t|];
    }
  }

  lemma OccursInWhole(t: string, a: string, b: string, k: nat)
    requires OccursAt(t, a + b, k)
    ensures k + |t| <= |a| ==> OccursAt(t, a, k)
    ensures k >= |a| ==> OccursAt(t, b, k - |a|)
    ensures k < |a| < k + |t| ==> t[|a| - k] == b[0] && t[|a| - k - 1] == a[|a| - 1]
  {
    var s := a + b;
    if k + |t| <= |a| {
      assert a[k..k + |t|] == s[k..k + |t|];
    } else if k >= |a| {
      assert b[k - |a|..k - |a| + |t|] == s[k..k + |t|];
    } else {
      assert s[k..k + |t|][|a| - k] == s[|a|] && s[k..k + |t|][|a| - k - 1] == s[|a| - 1];
    }
  }

  lemma ContainsOfConcat(a: string, b: string, t: string)
    requires IsWord(t) && ((a != [] && IsWhitespace(a[|a| - 1])) || (b != [] && IsWhitespace(b[0])))
    ensures Contains(a + b, t) <==> Contains(a, t) || Contains(b, t)
  {
    if Contains(a + b, t) {
      var k :| 0 <= k <= |a + b| && OccursAt(t, a + b, k);
      OccursInWhole(t, a, b, k);
    }
    if Contains(a, t) {
      var k :| 0 <= k <= |a| && OccursAt(t, a, k);
      OccursInPart(t, a, b, k);
    }
    if Contains(b, t) {
      var k :| 0 <= k <= |b| && OccursAt(t, b, k);
      OccursInPart(t, a, b, k);
    }
  }

  /** A word occurs in two strings with a space between them only inside one of the two. */
  lemma ContainsAcrossSpace(a: string, b: string, t: string)
    requires IsWord(t)
    ensures Contains(a + [' '] + b, t) <==> Contains(a, t) || Contains(b, t)
  {
    ContainsOfConcat(a + [' '], b, t);
    ContainsOfConcat(a, [' '], t);
    assert !Contains([' '], t);
  }

  ghost predicate SomeContains(words: seq<string>, t: string) {
    exists i :: 0 <= i < |words| && Contains(words[i], t)
  }

  lemma SomeContainsRest(words: seq<string>, t: string)
    requires words != []
    ensures SomeContains(words, t) <==> Contains(words[0], t) || SomeContains(words[1..], t)
  {
    if SomeContains(words, t) && !Contains(words[0], t) {
      var i :| 0 <= i < |words| && Contains(words[i], t);
      assert words[1..][i - 1] == words[i];
    }
  }

  /** A word occurs in a join exactly when it occurs in one of the joined strings. */
  lemma {:induction false} ContainsJoined(words: seq<string>, t: string)
    requires IsWord(t)
    ensures Contains(Join(words), t) <==> SomeContains(words, t)
    decreases |words|
  {
    if |words| == 0 {
      assert !Contains("", t);
    } else if |words| == 1 {
      assert words == [words[0]];
    } else {
      ContainsJoined(words[1..], t);
      ContainsAcrossSpace(words[0], Join(words[1..]), t);
      SomeContainsRest(words, t);
    }
  }
}
