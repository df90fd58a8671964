/** On-device redaction of personal data and secrets. */
module Redaction {
  import Luhn
  import opened Text
  import opened Wrappers

  datatype Finding = Email | CreditCard | ApiKeyLike

  datatype RedactionConfig = RedactionConfig(redactPii: bool, redactSecrets: bool)

  /** By default everything that can be detected is redacted. */
  const DEFAULT_CONFIG := RedactionConfig(true, true)

  datatype Redacted = Redacted(text: string, findings: seq<Finding>)

  // ---------------------------------------------------------------- detectors

  /** `tok.find(c)`. */
  function Find(s: string, c: char): (r: Option<nat>)
    ensures r.Some? ==> r.value < |s| && s[r.value] == c && forall i :: 0 <= i < r.value ==> s[i] != c
    ensures r.None? <==> c !in s
  {
    if s == [] then None
    else if s[0] == c then Some(0)
    else
      var rest := Find(s[1..], c);
      if rest.Some? then Some(rest.value + 1) else None
  }

  predicate LooksLikeEmail(tok: string) {
    var at := Find(tok, '@');
    at.Some? && at.value > 0 && at.value < |tok| - 1 && '.' in tok[at.value + 1..]
  }

  /** The digits of a string, in order. */
  function Digits(s: string): (digits: string)
    ensures forall i :: 0 <= i < |digits| ==> Luhn.IsDigit(digits[i])
    ensures |digits| <= |s|
  {
    if s == [] then "" else (if Luhn.IsDigit(s[0]) then [s[0]] else "") + Digits(s[1..])
  }

  predicate LooksLikeCard(tok: string) {
    13 <= |Digits(tok)| <= 19 && Luhn.Valid(Digits(tok))
  }

  const KEY_PREFIXES := ["sk-", "ghp_", "AKIA", "AIza", "xoxb-"]

  predicate IsKeyCharacter(c: char) {
    Luhn.IsDigit(c) || 'a' <= c <= 'z' || 'A' <= c <= 'Z' || c == '_' || c == '-'
  }

  predicate LooksLikeApiKey(tok: string) {
    || (exists i :: 0 <= i < |KEY_PREFIXES| && KEY_PREFIXES[i] <= tok)
    || (|tok| >= 32 && forall i :: 0 <= i < |tok| ==> IsKeyCharacter(tok[i]))
  }

  /** What the first applicable detector says about a token. */
  function Detect(tok: string, cfg: RedactionConfig): Option<Finding> {
    if cfg.redactPii && LooksLikeEmail(tok) then Some(Email)
    else if cfg.redactPii && LooksLikeCard(tok) then Some(CreditCard)
    else if cfg.redactSecrets && LooksLikeApiKey(tok) then Some(ApiKeyLike)
    else None
  }

  function Placeholder(f: Finding): string {
    match f
    case Email => "[REDACTED_EMAIL]"
    case CreditCard => "[REDACTED_CARD]"
    case ApiKeyLike => "[REDACTED_SECRET]"
  }

  /** `looks_like_card`, through the `luhn` loop; the second of its conditions always holds. */
  method ComputeLooksLikeCard(tok: string) returns (r: bool)
    ensures r <==> LooksLikeCard(tok)
  {
    var stripped := Digits(tok);
    r := 13 <= |stripped| <= 19 && |Digits(tok)| == |stripped|;
    if r {
      r := Luhn.Check(stripped);
    }
  }

  // ---------------------------------------------------------------- the rewriter

  function Rewrite(tok: string, cfg: RedactionConfig): string {
    var found := Detect(tok, cfg);
    if found.Some? then Placeholder(found.value) else tok
  }

  function RewriteAll(toks: seq<string>, cfg: RedactionConfig): (out: seq<string>)
    ensures |out| == |toks|
  {
    seq(|toks|, i requires 0 <= i < |toks| => Rewrite(toks[i], cfg))
  }

  /** What the detectors say, token by token. */
  function Detections(toks: seq<string>, cfg: RedactionConfig): (found: seq<Option<Finding>>)
    ensures |found| == |toks|
  {
    seq(|toks|, i requires 0 <= i < |toks| => Detect(toks[i], cfg))
  }

  /** The values present, in order. */
  function AllPresent<T>(options: seq<Option<T>>): seq<T>
    decreases |options|
  {
    if options == [] then []
    else AllPresent(options[..|options| - 1]) + Present(options[|options| - 1])
  }

  function Findings(toks: seq<string>, cfg: RedactionConfig): seq<Finding> {
    AllPresent(Detections(toks, cfg))
  }

  function RedactedOf(input: string, cfg: RedactionConfig): Redacted {
    Redacted(Join(RewriteAll(Split(input), cfg)), Findings(Split(input), cfg))
  }

  /** The closure that `redact` maps over the tokens. */
  method RedactToken(tok: string, cfg: RedactionConfig) returns (out: string, found: Option<Finding>)
    ensures out == Rewrite(tok, cfg) && found == Detect(tok, cfg)
  {
    if cfg.redactPii && LooksLikeEmail(tok) {
      return "[REDACTED_EMAIL]", Some(Email);
    }
    var card := ComputeLooksLikeCard(tok);
    if cfg.redactPii && card {
      return "[REDACTED_CARD]", Some(CreditCard);
    }
    if cfg.redactSecrets && LooksLikeApiKey(tok) {
      return "[REDACTED_SECRET]", Some(ApiKeyLike);
    }
    return tok, None;
  }

  lemma OneMoreToken(toks: seq<string>, i: nat, cfg: RedactionConfig)
    requires i < |toks|
    ensures RewriteAll(toks[..i + 1], cfg) == RewriteAll(toks[..i], cfg) + [Rewrite(toks[i], cfg)]
    ensures Findings(toks[..i + 1], cfg) == Findings(toks[..i], cfg) + Present(Detect(toks[i], cfg))
  {
    assert Detections(toks[..i + 1], cfg)[..i] == Detections(toks[..i], cfg);
  }

  /** `redact`: maps the tokens one by one, pushing findings as it goes. */
  method Redact(input: string, cfg: RedactionConfig) returns (r: Redacted)
    ensures r == RedactedOf(input, cfg)
  {
    var toks := Split(input);
    var findings, out := [], [];
    for i := 0 to |toks|
      invariant out == RewriteAll(toks[..i], cfg)
      invariant findings == Findings(toks[..i], cfg)
    {
      OneMoreToken(toks, i, cfg);
      var text, found := RedactToken(toks[i], cfg);
      if found.Some? {
        findings := findings + [found.value];
      }
      out := out + [text];
    }
    assert toks[..|toks|] == toks;
    r := Redacted(Join(out), findings);
  }

  // ---------------------------------------------------------------- placeholders

  lemma {:induction false} NoDigits(s: string)
    requires forall i :: 0 <= i < |s| ==> !Luhn.IsDigit(s[i])
    ensures Digits(s) == ""
  {
    if s != [] {
      NoDigits(s[1..]);
    }
  }

  lemma BracketedIsClean(p: string, cfg: RedactionConfig)
    requires 0 < |p| < 32 && p[0] == '[' && '@' !in p
    requires forall i :: 0 <= i < |p| ==> !Luhn.IsDigit(p[i])
    ensures Detect(p, cfg) == None
  {
    NoDigits(p);
    forall i | 0 <= i < |KEY_PREFIXES|
      ensures !(KEY_PREFIXES[i] <= p)
    {
      assert KEY_PREFIXES[i][0] != p[0];
    }
  }

  /** A placeholder is one word, and no detector fires on it. */
  lemma PlaceholderIsClean(f: Finding, cfg: RedactionConfig)
    ensures IsWord(Placeholder(f))
    ensures Detect(Placeholder(f), cfg) == None
  {
    BracketedIsClean(Placeholder(f), cfg);
  }

  lemma RewriteIsClean(tok: string, cfg: RedactionConfig)
    requires IsWord(tok)
    ensures IsWord(Rewrite(tok, cfg))
    ensures Detect(Rewrite(tok, cfg), cfg) == None
  {
    var found := Detect(tok, cfg);
    if found.Some? {
      PlaceholderIsClean(found.value, cfg);
    }
  }

  /** Rewriting changes a token exactly when a detector fires on it. */
  lemma RewriteChangesExactly(tok: string, cfg: RedactionConfig)
    ensures Rewrite(tok, cfg) == tok <==> Detect(tok, cfg) == None
  {
    var found := Detect(tok, cfg);
    if found.Some? {
      PlaceholderIsClean(found.value, cfg);
    }
  }

  lemma {:induction false} NonePresentExactly<T>(options: seq<Option<T>>)
    ensures AllPresent(options) == [] <==> forall i :: 0 <= i < |options| ==> options[i] == None
    decreases |options|
  {
    if options != [] {
      NonePresentExactly(options[..|options| - 1]);
    }
  }

  lemma NoFindingsExactly(toks: seq<string>, cfg: RedactionConfig)
    ensures Findings(toks, cfg) == [] <==> forall i :: 0 <= i < |toks| ==> Detect(toks[i], cfg) == None
  {
    NonePresentExactly(Detections(toks, cfg));
    assert forall i :: 0 <= i < |toks| ==> Detections(toks, cfg)[i] == Detect(toks[i], cfg);
  }

  // ---------------------------------------------------------------- what redaction guarantees

  lemma SplitOfOutput(input: string, cfg: RedactionConfig)
    ensures Split(RedactedOf(input, cfg).text) == RewriteAll(Split(input), cfg)
  {
    var toks := Split(input);
    var out := RewriteAll(toks, cfg);
    forall i | 0 <= i < |out|
      ensures IsWord(out[i])
    {
      RewriteIsClean(toks[i], cfg);
    }
    SplitOfJoin(out);
  }

  /**
    The output has one token per input token: undetected tokens stay, detected ones become their
    placeholder, and under the same configuration no token of the output is detected any more.
    */
  lemma OutputTokens(input: string, cfg: RedactionConfig)
    ensures var before, after := Split(input), Split(RedactedOf(input, cfg).text);
            && |after| == |before|
            && (forall i :: 0 <= i < |before| ==> after[i] == Rewrite(before[i], cfg))
            && (forall i :: 0 <= i < |after| ==> Detect(after[i], cfg) == None)
  {
    SplitOfOutput(input, cfg);
    forall i | 0 <= i < |Split(input)|
      ensures Detect(Rewrite(Split(input)[i], cfg), cfg) == None
    {
      RewriteIsClean(Split(input)[i], cfg);
    }
  }

  /** Redacting twice is redacting once, under every configuration, and the second pass finds nothing. */
  lemma RedactIsIdempotent(input: string, cfg: RedactionConfig)
    ensures var once := RedactedOf(input, cfg);
            RedactedOf(once.text, cfg) == Redacted(once.text, [])
  {
    OutputTokens(input, cfg);
    var once := RedactedOf(input, cfg);
    var toks := Split(once.text);
    assert RewriteAll(toks, cfg) == toks;
    NoFindingsExactly(toks, cfg);
    assert toks == RewriteAll(Split(input), cfg);
  }

  /** Redaction leaves a text alone exactly when nothing in it is detected and it is already joined by single spaces. */
  lemma RedactChangesExactly(input: string, cfg: RedactionConfig)
    ensures RedactedOf(input, cfg).text == input
       <==> RedactedOf(input, cfg).findings == [] && Join(Split(input)) == input
  {
    var toks := Split(input);
    NoFindingsExactly(toks, cfg);
    if RedactedOf(input, cfg).findings == [] {
      assert RewriteAll(toks, cfg) == toks;
    }
    if RedactedOf(input, cfg).text == input {
      OutputTokens(input, cfg);
      forall i | 0 <= i < |toks|
        ensures Detect(toks[i], cfg) == None
      {
        RewriteChangesExactly(toks[i], cfg);
      }
      assert RewriteAll(toks, cfg) == toks;
    }
  }

  lemma {:induction false} AllPresentOfConcat<T>(a: seq<Option<T>>, b: seq<Option<T>>)
    ensures AllPresent(a + b) == AllPresent(a) + AllPresent(b)
    decreases |b|
  {
    if b == [] {
      assert a + b == a;
    } else {
      AllPresentOfConcat(a, b[..|b| - 1]);
      assert (a + b)[..|a + b| - 1] == a + b[..|b| - 1];
    }
  }

  lemma FindingsOfConcat(a: seq<string>, b: seq<string>, cfg: RedactionConfig)
    ensures Findings(a + b, cfg) == Findings(a, cfg) + Findings(b, cfg)
  {
    DetectionsOfConcat(a, b, Detections(a, cfg), Detections(b, cfg), Detections(a + b, cfg), cfg);
    AllPresentOfConcat(Detections(a, cfg), Detections(b, cfg));
  }

  lemma DetectionsOfConcat(a: seq<string>, b: seq<string>, x: seq<Option<Finding>>, y: seq<Option<Finding>>,
                           z: seq<Option<Finding>>, cfg: RedactionConfig)
    requires x == Detections(a, cfg) && y == Detections(b, cfg) && z == Detections(a + b, cfg)
    ensures z == x + y
  {
    forall i | 0 <= i < |z|
      ensures z[i] == (x + y)[i]
    {
      assert (a + b)[i] == if i < |a| then a[i] else b[i - |a|];
    }
  }

  /** Redaction works token by token: it distributes over any whitespace, with the findings in order. */
  lemma RedactDistributes(a: string, c: char, b: string, cfg: RedactionConfig)
    requires IsWhitespace(c)
    ensures var whole, left, right := RedactedOf(a + ([c] + b), cfg), RedactedOf(a, cfg), RedactedOf(b, cfg);
            && Split(whole.text) == Split(left.text) + Split(right.text)
            && whole.findings == left.findings + right.findings
            && whole.text == Join(Split(left.text) + Split(right.text))
  {
    SplitOfConcat(a, c, b);
    FindingsOfConcat(Split(a), Split(b), cfg);
    SplitOfOutput(a + ([c] + b), cfg);
    SplitOfOutput(a, cfg);
    SplitOfOutput(b, cfg);
    RewriteAllOfConcat(Split(a), Split(b), cfg);
  }

  lemma RewriteAllOfConcat(a: seq<string>, b: seq<string>, cfg: RedactionConfig)
    ensures RewriteAll(a + b, cfg) == RewriteAll(a, cfg) + RewriteAll(b, cfg)
  {}

  // ---------------------------------------------------------------- verbatim secrets

  /** Every key prefix has a character that no placeholder has. */
  function ForeignTo(prefix: nat): char
    requires prefix < |KEY_PREFIXES|
  {
    match prefix
    case 0 => 's'
    case 1 => 'g'
    case 2 => 'K'
    case 3 => 'z'
    case _ => 'x'
  }

  lemma PrefixIsForeign(prefix: nat, f: Finding)
    requires prefix < |KEY_PREFIXES|
    ensures ForeignTo(prefix) in KEY_PREFIXES[prefix] && ForeignTo(prefix) !in Placeholder(f)
  {
    var c := ForeignTo(prefix);
    match prefix
    case 0 => assert KEY_PREFIXES[0][0] == c;
    case 1 => assert KEY_PREFIXES[1][0] == c;
    case 2 => assert KEY_PREFIXES[2][1] == c;
    case 3 => assert KEY_PREFIXES[3][2] == c;
    case _ => assert KEY_PREFIXES[4][0] == c;
  }

  lemma DetectedByPrefix(t: string, cfg: RedactionConfig) returns (prefix: nat)
    requires Detect(t, cfg).Some? && |t| < 32 && '@' !in t && Digits(t) == ""
    ensures prefix < |KEY_PREFIXES| && KEY_PREFIXES[prefix] <= t
  {
    prefix :| 0 <= prefix < |KEY_PREFIXES| && KEY_PREFIXES[prefix] <= t;
  }

  lemma PlaceholderCharacters(f: Finding)
    ensures |Placeholder(f)| < 32 && '@' !in Placeholder(f)
    ensures forall c :: c in Placeholder(f) ==> !Luhn.IsDigit(c)
  {}

  /** Nothing that is detected occurs inside a placeholder. */
  lemma PlaceholdersHideNothing(f: Finding, t: string, cfg: RedactionConfig)
    requires Detect(t, cfg).Some?
    ensures !Contains(Placeholder(f), t)
  {
    if Contains(Placeholder(f), t) {
      OccurringCharacters(Placeholder(f), t);
      PlaceholderCharacters(f);
      NoDigits(t);
      var prefix := DetectedByPrefix(t, cfg);
      PrefixIsForeign(prefix, f);
    }
  }

  lemma RewrittenContains(tok: string, t: string, cfg: RedactionConfig)
    requires Detect(t, cfg).Some?
    ensures Contains(Rewrite(tok, cfg), t) <==> Detect(tok, cfg) == None && Contains(tok, t)
  {
    var found := Detect(tok, cfg);
    if found.Some? {
      PlaceholdersHideNothing(found.value, t, cfg);
    }
  }

  /** Some token contains `t` and is not detected itself. */
  ghost predicate SomeKept(toks: seq<string>, t: string, cfg: RedactionConfig) {
    exists i :: 0 <= i < |toks| && Detect(toks[i], cfg) == None && Contains(toks[i], t)
  }

  /**
    What is left of a detected token, as a substring: it occurs verbatim in the output exactly when it
    occurs inside a token of the input that is not detected itself.
    */
  lemma OccursInOutputExactly(input: string, t: string, cfg: RedactionConfig)
    requires IsWord(t) && Detect(t, cfg).Some?
    ensures Contains(RedactedOf(input, cfg).text, t) <==> SomeKept(Split(input), t, cfg)
  {
    ContainsJoined(RewriteAll(Split(input), cfg), t);
    RewrittenTokensContain(Split(input), t, cfg);
  }

  lemma RewrittenTokensContain(toks: seq<string>, t: string, cfg: RedactionConfig)
    requires Detect(t, cfg).Some?
    ensures SomeContains(RewriteAll(toks, cfg), t) <==> SomeKept(toks, t, cfg)
  {
    var out := RewriteAll(toks, cfg);
    if SomeContains(out, t) {
      var i :| 0 <= i < |out| && Contains(out[i], t);
      RewrittenContains(toks[i], t, cfg);
    }
    if SomeKept(toks, t, cfg) {
      var i :| 0 <= i < |toks| && Detect(toks[i], cfg) == None && Contains(toks[i], t);
      RewrittenContains(toks[i], t, cfg);
      assert Contains(out[i], t);
    }
  }

  lemma SplitTwoWords(a: string, b: string)
    requires IsWord(a) && IsWord(b)
    ensures Split(a + [' '] + b) == [a, b]
  {
    assert Join([a, b]) == a + [' '] + b by {
      assert [a, b][1..] == [b];
    }
    SplitOfJoin([a, b]);
  }

  lemma KeyPrefixAlone(cfg: RedactionConfig)
    requires cfg.redactSecrets
    ensures Detect("sk-", cfg) == Some(ApiKeyLike)
  {
    NoDigits("sk-");
    assert KEY_PREFIXES[0] <= "sk-";
  }

  lemma KeyPrefixInside(cfg: RedactionConfig)
    ensures Detect("task-", cfg) == None && Contains("task-", "sk-")
  {
    NoDigits("task-");
    forall i | 0 <= i < |KEY_PREFIXES|
      ensures !(KEY_PREFIXES[i] <= "task-")
    {
      assert KEY_PREFIXES[i][0] != 't';
    }
    assert OccursAt("sk-", "task-", 2);
  }

  lemma ExampleTokens()
    ensures Split("sk- task-") == ["sk-", "task-"]
  {
    assert "sk- task-" == "sk-" + [' '] + "task-";
    SplitTwoWords("sk-", "task-");
  }

  lemma SecondIsKept(a: string, b: string, t: string, cfg: RedactionConfig)
    requires Detect(b, cfg) == None && Contains(b, t)
    ensures SomeKept([a, b], t, cfg)
  {
    assert [a, b][1] == b;
  }

  /** Such an input: a bare key prefix is detected, and survives inside a longer word. */
  lemma OccursInOutputExample(cfg: RedactionConfig)
    requires cfg.redactSecrets
    ensures Detect("sk-", cfg).Some? && Contains(RedactedOf("sk- task-", cfg).text, "sk-")
  {
    KeyPrefixAlone(cfg);
    KeyPrefixInside(cfg);
    ExampleTokens();
    SecondIsKept("sk-", "task-", "sk-", cfg);
    OccursInOutputExactly("sk- task-", "sk-", cfg);
  }
}
