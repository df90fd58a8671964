/** What each detector recognises, told without its code, and what becomes of a recognised token in a text. */
module Detection {
  import Luhn
  import opened Redaction
  import opened Text
  import opened Wrappers

  // ---------------------------------------------------------------- e-mail addresses

  /** A name without an at sign, then one, then anything with a dot. */
  predicate IsAddress(tok: string, name: string, host: string) {
    tok == name + (['@'] + host) && name != [] && '@' !in name && '.' in host
  }

  lemma EmailParts(tok: string) returns (name: string, host: string)
    requires LooksLikeEmail(tok)
    ensures IsAddress(tok, name, host)
  {
    var at := Find(tok, '@').value;
    name, host := tok[..at], tok[at + 1..];
  }

  lemma AddressIsEmail(tok: string, name: string, host: string)
    requires IsAddress(tok, name, host)
    ensures LooksLikeEmail(tok)
  {
    assert tok[|name|] == '@';
    assert forall i :: 0 <= i < |name| ==> tok[i] == name[i];
    assert Find(tok, '@') == Some(|name|);
    assert tok[|name| + 1..] == host;
  }

  lemma EmailExactly(tok: string)
    ensures LooksLikeEmail(tok) <==> exists name, host :: IsAddress(tok, name, host)
  {
    if LooksLikeEmail(tok) {
      var name, host := EmailParts(tok);
    }
    forall name, host | IsAddress(tok, name, host)
      ensures LooksLikeEmail(tok)
    {
      AddressIsEmail(tok, name, host);
    }
  }

  // ---------------------------------------------------------------- card numbers

  /** The digits are taken out one by one, whatever stands between them. */
  lemma {:induction false} DigitsOfConcat(a: string, b: string)
    ensures Digits(a + b) == Digits(a) + Digits(b)
  {
    if a == [] {
      assert a + b == b;
    } else {
      DigitsOfConcat(a[1..], b);
      assert (a + b)[1..] == a[1..] + b;
      Regroup(if Luhn.IsDigit(a[0]) then [a[0]] else "", Digits(a[1..]), Digits(b));
    }
  }

  lemma {:induction false} DigitsOfDigits(s: string)
    requires forall i :: 0 <= i < |s| ==> '0' <= s[i] <= '9'
    ensures Digits(s) == s
  {
    if s != [] {
      DigitsOfDigits(s[1..]);
      assert s == [s[0]] + s[1..];
    }
  }

  lemma {:induction false} DigitsOfOthers(s: string)
    requires forall i :: 0 <= i < |s| ==> !('0' <= s[i] <= '9')
    ensures Digits(s) == ""
  {
    if s != [] {
      DigitsOfOthers(s[1..]);
    }
  }

  /** Of numbers of zeros, all of which have a valid checksum, those of 13 to 19 digits are cards. */
  lemma CardLengthExactly(n: nat)
    ensures LooksLikeCard(seq(n, _ => '0')) <==> 13 <= n <= 19
  {
    var zeros := seq(n, _ => '0');
    DigitsOfDigits(zeros);
    Luhn.SumOfZeros(zeros, false);
  }

  /** A card number is recognised with anything but digits between its digits. */
  lemma CardWithSeparator(left: string, separator: string, right: string)
    requires forall i :: 0 <= i < |separator| ==> !('0' <= separator[i] <= '9')
    ensures LooksLikeCard(left + (separator + right)) <==> LooksLikeCard(left + right)
  {
    DigitsOfConcat(left, separator + right);
    DigitsOfConcat(separator, right);
    DigitsOfConcat(left, right);
    DigitsOfOthers(separator);
    assert [] + Digits(right) == Digits(right);
  }

  // ---------------------------------------------------------------- keys

  /** A token starting with one of the five prefixes is a key, whatever follows. */
  lemma KeyByPrefix(rest: string)
    ensures LooksLikeApiKey("sk-" + rest) && LooksLikeApiKey("ghp_" + rest) && LooksLikeApiKey("AKIA" + rest)
    ensures LooksLikeApiKey("AIza" + rest) && LooksLikeApiKey("xoxb-" + rest)
  {
    assert KEY_PREFIXES[0] <= "sk-" + rest;
    assert KEY_PREFIXES[1] <= "ghp_" + rest;
    assert KEY_PREFIXES[2] <= "AKIA" + rest;
    assert KEY_PREFIXES[3] <= "AIza" + rest;
    assert KEY_PREFIXES[4] <= "xoxb-" + rest;
  }

  /** Without a prefix, a token is a key exactly when it has 32 letters, digits, underscores and hyphens or more. */
  lemma KeyByLength(tok: string)
    requires !("sk-" <= tok) && !("ghp_" <= tok) && !("AKIA" <= tok) && !("AIza" <= tok) && !("xoxb-" <= tok)
    ensures LooksLikeApiKey(tok)
       <==> |tok| > 31 && forall c :: c in tok ==>
              '0' <= c <= '9' || 'a' <= c <= 'z' || 'A' <= c <= 'Z' || c == '_' || c == '-'
  {
    assert forall i :: 0 <= i < |KEY_PREFIXES| ==> !(KEY_PREFIXES[i] <= tok);
    assert forall i :: 0 <= i < |tok| ==> tok[i] in tok;
  }

  // ---------------------------------------------------------------- which detector answers

  /** Personal data before secrets, and nothing without its toggle. */
  lemma DetectExactly(tok: string, cfg: RedactionConfig)
    ensures Detect(tok, cfg) == Some(Email) <==> cfg.redactPii && LooksLikeEmail(tok)
    ensures Detect(tok, cfg) == Some(CreditCard) <==> cfg.redactPii && !LooksLikeEmail(tok) && LooksLikeCard(tok)
    ensures Detect(tok, cfg) == Some(ApiKeyLike)
       <==> cfg.redactSecrets && LooksLikeApiKey(tok) && !(cfg.redactPii && (LooksLikeEmail(tok) || LooksLikeCard(tok)))
    ensures !cfg.redactPii && !cfg.redactSecrets ==> Detect(tok, cfg) == None
  {}

  // ---------------------------------------------------------------- end to end

  /** A token with whitespace on both sides is one token of the text. */
  lemma TokenInText(left: string, c: char, tok: string, d: char, right: string)
    requires IsWhitespace(c) && IsWhitespace(d) && IsWord(tok)
    ensures Split(left + ([c] + (tok + ([d] + right)))) == Split(left) + ([tok] + Split(right))
  {
    SplitOfConcat(left, c, tok + ([d] + right));
    SplitWord(tok, [d] + right);
    SplitSpace(d, right);
  }

  lemma RewriteInText(a: seq<string>, tok: string, b: seq<string>, cfg: RedactionConfig)
    ensures RewriteAll(a + ([tok] + b), cfg) == RewriteAll(a, cfg) + ([Rewrite(tok, cfg)] + RewriteAll(b, cfg))
  {
    RewriteAllOfConcat(a, [tok] + b, cfg);
    RewriteAllOfConcat([tok], b, cfg);
    assert RewriteAll([tok], cfg) == [Rewrite(tok, cfg)];
  }

  lemma FindingsInText(a: seq<string>, tok: string, b: seq<string>, cfg: RedactionConfig)
    ensures Findings(a + ([tok] + b), cfg) == Findings(a, cfg) + (Present(Detect(tok, cfg)) + Findings(b, cfg))
  {
    FindingsOfConcat(a, [tok] + b, cfg);
    FindingsOfConcat([tok], b, cfg);
    assert Detections([tok], cfg) == [Detect(tok, cfg)];
    OnePresent(Detect(tok, cfg));
  }

  lemma OnePresent<T>(option: Option<T>)
    ensures AllPresent([option]) == Present(option)
  {
    assert [option][..0] == [];
    assert AllPresent([]) + Present(option) == Present(option);
  }

  /**
    What becomes of a detected token, wherever it stands between whitespace: its placeholder takes its place among the
    tokens of the output, and its finding takes its place among the findings.
    */
  lemma DetectedIsReplaced(left: string, c: char, tok: string, d: char, right: string, f: Finding, cfg: RedactionConfig)
    requires IsWhitespace(c) && IsWhitespace(d) && IsWord(tok) && Detect(tok, cfg) == Some(f)
    ensures var whole := RedactedOf(left + ([c] + (tok + ([d] + right))), cfg);
            var l, r := RedactedOf(left, cfg), RedactedOf(right, cfg);
            && Split(whole.text) == Split(l.text) + ([Placeholder(f)] + Split(r.text))
            && whole.findings == l.findings + ([f] + r.findings)
            && Contains(whole.text, Placeholder(f))
  {
    var input := left + ([c] + (tok + ([d] + right)));
    TokenInText(left, c, tok, d, right);
    RewriteInText(Split(left), tok, Split(right), cfg);
    FindingsInText(Split(left), tok, Split(right), cfg);
    SplitOfOutput(input, cfg);
    SplitOfOutput(left, cfg);
    SplitOfOutput(right, cfg);
    PlaceholderOccurs(Split(left), f, RewriteAll(Split(input), cfg), cfg);
  }

  lemma PlaceholderOccurs(before: seq<string>, f: Finding, out: seq<string>, cfg: RedactionConfig)
    requires |before| < |out| && out[|before|] == Placeholder(f)
    ensures Contains(Join(out), Placeholder(f))
  {
    PlaceholderIsClean(f, cfg);
    assert OccursAt(Placeholder(f), out[|before|], 0);
    ContainsJoined(out, Placeholder(f));
    assert Contains(out[|before|], Placeholder(f));
  }

  /** In particular no address between whitespace leaves the device when personal data is to be redacted. */
  lemma EmailIsRedacted(left: string, c: char, name: string, host: string, d: char, right: string, cfg: RedactionConfig)
    requires IsWhitespace(c) && IsWhitespace(d) && cfg.redactPii
    requires IsAddress(name + (['@'] + host), name, host) && IsWord(name + (['@'] + host))
    ensures var whole := RedactedOf(left + ([c] + ((name + (['@'] + host)) + ([d] + right))), cfg);
            Contains(whole.text, "[REDACTED_EMAIL]") && Email in whole.findings
  {
    var tok := name + (['@'] + host);
    AddressIsEmail(tok, name, host);
    DetectedIsReplaced(left, c, tok, d, right, Email, cfg);
  }

  /** Nor a valid card number, nor a key. */
  lemma CardIsRedacted(left: string, c: char, tok: string, d: char, right: string, cfg: RedactionConfig)
    requires IsWhitespace(c) && IsWhitespace(d) && cfg.redactPii && IsWord(tok)
    requires '@' !in tok && 13 <= |Digits(tok)| <= 19 && Luhn.AddedUpTo(Digits(tok), |Digits(tok)|) % 10 == 0
    ensures var whole := RedactedOf(left + ([c] + (tok + ([d] + right))), cfg);
            Contains(whole.text, "[REDACTED_CARD]") && CreditCard in whole.findings
  {
    Luhn.SumByPosition(Digits(tok));
    DetectedIsReplaced(left, c, tok, d, right, CreditCard, cfg);
  }

  lemma CardNumberIsRedacted(left: string, c: char, number: string, d: char, right: string, cfg: RedactionConfig)
    requires IsWhitespace(c) && IsWhitespace(d) && cfg.redactPii && IsWord(number)
    requires 13 <= |number| <= 19 && Luhn.Valid(number) && forall i :: 0 <= i < |number| ==> '0' <= number[i] <= '9'
    ensures var whole := RedactedOf(left + ([c] + (number + ([d] + right))), cfg);
            Contains(whole.text, "[REDACTED_CARD]") && CreditCard in whole.findings
  {
    DigitsOfDigits(number);
    Luhn.SumByPosition(number);
    assert '@' !in number;
    CardIsRedacted(left, c, number, d, right, cfg);
  }

  lemma KeyIsRedacted(left: string, c: char, rest: string, d: char, right: string, cfg: RedactionConfig)
    requires IsWhitespace(c) && IsWhitespace(d) && cfg.redactSecrets && IsWord("sk-" + rest)
    requires '@' !in "sk-" + rest && |Digits("sk-" + rest)| < 13
    ensures var whole := RedactedOf(left + ([c] + (("sk-" + rest) + ([d] + right))), cfg);
            Contains(whole.text, "[REDACTED_SECRET]") && ApiKeyLike in whole.findings
  {
    KeyByPrefix(rest);
    DetectedIsReplaced(left, c, "sk-" + rest, d, right, ApiKeyLike, cfg);
  }
}
