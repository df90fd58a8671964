/** The cases that the repository's own tests try, worked out on the model. */
module Examples {
  import Compositor
  import Detection
  import Luhn
  import Precedence
  import Redaction
  import SecurityPolicy
  import Text
  import opened Wrappers

  // ---------------------------------------------------------------- precedence

  lemma TwoSets(a: Precedence.SetCall, b: Precedence.SetCall)
    requires a.key == b.key
    ensures Precedence.SetsFor([a, b], a.key) == [a.setting, b.setting]
  {
    assert [a, b][..1] == [a] && [a][..0] == [];
    assert Precedence.SetsFor([], a.key) == [];
    assert Precedence.SetsFor([a], a.key) == [a.setting];
  }

  lemma LatestOfTwo<V>(a: Precedence.Layered<V>, b: Precedence.Layered<V>, layer: Precedence.Layer)
    ensures Precedence.Latest([a, b], layer)
         == if b.layer == layer then Some(b) else if a.layer == layer then Some(a) else None
  {
    assert [a, b][..1] == [a] && [a][..0] == [];
    assert Precedence.Latest<V>([], layer) == None;
    assert Precedence.Latest([a], layer) == if a.layer == layer then Some(a) else None;
  }

  lemma EnterpriseAndUser<V>(enterprise: Precedence.Layered<V>, user: Precedence.Layered<V>,
                             a: Precedence.Layered<V>, b: Precedence.Layered<V>)
    requires enterprise.layer == Precedence.Enterprise && user.layer == Precedence.User
    requires (a == enterprise && b == user) || (a == user && b == enterprise)
    ensures Precedence.Effective([a, b]) == Some(enterprise)
    ensures Precedence.LatestByLayer([a, b]) == [user, enterprise]
  {
    LatestOfTwo(a, b, Precedence.Default);
    LatestOfTwo(a, b, Precedence.User);
    LatestOfTwo(a, b, Precedence.LocalAdmin);
    LatestOfTwo(a, b, Precedence.Enterprise);
  }

  /** An enterprise setting stands, with its lock, against a user's, whichever is made first. */
  lemma EnterpriseOverridesUser(enterprise: Precedence.SetCall, user: Precedence.SetCall,
                                a: Precedence.SetCall, b: Precedence.SetCall)
    requires enterprise.key == user.key
    requires enterprise.setting.layer == Precedence.Enterprise && user.setting.layer == Precedence.User
    requires (a == enterprise && b == user) || (a == user && b == enterprise)
    ensures var value := enterprise.setting.value;
            Precedence.ResolveIn(Precedence.ValuesAfter([a, b]), user.key)
            == Some(Precedence.ResolvedValue(user.key, value.value, Precedence.Enterprise, value.locked,
                                             [user.setting, enterprise.setting]))
  {
    TwoSets(a, b);
    EnterpriseAndUser(enterprise.setting, user.setting, a.setting, b.setting);
    Precedence.ResolvesByLayer([a, b], user.key);
  }

  // ---------------------------------------------------------------- redaction

  lemma RedactsEmail()
    ensures var r := Redaction.RedactedOf("contact me at alice@example.com please", Redaction.DEFAULT_CONFIG);
            Text.Contains(r.text, "[REDACTED_EMAIL]") && Redaction.Email in r.findings
  {
    var host := "example.com";
    assert host[7] == '.';
    assert "contact me at alice@example.com please"
        == "contact me at" + ([' '] + (("alice" + (['@'] + host)) + ([' '] + "please")));
    Detection.EmailIsRedacted("contact me at", ' ', "alice", host, ' ', "please", Redaction.DEFAULT_CONFIG);
  }

  lemma TestCardIsWord()
    ensures Text.IsWord(Luhn.TEST_CARD) && |Luhn.TEST_CARD| == 16 && Luhn.Valid(Luhn.TEST_CARD)
    ensures forall i :: 0 <= i < |Luhn.TEST_CARD| ==> '0' <= Luhn.TEST_CARD[i] <= '9'
  {
    Luhn.TestCardIsValid();
  }

  /** The test card number, between any whitespace. */
  lemma RedactsTestCard(left: string, c: char, d: char, right: string)
    requires Text.IsWhitespace(c) && Text.IsWhitespace(d)
    ensures var r := Redaction.RedactedOf(left + ([c] + (Luhn.TEST_CARD + ([d] + right))), Redaction.DEFAULT_CONFIG);
            Text.Contains(r.text, "[REDACTED_CARD]") && Redaction.CreditCard in r.findings
  {
    TestCardIsWord();
    Detection.CardNumberIsRedacted(left, c, Luhn.TEST_CARD, d, right, Redaction.DEFAULT_CONFIG);
  }

  /** With both toggles off nothing is found, whatever the text. */
  lemma RespectsDisabledToggles(input: string)
    ensures Redaction.RedactedOf(input, Redaction.RedactionConfig(false, false))
         == Redaction.Redacted(Text.Join(Text.Split(input)), [])
  {
    var cfg, toks := Redaction.RedactionConfig(false, false), Text.Split(input);
    assert Redaction.RewriteAll(toks, cfg) == toks;
    Redaction.NoFindingsExactly(toks, cfg);
  }

  // ---------------------------------------------------------------- batches

  lemma TwoAndOne(a: Compositor.Tag, b: Compositor.Tag)
    requires a != b
    ensures Compositor.Reduce([a, a, b])
         == [Compositor.Batch(a.layer, a.kind, 2), Compositor.Batch(b.layer, b.kind, 1)]
  {
    assert Compositor.Reduce([a, a]) == [Compositor.Batch(a.layer, a.kind, 2)] by {
      assert [a, a] == [] + Compositor.Repeat(a, 2);
      Compositor.ReduceOfNewRun([], a, 2);
    }
    assert [a, a, b] == [a, a] + Compositor.Repeat(b, 1);
    Compositor.ReduceOfNewRun([a, a], b, 1);
  }

  lemma ConsecutiveItemsCoalesce()
    ensures Compositor.Reduce(Compositor.Tags([Compositor.Rect(0), Compositor.Rect(0), Compositor.Text(0)]))
         == [Compositor.Batch(0, "rect", 2), Compositor.Batch(0, "text", 1)]
  {
    var rect, text := Compositor.Tag(0, "rect"), Compositor.Tag(0, "text");
    Compositor.TagIsExact(Compositor.Rect(0), Compositor.Text(0));
    assert Compositor.Tags([Compositor.Rect(0), Compositor.Rect(0), Compositor.Text(0)]) == [rect, rect, text];
    TwoAndOne(rect, text);
  }

  // ---------------------------------------------------------------- mobile policies

  function Grant(capability: SecurityPolicy.Capability, layer: Precedence.Layer, allowed: bool, expiresAt: Option<int>)
    : SecurityPolicy.Operation<int>
  {
    SecurityPolicy.SetOp(SecurityPolicy.Grant(capability, layer, allowed, expiresAt))
  }

  lemma StoredOfOne(op: SecurityPolicy.Operation<int>)
    requires op.SetOp?
    ensures SecurityPolicy.Stored([op]) == map[op.grant.capability := op.grant]
  {
    assert [op][..0] == [];
  }

  /** A grant that lapses: allowed before, refused from then on. */
  lemma HonorsAllowGrantAndExpiry(capability: SecurityPolicy.Capability)
    ensures var ops := [Grant(capability, Precedence.User, true, Some(1000))];
            && SecurityPolicy.AndroidAllows(ops, capability, 500) && SecurityPolicy.AndroidAllows(ops, capability, 999)
            && !SecurityPolicy.AndroidAllows(ops, capability, 1000)
            && !SecurityPolicy.AndroidAllows(ops, capability, 2000)
  {
    StoredOfOne(Grant(capability, Precedence.User, true, Some(1000)));
  }

  /** A deny from the enterprise stands against an allow from the user, whichever comes first. */
  lemma EnterpriseDenyStands(capability: SecurityPolicy.Capability, now: int)
    ensures var allow := Grant(capability, Precedence.User, true, None);
            var deny := Grant(capability, Precedence.Enterprise, false, None);
            && !SecurityPolicy.AndroidAllows([allow, deny], capability, now)
            && !SecurityPolicy.AndroidAllows([deny, allow], capability, now)
            && SecurityPolicy.AndroidAllows([allow], capability, now)
            && !SecurityPolicy.AndroidAllows([], capability, now)
  {
    var allow := Grant(capability, Precedence.User, true, None);
    var deny := Grant(capability, Precedence.Enterprise, false, None);
    assert [allow, deny][..1] == [allow] && [deny, allow][..1] == [deny];
    StoredOfOne(allow);
    StoredOfOne(deny);
  }
}
