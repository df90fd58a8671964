/** Which decision spans can be read back from their log line. */
module LogLines {
  import opened Precedence
  import opened Provenance
  import opened Sorting
  import opened Text

  // ---------------------------------------------------------------- spans without delimiters

  /** A string up to its first `c` is determined by the whole, and so is what follows. */
  lemma Cut(c: char, a: string, x: string, b: string, y: string)
    requires c !in a && c !in b && a + ([c] + x) == b + ([c] + y)
    ensures a == b && x == y
  {
    var s, t := a + ([c] + x), b + ([c] + y);
    assert s[|a|] == c && t[|b|] == c;
    assert forall i :: 0 <= i < |a| ==> s[i] == a[i];
    assert forall i :: 0 <= i < |b| ==> t[i] == b[i];
    assert |a| == |b|;
    assert s[..|a|] == a && t[..|b|] == b && s[|a| + 1..] == x && t[|b| + 1..] == y;
  }

  /** Keys and values without commas, keys without equals signs. */
  predicate AreDelimited(inputs: seq<Input>) {
    forall i :: 0 <= i < |inputs| ==>
      ',' !in inputs[i].key && ',' !in inputs[i].value && '=' !in inputs[i].key
  }

  lemma PairInjective(a: Input, b: Input)
    requires '=' !in a.key && '=' !in b.key && Pair(a) == Pair(b)
    ensures a == b
  {
    Cut('=', a.key, a.value, b.key, b.value);
  }

  lemma CommaInJoin(inputs: seq<Input>)
    requires AreDelimited(inputs) && inputs != []
    ensures ',' in JoinInputs(inputs) <==> |inputs| > 1
    ensures JoinInputs(inputs) != ""
  {
    if |inputs| > 1 {
      assert JoinInputs(inputs)[|Pair(inputs[0])|] == ',';
    }
  }

  /** Delimited inputs can be read back from their join. */
  lemma {:induction false} JoinInjective(a: seq<Input>, b: seq<Input>)
    requires AreDelimited(a) && AreDelimited(b) && JoinInputs(a) == JoinInputs(b)
    ensures a == b
    decreases |a|
  {
    if a != [] {
      CommaInJoin(a);
    }
    if b != [] {
      CommaInJoin(b);
    }
    if |a| == 1 {
      PairInjective(a[0], b[0]);
    } else if |a| > 1 {
      Cut(',', Pair(a[0]), JoinInputs(a[1..]), Pair(b[0]), JoinInputs(b[1..]));
      PairInjective(a[0], b[0]);
      JoinInjective(a[1..], b[1..]);
      assert a == [a[0]] + a[1..] && b == [b[0]] + b[1..];
    }
  }

  lemma CutAtMark(mark: string, v: string, x: string, w: string, y: string)
    requires mark != [] && mark[0] == ' ' && ' ' !in v && ' ' !in w && v + (mark + x) == w + (mark + y)
    ensures v == w && x == y
  {
    assert mark + x == [' '] + (mark[1..] + x) && mark + y == [' '] + (mark[1..] + y);
    Cut(' ', v, mark[1..] + x, w, mark[1..] + y);
    assert (mark[1..] + x)[|mark| - 1..] == x && (mark[1..] + y)[|mark| - 1..] == y;
  }

  /** Fields without spaces, and delimited inputs. */
  predicate IsDelimited(span: DecisionSpan) {
    && ' ' !in span.domain && ' ' !in span.key && ' ' !in span.decision && ' ' !in span.matchedRule
    && AreDelimited(span.inputs)
  }

  lemma NamesDiffer(a: Layer, b: Layer)
    ensures ' ' !in a.Name()
    ensures a.Name() == b.Name() <==> a == b
  {
    assert Default.Name()[0] == 'd' && User.Name()[0] == 'u';
    assert LocalAdmin.Name()[0] == 'l' && Enterprise.Name()[0] == 'e';
  }

  lemma DomainAgrees(s: DecisionSpan, t: DecisionSpan)
    requires ToLogLine(s) == ToLogLine(t)
    ensures s.domain + (KEY_MARK + KeyTail(s)) == t.domain + (KEY_MARK + KeyTail(t))
  {
    assert ToLogLine(s)[7..] == s.domain + (KEY_MARK + KeyTail(s));
    assert ToLogLine(t)[7..] == t.domain + (KEY_MARK + KeyTail(t));
  }

  /** The layer and the inputs follow the source mark. */
  lemma SourcesAgree(s: DecisionSpan, t: DecisionSpan)
    requires SourceTail(s) == SourceTail(t)
    ensures s.sourceLayer == t.sourceLayer && JoinInputs(s.inputs) == JoinInputs(t.inputs)
  {
    NamesDiffer(s.sourceLayer, t.sourceLayer);
    NamesDiffer(t.sourceLayer, s.sourceLayer);
    CutAtMark(INPUTS_MARK, s.sourceLayer.Name(), InputsTail(s), t.sourceLayer.Name(), InputsTail(t));
    assert InputsTail(s)[..|InputsTail(s)| - 1] == JoinInputs(s.inputs);
    assert InputsTail(t)[..|InputsTail(t)| - 1] == JoinInputs(t.inputs);
  }

  /** If neither span uses the delimiters inside its parts, equal log lines mean equal spans. */
  lemma LogLineDeterminesSpan(s: DecisionSpan, t: DecisionSpan)
    requires IsDelimited(s) && IsDelimited(t)
    ensures ToLogLine(s) == ToLogLine(t) <==> s == t
  {
    if ToLogLine(s) == ToLogLine(t) {
      DomainAgrees(s, t);
      CutAtMark(KEY_MARK, s.domain, KeyTail(s), t.domain, KeyTail(t));
      CutAtMark(DECISION_MARK, s.key, DecisionTail(s), t.key, DecisionTail(t));
      CutAtMark(RULE_MARK, s.decision, RuleTail(s), t.decision, RuleTail(t));
      CutAtMark(SOURCE_MARK, s.matchedRule, SourceTail(s), t.matchedRule, SourceTail(t));
      SourcesAgree(s, t);
      JoinInjective(s.inputs, t.inputs);
    }
  }

  /** Otherwise they need not: a comma in a value reads like a second input. */
  lemma LogLineHidesComma(span: DecisionSpan)
    ensures ToLogLine(span.(inputs := [Input("a", "1,b=2")]))
         == ToLogLine(span.(inputs := [Input("a", "1"), Input("b", "2")]))
  {
    assert Pair(Input("a", "1,b=2")) == "a=1,b=2" == Pair(Input("a", "1")) + ([','] + Pair(Input("b", "2")));
    assert [Input("a", "1"), Input("b", "2")][1..] == [Input("b", "2")];
  }

  // ---------------------------------------------------------------- which inputs can be read back

  /** No input, or a single one whose only equals sign is the separator. */
  predicate InputsReadBack(inputs: seq<Input>) {
    inputs == [] || (|inputs| == 1 && '=' !in inputs[0].key && '=' !in inputs[0].value)
  }

  /** Every non-empty list of inputs is joined like a list of one. */
  lemma JoinOfOne(inputs: seq<Input>) returns (input: Input)
    requires inputs != []
    ensures JoinInputs([input]) == JoinInputs(inputs)
    ensures |inputs| == 1 ==> input == inputs[0]
  {
    if |inputs| == 1 {
      input := inputs[0];
    } else {
      var rest := [','] + JoinInputs(inputs[1..]);
      input := Input(inputs[0].key, inputs[0].value + rest);
      assert Pair(inputs[0]) + rest == Pair(input);
    }
  }

  /** An equals sign with nothing but the same sign around can be cut at one place only. */
  lemma CutAtOnly(k: string, v: string, a: string, x: string)
    requires '=' !in k && '=' !in v && k + (['='] + v) == a + (['='] + x)
    ensures k == a && v == x
  {
    var s := k + (['='] + v);
    assert s == a + (['='] + x);
    assert s[|a|] == '=';
    assert forall i :: 0 <= i < |k| ==> s[i] == k[i];
    assert forall i :: 0 <= i < |v| ==> s[|k| + 1 + i] == v[i];
    assert |a| == |k|;
    assert s[..|k|] == k && s[..|a|] == a && s[|k| + 1..] == v && s[|a| + 1..] == x;
  }

  lemma EqualsInside(a: string, b: string)
    ensures '=' in a + (['='] + b)
  {
    assert (a + (['='] + b))[|a|] == '=';
  }

  lemma OnlyOneReading(input: Input, other: seq<Input>)
    requires '=' !in input.key && '=' !in input.value && JoinInputs(other) == JoinInputs([input])
    ensures other == [input]
  {
    assert |Pair(input)| > 0;
    var one := JoinOfOne(other);
    CutAtOnly(input.key, input.value, one.key, one.value);
    if |other| > 1 {
      var next := JoinOfOne(other[1..]);
      assert Pair(other[0]) + ([','] + Pair(next))
          == other[0].key + (['='] + (other[0].value + ([','] + (next.key + (['='] + next.value)))));
      EqualsInside(other[0].value + [','] + next.key, next.value);
      assert other[0].value + ([','] + (next.key + (['='] + next.value)))
          == other[0].value + [','] + next.key + (['='] + next.value);
      CutAtOnly(input.key, input.value, other[0].key, other[0].value + ([','] + (next.key + (['='] + next.value))));
    }
  }

  lemma AnotherReading(inputs: seq<Input>) returns (other: seq<Input>)
    requires !InputsReadBack(inputs)
    ensures other != inputs && |other| == 1 && JoinInputs(other) == JoinInputs(inputs)
  {
    var input := JoinOfOne(inputs);
    if |inputs| > 1 {
      other := [input];
    } else if '=' in input.key {
      var i :| 0 <= i < |input.key| && input.key[i] == '=';
      var front, back := input.key[..i], input.key[i + 1..];
      assert input.key == front + (['='] + back);
      other := [Input(front, back + (['='] + input.value))];
      assert Pair(other[0]) == Pair(input);
    } else {
      var i :| 0 <= i < |input.value| && input.value[i] == '=';
      var front, back := input.value[..i], input.value[i + 1..];
      assert input.value == front + (['='] + back);
      other := [Input(input.key + (['='] + front), back)];
      assert Pair(other[0]) == Pair(input);
    }
  }

  /** Only no input, or one with one equals sign, can be read back from the joined inputs. */
  lemma InputsReadBackExactly(inputs: seq<Input>)
    ensures (forall other :: Sorted(InputLe, other) && JoinInputs(other) == JoinInputs(inputs) ==> other == inputs)
       <==> InputsReadBack(inputs)
  {
    if InputsReadBack(inputs) {
      forall other | JoinInputs(other) == JoinInputs(inputs)
        ensures other == inputs
      {
        if inputs != [] {
          OnlyOneReading(inputs[0], other);
        } else if other != [] {
          var one := JoinOfOne(other);
        }
      }
    } else {
      var other := AnotherReading(inputs);
      assert Sorted(InputLe, other);
    }
  }

  /** Every span with inputs has the log line of a span with a single input. */
  lemma LineOfOneInput(span: DecisionSpan) returns (one: DecisionSpan)
    requires span.inputs != []
    ensures |one.inputs| == 1 && one.(inputs := span.inputs) == span && ToLogLine(one) == ToLogLine(span)
  {
    var input := JoinOfOne(span.inputs);
    one := span.(inputs := [input]);
  }

  // ---------------------------------------------------------------- marks

  /** A space, then something without spaces. */
  predicate IsMark(d: string) {
    |d| >= 2 && d[0] == ' ' && forall i :: 1 <= i < |d| ==> d[i] != ' '
  }

  predicate EndsWith(s: string, z: string) {
    |z| <= |s| && s[|s| - |z|..] == z
  }

  lemma EndsInside(s: string, b: string, z: string)
    requires EndsWith(s, b + z)
    ensures EndsWith(s, z)
  {
    assert s[|s| - |z|..] == s[|s| - |b + z|..][|b|..];
  }

  /** Of two readings of one string with the same mark, the later cut lies behind the earlier mark. */
  lemma LaterCut(d: string, a: string, x: string, b: string, y: string)
    requires IsMark(d) && a + (d + x) == b + (d + y) && |a| < |b|
    ensures |a| + |d| <= |b| && EndsWith(x, d + y)
  {
    var s := a + (d + x);
    assert s[|b|] == ' ';
    assert forall i :: 0 <= i < |d| ==> s[|a| + i] == d[i];
    assert |a| + |d| <= |b|;
    assert s[|b|..] == d + y;
    assert x == s[|a| + |d|..];
  }

  lemma OccursBefore(d: string, a: string, w: string, k: nat)
    requires k + |d| <= |a| && (a + w)[k..k + |d|] == d
    ensures Contains(a, d)
  {
    assert a[k..k + |d|] == (a + w)[k..k + |d|];
    assert OccursAt(d, a, k);
  }

  /** If the text before the first cut does not contain the mark, the other cut is the same or lies behind. */
  lemma FirstCut(d: string, a: string, x: string, b: string, y: string)
    requires IsMark(d) && !Contains(a, d) && a + (d + x) == b + (d + y)
    ensures (a == b && x == y) || EndsWith(x, d + y)
  {
    var s := a + (d + x);
    if |a| < |b| {
      LaterCut(d, a, x, b, y);
    } else if |b| < |a| {
      LaterCut(d, b, y, a, x);
      assert s[|b|..|b| + |d|] == d;
      OccursBefore(d, a, d + x, |b|);
    } else {
      assert s[..|a|] == a && s[..|a|] == b && s[|a| + |d|..] == x && s[|a| + |d|..] == y;
    }
  }

  /** A mark that ends a string, and does not occur before another mark, lies behind that one. */
  lemma BehindNext(d: string, e: string, a: string, x: string, z: string)
    requires IsMark(d) && IsMark(e) && d[1] != e[1] && !Contains(a, d)
    requires EndsWith(a + (e + x), d + z)
    ensures EndsWith(x, d + z)
  {
    var s := a + (e + x);
    var k := |s| - |d + z|;
    assert forall i :: 0 <= i < |d| ==> s[k + i] == (d + z)[i] == d[i];
    assert forall i :: 0 <= i < |e| ==> s[|a| + i] == e[i];
    assert s[k..k + |d|] == d;
    if k + |d| <= |a| {
      OccursBefore(d, a, e + x, k);
    }
    assert k >= |a| + |e|;
    assert x == s[|a| + |e|..];
  }

  lemma MarksAreMarks()
    ensures IsMark(KEY_MARK) && IsMark(DECISION_MARK) && IsMark(RULE_MARK) && IsMark(SOURCE_MARK) && IsMark(INPUTS_MARK)
    ensures KEY_MARK[1] == 'k' && DECISION_MARK[1] == 'd' && RULE_MARK[1] == 'r'
    ensures SOURCE_MARK[1] == 's' && INPUTS_MARK[1] == 'i'
  {}

  lemma NoMarkWithoutSpace(a: string, d: string)
    requires ' ' !in a && IsMark(d)
    ensures !Contains(a, d)
  {
    assert d[0] in d;
    if Contains(a, d) {
      OccurringCharacters(a, d);
    }
  }

  // ---------------------------------------------------------------- which spans can be read back

  /** What the line says about a source and its inputs, up to the inputs themselves. */
  function SourceText(layer: Layer): string {
    SOURCE_MARK + layer.Name() + INPUTS_MARK
  }

  /**
    The inputs can be read back; no field contains the mark before or after it; and the rule does not
    already spell a source and the start of its inputs.
    */
  predicate ReadsBack(s: DecisionSpan) {
    && !Contains(s.domain, KEY_MARK) && !Contains(s.key, KEY_MARK)
    && !Contains(s.key, DECISION_MARK) && !Contains(s.decision, DECISION_MARK)
    && !Contains(s.decision, RULE_MARK) && !Contains(s.matchedRule, RULE_MARK)
    && (forall layer: Layer :: !Contains(s.matchedRule, SourceText(layer)))
    && InputsReadBack(s.inputs)
  }

  lemma FewEquals(inputs: seq<Input>, i: nat, j: nat)
    requires InputsReadBack(inputs) && i < j < |JoinInputs(inputs) + "]"|
    ensures (JoinInputs(inputs) + "]")[i] != '=' || (JoinInputs(inputs) + "]")[j] != '='
  {
    if inputs != [] {
      var k, v := inputs[0].key, inputs[0].value;
      var s := JoinInputs(inputs) + "]";
      assert forall n :: 0 <= n < |k| ==> s[n] == k[n];
      assert forall n :: 0 <= n < |v| ==> s[|k| + 1 + n] == v[n];
    }
  }

  /** The source mark does not come again after the source. */
  lemma NoLaterSource(s: DecisionSpan, t: DecisionSpan)
    requires ReadsBack(s)
    ensures !EndsWith(SourceTail(s), SOURCE_MARK + SourceTail(t))
  {
    if EndsWith(SourceTail(s), SOURCE_MARK + SourceTail(t)) {
      MarksAreMarks();
      NamesDiffer(s.sourceLayer, s.sourceLayer);
      NoMarkWithoutSpace(s.sourceLayer.Name(), SOURCE_MARK);
      BehindNext(SOURCE_MARK, INPUTS_MARK, s.sourceLayer.Name(), InputsTail(s), SourceTail(t));
      var z := SOURCE_MARK + SourceTail(t);
      var k := |InputsTail(s)| - |z|;
      var n := |SOURCE_MARK| + |t.sourceLayer.Name()| + 7;
      assert z[7] == '=' && z[n] == '=';
      assert InputsTail(s)[k..] == z;
      assert InputsTail(s)[k + 7] == z[7] && InputsTail(s)[k + n] == z[n];
      FewEquals(s.inputs, k + 7, k + n);
    }
  }

  lemma NoLaterRule(s: DecisionSpan, t: DecisionSpan)
    requires ReadsBack(s)
    ensures !EndsWith(RuleTail(s), RULE_MARK + RuleTail(t))
  {
    if EndsWith(RuleTail(s), RULE_MARK + RuleTail(t)) {
      MarksAreMarks();
      BehindNext(RULE_MARK, SOURCE_MARK, s.matchedRule, SourceTail(s), RuleTail(t));
      assert RULE_MARK + RuleTail(t) == (RULE_MARK + t.matchedRule) + (SOURCE_MARK + SourceTail(t));
      EndsInside(SourceTail(s), RULE_MARK + t.matchedRule, SOURCE_MARK + SourceTail(t));
      NoLaterSource(s, t);
    }
  }

  lemma NoLaterDecision(s: DecisionSpan, t: DecisionSpan)
    requires ReadsBack(s)
    ensures !EndsWith(DecisionTail(s), DECISION_MARK + DecisionTail(t))
  {
    if EndsWith(DecisionTail(s), DECISION_MARK + DecisionTail(t)) {
      MarksAreMarks();
      BehindNext(DECISION_MARK, RULE_MARK, s.decision, RuleTail(s), DecisionTail(t));
      assert DECISION_MARK + DecisionTail(t) == (DECISION_MARK + t.decision) + (RULE_MARK + RuleTail(t));
      EndsInside(RuleTail(s), DECISION_MARK + t.decision, RULE_MARK + RuleTail(t));
      NoLaterRule(s, t);
    }
  }

  lemma NoLaterKey(s: DecisionSpan, t: DecisionSpan)
    requires ReadsBack(s)
    ensures !EndsWith(KeyTail(s), KEY_MARK + KeyTail(t))
  {
    if EndsWith(KeyTail(s), KEY_MARK + KeyTail(t)) {
      MarksAreMarks();
      BehindNext(KEY_MARK, DECISION_MARK, s.key, DecisionTail(s), KeyTail(t));
      assert KEY_MARK + KeyTail(t) == (KEY_MARK + t.key) + (DECISION_MARK + DecisionTail(t));
      EndsInside(DecisionTail(s), KEY_MARK + t.key, DECISION_MARK + DecisionTail(t));
      NoLaterDecision(s, t);
    }
  }

  /** The rule ends where the other reading says it does. */
  lemma RulesAgree(s: DecisionSpan, t: DecisionSpan)
    requires ReadsBack(s) && RuleTail(s) == RuleTail(t)
    ensures s.matchedRule == t.matchedRule && SourceTail(s) == SourceTail(t)
  {
    MarksAreMarks();
    NoLaterSource(s, t);
    var a, b := s.matchedRule, t.matchedRule;
    if |a| < |b| {
      LaterCut(SOURCE_MARK, a, SourceTail(s), b, SourceTail(t));
    } else if |b| < |a| {
      LaterCut(SOURCE_MARK, b, SourceTail(t), a, SourceTail(s));
      EarlierSource(s, t);
    } else {
      var line := RuleTail(s);
      assert line[..|a|] == a && line[..|a|] == b;
      assert line[|a| + |SOURCE_MARK|..] == SourceTail(s) && line[|a| + |SOURCE_MARK|..] == SourceTail(t);
    }
  }

  lemma TextInside(text: string, b: string, w: string, a: string, v: string)
    requires b + (text + w) == a + v && |b| + |text| <= |a|
    ensures Contains(a, text)
  {
    assert (b + (text + w))[|b|..|b| + |text|] == text;
    OccursBefore(text, a, v, |b|);
  }

  lemma EarlierSource(s: DecisionSpan, t: DecisionSpan)
    requires RuleTail(s) == RuleTail(t) && EndsWith(SourceTail(t), SOURCE_MARK + SourceTail(s))
    ensures Contains(s.matchedRule, SourceText(t.sourceLayer))
  {
    MarksAreMarks();
    NamesDiffer(t.sourceLayer, t.sourceLayer);
    NoMarkWithoutSpace(t.sourceLayer.Name(), SOURCE_MARK);
    BehindNext(SOURCE_MARK, INPUTS_MARK, t.sourceLayer.Name(), InputsTail(t), SourceTail(s));
    RuleTailSplit(t);
    TextInside(SourceText(t.sourceLayer), t.matchedRule, InputsTail(t), s.matchedRule, SOURCE_MARK + SourceTail(s));
  }

  lemma RuleTailSplit(t: DecisionSpan)
    ensures RuleTail(t) == t.matchedRule + (SourceText(t.sourceLayer) + InputsTail(t))
  {
    assert SOURCE_MARK + SourceTail(t) == SourceText(t.sourceLayer) + InputsTail(t);
  }

  lemma ReadBack(s: DecisionSpan, t: DecisionSpan)
    requires ReadsBack(s) && ToLogLine(s) == ToLogLine(t)
    ensures s == t
  {
    MarksAreMarks();
    DomainAgrees(s, t);
    FirstCut(KEY_MARK, s.domain, KeyTail(s), t.domain, KeyTail(t));
    NoLaterKey(s, t);
    FirstCut(DECISION_MARK, s.key, DecisionTail(s), t.key, DecisionTail(t));
    NoLaterDecision(s, t);
    FirstCut(RULE_MARK, s.decision, RuleTail(s), t.decision, RuleTail(t));
    NoLaterRule(s, t);
    RulesAgree(s, t);
    SourcesAgree(s, t);
    if s.inputs != [] {
      OnlyOneReading(s.inputs[0], t.inputs);
    } else if t.inputs != [] {
      var one := JoinOfOne(t.inputs);
    }
  }

  lemma SplitAt(a: string, d: string) returns (front: string, back: string)
    requires Contains(a, d) && d != ""
    ensures a == front + (d + back) && |front| < |a|
  {
    var k :| 0 <= k <= |a| && OccursAt(d, a, k);
    front, back := a[..k], a[k + |d|..];
    assert a == a[..k] + (a[k..k + |d|] + a[k + |d|..]);
  }

  /** A mark inside the left of two values can serve as the mark between them. */
  lemma CutInLeft(d: string, front: string, back: string, b: string, rest: string)
    ensures (front + (d + back)) + (d + (b + rest)) == front + (d + ((back + (d + b)) + rest))
  {}

  /** So can a mark inside the right one. */
  lemma CutInRight(d: string, a: string, front: string, back: string, rest: string)
    ensures a + (d + ((front + (d + back)) + rest)) == (a + (d + front)) + (d + (back + rest))
  {}

  lemma OtherKey(s: DecisionSpan) returns (t: DecisionSpan)
    requires Contains(s.domain, KEY_MARK) || Contains(s.key, KEY_MARK)
    ensures t != s && t.inputs == s.inputs && ToLogLine(t) == ToLogLine(s)
  {
    var rest := DECISION_MARK + DecisionTail(s);
    if Contains(s.domain, KEY_MARK) {
      var front, back := SplitAt(s.domain, KEY_MARK);
      t := s.(domain := front, key := back + (KEY_MARK + s.key));
      CutInLeft(KEY_MARK, front, back, s.key, rest);
    } else {
      var front, back := SplitAt(s.key, KEY_MARK);
      t := s.(domain := s.domain + (KEY_MARK + front), key := back);
      CutInRight(KEY_MARK, s.domain, front, back, rest);
    }
  }

  lemma OtherDecision(s: DecisionSpan) returns (t: DecisionSpan)
    requires Contains(s.key, DECISION_MARK) || Contains(s.decision, DECISION_MARK)
    ensures t != s && t.inputs == s.inputs && ToLogLine(t) == ToLogLine(s)
  {
    var rest := RULE_MARK + RuleTail(s);
    if Contains(s.key, DECISION_MARK) {
      var front, back := SplitAt(s.key, DECISION_MARK);
      t := s.(key := front, decision := back + (DECISION_MARK + s.decision));
      CutInLeft(DECISION_MARK, front, back, s.decision, rest);
    } else {
      var front, back := SplitAt(s.decision, DECISION_MARK);
      t := s.(key := s.key + (DECISION_MARK + front), decision := back);
      CutInRight(DECISION_MARK, s.key, front, back, rest);
    }
  }

  lemma OtherRule(s: DecisionSpan) returns (t: DecisionSpan)
    requires Contains(s.decision, RULE_MARK) || Contains(s.matchedRule, RULE_MARK)
    ensures t != s && t.inputs == s.inputs && ToLogLine(t) == ToLogLine(s)
  {
    var rest := SOURCE_MARK + SourceTail(s);
    if Contains(s.decision, RULE_MARK) {
      var front, back := SplitAt(s.decision, RULE_MARK);
      t := s.(decision := front, matchedRule := back + (RULE_MARK + s.matchedRule));
      CutInLeft(RULE_MARK, front, back, s.matchedRule, rest);
    } else {
      var front, back := SplitAt(s.matchedRule, RULE_MARK);
      t := s.(decision := s.decision + (RULE_MARK + front), matchedRule := back);
      CutInRight(RULE_MARK, s.decision, front, back, rest);
    }
  }

  lemma CutOnce(front: string, d: string, back: string, rest: string)
    ensures (front + (d + back)) + rest == front + (d + (back + rest))
  {}

  /** A source spelled in the rule can be read as the source; what follows it becomes one input. */
  lemma OtherSource(s: DecisionSpan, layer: Layer) returns (t: DecisionSpan)
    requires Contains(s.matchedRule, SourceText(layer))
    ensures t != s && |t.inputs| == 1 && ToLogLine(t) == ToLogLine(s)
  {
    var front, back := SplitAt(s.matchedRule, SourceText(layer));
    var input := RestAsInput(s, back);
    t := s.(matchedRule := front, sourceLayer := layer, inputs := [input]);
    assert RuleTail(t) == RuleTail(s) by {
      RuleTailSplit(t);
      CutOnce(front, SourceText(layer), back, SOURCE_MARK + SourceTail(s));
    }
    assert DecisionTail(t) == DecisionTail(s);
  }

  lemma RestAsInput(s: DecisionSpan, back: string) returns (input: Input)
    ensures JoinInputs([input]) + "]" == back + (SOURCE_MARK + SourceTail(s))
  {
    var name, inputs := s.sourceLayer.Name(), JoinInputs(s.inputs);
    input := Input(back + " source", name + (INPUTS_MARK + inputs));
    assert SOURCE_MARK == " source" + ['='];
    Regroup(back, " source", ['='], name, INPUTS_MARK, inputs, "]");
  }

  lemma Regroup(a: string, b: string, c: string, d: string, e: string, f: string, g: string)
    ensures ((a + b) + (c + (d + (e + f)))) + g == a + ((b + c) + (d + (e + (f + g))))
  {}

  lemma OtherSpan(s: DecisionSpan) returns (t: DecisionSpan)
    requires !ReadsBack(s)
    ensures t != s && (t.inputs == s.inputs || |t.inputs| == 1) && ToLogLine(t) == ToLogLine(s)
  {
    if Contains(s.domain, KEY_MARK) || Contains(s.key, KEY_MARK) {
      t := OtherKey(s);
    } else if Contains(s.key, DECISION_MARK) || Contains(s.decision, DECISION_MARK) {
      t := OtherDecision(s);
    } else if Contains(s.decision, RULE_MARK) || Contains(s.matchedRule, RULE_MARK) {
      t := OtherRule(s);
    } else if !InputsReadBack(s.inputs) {
      var other := AnotherReading(s.inputs);
      t := s.(inputs := other);
    } else {
      var layer: Layer :| Contains(s.matchedRule, SourceText(layer));
      t := OtherSource(s, layer);
    }
  }

  /** Exactly these spans can be read back from their log line, among all spans with sorted inputs. */
  lemma ReadsBackExactly(s: DecisionSpan)
    requires Sorted(InputLe, s.inputs)
    ensures (forall t: DecisionSpan :: Sorted(InputLe, t.inputs) && ToLogLine(t) == ToLogLine(s) ==> t == s)
       <==> ReadsBack(s)
  {
    if ReadsBack(s) {
      forall t: DecisionSpan | ToLogLine(t) == ToLogLine(s)
        ensures t == s
      {
        ReadBack(s, t);
      }
    } else {
      var t := OtherSpan(s);
      assert Sorted(InputLe, t.inputs);
    }
  }

  // ---------------------------------------------------------------- the format

  /** The line, label by label. */
  lemma LineIs(span: DecisionSpan)
    ensures ToLogLine(span)
         == "domain=" + (span.domain + (" key=" + (span.key + (" decision=" + (span.decision
            + (" rule=" + (span.matchedRule + (" source=" + (span.sourceLayer.Name()
            + (" inputs=[" + (JoinInputs(span.inputs) + "]")))))))))))
  {}

  lemma NamesAre()
    ensures Default.Name() == "default" && User.Name() == "user"
    ensures LocalAdmin.Name() == "local_admin" && Enterprise.Name() == "enterprise"
  {}
}
