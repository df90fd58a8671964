/** Decision provenance spans and their stable log line. */
module Provenance {
  import opened Precedence
  import opened Sorting

  datatype Input = Input(key: string, value: string)

  datatype DecisionSpan = DecisionSpan(
    domain: string, key: string, decision: string, matchedRule: string, sourceLayer: Layer, inputs: seq<Input>)

  function NewSpan(domain: string, key: string, decision: string, matchedRule: string, source: Layer): DecisionSpan {
    DecisionSpan(domain, key, decision, matchedRule, source, [])
  }

  // ---------------------------------------------------------------- the order of inputs

  /** Lexicographic order of strings. */
  predicate StringLe(a: string, b: string) {
    a == [] || (b != [] && (a[0] < b[0] || (a[0] == b[0] && StringLe(a[1..], b[1..]))))
  }

  /** Inputs are ordered by key, then by value. */
  predicate InputLe(a: Input, b: Input) {
    if a.key == b.key then StringLe(a.value, b.value) else StringLe(a.key, b.key)
  }

  lemma {:induction false} StringLeTotal(a: string, b: string)
    ensures StringLe(a, b) || StringLe(b, a)
    ensures StringLe(a, b) && StringLe(b, a) ==> a == b
  {
    if a != [] && b != [] && a[0] == b[0] {
      StringLeTotal(a[1..], b[1..]);
      assert a == [a[0]] + a[1..] && b == [b[0]] + b[1..];
    }
  }

  lemma {:induction false} StringLeTransitive(a: string, b: string, c: string)
    requires StringLe(a, b) && StringLe(b, c)
    ensures StringLe(a, c)
  {
    if a != [] && a[0] == b[0] == c[0] {
      StringLeTransitive(a[1..], b[1..], c[1..]);
    }
  }

  lemma InputLeIsTotalOrder()
    ensures TotalPreorder(InputLe) && Antisymmetric(InputLe)
  {
    forall a, b
      ensures InputLe(a, b) || InputLe(b, a)
      ensures InputLe(a, b) && InputLe(b, a) ==> a == b
    {
      StringLeTotal(a.key, b.key);
      StringLeTotal(a.value, b.value);
    }
    forall a, b, c | InputLe(a, b) && InputLe(b, c)
      ensures InputLe(a, c)
    {
      InputLeTransitive(a, b, c);
    }
  }

  lemma InputLeTransitive(a: Input, b: Input, c: Input)
    requires InputLe(a, b) && InputLe(b, c)
    ensures InputLe(a, c)
  {
    if a.key == b.key == c.key {
      StringLeTransitive(a.value, b.value, c.value);
    } else if a.key != b.key && b.key != c.key {
      StringLeTransitive(a.key, b.key, c.key);
      if a.key == c.key {
        StringLeTotal(a.key, b.key);
      }
    }
  }

  // ---------------------------------------------------------------- building a span

  /** `with_input`: push, then sort. */
  function WithInput(span: DecisionSpan, input: Input): DecisionSpan {
    span.(inputs := Sort(InputLe, span.inputs + [input]))
  }

  function WithAll(span: DecisionSpan, inputs: seq<Input>): DecisionSpan
    decreases |inputs|
  {
    if inputs == [] then span else WithInput(WithAll(span, inputs[..|inputs| - 1]), inputs[|inputs| - 1])
  }

  lemma SortAgain(front: seq<Input>, last: Input)
    ensures Sort(InputLe, Sort(InputLe, front) + [last]) == Sort(InputLe, front + [last])
  {
    InputLeIsTotalOrder();
    SortElements(InputLe, front);
    SortIsCanonical(InputLe, Sort(InputLe, front) + [last], front + [last]);
  }

  /** Sorting after every push is sorting once at the end. */
  lemma {:induction false} WithAllSorts(span: DecisionSpan, inputs: seq<Input>)
    requires span.inputs == []
    ensures WithAll(span, inputs) == span.(inputs := Sort(InputLe, inputs))
    decreases |inputs|
  {
    if inputs != [] {
      var front, last := inputs[..|inputs| - 1], inputs[|inputs| - 1];
      WithAllSorts(span, front);
      SortAgain(front, last);
      assert inputs == front + [last];
    }
  }

  // ---------------------------------------------------------------- the log line

  function Pair(input: Input): string {
    input.key + (['='] + input.value)
  }

  /** The pairs, separated by commas. */
  function JoinInputs(inputs: seq<Input>): string {
    if inputs == [] then ""
    else if |inputs| == 1 then Pair(inputs[0])
    else Pair(inputs[0]) + ([','] + JoinInputs(inputs[1..]))
  }

  const KEY_MARK := " key="
  const DECISION_MARK := " decision="
  const RULE_MARK := " rule="
  const SOURCE_MARK := " source="
  const INPUTS_MARK := " inputs=["

  /** What the line has from the inputs, the source, the rule, the decision and the key on. */
  function InputsTail(span: DecisionSpan): string {
    JoinInputs(span.inputs) + "]"
  }

  function SourceTail(span: DecisionSpan): string {
    span.sourceLayer.Name() + (INPUTS_MARK + InputsTail(span))
  }

  function RuleTail(span: DecisionSpan): string {
    span.matchedRule + (SOURCE_MARK + SourceTail(span))
  }

  function DecisionTail(span: DecisionSpan): string {
    span.decision + (RULE_MARK + RuleTail(span))
  }

  function KeyTail(span: DecisionSpan): string {
    span.key + (DECISION_MARK + DecisionTail(span))
  }

  function ToLogLine(span: DecisionSpan): string {
    "domain=" + (span.domain + (KEY_MARK + KeyTail(span)))
  }

  /**
    The span does not depend on the order in which inputs were attached, and depends on
    everything else about them; its log line is therefore the same for every order.
    */
  lemma AttachmentOrderIsIrrelevant(domain: string, key: string, decision: string, rule: string, source: Layer,
                                    a: seq<Input>, b: seq<Input>)
    ensures var span := NewSpan(domain, key, decision, rule, source);
            && (WithAll(span, a) == WithAll(span, b) <==> multiset(a) == multiset(b))
            && (multiset(a) == multiset(b) ==> ToLogLine(WithAll(span, a)) == ToLogLine(WithAll(span, b)))
            && Sorted(InputLe, WithAll(span, a).inputs)
  {
    var span := NewSpan(domain, key, decision, rule, source);
    WithAllSorts(span, a);
    WithAllSorts(span, b);
    InputLeIsTotalOrder();
    SortIsCanonical(InputLe, a, b);
    SortSorted(InputLe, a);
  }

  // ---------------------------------------------------------------- the order, from outside

  /** A string comes before its extensions, and otherwise the first difference decides. */
  lemma {:induction false} StringLeExactly(p: string, x: string, y: string)
    ensures StringLe(p, p + x)
    ensures x != [] && y != [] && x[0] != y[0] ==> (StringLe(p + x, p + y) <==> x[0] < y[0])
  {
    if p != [] {
      StringLeExactly(p[1..], x, y);
      assert (p + x)[1..] == p[1..] + x && (p + y)[1..] == p[1..] + y;
    } else {
      assert p + x == x && p + y == y;
    }
  }

  /** Inputs go by key whatever their values are, and by value under one key. */
  lemma InputsByKey(span: DecisionSpan, inputs: seq<Input>, i: nat, j: nat)
    requires span.inputs == [] && i < j < |inputs|
    ensures var sorted := WithAll(span, inputs).inputs;
            && |sorted| == |inputs| && StringLe(sorted[i].key, sorted[j].key)
            && (sorted[i].key == sorted[j].key ==> StringLe(sorted[i].value, sorted[j].value))
  {
    WithAllSorts(span, inputs);
    InputLeIsTotalOrder();
    SortSorted(InputLe, inputs);
    StringLeTotal(WithAll(span, inputs).inputs[i].key, WithAll(span, inputs).inputs[j].key);
  }
}
