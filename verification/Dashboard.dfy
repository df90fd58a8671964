/** The new-tab dashboard: cards with an order field, reordered by dragging. */
module Dashboard {
  import opened Moves
  import opened Sorting

  datatype CardSize = Sm | Wide | Tall | Hero

  datatype CardKind = Search | Quicklinks | Copilot | Recent | Notes | Tasks | Privacy | Performance | Spaces

  datatype BentoCard =
    BentoCard(id: string, kind: CardKind, title: string, size: CardSize, order: real, visible: bool)

  predicate ByOrder(a: BentoCard, b: BentoCard) {
    a.order <= b.order
  }

  /** The cards as the dashboard orders them; ties keep their place. */
  function Ordered(cards: seq<BentoCard>): (r: seq<BentoCard>)
    ensures |r| == |cards|
  {
    Sort(ByOrder, cards)
  }

  function Ids(cards: seq<BentoCard>): (r: seq<string>)
    ensures |r| == |cards|
  {
    seq(|cards|, i requires 0 <= i < |cards| => cards[i].id)
  }

  /** Give every card its index as order. */
  function Renumber(cards: seq<BentoCard>): (r: seq<BentoCard>)
    ensures |r| == |cards|
  {
    seq(|cards|, i requires 0 <= i < |cards| => cards[i].(order := i as real))
  }

  /** `reorder` once the copy is sorted and the card found at `i`; nothing happens if it is absent or stays. */
  function MoveSorted(cards: seq<BentoCard>, sorted: seq<BentoCard>, i: nat, delta: int): (r: seq<BentoCard>)
    requires i <= |sorted| == |cards|
    ensures |r| == |cards|
  {
    if i == |sorted| || Target(i, |sorted|, delta) == i then cards
    else Renumber(MoveTo(sorted, i, Target(i, |sorted|, delta)))
  }

  function Reordered(cards: seq<BentoCard>, id: string, delta: int): (r: seq<BentoCard>)
    ensures |r| == |cards|
  {
    MoveSorted(cards, Ordered(cards), IndexOf(Ids(Ordered(cards)), id), delta)
  }

  /** `reorder`, splicing a sorted copy. */
  method Reorder(cards: seq<BentoCard>, id: string, delta: int) returns (r: seq<BentoCard>)
    ensures r == Reordered(cards, id, delta)
  {
    var sorted := Ordered(cards);
    var i := IndexOf(Ids(sorted), id);
    r := Splice(cards, sorted, i, delta);
  }

  method Splice(cards: seq<BentoCard>, copy: seq<BentoCard>, i: nat, delta: int) returns (r: seq<BentoCard>)
    requires i <= |copy| == |cards|
    ensures r == MoveSorted(cards, copy, i, delta)
  {
    if i == |copy| {
      return cards;
    }
    var sorted := copy;
    var j := Clamp(i + delta, |sorted| - 1);
    if i == j {
      return cards;
    }
    var moved := sorted[i];
    sorted := RemoveAt(sorted, i);
    sorted := InsertAt(sorted, j, moved);
    return Renumber(sorted);
  }

  function Visible(cards: seq<BentoCard>): seq<BentoCard> {
    if cards == [] then []
    else if cards[0].visible then [cards[0]] + Visible(cards[1..])
    else Visible(cards[1..])
  }

  function LayoutCards(cards: seq<BentoCard>): seq<BentoCard> {
    Sort(ByOrder, Visible(cards))
  }

  // ---------------------------------------------------------------- ordering facts

  lemma ByOrderIsTotal()
    ensures TotalPreorder(ByOrder)
  {}

  /** A renumbered list is in order, so ordering it again changes nothing. */
  lemma RenumberedIsOrdered(cards: seq<BentoCard>)
    ensures Ordered(Renumber(cards)) == Renumber(cards)
  {
    ByOrderIsTotal();
    SortOfSorted(ByOrder, Renumber(cards));
  }

  /** A card with its order field erased. */
  function Content(card: BentoCard): BentoCard {
    card.(order := 0.0)
  }

  function Contents(cards: seq<BentoCard>): (r: seq<BentoCard>)
    ensures |r| == |cards|
  {
    seq(|cards|, i requires 0 <= i < |cards| => Content(cards[i]))
  }

  /** The whole arrangement, hidden cards included, whatever the order fields say. */
  function Arranged(cards: seq<BentoCard>): (r: seq<BentoCard>)
    ensures |r| == |cards|
  {
    Contents(Ordered(cards))
  }

  lemma ContentsOfRemove(cards: seq<BentoCard>, i: nat)
    requires i < |cards|
    ensures Contents(RemoveAt(cards, i)) == RemoveAt(Contents(cards), i)
  {}

  lemma ContentsOfInsert(cards: seq<BentoCard>, i: nat, x: BentoCard)
    requires i <= |cards|
    ensures Contents(InsertAt(cards, i, x)) == InsertAt(Contents(cards), i, Content(x))
  {}

  lemma ContentsOfRenumbered(cards: seq<BentoCard>)
    ensures Contents(Renumber(cards)) == Contents(cards)
  {}

  lemma ContentsOfMove(cards: seq<BentoCard>, i: nat, j: nat)
    requires i < |cards| && j < |cards|
    ensures Contents(Renumber(MoveTo(cards, i, j))) == MoveTo(Contents(cards), i, j)
  {
    ContentsOfRenumbered(MoveTo(cards, i, j));
    ContentsOfRemove(cards, i);
    ContentsOfInsert(RemoveAt(cards, i), j, cards[i]);
  }

  /** The place of the first card with that id in the arrangement. */
  function Place(cards: seq<BentoCard>, id: string): (i: nat)
    ensures i <= |cards|
  {
    IndexOf(Ids(Arranged(cards)), id)
  }

  lemma PlaceInOrder(cards: seq<BentoCard>, id: string)
    ensures Place(cards, id) == IndexOf(Ids(Ordered(cards)), id)
  {
    assert Ids(Arranged(cards)) == Ids(Ordered(cards));
  }

  /** One card, the first with that id, moved to its clamped place. */
  function Shift(arranged: seq<BentoCard>, id: string, delta: int): seq<BentoCard> {
    var i := IndexOf(Ids(arranged), id);
    if i == |arranged| then arranged else MoveTo(arranged, i, Target(i, |arranged|, delta))
  }

  /** A reorder shifts one card of the arrangement, and changes nothing else about any card. */
  lemma ReorderShifts(cards: seq<BentoCard>, id: string, delta: int)
    ensures Arranged(Reordered(cards, id, delta)) == Shift(Arranged(cards), id, delta)
  {
    var sorted := Ordered(cards);
    PlaceInOrder(cards, id);
    var i := Place(cards, id);
    if i < |sorted| {
      var j := Target(i, |sorted|, delta);
      if i == j {
        InsertRemove(Arranged(cards), i);
      } else {
        RenumberedIsOrdered(MoveTo(sorted, i, j));
        ContentsOfMove(sorted, i, j);
      }
    }
  }

  /** A shift permutes the arrangement, puts the card at its target and keeps the others in their order. */
  lemma ShiftIsExact(arranged: seq<BentoCard>, id: string, delta: int, i: nat)
    requires IndexOf(Ids(arranged), id) == i < |arranged|
    ensures multiset(Shift(arranged, id, delta)) == multiset(arranged)
    ensures Shift(arranged, id, delta)[Target(i, |arranged|, delta)] == arranged[i]
    ensures RemoveAt(Shift(arranged, id, delta), Target(i, |arranged|, delta)) == RemoveAt(arranged, i)
  {
    MoveIsExact(arranged, i, Target(i, |arranged|, delta));
  }

  /** A reorder that moves a card numbers all cards from zero on, as they stand. */
  lemma ReorderNumbers(cards: seq<BentoCard>, id: string, delta: int, k: nat)
    requires k < |cards| && Reordered(cards, id, delta) != cards
    ensures Reordered(cards, id, delta)[k].order == k as real
  {}

  // ---------------------------------------------------------------- undo

  lemma IdsOfRemove(cards: seq<BentoCard>, i: nat)
    requires i < |cards|
    ensures Ids(RemoveAt(cards, i)) == RemoveAt(Ids(cards), i)
  {}

  lemma IdsOfInsert(cards: seq<BentoCard>, i: nat, x: BentoCard)
    requires i <= |cards|
    ensures Ids(InsertAt(cards, i, x)) == InsertAt(Ids(cards), i, x.id)
  {}

  lemma IdsOfMove(cards: seq<BentoCard>, i: nat, j: nat)
    requires i < |cards| && j < |cards|
    ensures Ids(MoveTo(cards, i, j)) == MoveTo(Ids(cards), i, j)
  {
    IdsOfRemove(cards, i);
    IdsOfInsert(RemoveAt(cards, i), j, cards[i]);
  }

  lemma PlaceAfterMove(arranged: seq<BentoCard>, id: string, i: nat, j: nat)
    requires Distinct(Ids(arranged)) && i < |arranged| && j < |arranged| && arranged[i].id == id
    ensures IndexOf(Ids(MoveTo(arranged, i, j)), id) == j
  {
    IdsOfMove(arranged, i, j);
    MoveKeepsDistinct(Ids(arranged), i, j);
  }

  lemma DistinctIds(cards: seq<BentoCard>)
    requires Distinct(Ids(cards))
    ensures Distinct(cards)
  {
    forall i, j | 0 <= i < j < |cards|
      ensures cards[i] != cards[j]
    {
      assert Ids(cards)[i] != Ids(cards)[j];
    }
  }

  /** No two cards have the same id. */
  predicate UniqueIds(cards: seq<BentoCard>) {
    cards == [] || (cards[0].id !in Ids(cards[1..]) && UniqueIds(cards[1..]))
  }

  lemma {:induction false} UniqueIdsAreDistinct(cards: seq<BentoCard>)
    requires UniqueIds(cards)
    ensures Distinct(Ids(cards))
  {
    if cards != [] {
      UniqueIdsAreDistinct(cards[1..]);
      var ids, rest := Ids(cards), Ids(cards[1..]);
      assert forall i :: 0 <= i < |rest| ==> rest[i] in rest;
      assert ids == [cards[0].id] + rest;
    }
  }

  /** Where a card comes to rest that is moved and then moved back by the same amount. */
  function Rest(i: nat, n: nat, delta: int): (k: nat)
    requires i < n
    ensures k < n
  {
    Target(Target(i, n, delta), n, -delta)
  }

  lemma PlaceOfMoved(s: seq<BentoCard>, id: string, j: nat)
    requires UniqueIds(s) && IndexOf(Ids(s), id) < |s| && j < |s|
    ensures IndexOf(Ids(MoveTo(s, IndexOf(Ids(s), id), j)), id) == j
  {
    UniqueIdsAreDistinct(s);
    PlaceAfterMove(s, id, IndexOf(Ids(s), id), j);
  }

  /** A second reorder of a card that a first one has brought from `i` to `j`. */
  lemma ArrangedAgain(cards: seq<BentoCard>, once: seq<BentoCard>, id: string, i: nat, j: nat, back: int)
    requires UniqueIds(Arranged(cards)) && Place(cards, id) == i < |cards| && j < |cards|
    requires Arranged(once) == MoveTo(Arranged(cards), i, j)
    ensures Arranged(Reordered(once, id, back)) == MoveTo(Arranged(cards), i, Target(j, |cards|, back))
  {
    PlaceOfMoved(Arranged(cards), id, j);
    ReorderShifts(once, id, back);
    MoveTwice(Arranged(cards), i, j, Target(j, |cards|, back));
  }

  lemma ReorderArranges(cards: seq<BentoCard>, id: string, delta: int, i: nat)
    requires Place(cards, id) == i < |cards|
    ensures Arranged(Reordered(cards, id, delta)) == MoveTo(Arranged(cards), i, Target(i, |cards|, delta))
  {
    ReorderShifts(cards, id, delta);
  }

  /** A reorder and its opposite together move the card from its place to its resting place. */
  lemma ArrangedTwice(cards: seq<BentoCard>, id: string, delta: int, i: nat)
    requires UniqueIds(Arranged(cards)) && Place(cards, id) == i < |cards|
    ensures Arranged(Reordered(Reordered(cards, id, delta), id, -delta))
         == MoveTo(Arranged(cards), i, Rest(i, |cards|, delta))
  {
    hide MoveTo, Reordered; // only their arrangements matter here
    var once := Reordered(cards, id, delta);
    ReorderArranges(cards, id, delta, i);
    ArrangedAgain(cards, once, id, i, Target(i, |cards|, delta), -delta);
  }

  lemma RestoredExactly(cards: seq<BentoCard>, twice: seq<BentoCard>, i: nat, delta: int)
    requires UniqueIds(Arranged(cards)) && i < |cards|
    requires Arranged(twice) == MoveTo(Arranged(cards), i, Rest(i, |cards|, delta))
    ensures Arranged(twice) == Arranged(cards) <==> Undoable(i, |cards|, delta)
  {
    UniqueIdsAreDistinct(Arranged(cards));
    DistinctIds(Arranged(cards));
    StaysExactly(Arranged(cards), i, Rest(i, |cards|, delta));
    UndoneIndex(i, |cards|, delta);
  }

  /**
    Moving back by the opposite amount restores the arrangement exactly when the first move was
    not clamped, or was clamped while crossing the whole list.
    */
  lemma ReorderUndoneExactly(cards: seq<BentoCard>, id: string, delta: int)
    requires UniqueIds(Arranged(cards)) && Place(cards, id) < |cards|
    ensures var twice := Reordered(Reordered(cards, id, delta), id, -delta);
            Arranged(twice) == Arranged(cards) <==> Undoable(Place(cards, id), |cards|, delta)
  {
    var twice := Reordered(Reordered(cards, id, delta), id, -delta);
    ArrangedTwice(cards, id, delta, Place(cards, id));
    RestoredExactly(cards, twice, Place(cards, id), delta);
  }

  // ---------------------------------------------------------------- hiding cards

  lemma {:induction false} VisibleOfInsert(x: BentoCard, s: seq<BentoCard>)
    requires Sorted(ByOrder, s)
    ensures Visible(Insert(ByOrder, x, s)) == if x.visible then Insert(ByOrder, x, Visible(s)) else Visible(s)
  {
    if s == [] || ByOrder(x, s[0]) {
      assert ([x] + s)[1..] == s;
      VisibleAreLater(x, s);
    } else {
      VisibleOfInsert(x, s[1..]);
      assert Insert(ByOrder, x, s)[1..] == Insert(ByOrder, x, s[1..]);
      assert s[0].visible ==> Visible(s)[1..] == Visible(s[1..]);
    }
  }

  lemma {:induction false} VisibleAreLater(x: BentoCard, s: seq<BentoCard>)
    requires Sorted(ByOrder, s) && (s != [] ==> ByOrder(x, s[0]))
    ensures x.visible ==> Insert(ByOrder, x, Visible(s)) == [x] + Visible(s)
  {
    if s != [] && !s[0].visible {
      VisibleAreLater(x, s[1..]);
    }
  }

  /** What is displayed is the whole dashboard in order, with the hidden cards left out of their places. */
  lemma {:induction false} LayoutIsVisiblePartOfOrder(cards: seq<BentoCard>)
    ensures LayoutCards(cards) == Visible(Ordered(cards))
  {
    if cards != [] {
      LayoutIsVisiblePartOfOrder(cards[1..]);
      ByOrderIsTotal();
      SortSorted(ByOrder, cards[1..]);
      VisibleOfInsert(cards[0], Ordered(cards[1..]));
      assert cards[0].visible ==> Visible(cards)[1..] == Visible(cards[1..]);
    }
  }

  // ---------------------------------------------------------------- what is displayed

  /** What the dashboard displays, top to bottom, whatever the order fields say. */
  function Displayed(cards: seq<BentoCard>): seq<BentoCard> {
    Contents(LayoutCards(cards))
  }

  lemma {:induction false} VisibleContents(cards: seq<BentoCard>)
    ensures Visible(Contents(cards)) == Contents(Visible(cards))
  {
    if cards != [] {
      VisibleContents(cards[1..]);
      assert Contents(cards)[1..] == Contents(cards[1..]);
    }
  }

  lemma DisplayedIsVisible(cards: seq<BentoCard>)
    ensures Displayed(cards) == Visible(Arranged(cards))
  {
    LayoutIsVisiblePartOfOrder(cards);
    VisibleContents(Ordered(cards));
  }

  lemma {:induction false} VisibleOfConcat(a: seq<BentoCard>, b: seq<BentoCard>)
    ensures Visible(a + b) == Visible(a) + Visible(b)
  {
    if a == [] {
      assert a + b == b;
    } else {
      VisibleOfConcat(a[1..], b);
      assert (a + b)[1..] == a[1..] + b;
    }
  }

  /** Every visible card of `passed` is a copy of `x`. */
  predicate PassesOnly(passed: seq<BentoCard>, x: BentoCard) {
    forall card :: card in passed && card.visible ==> card == x
  }

  lemma {:induction false} VisibleMembers(cards: seq<BentoCard>)
    ensures forall card :: card in Visible(cards) <==> card in cards && card.visible
  {
    if cards != [] {
      VisibleMembers(cards[1..]);
      assert cards == [cards[0]] + cards[1..];
    }
  }

  /** A card slides past others without a trace exactly when they are all copies of it. */
  lemma SlidesPast(x: BentoCard, v: seq<BentoCard>)
    ensures [x] + v == v + [x] <==> forall card :: card in v ==> card == x
  {
    if [x] + v == v + [x] {
      CopiesUpTo(x, v, |v|);
    }
    if forall card :: card in v ==> card == x {
      assert forall k :: 0 <= k < |v| ==> v[k] in v;
      assert [x] + v == v + [x];
    }
  }

  lemma {:induction false} CopiesUpTo(x: BentoCard, v: seq<BentoCard>, n: nat)
    requires [x] + v == v + [x] && n <= |v|
    ensures forall k :: 0 <= k < n ==> v[k] == x
  {
    if n > 0 {
      CopiesUpTo(x, v, n - 1);
      assert v[n - 1] == (v + [x])[n - 1] == ([x] + v)[n - 1];
    }
  }

  /** `x` moved past `passed`, in the middle of the arrangement. */
  lemma VisibleAfterPassing(a: seq<BentoCard>, x: BentoCard, passed: seq<BentoCard>, c: seq<BentoCard>)
    ensures Visible(a + ([x] + passed) + c) == Visible(a + (passed + [x]) + c)
       <==> !x.visible || PassesOnly(passed, x)
  {
    var v := Visible(passed);
    VisibleOfConcat(a + ([x] + passed), c);
    VisibleOfConcat(a, [x] + passed);
    VisibleOfConcat([x], passed);
    VisibleOfConcat(a + (passed + [x]), c);
    VisibleOfConcat(a, passed + [x]);
    VisibleOfConcat(passed, [x]);
    assert Visible([x]) == if x.visible then [x] else [];
    SameMiddle(Visible(a), Visible([x]) + v, v + Visible([x]), Visible(c));
    if x.visible {
      SlidesPast(x, v);
      VisibleMembers(passed);
    } else {
      assert [] + v == v == v + [];
    }
  }

  lemma SameMiddle(a: seq<BentoCard>, x: seq<BentoCard>, y: seq<BentoCard>, c: seq<BentoCard>)
    requires |x| == |y|
    ensures a + x + c == a + y + c <==> x == y
  {
    assert (a + x + c)[|a|..|a| + |x|] == x && (a + y + c)[|a|..|a| + |y|] == y;
  }

  /** Moving the card at `i` to `j` does not show: it is hidden, or passes no visible card but copies of itself. */
  predicate Unseen(s: seq<BentoCard>, i: nat, j: nat)
    requires i < |s| && j < |s|
  {
    !s[i].visible || PassesOnly(Passed(s, i, j), s[i])
  }

  lemma VisibleAfterMove(s: seq<BentoCard>, i: nat, j: nat)
    requires i < |s| && j < |s|
    ensures Visible(MoveTo(s, i, j)) == Visible(s) <==> Unseen(s, i, j)
  {
    if i < j {
      MoveForwards(s, i, j);
      VisibleAfterPassing(s[..i], s[i], Passed(s, i, j), s[j + 1..]);
    } else {
      MoveBackwards(s, i, j);
      VisibleAfterPassing(s[..j], s[i], Passed(s, i, j), s[i + 1..]);
    }
  }

  /** If one arrangement is the other with a card moved, they display alike exactly when the move does not show. */
  lemma SameDisplayExactly(cards: seq<BentoCard>, moved: seq<BentoCard>, i: nat, j: nat)
    requires i < |cards| && j < |cards| && Arranged(moved) == MoveTo(Arranged(cards), i, j)
    ensures Displayed(moved) == Displayed(cards) <==> Unseen(Arranged(cards), i, j)
  {
    DisplayedIsVisible(cards);
    DisplayedIsVisible(moved);
    VisibleAfterMove(Arranged(cards), i, j);
  }

  /**
    A reorder leaves the layout as it is exactly when the card is hidden, or when on the way to its target
    it passes no visible card but copies of itself.
    */
  lemma ReorderKeepsLayoutExactly(cards: seq<BentoCard>, id: string, delta: int)
    requires Place(cards, id) < |cards|
    ensures Displayed(Reordered(cards, id, delta)) == Displayed(cards)
       <==> Unseen(Arranged(cards), Place(cards, id), Target(Place(cards, id), |cards|, delta))
  {
    ReorderShifts(cards, id, delta);
    SameDisplayExactly(cards, Reordered(cards, id, delta), Place(cards, id), Target(Place(cards, id), |cards|, delta));
  }

  /**
    A reorder and its opposite restore the layout exactly when the card is hidden, or when no visible card
    lies between its old place and the place where the two moves leave it.
    */
  lemma LayoutRestoredExactly(cards: seq<BentoCard>, id: string, delta: int)
    requires UniqueIds(Arranged(cards)) && Place(cards, id) < |cards|
    ensures var i, twice := Place(cards, id), Reordered(Reordered(cards, id, delta), id, -delta);
            Displayed(twice) == Displayed(cards) <==> Unseen(Arranged(cards), i, Rest(i, |cards|, delta))
  {
    var i, twice := Place(cards, id), Reordered(Reordered(cards, id, delta), id, -delta);
    ArrangedTwice(cards, id, delta, i);
    SameDisplayExactly(cards, twice, i, Rest(i, |cards|, delta));
  }

  /** Moving a card past the hidden one after it changes the arrangement and does not show. */
  lemma MovePastHidden(cards: seq<BentoCard>, id: string, i: nat)
    requires UniqueIds(Arranged(cards)) && Place(cards, id) == i < |cards| - 1
    requires !Arranged(cards)[i + 1].visible
    ensures Arranged(Reordered(cards, id, 1)) != Arranged(cards)
    ensures Displayed(Reordered(cards, id, 1)) == Displayed(cards)
  {
    UniqueIdsAreDistinct(Arranged(cards));
    DistinctIds(Arranged(cards));
    StaysExactly(Arranged(cards), i, i + 1);
    ReorderArranges(cards, id, 1, i);
    ReorderKeepsLayoutExactly(cards, id, 1);
  }

  // ---------------------------------------------------------------- an example with hidden cards

  function ExampleCard(id: string, order: real, visible: bool): BentoCard {
    BentoCard(id, Notes, "", Sm, order, visible)
  }

  /** One visible card between two hidden ones. */
  const EXAMPLE := [ExampleCard("h", 0.0, false), ExampleCard("a", 1.0, true), ExampleCard("g", 2.0, false)]

  lemma ExampleArrangement()
    ensures Arranged(EXAMPLE) == Contents(EXAMPLE) && Place(EXAMPLE, "a") == 1
    ensures UniqueIds(Arranged(EXAMPLE))
  {
    ByOrderIsTotal();
    SortOfSorted(ByOrder, EXAMPLE);
    assert Ids(Arranged(EXAMPLE)) == ["h", "a", "g"];
    PlaceIsSecond(["h", "a", "g"], "a");
    ThreeIds(Arranged(EXAMPLE));
  }

  lemma PlaceIsSecond(ids: seq<string>, id: string)
    requires |ids| >= 2 && ids[0] != id && ids[1] == id
    ensures IndexOf(ids, id) == 1
  {}

  lemma ThreeIds(cards: seq<BentoCard>)
    requires |cards| == 3
    requires cards[0].id != cards[1].id && cards[0].id != cards[2].id && cards[1].id != cards[2].id
    ensures UniqueIds(cards)
  {
    assert Ids(cards[1..]) == [cards[1].id, cards[2].id] && Ids(cards[1..][1..]) == [cards[2].id];
    assert UniqueIds(cards[1..][1..]);
    assert UniqueIds(cards[1..]);
  }

  /**
    What is displayed can stay while the arrangement changes: moving the visible card by one does not show, and
    moving it by five and back leaves it elsewhere among the hidden ones.
    */
  lemma HiddenCardsHideMoves()
    ensures Arranged(Reordered(EXAMPLE, "a", 1)) != Arranged(EXAMPLE)
    ensures Displayed(Reordered(EXAMPLE, "a", 1)) == Displayed(EXAMPLE)
    ensures var twice := Reordered(Reordered(EXAMPLE, "a", 5), "a", -5);
            Arranged(twice) != Arranged(EXAMPLE) && Displayed(twice) == Displayed(EXAMPLE)
  {
    ExampleArrangement();
    MovePastHidden(EXAMPLE, "a", 1);
    ReorderUndoneExactly(EXAMPLE, "a", 5);
    LayoutRestoredExactly(EXAMPLE, "a", 5);
  }
}
