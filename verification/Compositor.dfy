/** The compositor's reduction of a display list into draw batches. */
module Compositor {
  import opened Ints

  datatype DisplayItem = Rect(layer: u32) | Text(layer: u32) | Image(layer: u32)

  /** What two items must share to be drawn together. */
  datatype Tag = Tag(layer: u32, kind: string)

  datatype Batch = Batch(layer: u32, kind: string, count: nat)

  function KindOf(item: DisplayItem): string {
    match item
    case Rect(_) => "rect"
    case Text(_) => "text"
    case Image(_) => "image"
  }

  function TagOf(item: DisplayItem): Tag {
    Tag(item.layer, KindOf(item))
  }

  function Tags(items: seq<DisplayItem>): (tags: seq<Tag>)
    ensures |tags| == |items|
  {
    seq(|items|, i requires 0 <= i < |items| => TagOf(items[i]))
  }

  function BatchTag(b: Batch): Tag {
    Tag(b.layer, b.kind)
  }

  /** One more item joins the last batch or opens a new one. */
  function Push(batches: seq<Batch>, tag: Tag): seq<Batch> {
    var n := |batches| - 1;
    if batches != [] && BatchTag(batches[n]) == tag then batches[..n] + [batches[n].(count := batches[n].count + 1)]
    else batches + [Batch(tag.layer, tag.kind, 1)]
  }

  function Reduce(tags: seq<Tag>): seq<Batch>
    decreases |tags|
  {
    if tags == [] then [] else Push(Reduce(tags[..|tags| - 1]), tags[|tags| - 1])
  }

  /** The body of the loop: count up the last batch, or push a new one. */
  method PushItem(batches: seq<Batch>, item: DisplayItem) returns (out: seq<Batch>)
    ensures out == Push(batches, TagOf(item))
  {
    var layer, kind := item.layer, KindOf(item);
    var n := |batches| - 1;
    if batches != [] && batches[n].layer == layer && batches[n].kind == kind {
      out := batches[n := batches[n].(count := batches[n].count + 1)];
    } else {
      out := batches + [Batch(layer, kind, 1)];
    }
  }

  method MakeBatches(items: seq<DisplayItem>) returns (out: seq<Batch>)
    ensures out == Reduce(Tags(items))
  {
    out := [];
    ghost var tags := Tags(items);
    for i := 0 to |items|
      invariant out == Reduce(tags[..i])
    {
      ReduceSnoc(tags[..i], tags[i]);
      out := PushItem(out, items[i]);
      assert tags[..i + 1] == tags[..i] + [tags[i]];
    }
    assert tags[..|items|] == tags;
  }

  // ---------------------------------------------------------------- meaning of a batch list

  function Repeat(tag: Tag, n: nat): (tags: seq<Tag>)
    ensures |tags| == n
    ensures forall i :: 0 <= i < n ==> tags[i] == tag
  {
    if n == 0 then [] else Repeat(tag, n - 1) + [tag]
  }

  /** The items drawn by a batch list, in order. */
  function Expand(batches: seq<Batch>): seq<Tag>
    decreases |batches|
  {
    if batches == [] then []
    else
      var last := batches[|batches| - 1];
      Expand(batches[..|batches| - 1]) + Repeat(BatchTag(last), last.count)
  }

  /** The last batch is not empty and cannot be merged into the one before it. */
  predicate WellEnded(front: seq<Batch>, last: Batch) {
    last.count > 0 && (front != [] ==> BatchTag(front[|front| - 1]) != BatchTag(last))
  }

  /** No batch is empty, and neighbours differ. */
  predicate Canonical(batches: seq<Batch>)
    decreases |batches|
  {
    batches == [] ||
    (WellEnded(batches[..|batches| - 1], batches[|batches| - 1]) && Canonical(batches[..|batches| - 1]))
  }

  lemma ExpandSnoc(batches: seq<Batch>, b: Batch)
    ensures Expand(batches + [b]) == Expand(batches) + Repeat(BatchTag(b), b.count)
  {
    assert (batches + [b])[..|batches|] == batches;
  }

  lemma ReduceSnoc(tags: seq<Tag>, tag: Tag)
    ensures Reduce(tags + [tag]) == Push(Reduce(tags), tag)
  {
    assert (tags + [tag])[..|tags|] == tags;
  }

  lemma PushEnds(batches: seq<Batch>, tag: Tag)
    ensures var r := Push(batches, tag); r != [] && BatchTag(r[|r| - 1]) == tag
    ensures |Push(batches, tag)|
         == if batches != [] && BatchTag(batches[|batches| - 1]) == tag then |batches| else |batches| + 1
  {}

  lemma PushCanonical(batches: seq<Batch>, tag: Tag)
    requires Canonical(batches)
    ensures Canonical(Push(batches, tag))
  {
    var r := Push(batches, tag);
    var front := if |r| == |batches| then batches[..|batches| - 1] else batches;
    assert r[..|r| - 1] == front;
  }

  lemma ExpandOfPush(batches: seq<Batch>, tag: Tag)
    ensures Expand(Push(batches, tag)) == Expand(batches) + [tag]
  {
    var n := |batches| - 1;
    if batches != [] && BatchTag(batches[n]) == tag {
      var b := batches[n];
      ExpandSnoc(batches[..n], b.(count := b.count + 1));
      assert Repeat(tag, b.count + 1) == Repeat(tag, b.count) + [tag];
    } else {
      ExpandSnoc(batches, Batch(tag.layer, tag.kind, 1));
      assert Repeat(tag, 1) == Repeat(tag, 0) + [tag];
    }
  }

  /** Batching loses nothing: drawing the batches draws the items, in order. */
  lemma {:induction false} ReduceExpands(tags: seq<Tag>)
    ensures Expand(Reduce(tags)) == tags
    ensures Canonical(Reduce(tags))
    decreases |tags|
  {
    if tags != [] {
      var front, last := tags[..|tags| - 1], tags[|tags| - 1];
      assert tags == front + [last];
      ReduceExpands(front);
      ReduceSnoc(front, last);
      ExpandOfPush(Reduce(front), last);
      PushCanonical(Reduce(front), last);
    }
  }

  lemma LastBatchTag(tags: seq<Tag>)
    requires tags != []
    ensures var r := Reduce(tags); r != [] && BatchTag(r[|r| - 1]) == tags[|tags| - 1]
  {
    PushEnds(Reduce(tags[..|tags| - 1]), tags[|tags| - 1]);
  }

  /** Pushing the tag a list ends in does not lengthen it. */
  lemma PushSame(tags: seq<Tag>, tag: Tag)
    ensures |Reduce(tags + [tag])| <= |Reduce(tags)| + 1
    ensures tags != [] && tags[|tags| - 1] == tag ==> |Reduce(tags + [tag])| == |Reduce(tags)|
  {
    ReduceSnoc(tags, tag);
    PushEnds(Reduce(tags), tag);
    if tags != [] {
      LastBatchTag(tags);
    }
  }

  /** A run of equal tags costs at most one batch. */
  lemma {:induction false} ReduceOfRun(tags: seq<Tag>, tag: Tag, n: nat)
    ensures |Reduce(tags + Repeat(tag, n))| <= |Reduce(tags)| + 1
    decreases n
  {
    if n == 0 {
      assert tags + Repeat(tag, 0) == tags;
    } else {
      var shorter := tags + Repeat(tag, n - 1);
      assert tags + Repeat(tag, n) == shorter + [tag];
      PushSame(shorter, tag);
      if n == 1 {
        assert shorter == tags;
      } else {
        ReduceOfRun(tags, tag, n - 1);
      }
    }
  }

  /** A run that continues nothing becomes one batch. */
  lemma {:induction false} ReduceOfNewRun(tags: seq<Tag>, tag: Tag, n: nat)
    requires n > 0 && (tags == [] || tags[|tags| - 1] != tag)
    ensures Reduce(tags + Repeat(tag, n)) == Reduce(tags) + [Batch(tag.layer, tag.kind, n)]
    decreases n
  {
    var shorter := tags + Repeat(tag, n - 1);
    assert tags + Repeat(tag, n) == shorter + [tag];
    ReduceSnoc(shorter, tag);
    if n == 1 {
      assert shorter == tags;
      if tags != [] {
        LastBatchTag(tags);
      }
    } else {
      ReduceOfNewRun(tags, tag, n - 1);
      var r := Reduce(tags);
      assert (r + [Batch(tag.layer, tag.kind, n - 1)])[..|r|] == r;
    }
  }

  /** Reducing what a list draws never needs more batches than the list. */
  lemma {:induction false} ReduceNeverLonger(batches: seq<Batch>)
    ensures |Reduce(Expand(batches))| <= |batches|
    decreases |batches|
  {
    if batches != [] {
      var front, last := batches[..|batches| - 1], batches[|batches| - 1];
      ReduceNeverLonger(front);
      ReduceOfRun(Expand(front), BatchTag(last), last.count);
    }
  }

  lemma CanonicalSnoc(front: seq<Batch>, last: Batch)
    requires Canonical(front) && Reduce(Expand(front)) == front && WellEnded(front, last)
    ensures Reduce(Expand(front + [last])) == front + [last]
  {
    if front != [] {
      LastOfExpand(front);
    }
    ExpandSnoc(front, last);
    ReduceOfNewRun(Expand(front), BatchTag(last), last.count);
  }

  /** A canonical list comes back from what it draws. */
  lemma {:induction false} CanonicalComesBack(batches: seq<Batch>)
    requires Canonical(batches)
    ensures Reduce(Expand(batches)) == batches
    decreases |batches|
  {
    if batches != [] {
      var front, last := batches[..|batches| - 1], batches[|batches| - 1];
      assert batches == front + [last];
      CanonicalComesBack(front);
      CanonicalSnoc(front, last);
    }
  }

  lemma LastOfExpand(batches: seq<Batch>)
    requires batches != [] && batches[|batches| - 1].count > 0
    ensures var tags := Expand(batches); tags != [] && tags[|tags| - 1] == BatchTag(batches[|batches| - 1])
  {}

  function TotalCount(batches: seq<Batch>): nat
    decreases |batches|
  {
    if batches == [] then 0 else TotalCount(batches[..|batches| - 1]) + batches[|batches| - 1].count
  }

  lemma {:induction false} ExpandLength(batches: seq<Batch>)
    ensures |Expand(batches)| == TotalCount(batches)
    decreases |batches|
  {
    if batches != [] {
      ExpandLength(batches[..|batches| - 1]);
    }
  }

  /**
    `batch` gives the canonical run-length form: it draws exactly the items in order, its counts add
    up to the number of items, no list that draws the same is shorter, and it is the only
    one without empty or mergeable batches.
    */
  lemma BatchesAreCanonical(items: seq<DisplayItem>, other: seq<Batch>)
    ensures Expand(Reduce(Tags(items))) == Tags(items)
    ensures TotalCount(Reduce(Tags(items))) == |items|
    ensures Expand(other) == Tags(items) ==> |Reduce(Tags(items))| <= |other|
    ensures Expand(other) == Tags(items) ==> (Canonical(other) <==> other == Reduce(Tags(items)))
  {
    ReduceExpands(Tags(items));
    ExpandLength(Reduce(Tags(items)));
    ReduceNeverLonger(other);
    if Canonical(other) {
      CanonicalComesBack(other);
    }
  }

  // ---------------------------------------------------------------- one batch for each tag

  function BatchTags(batches: seq<Batch>): (tags: seq<Tag>)
    ensures |tags| == |batches|
  {
    seq(|batches|, i requires 0 <= i < |batches| => BatchTag(batches[i]))
  }

  /** No two batches have the same tag. */
  predicate OneForEach(batches: seq<Batch>) {
    forall i, j :: 0 <= i < j < |batches| ==> BatchTag(batches[i]) != BatchTag(batches[j])
  }

  /** No tag comes back after a different one. */
  predicate NeverReturns(tags: seq<Tag>) {
    forall i, j, k :: 0 <= i < j < k < |tags| && tags[i] == tags[k] ==> tags[j] == tags[i]
  }

  lemma TagsOfPush(batches: seq<Batch>, tag: Tag)
    ensures BatchTags(Push(batches, tag))
         == if batches != [] && BatchTag(batches[|batches| - 1]) == tag then BatchTags(batches)
            else BatchTags(batches) + [tag]
  {}

  lemma {:induction false} BatchedTags(tags: seq<Tag>)
    ensures forall tag :: tag in BatchTags(Reduce(tags)) <==> tag in tags
    decreases |tags|
  {
    if tags != [] {
      var front, last := tags[..|tags| - 1], tags[|tags| - 1];
      assert tags == front + [last];
      BatchedTags(front);
      TagsOfPush(Reduce(front), last);
      var r := Reduce(front);
      assert r != [] ==> BatchTags(r)[|r| - 1] in BatchTags(r);
    }
  }

  /** One more tag neither returns nor needs a second batch, unless it was seen before the last one. */
  lemma NeverReturnsSnoc(front: seq<Tag>, last: Tag)
    ensures NeverReturns(front + [last])
       <==> NeverReturns(front) && (last in front ==> front[|front| - 1] == last)
  {
    var tags, n := front + [last], |front|;
    if NeverReturns(tags) {
      forall i, j, k | 0 <= i < j < k < n && front[i] == front[k]
        ensures front[j] == front[i]
      {
        assert tags[i] == tags[k];
        assert tags[j] == tags[i];
      }
      if last in front {
        var i :| 0 <= i < n && front[i] == last;
        assert tags[i] == tags[n];
        assert i < n - 1 ==> tags[n - 1] == tags[i];
      }
    }
    if NeverReturns(front) && (last in front ==> front[n - 1] == last) {
      forall i, j, k | 0 <= i < j < k < |tags| && tags[i] == tags[k]
        ensures tags[j] == tags[i]
      {
        if k == n {
          assert front[i] in front;
          assert j < n - 1 ==> front[j] == front[i];
        }
      }
    }
  }

  lemma OneForEachPush(batches: seq<Batch>, tag: Tag)
    ensures OneForEach(Push(batches, tag))
       <==> OneForEach(batches)
            && (tag in BatchTags(batches) ==> BatchTag(batches[|batches| - 1]) == tag)
  {
    var r, n := Push(batches, tag), |batches|;
    TagsOfPush(batches, tag);
    assert forall i :: 0 <= i < |r| ==> BatchTag(r[i]) == BatchTags(r)[i];
    assert forall i :: 0 <= i < n ==> BatchTag(batches[i]) == BatchTags(batches)[i];
    if OneForEach(r) {
      forall i, j | 0 <= i < j < n
        ensures BatchTag(batches[i]) != BatchTag(batches[j])
      {
        assert BatchTag(r[i]) != BatchTag(r[j]);
      }
    }
    if tag in BatchTags(batches) && BatchTag(batches[n - 1]) != tag {
      var i :| 0 <= i < n && BatchTags(batches)[i] == tag;
      assert BatchTag(r[i]) == BatchTag(r[n]);
    }
  }

  /**
    Items are grouped by layer and kind, with one batch for each, exactly when in the display list no tag
    comes back after a different one.
    */
  lemma {:induction false} OneBatchForEachExactly(tags: seq<Tag>)
    ensures OneForEach(Reduce(tags)) <==> NeverReturns(tags)
    decreases |tags|
  {
    if tags != [] {
      var front, last := tags[..|tags| - 1], tags[|tags| - 1];
      assert tags == front + [last];
      OneBatchForEachExactly(front);
      NeverReturnsSnoc(front, last);
      OneForEachPush(Reduce(front), last);
      BatchedTags(front);
      if front != [] {
        LastBatchTag(front);
      }
    }
  }

  /** A rectangle, a text and a rectangle of one layer take three batches, two of them with one tag. */
  lemma RectanglesApart(layer: u32)
    ensures var batches := Reduce(Tags([Rect(layer), Text(layer), Rect(layer)]));
            |batches| == 3 && BatchTag(batches[0]) == BatchTag(batches[2])
  {
    var a, b := Tag(layer, "rect"), Tag(layer, "text");
    assert "rect"[0] != "text"[0];
    assert Tags([Rect(layer), Text(layer), Rect(layer)]) == [a, b] + [a];
    assert [a, b] == [a] + [b] && [a] == [] + [a];
    ReduceSnoc([a, b], a);
    ReduceSnoc([a], b);
    ReduceSnoc([], a);
  }

  /** Two items are drawn together exactly when they have the same kind and the same layer. */
  lemma TagIsExact(a: DisplayItem, b: DisplayItem)
    ensures TagOf(a) == TagOf(b) <==> a == b
    ensures TagOf(a).layer == a.layer
    ensures TagOf(a).kind == (if a.Rect? then "rect" else if a.Text? then "text" else "image")
  {
    assert "rect"[0] == 'r' && "text"[0] == 't' && "image"[0] == 'i';
  }
}
