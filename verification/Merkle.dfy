/**
  Merkle trees over an arbitrary node type and pair hash: the bottom-up reduction, the top-down tree
  it computes, and what two equal roots say about the leaves under them. Nothing here depends on
  which pair hash is used.
  */
module Merkle {

  /** Combines two children into their parent. */
  type PairHash<!T> = (T, T) -> T

  function Pow2(k: nat): (p: nat)
    ensures p >= 1
  {
    if k == 0 then 1 else 2 * Pow2(k - 1)
  }

  /** The number of halvings, rounding up, that bring `n` down to one. */
  function CeilLog2(n: nat): nat {
    if n <= 1 then 0 else 1 + CeilLog2((n + 1) / 2)
  }

  /** `CeilLog2` is the least exponent whose power of two is at least `n`. */
  lemma {:induction false} CeilLog2IsLeast(n: nat)
    requires n >= 1
    ensures n <= Pow2(CeilLog2(n))
    ensures n >= 2 ==> Pow2(CeilLog2(n) - 1) < n
  {
    if n >= 2 {
      CeilLog2IsLeast((n + 1) / 2);
      if n > 2 {
        assert CeilLog2((n + 1) / 2) >= 1;
      }
    }
  }

  // ---------------------------------------------------------------- bottom-up

  /** One round of the reduction: neighbours are paired, a last odd node is paired with itself. */
  function NextLevel<T>(hash: PairHash<T>, level: seq<T>): (next: seq<T>)
    ensures |next| == (|level| + 1) / 2
  {
    if |level| == 0 then []
    else if |level| == 1 then [hash(level[0], level[0])]
    else [hash(level[0], level[1])] + NextLevel(hash, level[2..])
  }

  /** The parent pushed by the turn of the inner loop that looks at position `i`, and what remains. */
  lemma NextLevelAt<T>(hash: PairHash<T>, level: seq<T>, i: nat)
    requires i < |level|
    ensures i + 1 < |level| ==>
      NextLevel(hash, level[i..]) == [hash(level[i], level[i + 1])] + NextLevel(hash, level[i + 2..])
    ensures i + 1 == |level| ==> NextLevel(hash, level[i..]) == [hash(level[i], level[i])]
  {
    if i + 1 < |level| {
      assert level[i..][2..] == level[i + 2..];
    }
  }

  /** The node left when the reduction stops. */
  function Reduce<T>(hash: PairHash<T>, level: seq<T>): T
    requires level != []
    decreases |level|
  {
    if |level| == 1 then level[0] else Reduce(hash, NextLevel(hash, level))
  }

  // ---------------------------------------------------------------- top-down

  datatype Tree<T> = Leaf(value: T) | Node(left: Tree<T>, right: Tree<T>)

  function Fold<T>(hash: PairHash<T>, tree: Tree<T>): T {
    match tree
    case Leaf(value) => value
    case Node(left, right) => hash(Fold(hash, left), Fold(hash, right))
  }

  /**
    The tree of height `h` over the leaves: split at half the capacity; a lone left
    subtree is paired with itself.
    */
  function TreeOf<T>(leaves: seq<T>, h: nat): Tree<T>
    requires 1 <= |leaves| <= Pow2(h)
    decreases h
  {
    if h == 0 then Leaf(leaves[0])
    else if |leaves| <= Pow2(h - 1) then Node(TreeOf(leaves, h - 1), TreeOf(leaves, h - 1))
    else Node(TreeOf(leaves[..Pow2(h - 1)], h - 1), TreeOf(leaves[Pow2(h - 1)..], h - 1))
  }

  predicate Perfect<T>(tree: Tree<T>, h: nat) {
    match tree
    case Leaf(_) => h == 0
    case Node(left, right) => h > 0 && Perfect(left, h - 1) && Perfect(right, h - 1)
  }

  /** Every tree of height `h` is perfect: all its leaves lie at depth `h`. */
  lemma {:induction false} TreeOfIsPerfect<T>(leaves: seq<T>, h: nat)
    requires 1 <= |leaves| <= Pow2(h)
    ensures Perfect(TreeOf(leaves, h), h)
    decreases h
  {
    if h > 0 {
      if |leaves| <= Pow2(h - 1) {
        TreeOfIsPerfect(leaves, h - 1);
      } else {
        TreeOfIsPerfect(leaves[..Pow2(h - 1)], h - 1);
        TreeOfIsPerfect(leaves[Pow2(h - 1)..], h - 1);
      }
    }
  }

  lemma TreeOfConcat<T>(left: seq<T>, right: seq<T>, h: nat)
    requires |left| == Pow2(h) && 1 <= |right| <= Pow2(h)
    ensures TreeOf(left + right, h + 1) == Node(TreeOf(left, h), TreeOf(right, h))
  {
    assert (left + right)[..Pow2(h)] == left;
    assert (left + right)[Pow2(h)..] == right;
  }

  lemma {:induction false} NextLevelOfConcat<T>(hash: PairHash<T>, x: seq<T>, y: seq<T>)
    requires |x| % 2 == 0
    ensures NextLevel(hash, x + y) == NextLevel(hash, x) + NextLevel(hash, y)
  {
    if x == [] {
      assert x + y == y;
    } else {
      NextLevelOfConcat(hash, x[2..], y);
      assert (x + y)[2..] == x[2..] + y;
    }
  }

  /** One round of the reduction takes one level off the bottom of the tree. */
  lemma {:induction false} FoldOfNextLevel<T>(hash: PairHash<T>, leaves: seq<T>, h: nat)
    requires 1 <= |leaves| <= Pow2(h + 1)
    ensures Fold(hash, TreeOf(leaves, h + 1)) == Fold(hash, TreeOf(NextLevel(hash, leaves), h))
    decreases h
  {
    if h == 0 {
      FoldOfAtMostTwo(hash, leaves);
    } else if |leaves| <= Pow2(h) {
      FoldOfNextLevel(hash, leaves, h - 1);
    } else {
      var left, right := leaves[..Pow2(h)], leaves[Pow2(h)..];
      assert leaves == left + right;
      FoldOfNextLevel(hash, left, h - 1);
      FoldOfNextLevel(hash, right, h - 1);
      FoldOfNextLevelSplit(hash, left, right, h - 1);
    }
  }

  /** Over two halves the trees of both levels split. */
  lemma TreesOfSplit<T>(hash: PairHash<T>, left: seq<T>, right: seq<T>, h: nat)
    requires |left| == Pow2(h + 1) && 1 <= |right| <= Pow2(h + 1)
    ensures TreeOf(left + right, h + 2) == Node(TreeOf(left, h + 1), TreeOf(right, h + 1))
    ensures |NextLevel(hash, left)| == Pow2(h) && 1 <= |NextLevel(hash, right)| <= Pow2(h)
    ensures |NextLevel(hash, left + right)| <= Pow2(h + 1)
    ensures TreeOf(NextLevel(hash, left + right), h + 1)
         == Node(TreeOf(NextLevel(hash, left), h), TreeOf(NextLevel(hash, right), h))
  {
    TreeOfConcat(left, right, h + 1);
    NextLevelOfConcat(hash, left, right);
    NextTreeOfSplit(NextLevel(hash, left), NextLevel(hash, right), NextLevel(hash, left + right), h);
  }

  lemma NextTreeOfSplit<T>(left: seq<T>, right: seq<T>, both: seq<T>, h: nat)
    requires |left| == Pow2(h) && 1 <= |right| <= Pow2(h) && both == left + right
    ensures TreeOf(both, h + 1) == Node(TreeOf(left, h), TreeOf(right, h))
  {
    TreeOfConcat(left, right, h);
  }

  lemma FoldOfNextLevelSplit<T>(hash: PairHash<T>, left: seq<T>, right: seq<T>, h: nat)
    requires |left| == Pow2(h + 1) && 1 <= |right| <= Pow2(h + 1)
    requires Fold(hash, TreeOf(left, h + 1)) == Fold(hash, TreeOf(NextLevel(hash, left), h))
    requires Fold(hash, TreeOf(right, h + 1)) == Fold(hash, TreeOf(NextLevel(hash, right), h))
    ensures Fold(hash, TreeOf(left + right, h + 2)) == Fold(hash, TreeOf(NextLevel(hash, left + right), h + 1))
  {
    TreesOfSplit(hash, left, right, h);
  }

  lemma FoldOfAtMostTwo<T>(hash: PairHash<T>, leaves: seq<T>)
    requires 1 <= |leaves| <= 2
    ensures Fold(hash, TreeOf(leaves, 1)) == Fold(hash, TreeOf(NextLevel(hash, leaves), 0))
  {
    assert Pow2(0) == 1;
    if |leaves| == 1 {
      assert TreeOf(leaves, 0) == Leaf(leaves[0]);
    } else {
      assert TreeOf(leaves[..1], 0) == Leaf(leaves[0]);
      assert TreeOf(leaves[1..], 0) == Leaf(leaves[1]);
      assert NextLevel(hash, leaves)[0] == hash(leaves[0], leaves[1]);
    }
  }

  /** The tree over a non-empty list of leaves; its height is ceil(log2 n). */
  function MerkleTree<T>(leaves: seq<T>): Tree<T>
    requires leaves != []
  {
    CeilLog2IsLeast(|leaves|);
    TreeOf(leaves, CeilLog2(|leaves|))
  }

  /** The level-by-level reduction computes the recursive tree of height ceil(log2 n). */
  lemma {:induction false} ReduceIsFoldOfTree<T>(hash: PairHash<T>, leaves: seq<T>)
    requires leaves != []
    ensures Reduce(hash, leaves) == Fold(hash, MerkleTree(leaves))
    decreases |leaves|
  {
    CeilLog2IsLeast(|leaves|);
    if |leaves| > 1 {
      ReduceIsFoldOfTree(hash, NextLevel(hash, leaves));
      FoldOfNextLevel(hash, leaves, CeilLog2(|leaves|) - 1);
    }
  }

  // ---------------------------------------------------------------- what equal roots say

  /**
    Some position has different children in the two trees although the node over them
    hashes to the same value: two different pairs on which the pair hash collides.
    */
  ghost predicate CollidingNode<T(!new)>(hash: PairHash<T>, t: Tree<T>, u: Tree<T>) {
    t.Node? && u.Node? &&
    var a, b := Fold(hash, t.left), Fold(hash, t.right);
    var c, d := Fold(hash, u.left), Fold(hash, u.right);
    || ((a, b) != (c, d) && hash(a, b) == hash(c, d))
    || CollidingNode(hash, t.left, u.left)
    || CollidingNode(hash, t.right, u.right)
  }

  /** Two perfect trees without a colliding node have equal roots exactly when they are equal. */
  lemma {:induction false} FoldsAgree<T(!new)>(hash: PairHash<T>, t: Tree<T>, u: Tree<T>, h: nat)
    requires Perfect(t, h) && Perfect(u, h)
    requires !CollidingNode(hash, t, u)
    ensures Fold(hash, t) == Fold(hash, u) <==> t == u
  {
    if h > 0 {
      FoldsAgree(hash, t.left, u.left, h - 1);
      FoldsAgree(hash, t.right, u.right, h - 1);
    }
  }

  /** The tree over a list and the tree over its next level agree wherever both have a node. */
  lemma {:induction false} NextLevelDoesNotCollide<T(!new)>(hash: PairHash<T>, leaves: seq<T>, h: nat)
    requires 1 <= |leaves| <= Pow2(h + 1)
    ensures !CollidingNode(hash, TreeOf(leaves, h + 1), TreeOf(NextLevel(hash, leaves), h))
    decreases h
  {
    if h > 0 {
      if |leaves| <= Pow2(h) {
        NextLevelDoesNotCollide(hash, leaves, h - 1);
        FoldOfNextLevel(hash, leaves, h - 1);
      } else {
        var left, right := leaves[..Pow2(h)], leaves[Pow2(h)..];
        assert leaves == left + right;
        NextLevelDoesNotCollide(hash, left, h - 1);
        NextLevelDoesNotCollide(hash, right, h - 1);
        NoCollisionSplit(hash, left, right, h - 1);
      }
    }
  }

  lemma NoCollisionSplit<T(!new)>(hash: PairHash<T>, left: seq<T>, right: seq<T>, h: nat)
    requires |left| == Pow2(h + 1) && 1 <= |right| <= Pow2(h + 1)
    requires !CollidingNode(hash, TreeOf(left, h + 1), TreeOf(NextLevel(hash, left), h))
    requires !CollidingNode(hash, TreeOf(right, h + 1), TreeOf(NextLevel(hash, right), h))
    ensures !CollidingNode(hash, TreeOf(left + right, h + 2), TreeOf(NextLevel(hash, left + right), h + 1))
  {
    FoldOfNextLevel(hash, left, h);
    FoldOfNextLevel(hash, right, h);
    TreesOfSplit(hash, left, right, h);
  }

  /**
    For logs of equal height and no colliding node, equality of roots is decided exactly:
    the roots agree if and only if the trees, with lone subtrees written out twice, agree.
    */
  lemma RootsAgreeExactly<T(!new)>(hash: PairHash<T>, a: seq<T>, b: seq<T>)
    requires a != [] && b != [] && CeilLog2(|a|) == CeilLog2(|b|)
    requires !CollidingNode(hash, MerkleTree(a), MerkleTree(b))
    ensures Reduce(hash, a) == Reduce(hash, b) <==> MerkleTree(a) == MerkleTree(b)
  {
    ReduceIsFoldOfTree(hash, a);
    ReduceIsFoldOfTree(hash, b);
    CeilLog2IsLeast(|a|);
    CeilLog2IsLeast(|b|);
    TreeOfIsPerfect(a, CeilLog2(|a|));
    TreeOfIsPerfect(b, CeilLog2(|b|));
    FoldsAgree(hash, MerkleTree(a), MerkleTree(b), CeilLog2(|a|));
  }

  /** At equal length the tree determines the leaves. */
  lemma {:induction false} TreeOfInjective<T>(a: seq<T>, b: seq<T>, h: nat)
    requires 1 <= |a| == |b| <= Pow2(h)
    requires TreeOf(a, h) == TreeOf(b, h)
    ensures a == b
    decreases h
  {
    if h == 0 {
      assert a == [a[0]] && b == [b[0]];
    } else if |a| <= Pow2(h - 1) {
      TreeOfInjective(a, b, h - 1);
    } else {
      var half := Pow2(h - 1);
      TreeOfInjective(a[..half], b[..half], h - 1);
      TreeOfInjective(a[half..], b[half..], h - 1);
      assert a == a[..half] + a[half..] && b == b[..half] + b[half..];
    }
  }

  /** At equal length, and without a colliding node, the root determines the leaves. */
  lemma EqualLengthRootsAgree<T(!new)>(hash: PairHash<T>, a: seq<T>, b: seq<T>)
    requires |a| == |b| > 0
    requires !CollidingNode(hash, MerkleTree(a), MerkleTree(b))
    ensures Reduce(hash, a) == Reduce(hash, b) <==> a == b
  {
    RootsAgreeExactly(hash, a, b);
    CeilLog2IsLeast(|a|);
    if MerkleTree(a) == MerkleTree(b) {
      TreeOfInjective(a, b, CeilLog2(|a|));
    }
  }

  // ---------------------------------------------------------------- leaves written out

  /**
    Which of `n` leaves stands at position `p` of a tree of height `h`: leaves stand at their own
    positions, and the positions after the last leaf repeat the blocks that were paired with themselves.
    */
  function PaddedIndex(n: nat, h: nat, p: nat): (i: nat)
    requires 1 <= n <= Pow2(h) && p < Pow2(h)
    ensures i < n
    ensures p < n ==> i == p
    decreases h
  {
    if h == 0 then 0
    else
      var half := Pow2(h - 1);
      if n <= half then PaddedIndex(n, h - 1, if p < half then p else p - half)
      else if p < half then p
      else half + PaddedIndex(n - half, h - 1, p - half)
  }

  /** Two lists of leaves agree at every position of a tree of height `h`. */
  ghost predicate PaddedAlike<T(!new)>(a: seq<T>, b: seq<T>, h: nat)
    requires 1 <= |a| <= Pow2(h) && 1 <= |b| <= Pow2(h)
  {
    forall p: nat :: p < Pow2(h) ==> a[PaddedIndex(|a|, h, p)] == b[PaddedIndex(|b|, h, p)]
  }

  /** The leaf at position `p` of a perfect tree. */
  function LeafAt<T>(tree: Tree<T>, h: nat, p: nat): T
    requires Perfect(tree, h) && p < Pow2(h)
    decreases h
  {
    if h == 0 then tree.value
    else if p < Pow2(h - 1) then LeafAt(tree.left, h - 1, p)
    else LeafAt(tree.right, h - 1, p - Pow2(h - 1))
  }

  lemma {:induction false} LeafOfTree<T>(leaves: seq<T>, h: nat, p: nat)
    requires 1 <= |leaves| <= Pow2(h) && p < Pow2(h)
    ensures Perfect(TreeOf(leaves, h), h)
    ensures LeafAt(TreeOf(leaves, h), h, p) == leaves[PaddedIndex(|leaves|, h, p)]
    decreases h
  {
    if h > 0 {
      var half := Pow2(h - 1);
      if |leaves| <= half {
        LeafOfTree(leaves, h - 1, if p < half then p else p - half);
      } else {
        TreeOfIsPerfect(leaves, h);
        if p < half {
          LeafOfTree(leaves[..half], h - 1, p);
        } else {
          LeafOfTree(leaves[half..], h - 1, p - half);
        }
      }
    }
  }

  lemma {:induction false} LeavesDetermineTree<T(!new)>(t: Tree<T>, u: Tree<T>, h: nat)
    requires Perfect(t, h) && Perfect(u, h)
    requires forall p: nat :: p < Pow2(h) ==> LeafAt(t, h, p) == LeafAt(u, h, p)
    ensures t == u
  {
    if h == 0 {
      assert LeafAt(t, h, 0) == LeafAt(u, h, 0);
    } else {
      var below, half := h - 1, Pow2(h - 1);
      forall p: nat | p < half
        ensures LeafAt(t.left, below, p) == LeafAt(u.left, below, p)
      {
        assert LeafAt(t, h, p) == LeafAt(u, h, p);
      }
      forall p: nat | p < half
        ensures LeafAt(t.right, below, p) == LeafAt(u.right, below, p)
      {
        assert LeafAt(t, h, half + p) == LeafAt(u, h, half + p);
      }
      LeavesDetermineTree(t.left, u.left, below);
      LeavesDetermineTree(t.right, u.right, below);
    }
  }

  /**
    Two trees of one height are equal exactly when the leaves agree at each of the 2^h positions; the
    shorter list is then the beginning of the longer one.
    */
  lemma TreesAgreeExactly<T(!new)>(a: seq<T>, b: seq<T>, h: nat)
    requires 1 <= |a| <= |b| <= Pow2(h)
    ensures TreeOf(a, h) == TreeOf(b, h) <==> PaddedAlike(a, b, h)
    ensures PaddedAlike(a, b, h) <==> PaddedAlike(b, a, h)
    ensures PaddedAlike(a, b, h) ==> a <= b
  {
    forall p: nat | p < Pow2(h)
      ensures Perfect(TreeOf(a, h), h) && LeafAt(TreeOf(a, h), h, p) == a[PaddedIndex(|a|, h, p)]
      ensures Perfect(TreeOf(b, h), h) && LeafAt(TreeOf(b, h), h, p) == b[PaddedIndex(|b|, h, p)]
    {
      LeafOfTree(a, h, p);
      LeafOfTree(b, h, p);
    }
    TreeOfIsPerfect(a, h);
    TreeOfIsPerfect(b, h);
    if PaddedAlike(a, b, h) {
      LeavesDetermineTree(TreeOf(a, h), TreeOf(b, h), h);
      forall i | 0 <= i < |a|
        ensures a[i] == b[i]
      {
        assert a[PaddedIndex(|a|, h, i)] == b[PaddedIndex(|b|, h, i)];
      }
    }
  }

  // ---------------------------------------------------------------- lists of different height

  /** The level reached after `d` rounds. */
  function LevelAfter<T>(hash: PairHash<T>, level: seq<T>, d: nat): seq<T>
    decreases d
  {
    if d == 0 then level else LevelAfter(hash, NextLevel(hash, level), d - 1)
  }

  /** Every level on the way up has the root of the whole, and its height is what remains. */
  lemma {:induction false} LevelKeepsRoot<T>(hash: PairHash<T>, leaves: seq<T>, d: nat)
    requires leaves != [] && d <= CeilLog2(|leaves|)
    ensures var level := LevelAfter(hash, leaves, d);
            && level != [] && CeilLog2(|level|) == CeilLog2(|leaves|) - d
            && Reduce(hash, level) == Reduce(hash, leaves)
    decreases d
  {
    if d > 0 {
      LevelKeepsRoot(hash, NextLevel(hash, leaves), d - 1);
    }
  }

  lemma FirstLevelKeepsRoot<T>(hash: PairHash<T>, leaves: seq<T>)
    requires |leaves| >= 2
    ensures var next := NextLevel(hash, leaves);
            && next != [] && CeilLog2(|next|) == CeilLog2(|leaves|) - 1
            && LevelAfter(hash, leaves, 1) == next && Reduce(hash, next) == Reduce(hash, leaves)
  {
    assert LevelAfter(hash, leaves, 1) == LevelAfter(hash, NextLevel(hash, leaves), 0);
  }

  /** The first level above the leaves: one lower, with the same root, and no pair that collides with one below. */
  lemma FirstLevel<T(!new)>(hash: PairHash<T>, leaves: seq<T>)
    requires |leaves| >= 2
    ensures var next := NextLevel(hash, leaves);
            && next != [] && CeilLog2(|next|) == CeilLog2(|leaves|) - 1
            && LevelAfter(hash, leaves, 1) == next && Reduce(hash, next) == Reduce(hash, leaves)
            && !CollidingNode(hash, MerkleTree(leaves), MerkleTree(next))
  {
    FirstLevelKeepsRoot(hash, leaves);
    CeilLog2IsLeast(|leaves|);
    NextLevelDoesNotCollide(hash, leaves, CeilLog2(|leaves|) - 1);
  }

  /** Two levels of one height have equal roots exactly when they are alike once padded, if no node collides. */
  lemma PaddedRootsAgree<T(!new)>(hash: PairHash<T>, a: seq<T>, b: seq<T>)
    requires a != [] && b != [] && CeilLog2(|a|) == CeilLog2(|b|)
    requires !CollidingNode(hash, MerkleTree(a), MerkleTree(b))
    ensures |a| <= Pow2(CeilLog2(|a|)) && |b| <= Pow2(CeilLog2(|a|))
    ensures Reduce(hash, a) == Reduce(hash, b) <==> PaddedAlike(a, b, CeilLog2(|a|))
  {
    CeilLog2IsLeast(|a|);
    CeilLog2IsLeast(|b|);
    RootsAgreeExactly(hash, a, b);
    if |a| <= |b| {
      TreesAgreeExactly(a, b, CeilLog2(|a|));
    } else {
      TreesAgreeExactly(b, a, CeilLog2(|a|));
    }
  }

  // ---------------------------------------------------------------- what duplication costs

  lemma DuplicatedNode<T>(hash: PairHash<T>, last: T)
    ensures NextLevel(hash, [last, last]) == NextLevel(hash, [last])
  {
    assert NextLevel(hash, [last, last][2..]) == [];
  }

  /** An odd list of three or more nodes reduces like the same list with its last node repeated. */
  lemma RepeatedLastNode<T>(hash: PairHash<T>, front: seq<T>, last: T)
    requires |front| % 2 == 0 && |front| >= 2
    ensures Reduce(hash, front + [last, last]) == Reduce(hash, front + [last])
  {
    NextLevelOfConcat(hash, front, [last]);
    NextLevelOfConcat(hash, front, [last, last]);
    DuplicatedNode(hash, last);
  }

  lemma HalveMultiple(q: nat, p: nat)
    ensures q * (2 * p) == 2 * (q * p)
  {}

  /**
    If the length is an odd multiple, three or more, of 2^k, the last 2^k leaves can be repeated
    without changing the root.
    */
  lemma {:induction false} RepeatedTailKeepsRoot<T>(hash: PairHash<T>, front: seq<T>, tail: seq<T>, k: nat, q: nat)
    requires |tail| == Pow2(k) && |front| == q * Pow2(k) && q % 2 == 0 && |front| > 0
    ensures Reduce(hash, front + (tail + tail)) == Reduce(hash, front + tail)
    decreases k
  {
    if k == 0 {
      assert tail == [tail[0]] && tail + tail == [tail[0], tail[0]];
      RepeatedLastNode(hash, front, tail[0]);
    } else {
      HalveMultiple(q, Pow2(k - 1));
      RepeatedTailNextLevel(hash, front, tail);
      RepeatedTailKeepsRoot(hash, NextLevel(hash, front), NextLevel(hash, tail), k - 1, q);
    }
  }

  lemma RepeatedTailNextLevel<T>(hash: PairHash<T>, front: seq<T>, tail: seq<T>)
    requires |front| % 2 == 0 && |tail| % 2 == 0 && |front| > 0 && |tail| > 0
    ensures Reduce(hash, front + tail) == Reduce(hash, NextLevel(hash, front) + NextLevel(hash, tail))
    ensures Reduce(hash, front + (tail + tail))
         == Reduce(hash, NextLevel(hash, front) + (NextLevel(hash, tail) + NextLevel(hash, tail)))
  {
    NextLevelOfConcat(hash, front, tail);
    NextLevelOfConcat(hash, front, tail + tail);
    NextLevelOfConcat(hash, tail, tail);
  }

  // ---------------------------------------------------------------- when one more leaf changes nothing

  /** The largest power of two that divides `n`. */
  function LowBit(n: nat): (bit: nat)
    requires n >= 1
    ensures 1 <= bit <= n
  {
    if n % 2 == 1 then 1 else 2 * LowBit(n / 2)
  }

  lemma {:induction false} LowBitOfPow2(k: nat)
    ensures LowBit(Pow2(k)) == Pow2(k)
  {
    if k > 0 {
      LowBitOfPow2(k - 1);
    }
  }

  lemma LessTwice(n: nat, half: nat)
    requires n >= 2 * half
    ensures (n - 2 * half) % 2 == n % 2 && (n - 2 * half) / 2 == n / 2 - half
  {}

  /** Taking off the leading binary digit leaves the last one. */
  lemma {:induction false} LowBitWithoutLeading(n: nat, k: nat)
    requires Pow2(k) < n < 2 * Pow2(k)
    ensures LowBit(n) == LowBit(n - Pow2(k))
  {
    if k > 0 {
      var half := Pow2(k - 1);
      assert Pow2(k) == 2 * half;
      LessTwice(n, half);
      if n % 2 == 0 {
        LowBitWithoutLeading(n / 2, k - 1);
      }
    }
  }

  /** The leaves under the last complete block all equal `x`. */
  predicate TailIs<T(==)>(leaves: seq<T>, x: T)
    requires leaves != []
  {
    forall i :: |leaves| - LowBit(|leaves|) <= i < |leaves| ==> leaves[i] == x
  }

  lemma {:induction false} FullTreeOfOneLeaf<T>(leaves: seq<T>, x: T, h: nat)
    requires |leaves| == Pow2(h)
    ensures TreeOf([x], h) == TreeOf(leaves, h) <==> forall i :: 0 <= i < |leaves| ==> leaves[i] == x
    decreases h
  {
    if h > 0 {
      var half := Pow2(h - 1);
      var left, right := leaves[..half], leaves[half..];
      FullTreeOfOneLeaf(left, x, h - 1);
      FullTreeOfOneLeaf(right, x, h - 1);
      assert forall i :: 0 <= i < half ==> leaves[i] == left[i] && leaves[half + i] == right[i];
      if forall i :: 0 <= i < half ==> left[i] == x && right[i] == x {
        forall i | 0 <= i < |leaves|
          ensures leaves[i] == x
        {
          if i >= half {
            assert leaves[i] == right[i - half];
          }
        }
      }
    }
  }

  /**
    Adding a leaf inside the capacity of the tree leaves the tree as it is exactly when the new leaf
    equals every one of the last 2^k, where 2^k is the largest power of two dividing the length.
    */
  lemma {:induction false} AppendedLeafKeepsTree<T>(leaves: seq<T>, x: T, h: nat)
    requires 1 <= |leaves| < Pow2(h)
    ensures TreeOf(leaves + [x], h) == TreeOf(leaves, h) <==> TailIs(leaves, x)
    decreases h
  {
    var half := Pow2(h - 1);
    if |leaves| < half {
      AppendedLeafKeepsTree(leaves, x, h - 1);
    } else if |leaves| == half {
      TreeOfConcat(leaves, [x], h - 1);
      FullTreeOfOneLeaf(leaves, x, h - 1);
      LowBitOfPow2(h - 1);
    } else {
      var left, right := leaves[..half], leaves[half..];
      assert leaves == left + right;
      AppendedLeafKeepsTree(right, x, h - 1);
      assert leaves + [x] == left + (right + [x]);
      AppendedLeafOnTheRight(left, right, x, h - 1);
      TailOfRight(left, right, x, h - 1);
    }
  }

  lemma AppendedLeafOnTheRight<T>(left: seq<T>, right: seq<T>, x: T, h: nat)
    requires |left| == Pow2(h) && 1 <= |right| < Pow2(h)
    ensures TreeOf(left + (right + [x]), h + 1) == TreeOf(left + right, h + 1)
       <==> TreeOf(right + [x], h) == TreeOf(right, h)
  {
    TreeOfConcat(left, right, h);
    TreeOfConcat(left, right + [x], h);
  }

  /**
    While the height stays the same, and without a colliding node, one more leaf keeps
    the root exactly when it keeps the tree.
    */
  lemma AppendedLeafKeepsRootExactly<T(!new)>(hash: PairHash<T>, leaves: seq<T>, x: T)
    requires leaves != [] && CeilLog2(|leaves| + 1) == CeilLog2(|leaves|)
    requires !CollidingNode(hash, MerkleTree(leaves + [x]), MerkleTree(leaves))
    ensures Reduce(hash, leaves + [x]) == Reduce(hash, leaves) <==> TailIs(leaves, x)
  {
    CeilLog2IsLeast(|leaves| + 1);
    RootsAgreeExactly(hash, leaves + [x], leaves);
    AppendedLeafKeepsTree(leaves, x, CeilLog2(|leaves|));
  }

  lemma TailOfRight<T>(left: seq<T>, right: seq<T>, x: T, h: nat)
    requires |left| == Pow2(h) && 1 <= |right| < Pow2(h)
    ensures TailIs(left + right, x) <==> TailIs(right, x)
  {
    var whole := left + right;
    LowBitWithoutLeading(|whole|, h);
    if TailIs(whole, x) {
      forall i | |right| - LowBit(|right|) <= i < |right|
        ensures right[i] == x
      {
        assert whole[|left| + i] == right[i];
      }
    }
  }

  /** The root of a tree of height `h` in which every leaf is `x`. */
  function Uniform<T>(hash: PairHash<T>, x: T, h: nat): T {
    if h == 0 then x else hash(Uniform(hash, x, h - 1), Uniform(hash, x, h - 1))
  }

  lemma {:induction false} SingleLeafTree<T>(hash: PairHash<T>, x: T, h: nat)
    ensures Fold(hash, TreeOf([x], h)) == Uniform(hash, x, h)
  {
    if h > 0 {
      SingleLeafTree(hash, x, h - 1);
    }
  }

  /** A full tree grows by one level: the old root is paired with the tree of the new leaf alone. */
  lemma AppendToFullTree<T>(hash: PairHash<T>, leaves: seq<T>, x: T, h: nat)
    requires |leaves| == Pow2(h)
    ensures Reduce(hash, leaves + [x]) == hash(Reduce(hash, leaves), Uniform(hash, x, h))
  {
    HeightOfFull(h);
    ReduceIsFoldOfTree(hash, leaves);
    ReduceIsFoldOfTree(hash, leaves + [x]);
    TreeOfConcat(leaves, [x], h);
    SingleLeafTree(hash, x, h);
  }

  lemma {:induction false} HeightOfFull(h: nat)
    ensures CeilLog2(Pow2(h)) == h
    ensures CeilLog2(Pow2(h) + 1) == h + 1
  {
    if h > 0 {
      HeightOfFull(h - 1);
      HeightOfDouble(Pow2(h - 1));
    }
  }

  lemma HeightOfDouble(m: nat)
    requires m >= 1
    ensures CeilLog2(2 * m) == 1 + CeilLog2(m)
    ensures CeilLog2(2 * m + 1) == 1 + CeilLog2(m + 1)
  {
    assert (2 * m + 1) / 2 == m && (2 * m + 2) / 2 == m + 1;
  }

  /** One more leaf makes the tree grow exactly when the tree is full. */
  lemma {:induction false} GrowsWhenFull(n: nat)
    requires n >= 1
    ensures CeilLog2(n + 1) == CeilLog2(n) + if n == Pow2(CeilLog2(n)) then 1 else 0
  {
    var m := n / 2;
    if n >= 2 {
      HeightOfDouble(m);
      if n == 2 * m {
        GrowsWhenFull(m);
      } else {
        HeightOfDouble(m + 1);
      }
    }
  }
}
