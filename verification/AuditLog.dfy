/** The tamper-evident audit log: FNV leaf hashes under a Merkle root. */
module Audit {
  import opened Fnv
  import opened Merkle

  // ---------------------------------------------------------------- hashing two nodes

  /** Big-endian bytes of a word, as `u64::to_be_bytes`. */
  function ToBeBytes(w: Word): (bytes: seq<Byte>)
    ensures |bytes| == 8
  {
    [((w >> 56) & 0xff) as Byte, ((w >> 48) & 0xff) as Byte, ((w >> 40) & 0xff) as Byte, ((w >> 32) & 0xff) as Byte,
     ((w >> 24) & 0xff) as Byte, ((w >> 16) & 0xff) as Byte, ((w >> 8) & 0xff) as Byte, (w & 0xff) as Byte]
  }

  /** The inverse of `ToBeBytes`, as `u64::from_be_bytes`. */
  function FromBeBytes(bytes: seq<Byte>): Word
    requires |bytes| == 8
  {
    ((bytes[0] as Word) << 56) | ((bytes[1] as Word) << 48) | ((bytes[2] as Word) << 40) | ((bytes[3] as Word) << 32) |
    ((bytes[4] as Word) << 24) | ((bytes[5] as Word) << 16) | ((bytes[6] as Word) << 8) | (bytes[7] as Word)
  }

  /** The byte encoding under the pair hash loses nothing, so no two pairs are encoded alike. */
  lemma BeBytesRoundTrip(w: Word)
    ensures FromBeBytes(ToBeBytes(w)) == w
  {}

  function HashPair(a: Word, b: Word): Word {
    HashBytes(ToBeBytes(a) + ToBeBytes(b))
  }

  /** `hash_bytes`. */
  method ComputeHashBytes(data: seq<Byte>) returns (h: Word)
    ensures h == HashBytes(data)
  {
    h := AbsorbAll(BASIS, data);
  }

  /** `hash_pair`, through its sixteen-byte buffer. */
  method ComputeHashPair(a: Word, b: Word) returns (h: Word)
    ensures h == HashPair(a, b)
  {
    var buf := new Byte[16](_ => 0);
    forall i | 0 <= i < 8 {
      buf[i] := ToBeBytes(a)[i];
    }
    forall i | 0 <= i < 8 {
      buf[8 + i] := ToBeBytes(b)[i];
    }
    assert buf[..] == ToBeBytes(a) + ToBeBytes(b);
    h := ComputeHashBytes(buf[..]);
  }

  // ---------------------------------------------------------------- the log

  function LeafHashes(entries: seq<seq<Byte>>): (leaves: seq<Word>)
    ensures |leaves| == |entries|
  {
    seq(|entries|, i requires 0 <= i < |entries| => HashBytes(entries[i]))
  }

  /** The root that a log over leaf hashes reports; the empty log reports 0. */
  function RootOf(leaves: seq<Word>): Word {
    if leaves == [] then 0 else Reduce(HashPair, leaves)
  }

  class AuditLog {
    var leaves: seq<Word>
    ghost var entries: seq<seq<Byte>>  // what was appended, in order

    ghost predicate Valid()
      reads this
    {
      leaves == LeafHashes(entries)
    }

    constructor ()
      ensures Valid() && entries == []
    {
      leaves := [];
      entries := [];
    }

    method Append(entry: seq<Byte>)
      requires Valid()
      modifies this
      ensures Valid() && entries == old(entries) + [entry]
      ensures leaves == old(leaves) + [HashBytes(entry)]
    {
      var h := ComputeHashBytes(entry);
      leaves := leaves + [h];
      entries := entries + [entry];
    }

    /** The nested loops of `root`; `rounds` counts the passes of the outer one. */
    method Root() returns (root: Word, ghost rounds: nat)
      requires Valid()
      ensures root == RootOf(LeafHashes(entries))
      ensures entries == [] ==> root == 0
      ensures entries != [] ==> root == Fold(HashPair, MerkleTree(leaves))
      ensures rounds == CeilLog2(|entries|)
    {
      rounds := 0;
      if leaves == [] {
        return 0, 0;
      }
      ReduceIsFoldOfTree(HashPair, leaves);
      var level := leaves;
      while |level| > 1
        invariant level != []
        invariant Reduce(HashPair, level) == Reduce(HashPair, leaves)
        invariant rounds + CeilLog2(|level|) == CeilLog2(|leaves|)
        decreases |level|
      {
        level := ComputeNextLevel(level);
        rounds := rounds + 1;
      }
      root := level[0];
    }

    /** The inner loop of `root`. */
    method ComputeNextLevel(level: seq<Word>) returns (next: seq<Word>)
      ensures next == NextLevel(HashPair, level)
    {
      next := [];
      var i := 0;
      assert level[0..] == level;
      while i < |level|
        invariant i <= |level| ==> next + NextLevel(HashPair, level[i..]) == NextLevel(HashPair, level)
        invariant i > |level| ==> next == NextLevel(HashPair, level)
      {
        NextLevelAt(HashPair, level, i);
        var h;
        if i + 1 < |level| {
          h := ComputeHashPair(level[i], level[i + 1]);
        } else {
          h := ComputeHashPair(level[i], level[i]);
        }
        next := next + [h];
        i := i + 2;
      }
    }
  }

  // ---------------------------------------------------------------- tamper evidence

  /** Two different entries at the same position with the same hash. */
  ghost predicate EntryCollision(a: seq<seq<Byte>>, b: seq<seq<Byte>>)
    requires |a| == |b|
  {
    exists i :: 0 <= i < |a| && a[i] != b[i] && HashBytes(a[i]) == HashBytes(b[i])
  }

  /** Two different pairs at the same position of the two trees with the same pair hash. */
  ghost predicate NodeCollision(a: seq<seq<Byte>>, b: seq<seq<Byte>>)
    requires a != [] && b != []
  {
    CollidingNode(HashPair, MerkleTree(LeafHashes(a)), MerkleTree(LeafHashes(b)))
  }

  lemma LeavesAgree(a: seq<seq<Byte>>, b: seq<seq<Byte>>)
    requires |a| == |b| && !EntryCollision(a, b)
    ensures LeafHashes(a) == LeafHashes(b) <==> a == b
  {
    if LeafHashes(a) == LeafHashes(b) {
      forall i | 0 <= i < |a|
        ensures a[i] == b[i]
      {
        assert LeafHashes(a)[i] == LeafHashes(b)[i];
      }
    }
  }

  /**
    Histories of equal length have equal roots exactly when they are equal, unless the two logs
    themselves exhibit a collision of the entry hash or of the pair hash.
    */
  lemma TamperEvidence(a: seq<seq<Byte>>, b: seq<seq<Byte>>)
    requires |a| == |b| > 0
    ensures EntryCollision(a, b) || NodeCollision(a, b)
         || (RootOf(LeafHashes(a)) == RootOf(LeafHashes(b)) <==> a == b)
  {
    if !EntryCollision(a, b) && !NodeCollision(a, b) {
      LeavesAgree(a, b);
      EqualLengthRootsAgree(HashPair, LeafHashes(a), LeafHashes(b));
    }
  }

  /**
    Rewriting one byte of one past entry is caught by the entry hash itself: if the root
    survives, the pair hash has collided inside the two trees.
    */
  lemma ByteTamperEvidence(a: seq<seq<Byte>>, i: nat, j: nat, x: Byte)
    requires i < |a| && j < |a[i]| && x != a[i][j]
    ensures var b := a[i := a[i][j := x]];
            RootOf(LeafHashes(a)) == RootOf(LeafHashes(b)) ==> NodeCollision(a, b)
  {
    var b := a[i := a[i][j := x]];
    SingleByteChangeDetected(a[i], j, x);
    assert LeafHashes(a)[i] != LeafHashes(b)[i];
    if !NodeCollision(a, b) {
      EqualLengthRootsAgree(HashPair, LeafHashes(a), LeafHashes(b));
    }
  }

  // ---------------------------------------------------------------- histories of any two lengths

  /** The hashes of `b` at the level that is as high as the leaves of `a`. */
  function LevelUnder(a: seq<seq<Byte>>, b: seq<seq<Byte>>): seq<Word>
    requires CeilLog2(|a|) <= CeilLog2(|b|)
  {
    LevelAfter(HashPair, LeafHashes(b), CeilLog2(|b|) - CeilLog2(|a|))
  }

  lemma LevelUnderHeight(a: seq<seq<Byte>>, b: seq<seq<Byte>>)
    requires a != [] && b != [] && CeilLog2(|a|) <= CeilLog2(|b|)
    ensures LevelUnder(a, b) != [] && CeilLog2(|LevelUnder(a, b)|) == CeilLog2(|a|)
    ensures |a| <= Pow2(CeilLog2(|a|)) && |LevelUnder(a, b)| <= Pow2(CeilLog2(|a|))
    ensures RootOf(LevelUnder(a, b)) == RootOf(LeafHashes(b))
  {
    LevelKeepsRoot(HashPair, LeafHashes(b), CeilLog2(|b|) - CeilLog2(|a|));
    CeilLog2IsLeast(|a|);
    CeilLog2IsLeast(|LevelUnder(a, b)|);
  }

  /**
    When any two histories have equal roots, whatever their lengths: exactly when the entry hashes of
    the one, and the nodes of the other at that height, agree at every position of the tree (unless a
    node collides). At equal height these nodes are the entry hashes themselves.
    */
  lemma HistoriesAgreeExactly(a: seq<seq<Byte>>, b: seq<seq<Byte>>)
    requires a != [] && b != [] && CeilLog2(|a|) <= CeilLog2(|b|)
    ensures LevelUnder(a, b) != [] && CeilLog2(|a|) == CeilLog2(|LevelUnder(a, b)|)
    ensures |a| <= Pow2(CeilLog2(|a|)) && |LevelUnder(a, b)| <= Pow2(CeilLog2(|a|))
    ensures CeilLog2(|a|) == CeilLog2(|b|) ==> LevelUnder(a, b) == LeafHashes(b)
    ensures CollidingNode(HashPair, MerkleTree(LeafHashes(a)), MerkleTree(LevelUnder(a, b)))
         || (RootOf(LeafHashes(a)) == RootOf(LeafHashes(b))
             <==> PaddedAlike(LeafHashes(a), LevelUnder(a, b), CeilLog2(|a|)))
  {
    LevelUnderHeight(a, b);
    if !CollidingNode(HashPair, MerkleTree(LeafHashes(a)), MerkleTree(LevelUnder(a, b))) {
      PaddedRootsAgree(HashPair, LeafHashes(a), LevelUnder(a, b));
    }
  }

  /** At equal height an equal root means that the shorter history is how the longer one began. */
  lemma EqualRootsExtend(a: seq<seq<Byte>>, b: seq<seq<Byte>>)
    requires 1 <= |a| <= |b| && CeilLog2(|a|) == CeilLog2(|b|)
    requires !NodeCollision(a, b) && RootOf(LeafHashes(a)) == RootOf(LeafHashes(b))
    ensures LeafHashes(a) <= LeafHashes(b)
  {
    CeilLog2IsLeast(|a|);
    CeilLog2IsLeast(|b|);
    PaddedRootsAgree(HashPair, LeafHashes(a), LeafHashes(b));
    TreesAgreeExactly(LeafHashes(a), LeafHashes(b), CeilLog2(|a|));
  }

  /** The entries that spell out one level: the bytes that are hashed into the next one. */
  function Spelled(level: seq<Word>): (entries: seq<seq<Byte>>)
    ensures |entries| == (|level| + 1) / 2
  {
    if |level| == 0 then []
    else if |level| == 1 then [ToBeBytes(level[0]) + ToBeBytes(level[0])]
    else [ToBeBytes(level[0]) + ToBeBytes(level[1])] + Spelled(level[2..])
  }

  lemma {:induction false} HashesOfSpelled(level: seq<Word>)
    ensures LeafHashes(Spelled(level)) == NextLevel(HashPair, level)
  {
    if |level| == 1 {
      assert LeafHashes(Spelled(level))[0] == HashPair(level[0], level[0]);
    } else if |level| > 1 {
      HashesOfSpelled(level[2..]);
      HashesOfOneMore(ToBeBytes(level[0]) + ToBeBytes(level[1]), Spelled(level[2..]));
    }
  }

  lemma HashesOfOneMore(entry: seq<Byte>, entries: seq<seq<Byte>>)
    ensures LeafHashes([entry] + entries) == [HashBytes(entry)] + LeafHashes(entries)
  {}

  /**
    Leaves and inner nodes are hashed alike, so every log of two or more entries has the root of a log half
    as long, the one whose entries spell out its pairs of entry hashes; nowhere in the two trees do
    different pairs collide.
    */
  lemma SpelledLogKeepsRoot(a: seq<seq<Byte>>)
    requires |a| >= 2
    ensures var shorter := Spelled(LeafHashes(a));
            && |shorter| == (|a| + 1) / 2 && CeilLog2(|shorter|) == CeilLog2(|a|) - 1
            && RootOf(LeafHashes(shorter)) == RootOf(LeafHashes(a))
            && LevelUnder(shorter, a) == LeafHashes(shorter)
            && !NodeCollision(a, shorter)
  {
    HashesOfSpelled(LeafHashes(a));
    FirstLevel(HashPair, LeafHashes(a));
  }

  /** For two entries that log has one entry. */
  lemma SpelledPairKeepsRoot(x: seq<Byte>, y: seq<Byte>)
    ensures var one := [ToBeBytes(HashBytes(x)) + ToBeBytes(HashBytes(y))];
            RootOf(LeafHashes(one)) == RootOf(LeafHashes([x, y])) && !NodeCollision([x, y], one)
  {
    assert LeafHashes([x, y]) == [HashBytes(x), HashBytes(y)];
    SpelledLogKeepsRoot([x, y]);
    assert Spelled([HashBytes(x), HashBytes(y)][2..]) == [];
  }

  // ---------------------------------------------------------------- the same in plain text

  /** The bytes of the text "entry 16101". */
  const FIRST_TEXT: seq<Byte> := [0x65, 0x6e, 0x74, 0x72, 0x79, 0x20, 0x31, 0x36, 0x31, 0x30, 0x31]

  /** The bytes of the text "entry 16102". */
  const SECOND_TEXT: seq<Byte> := [0x65, 0x6e, 0x74, 0x72, 0x79, 0x20, 0x31, 0x36, 0x31, 0x30, 0x32]

  /** The bytes of the text "iG<[fXh<iG?[fXmU". */
  const SPELLED_TEXT: seq<Byte> :=
    [0x69, 0x47, 0x3c, 0x5b, 0x66, 0x58, 0x68, 0x3c,
     0x69, 0x47, 0x3f, 0x5b, 0x66, 0x58, 0x6d, 0x55]

  lemma HashOfFirstText()
    ensures HashBytes(FIRST_TEXT) == 0x6947_3c5b_6658_683c
  {
    ForwardIsAbsorb(BASIS, FIRST_TEXT);
  }

  lemma HashOfSecondText()
    ensures HashBytes(SECOND_TEXT) == 0x6947_3f5b_6658_6d55
  {
    ForwardIsAbsorb(BASIS, SECOND_TEXT);
  }

  /** Two logs of printable text, of different lengths, with one root and no collision anywhere. */
  lemma TwoTextLogsWithOneRoot()
    ensures RootOf(LeafHashes([FIRST_TEXT, SECOND_TEXT])) == RootOf(LeafHashes([SPELLED_TEXT]))
    ensures !NodeCollision([FIRST_TEXT, SECOND_TEXT], [SPELLED_TEXT])
  {
    HashOfFirstText();
    HashOfSecondText();
    SpelledPairKeepsRoot(FIRST_TEXT, SECOND_TEXT);
    BytesOfTextHashes();
  }

  lemma BytesOfTextHashes()
    ensures ToBeBytes(0x6947_3c5b_6658_683c) + ToBeBytes(0x6947_3f5b_6658_6d55) == SPELLED_TEXT
  {
    assert ToBeBytes(0x6947_3c5b_6658_683c) == SPELLED_TEXT[..8];
    assert ToBeBytes(0x6947_3f5b_6658_6d55) == SPELLED_TEXT[8..];
  }

  // ---------------------------------------------------------------- two texts with one hash

  /** The bytes of the text "kbmjfcbf". */
  const HONEST_FRONT: seq<Byte> := [0x6b, 0x62, 0x6d, 0x6a, 0x66, 0x63, 0x62, 0x66]

  /** The bytes of the text "dkfcmegi". */
  const HONEST_BACK: seq<Byte> := [0x64, 0x6b, 0x66, 0x63, 0x6d, 0x65, 0x67, 0x69]

  /** The bytes of the text "midgindn". */
  const FORGED_FRONT: seq<Byte> := [0x6d, 0x69, 0x64, 0x67, 0x69, 0x6e, 0x64, 0x6e]

  /** The bytes of the text "ljgooila". */
  const FORGED_BACK: seq<Byte> := [0x6c, 0x6a, 0x67, 0x6f, 0x6f, 0x69, 0x6c, 0x61]

  lemma HashOfHonest()
    ensures HashBytes(HONEST_FRONT + HONEST_BACK) == 0xbbd2_8be8_df4b_787a
  {
    HonestFront();
    HonestBack();
    AbsorbConcat(BASIS, HONEST_FRONT, HONEST_BACK);
  }

  lemma HonestFront()
    ensures Absorb(BASIS, HONEST_FRONT) == 0x8230_b225_55df_30aa
  {
    ForwardIsAbsorb(BASIS, HONEST_FRONT);
  }

  lemma HonestBack()
    ensures Absorb(0x8230_b225_55df_30aa, HONEST_BACK) == 0xbbd2_8be8_df4b_787a
  {
    ForwardIsAbsorb(0x8230_b225_55df_30aa, HONEST_BACK);
  }

  lemma HashOfForged()
    ensures HashBytes(FORGED_FRONT + FORGED_BACK) == 0xbbd2_8be8_df4b_787a
  {
    ForgedFront();
    ForgedBack();
    AbsorbConcat(BASIS, FORGED_FRONT, FORGED_BACK);
  }

  lemma ForgedFront()
    ensures Absorb(BASIS, FORGED_FRONT) == 0x0ff6_aad5_434f_affd
  {
    ForwardIsAbsorb(BASIS, FORGED_FRONT);
  }

  lemma ForgedBack()
    ensures Absorb(0x0ff6_aad5_434f_affd, FORGED_BACK) == 0xbbd2_8be8_df4b_787a
  {
    ForwardIsAbsorb(0x0ff6_aad5_434f_affd, FORGED_BACK);
  }

  /** Only the hashes of the entries reach the root. */
  lemma SameHashSameRoot(a: seq<seq<Byte>>, i: nat, entry: seq<Byte>)
    requires i < |a| && HashBytes(entry) == HashBytes(a[i])
    ensures RootOf(LeafHashes(a[i := entry])) == RootOf(LeafHashes(a))
    ensures entry != a[i] ==> EntryCollision(a, a[i := entry])
  {
    assert LeafHashes(a[i := entry]) == LeafHashes(a);
    assert entry != a[i] ==> a[i := entry][i] != a[i];
  }

  /**
    The collision is not only a way out of the theorem: in every log, at any place, the text "kbmjfcbfdkfcmegi"
    can be replaced by "midgindnljgooila" and the root stays.
    */
  lemma ForgedTextKeepsRoot(a: seq<seq<Byte>>, i: nat)
    requires i < |a| && a[i] == HONEST_FRONT + HONEST_BACK
    ensures var b := a[i := FORGED_FRONT + FORGED_BACK];
            b != a && |b| == |a| && RootOf(LeafHashes(b)) == RootOf(LeafHashes(a)) && EntryCollision(a, b)
  {
    HashOfHonest();
    HashOfForged();
    assert (FORGED_FRONT + FORGED_BACK)[0] != (HONEST_FRONT + HONEST_BACK)[0];
    SameHashSameRoot(a, i, FORGED_FRONT + FORGED_BACK);
  }

  // ---------------------------------------------------------------- what the root does not show

  /**
    Appending. While the tree keeps its height, the root survives exactly when the new entry hashes
    like each of the last 2^k entries, 2^k the largest power of two dividing the length (up to a
    collision inside the two trees); for an odd length that is the last entry alone. When the tree is
    full it grows a level, and the root survives exactly when it is a fixed point of hashing
    it with the tree of the new entry.
    */
  lemma AppendKeepsRootExactly(a: seq<seq<Byte>>, entry: seq<Byte>)
    requires a != []
    ensures var n, before, after := |a|, RootOf(LeafHashes(a)), RootOf(LeafHashes(a + [entry]));
            if n == Pow2(CeilLog2(n))
            then after == HashPair(before, Uniform(HashPair, HashBytes(entry), CeilLog2(n)))
            else NodeCollision(a + [entry], a) || (after == before <==> TailIs(LeafHashes(a), HashBytes(entry)))
  {
    var leaves, h := LeafHashes(a), CeilLog2(|a|);
    assert LeafHashes(a + [entry]) == leaves + [HashBytes(entry)];
    GrowsWhenFull(|a|);
    if |a| == Pow2(h) {
      AppendToFullTree(HashPair, leaves, HashBytes(entry), h);
    } else if !NodeCollision(a + [entry], a) {
      AppendedLeafKeepsRootExactly(HashPair, leaves, HashBytes(entry));
    }
  }

  /** The unconditional half: an odd log of three or more keeps its root when its last entry is repeated. */
  lemma RepeatedLastEntryKeepsRoot(a: seq<seq<Byte>>)
    requires |a| % 2 == 1 && |a| >= 3
    ensures RootOf(LeafHashes(a + [a[|a| - 1]])) == RootOf(LeafHashes(a))
  {
    var front, last := LeafHashes(a[..|a| - 1]), HashBytes(a[|a| - 1]);
    assert LeafHashes(a) == front + [last];
    assert LeafHashes(a + [a[|a| - 1]]) == front + [last, last];
    RepeatedLastNode(HashPair, front, last);
  }
}
