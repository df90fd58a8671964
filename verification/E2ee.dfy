/** The end-to-end encryption contract of sync, over the repository's keystream stand-in. */
module E2ee {
  import opened Fnv

  type Key = bytes: seq<Byte> | |bytes| == 32 witness seq(32, _ => 0)
  type Nonce = bytes: seq<Byte> | |bytes| == 24 witness seq(24, _ => 0)

  datatype SealedRecord = SealedRecord(nonce: Nonce, ciphertext: seq<Byte>)

  /** The loop index `i as u64`, counting up from zero. */
  function Index(i: nat): Word {
    if i == 0 then 0 else Index(i - 1) + 1
  }

  function Index8(i: nat): Byte {
    if i == 0 then 0 else Index8(i - 1) + 1
  }

  // ---------------------------------------------------------------- key derivation

  function DerivedByte(secret: seq<Byte>, index: Word): Byte {
    Low(Absorb(BASIS ^ index, secret))
  }

  method DeriveByte(secret: seq<Byte>, index: Word) returns (b: Byte)
    ensures b == DerivedByte(secret, index)
  {
    var h := AbsorbAll(BASIS ^ index, secret);
    b := Low(h);
  }

  function DerivedKey(secret: seq<Byte>): Key {
    seq(32, i requires 0 <= i < 32 => DerivedByte(secret, Index(i)))
  }

  /** `UserKey::derive`: fills the key byte by byte. */
  method Derive(passphrase: seq<Byte>, salt: seq<Byte>) returns (key: Key)
    ensures key == DerivedKey(passphrase + salt)
    ensures forall i :: 0 <= i < 32 ==> key[i] == Absorb8(Low(BASIS) ^ Index8(i), passphrase + salt)
    ensures forall i, j :: 0 <= i < j < 32 ==> key[i] != key[j]
  {
    ghost var expected := DerivedKey(passphrase + salt);
    var bytes := new Byte[32](_ => 0);
    var index: Word := 0;
    for i := 0 to bytes.Length
      invariant index == Index(i)
      invariant bytes[..i] == expected[..i]
    {
      var b := DeriveByte(passphrase + salt, index);
      assert b == expected[i];
      bytes[i] := b;
      index := index + 1;
    }
    key := bytes[..];
    forall i | 0 <= i < 32
      ensures key[i] == Absorb8(Low(BASIS) ^ Index8(i), passphrase + salt)
    {
      DerivedKeyAt(passphrase + salt, i);
    }
    forall i, j | 0 <= i < j < 32
      ensures key[i] != key[j]
    {
      DerivedBytesDiffer(passphrase + salt, i, j);
    }
  }

  // ---------------------------------------------------------------- the keystream

  /** The keystream byte for position `i`: a hash of key, nonce and counter. */
  function KeystreamByte(key: Key, nonce: Nonce, i: nat): Byte {
    Low(Step(Absorb(BASIS, key + nonce), Index(i)))
  }

  function Xored(key: Key, nonce: Nonce, data: seq<Byte>): (out: seq<Byte>)
    ensures |out| == |data|
  {
    seq(|data|, i requires 0 <= i < |data| => data[i] ^ KeystreamByte(key, nonce, i))
  }

  /** `keystream_xor`, which hashes key and nonce afresh for every byte. */
  method KeystreamXor(key: Key, nonce: Nonce, data: seq<Byte>) returns (out: seq<Byte>)
    ensures out == Xored(key, nonce, data)
  {
    out := [];
    var index: Word := 0;
    for i := 0 to |data|
      invariant |out| == i && index == Index(i)
      invariant forall j :: 0 <= j < i ==> out[j] == data[j] ^ KeystreamByte(key, nonce, j)
    {
      var h := AbsorbAll(BASIS, key + nonce);
      h := Step(h, index);
      out := out + [data[i] ^ Low(h)];
      index := index + 1;
    }
  }

  function Seal(key: Key, nonce: Nonce, plaintext: seq<Byte>): SealedRecord {
    SealedRecord(nonce, Xored(key, nonce, plaintext))
  }

  function Open(key: Key, record: SealedRecord): seq<Byte> {
    Xored(key, record.nonce, record.ciphertext)
  }

  lemma XorTwice(x: Byte, k: Byte)
    ensures (x ^ k) ^ k == x
  {}

  lemma XoredTwice(key: Key, nonce: Nonce, data: seq<Byte>)
    ensures Xored(key, nonce, Xored(key, nonce, data)) == data
  {
    var once := Xored(key, nonce, data);
    forall i | 0 <= i < |data|
      ensures Xored(key, nonce, once)[i] == data[i]
    {
      XorTwice(data[i], KeystreamByte(key, nonce, i));
    }
  }

  /** Opening undoes sealing and sealing undoes opening, for every key, nonce and length. */
  lemma OpenAndSealAreInverse(key: Key, nonce: Nonce, plaintext: seq<Byte>, record: SealedRecord)
    ensures Open(key, Seal(key, nonce, plaintext)) == plaintext
    ensures Seal(key, record.nonce, Open(key, record)) == record
  {
    XoredTwice(key, nonce, plaintext);
    XoredTwice(key, record.nonce, record.ciphertext);
  }

  // ---------------------------------------------------------------- the fast form

  /** One pass over the data with a running counter. */
  function XoredFast(pad: nat -> Byte, index: nat, data: seq<Byte>): (out: seq<Byte>)
    ensures |out| == |data|
    decreases |data|
  {
    if data == [] then [] else [data[0] ^ pad(index)] + XoredFast(pad, index + 1, data[1..])
  }

  lemma LowOfNext(x: Word)
    ensures Low(x + 1) == Low(x) + 1
  {}

  lemma {:induction false} LowOfIndex(i: nat)
    ensures Low(Index(i)) == Index8(i)
  {
    if i > 0 {
      LowOfIndex(i - 1);
      LowOfNext(Index(i - 1));
    }
  }

  lemma KeystreamInBytes(key: Key, nonce: Nonce, i: nat)
    ensures KeystreamByte(key, nonce, i) == Step8(Absorb8(Low(BASIS), key + nonce), Index8(i))
  {
    LowOfStep(Absorb(BASIS, key + nonce), Index(i));
    LowOfAbsorb(BASIS, key + nonce);
    LowOfIndex(i);
  }

  lemma {:induction false} XoredFastAt(pad: nat -> Byte, start: nat, data: seq<Byte>, i: nat)
    requires i < |data|
    ensures XoredFast(pad, start, data)[i] == data[i] ^ pad(start + i)
    decreases |data|
  {
    if i > 0 {
      XoredFastAt(pad, start + 1, data[1..], i - 1);
    }
  }

  /** The pad of the fast form: one round of 8-bit arithmetic on top of one hash of key and nonce. */
  function FastPad(key: Key, nonce: Nonce): nat -> Byte {
    var state := Absorb8(Low(BASIS), key + nonce);
    (i: nat) => Step8(state, Index8(i))
  }

  /**
    Hashing key and nonce once and doing one 8-bit round per byte gives the ciphertext of
    the nested 64-bit loops.
    */
  lemma FastFormAgrees(key: Key, nonce: Nonce, data: seq<Byte>)
    ensures XoredFast(FastPad(key, nonce), 0, data) == Xored(key, nonce, data)
  {
    forall i | 0 <= i < |data|
      ensures XoredFast(FastPad(key, nonce), 0, data)[i] == Xored(key, nonce, data)[i]
    {
      XoredFastAt(FastPad(key, nonce), 0, data, i);
      KeystreamInBytes(key, nonce, i);
    }
  }

  /** The derived key, likewise, in 8-bit arithmetic. */
  lemma DerivedInBytes(secret: seq<Byte>, i: nat)
    ensures DerivedByte(secret, Index(i)) == Absorb8(Low(BASIS) ^ Index8(i), secret)
  {
    LowOfAbsorb(BASIS ^ Index(i), secret);
    LowOfXor(BASIS, Index(i));
    LowOfIndex(i);
  }

  // ---------------------------------------------------------------- what stands at each place

  /** The key, place by place: the start is the basis with the place xored in. */
  lemma DerivedKeyAt(secret: seq<Byte>, i: nat)
    requires i < 32
    ensures DerivedKey(secret)[i] == Absorb8(Low(BASIS) ^ Index8(i), secret)
  {
    DerivedInBytes(secret, i);
  }

  lemma Step8Injective(h: Byte, g: Byte, x: Byte)
    requires Step8(h, x) == Step8(g, x)
    ensures h == g
  {
    Times8Injective(h ^ x, g ^ x);
    assert (h ^ x) ^ x == h && (g ^ x) ^ x == g;
  }

  lemma Times8Injective(x: Byte, y: Byte)
    requires x * 0xb3 == y * 0xb3
    ensures x == y
  {
    assert (x * 0xb3) * 0x7b == x && (y * 0xb3) * 0x7b == y;
  }

  lemma {:induction false} Absorb8Injective(h: Byte, g: Byte, data: seq<Byte>)
    ensures Absorb8(h, data) == Absorb8(g, data) <==> h == g
    decreases |data|
  {
    if data != [] {
      var front := data[..|data| - 1];
      Absorb8Injective(h, g, front);
      if Absorb8(h, data) == Absorb8(g, data) {
        Step8Injective(Absorb8(h, front), Absorb8(g, front), data[|data| - 1]);
      }
    }
  }

  lemma NextByte(b: Byte)
    ensures (b + 1) as int == if b as int == 255 then 0 else b as int + 1
  {}

  lemma NextRemainder(i: nat)
    ensures (i + 1) % 256 == if i % 256 == 255 then 0 else i % 256 + 1
  {}

  /** The index in eight bits is the number itself, reduced. */
  lemma {:induction false} Index8Is(i: nat)
    ensures Index8(i) as int == i % 256
  {
    if i > 0 {
      Index8Is(i - 1);
      NextByte(Index8(i - 1));
      NextRemainder(i - 1);
    }
  }

  lemma SameIndex8(i: nat, j: nat)
    ensures Index8(i) == Index8(j) <==> i % 256 == j % 256
  {
    Index8Is(i);
    Index8Is(j);
    SameByte(Index8(i), Index8(j));
  }

  lemma SameByte(x: Byte, y: Byte)
    ensures x == y <==> x as int == y as int
  {}

  lemma XorInjective8(b: Byte, x: Byte, y: Byte)
    ensures b ^ x == b ^ y <==> x == y
  {}

  /** No two bytes of a derived key are equal, whatever the passphrase and the salt. */
  lemma DerivedBytesDiffer(secret: seq<Byte>, i: nat, j: nat)
    requires i < j < 32
    ensures DerivedKey(secret)[i] != DerivedKey(secret)[j]
  {
    DerivedKeyAt(secret, i);
    DerivedKeyAt(secret, j);
    SameIndex8(i, j);
    XorInjective8(Low(BASIS), Index8(i), Index8(j));
    Absorb8Injective(Low(BASIS) ^ Index8(i), Low(BASIS) ^ Index8(j), secret);
  }

  lemma Step8InjectiveInInput(h: Byte, x: Byte, y: Byte)
    requires Step8(h, x) == Step8(h, y)
    ensures x == y
  {
    Times8Injective(h ^ x, h ^ y);
    XorInjective8(h, x, y);
  }

  /** The keystream goes on counting and repeats exactly after 256 positions. */
  lemma KeystreamRepeatsExactly(key: Key, nonce: Nonce, i: nat, j: nat)
    ensures KeystreamByte(key, nonce, i) == KeystreamByte(key, nonce, j) <==> i % 256 == j % 256
  {
    KeystreamInBytes(key, nonce, i);
    KeystreamInBytes(key, nonce, j);
    SameIndex8(i, j);
    if KeystreamByte(key, nonce, i) == KeystreamByte(key, nonce, j) {
      Step8InjectiveInInput(Absorb8(Low(BASIS), key + nonce), Index8(i), Index8(j));
    }
  }
}
