/**
  The 64-bit FNV-1a hash used by the audit log and by the sync cipher stand-in.
  Words are `u64` with wrap-around multiplication, which is what `bv64` gives.
  */
module Fnv {

  type Byte = bv8
  type Word = bv64

  const BASIS: Word := 1469598103934665603

  /** The wrapping product with the FNV prime. */
  function Mix(y: Word): Word {
    y * 1099511628211
  }

  /** The wrapping product with the inverse of the FNV prime modulo 2^64. */
  function Unmix(y: Word): Word {
    y * 0xce96_5057_aff6_957b
  }

  /** One round: xor the input in, then multiply. */
  function Step(h: Word, x: Word): Word {
    Mix(h ^ x)
  }

  /** The state after absorbing `data`, starting in state `h`. */
  function Absorb(h: Word, data: seq<Byte>): Word
    decreases |data|
  {
    if data == [] then h
    else Step(Absorb(h, data[..|data| - 1]), data[|data| - 1] as Word)
  }

  function HashBytes(data: seq<Byte>): Word {
    Absorb(BASIS, data)
  }

  // ---------------------------------------------------------------- the round is a bijection

  lemma UnmixMix(y: Word)
    ensures Unmix(Mix(y)) == y
  {
    assert Unmix(y * 1099511628211) == y;
  }

  lemma MixUnmix(y: Word)
    ensures Mix(Unmix(y)) == y
  {
    assert Mix(y * 0xce96_5057_aff6_957b) == y;
  }

  lemma XorCancel(k: Word, x: Word, y: Word)
    requires k ^ x == k ^ y
    ensures x == y
  {}

  lemma MixInjective(x: Word, y: Word)
    requires Mix(x) == Mix(y)
    ensures x == y
  {
    UnmixMix(x);
    UnmixMix(y);
  }

  lemma StepInjectiveInState(h: Word, g: Word, x: Word)
    requires Step(h, x) == Step(g, x)
    ensures h == g
  {
    MixInjective(h ^ x, g ^ x);
  }

  lemma StepInjectiveInInput(h: Word, x: Word, y: Word)
    requires Step(h, x) == Step(h, y)
    ensures x == y
  {
    MixInjective(h ^ x, h ^ y);
    XorCancel(h, x, y);
  }

  lemma StepOfXor(y: Word, x: Word)
    ensures Step(y ^ x, x) == Mix(y)
  {
    assert (y ^ x) ^ x == y;
  }

  lemma MixOnto(h: Word)
    ensures exists y :: Mix(y) == h
  {
    MixUnmix(h);
  }

  lemma StepPreimage(h: Word, x: Word, y: Word)
    requires Mix(y) == h
    ensures exists g :: Step(g, x) == h
  {
    StepOfXor(y, x);
  }

  /** For every input the round permutes the 2^64 states: each state has exactly one predecessor. */
  lemma StepIsBijection(h: Word, x: Word)
    ensures exists g :: Step(g, x) == h
    ensures forall g, g' :: Step(g, x) == h && Step(g', x) == h ==> g == g'
  {
    MixOnto(h);
    var y :| Mix(y) == h;
    StepPreimage(h, x, y);
    forall g, g' | Step(g, x) == h && Step(g', x) == h
      ensures g == g'
    {
      StepInjectiveInState(g, g', x);
    }
  }

  // ---------------------------------------------------------------- whole strings

  lemma {:induction false} AbsorbConcat(h: Word, a: seq<Byte>, b: seq<Byte>)
    ensures Absorb(h, a + b) == Absorb(Absorb(h, a), b)
    decreases |b|
  {
    if b == [] {
      assert a + b == a;
    } else {
      AbsorbConcat(h, a, b[..|b| - 1]);
      assert (a + b)[..|a + b| - 1] == a + b[..|b| - 1];
    }
  }

  /** One turn of the hashing loop. */
  lemma AbsorbNext(h: Word, data: seq<Byte>, i: nat)
    requires i < |data|
    ensures Absorb(h, data[..i + 1]) == Step(Absorb(h, data[..i]), data[i] as Word)
  {
    assert data[..i + 1][..i] == data[..i];
  }

  /** The hashing loop, which the sources write out wherever they hash. */
  method AbsorbAll(start: Word, data: seq<Byte>) returns (h: Word)
    ensures h == Absorb(start, data)
  {
    h := start;
    for i := 0 to |data|
      invariant h == Absorb(start, data[..i])
    {
      AbsorbNext(start, data, i);
      h := Step(h, data[i] as Word);
    }
    assert data[..|data|] == data;
  }

  /** Absorbing a fixed string permutes the states. */
  lemma {:induction false} AbsorbInjectiveInState(h: Word, g: Word, data: seq<Byte>)
    ensures Absorb(h, data) == Absorb(g, data) <==> h == g
    decreases |data|
  {
    if data != [] {
      var front := data[..|data| - 1];
      AbsorbInjectiveInState(h, g, front);
      if Absorb(h, data) == Absorb(g, data) {
        StepInjectiveInState(Absorb(h, front), Absorb(g, front), data[|data| - 1] as Word);
      }
    }
  }

  /** A common suffix can be cancelled from, or added to, any hash equality. */
  lemma CommonSuffixCancels(a: seq<Byte>, b: seq<Byte>, suffix: seq<Byte>)
    ensures HashBytes(a + suffix) == HashBytes(b + suffix) <==> HashBytes(a) == HashBytes(b)
  {
    AbsorbConcat(BASIS, a, suffix);
    AbsorbConcat(BASIS, b, suffix);
    AbsorbInjectiveInState(HashBytes(a), HashBytes(b), suffix);
  }

  lemma WidenInjective(x: Byte, y: Byte)
    requires x as Word == y as Word
    ensures x == y
  {}

  lemma AbsorbSingle(h: Word, x: Byte)
    ensures Absorb(h, [x]) == Step(h, x as Word)
  {
    assert [x][..0] == [];
    assert Absorb(h, [x][..0]) == h;
  }

  /** The state after absorbing `data`, read from its first byte on. */
  function AbsorbForward(h: Word, data: seq<Byte>): Word
    decreases |data|
  {
    if data == [] then h else AbsorbForward(Step(h, data[0] as Word), data[1..])
  }

  lemma {:induction false} ForwardIsAbsorb(h: Word, data: seq<Byte>)
    ensures AbsorbForward(h, data) == Absorb(h, data)
    decreases |data|
  {
    if data != [] {
      AbsorbSingle(h, data[0]);
      ForwardIsAbsorb(Absorb(h, [data[0]]), data[1..]);
      AbsorbConcat(h, [data[0]], data[1..]);
      assert [data[0]] + data[1..] == data;
    }
  }

  lemma AbsorbSingleInjective(h: Word, x: Byte, y: Byte)
    ensures Absorb(h, [x]) == Absorb(h, [y]) <==> x == y
  {
    if Absorb(h, [x]) == Absorb(h, [y]) {
      AbsorbSingle(h, x);
      AbsorbSingle(h, y);
      StepInjectiveInInput(h, x as Word, y as Word);
      WidenInjective(x, y);
    }
  }

  /** Changing exactly one byte of a string, without changing its length, always changes its hash. */
  lemma SingleByteChangeDetected(data: seq<Byte>, i: nat, x: Byte)
    requires i < |data|
    ensures HashBytes(data[i := x]) == HashBytes(data) <==> x == data[i]
  {
    var prefix, suffix := data[..i], data[i + 1..];
    assert data == (prefix + [data[i]]) + suffix;
    assert data[i := x] == (prefix + [x]) + suffix;
    CommonSuffixCancels(prefix + [x], prefix + [data[i]], suffix);
    AbsorbConcat(BASIS, prefix, [x]);
    AbsorbConcat(BASIS, prefix, [data[i]]);
    AbsorbSingleInjective(Absorb(BASIS, prefix), x, data[i]);
  }

  // ---------------------------------------------------------------- the low byte

  /** The cast `(h & 0xff) as u8`. */
  function Low(h: Word): Byte {
    (h & 0xff) as Byte
  }

  /** The same round in 8-bit arithmetic; 0xb3 is the low byte of the FNV prime. */
  function Step8(h: Byte, x: Byte): Byte {
    (h ^ x) * 0xb3
  }

  function Absorb8(h: Byte, data: seq<Byte>): Byte
    decreases |data|
  {
    if data == [] then h
    else Step8(Absorb8(h, data[..|data| - 1]), data[|data| - 1])
  }

  lemma LowOfWidened(x: Byte)
    ensures Low(x as Word) == x
  {}

  lemma LowOfMix(y: Word)
    ensures Low(Mix(y)) == Low(y) * 0xb3
  {
    assert ((y * 1099511628211) & 0xff) as Byte == ((y & 0xff) as Byte) * 0xb3;
  }

  lemma LowOfXor(x: Word, y: Word)
    ensures Low(x ^ y) == Low(x) ^ Low(y)
  {}

  lemma LowOfStep(h: Word, x: Word)
    ensures Low(Step(h, x)) == Step8(Low(h), Low(x))
  {
    LowOfXor(h, x);
    LowOfMix(h ^ x);
  }

  /** The low byte of the hash can be computed in 8-bit arithmetic throughout. */
  lemma {:induction false} LowOfAbsorb(h: Word, data: seq<Byte>)
    ensures Low(Absorb(h, data)) == Absorb8(Low(h), data)
    decreases |data|
  {
    if data != [] {
      var front := data[..|data| - 1];
      LowOfAbsorb(h, front);
      LowOfStep(Absorb(h, front), data[|data| - 1] as Word);
      LowOfWidened(data[|data| - 1]);
    }
  }
}
