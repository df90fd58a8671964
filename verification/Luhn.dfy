/** The Luhn checksum of ISO/IEC 7812-1 Annex B, and what it detects. */
module Luhn {
  import opened Ints

  predicate IsDigit(c: char) {
    '0' <= c <= '9'
  }

  /** `to_digit(10).unwrap_or(0)`. */
  function DigitValue(c: char): (d: nat)
    ensures d <= 9
  {
    if IsDigit(c) then (c - '0') as nat else 0
  }

  /** What one digit adds: in every second place it is doubled and its digits are added up. */
  function Weight(d: nat, alt: bool): nat
    requires d <= 9
  {
    if !alt then d else if 2 * d > 9 then 2 * d - 9 else 2 * d
  }

  /** The weighted sum from the right; `alt` says whether the last digit is in a doubled place. */
  function Sum(num: string, alt: bool): nat
    decreases |num|
  {
    if num == [] then 0
    else Weight(DigitValue(num[|num| - 1]), alt) + Sum(num[..|num| - 1], !alt)
  }

  predicate Valid(num: string) {
    Sum(num, false) % 10 == 0
  }

  lemma {:induction false} SumIsBounded(num: string, alt: bool)
    ensures Sum(num, alt) <= 9 * |num|
    decreases |num|
  {
    if num != [] {
      SumIsBounded(num[..|num| - 1], !alt);
    }
  }

  lemma WrapsAlike(total: nat, d: nat)
    ensures (total % U32_LIMIT + d) % U32_LIMIT == (total + d) % U32_LIMIT
  {}

  lemma SumSuffix(num: string, alt: bool, i: nat)
    requires 0 < i <= |num|
    ensures Sum(num[..i], alt) == Weight(DigitValue(num[i - 1]), alt) + Sum(num[..i - 1], !alt)
  {
    assert num[..i][..i - 1] == num[..i - 1];
  }

  /** The loop of `luhn`: from the right, with a `u32` accumulator. */
  method WrappedSum(num: string) returns (sum: u32)
    ensures sum == Sum(num, false) % U32_LIMIT
  {
    sum := 0;
    var alt := false;
    var i := |num|;
    ghost var total: nat := 0;
    assert num[..i] == num;
    while i > 0
      invariant 0 <= i <= |num|
      invariant total + Sum(num[..i], alt) == Sum(num, false)
      invariant sum == total % U32_LIMIT
    {
      SumSuffix(num, alt, i);
      var d := Weight(DigitValue(num[i - 1]), alt);
      WrapsAlike(total, d);
      total := total + d;
      sum := WrappingAdd32(sum, d);
      alt := !alt;
      i := i - 1;
    }
  }

  /**
    `luhn`. Up to 19 characters, which is all a card number may have, the sum is at most 171,
    the accumulator cannot wrap and the answer is the checksum.
    */
  method Check(num: string) returns (ok: bool)
    ensures ok <==> (Sum(num, false) % U32_LIMIT) % 10 == 0
    ensures |num| <= 19 ==> Sum(num, false) <= 171 && (ok <==> Valid(num))
    ensures |num| <= 19 ==> (ok <==> AddedUpTo(num, |num|) % 10 == 0)
  {
    SumByPosition(num);
    SumIsBounded(num, false);
    var sum := WrappedSum(num);
    if |num| <= 19 {
      assert sum == Sum(num, false);
    }
    ok := sum % 10 == 0;
  }

  // ---------------------------------------------------------------- positions

  /** The alternation after `n` more places. */
  predicate Flip(alt: bool, n: nat) {
    alt != (n % 2 == 1)
  }

  /** The sum splits at any position; the parity of the right part decides the places of the left one. */
  lemma {:induction false} SumOfConcat(left: string, right: string, alt: bool)
    ensures Sum(left + right, alt) == Sum(right, alt) + Sum(left, Flip(alt, |right|))
    decreases |right|
  {
    if right == [] {
      assert left + right == left;
    } else {
      SumOfConcat(left, right[..|right| - 1], !alt);
      assert (left + right)[..|left + right| - 1] == left + right[..|right| - 1];
    }
  }

  lemma SumOfOne(c: char, alt: bool)
    ensures Sum([c], alt) == Weight(DigitValue(c), alt)
  {
    assert [c][..0] == [];
  }

  lemma SumOfTwo(c: char, d: char, alt: bool)
    ensures Sum([c, d], alt) == Weight(DigitValue(d), alt) + Weight(DigitValue(c), !alt)
  {
    assert [c, d][..1] == [c];
    SumOfOne(c, !alt);
  }

  /** Whether the place with `n` digits to its right is doubled. */
  predicate IsDoubled(n: nat) {
    Flip(false, n)
  }

  /** The sum of everything but a middle part of length `k`. */
  function Rest(left: string, right: string, k: nat): nat {
    Sum(right, false) + Sum(left, Flip(Flip(false, |right|), k))
  }

  /** Replacing a middle part changes the sum by that part alone. */
  lemma SumAround(left: string, part: string, right: string)
    ensures Sum(left + part + right, false) == Rest(left, right, |part|) + Sum(part, IsDoubled(|right|))
  {
    SumOfConcat(left + part, right, false);
    SumOfConcat(left, part, IsDoubled(|right|));
  }

  /** A digit is worth what it says, and anything else nothing. */
  lemma DigitValueIs(c: char)
    ensures IsDigit(c) ==> c as int == '0' as int + DigitValue(c)
    ensures !IsDigit(c) ==> DigitValue(c) == 0
  {}

  /** The doubled place adds the decimal digits of the double. */
  lemma WeightIsDigitSum(d: nat)
    requires d <= 9
    ensures Weight(d, true) == (2 * d) / 10 + (2 * d) % 10
    ensures Weight(d, false) == d
  {}

  /** What the character at position `i` adds: doubled places are those an odd number of places from the right. */
  function Added(num: string, i: nat): nat
    requires i < |num|
  {
    var d := DigitValue(num[i]);
    if (|num| - 1 - i) % 2 == 1 then (2 * d) / 10 + (2 * d) % 10 else d
  }

  /** What the first `n` positions add, from the left. */
  function AddedUpTo(num: string, n: nat): nat
    requires n <= |num|
  {
    if n == 0 then 0 else AddedUpTo(num, n - 1) + Added(num, n - 1)
  }

  /** The sum taken from the right with an alternating flag is the sum over positions. */
  lemma SumByPosition(num: string)
    ensures Sum(num, false) == AddedUpTo(num, |num|)
  {
    assert num[..|num|] == num;
    PrefixByPosition(num, |num|);
  }

  lemma {:induction false} PrefixByPosition(num: string, n: nat)
    requires n <= |num|
    ensures Sum(num[..n], (|num| - n) % 2 == 1) == AddedUpTo(num, n)
  {
    if n > 0 {
      PrefixByPosition(num, n - 1);
      SumSuffix(num, (|num| - n) % 2 == 1, n);
      WeightIsDigitSum(DigitValue(num[n - 1]));
    }
  }

  function Ones(n: nat): string {
    seq(n, _ => '1')
  }

  /** The well-known test number. */
  const TEST_CARD := ['4'] + Ones(15)

  lemma {:induction false} SumOfOnes(n: nat, alt: bool)
    ensures Sum(Ones(n), alt) == 3 * (n / 2) + if n % 2 == 0 then 0 else if alt then 2 else 1
  {
    if n > 0 {
      assert Ones(n)[..n - 1] == Ones(n - 1);
      SumOfOnes(n - 1, !alt);
    }
  }

  lemma TestCardIsValid()
    ensures TEST_CARD == "4111111111111111"
    ensures Sum(TEST_CARD, false) == 30 && Valid(TEST_CARD)
  {
    SumOfConcat(['4'], Ones(15), false);
    SumOfOnes(15, false);
    SumOfOne('4', true);
  }

  // ---------------------------------------------------------------- error detection

  /** Every change of a single digit is detected. */
  lemma SingleDigitChangeDetected(num: string, i: nat, c: char)
    requires i < |num| && IsDigit(num[i]) && IsDigit(c) && Valid(num)
    ensures Valid(num[i := c]) <==> c == num[i]
  {
    var left, right := num[..i], num[i + 1..];
    assert num == left + [num[i]] + right;
    assert num[i := c] == left + [c] + right;
    SumAround(left, [num[i]], right);
    SumAround(left, [c], right);
    SumOfOne(num[i], IsDoubled(|right|));
    SumOfOne(c, IsDoubled(|right|));
    WeightsDistinct(Rest(left, right, 1), DigitValue(c), DigitValue(num[i]), IsDoubled(|right|));
  }

  lemma WeightsDistinct(rest: nat, c: nat, d: nat, alt: bool)
    requires c <= 9 && d <= 9
    ensures (rest + Weight(c, alt)) % 10 == (rest + Weight(d, alt)) % 10 <==> c == d
  {
    assert 0 <= Weight(c, alt) <= 9 && 0 <= Weight(d, alt) <= 9;
    assert Weight(c, alt) == Weight(d, alt) <==> c == d;
    CongruentSums(rest, Weight(c, alt), Weight(d, alt));
  }

  function Swapped(num: string, i: nat): string
    requires i + 1 < |num|
  {
    num[..i] + [num[i + 1], num[i]] + num[i + 2..]
  }

  /** Swapping two neighbouring digits goes undetected exactly when they are equal or are 0 and 9. */
  lemma TranspositionDetectedExactly(num: string, i: nat)
    requires i + 1 < |num| && IsDigit(num[i]) && IsDigit(num[i + 1]) && Valid(num)
    ensures Valid(Swapped(num, i))
       <==> num[i] == num[i + 1] || (num[i] == '0' && num[i + 1] == '9') || (num[i] == '9' && num[i + 1] == '0')
  {
    var left, right := num[..i], num[i + 2..];
    var c, d := num[i], num[i + 1];
    assert num == left + [c, d] + right;
    SumAround(left, [c, d], right);
    SumAround(left, [d, c], right);
    SumOfTwo(c, d, IsDoubled(|right|));
    SumOfTwo(d, c, IsDoubled(|right|));
    SwappedWeights(Rest(left, right, 2), DigitValue(c), DigitValue(d), IsDoubled(|right|));
    DigitValueInjective(c, d);
  }

  lemma DigitValueInjective(c: char, d: char)
    requires IsDigit(c) && IsDigit(d)
    ensures DigitValue(c) == DigitValue(d) <==> c == d
    ensures DigitValue(c) == 0 <==> c == '0'
    ensures DigitValue(c) == 9 <==> c == '9'
    ensures DigitValue(d) == 0 <==> d == '0'
    ensures DigitValue(d) == 9 <==> d == '9'
  {}

  lemma SwappedWeights(rest: nat, c: nat, d: nat, alt: bool)
    requires c <= 9 && d <= 9
    ensures (rest + (Weight(d, alt) + Weight(c, !alt))) % 10 == (rest + (Weight(c, alt) + Weight(d, !alt))) % 10
       <==> c == d || (c == 0 && d == 9) || (c == 9 && d == 0)
  {
    CongruentSums(rest, Weight(d, alt) + Weight(c, !alt), Weight(c, alt) + Weight(d, !alt));
    WeightDifference(c, d);
  }

  lemma WeightDifference(c: nat, d: nat)
    requires c <= 9 && d <= 9
    ensures -9 <= (Weight(d, true) + c) - (Weight(c, true) + d) <= 9
    ensures Weight(d, true) + c == Weight(c, true) + d <==> c == d || (c == 0 && d == 9) || (c == 9 && d == 0)
  {}

  lemma CongruentSums(rest: nat, x: nat, y: nat)
    requires -9 <= x - y <= 9
    ensures (rest + x) % 10 == (rest + y) % 10 <==> x == y
  {}

  /** The digit that completes `num`. */
  function CheckDigit(num: string): nat {
    (10 - Sum(num, true) % 10) % 10
  }

  /** A digit string is completed by its check digit and by no other digit. */
  lemma ExactlyOneCheckDigit(num: string, c: char)
    requires IsDigit(c)
    ensures CheckDigit(num) <= 9
    ensures Valid(num + [c]) <==> DigitValue(c) == CheckDigit(num)
  {
    assert Sum(num + [c], false) == DigitValue(c) + Sum(num, true) by {
      SumOfConcat(num, [c], false);
      SumOfOne(c, false);
    }
    CompletesToTen(DigitValue(c), Sum(num, true));
  }

  lemma CompletesToTen(v: nat, total: nat)
    requires v <= 9
    ensures (v + total) % 10 == 0 <==> v == (10 - total % 10) % 10
  {}

  /** Zeros in front change nothing. */
  lemma LeadingZerosDoNotMatter(zeros: string, num: string)
    requires forall i :: 0 <= i < |zeros| ==> zeros[i] == '0'
    ensures Valid(zeros + num) <==> Valid(num)
  {
    SumOfConcat(zeros, num, false);
    SumOfZeros(zeros, Flip(false, |num|));
  }

  lemma {:induction false} SumOfZeros(zeros: string, alt: bool)
    requires forall i :: 0 <= i < |zeros| ==> zeros[i] == '0'
    ensures Sum(zeros, alt) == 0
    decreases |zeros|
  {
    if zeros != [] {
      SumOfZeros(zeros[..|zeros| - 1], !alt);
    }
  }
}
