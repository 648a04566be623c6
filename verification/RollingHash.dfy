/**
 * The weak hash of wsync: computed over a whole block, and rolled one byte at a time, both
 * in wrapping 32-bit arithmetic.
 */
module RollingHash {
  import opened Common

  const MODULUS := 0x1_0000
  const WORD := 0x1_0000_0000

  function Add32(a: int, b: int): int { (a + b) % WORD }
  function Sub32(a: int, b: int): int { (a - b) % WORD }
  function Mul32(a: int, b: int): int { (a * b) % WORD }

  datatype Beta = Beta(hash: int, beta1: int, beta2: int)

  // ----- the unwrapped sums

  function SumOf(s: Bytes): (n: nat) {
    if s == [] then 0 else SumOf(s[..|s| - 1]) + s[|s| - 1]
  }

  /** Every byte weighted by its distance from the end of the block: the sum of the sums of all heads of the block. */
  function WeightedSumOf(s: Bytes): (n: nat) {
    if s == [] then 0 else WeightedSumOf(s[..|s| - 1]) + SumOf(s)
  }

  function BetaFrom(sum: int, weighted: int): Beta {
    Beta(sum % MODULUS + MODULUS * (weighted % MODULUS), sum % MODULUS, weighted % MODULUS)
  }

  function BetaOf(s: Bytes): Beta {
    BetaFrom(SumOf(s), WeightedSumOf(s))
  }

  /**
   * Only ever used to name the bytes a hash is about: it keeps BetaOf from being unfolded
   * where only its identity matters.
   */
  ghost predicate Hashing(s: Bytes) { true }

  lemma SumSnoc(s: Bytes, x: byte)
    ensures SumOf(s + [x]) == SumOf(s) + x
    ensures WeightedSumOf(s + [x]) == WeightedSumOf(s) + SumOf(s) + x
  {
    assert (s + [x])[..|s|] == s;
  }

  lemma {:induction false} SumCons(x: byte, s: Bytes)
    ensures SumOf([x] + s) == x + SumOf(s)
    ensures WeightedSumOf([x] + s) == (|s| + 1) * x + WeightedSumOf(s)
  {
    if s == [] {
      assert [x] + s == [] + [x];
      SumSnoc([], x);
    } else {
      var n := |s| - 1;
      SumCons(x, s[..n]);
      assert [x] + s == ([x] + s[..n]) + [s[n]];
      SumSnoc([x] + s[..n], s[n]);
      assert (|s| + 1) * x == (n + 1) * x + x;
    }
  }

  /** Sliding the window one byte. */
  lemma SumSlides(pop: byte, rest: Bytes, push: byte)
    ensures SumOf(rest + [push]) == SumOf([pop] + rest) - pop + push
    ensures WeightedSumOf(rest + [push]) == WeightedSumOf([pop] + rest) - (|rest| + 1) * pop + SumOf(rest + [push])
  {
    SumSnoc(rest, push);
    SumCons(pop, rest);
  }

  // ----- congruences

  /** MODULUS divides 2^32, so wrapping does not change a value modulo MODULUS. */
  lemma WrapKeepsMod(x: int)
    ensures x % WORD % MODULUS == x % MODULUS
  {
    assert x == x % WORD + x / WORD * 0x1_0000 * MODULUS;
    ModCongruent(x, x % WORD, x / WORD * 0x1_0000, MODULUS);
  }

  lemma AddModWraps(x: int, y: int)
    ensures Add32(x % WORD, y % WORD) == (x + y) % WORD
  {
    ModCongruent(x + y, x % WORD + y % WORD, x / WORD + y / WORD, WORD);
  }

  lemma MulModWraps(c: int, v: int)
    ensures Mul32(c % WORD, v) == c * v % WORD
  {
    assert c * v == (c % WORD) * v + (c / WORD * v) * WORD;
    ModCongruent(c * v, (c % WORD) * v, c / WORD * v, WORD);
  }

  // ----- whole block

  method BetaHash(block: Bytes) returns (beta: Beta)
    ensures beta == BetaOf(block)
  {
    var a, b := 0, 0;
    var i := 0;
    while i < |block|
      invariant 0 <= i <= |block|
      invariant a == (SumOf(block) - SumOf(block[i..])) % WORD
      invariant b == (WeightedSumOf(block) - WeightedSumOf(block[i..])) % WORD
    {
      a := AddPlain(block, i, a);
      b := AddWeighted(block, i, b);
      i := i + 1;
    }
    WrapKeepsMod(SumOf(block));
    WrapKeepsMod(WeightedSumOf(block));
    BetaJoins(a % MODULUS, b % MODULUS);
    beta := Beta(Add32(a % MODULUS, Mul32(MODULUS, b % MODULUS)), a % MODULUS, b % MODULUS);
  }

  lemma BetaJoins(b1: int, b2: int)
    requires 0 <= b1 < MODULUS && 0 <= b2 < MODULUS
    ensures Add32(b1, Mul32(MODULUS, b2)) == b1 + MODULUS * b2
  {
  }

  /** One turn of the plain accumulator. */
  method AddPlain(block: Bytes, i: nat, a: int) returns (a': int)
    requires i < |block| && a == (SumOf(block) - SumOf(block[i..])) % WORD
    ensures a' == (SumOf(block) - SumOf(block[i + 1..])) % WORD
  {
    TailSum(block, i);
    AddModWraps(SumOf(block) - SumOf(block[i..]), block[i]);
    a' := Add32(a, block[i]);
  }

  /** One turn of the weighted accumulator. */
  method AddWeighted(block: Bytes, i: nat, b: int) returns (b': int)
    requires i < |block| && b == (WeightedSumOf(block) - WeightedSumOf(block[i..])) % WORD
    ensures b' == (WeightedSumOf(block) - WeightedSumOf(block[i + 1..])) % WORD
  {
    TailWeightedSum(block, i);
    WeightedStep(WeightedSumOf(block), WeightedSumOf(block[i..]), WeightedSumOf(block[i + 1..]), |block|, i, block[i],
      b);
    b' := BStep(b, |block|, i, block[i]);
  }

  function BStep(b: int, n: int, i: int, v: byte): int {
    Add32(b, Mul32(Add32(Sub32((n - 1) % WORD, i % WORD), 1), v))
  }

  lemma TailSum(block: Bytes, i: nat)
    requires i < |block|
    ensures SumOf(block[i..]) == block[i] + SumOf(block[i + 1..])
  {
    SumCons(block[i], block[i + 1..]);
    assert block[i..] == [block[i]] + block[i + 1..];
  }

  lemma TailWeightedSum(block: Bytes, i: nat)
    requires i < |block|
    ensures WeightedSumOf(block[i..]) == (|block| - i) * block[i] + WeightedSumOf(block[i + 1..])
  {
    SumCons(block[i], block[i + 1..]);
    assert block[i..] == [block[i]] + block[i + 1..];
  }

  lemma WeightedStep(total: int, left: int, left': int, n: nat, i: nat, v: byte, b: int)
    requires i < n && left == (n - i) * v + left' && b == (total - left) % WORD
    ensures BStep(b, n, i, v) == (total - left') % WORD
  {
    WeightWraps(n, i);
    MulModWraps(n - i, v);
    AddModWraps(total - left, (n - i) * v);
  }

  lemma WeightWraps(n: nat, i: nat)
    requires i < n
    ensures Add32(Sub32((n - 1) % WORD, i % WORD), 1) == (n - i) % WORD
  {
    ModCongruent(n - 1 - i, (n - 1) % WORD - i % WORD, (n - 1) / WORD - i / WORD, WORD);
    AddModWraps(n - 1 - i, 1);
  }

  // ----- the hash in closed form

  /** The bytes from i on, added up. */
  function PlainFrom(s: Bytes, i: nat): nat
    decreases |s| - i
  {
    if i >= |s| then 0 else s[i] + PlainFrom(s, i + 1)
  }

  /** The bytes from i on, each as often as there are bytes from it to the end. */
  function WeightedFrom(s: Bytes, i: nat): nat
    decreases |s| - i
  {
    if i >= |s| then 0 else (|s| - i) * s[i] + WeightedFrom(s, i + 1)
  }

  lemma {:induction false} SumsAreTails(s: Bytes, i: nat)
    requires i <= |s|
    ensures SumOf(s[i..]) == PlainFrom(s, i) && WeightedSumOf(s[i..]) == WeightedFrom(s, i)
    decreases |s| - i
  {
    if i < |s| {
      SumsAreTails(s, i + 1);
      TailSum(s, i);
      TailWeightedSum(s, i);
    }
  }

  /** The weak hash: both sums modulo 65536, the weighted one in the upper half of the word. */
  lemma BetaIsSums(s: Bytes)
    ensures var beta := BetaOf(s);
      && beta.beta1 == PlainFrom(s, 0) % 65536 && beta.beta2 == WeightedFrom(s, 0) % 65536
      && beta.hash == beta.beta1 + 65536 * beta.beta2
  {
    SumsAreTails(s, 0);
    assert s[0..] == s;
  }

  // ----- rolling

  /** The update ComputeDiff performs on a window of size n when pop leaves and push enters. */
  function Roll(beta: Beta, n: int, pop: byte, push: byte): Beta {
    var b1 := Add32(Sub32(beta.beta1, pop), push) % MODULUS;
    var b2 := Add32(Sub32(beta.beta2, Mul32(n % WORD, pop)), b1) % MODULUS;
    Beta(Add32(b1, Mul32(MODULUS, b2)), b1, b2)
  }

  lemma RollBeta1(b1: int, s: int, pop: byte, push: byte)
    requires b1 == s % MODULUS
    ensures Add32(Sub32(b1, pop), push) % MODULUS == (s - pop + push) % MODULUS
  {
    AddModWraps(b1 - pop, push);
    WrapKeepsMod(b1 - pop + push);
    ModCongruent(s - pop + push, b1 - pop + push, s / MODULUS, MODULUS);
  }

  lemma RollBeta2(b2: int, w: int, n: int, pop: byte, b1: int, s: int)
    requires b2 == w % MODULUS && b1 == s % MODULUS
    ensures Add32(Sub32(b2, Mul32(n % WORD, pop)), b1) % MODULUS == (w - n * pop + s) % MODULUS
  {
    MulModWraps(n, pop);
    DropAndAdd(b2, w, n * pop, b1, s);
  }

  /** Taking off np and adding s, both wrapped, is the same modulo MODULUS as doing so without wrapping. */
  lemma DropAndAdd(b2: int, w: int, np: int, b1: int, s: int)
    requires b2 == w % MODULUS && b1 == s % MODULUS
    ensures Add32(Sub32(b2, np % WORD), b1) % MODULUS == (w - np + s) % MODULUS
  {
    ModCongruent(b2 - np, b2 - np % WORD, -(np / WORD), WORD);
    assert Sub32(b2, np % WORD) == (b2 - np) % WORD;
    assert b1 % WORD == b1;
    AddModWraps(b2 - np, b1);
    WrapKeepsMod(b2 - np + b1);
    ModCongruent(w - np + s, b2 - np + b1, w / MODULUS + s / MODULUS, MODULUS);
  }

  lemma RollSums(sum: int, weighted: int, n: int, pop: byte, push: byte, sum': int, weighted': int)
    requires sum' == sum - pop + push && weighted' == weighted - n * pop + sum'
    ensures Roll(BetaFrom(sum, weighted), n, pop, push) == BetaFrom(sum', weighted')
  {
    RollBeta1(sum % MODULUS, sum, pop, push);
    RollBeta2(weighted % MODULUS, weighted, n, pop, sum' % MODULUS, sum');
    BetaJoins(sum' % MODULUS, weighted' % MODULUS);
  }

  /** Rolling the hash of a window gives the hash of the next window, wrap-around included. */
  lemma RollIsBetaOf(pop: byte, rest: Bytes, push: byte)
    ensures Roll(BetaOf([pop] + rest), |rest| + 1, pop, push) == BetaOf(rest + [push])
  {
    var window, next := [pop] + rest, rest + [push];
    SumSlides(pop, rest, push);
    RollSums(SumOf(window), WeightedSumOf(window), |rest| + 1, pop, push, SumOf(next), WeightedSumOf(next));
  }
}
