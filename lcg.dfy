/** The linear-congruential generator both fasta programs draw their random values from. */
module Lcg {

  /** Modulus, multiplier and increment of the recurrence, and the start seed. */
  const IM: nat := 139968
  const IA: nat := 3877
  const IC: nat := 29573
  const InitialSeed: nat := 42

  /** A value the generator can produce. */
  type Value = v: nat | v < IM

  /** One more than the largest UInt32. */
  const UInt32Limit: nat := 0x1_0000_0000

  /** One step of the recurrence: the new seed, which is also the value returned. */
  function Next(seed: nat): (r: nat)
    ensures r < IM
  {
    (seed * IA + IC) % IM
  }

  /** The seed after `n` steps. */
  function Iterate(seed: nat, n: nat): (r: nat)
    ensures n > 0 ==> r < IM
  {
    if n == 0 then seed else Next(Iterate(seed, n - 1))
  }

  /** The `n` successive values produced from `seed`, oldest first. */
  function Stream(seed: nat, n: nat): (r: seq<Value>)
    ensures |r| == n
  {
    if n == 0 then [] else Stream(seed, n - 1) + [Next(Iterate(seed, n - 1))]
  }

  /** Value i of the stream is the seed after i + 1 steps; in particular the last value
      of a non-empty stream is the seed the generator is left with. */
  lemma {:induction false} StreamAt(seed: nat, n: nat, i: nat)
    requires i < n
    ensures Stream(seed, n)[i] == Iterate(seed, i + 1)
  {
    if i < n - 1 {
      StreamAt(seed, n - 1, i);
    }
  }

  /** Stepping `a` then `b` times is stepping `a + b` times. */
  lemma {:induction false} IterateAdd(seed: nat, a: nat, b: nat)
    ensures Iterate(Iterate(seed, a), b) == Iterate(seed, a + b)
  {
    if b > 0 {
      IterateAdd(seed, a, b - 1);
    }
  }

  /** A stream of `a + b` values is the first `a` values followed by the stream that
      continues from the seed they leave behind: a generator that is paused and resumed
      (as the second random section resumes the first one) produces the same values. */
  lemma {:induction false} StreamSplit(seed: nat, a: nat, b: nat)
    ensures Stream(seed, a + b) == Stream(seed, a) + Stream(Iterate(seed, a), b)
  {
    if b > 0 {
      StreamSplit(seed, a, b - 1);
      IterateAdd(seed, a, b - 1);
    }
  }

  /** From the start seed the first value is 52439. */
  lemma FirstValue()
    ensures Next(InitialSeed) == 52439
    ensures Stream(InitialSeed, 1) == [52439]
  {
  }

  /** With a seed below IM, `seed * IA + IC` stays below 2^32: the UInt32 arithmetic of
      the source never overflows. */
  lemma NoOverflow(seed: nat)
    requires seed < IM
    ensures seed * IA + IC < UInt32Limit
  {
  }
}
