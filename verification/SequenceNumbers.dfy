/** 16-bit wrapping sequence numbers and the unbounded counters they stand for. */
module SequenceNumbers {

  const MODULUS := 0x1_0000
  const MAX_SEQUENCENUM := 0xFFFF

  type U16 = x: int | 0 <= x < 0x1_0000

  predicate GreaterThan(s1: U16, s2: U16) {
    || (s1 > s2 && s1 - s2 <= MAX_SEQUENCENUM / 2 + 1)
    || (s1 < s2 && s2 - s1 > MAX_SEQUENCENUM / 2 + 1)
  }

  function Delta(s1: U16, s2: U16): U16 {
    var delta := s1 - s2;
    if delta < 0 then delta + MAX_SEQUENCENUM + 1 else delta
  }

  function Increment(s: U16): U16 {
    (s + 1) % (MAX_SEQUENCENUM + 1)
  }

  /** The number a counter shows after wrapping to 16 bits. */
  function Wrap(counter: nat): U16 {
    counter % MODULUS
  }

  /** Incrementing the wrapped number follows incrementing the counter. */
  lemma IncrementFollowsCounter(c: nat)
    ensures Increment(Wrap(c)) == Wrap(c + 1) == (c + 1) % 65536
  {
  }

  /** `Delta` is the distance modulo 65536. */
  lemma DeltaOfCounters(a: nat, b: nat)
    ensures Delta(Wrap(a), Wrap(b)) == (a - b) % 65536
  {
    var qa, qb := a / MODULUS, b / MODULUS;
    assert a - b == (Wrap(a) - Wrap(b)) + (qa - qb) * MODULUS;
    ModuloShift(Wrap(a) - Wrap(b), qa - qb);
  }

  lemma ModuloShift(x: int, q: int)
    requires -MODULUS < x < MODULUS
    ensures (x + q * MODULUS) % MODULUS == if x < 0 then x + MODULUS else x
  {
  }

  /** "Later than" in terms of forward distance: exactly half way round, the two
      orders of the operands are told apart by their size. */
  lemma GreaterThanIsForwardDistance(s1: U16, s2: U16)
    ensures GreaterThan(s1, s2) <==>
            1 <= Delta(s1, s2) < MODULUS / 2 || (Delta(s1, s2) == MODULUS / 2 && s1 > s2)
  {
  }

  /** Within half the number space, comparing wrapped numbers is comparing counters. */
  lemma GreaterThanRefinesCounters(a: nat, b: nat)
    requires -(MODULUS / 2) < a - b < MODULUS / 2
    ensures GreaterThan(Wrap(a), Wrap(b)) <==> a > b
    ensures Wrap(a) == Wrap(b) <==> a == b
  {
    DeltaOfCounters(a, b);
    GreaterThanIsForwardDistance(Wrap(a), Wrap(b));
    if a < b {
      ModuloShift(a - b, 0);
    }
  }

  /** Half a turn is the limit of that refinement: there, it holds for some counters and fails for others. */
  lemma HalfTurnIsAmbiguous()
    ensures GreaterThan(Wrap(0x8000), Wrap(0)) && !GreaterThan(Wrap(0x1_0000), Wrap(0x8000))
  {
  }
}
