/** The acknowledgement a packet carries: the last number seen and a 16-bit history. */
module Acks {
  import opened SequenceNumbers
  import Bits

  /** `1 << (delta - 1)` kept to 16 bits: distances past 16 contribute nothing. */
  function HistoryBit(delta: nat): U16 {
    if 1 <= delta <= 16 then
      (Bits.SixteenBits(); Bits.OneGrows(delta - 1, 16); Bits.One(delta - 1))
    else 0
  }

  /** That is what 16 bits keep of the power of two. */
  lemma {:induction false} HistoryBitIsTruncatedShift(delta: nat)
    requires delta >= 1
    ensures HistoryBit(delta) == Bits.One(delta - 1) % MODULUS
  {
    Bits.SixteenBits();
    if delta <= 16 {
      Bits.OneGrows(delta - 1, 16);
    } else if delta > 17 {
      HistoryBitIsTruncatedShift(delta - 1);
      DoubledMultiple(Bits.One(delta - 2));
    }
  }

  lemma DoubledMultiple(n: nat)
    requires n % MODULUS == 0
    ensures 2 * n % MODULUS == 0
  {
  }

  /** The history field with received number `n` marked in it. */
  function Mark(bits: U16, remote: U16, n: U16): U16 {
    if GreaterThan(remote, n) then
      var bit := HistoryBit(Delta(remote, n));
      (Bits.SixteenBits(); Bits.OrStaysBelow(bits, bit, 16); Bits.Or(bits, bit))
    else bits
  }

  /** The history field for a receiver whose latest number is `remote` and whose
      receive list holds the numbers `rx`. */
  function History(remote: U16, rx: seq<U16>): U16 {
    if rx == [] then 0 else Mark(History(remote, rx[..|rx| - 1]), remote, rx[|rx| - 1])
  }

  /** Whether a packet with this `ack` number and history field acknowledges `number`. */
  predicate IsAcked(ack: U16, bits: U16, number: U16) {
    ack == number || Bits.And(bits, HistoryBit(Delta(ack, number))) != 0
  }

  lemma DeltaIsInjective(s: U16, m: U16, n: U16)
    ensures Delta(s, m) == Delta(s, n) <==> m == n
  {
  }

  /** Distances 1..16 are always "later than", also across the wrap. */
  lemma NearIsGreater(s: U16, n: U16)
    requires 1 <= Delta(s, n) <= 16
    ensures GreaterThan(s, n)
  {
  }

  lemma MarkSetsOneBit(bits: U16, remote: U16, m: U16, k: nat)
    requires k < 16
    ensures Bits.Bit(Mark(bits, remote, m), k) <==> Bits.Bit(bits, k) || Delta(remote, m) == k + 1
  {
    var d := Delta(remote, m);
    Bits.OrHasBothBits(bits, HistoryBit(d), k);
    if 1 <= d <= 16 {
      NearIsGreater(remote, m);
      Bits.OneHasOneBit(d - 1, k);
    } else {
      Bits.ZeroHasNoBits(k);
    }
  }

  /** Bit `k` of the history field is set exactly when the number `k + 1` behind `remote` is listed. */
  lemma {:induction false} HistoryBits(remote: U16, rx: seq<U16>, k: nat)
    requires k < 16
    ensures Bits.Bit(History(remote, rx), k) <==> exists m :: m in rx && Delta(remote, m) == k + 1
  {
    if rx == [] {
      Bits.ZeroHasNoBits(k);
    } else {
      var last, init := rx[|rx| - 1], rx[..|rx| - 1];
      assert rx == init + [last];
      HistoryBits(remote, init, k);
      MarkSetsOneBit(History(remote, init), remote, last, k);
    }
  }

  /** Encoding then decoding acknowledgements is exact: a packet stamped by a receiver
      acknowledges its latest number and the listed numbers 1 to 16 behind it, and no others. */
  lemma AckRoundTrip(remote: U16, rx: seq<U16>, n: U16)
    ensures IsAcked(remote, History(remote, rx), n) <==>
            n == remote || (n in rx && 1 <= (remote - n) % MODULUS <= 16)
  {
    var d := Delta(remote, n);
    assert Wrap(remote) == remote && Wrap(n) == n;
    DeltaOfCounters(remote, n);
    if 1 <= d <= 16 {
      Bits.AndOneTestsBit(History(remote, rx), d - 1);
      HistoryBits(remote, rx, d - 1);
      forall m: U16 | Delta(remote, m) == d ensures m == n {
        DeltaIsInjective(remote, m, n);
      }
    }
  }
}
