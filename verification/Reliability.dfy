/** One endpoint of the reliable-UDP layer as a value, with the history of what it put on
    the wire and what it processed, and the effect of each operation on it. */
module Reliability {
  import opened SequenceNumbers
  import opened Packets
  import Acks

  /** What an endpoint does that its peer or its caller can see. Packets in events are as transmitted. */
  datatype Event =
    | FirstSent(packet: Packet)
    | Resent(packet: Packet)
    | Accepted(packet: Packet)
    | Discarded(packet: Packet)
  {
    predicate Emits() {
      FirstSent? || Resent?
    }

    /** A reliable packet is numbered. */
    predicate Numbers() {
      FirstSent? && packet.Reliable()
    }
  }

  type Log = seq<Event>

  const RX_CAPACITY := 18

  datatype Endpoint = Endpoint(local: U16, remote: U16, rx: seq<Packet>, tx: seq<Packet>, log: Log)

  function New(): Endpoint {
    Endpoint(0, 0, [], [], [])
  }

  /** How many reliable packets were sent for the first time. */
  function Serial(log: Log): nat {
    if log == [] then 0
    else Serial(log[..|log| - 1]) + if log[|log| - 1].Numbers() then 1 else 0
  }

  /** The packets put on the wire, in order. */
  function Emissions(log: Log): seq<Packet> {
    if log == [] then []
    else Emissions(log[..|log| - 1]) + if log[|log| - 1].Emits() then [log[|log| - 1].packet] else []
  }

  // ---- Sending ------------------------------------------------------------

  /** The sequence data a packet gets when it is first sent. */
  function Stamped(e: Endpoint, p: Packet): Packet {
    p.(attempts := 1,
       seqnum := e.local,
       ack := e.remote,
       bits := Acks.History(e.remote, Packets.Numbers(e.rx)),
       serial := Serial(e.log))
  }

  /** `SendPacket` on a fresh packet. */
  function SendFirst(e: Endpoint, p: Packet): Endpoint {
    var q := Stamped(e, p);
    var log := e.log + [FirstSent(q.OnWire())];
    if q.Reliable() then e.(tx := e.tx + [q], local := Increment(e.local), log := log)
    else e.(log := log)
  }

  /** `SendPacket` on entry `i` of the transmit list: counts the attempt, and sends unless
      there were too many. */
  function SendAgain(e: Endpoint, i: nat): Endpoint
    requires i < |e.tx| && e.tx[i].attempts < 255
  {
    var q := e.tx[i].(attempts := e.tx[i].attempts + 1);
    e.(tx := e.tx[i := q],
       log := if q.attempts > MAX_RESENDCOUNT then e.log else e.log + [Resent(q.OnWire())])
  }

  /** Every entry was sent between 1 and 5 times: the state before any time-out. */
  predicate Alive(tx: seq<Packet>) {
    forall i | 0 <= i < |tx| :: 1 <= tx[i].attempts <= MAX_RESENDCOUNT
  }

  datatype Resending = Resending(end: Endpoint, timedOut: bool)

  /** `ResendMissingPackets` from entry `i` on; `due` holds the entries whose resend time has passed. */
  function ResendFrom(e: Endpoint, due: set<nat>, i: nat): Resending
    requires i <= |e.tx|
    requires forall k | i <= k < |e.tx| :: e.tx[k].attempts < 255
    decreases |e.tx| - i
  {
    if i == |e.tx| then Resending(e, false)
    else if i !in due then ResendFrom(e, due, i + 1)
    else
      var sent := SendAgain(e, i);
      if sent.tx[i].attempts > MAX_RESENDCOUNT then Resending(sent, true)
      else ResendFrom(sent, due, i + 1)
  }

  /** The entries sent again, from entry `i` on: those due, in list order, each once, up to the
      first that was sent 5 times already. */
  function SentAgain(tx: seq<Packet>, due: set<nat>, i: nat): (s: seq<nat>)
    requires i <= |tx|
    ensures forall a | 0 <= a < |s| :: i <= s[a] < |tx|
    decreases |tx| - i
  {
    if i == |tx| then []
    else if i !in due then SentAgain(tx, due, i + 1)
    else if tx[i].attempts >= MAX_RESENDCOUNT then []
    else [i] + SentAgain(tx, due, i + 1)
  }

  /** Some entries of a list, as they are on the wire. */
  function Picked(tx: seq<Packet>, s: seq<nat>): (ps: seq<Packet>)
    requires forall k | 0 <= k < |s| :: s[k] < |tx|
    ensures |ps| == |s|
    ensures forall k | 0 <= k < |s| :: ps[k] == tx[s[k]].OnWire()
  {
    seq(|s|, k requires 0 <= k < |s| => tx[s[k]].OnWire())
  }

  /** Entry `k` is due, and it and those due before it, from entry `i` on, were sent fewer than 5 times. */
  predicate ComesUp(tx: seq<Packet>, due: set<nat>, i: nat, k: nat) {
    i <= k < |tx| && k in due && forall j: nat | i <= j <= k && j in due :: tx[j].attempts < 5
  }

  lemma {:induction false} SentAgainAreDue(tx: seq<Packet>, due: set<nat>, i: nat)
    requires i <= |tx|
    ensures forall a, b | 0 <= a < b < |SentAgain(tx, due, i)| :: SentAgain(tx, due, i)[a] < SentAgain(tx, due, i)[b]
    ensures forall k: nat :: k in SentAgain(tx, due, i) <==>
              i <= k < |tx| && k in due && forall j: nat | i <= j <= k && j in due :: tx[j].attempts < 5
    decreases |tx| - i
  {
    if i < |tx| {
      SentAgainAreDue(tx, due, i + 1);
    }
    forall k: nat ensures k in SentAgain(tx, due, i) <==> ComesUp(tx, due, i, k) {
      if i < |tx| {
        assert k in SentAgain(tx, due, i + 1) <==> ComesUp(tx, due, i + 1, k);
        ComesUpNext(tx, due, i, k);
      }
    }
  }

  lemma ComesUpNext(tx: seq<Packet>, due: set<nat>, i: nat, k: nat)
    requires i < |tx|
    ensures i !in due ==> (ComesUp(tx, due, i, k) <==> ComesUp(tx, due, i + 1, k))
    ensures i in due && tx[i].attempts >= 5 ==> !ComesUp(tx, due, i, k)
    ensures i in due && tx[i].attempts < 5 ==> (ComesUp(tx, due, i, k) <==> k == i || ComesUp(tx, due, i + 1, k))
  {
  }

  lemma {:induction false} SameSentAgain(tx: seq<Packet>, tx': seq<Packet>, due: set<nat>, i: nat)
    requires |tx| == |tx'| && i <= |tx| && forall k | i <= k < |tx| :: tx[k] == tx'[k]
    ensures SentAgain(tx, due, i) == SentAgain(tx', due, i)
    decreases |tx| - i
  {
    if i < |tx| {
      SameSentAgain(tx, tx', due, i + 1);
    }
  }

  /** Resending puts exactly those entries on the wire. */
  lemma {:induction false} ResendLogs(e: Endpoint, due: set<nat>, i: nat)
    requires i <= |e.tx| && forall k | i <= k < |e.tx| :: e.tx[k].attempts < 255
    ensures ResendFrom(e, due, i).end.log == e.log + Repeated(Picked(e.tx, SentAgain(e.tx, due, i)))
    decreases |e.tx| - i
  {
    if i < |e.tx| {
      if i !in due {
        ResendLogs(e, due, i + 1);
      } else {
        var sent := SendAgain(e, i);
        if sent.tx[i].attempts <= MAX_RESENDCOUNT {
          ResendLogs(sent, due, i + 1);
          SameSentAgain(e.tx, sent.tx, due, i + 1);
          var s := SentAgain(e.tx, due, i + 1);
          PickedUnfolds(e.tx, sent.tx, i, s);
          RepeatedUnfolds(e.tx[i].OnWire(), Picked(e.tx, s));
          AppendOne(e.log, Resent(e.tx[i].OnWire()), Repeated(Picked(e.tx, s)));
        } else {
          assert e.log + [] == e.log;
        }
      }
    } else {
      assert e.log + [] == e.log;
    }
  }

  /** Packets as repeated sends. */
  function Repeated(ps: seq<Packet>): (log: Log)
    ensures |log| == |ps|
    ensures forall k | 0 <= k < |ps| :: log[k] == Resent(ps[k])
  {
    seq(|ps|, k requires 0 <= k < |ps| => Resent(ps[k]))
  }

  lemma PickedUnfolds(tx: seq<Packet>, tx': seq<Packet>, i: nat, s: seq<nat>)
    requires i < |tx| == |tx'| && forall k | 0 <= k < |s| :: i < s[k] < |tx|
    requires forall k | i < k < |tx| :: tx[k] == tx'[k]
    ensures Picked(tx, [i] + s) == [tx[i].OnWire()] + Picked(tx, s)
    ensures Picked(tx, s) == Picked(tx', s)
  {
  }

  lemma RepeatedUnfolds(p: Packet, ps: seq<Packet>)
    ensures Repeated([p] + ps) == [Resent(p)] + Repeated(ps)
  {
  }

  lemma AppendOne<T>(a: seq<T>, x: T, b: seq<T>)
    ensures (a + [x]) + b == a + ([x] + b)
  {
  }

  // ---- What is put on the wire --------------------------------------------

  /** Every event that emits emits its packet, in the order of events. */
  lemma {:induction false} EmissionOf(log: Log, i: nat)
    requires i < |log| && (log[i].FirstSent? || log[i].Resent?)
    ensures |Emissions(log[..i])| < |Emissions(log)| && Emissions(log)[|Emissions(log[..i])|] == log[i].packet
  {
    var n := |log| - 1;
    if i < n {
      EmissionOf(log[..n], i);
      assert log[..n][..i] == log[..i];
    }
  }

  /** And nothing else is emitted. */
  lemma {:induction false} EmissionFrom(log: Log, k: nat) returns (i: nat)
    requires k < |Emissions(log)|
    ensures i < |log| && (log[i].FirstSent? || log[i].Resent?)
    ensures |Emissions(log[..i])| == k && Emissions(log)[k] == log[i].packet
  {
    var n := |log| - 1;
    if k < |Emissions(log[..n])| {
      i := EmissionFrom(log[..n], k);
      assert log[..n][..i] == log[..i];
    } else {
      i := n;
    }
  }

  lemma {:induction false} EmissionsOfResends(log: Log, ps: seq<Packet>)
    requires |log| == |ps| && forall k | 0 <= k < |log| :: log[k] == Resent(ps[k])
    ensures Emissions(log) == ps
  {
    if log != [] {
      var n := |log| - 1;
      EmissionsOfResends(log[..n], ps[..n]);
    }
  }

  // ---- Receiving ----------------------------------------------------------

  /** A packet with this number is in the receive list. */
  predicate IsDuplicate(e: Endpoint, p: Packet) {
    p.seqnum in Packets.Numbers(e.rx)
  }

  /** The packets a received one does not acknowledge. */
  function Unacknowledged(tx: seq<Packet>, acker: Packet): seq<Packet> {
    if tx == [] then []
    else
      Unacknowledged(tx[..|tx| - 1], acker) +
      if acker.Acknowledges(tx[|tx| - 1].seqnum) then [] else [tx[|tx| - 1]]
  }

  function Remember(rx: seq<Packet>, p: Packet): seq<Packet> {
    (if |rx| > RX_CAPACITY - 1 then rx[1..] else rx) + [p]
  }

  /** Processing a packet that is not a duplicate. */
  function Accept(e: Endpoint, p: Packet): Endpoint {
    Endpoint(
      e.local,
      if GreaterThan(p.seqnum, e.remote) then p.seqnum else e.remote,
      if p.Reliable() then Remember(e.rx, p) else e.rx,
      Unacknowledged(e.tx, p),
      e.log + [Accepted(p)])
  }

  function Discard(e: Endpoint, p: Packet): Endpoint {
    e.(log := e.log + [Discarded(p)])
  }

  /** `HandlePacketSequence`: the acknowledgement asked for, if any, is sent last. */
  function Receive(e: Endpoint, p: Packet): Endpoint {
    var e' := if IsDuplicate(e, p) then Discard(e, p) else Accept(e, p);
    if p.WantsAck() then SendFirst(e', AckFor(p.body)) else e'
  }
}
