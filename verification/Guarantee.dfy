/** Exactly which reliable packets the protocol guarantees. */
module Guarantee {
  import opened SequenceNumbers
  import opened Packets
  import opened Reliability
  import opened EndpointHistory
  import opened Network
  import opened Delivery
  import opened DatagramFormat

  /** A packet before it was numbered. */
  function Plain(p: Packet): Packet {
    p.(seqnum := 0, ack := 0, bits := 0, attempts := 0, serial := 0)
  }

  /** What an endpoint sent, in order and each once, acks included. */
  function Sends(log: Log): seq<Packet> {
    if log == [] then []
    else
      var e := log[|log| - 1];
      Sends(log[..|log| - 1]) + if e.FirstSent? then [Plain(e.packet)] else []
  }

  /** Where in the history the `k`-th of them is. */
  lemma {:induction false} SendAt(log: Log, k: nat) returns (i: nat)
    requires k < |Sends(log)|
    ensures i < |log| && log[i].FirstSent? && Plain(log[i].packet) == Sends(log)[k] && |Sends(log[..i])| == k
  {
    var n := |log| - 1;
    if k < |Sends(log[..n])| {
      i := SendAt(log[..n], k);
      assert log[..n][..i] == log[..i];
    } else {
      i := n;
    }
  }

  lemma {:induction false} SendsGrow(log: Log, i: nat, j: nat)
    requires i <= j <= |log|
    ensures Sends(log[..i]) <= Sends(log[..j])
    decreases j
  {
    if i < j {
      SendsGrow(log, i, j - 1);
      assert log[..j][..j - 1] == log[..j - 1];
    }
  }

  /** Number `k` among the packets sent is still listed, or was accepted by the peer. */
  ghost predicate Safe(net: Net, s: Side, k: nat)
    requires k < |Sends(net.At(s).end.log)|
  {
    exists i :: 0 <= i < |net.At(s).end.log| && IsSend(net.At(s).end.log, i, k) &&
      var p := net.At(s).end.log[i].packet;
      p in OnWires(net.At(s).end.tx) || Accepted(p) in net.At(s.Other()).end.log
  }

  ghost predicate IsSend(log: Log, i: nat, k: nat) {
    i < |log| && log[i].FirstSent? && |Sends(log[..i])| == k
  }

  // ---- A reliable packet after a reliable packet is safe ------------------

  /** Nothing is sent between two consecutive sends. */
  lemma NothingBetween(log: Log, before: nat, i: nat, j: nat, k: nat)
    requires k >= 1 && IsSend(log, before, k - 1) && IsSend(log, i, k)
    requires j < |log| && log[j].FirstSent?
    ensures before < i && !(before < j < i)
  {
    if before >= i {
      SendsGrow(log, i, before);
    } else if before < j < i {
      assert log[..before + 1][..before] == log[..before] && log[..j + 1][..j] == log[..j];
      SendsGrow(log, before + 1, j);
      SendsGrow(log, j + 1, i);
    }
  }

  lemma SerialDiffers(log: Log, before: nat, i: nat, j: nat)
    requires before < i < |log| && log[before].Numbers() && log[i].Numbers()
    requires j < |log| && !(before < j < i) && j != i
    ensures 1 <= Serial(log[..i]) < Serial(log)
    ensures Serial(log[..j]) != Serial(log[..i]) && Serial(log[..j]) <= Serial(log)
  {
    SerialsGrow(log, before, i);
    SerialsGrow(log, i, i + 1);
    if j > i {
      SerialsGrow(log, i, j);
    } else {
      SerialIsMonotone(log, j, before);
    }
  }

  /** After a reliable packet, the next one's number is its own. */
  lemma NumberIsItsOwn(e: Endpoint, before: nat, i: nat, j: nat, k: nat)
    requires Numbered(e) && Serial(e.log) <= MODULUS
    requires k >= 1 && IsSend(e.log, before, k - 1) && e.log[before].Numbers()
    requires IsSend(e.log, i, k) && e.log[i].Numbers()
    requires j < |e.log| && e.log[j].FirstSent? && e.log[j].packet.Unreliable()
    ensures e.log[i].packet.seqnum != 0 && e.log[j].packet.seqnum != e.log[i].packet.seqnum
  {
    NothingBetween(e.log, before, i, j, k);
    SerialDiffers(e.log, before, i, j);
  }

  lemma NumberIsPositive(e: Endpoint, before: nat, i: nat, k: nat)
    requires Numbered(e) && Serial(e.log) <= MODULUS
    requires k >= 1 && IsSend(e.log, before, k - 1) && e.log[before].Numbers()
    requires IsSend(e.log, i, k) && e.log[i].Numbers()
    ensures e.log[i].packet.seqnum != 0
  {
    NothingBetween(e.log, before, i, i, k);
    SerialDiffers(e.log, before, i, before);
  }

  /** The peer accepts no unreliable packet with that number. */
  lemma NoStandIn(net: Net, s: Side, before: nat, i: nat, k: nat, w: Packet)
    requires Reachable(net) && Serial(net.At(s).end.log) <= MODULUS
    requires var log := net.At(s).end.log;
             && k >= 1 && IsSend(log, before, k - 1) && log[before].Numbers()
             && IsSend(log, i, k) && log[i].Numbers()
    requires Accepted(w) in net.At(s.Other()).end.log && w.Unreliable()
    ensures w.seqnum != net.At(s).end.log[i].packet.seqnum
  {
    AcceptedInRun(net, s, w);
    var j := EmittedUnreliable(net.At(s).end, w);
    NumberIsItsOwn(net.At(s).end, before, i, j, k);
  }

  lemma NumberIsNotZero(net: Net, s: Side, before: nat, i: nat, k: nat)
    requires Reachable(net) && Serial(net.At(s).end.log) <= MODULUS
    requires var log := net.At(s).end.log;
             && k >= 1 && IsSend(log, before, k - 1) && log[before].Numbers()
             && IsSend(log, i, k) && log[i].Numbers()
    ensures net.At(s).end.log[i].packet.seqnum != 0
  {
    ReachableInv(net);
    NumberIsPositive(net.At(s).end, before, i, k);
  }

  /** In every run in which an end numbers at most 65536 packets, a reliable packet it sent
      right after another reliable one is still listed or was accepted by the peer. */
  lemma AfterReliableIsSafe(net: Net, s: Side, k: nat)
    requires Reachable(net) && Serial(net.At(s).end.log) <= MODULUS
    requires 1 <= k < |Sends(net.At(s).end.log)|
    requires Sends(net.At(s).end.log)[k].Reliable() && Sends(net.At(s).end.log)[k - 1].Reliable()
    ensures Safe(net, s, k)
  {
    var log := net.At(s).end.log;
    var before := SendAt(log, k - 1);
    var i := SendAt(log, k);
    AfterReliableIsKept(net, s, before, i, k);
    assert IsSend(log, i, k);
  }

  lemma AfterReliableIsKept(net: Net, s: Side, before: nat, i: nat, k: nat)
    requires Reachable(net) && Serial(net.At(s).end.log) <= MODULUS
    requires var log := net.At(s).end.log;
             && k >= 1 && IsSend(log, before, k - 1) && log[before].Numbers()
             && IsSend(log, i, k) && log[i].Numbers()
    ensures var p := net.At(s).end.log[i].packet;
            p in OnWires(net.At(s).end.tx) || Accepted(p) in net.At(s.Other()).end.log
  {
    NothingIsLost(net, s, i);
    NumberIsNotZero(net, s, before, i, k);
    var peer, p := net.At(s.Other()).end.log, net.At(s).end.log[i].packet;
    forall w | Accepted(w) in peer && w.Unreliable() ensures w.seqnum != p.seqnum {
      NoStandIn(net, s, before, i, k, w);
    }
  }

  // ---- Any other reliable packet may be lost ------------------------------

  /** The left end has sent these packets, all of them are under way, and nothing arrived anywhere. */
  ghost predicate JustSent(net: Net, ps: seq<Packet>) {
    && Reachable(net)
    && !net.left.expired && net.left.inbox == [] && net.left.end.rx == []
    && !net.right.expired && net.right.end == New()
    && Sends(net.left.end.log) == ps && |net.left.end.log| == |ps| == |net.right.inbox|
    && (forall j | 0 <= j < |ps| ::
          net.left.end.log[j] == FirstSent(net.right.inbox[j]) && Plain(net.right.inbox[j]) == ps[j])
  }

  lemma EmitsOne(log: Log, e: Event)
    requires e.Emits()
    ensures Emissions((log + [e])[|log|..]) == [e.packet]
  {
    assert (log + [e])[|log|..] == [e];
    assert [e][..0] == [];
  }

  /** Packets of one protocol as an application, or the handler answering, makes them. */
  ghost predicate Sendable(ps: seq<Packet>, protocol: Protocol) {
    forall p | p in ps :: p == Plain(p) && Carried(p, protocol)
  }

  /** Any such packets can be sent. */
  lemma {:induction false} SendAll(ps: seq<Packet>, protocol: Protocol) returns (net: Net)
    requires Sendable(ps, protocol)
    ensures JustSent(net, ps) && net.protocol == protocol
  {
    if ps == [] {
      StartIsReachable(protocol);
      net := Start(protocol);
    } else {
      var n := |ps| - 1;
      var net0 := SendAll(ps[..n], protocol);
      net := SendOne(net0, ps[..n], ps[n]);
      assert ps == ps[..n] + [ps[n]];
    }
  }

  lemma SendOne(net: Net, ps: seq<Packet>, p: Packet) returns (net': Net)
    requires JustSent(net, ps) && p == Plain(p) && Carried(p, net.protocol)
    ensures JustSent(net', ps + [p]) && net'.protocol == net.protocol
  {
    hide CanRun, Run;
    var step := Send(Left, p);
    var q := Stamped(net.left.end, p).OnWire();
    EmitsOne(net.left.end.log, FirstSent(q));
    ReachableNext(net, step);
    net' := Next(net, step);
    assert net'.left.end.log[..|net.left.end.log|] == net.left.end.log;
    assert Plain(q) == p;
  }

  /** The left end is unchanged since it sent the packets; they are still all under way. */
  ghost predicate StillSent(net: Net, before: Net) {
    && Reachable(net) && net.protocol == before.protocol
    && net.left.end == before.left.end && !net.left.expired
    && net.right.inbox == before.right.inbox && !net.right.expired
  }

  /** What processing a new packet changes, whether or not it is answered. */
  lemma ReceiveNew(e: Endpoint, p: Packet)
    requires !IsDuplicate(e, p)
    ensures var e' := Receive(e, p);
            && e'.remote == (if GreaterThan(p.seqnum, e.remote) then p.seqnum else e.remote)
            && e'.rx == (if p.Reliable() then Remember(e.rx, p) else e.rx)
            && forall w | Accepted(w) in e'.log :: w == p || Accepted(w) in e.log
  {
    var accepted := Accept(e, p);
    assert accepted.log == e.log + [Accepted(p)];
    assert forall w | Accepted(w) in accepted.log :: w == p || Accepted(w) in e.log;
  }

  /** Delivering a copy of a packet to the right end. */
  lemma DeliverCopy(net: Net, before: Net, j: nat) returns (net': Net)
    requires StillSent(net, before) && j < |net.right.inbox|
    requires !IsDuplicate(net.right.end, net.right.inbox[j])
    ensures StillSent(net', before) && net'.right.end == Receive(net.right.end, net.right.inbox[j])
  {
    var step := Deliver(Right, j, true);
    ReachableNext(net, step);
    net' := Next(net, step);
  }

  /** The right end sends an acknowledgement, as if asked to by this packet. */
  lemma Acknowledge(net: Net, asking: Packet) returns (net': Net)
    requires Reachable(net) && !net.right.expired && Carried(asking, net.protocol)
    ensures Reachable(net') && net'.protocol == net.protocol
    ensures var q := Stamped(net.right.end, AckFor(asking.body)).OnWire();
            && net'.left == net.left.(inbox := net.left.inbox + [q])
            && net'.right == net.right.(end := SendFirst(net.right.end, AckFor(asking.body)))
    ensures forall w | Accepted(w) in net'.right.end.log :: Accepted(w) in net.right.end.log
  {
    var step := Send(Right, AckFor(asking.body));
    StampedIsCarried(net.right.end, asking, net.protocol);
    EmitsOne(net.right.end.log, FirstSent(Stamped(net.right.end, AckFor(asking.body)).OnWire()));
    ReachableNext(net, step);
    net' := Next(net, step);
  }

  /** The acknowledgement gets to the left end. */
  lemma Answer(net: Net, before: Net, asking: Packet) returns (net': Net)
    requires StillSent(net, before) && before.left.end.rx == [] && Carried(asking, net.protocol)
    ensures Reachable(net') && net'.protocol == net.protocol
    ensures Sends(net'.left.end.log) == Sends(before.left.end.log)
    ensures before.left.end.log <= net'.left.end.log && |net'.left.end.log| == |before.left.end.log| + 1
    ensures !net'.left.end.log[|before.left.end.log|].FirstSent?
    ensures forall t | t in net'.left.end.tx :: t in before.left.end.tx && t.seqnum != net.right.end.remote
    ensures forall w | Accepted(w) in net'.right.end.log :: Accepted(w) in net.right.end.log
  {
    hide Reachable, Carried, SendFirst;
    var net1 := Acknowledge(net, asking);
    assert net1.left.inbox[|net.left.inbox|].Acknowledges(net.right.end.remote);
    net' := AnswerArrived(net1, net1, |net.left.inbox|);
  }

  lemma AnswerArrived(net: Net, before: Net, i: nat) returns (net': Net)
    requires StillSent(net, before) && before.left.end.rx == [] && i < |net.left.inbox|
    requires !net.left.inbox[i].WantsAck()
    ensures Reachable(net') && net'.right.end == net.right.end && net'.protocol == net.protocol
    ensures Sends(net'.left.end.log) == Sends(before.left.end.log)
    ensures before.left.end.log <= net'.left.end.log && |net'.left.end.log| == |before.left.end.log| + 1
    ensures !net'.left.end.log[|before.left.end.log|].FirstSent?
    ensures forall t | t in net'.left.end.tx :: t in before.left.end.tx && !net.left.inbox[i].Acknowledges(t.seqnum)
  {
    var q := net.left.inbox[i];
    var step := Deliver(Left, i, true);
    ReachableNext(net, step);
    net' := Next(net, step);
    var e := net.left.end;
    assert (e.log + [Accepted(q)])[..|e.log|] == e.log;
    forall t | t in Unacknowledged(e.tx, q) ensures t in e.tx && !q.Acknowledges(t.seqnum) {
      UnacknowledgedMembers(e.tx, q, t);
    }
  }

  /** The packet under way at place `j` carries the number of reliable packets before it. */
  lemma SentNumber(net: Net, ps: seq<Packet>, j: nat)
    requires JustSent(net, ps) && j < |ps|
    ensures net.right.inbox[j].seqnum == Wrap(Serial(net.left.end.log[..j]))
    ensures net.right.inbox[j].Reliable() <==> ps[j].Reliable()
    ensures net.left.end.log[j].Numbers() <==> ps[j].Reliable()
  {
    ReachableInv(net);
    assert net.left.end.log[j].packet == net.right.inbox[j];
    assert ps[j].flags == net.right.inbox[j].flags;
  }

  /** The log of a history reaches every count up to its own: some reliable packet has each number. */
  lemma {:induction false} SerialReaches(log: Log, n: nat) returns (j: nat)
    requires n < Serial(log)
    ensures j < |log| && log[j].Numbers() && Serial(log[..j]) == n
  {
    var init := log[..|log| - 1];
    if n < Serial(init) {
      j := SerialReaches(init, n);
      assert init[..j] == log[..j];
    } else {
      j := |log| - 1;
    }
  }

  lemma SerialReachesBefore(log: Log, i: nat, n: nat) returns (j: nat)
    requires i <= |log| && Serial(log) <= MODULUS && Wrap(Serial(log[..i])) > n
    ensures j < i && log[j].Numbers() && Serial(log[..j]) == n
  {
    SerialIsMonotone(log, i, |log|);
    assert log[..|log|] == log;
    j := SerialReaches(log[..i], n);
    assert log[..i][..j] == log[..j];
  }

  /** The remote number of a fresh right end can be brought to that of an unreliable packet
      under way, accepting it and at most one reliable packet with another number. */
  lemma ReachNumber(net: Net, ps: seq<Packet>, j: nat) returns (net': Net)
    requires JustSent(net, ps) && j < |ps| && ps[j].Unreliable() && Serial(net.left.end.log) <= MODULUS
    ensures StillSent(net', net) && net'.right.end.remote == net.right.inbox[j].seqnum
    ensures forall w | Accepted(w) in net'.right.end.log :: w.Unreliable() || w.seqnum != net.right.inbox[j].seqnum
  {
    var u := net.right.inbox[j];
    SentNumber(net, ps, j);
    var mid := net;
    if u.seqnum > MODULUS / 2 {
      mid := ReachHalf(net, ps, j);
    }
    ReceiveNew(mid.right.end, u);
    net' := DeliverCopy(mid, net, j);
  }

  /** Half way round, one reliable packet is taken in between. */
  lemma ReachHalf(net: Net, ps: seq<Packet>, j: nat) returns (net': Net)
    requires JustSent(net, ps) && j < |ps| && Serial(net.left.end.log) <= MODULUS
    requires net.right.inbox[j].seqnum > MODULUS / 2
    ensures StillSent(net', net) && net'.right.end.remote == MODULUS / 2
    ensures |net'.right.end.rx| == 1 && net'.right.end.rx[0].seqnum == MODULUS / 2
    ensures forall w | Accepted(w) in net'.right.end.log :: w.seqnum == MODULUS / 2
  {
    var half := HalfWay(net, ps, j);
    ReceiveNew(net.right.end, net.right.inbox[half]);
    net' := DeliverCopy(net, net, half);
  }

  /** Among the packets sent is the reliable one with number 32768. */
  lemma HalfWay(net: Net, ps: seq<Packet>, j: nat) returns (half: nat)
    requires JustSent(net, ps) && j < |ps| && Serial(net.left.end.log) <= MODULUS
    requires net.right.inbox[j].seqnum > MODULUS / 2
    ensures half < |ps| && net.right.inbox[half].Reliable() && net.right.inbox[half].seqnum == MODULUS / 2
  {
    hide Reachable;
    var log := net.left.end.log;
    SentNumber(net, ps, j);
    half := SerialReachesBefore(log, j, MODULUS / 2);
    SentNumber(net, ps, half);
  }

  /** The right end's remote number becomes that of the last packet, which it has not got. */
  lemma Mislead(sent: Net, ps: seq<Packet>) returns (told: Net)
    requires JustSent(sent, ps) && ps != [] && ps[|ps| - 1].Reliable() && Serial(sent.left.end.log) <= MODULUS
    requires |ps| == 1 || ps[|ps| - 2].Unreliable()
    ensures StillSent(told, sent) && told.right.end.remote == sent.right.inbox[|ps| - 1].seqnum
    ensures Accepted(sent.right.inbox[|ps| - 1]) !in told.right.end.log
  {
    var n := |ps| - 1;
    SentNumber(sent, ps, n);
    if n == 0 {
      assert sent.left.end.log[..0] == [];
      told := sent;
    } else {
      SentNumber(sent, ps, n - 1);
      SameNumber(sent.left.end.log, n);
      told := ReachNumber(sent, ps, n - 1);
    }
  }

  /** An unreliable packet shows the number of the next one. */
  lemma SameNumber(log: Log, n: nat)
    requires 1 <= n <= |log| && !log[n - 1].Numbers()
    ensures Serial(log[..n]) == Serial(log[..n - 1])
  {
    assert log[..n][..n - 1] == log[..n - 1];
  }

  /** A reliable packet that was not sent right after a reliable one may be lost: some run
      sends exactly these packets, the peer accepts others only, and it is no longer listed. */
  lemma OtherwiseMayBeLost(ps: seq<Packet>, protocol: Protocol) returns (net: Net)
    requires Sendable(ps, protocol)
    requires ps != [] && ps[|ps| - 1].Reliable() && CountReliable(ps) <= MODULUS
    requires |ps| == 1 || ps[|ps| - 2].Unreliable()
    ensures Reachable(net) && net.protocol == protocol
    ensures Sends(net.left.end.log) == ps && !Safe(net, Left, |ps| - 1)
  {
    var sent := SendAll(ps, protocol);
    SentNumber(sent, ps, |ps| - 1);
    CountIsSerial(sent, ps);
    var told := Mislead(sent, ps);
    net := Answer(told, sent, ps[0]);
    NotSafe(net, sent, ps);
  }

  function CountReliable(ps: seq<Packet>): nat {
    if ps == [] then 0
    else CountReliable(ps[..|ps| - 1]) + if ps[|ps| - 1].Reliable() then 1 else 0
  }

  lemma CountIsSerial(net: Net, ps: seq<Packet>)
    requires JustSent(net, ps)
    ensures Serial(net.left.end.log) == CountReliable(ps)
  {
    CountOfSends(net.left.end.log);
  }

  lemma {:induction false} CountOfSends(log: Log)
    ensures Serial(log) == CountReliable(Sends(log))
  {
    if log != [] {
      var init, e := log[..|log| - 1], log[|log| - 1];
      CountOfSends(init);
      if e.FirstSent? {
        assert Sends(log)[..|Sends(log)| - 1] == Sends(init);
      } else {
        assert Sends(log) == Sends(init);
      }
    }
  }

  lemma {:induction false} AllSends(log: Log, i: nat)
    requires i <= |log| && forall j | 0 <= j < i :: log[j].FirstSent?
    ensures |Sends(log[..i])| == i
  {
    if i > 0 {
      AllSends(log, i - 1);
      assert log[..i][..i - 1] == log[..i - 1];
    }
  }

  lemma NotSafe(net: Net, sent: Net, ps: seq<Packet>)
    requires JustSent(sent, ps) && ps != []
    requires sent.left.end.log <= net.left.end.log && |net.left.end.log| == |ps| + 1
    requires !net.left.end.log[|ps|].FirstSent? && Sends(net.left.end.log) == ps
    requires var p := sent.right.inbox[|ps| - 1];
             && (forall t | t in net.left.end.tx :: t.seqnum != p.seqnum)
             && Accepted(p) !in net.right.end.log
    ensures !Safe(net, Left, |ps| - 1)
  {
    var log, n := net.left.end.log, |ps| - 1;
    var p := sent.right.inbox[n];
    assert forall j | 0 <= j < |ps| :: log[j] == sent.left.end.log[j];
    forall i | 0 <= i < |log| && IsSend(log, i, n) ensures log[i].packet == p {
      AllSends(log, i);
    }
    assert p !in OnWires(net.left.end.tx);
  }

  /** In every run over this protocol in which the left end sends these packets, however it
      goes on, the last of them is still listed or was accepted by the right end. */
  ghost predicate Guaranteed(ps: seq<Packet>, protocol: Protocol)
    requires ps != []
  {
    forall net: Net |
      && Reachable(net) && net.protocol == protocol
      && ps <= Sends(net.left.end.log) && Serial(net.left.end.log) <= MODULUS ::
      Safe(net, Left, |ps| - 1)
  }

  lemma GuaranteedAfterReliable(ps: seq<Packet>, protocol: Protocol)
    requires |ps| >= 2 && ps[|ps| - 1].Reliable() && ps[|ps| - 2].Reliable()
    ensures Guaranteed(ps, protocol)
  {
    forall net: Net |
      && Reachable(net) && net.protocol == protocol
      && ps <= Sends(net.left.end.log) && Serial(net.left.end.log) <= MODULUS
      ensures Safe(net, Left, |ps| - 1)
    {
      AfterReliableIsSafe(net, Left, |ps| - 1);
    }
  }

  lemma NotGuaranteedOtherwise(ps: seq<Packet>, protocol: Protocol)
    requires Sendable(ps, protocol)
    requires ps != [] && ps[|ps| - 1].Reliable() && CountReliable(ps) <= MODULUS
    requires |ps| == 1 || ps[|ps| - 2].Unreliable()
    ensures !Guaranteed(ps, protocol)
  {
    var net := OtherwiseMayBeLost(ps, protocol);
    CountOfSends(net.left.end.log);
    assert ps <= Sends(net.left.end.log);
  }

  /** Reliability, exactly. Of the packets an end sends, acks included and up to 65536 of
      them reliable, all of which the peer can read, a reliable one is guaranteed if and only
      if it is sent right after another reliable one. */
  lemma DeliveryGuarantee(ps: seq<Packet>, protocol: Protocol)
    requires Sendable(ps, protocol)
    requires ps != [] && ps[|ps| - 1].Reliable() && CountReliable(ps) <= MODULUS
    ensures Guaranteed(ps, protocol) <==> |ps| >= 2 && ps[|ps| - 2].Reliable()
  {
    if |ps| >= 2 && ps[|ps| - 2].Reliable() {
      GuaranteedAfterReliable(ps, protocol);
    } else {
      NotGuaranteedOtherwise(ps, protocol);
    }
  }
}
