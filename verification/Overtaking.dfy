/** Runs in which a reliable packet overtakes the answer to the packet before it. */
module Overtaking {
  import opened SequenceNumbers
  import opened Packets
  import opened Reliability
  import opened EndpointHistory
  import opened Network
  import opened DatagramFormat
  import opened Delivery
  import opened Exchange
  import opened Guarantee
  import Acks

  /** A reliable packet without contents. */
  function Empty(protocol: Protocol): Packet {
    Packet(1, 0, 0, 0, 0, if protocol.S64Protocol? then S64([], []) else NetLib(0, 0, []), 0, 0)
  }

  lemma RunTwo(net: Net, a: Step, b: Step)
    requires Enabled(net, a) && Enabled(Next(net, a), b)
    ensures CanRun(net, [a, b]) && Run(net, [a, b]) == Next(Next(net, a), b)
  {
    hide Enabled, Next;
    RunOne(Next(net, a), b);
    RunStarts(net, a, [b]);
    assert [a] + [b] == [a, b];
  }

  lemma RunThree(net: Net, a: Step, b: Step, c: Step)
    requires Enabled(net, a) && Enabled(Next(net, a), b) && Enabled(Next(Next(net, a), b), c)
    ensures CanRun(net, [a, b, c]) && Run(net, [a, b, c]) == Next(Next(Next(net, a), b), c)
  {
    hide Enabled, Next;
    RunTwo(Next(net, a), b, c);
    RunStarts(net, a, [b, c]);
    assert [a] + [b, c] == [a, b, c];
  }

  // ---- Any answer may be overtaken ----------------------------------------

  lemma EmptyIsCarried(protocol: Protocol)
    ensures Carried(Empty(protocol), protocol) && !Empty(protocol).WantsAck()
  {
  }

  lemma CanDeliver(net: Net, s: Side, i: nat, keep: bool)
    requires !net.At(s).expired && i < |net.At(s).inbox|
    ensures Enabled(net, Deliver(s, i, keep))
  {
  }

  /** A first send: the packet is under way to the other end. */
  lemma SendArrives(net: Net, r: Side, p: Packet)
    requires !net.At(r).expired && Carried(p, net.protocol)
    ensures Enabled(net, Send(r, p))
    ensures var net' := Next(net, Send(r, p));
            && net'.protocol == net.protocol
            && net'.At(r) == net.At(r).(end := SendFirst(net.At(r).end, p))
            && net'.At(r.Other()) ==
               net.At(r.Other()).(inbox := net.At(r.Other()).inbox + [Stamped(net.At(r).end, p).OnWire()])
  {
    EmitsOne(net.At(r).end.log, FirstSent(Stamped(net.At(r).end, p).OnWire()));
  }

  /** Getting a new packet that asks for nothing, and losing the copy or not. */
  lemma DeliverTakes(net: Net, s: Side, i: nat, keep: bool)
    requires !net.At(s).expired && i < |net.At(s).inbox|
    requires !IsDuplicate(net.At(s).end, net.At(s).inbox[i]) && !net.At(s).inbox[i].WantsAck()
    ensures Enabled(net, Deliver(s, i, keep))
    ensures var net' := Next(net, Deliver(s, i, keep));
            && net'.protocol == net.protocol
            && net'.At(s).end == Accept(net.At(s).end, net.At(s).inbox[i]) && !net'.At(s).expired
            && net'.At(s).inbox == (if keep then net.At(s).inbox else Without(net.At(s).inbox, i))
            && net'.At(s.Other()) == net.At(s.Other())
  {
    AnswerIsEmitted(net.At(s).end, net.At(s).inbox[i]);
    assert net.At(s.Other()).inbox + [] == net.At(s.Other()).inbox;
  }

  /** The next reliable packet of the peer is new, and once accepted it makes an unreliable
      packet sent before it a duplicate. */
  lemma NextOvertakes(net: Net, s: Side, u: Packet)
    requires Reachable(net) && u in net.At(s).inbox && u.serial == Serial(net.At(s.Other()).end.log) < MODULUS
    ensures var w := Stamped(net.At(s.Other()).end, Empty(net.protocol)).OnWire();
            && !IsDuplicate(net.At(s).end, w) && IsDuplicate(Accept(net.At(s).end, w), u)
  {
    var e, peer := net.At(s).end, net.At(s.Other()).end;
    var w := Stamped(peer, Empty(net.protocol)).OnWire();
    InboxIsBounded(net, s, u);
    ListIsNumbered(net, s);
    ShowsNumber(e.rx, u);
    NumbersRefineCounters(net, s.Other());
    var e' := Accept(e, w);
    assert e'.rx[|e'.rx| - 1] == w;
    assert Packets.Numbers(e'.rx)[|e'.rx| - 1] == u.seqnum;
  }

  /** The overtaker clears everything its sender still acknowledges. */
  lemma OvertakerClears(e: Endpoint, peer: Endpoint, p: Packet)
    ensures forall t | t in Accept(e, Stamped(peer, p).OnWire()).tx :: !InReach(peer, t.seqnum)
  {
    var w := Stamped(peer, p).OnWire();
    forall t | t in Accept(e, w).tx ensures !InReach(peer, t.seqnum) {
      UnacknowledgedMembers(e.tx, w, t);
      StampAcknowledges(peer, p, t.seqnum);
    }
  }

  /** Two more steps make an unreliable packet under way a duplicate: its sender sends a
      reliable packet, which arrives first. */
  lemma Overtake(net: Net, s: Side, u: nat) returns (steps: seq<Step>)
    requires Reachable(net) && !net.left.expired && !net.right.expired && u < |net.At(s).inbox|
    requires net.At(s).inbox[u].serial == Serial(net.At(s.Other()).end.log) < MODULUS
    ensures |steps| == 2 && CanRun(net, steps)
    ensures var net' := Run(net, steps);
            && !net'.At(s).expired && u < |net'.At(s).inbox| && net'.At(s).inbox[u] == net.At(s).inbox[u]
            && IsDuplicate(net'.At(s).end, net.At(s).inbox[u])
            && forall t | t in net'.At(s).end.tx :: !InReach(net.At(s.Other()).end, t.seqnum)
  {
    var r, p := s.Other(), Empty(net.protocol);
    assert r.Other() == s;
    var send, get := Send(r, p), Deliver(s, |net.At(s).inbox|, true);
    NextOvertakes(net, s, net.At(s).inbox[u]);
    OvertakerClears(net.At(s).end, net.At(r).end, p);
    EmptyIsCarried(net.protocol);
    hide Reachable, Accept, IsDuplicate, InReach, Stamped, Enabled, Next, CanRun, Run, Carried, Empty;
    SendArrives(net, r, p);
    DeliverTakes(Next(net, send), s, |net.At(s).inbox|, true);
    RunTwo(net, send, get);
    steps := [send, get];
  }

  /** Any answer may be overtaken, from any reachable exchange over either protocol. It is then
      dropped, but the number has been cleared already. */
  lemma AnswerMayBeOvertaken(net: Net, r: Side, index: nat, keep: bool) returns (steps: seq<Step>, back: Step)
    requires Reachable(net) && !net.left.expired && !net.right.expired && Serial(net.At(r).end.log) < MODULUS
    requires Enabled(net, Deliver(r, index, keep)) && WithinReach(net.At(r).end, net.At(r).inbox[index])
    ensures |steps| == 2 && ComesBack(net, r, index, keep, steps, back)
    ensures var e := Before(net, r, index, keep, steps, back).At(back.at).end;
            && IsDuplicate(e, AnswerTo(net.At(r).end, net.At(r).inbox[index]))
            && forall t | t in e.tx :: t.seqnum != net.At(r).inbox[index].seqnum
  {
    hide Reachable, Next, CanRun, Run, IsDuplicate, InReach, Receive, AnswerTo;
    var s, p := r.Other(), net.At(r).inbox[index];
    var net1 := Next(net, Deliver(r, index, keep));
    var u := |net.At(s).inbox|;
    AnswerArrives(net, r, index, keep);
    AnswerAcknowledges(net.At(r).end, p);
    ReachableNext(net, Deliver(r, index, keep));
    AnsweringState(net, r, index, keep);
    steps := Overtake(net1, s, u);
    back := Deliver(s, u, false);
    CanDeliver(Run(net1, steps), s, u, false);
  }

  /** The answering end right after its answer: it numbered nothing, and still acknowledges. */
  lemma AnsweringState(net: Net, r: Side, index: nat, keep: bool)
    requires Enabled(net, Deliver(r, index, keep)) && WithinReach(net.At(r).end, net.At(r).inbox[index])
    ensures var net1 := Next(net, Deliver(r, index, keep));
            && !net1.At(r).expired && net1.At(r.Other()).expired == net.At(r.Other()).expired
            && Serial(net1.At(r).end.log) == Serial(net.At(r).end.log)
            && InReach(net1.At(r).end, net.At(r).inbox[index].seqnum)
  {
    hide WithinReach, InReach, Receive, Serial;
    AnswerArrives(net, r, index, keep);
    AnsweredEnd(net.At(r).end, net.At(r).inbox[index]);
  }

  lemma AnsweredEnd(e: Endpoint, p: Packet)
    requires WithinReach(e, p)
    ensures Serial(Receive(e, p).log) == Serial(e.log) && InReach(Receive(e, p), p.seqnum)
  {
    var event := if IsDuplicate(e, p) then Discarded(p) else Accepted(p);
    assert Processed(e, p).log == e.log + [event];
    AnswerAcknowledges(e, p);
    SerialAppend(e.log, event);
    SerialAppend(Processed(e, p).log, FirstSent(AnswerTo(e, p)));
    StampAcknowledges(Processed(e, p), AckFor(p.body), p.seqnum);
  }

  // ---- An answer overtaken blindly ----------------------------------------

  /** The same, asking for an ack. */
  function Asking(protocol: Protocol): Packet {
    Empty(protocol).(flags := FLAG_EXPLICITACK)
  }

  lemma BothAreSendable(protocol: Protocol)
    ensures forall p | p in [Empty(protocol), Asking(protocol)] :: p == Plain(p) && Carried(p, protocol) && p.Reliable()
    ensures Asking(protocol).WantsAck() && !Empty(protocol).WantsAck()
  {
  }

  /** Nineteen reliable packets, the second of which asks for an ack. */
  function Nineteen(protocol: Protocol): (ps: seq<Packet>)
    ensures |ps| == 19
    ensures forall i | 0 <= i < 19 :: ps[i] == if i == 1 then Asking(protocol) else Empty(protocol)
  {
    seq(19, i => if i == 1 then Asking(protocol) else Empty(protocol))
  }

  lemma NineteenAreSendable(protocol: Protocol)
    ensures Sendable(Nineteen(protocol), protocol)
    ensures forall i | 0 <= i < 19 ::
              Nineteen(protocol)[i].Reliable() && (Nineteen(protocol)[i].WantsAck() <==> i == 1)
  {
    BothAreSendable(protocol);
    assert Asking(protocol) in [Empty(protocol), Asking(protocol)];
    assert Empty(protocol) in [Empty(protocol), Asking(protocol)];
    hide Empty, Asking, Carried, Plain;
  }

  lemma {:induction false} AllNumbered(log: Log, n: nat)
    requires n <= |log| && forall k | 0 <= k < n :: log[k].Numbers()
    ensures Serial(log[..n]) == n
  {
    if n > 0 {
      AllNumbered(log, n - 1);
      assert log[..n][..n - 1] == log[..n - 1];
    }
  }

  lemma SentOne(net: Net, protocol: Protocol, j: nat)
    requires JustSent(net, Nineteen(protocol)) && j < 19
    ensures net.right.inbox[j].seqnum == j && net.right.inbox[j].Reliable()
    ensures net.right.inbox[j].WantsAck() <==> j == 1
    ensures exists t :: t in net.left.end.tx && t.seqnum == j
  {
    var ps, log := Nineteen(protocol), net.left.end.log;
    NineteenAreSendable(protocol);
    forall k: nat | k < 19 ensures log[k].Numbers() {
      SentNumber(net, ps, k);
    }
    AllNumbered(log, j);
    SentNumber(net, ps, j);
    assert ps[j].flags == net.right.inbox[j].flags;
    StillListed(net, ps, j);
  }

  lemma StillListed(net: Net, ps: seq<Packet>, j: nat)
    requires JustSent(net, ps) && j < |ps| && net.left.end.log[j].Numbers()
    ensures exists t :: t in net.left.end.tx && t.seqnum == net.right.inbox[j].seqnum
  {
    var e := net.left.end;
    ListsMatchHistory(net, Left);
    SurvivorIsOutstanding(e.log, |e.log|, j);
    var k :| 0 <= k < |e.tx| && OnWires(e.tx)[k] == e.log[j].packet;
    assert e.tx[k] in e.tx;
  }

  lemma FirstTaken(p: Packet)
    requires p.seqnum == 1 && p.Reliable() && p.WantsAck()
    ensures WithinReach(New(), p)
    ensures var e := Receive(New(), p); e.local == 0 && e.remote == 1 && e.rx == [p] && Serial(e.log) == 0
  {
    hide Acks.History;
    assert !IsDuplicate(New(), p);
    AnsweredEnd(New(), p);
  }

  /** The answering end after numbers 1 and 18: number 1 is out of reach. */
  lemma OutOfReach(e: Endpoint, p: Packet, q: Packet)
    requires e.local == 0 && e.remote == 1 && e.rx == [p] && Serial(e.log) == 0
    requires p.seqnum == 1 && q.seqnum == 18 && q.Reliable()
    ensures !IsDuplicate(e, q)
    ensures Accept(e, q).local == 0 && Serial(Accept(e, q).log) == 0 && !InReach(Accept(e, q), 1)
  {
    assert Packets.Numbers([p]) == [1] && Packets.Numbers([p, q]) == [1, 18];
    assert Accept(e, q).rx == [p, q] && Accept(e, q).remote == 18;
    SerialAppend(e.log, Accepted(q));
  }

  /** The overtaker is taken, leaves number 1 listed, and makes the answer a duplicate. */
  lemma TakenBlindly(e: Endpoint, w: Packet, answer: Packet)
    requires e.rx == [] && w.Reliable() && w.seqnum == answer.seqnum && !w.Acknowledges(1)
    requires exists t :: t in e.tx && t.seqnum == 1
    ensures !IsDuplicate(e, w) && Accept(e, w).rx == [w] && IsDuplicate(Accept(e, w), answer)
    ensures exists t :: t in Accept(e, w).tx && t.seqnum == 1
  {
    assert Packets.Numbers([w])[0] == answer.seqnum;
    var t :| t in e.tx && t.seqnum == 1;
    UnacknowledgedMembers(e.tx, w, t);
  }

  lemma BlindSteps(net: Net, protocol: Protocol, steps: seq<Step>, back: Step)
    requires net.protocol == protocol && !net.left.expired && !net.right.expired
    requires net.right.end == New() && net.left.end.rx == [] && net.left.inbox == [] && |net.right.inbox| == 19
    requires net.right.inbox[1].seqnum == 1 && net.right.inbox[1].Reliable() && net.right.inbox[1].WantsAck()
    requires net.right.inbox[18].seqnum == 18 && net.right.inbox[18].Reliable() && !net.right.inbox[18].WantsAck()
    requires exists t :: t in net.left.end.tx && t.seqnum == 1
    requires steps == [Deliver(Right, 18, true), Send(Right, Empty(protocol)), Deliver(Left, 1, true)]
    requires back == Deliver(Left, 0, true)
    ensures ComesBack(net, Right, 1, true, steps, back)
    ensures var e := Before(net, Right, 1, true, steps, back).left.end;
            && |e.rx| == 1 && e.rx[0].serial == 0 && !e.rx[0].Acknowledges(1)
            && IsDuplicate(e, AnswerTo(net.right.end, net.right.inbox[1]))
            && exists t :: t in e.tx && t.seqnum == 1
  {
    var p, q, answer := net.right.inbox[1], net.right.inbox[18], AnswerTo(New(), net.right.inbox[1]);
    FirstTaken(p);
    OutOfReach(Receive(New(), p), p, q);
    var r := Accept(Receive(New(), p), q);
    var w := Stamped(r, Empty(protocol)).OnWire();
    StampAcknowledges(r, Empty(protocol), 1);
    TakenBlindly(net.left.end, w, answer);
    AnswerArrives(net, Right, 1, true);
    var net1 := Next(net, Deliver(Right, 1, true));
    EmptyIsCarried(protocol);
    hide Accept, Receive, IsDuplicate, InReach, Stamped, WithinReach, Enabled, Next, CanRun, Run, Carried, Empty;
    hide AnswerTo;
    DeliverTakes(net1, Right, 18, true);
    SendArrives(Next(net1, steps[0]), Right, Empty(protocol));
    DeliverTakes(Next(Next(net1, steps[0]), steps[1]), Left, 1, true);
    RunThree(net1, steps[0], steps[1], steps[2]);
    CanDeliver(net, Right, 1, true);
    CanDeliver(Run(net1, steps), Left, 0, true);
  }

  /** An exchange need not settle the number: the second packet asks for an ack and is
      answered; the nineteenth arrives, and puts it 17 behind; the next reliable packet back
      arrives before the answer, which is then dropped. The asking end still lists the number. */
  lemma OvertakenMayStayListed(protocol: Protocol) returns (net: Net, steps: seq<Step>, back: Step)
    ensures Reachable(net) && net.protocol == protocol && ComesBack(net, Right, 1, true, steps, back)
    ensures var net2 := Before(net, Right, 1, true, steps, back);
            && OvertakenBlindly(net2.left.end, Serial(net.right.end.log), net.right.inbox[1].seqnum)
            && IsDuplicate(net2.left.end, AnswerTo(net.right.end, net.right.inbox[1]))
            && exists t :: t in Next(net2, back).left.end.tx && t.seqnum == net.right.inbox[1].seqnum
  {
    NineteenAreSendable(protocol);
    net := SendAll(Nineteen(protocol), protocol);
    SentOne(net, protocol, 1);
    SentOne(net, protocol, 18);
    steps := [Deliver(Right, 18, true), Send(Right, Empty(protocol)), Deliver(Left, 1, true)];
    back := Deliver(Left, 0, true);
    BlindSteps(net, protocol, steps, back);
    hide JustSent, Reachable, ComesBack, Before, AnswerTo, IsDuplicate;
    ReachableBefore(net, Right, 1, true, steps, back);
    ListsMatchHistory(Before(net, Right, 1, true, steps, back), Left);
    ExchangeClears(net, Right, 1, true, steps, back);
  }
}
