/** What asking for an acknowledgement achieves, whatever happens while the answer is under way. */
module Exchange {
  import opened SequenceNumbers
  import opened Packets
  import opened Reliability
  import opened EndpointHistory
  import opened Network
  import opened DatagramFormat
  import opened Delivery
  import Acks
  import Codec

  // ---- The answer ---------------------------------------------------------

  function Processed(e: Endpoint, p: Packet): Endpoint {
    if IsDuplicate(e, p) then Discard(e, p) else Accept(e, p)
  }

  /** What is sent back for a packet that asks for an acknowledgement. */
  function AnswerTo(e: Endpoint, p: Packet): Packet {
    Stamped(Processed(e, p), AckFor(p.body)).OnWire()
  }

  /** A packet stamped by an endpoint acknowledges its remote number and the listed numbers
      1 to 16 behind that. */
  lemma StampAcknowledges(e: Endpoint, p: Packet, n: U16)
    ensures Stamped(e, p).OnWire().Acknowledges(n) <==> InReach(e, n)
  {
    Acks.AckRoundTrip(e.remote, Packets.Numbers(e.rx), n);
  }

  /** The endpoint acknowledges this number with every packet it stamps. */
  predicate InReach(e: Endpoint, n: U16) {
    n == e.remote || (n in Packets.Numbers(e.rx) && 1 <= (e.remote - n) % MODULUS <= 16)
  }

  /** The packet may still be acknowledged by the answer to it. */
  predicate WithinReach(r: Endpoint, p: Packet) {
    && p.WantsAck()
    && (p.Reliable() || IsDuplicate(r, p))
    && (Receive(r, p).remote - p.seqnum) % MODULUS <= 16
  }

  /** The answer to a packet that asked for one acknowledges it exactly when it is at most
      16 behind the receiver's remote number, whether it was new or a duplicate. */
  lemma AnswerAcknowledges(r: Endpoint, p: Packet)
    requires p.WantsAck() && (p.Reliable() || IsDuplicate(r, p))
    ensures var answer := AnswerTo(r, p);
            && Receive(r, p).log == Processed(r, p).log + [FirstSent(answer)]
            && answer.Unreliable() && !answer.WantsAck() && answer.serial == Serial(r.log)
            && answer.IsAckBeat() && answer.body.data == [] && (answer.body.S64? <==> p.body.S64?)
            && (answer.Acknowledges(p.seqnum) <==> (Receive(r, p).remote - p.seqnum) % MODULUS <= 16)
  {
    var r1 := Processed(r, p);
    var ns := Packets.Numbers(r1.rx);
    StampAcknowledges(r1, AckFor(p.body), p.seqnum);
    if !IsDuplicate(r, p) {
      assert r1.rx[|r1.rx| - 1] == p;
      assert ns[|r1.rx| - 1] == p.seqnum;
    }
    if (r1.remote - p.seqnum) % MODULUS == 0 {
      SameModulo(r1.remote, p.seqnum);
    }
    assert r1.log[..|r.log|] == r.log;
  }

  lemma SameModulo(a: U16, b: U16)
    requires (a - b) % MODULUS == 0
    ensures a == b
  {
  }

  lemma EmittedArrives(net: Net, r: Side, index: nat, keep: bool, answer: Packet)
    requires Enabled(net, Deliver(r, index, keep))
    requires Emissions(Receive(net.At(r).end, net.At(r).inbox[index]).log[|net.At(r).end.log|..]) == [answer]
    ensures Next(net, Deliver(r, index, keep)).At(r.Other()) ==
            net.At(r.Other()).(inbox := net.At(r.Other()).inbox + [answer])
  {
  }

  /** In every run, processing a delivered packet puts on the wire one packet if flag 2 of the
      delivered one is set, and none otherwise; the reader at the other end makes an empty
      acknowledgement of it: "ACK" or type 0, version 1, unreliable, asking for nothing. */
  lemma AnswersReadBack(net: Net, s: Side, index: nat, keep: bool)
    requires Reachable(net) && Enabled(net, Deliver(s, index, keep))
    ensures var p, e' := net.At(s).inbox[index], Next(net, Deliver(s, index, keep)).At(s).end;
            var inbox, inbox' := net.At(s.Other()).inbox, Next(net, Deliver(s, index, keep)).At(s.Other()).inbox;
            if p.flags / 2 % 2 == 0 then inbox' == inbox
            else
              && |inbox'| == |inbox| + 1 && inbox <= inbox' && Codec.Fits(inbox'[|inbox|])
              && IsAnswer(Codec.Encode(inbox'[|inbox|]), net.protocol, e'.local, e'.remote)
  {
    var e, p := net.At(s).end, net.At(s).inbox[index];
    InboxInRun(net, s, p);
    WhatIsEmitted(e, p);
    DeliverEffect(net, s, index, keep);
    hide IsAnswer, Receive, Enabled, Next, Reachable, Codec.Fits, Codec.Encode;
    assert net.At(s.Other()).inbox + [] == net.At(s.Other()).inbox;
  }

  lemma DeliverEffect(net: Net, s: Side, index: nat, keep: bool)
    requires Enabled(net, Deliver(s, index, keep))
    ensures var e, p, net' := net.At(s).end, net.At(s).inbox[index], Next(net, Deliver(s, index, keep));
            && net'.At(s).end == Receive(e, p)
            && net'.At(s.Other()).inbox == net.At(s.Other()).inbox + Emissions(Receive(e, p).log[|e.log|..])
  {
    hide Receive;
    ReceiveProcesses(net.At(s).end, net.At(s).inbox[index]);
  }

  lemma WhatIsEmitted(e: Endpoint, p: Packet)
    ensures var e', sent := Receive(e, p), Emissions(Receive(e, p).log[|e.log|..]);
            if p.flags / 2 % 2 == 0 then sent == []
            else
              && |sent| == 1 && Codec.Fits(sent[0])
              && IsAnswer(Codec.Encode(sent[0]), ProtocolOf(p.body), e'.local, e'.remote)
  {
    hide IsAnswer;
    AnswerIsEmitted(e, p);
    AnswerReadsBack(Processed(e, p), p.body);
  }

  lemma InboxInRun(net: Net, s: Side, p: Packet)
    requires Reachable(net) && p in net.At(s).inbox
    ensures ProtocolOf(p.body) == net.protocol
  {
    ReachableInv(net);
    var i :| 0 <= i < |net.At(s).inbox| && net.At(s).inbox[i] == p;
    InboxIsCarried(net.At(s), net.At(s.Other()), i, net.protocol);
  }

  /** Delivering a packet that asks for an ack puts the answer at the end of the asking end's inbox. */
  lemma AnswerArrives(net: Net, r: Side, index: nat, keep: bool)
    requires Enabled(net, Deliver(r, index, keep)) && WithinReach(net.At(r).end, net.At(r).inbox[index])
    ensures Next(net, Deliver(r, index, keep)).At(r.Other()) ==
            net.At(r.Other()).(inbox := net.At(r.Other()).inbox + [AnswerTo(net.At(r).end, net.At(r).inbox[index])])
  {
    var e, p := net.At(r).end, net.At(r).inbox[index];
    AnswerIsEmitted(e, p);
    AnswerAcknowledges(e, p);
    EmittedArrives(net, r, index, keep, AnswerTo(e, p));
  }

  // ---- The answer comes back, some time later -----------------------------

  /** Right end or left, `r` gets a packet that asks for an ack; anything may happen; then
      `back` delivers the answer to the end that asked. */
  predicate ComesBack(net: Net, r: Side, index: nat, keep: bool, steps: seq<Step>, back: Step) {
    && Enabled(net, Deliver(r, index, keep)) && WithinReach(net.At(r).end, net.At(r).inbox[index])
    && var net1 := Next(net, Deliver(r, index, keep));
       && CanRun(net1, steps)
       && var net2 := Run(net1, steps);
          && back.Deliver? && back.at == r.Other() && Enabled(net2, back)
          && net2.At(back.at).inbox[back.index] == AnswerTo(net.At(r).end, net.At(r).inbox[index])
  }

  /** The net when the answer is about to be delivered. */
  function Before(net: Net, r: Side, index: nat, keep: bool, steps: seq<Step>, back: Step): Net
    requires ComesBack(net, r, index, keep, steps, back)
    ensures Enabled(Before(net, r, index, keep, steps, back), back)
  {
    Run(Next(net, Deliver(r, index, keep)), steps)
  }

  /** Delivering an acknowledgement that is no duplicate clears what it acknowledges; one
      that is a duplicate clears nothing. */
  lemma AnswerClears(net: Net, step: Step, n: U16)
    requires Enabled(net, step) && step.Deliver?
    requires net.At(step.at).inbox[step.index].Acknowledges(n) && !net.At(step.at).inbox[step.index].WantsAck()
    ensures var e, e' := net.At(step.at).end, Next(net, step).At(step.at).end;
            var answer := net.At(step.at).inbox[step.index];
            if IsDuplicate(e, answer) then e' == Discard(e, answer)
            else e'.log == e.log + [Accepted(answer)] && forall t | t in e'.tx :: t.seqnum != n
  {
    var e, answer := net.At(step.at).end, net.At(step.at).inbox[step.index];
    forall t | t in Unacknowledged(e.tx, answer) ensures t.seqnum != n {
      UnacknowledgedMembers(e.tx, answer, t);
    }
  }

  /** Clearing, exactly. Whatever is sent, delivered or lost while the answer is under way:
      delivered, it clears the number asked about, unless it is taken for a duplicate; then it
      changes no list. */
  lemma ExchangeClears(net: Net, r: Side, index: nat, keep: bool, steps: seq<Step>, back: Step)
    requires ComesBack(net, r, index, keep, steps, back)
    ensures var net2 := Before(net, r, index, keep, steps, back);
            var p, answer := net.At(r).inbox[index], AnswerTo(net.At(r).end, net.At(r).inbox[index]);
            var e, e' := net2.At(back.at).end, Next(net2, back).At(back.at).end;
            if IsDuplicate(e, answer) then e'.tx == e.tx && e'.rx == e.rx
            else forall t | t in e'.tx :: t.seqnum != p.seqnum
  {
    hide Enabled, Next, CanRun, Run, ComesBack, Before, AnswerTo;
    WhatComesBack(net, r, index, keep, steps, back);
    AnswerAcknowledges(net.At(r).end, net.At(r).inbox[index]);
    AnswerClears(Before(net, r, index, keep, steps, back), back, net.At(r).inbox[index].seqnum);
  }

  lemma WhatComesBack(net: Net, r: Side, index: nat, keep: bool, steps: seq<Step>, back: Step)
    requires ComesBack(net, r, index, keep, steps, back)
    ensures back.Deliver? && back.at == r.Other() && r == back.at.Other()
    ensures index < |net.At(r).inbox| && WithinReach(net.At(r).end, net.At(r).inbox[index])
    ensures var net2 := Before(net, r, index, keep, steps, back);
            && Enabled(net2, back) && back.index < |net2.At(back.at).inbox|
            && net2.At(back.at).inbox[back.index] == AnswerTo(net.At(r).end, net.At(r).inbox[index])
  {
  }

  lemma ReachableBefore(net: Net, r: Side, index: nat, keep: bool, steps: seq<Step>, back: Step)
    requires Reachable(net) && ComesBack(net, r, index, keep, steps, back)
    ensures Reachable(Before(net, r, index, keep, steps, back))
  {
    hide Reachable, Enabled, Next;
    ReachableNext(net, Deliver(r, index, keep));
    ReachableRun(Next(net, Deliver(r, index, keep)), steps);
  }

  /** When that is. At the moment it is delivered, in every run in which the answering end has
      numbered fewer than 65536 packets, the answer is taken for a duplicate if and only if it
      was overtaken by the reliable packet sent next after it. */
  lemma AnswerIsDuplicate(net: Net, r: Side, index: nat, keep: bool, steps: seq<Step>, back: Step)
    requires Reachable(net) && ComesBack(net, r, index, keep, steps, back)
    requires Serial(Before(net, r, index, keep, steps, back).At(r).end.log) < MODULUS
    ensures var net2 := Before(net, r, index, keep, steps, back);
            var e, answer := net2.At(back.at).end, AnswerTo(net.At(r).end, net.At(r).inbox[index]);
            && (IsDuplicate(e, answer) <==> Overtaken(e, Serial(net.At(r).end.log)))
            && (IsDuplicate(e, answer) <==>
                  NextIsIn(net2.At(r).end.log, answer, Last(AcceptedReliable(e.log), RX_CAPACITY)))
  {
    ReachableBefore(net, r, index, keep, steps, back);
    AnswerAcknowledges(net.At(r).end, net.At(r).inbox[index]);
    assert r.Other().Other() == r;
    UnreliableIsOvertaken(
      Before(net, r, index, keep, steps, back), back.at, AnswerTo(net.At(r).end, net.At(r).inbox[index]));
  }

  /** So every exchange clears the number unless the answer is overtaken. */
  lemma ExchangeAlwaysClears(net: Net, r: Side, index: nat, keep: bool, steps: seq<Step>, back: Step)
    requires Reachable(net) && ComesBack(net, r, index, keep, steps, back)
    requires var net2 := Before(net, r, index, keep, steps, back);
             && Serial(net2.At(r).end.log) < MODULUS
             && !Overtaken(net2.At(back.at).end, Serial(net.At(r).end.log))
    ensures forall t | t in Next(Before(net, r, index, keep, steps, back), back).At(back.at).end.tx ::
              t.seqnum != net.At(r).inbox[index].seqnum
  {
    AnswerIsDuplicate(net, r, index, keep, steps, back);
    ExchangeClears(net, r, index, keep, steps, back);
  }

  /** Nothing overtakes the answer if no reliable packet was sent after it. */
  lemma NothingOvertakes(net: Net, s: Side, serial: nat)
    requires Reachable(net) && Serial(net.At(s.Other()).end.log) <= serial
    ensures !Overtaken(net.At(s).end, serial)
  {
    ListsMatchHistory(net, s);
    ListIsNumbered(net, s);
  }

  // ---- What overtakes an answer clears the number itself ------------------

  lemma {:induction false} OutstandingNotAcked(log: Log, n: nat, k: nat) returns (i: nat)
    requires n <= |log| && k < |Outstanding(log, n)|
    ensures i < n && log[i] == FirstSent(Outstanding(log, n)[k]) && log[i].Numbers() && !AckedAfter(log, i)
  {
    if k < |Outstanding(log, n - 1)| {
      i := OutstandingNotAcked(log, n - 1, k);
    } else {
      i := n - 1;
    }
  }

  /** A number acknowledged after it was used is not listed, nor ever again. */
  lemma AcknowledgedIsGone(e: Endpoint, i: nat, j: nat, t: Packet)
    requires Conserves(e) && Numbered(e) && Serial(e.log) <= MODULUS && t in e.tx
    requires i < j < |e.log| && e.log[i].Numbers()
    requires e.log[j].Accepted? && e.log[j].packet.Acknowledges(e.log[i].packet.seqnum)
    ensures t.seqnum != e.log[i].packet.seqnum
  {
    var k :| 0 <= k < |e.tx| && e.tx[k] == t;
    assert Outstanding(e.log, |e.log|)[k] == t.OnWire();
    var m := OutstandingNotAcked(e.log, |e.log|, k);
    if t.seqnum == e.log[i].packet.seqnum {
      NumbersIdentify(e, if i < m then i else m, if i < m then m else i);
      assert false;
    }
  }

  /** The number asked about is that of a reliable packet sent by the end that asked. */
  lemma AskedWasSent(net: Net, r: Side, p: Packet) returns (i: nat)
    requires Reachable(net) && p in net.At(r).inbox && (p.Reliable() || IsDuplicate(net.At(r).end, p))
    ensures var log := net.At(r.Other()).end.log;
            i < |log| && log[i].Numbers() && log[i].packet.seqnum == p.seqnum
  {
    InboxIsBounded(net, r, p);
    var w := p;
    if p.Unreliable() {
      var rx := net.At(r).end.rx;
      var k :| 0 <= k < |rx| && Packets.Numbers(rx)[k] == p.seqnum;
      w := rx[k];
      ListIsBounded(net, r, w);
    }
    i := EmittedReliable(net.At(r.Other()).end, w);
  }

  /** What overtook the answer was accepted after the number was used. */
  lemma OvertakerIsLater(net: Net, net': Net, s: Side, w: Packet) returns (j: nat)
    requires Reachable(net) && Reachable(net') && net.At(s).end.log <= net'.At(s).end.log
    requires w in Last(AcceptedReliable(net'.At(s).end.log), RX_CAPACITY)
    requires w.serial >= Serial(net.At(s.Other()).end.log)
    ensures |net.At(s).end.log| <= j < |net'.At(s).end.log| && net'.At(s).end.log[j] == Accepted(w)
  {
    ListsMatchHistory(net', s);
    ListIsBounded(net', s, w);
    j :| 0 <= j < |net'.At(s).end.log| && net'.At(s).end.log[j] == Accepted(w);
    if j < |net.At(s).end.log| {
      AcceptedIsBelow(net, s, j);
    }
  }

  lemma AcceptedIsBelow(net: Net, s: Side, j: nat)
    requires Reachable(net) && j < |net.At(s).end.log| && net.At(s).end.log[j].Accepted?
    requires net.At(s).end.log[j].packet.Reliable()
    ensures net.At(s).end.log[j].packet.serial < Serial(net.At(s.Other()).end.log)
  {
    ReachableInv(net);
    var w := net.At(s).end.log[j].packet;
    AcceptedWasEmitted(net, s, w);
    EmittedIsBounded(net.At(s.Other()).end, w);
  }

  lemma GoneInRun(net: Net, s: Side, i: nat, j: nat)
    requires Reachable(net) && Serial(net.At(s).end.log) <= MODULUS
    requires var log := net.At(s).end.log;
             && i < j < |log| && log[i].Numbers() && log[j].Accepted?
             && log[j].packet.Acknowledges(log[i].packet.seqnum)
    ensures forall t | t in net.At(s).end.tx :: t.seqnum != net.At(s).end.log[i].packet.seqnum
  {
    ReachableInv(net);
    forall t | t in net.At(s).end.tx ensures t.seqnum != net.At(s).end.log[i].packet.seqnum {
      AcknowledgedIsGone(net.At(s).end, i, j, t);
    }
  }

  /** The reliable packet that overtook the answer does not acknowledge the number. */
  ghost predicate OvertakenBlindly(e: Endpoint, serial: nat, n: U16) {
    exists w :: w in Last(AcceptedReliable(e.log), RX_CAPACITY) && w.serial == serial && !w.Acknowledges(n)
  }

  /** The histories along an exchange. */
  lemma LogsBefore(net: Net, r: Side, index: nat, keep: bool, steps: seq<Step>, back: Step)
    requires Reachable(net) && ComesBack(net, r, index, keep, steps, back)
    ensures net.At(r.Other()).end.log <= Before(net, r, index, keep, steps, back).At(r.Other()).end.log
  {
    AnswerArrives(net, r, index, keep);
    hide Reachable, Enabled, Next;
    ReachableNext(net, Deliver(r, index, keep));
    ReachableLogsGrow(Next(net, Deliver(r, index, keep)), steps, r.Other());
  }

  /** When the answer has been delivered, the end that asked has accepted something that
      acknowledges the number: the answer, or what overtook it. */
  lemma SomethingAcknowledges(net: Net, r: Side, index: nat, keep: bool, steps: seq<Step>, back: Step) returns (j: nat)
    requires Reachable(net) && ComesBack(net, r, index, keep, steps, back)
    requires var net2 := Before(net, r, index, keep, steps, back);
             && Serial(net2.At(r).end.log) < MODULUS
             && !OvertakenBlindly(net2.At(back.at).end, Serial(net.At(r).end.log), net.At(r).inbox[index].seqnum)
    ensures var log3 := Next(Before(net, r, index, keep, steps, back), back).At(back.at).end.log;
            && net.At(back.at).end.log <= log3
            && |net.At(back.at).end.log| <= j < |log3| && log3[j].Accepted?
            && log3[j].packet.Acknowledges(net.At(r).inbox[index].seqnum)
  {
    hide Reachable, Enabled, Next, CanRun, Run, ComesBack, Before, AnswerTo, Overtaken, OvertakenBlindly;
    WhatComesBack(net, r, index, keep, steps, back);
    var net2 := Before(net, r, index, keep, steps, back);
    var s, p, answer := back.at, net.At(r).inbox[index], AnswerTo(net.At(r).end, net.At(r).inbox[index]);
    ReachableBefore(net, r, index, keep, steps, back);
    LogsBefore(net, r, index, keep, steps, back);
    AnswerIsDuplicate(net, r, index, keep, steps, back);
    AnswerAcknowledges(net.At(r).end, p);
    AnswerClears(net2, back, p.seqnum);
    j := AcceptedSince(net, net2, s, answer, p.seqnum);
  }

  lemma AcceptedSince(net: Net, net': Net, s: Side, answer: Packet, n: U16) returns (j: nat)
    requires Reachable(net) && Reachable(net') && net.At(s).end.log <= net'.At(s).end.log
    requires IsDuplicate(net'.At(s).end, answer) <==> Overtaken(net'.At(s).end, Serial(net.At(s.Other()).end.log))
    requires !OvertakenBlindly(net'.At(s).end, Serial(net.At(s.Other()).end.log), n)
    ensures |net.At(s).end.log| <= j
    ensures IsDuplicate(net'.At(s).end, answer) ==>
              && j < |net'.At(s).end.log| && net'.At(s).end.log[j].Accepted?
              && net'.At(s).end.log[j].packet.Acknowledges(n)
    ensures !IsDuplicate(net'.At(s).end, answer) ==> j == |net'.At(s).end.log|
  {
    if IsDuplicate(net'.At(s).end, answer) {
      var serial := Serial(net.At(s.Other()).end.log);
      var w :| w in Last(AcceptedReliable(net'.At(s).end.log), RX_CAPACITY) && w.serial == serial;
      j := OvertakerIsLater(net, net', s, w);
    } else {
      j := |net'.At(s).end.log|;
    }
  }

  lemma StretchOfRun(net: Net, step: Step, more: seq<Step>, s: Side)
    requires Reachable(net) && Enabled(net, step) && CanRun(Next(net, step), more)
    ensures Reachable(Run(Next(net, step), more))
    ensures Next(net, step).At(s).end.log <= Run(Next(net, step), more).At(s).end.log
  {
    hide Reachable, Enabled, Next;
    ReachableNext(net, step);
    ReachableRun(Next(net, step), more);
    ReachableLogsGrow(Next(net, step), more, s);
  }

  /** An exchange settles the number for good. In every run in which the ends number at most
      65536 packets, from the delivery of the answer on, however the run goes on, the asking
      end does not list the number, whether the answer was taken for a duplicate or not: what
      overtakes an answer acknowledges the number too, unless, when it was stamped, the number
      had fallen more than 16 behind or out of the receive list. */
  lemma ExchangeSettles(
    net: Net, r: Side, index: nat, keep: bool, steps: seq<Step>, back: Step, more: seq<Step>)
    requires Reachable(net) && ComesBack(net, r, index, keep, steps, back)
    requires var net2 := Before(net, r, index, keep, steps, back);
             && Serial(net2.At(r).end.log) < MODULUS
             && CanRun(Next(net2, back), more)
             && Serial(Run(Next(net2, back), more).At(back.at).end.log) <= MODULUS
             && !OvertakenBlindly(net2.At(back.at).end, Serial(net.At(r).end.log), net.At(r).inbox[index].seqnum)
    ensures forall t | t in Run(Next(Before(net, r, index, keep, steps, back), back), more).At(back.at).end.tx ::
              t.seqnum != net.At(r).inbox[index].seqnum
  {
    hide Reachable, Enabled, Next, CanRun, Run, ComesBack, Before, Packet.Acknowledges;
    WhatComesBack(net, r, index, keep, steps, back);
    var s, net2 := back.at, Before(net, r, index, keep, steps, back);
    var i := AskedWasSent(net, r, net.At(r).inbox[index]);
    var j := SomethingAcknowledges(net, r, index, keep, steps, back);
    ReachableBefore(net, r, index, keep, steps, back);
    StretchOfRun(net2, back, more, s);
    LaterGone(net.At(s).end.log, Next(net2, back).At(s).end.log, Run(Next(net2, back), more), s, i, j);
  }

  lemma LaterGone(log: Log, log': Log, net: Net, s: Side, i: nat, j: nat)
    requires log <= log' <= net.At(s).end.log && Reachable(net) && Serial(net.At(s).end.log) <= MODULUS
    requires i < |log| && i < j < |log'| && log[i].Numbers() && log'[j].Accepted?
    requires log'[j].packet.Acknowledges(log[i].packet.seqnum)
    ensures forall t | t in net.At(s).end.tx :: t.seqnum != log[i].packet.seqnum
  {
    assert net.At(s).end.log[i] == log'[i] == log[i] && net.At(s).end.log[j] == log'[j];
    GoneInRun(net, s, i, j);
  }
}
