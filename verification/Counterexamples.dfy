/** Runs showing that the exceptions in `Delivery.NothingIsLost` are real, and that an unreliable
    packet may be discarded though it is new. */
module Counterexamples {
  import opened SequenceNumbers
  import opened Packets
  import opened Reliability
  import opened EndpointHistory
  import opened Network
  import opened DatagramFormat

  function Message(flags: byte, seqnum: U16, ack: U16, serial: nat): Packet {
    Packet(1, flags, seqnum, ack, 0, NetLib(7, 0, []), 0, serial)
  }

  /** First-time sending from an endpoint that has received no reliable packet. */
  lemma SendStep(net: Net, s: Side, flags: byte)
    requires net.protocol == NetLibProtocol && !net.At(s).expired && net.At(s).end.rx == []
    ensures var h, peer := net.At(s), net.At(s.Other());
            var p := Message(flags, h.end.local, h.end.remote, Serial(h.end.log));
            && Enabled(net, Send(s, Message(flags, 0, 0, 0)))
            && Next(net, Send(s, Message(flags, 0, 0, 0))) ==
               net.With(s,
                 h.(end := h.end.(
                   log := h.end.log + [FirstSent(p)],
                   local := if p.Reliable() then Increment(h.end.local) else h.end.local,
                   tx := h.end.tx + if p.Reliable() then [p.(attempts := 1)] else [])),
                 peer.(inbox := peer.inbox + [p]))
  {
    var h := net.At(s);
    var p := Message(flags, h.end.local, h.end.remote, Serial(h.end.log));
    assert Stamped(h.end, Message(flags, 0, 0, 0)) == p.(attempts := 1);
    var log' := h.end.log + [FirstSent(p)];
    assert log'[|h.end.log|..] == [FirstSent(p)];
    assert [FirstSent(p)][..0] == [];
    assert Emissions([FirstSent(p)]) == [p];
    assert h.end.tx + [] == h.end.tx;
  }

  /** Accepting an unreliable packet that asks for nothing, and losing the copy. */
  lemma DeliverStep(net: Net, s: Side, i: nat)
    requires !net.At(s).expired && i < |net.At(s).inbox| && net.At(s).end.rx == []
    requires net.At(s).inbox[i].Unreliable() && !net.At(s).inbox[i].WantsAck()
    ensures var h, p := net.At(s), net.At(s).inbox[i];
            && Enabled(net, Deliver(s, i, false))
            && Next(net, Deliver(s, i, false)) ==
               net.With(s,
                 Half(Endpoint(
                        h.end.local,
                        if GreaterThan(p.seqnum, h.end.remote) then p.seqnum else h.end.remote,
                        [],
                        Unacknowledged(h.end.tx, p),
                        h.end.log + [Accepted(p)]),
                      Without(h.inbox, i),
                      false),
                 net.At(s.Other()))
  {
    var h, p := net.At(s), net.At(s).inbox[i];
    var log' := h.end.log + [Accepted(p)];
    assert log'[|h.end.log|..] == [Accepted(p)];
    assert [Accepted(p)][..0] == [];
    assert Emissions([Accepted(p)]) == [];
    var peer := net.At(s.Other());
    assert peer.inbox + [] == peer.inbox;
  }

  lemma ReachableSend(net: Net, s: Side, flags: byte, net': Net)
    requires Reachable(net) && net.protocol == NetLibProtocol && !net.At(s).expired && net.At(s).end.rx == []
    requires var h, peer := net.At(s), net.At(s.Other());
             var p := Message(flags, h.end.local, h.end.remote, Serial(h.end.log));
             net' == net.With(s,
               h.(end := h.end.(
                 log := h.end.log + [FirstSent(p)],
                 local := if p.Reliable() then Increment(h.end.local) else h.end.local,
                 tx := h.end.tx + if p.Reliable() then [p.(attempts := 1)] else [])),
               peer.(inbox := peer.inbox + [p]))
    ensures Reachable(net')
  {
    SendStep(net, s, flags);
    ReachableNext(net, Send(s, Message(flags, 0, 0, 0)));
  }

  // ---- Number 0 -----------------------------------------------------------

  const P0 := Message(0, 0, 0, 0)
  const Q0 := Message(1, 0, 0, 0)

  /** One end with the given local number, list and history. */
  function End(local: U16, remote: U16, tx: seq<Packet>, log: Log): Endpoint {
    Endpoint(local, remote, [], tx, log)
  }

  const SENT_FIRST := Net(
    Half(End(1, 0, [P0.(attempts := 1)], [FirstSent(P0)]), [], false),
    Half(New(), [P0], false),
    NetLibProtocol)
  const LOST_FIRST := SENT_FIRST.(right := Half(New(), [], false))
  const ANSWERED := Net(
    SENT_FIRST.left.(inbox := [Q0]),
    Half(End(0, 0, [], [FirstSent(Q0)]), [], false),
    NetLibProtocol)

  lemma SentFirstIsReachable()
    ensures Reachable(SENT_FIRST)
  {
    StartIsReachable(NetLibProtocol);
    ReachableSend(Start(NetLibProtocol), Left, 0, SENT_FIRST);
  }

  lemma LostFirstIsReachable()
    ensures Reachable(LOST_FIRST)
  {
    SentFirstIsReachable();
    var step := Lose(Right, 0);
    assert Without([P0], 0) == [];
    assert Emissions([]) == [];
    assert Next(SENT_FIRST, step) == LOST_FIRST;
    ReachableNext(SENT_FIRST, step);
  }

  lemma FreshSends(e: Endpoint)
    requires e == New()
    ensures Message(1, e.local, e.remote, Serial(e.log)) == Q0
    ensures e.(log := e.log + [FirstSent(Q0)], local := e.local, tx := e.tx + []) == End(0, 0, [], [FirstSent(Q0)])
  {
    assert Serial([]) == 0;
  }

  lemma AnsweredIsReachable()
    ensures Reachable(ANSWERED)
  {
    LostFirstIsReachable();
    var end := LOST_FIRST.right.end;
    FreshSends(end);
    ReachableSend(LOST_FIRST, Right, 1, ANSWERED);
  }

  /** An end that has received nothing acknowledges number 0: the first reliable packet is
      lost, and leaves the transmit list with the first packet that comes back. */
  lemma FirstPacketMayBeLost()
    ensures var step := Deliver(Left, 0, false);
            && Enabled(ANSWERED, step)
            && var net := Next(ANSWERED, step);
               && Reachable(net)
               && net.left.end.log[0].Numbers() && net.left.end.tx == []
               && net.right.inbox == [] && net.right.end.log == [FirstSent(Q0)]
  {
    hide Next, CanRun, Run, GreaterThan;
    AnsweredIsReachable();
    DeliverStep(ANSWERED, Left, 0);
    ReachableNext(ANSWERED, Deliver(Left, 0, false));
    assert Q0.Acknowledges(0);
    var tx := ANSWERED.left.end.tx;
    assert tx[..0] == [] && Unacknowledged([], Q0) == [];
    assert Unacknowledged(tx, Q0) == [];
  }

  // ---- An unreliable packet with the next number --------------------------

  const U1 := Message(1, 1, 0, 1)
  const P1 := Message(0, 1, 0, 1)
  const R0 := Message(1, 0, 1, 0)

  const SENT_ASIDE := Net(
    Half(End(1, 0, [P0.(attempts := 1)], [FirstSent(P0), FirstSent(U1)]), [], false),
    Half(New(), [P0, U1], false),
    NetLibProtocol)
  const SENT_SECOND := Net(
    Half(End(2, 0, [P0.(attempts := 1), P1.(attempts := 1)], [FirstSent(P0), FirstSent(U1), FirstSent(P1)]), [], false),
    Half(New(), [P0, U1, P1], false),
    NetLibProtocol)
  const GOT_ASIDE := SENT_SECOND.(right := Half(End(0, 1, [], [Accepted(U1)]), [P0, P1], false))
  const MISLED := Net(
    SENT_SECOND.left.(inbox := [R0]),
    Half(End(0, 1, [], [Accepted(U1), FirstSent(R0)]), [P0, P1], false),
    NetLibProtocol)

  lemma SentAsideIsReachable()
    ensures Reachable(SENT_ASIDE)
  {
    SentFirstIsReachable();
    var log := SENT_FIRST.left.end.log;
    assert log[..0] == [];
    assert Serial(log) == 1;
    ReachableSend(SENT_FIRST, Left, 1, SENT_ASIDE);
  }

  lemma SentSecondIsReachable()
    ensures Reachable(SENT_SECOND)
  {
    SentAsideIsReachable();
    var log := SENT_ASIDE.left.end.log;
    assert log[..1] == [FirstSent(P0)] && log[..1][..0] == [];
    assert Serial(log) == Serial(log[..1]);
    assert Serial(log[..1]) == 1;
    ReachableSend(SENT_ASIDE, Left, 0, SENT_SECOND);
  }

  lemma GotAsideIsReachable()
    ensures Reachable(GOT_ASIDE)
  {
    SentSecondIsReachable();
    DeliverStep(SENT_SECOND, Right, 1);
    assert Without(SENT_SECOND.right.inbox, 1) == [P0, P1];
    assert Next(SENT_SECOND, Deliver(Right, 1, false)) == GOT_ASIDE;
    ReachableNext(SENT_SECOND, Deliver(Right, 1, false));
  }

  lemma MisledIsReachable()
    ensures Reachable(MISLED)
  {
    GotAsideIsReachable();
    var log := GOT_ASIDE.right.end.log;
    assert log[..0] == [];
    assert Serial(log) == 0;
    ReachableSend(GOT_ASIDE, Right, 1, MISLED);
  }

  /** An unreliable packet shows the number of the reliable one after it. The peer gets the
      unreliable packet, and its answer clears the reliable one, which it never got. */
  lemma UnreliablePacketMayStandIn()
    ensures var step := Deliver(Left, 0, false);
            && Enabled(MISLED, step)
            && var net := Next(MISLED, step);
               && Reachable(net)
               && net.left.end.log[2] == FirstSent(P1) && P1.Reliable() && P1.seqnum == 1
               && P1 !in OnWires(net.left.end.tx) && Accepted(P1) !in net.right.end.log
  {
    hide Next, CanRun, Run, Unacknowledged, GreaterThan;
    MisledIsReachable();
    DeliverStep(MISLED, Left, 0);
    ReachableNext(MISLED, Deliver(Left, 0, false));
    AnswerClearsSecond();
  }

  lemma AnswerClearsSecond()
    ensures P1 !in OnWires(Unacknowledged(MISLED.left.end.tx, R0))
  {
    assert R0.Acknowledges(1);
    var tx := Unacknowledged(MISLED.left.end.tx, R0);
    forall i | 0 <= i < |tx| ensures tx[i].OnWire() != P1 {
      UnacknowledgedMembers(MISLED.left.end.tx, R0, tx[i]);
    }
  }

  // ---- A new unreliable packet taken for a duplicate ----------------------

  const SENT_LOOSE := Net(
    Half(End(0, 0, [], [FirstSent(Q0)]), [], false),
    Half(New(), [Q0], false),
    NetLibProtocol)
  const SENT_BOTH := Net(
    Half(End(1, 0, [P0.(attempts := 1)], [FirstSent(Q0), FirstSent(P0)]), [], false),
    Half(New(), [Q0, P0], false),
    NetLibProtocol)
  const OVERTAKEN := SENT_BOTH.(right := Half(Endpoint(0, 0, [P0], [], [Accepted(P0)]), [Q0], false))

  lemma SentLooseIsReachable()
    ensures Reachable(SENT_LOOSE)
  {
    StartIsReachable(NetLibProtocol);
    FreshSends(Start(NetLibProtocol).left.end);
    ReachableSend(Start(NetLibProtocol), Left, 1, SENT_LOOSE);
  }

  lemma SentBothIsReachable()
    ensures Reachable(SENT_BOTH)
  {
    SentLooseIsReachable();
    var log := SENT_LOOSE.left.end.log;
    assert log[..0] == [];
    assert Serial(log) == 0;
    ReachableSend(SENT_LOOSE, Left, 0, SENT_BOTH);
  }

  /** The reliable packet overtakes the unreliable one. */
  lemma OvertakenIsReachable()
    ensures Reachable(OVERTAKEN)
  {
    SentBothIsReachable();
    var step := Deliver(Right, 1, false);
    var news := [Accepted(P0)];
    assert Without([Q0, P0], 1) == [Q0];
    assert P0.Reliable() && !P0.WantsAck();
    assert Receive(New(), P0) == Endpoint(0, 0, [P0], [], news);
    assert news[0..] == news && news[..0] == [] && Emissions(news) == [];
    assert Next(SENT_BOTH, step) == OVERTAKEN;
    ReachableNext(SENT_BOTH, step);
  }

  /** A packet that was never accepted may be discarded if it is unreliable: once the reliable
      packet with the same number has overtaken it, it is taken for a duplicate. */
  lemma UnreliablePacketMayBeDiscarded()
    ensures Reachable(OVERTAKEN) && Q0 in OVERTAKEN.right.inbox && Q0.Unreliable()
    ensures IsDuplicate(OVERTAKEN.right.end, Q0) && Accepted(Q0) !in OVERTAKEN.right.end.log
    ensures Receive(OVERTAKEN.right.end, Q0) == Discard(OVERTAKEN.right.end, Q0)
  {
    OvertakenIsReachable();
    assert Packets.Numbers([P0])[0] == Q0.seqnum;
  }
}
