/** Two endpoints and a network that loses, repeats and reorders packets, as a step system. */
module Network {
  import opened Packets
  import opened Reliability
  import opened EndpointHistory
  import opened DatagramFormat

  datatype Side = Left | Right {
    function Other(): Side {
      if this == Left then Right else Left
    }
  }

  /** One end: its endpoint, the packets under way to it, and whether a time-out ended it. */
  datatype Half = Half(end: Endpoint, inbox: seq<Packet>, expired: bool)

  /** Both ends use the same packet class. */
  datatype Net = Net(left: Half, right: Half, protocol: Protocol) {
    function At(s: Side): Half {
      if s == Left then left else right
    }

    function With(s: Side, h: Half, peer: Half): Net {
      if s == Left then Net(h, peer, protocol) else Net(peer, h, protocol)
    }
  }

  function Start(protocol: Protocol): Net {
    Net(Half(New(), [], false), Half(New(), [], false), protocol)
  }

  /** The application sends a fresh packet, or calls for resends; the network delivers a
      packet under way, in any order and possibly keeping a copy, or loses it. */
  datatype Step =
    | Send(at: Side, packet: Packet)
    | Resend(at: Side, due: set<nat>)
    | Deliver(at: Side, index: nat, keep: bool)
    | Lose(at: Side, index: nat)

  predicate Enabled(net: Net, step: Step) {
    var h := net.At(step.at);
    match step
    case Send(_, p) => !h.expired && Carried(p, net.protocol)
    case Resend(_, _) => !h.expired && Alive(h.end.tx)
    case Deliver(_, i, _) => !h.expired && i < |h.inbox|
    case Lose(_, i) => i < |h.inbox|
  }

  function Without(inbox: seq<Packet>, i: nat): seq<Packet>
    requires i < |inbox|
  {
    inbox[..i] + inbox[i + 1..]
  }

  /** The half that takes the step, afterwards. */
  function Acting(h: Half, step: Step): Half
    requires step.Resend? ==> Alive(h.end.tx)
    requires step.Deliver? || step.Lose? ==> step.index < |h.inbox|
  {
    match step
    case Send(_, p) => h.(end := SendFirst(h.end, p))
    case Resend(_, due) =>
      var r := ResendFrom(h.end, due, 0);
      h.(end := r.end, expired := r.timedOut)
    case Deliver(_, i, keep) =>
      h.(end := Receive(h.end, h.inbox[i]), inbox := if keep then h.inbox else Without(h.inbox, i))
    case Lose(_, i) => h.(inbox := Without(h.inbox, i))
  }

  function Next(net: Net, step: Step): Net
    requires Enabled(net, step)
  {
    var h, peer := net.At(step.at), net.At(step.at.Other());
    var h' := Acting(h, step);
    var news := if |h.end.log| <= |h'.end.log| then h'.end.log[|h.end.log|..] else [];
    net.With(step.at, h', peer.(inbox := peer.inbox + Emissions(news)))
  }

  predicate CanRun(net: Net, steps: seq<Step>)
    decreases |steps|
  {
    steps == [] || (Enabled(net, steps[0]) && CanRun(Next(net, steps[0]), steps[1..]))
  }

  function Run(net: Net, steps: seq<Step>): Net
    requires CanRun(net, steps)
    decreases |steps|
  {
    if steps == [] then net else Run(Next(net, steps[0]), steps[1..])
  }

  ghost predicate Reachable(net: Net) {
    exists steps :: CanRun(Start(net.protocol), steps) && Run(Start(net.protocol), steps) == net
  }

  // ---- What every run keeps -----------------------------------------------

  predicate Emitted(log: Log, p: Packet) {
    exists i :: 0 <= i < |log| && log[i].Emits() && log[i].packet == p
  }

  /** What is under way to an end, and what it processed, was emitted by its peer. */
  ghost predicate Linked(h: Half, peer: Half) {
    && (forall k | 0 <= k < |h.inbox| :: Emitted(peer.end.log, h.inbox[k]))
    && (forall i | 0 <= i < |h.end.log| && (h.end.log[i].Accepted? || h.end.log[i].Discarded?) ::
          Emitted(peer.end.log, h.end.log[i].packet))
  }

  ghost predicate HalfInv(h: Half) {
    Inv(h.end) && (h.expired || Alive(h.end.tx))
  }

  /** Everything sent is a packet of the protocol that its reader understands. */
  ghost predicate SendsCarried(log: Log, protocol: Protocol) {
    forall i | 0 <= i < |log| && log[i].FirstSent? :: Carried(log[i].packet, protocol)
  }

  ghost predicate NetInv(net: Net) {
    && HalfInv(net.left) && HalfInv(net.right)
    && Linked(net.left, net.right) && Linked(net.right, net.left)
    && SendsCarried(net.left.end.log, net.protocol) && SendsCarried(net.right.end.log, net.protocol)
  }

  /** Every step is a sequence of moves of the acting endpoint. */
  lemma ActingIsMoves(h: Half, step: Step) returns (ms: seq<Move>)
    requires step.Send? ==> step.packet.attempts == 0
    requires step.Resend? ==> Alive(h.end.tx)
    requires step.Deliver? || step.Lose? ==> step.index < |h.inbox|
    ensures CanMoves(h.end, ms) && AfterMoves(h.end, ms) == Acting(h, step).end
    ensures h.end.log <= Acting(h, step).end.log
  {
    match step {
      case Send(_, p) =>
        ms := [First(p)];
        assert ms[1..] == [];
      case Resend(_, due) =>
        ms := ResendIsMoves(h.end, due, 0);
      case Deliver(_, i, _) =>
        ms := ReceiveIsMoves(h.end, h.inbox[i]);
      case Lose(_, _) =>
        ms := [];
    }
    MovesAppend(h.end, ms);
  }

  /** A received packet leaves only entries that were listed, so none that timed out. */
  lemma ReceiveStaysAlive(e: Endpoint, p: Packet)
    requires Alive(e.tx)
    ensures Alive(Receive(e, p).tx)
  {
    var tx := Unacknowledged(e.tx, p);
    forall i | 0 <= i < |tx| ensures 1 <= tx[i].attempts <= MAX_RESENDCOUNT {
      UnacknowledgedMembers(e.tx, p, tx[i]);
    }
  }

  lemma ActingKeepsEndInv(h: Half, step: Step)
    requires Inv(h.end)
    requires step.Send? ==> step.packet.attempts == 0
    requires step.Resend? ==> Alive(h.end.tx)
    requires step.Deliver? || step.Lose? ==> step.index < |h.inbox|
    ensures Inv(Acting(h, step).end)
    ensures h.end.log <= Acting(h, step).end.log
  {
    var ms := ActingIsMoves(h, step);
    InvKeptByMoves(h.end, ms);
  }

  lemma ActingStaysAlive(h: Half, step: Step)
    requires Alive(h.end.tx)
    requires step.Deliver? || step.Lose? ==> step.index < |h.inbox|
    ensures !Acting(h, step).expired ==> Alive(Acting(h, step).end.tx)
  {
    match step {
      case Send(_, _) =>
      case Resend(_, due) => ResendStaysAlive(h.end, due, 0);
      case Deliver(_, i, _) => ReceiveStaysAlive(h.end, h.inbox[i]);
      case Lose(_, _) =>
    }
  }

  lemma ActingKeepsHalfInv(h: Half, step: Step)
    requires HalfInv(h)
    requires step.Send? ==> step.packet.attempts == 0
    requires !step.Lose? ==> Alive(h.end.tx)
    requires step.Deliver? || step.Lose? ==> step.index < |h.inbox|
    ensures HalfInv(Acting(h, step))
    ensures h.end.log <= Acting(h, step).end.log
  {
    ActingKeepsEndInv(h, step);
    if !step.Lose? {
      ActingStaysAlive(h, step);
    }
  }

  lemma {:induction false} EmissionsAreEmitted(log: Log, k: nat)
    requires k < |Emissions(log)|
    ensures Emitted(log, Emissions(log)[k])
  {
    var init := log[..|log| - 1];
    if k < |Emissions(init)| {
      EmissionsAreEmitted(init, k);
      var i :| 0 <= i < |init| && init[i].Emits() && init[i].packet == Emissions(init)[k];
      assert log[i] == init[i];
    }
  }

  lemma EmittedStays(log: Log, log': Log, p: Packet)
    requires log <= log' && Emitted(log, p)
    ensures Emitted(log', p)
  {
    var i :| 0 <= i < |log| && log[i].Emits() && log[i].packet == p;
    assert log'[i] == log[i];
  }

  /** Resending puts nothing new on the wire: it numbers no packet and lists none. */
  lemma {:induction false} ResendOnlyResends(e: Endpoint, due: set<nat>, i: nat)
    requires i <= |e.tx| && Alive(e.tx)
    ensures var r := ResendFrom(e, due, i).end;
            && e.log <= r.log && |r.tx| == |e.tx| && r.local == e.local && r.rx == e.rx && r.remote == e.remote
            && (forall k | 0 <= k < |e.tx| :: r.tx[k] == e.tx[k].(attempts := r.tx[k].attempts))
            && (forall k | |e.log| <= k < |r.log| :: r.log[k].Resent?)
    decreases |e.tx| - i
  {
    if i < |e.tx| {
      if i !in due {
        ResendOnlyResends(e, due, i + 1);
      } else {
        var sent := SendAgain(e, i);
        if sent.tx[i].attempts <= MAX_RESENDCOUNT {
          ResendOnlyResends(sent, due, i + 1);
          var r := ResendFrom(e, due, i).end;
          assert r.log[|e.log|] == sent.log[|e.log|];
        }
      }
    }
  }

  /** Resending puts a copy of each entry that is due under way to the other end, in list
      order, up to the first that was sent 5 times already. */
  lemma ResendArrives(net: Net, s: Side, due: set<nat>)
    requires Enabled(net, Resend(s, due))
    ensures var peer, tx := net.At(s.Other()), net.At(s).end.tx;
            Next(net, Resend(s, due)).At(s.Other()) ==
            peer.(inbox := peer.inbox + Picked(tx, SentAgain(tx, due, 0)))
  {
    var e := net.At(s).end;
    var again := SentAgain(e.tx, due, 0);
    ResendLogs(e, due, 0);
    EmissionsOfResends(Repeated(Picked(e.tx, again)), Picked(e.tx, again));
    assert ResendFrom(e, due, 0).end.log[|e.log|..] == Repeated(Picked(e.tx, again));
  }

  /** The network delivers or loses one packet at a time, and leaves the others as they are. */
  lemma OthersStayUnderWay(net: Net, step: Step)
    requires Enabled(net, step) && (step.Deliver? || step.Lose?)
    ensures var inbox, i := net.At(step.at).inbox, step.index;
            Next(net, step).At(step.at).inbox ==
            if step.Deliver? && step.keep then inbox else inbox[..i] + inbox[i + 1..]
    ensures step.Lose? ==>
              && Next(net, step).At(step.at).end == net.At(step.at).end
              && Next(net, step).At(step.at.Other()) == net.At(step.at.Other())
  {
    hide Receive;
    if step.Lose? {
      var h := net.At(step.at);
      assert Acting(h, step).end.log[|h.end.log|..] == [];
      assert net.At(step.at.Other()).inbox + [] == net.At(step.at.Other()).inbox;
    }
  }

  /** Receiving processes the packet received, and nothing else. */
  lemma ReceiveProcesses(e: Endpoint, p: Packet)
    ensures var log' := Receive(e, p).log;
            && e.log <= log' && |e.log| < |log'| <= |e.log| + 2
            && (log'[|e.log|] == Accepted(p) || log'[|e.log|] == Discarded(p))
            && (|log'| == |e.log| + 2 ==> log'[|e.log| + 1].FirstSent?)
  {
  }

  /** The events after `from` process nothing but packet `p`, if that. */
  ghost predicate ProcessesOnly(log: Log, from: nat, p: Packet) {
    forall k | from <= k < |log| && (log[k].Accepted? || log[k].Discarded?) :: log[k].packet == p
  }

  ghost predicate ProcessesNothing(log: Log, from: nat) {
    forall k | from <= k < |log| :: log[k].Emits()
  }

  /** The only packet a step processes is the one it delivers. */
  lemma DeliveryProcesses(h: Half, step: Step)
    requires step.Deliver? && step.index < |h.inbox|
    ensures h.end.log <= Acting(h, step).end.log
    ensures ProcessesOnly(Acting(h, step).end.log, |h.end.log|, h.inbox[step.index])
  {
    ReceiveProcesses(h.end, h.inbox[step.index]);
  }

  lemma OthersProcessNothing(h: Half, step: Step)
    requires !step.Deliver?
    requires step.Resend? ==> Alive(h.end.tx)
    requires step.Lose? ==> step.index < |h.inbox|
    ensures h.end.log <= Acting(h, step).end.log
    ensures ProcessesNothing(Acting(h, step).end.log, |h.end.log|)
  {
    if step.Resend? {
      ResendOnlyResends(h.end, step.due, 0);
    }
  }

  /** A step only takes packets out of the inbox of the acting half. */
  lemma ActingKeepsInbox(h: Half, step: Step, p: Packet)
    requires step.Resend? ==> Alive(h.end.tx)
    requires step.Deliver? || step.Lose? ==> step.index < |h.inbox|
    requires p in Acting(h, step).inbox
    ensures p in h.inbox
  {
    hide ResendFrom, Receive, SendFirst;
  }

  lemma ActingKeepsLinked(h: Half, peer: Half, step: Step)
    requires Linked(h, peer)
    requires step.Resend? ==> Alive(h.end.tx)
    requires step.Deliver? || step.Lose? ==> step.index < |h.inbox|
    ensures Linked(Acting(h, step), peer)
  {
    if step.Deliver? {
      DeliveryProcesses(h, step);
    } else {
      OthersProcessNothing(h, step);
    }
    hide Acting, Emitted;
    var h' := Acting(h, step);
    forall k | 0 <= k < |h'.inbox| ensures Emitted(peer.end.log, h'.inbox[k]) {
      ActingKeepsInbox(h, step, h'.inbox[k]);
    }
  }

  lemma PeerKeepsLinked(h: Half, h': Half, peer: Half)
    requires Linked(peer, h) && h.end.log <= h'.end.log
    ensures Linked(peer.(inbox := peer.inbox + Emissions(h'.end.log[|h.end.log|..])), h')
  {
    var news := h'.end.log[|h.end.log|..];
    forall p | Emitted(h.end.log, p) ensures Emitted(h'.end.log, p) {
      EmittedStays(h.end.log, h'.end.log, p);
    }
    forall k | 0 <= k < |Emissions(news)| ensures Emitted(h'.end.log, Emissions(news)[k]) {
      EmissionsAreEmitted(news, k);
      var i :| 0 <= i < |news| && news[i].Emits() && news[i].packet == Emissions(news)[k];
      assert h'.end.log[|h.end.log| + i] == news[i];
    }
  }

  /** What was emitted is carried, resends included. */
  lemma EmittedIsCarried(e: Endpoint, p: Packet, protocol: Protocol)
    requires ResendsCopies(e) && SendsCarried(e.log, protocol) && Emitted(e.log, p)
    ensures Carried(p, protocol)
  {
    var i :| 0 <= i < |e.log| && e.log[i].Emits() && e.log[i].packet == p;
    if e.log[i].Resent? {
      var j :| 0 <= j < |e.log[..i]| && e.log[..i][j] == FirstSent(p);
      assert e.log[j] == FirstSent(p);
    }
  }

  lemma InboxIsCarried(h: Half, peer: Half, i: nat, protocol: Protocol)
    requires Linked(h, peer) && Inv(peer.end) && SendsCarried(peer.end.log, protocol) && i < |h.inbox|
    ensures Carried(h.inbox[i], protocol)
  {
    EmittedIsCarried(peer.end, h.inbox[i], protocol);
  }

  lemma ReceiveSendsCarried(e: Endpoint, p: Packet, protocol: Protocol)
    requires SendsCarried(e.log, protocol) && Carried(p, protocol)
    ensures SendsCarried(Receive(e, p).log, protocol)
  {
    var e' := if IsDuplicate(e, p) then Discard(e, p) else Accept(e, p);
    StampedIsCarried(e', p, protocol);
    StampedIsCarried(e', AckFor(p.body), protocol);
  }

  lemma ActingSendsCarried(h: Half, step: Step, protocol: Protocol)
    requires SendsCarried(h.end.log, protocol)
    requires step.Send? ==> Carried(step.packet, protocol)
    requires step.Resend? ==> Alive(h.end.tx)
    requires step.Deliver? || step.Lose? ==> step.index < |h.inbox|
    requires step.Deliver? ==> Carried(h.inbox[step.index], protocol)
    ensures SendsCarried(Acting(h, step).end.log, protocol)
  {
    match step {
      case Send(_, p) => StampedIsCarried(h.end, p, protocol);
      case Resend(_, due) => ResendOnlyResends(h.end, due, 0);
      case Deliver(_, i, _) => ReceiveSendsCarried(h.end, h.inbox[i], protocol);
      case Lose(_, _) =>
    }
  }

  lemma NextKeepsInv(net: Net, step: Step)
    requires NetInv(net) && Enabled(net, step)
    ensures NetInv(Next(net, step))
  {
    hide Inv, SendsCarried, Acting, Emitted, Transmissible;
    var h, peer := net.At(step.at), net.At(step.at.Other());
    ActingKeepsHalfInv(h, step);
    ActingKeepsLinked(h, peer, step);
    if step.Deliver? {
      InboxIsCarried(h, peer, step.index, net.protocol);
    }
    ActingSendsCarried(h, step, net.protocol);
    PeerKeepsLinked(h, Acting(h, step), peer);
  }

  lemma {:induction false} RunKeepsInv(net: Net, steps: seq<Step>)
    requires NetInv(net) && CanRun(net, steps)
    ensures NetInv(Run(net, steps))
    decreases |steps|
  {
    if steps != [] {
      NextKeepsInv(net, steps[0]);
      RunKeepsInv(Next(net, steps[0]), steps[1..]);
    }
  }

  lemma ReachableInv(net: Net)
    requires Reachable(net)
    ensures NetInv(net)
  {
    InvNew();
    var steps :| CanRun(Start(net.protocol), steps) && Run(Start(net.protocol), steps) == net;
    RunKeepsInv(Start(net.protocol), steps);
  }

  /** One step less at the front. */
  lemma RunUnfolds(net: Net, steps: seq<Step>)
    requires steps != [] && Enabled(net, steps[0])
    ensures CanRun(net, steps) <==> CanRun(Next(net, steps[0]), steps[1..])
    ensures CanRun(net, steps) ==> Run(net, steps) == Run(Next(net, steps[0]), steps[1..])
  {
  }

  lemma RunOne(net: Net, step: Step)
    requires Enabled(net, step)
    ensures CanRun(net, [step]) && Run(net, [step]) == Next(net, step)
  {
    RunUnfolds(net, [step]);
    assert [step][1..] == [];
  }

  lemma RunStarts(net: Net, first: Step, rest: seq<Step>)
    requires Enabled(net, first) && CanRun(Next(net, first), rest)
    ensures CanRun(net, [first] + rest) && Run(net, [first] + rest) == Run(Next(net, first), rest)
  {
    assert ([first] + rest)[1..] == rest;
    RunUnfolds(net, [first] + rest);
  }

  lemma {:induction false} RunExtends(net: Net, steps: seq<Step>, step: Step)
    requires CanRun(net, steps) && Enabled(Run(net, steps), step)
    ensures CanRun(net, steps + [step]) && Run(net, steps + [step]) == Next(Run(net, steps), step)
    decreases |steps|
  {
    hide Enabled, Next;
    var all := steps + [step];
    if steps == [] {
      RunOne(net, step);
      assert all == [step];
    } else {
      RunExtends(Next(net, steps[0]), steps[1..], step);
      assert all == [steps[0]] + (steps[1..] + [step]);
      RunStarts(net, steps[0], steps[1..] + [step]);
    }
  }

  lemma ReachableNext(net: Net, step: Step)
    requires Reachable(net) && Enabled(net, step)
    ensures Reachable(Next(net, step))
  {
    var steps :| CanRun(Start(net.protocol), steps) && Run(Start(net.protocol), steps) == net;
    RunExtends(Start(net.protocol), steps, step);
  }

  lemma {:induction false} ReachableRun(net: Net, steps: seq<Step>)
    requires Reachable(net) && CanRun(net, steps)
    ensures Reachable(Run(net, steps))
    decreases |steps|
  {
    if steps != [] {
      ReachableNext(net, steps[0]);
      ReachableRun(Next(net, steps[0]), steps[1..]);
    }
  }

  lemma StartIsReachable(protocol: Protocol)
    ensures Reachable(Start(protocol))
  {
    assert CanRun(Start(protocol), []) && Run(Start(protocol), []) == Start(protocol);
  }
}
