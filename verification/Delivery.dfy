/** What holds in every run of two endpoints over an unreliable network. */
module Delivery {
  import opened SequenceNumbers
  import opened Packets
  import opened Reliability
  import opened EndpointHistory
  import opened Network
  import opened DatagramFormat
  import Codec

  // ---- Packets stand for datagrams ----------------------------------------

  /** In every run, a packet under way can be sent as a datagram, and the reader at the other
      end makes it of that datagram, whatever follows in the buffer: delivering the packet is
      reading the datagram and processing what was read. */
  lemma DeliveriesAreDatagrams(net: Net, s: Side, i: nat, tail: seq<byte>)
    requires Reachable(net) && i < |net.At(s).inbox|
    ensures var p, e := net.At(s).inbox[i], net.At(s).end;
            var datagram := Codec.Encode(p) + tail;
            && Codec.Fits(p) && Covers(net.protocol, datagram)
            && Read(net.protocol, datagram).Parsed?
            && Receive(e, Read(net.protocol, datagram).packet.(serial := p.serial)) == Receive(e, p)
  {
    ReachableInv(net);
    EmittedIsCarried(net.At(s.Other()).end, net.At(s).inbox[i], net.protocol);
    DatagramCarriesPacket(net.At(s).end, net.At(s).inbox[i], net.protocol, tail);
  }

  // ---- Acknowledged means processed ---------------------------------------

  /** Packets an endpoint accepted acknowledge only what its peer had accepted, and number 0. */
  lemma AcceptedAcksAreTrue(net: Net, s: Side, i: nat, n: U16)
    requires NetInv(net)
    requires i < |net.At(s).end.log| && net.At(s).end.log[i].Accepted?
    requires net.At(s).end.log[i].packet.Acknowledges(n)
    ensures n == 0 || HasAccepted(net.At(s.Other()).end.log, n)
  {
    var peer := net.At(s.Other()).end;
    var q := net.At(s).end.log[i].packet;
    assert Emitted(peer.log, q);
    var k :| 0 <= k < |peer.log| && peer.log[k].Emits() && peer.log[k].packet == q;
    JustifiedLater(peer.log[..k], peer.log, q);
  }

  /** The packet leaves the transmit list for good. */
  ghost predicate Dropped(t: Packet, before: seq<Packet>, after: seq<Packet>) {
    t in before && forall q | q in after :: q.serial != t.serial
  }

  /** Ack soundness: in every run, when a step drops number `n` from a transmit list, the
      peer has already accepted a packet carrying `n`, or `n` is 0. */
  lemma AckSoundness(net: Net, step: Step, s: Side, t: Packet)
    requires Reachable(net) && Enabled(net, step)
    requires Dropped(t, net.At(s).end.tx, Next(net, step).At(s).end.tx)
    ensures t.seqnum == 0 || HasAccepted(net.At(s.Other()).end.log, t.seqnum)
  {
    ReachableInv(net);
    var h := net.At(s);
    var q := DropIsDelivery(net, step, s, t);
    var peer := net.At(s.Other()).end;
    assert Emitted(peer.log, q);
    var k :| 0 <= k < |peer.log| && peer.log[k].Emits() && peer.log[k].packet == q;
    JustifiedLater(peer.log[..k], peer.log, q);
  }

  /** A step that delivers nothing to an end keeps its entries. */
  lemma OthersKeepEntry(net: Net, step: Step, s: Side, t: Packet)
    requires Enabled(net, step) && !(step.Deliver? && step.at == s)
    requires t in net.At(s).end.tx
    ensures exists q :: q in Next(net, step).At(s).end.tx && q.serial == t.serial
  {
    var e := net.At(s).end;
    var tx' := Next(net, step).At(s).end.tx;
    var i :| 0 <= i < |e.tx| && e.tx[i] == t;
    if step.at == s && step.Resend? {
      ResendOnlyResends(e, step.due, 0);
    }
    assert tx'[i] in tx';
  }

  /** Only delivering a packet that acknowledges it drops an entry. */
  lemma DropIsDelivery(net: Net, step: Step, s: Side, t: Packet) returns (q: Packet)
    requires Enabled(net, step)
    requires Dropped(t, net.At(s).end.tx, Next(net, step).At(s).end.tx)
    ensures step.Deliver? && step.at == s && q == net.At(s).inbox[step.index] && q.Acknowledges(t.seqnum)
  {
    q := t;
    if step.Deliver? && step.at == s {
      q := net.At(s).inbox[step.index];
      UnacknowledgedMembers(net.At(s).end.tx, q, t);
    } else {
      OthersKeepEntry(net, step, s, t);
    }
  }

  // ---- Nothing is lost ----------------------------------------------------

  lemma {:induction false} SerialIsMonotone(log: Log, i: nat, j: nat)
    requires i <= j <= |log|
    ensures Serial(log[..i]) <= Serial(log[..j])
    decreases j
  {
    if i < j {
      SerialIsMonotone(log, i, j - 1);
      assert log[..j][..j - 1] == log[..j - 1];
    }
  }

  /** A later reliable packet has a larger serial. */
  lemma SerialsGrow(log: Log, i: nat, j: nat)
    requires i < j <= |log| && log[i].Numbers()
    ensures Serial(log[..i]) < Serial(log[..j]) <= Serial(log)
  {
    assert log[..i + 1][..i] == log[..i];
    SerialIsMonotone(log, i + 1, j);
    SerialIsMonotone(log, j, |log|);
    assert log[..|log|] == log;
  }

  /** With at most 65536 reliable packets, a number identifies its reliable packet. */
  lemma NumbersIdentify(e: Endpoint, i: nat, j: nat)
    requires Numbered(e) && Serial(e.log) <= MODULUS
    requires i <= j < |e.log| && e.log[i].Numbers() && e.log[j].Numbers()
    requires e.log[i].packet.seqnum == e.log[j].packet.seqnum
    ensures i == j
  {
    SerialsGrow(e.log, j, j + 1);
    if i < j {
      SerialsGrow(e.log, i, j);
    }
  }

  /** An emitted reliable packet was first sent. */
  lemma EmittedReliable(e: Endpoint, w: Packet) returns (i: nat)
    requires ResendsCopies(e) && Emitted(e.log, w) && w.Reliable()
    ensures i < |e.log| && e.log[i] == FirstSent(w)
  {
    i :| 0 <= i < |e.log| && e.log[i].Emits() && e.log[i].packet == w;
    if e.log[i].Resent? {
      var j :| 0 <= j < |e.log[..i]| && e.log[..i][j] == FirstSent(w);
      assert e.log[j] == FirstSent(w);
      i := j;
    }
  }

  /** Only reliable packets are sent again. */
  lemma EmittedUnreliable(e: Endpoint, w: Packet) returns (j: nat)
    requires ResendsCopies(e) && Emitted(e.log, w) && w.Unreliable()
    ensures j < |e.log| && e.log[j] == FirstSent(w)
  {
    j :| 0 <= j < |e.log| && e.log[j].Emits() && e.log[j].packet == w;
  }

  /** What a peer has that carries number `n`: that packet itself, or an unreliable one. */
  ghost predicate ReachedPeer(peer: Log, p: Packet) {
    Accepted(p) in peer || exists w :: Accepted(w) in peer && w.seqnum == p.seqnum && w.Unreliable()
  }

  lemma AcceptedNumberIsPacket(net: Net, s: Side, i: nat)
    requires NetInv(net) && Serial(net.At(s).end.log) <= MODULUS
    requires i < |net.At(s).end.log| && net.At(s).end.log[i].Numbers()
    requires HasAccepted(net.At(s.Other()).end.log, net.At(s).end.log[i].packet.seqnum)
    ensures ReachedPeer(net.At(s.Other()).end.log, net.At(s).end.log[i].packet)
  {
    var e, peer := net.At(s).end, net.At(s.Other()).end.log;
    var p := e.log[i].packet;
    var k :| 0 <= k < |peer| && peer[k].Accepted? && peer[k].packet.seqnum == p.seqnum;
    var w := peer[k].packet;
    assert Accepted(w) in peer;
    if w.Reliable() {
      assert Emitted(e.log, w);
      var j := EmittedReliable(e, w);
      NumbersIdentify(e, if i < j then i else j, if i < j then j else i);
    }
  }

  lemma {:induction false} SurvivorIsOutstanding(log: Log, n: nat, i: nat)
    requires i < n <= |log| && log[i].Numbers() && !AckedAfter(log, i)
    ensures log[i].packet in Outstanding(log, n)
  {
    if i < n - 1 {
      SurvivorIsOutstanding(log, n - 1, i);
    }
  }

  /** Reliability. In every run in which an end numbers at most 65536 packets, each reliable
      packet it sent, except the one numbered 0, is still in its transmit list or was
      accepted by the peer, unless the peer accepted an unreliable packet carrying its number. */
  lemma NothingIsLost(net: Net, s: Side, i: nat)
    requires Reachable(net) && Serial(net.At(s).end.log) <= MODULUS
    requires i < |net.At(s).end.log| && net.At(s).end.log[i].Numbers()
    ensures var p := net.At(s).end.log[i].packet;
            p.seqnum == 0 || p in OnWires(net.At(s).end.tx) || ReachedPeer(net.At(s.Other()).end.log, p)
  {
    ReachableInv(net);
    var e := net.At(s).end;
    var p := e.log[i].packet;
    if AckedAfter(e.log, i) {
      var j :| i < j < |e.log| && e.log[j].Accepted? && e.log[j].packet.Acknowledges(p.seqnum);
      AcceptedAcksAreTrue(net, s, j, p.seqnum);
      if p.seqnum != 0 {
        AcceptedNumberIsPacket(net, s, i);
      }
    } else {
      SurvivorIsOutstanding(e.log, |e.log|, i);
    }
  }

  lemma AcceptedWasEmitted(net: Net, s: Side, w: Packet)
    requires NetInv(net) && Accepted(w) in net.At(s).end.log
    ensures Emitted(net.At(s.Other()).end.log, w)
  {
    var i :| 0 <= i < |net.At(s).end.log| && net.At(s).end.log[i] == Accepted(w);
  }

  lemma AcceptedInRun(net: Net, s: Side, w: Packet)
    requires Reachable(net) && Accepted(w) in net.At(s.Other()).end.log
    ensures var e := net.At(s).end; Emitted(e.log, w) && Numbered(e) && ResendsCopies(e)
  {
    ReachableInv(net);
    assert s.Other().Other() == s;
    AcceptedWasEmitted(net, s.Other(), w);
  }

  /** So an end that sends only reliable packets, acks included, has each of them either
      listed or accepted by the peer. */
  lemma OnlyReliableIsDelivered(net: Net, s: Side, i: nat)
    requires Reachable(net) && Serial(net.At(s).end.log) <= MODULUS
    requires forall k | 0 <= k < |net.At(s).end.log| && net.At(s).end.log[k].FirstSent? ::
               net.At(s).end.log[k].Numbers()
    requires i < |net.At(s).end.log| && net.At(s).end.log[i].FirstSent?
    ensures var p := net.At(s).end.log[i].packet;
            p.seqnum == 0 || p in OnWires(net.At(s).end.tx) || Accepted(p) in net.At(s.Other()).end.log
  {
    NothingIsLost(net, s, i);
    forall w | Accepted(w) in net.At(s.Other()).end.log ensures w.Reliable() {
      AcceptedInRun(net, s, w);
      OnlyReliableEmitted(net.At(s).end, w);
    }
  }

  lemma OnlyReliableEmitted(e: Endpoint, w: Packet)
    requires ResendsCopies(e) && Emitted(e.log, w)
    requires forall k | 0 <= k < |e.log| && e.log[k].FirstSent? :: e.log[k].Numbers()
    ensures w.Reliable()
  {
    var j :| 0 <= j < |e.log| && e.log[j].Emits() && e.log[j].packet == w;
  }

  // ---- Counters, conservation, duplicates, resends ------------------------

  /** Every packet accepted came within half the number space of the highest before it. */
  predicate InWindow(log: Log) {
    forall i | 0 <= i < |log| && log[i].Accepted? ::
      -(MODULUS / 2) < log[i].packet.serial - High(log[..i]) < MODULUS / 2
  }

  /** A packet under way or processed shows its counter, wrapped. */
  lemma EmittedIsNumbered(e: Endpoint, w: Packet)
    requires Numbered(e) && ResendsCopies(e) && Emitted(e.log, w)
    ensures w.seqnum == Wrap(w.serial)
  {
    var i :| 0 <= i < |e.log| && e.log[i].Emits() && e.log[i].packet == w;
    if e.log[i].Resent? {
      var j := EmittedReliable(e, w);
    }
  }

  /** The wrapping numbers stand for unbounded counters: the local number for the reliable
      packets sent, and the remote one, while packets stay in the window, for the highest accepted. */
  lemma NumbersRefineCounters(net: Net, s: Side)
    requires Reachable(net)
    ensures net.At(s).end.local == Wrap(Serial(net.At(s).end.log))
    ensures InWindow(net.At(s).end.log) ==> net.At(s).end.remote == Wrap(High(net.At(s).end.log))
  {
    ReachableInv(net);
    var e, peer := net.At(s).end, net.At(s.Other()).end;
    forall i | 0 <= i < |e.log| && e.log[i].Accepted? ensures e.log[i].packet.seqnum == Wrap(e.log[i].packet.serial) {
      assert Emitted(peer.log, e.log[i].packet);
      EmittedIsNumbered(peer, e.log[i].packet);
    }
  }

  lemma {:induction false} HighIsBounded(log: Log, n: nat)
    requires forall i | 0 <= i < |log| && log[i].Accepted? :: log[i].packet.serial <= n
    ensures High(log) <= n
  {
    if log != [] {
      var init := log[..|log| - 1];
      assert forall i | 0 <= i < |init| :: init[i] == log[i];
      HighIsBounded(init, n);
    }
  }

  /** Packets stay in the window in every run in which the peer numbers fewer than 32768. */
  lemma ShortRunsStayInWindow(net: Net, s: Side)
    requires Reachable(net) && Serial(net.At(s.Other()).end.log) < MODULUS / 2
    ensures InWindow(net.At(s).end.log)
  {
    var log, n := net.At(s).end.log, Serial(net.At(s.Other()).end.log);
    AcceptedIsBounded(net, s);
    forall i | 0 <= i < |log| && log[i].Accepted?
      ensures -(MODULUS / 2) < log[i].packet.serial - High(log[..i]) < MODULUS / 2
    {
      HighIsBounded(log[..i], n);
    }
  }

  lemma AcceptedIsBounded(net: Net, s: Side)
    requires Reachable(net)
    ensures var log, n := net.At(s).end.log, Serial(net.At(s.Other()).end.log);
            forall i | 0 <= i < |log| && log[i].Accepted? :: log[i].packet.serial <= n
  {
    ReachableInv(net);
    var log, peer := net.At(s).end.log, net.At(s.Other()).end;
    forall i | 0 <= i < |log| && log[i].Accepted? ensures log[i].packet.serial <= Serial(peer.log) {
      assert Emitted(peer.log, log[i].packet);
      EmittedIsBounded(peer, log[i].packet);
    }
  }

  lemma {:induction false} HighIsMonotone(log: Log, n: nat)
    requires n <= |log|
    ensures High(log[..n]) <= High(log)
    decreases |log|
  {
    if n < |log| {
      HighIsMonotone(log[..|log| - 1], n);
      assert log[..|log| - 1][..n] == log[..n];
    } else {
      assert log[..n] == log;
    }
  }

  lemma InWindowBefore(log: Log, log': Log)
    requires log <= log' && InWindow(log')
    ensures InWindow(log)
  {
    forall i | 0 <= i < |log| && log[i].Accepted?
      ensures -(MODULUS / 2) < log[i].packet.serial - High(log[..i]) < MODULUS / 2
    {
      assert log'[i] == log[i] && log'[..i] == log[..i];
    }
  }

  /** Histories only grow. */
  lemma {:induction false} LogsGrow(net: Net, steps: seq<Step>, s: Side)
    requires NetInv(net) && CanRun(net, steps)
    ensures net.At(s).end.log <= Run(net, steps).At(s).end.log
    decreases |steps|
  {
    if steps != [] {
      NextKeepsInv(net, steps[0]);
      LogGrows(net, steps[0], s);
      LogsGrow(Next(net, steps[0]), steps[1..], s);
    }
  }

  lemma LogGrows(net: Net, step: Step, s: Side)
    requires NetInv(net) && Enabled(net, step)
    ensures net.At(s).end.log <= Next(net, step).At(s).end.log
  {
    ActingKeepsEndInv(net.At(step.at), step);
  }

  /** Over any stretch of a run the remote number stands, while packets stay in the window,
      for a counter that never falls. */
  lemma RemoteNeverFalls(net: Net, steps: seq<Step>, s: Side)
    requires Reachable(net) && CanRun(net, steps) && InWindow(Run(net, steps).At(s).end.log)
    ensures var e, e' := net.At(s).end, Run(net, steps).At(s).end;
            e.remote == Wrap(High(e.log)) && e'.remote == Wrap(High(e'.log)) && High(e.log) <= High(e'.log)
  {
    ReachableRun(net, steps);
    ReachableLogsGrow(net, steps, s);
    NumbersRefineCounters(net, s);
    NumbersRefineCounters(Run(net, steps), s);
    CountersGrow(net.At(s).end, Run(net, steps).At(s).end);
  }

  lemma CountersGrow(e: Endpoint, e': Endpoint)
    requires e.log <= e'.log && InWindow(e'.log) && e'.remote == Wrap(High(e'.log))
    requires InWindow(e.log) ==> e.remote == Wrap(High(e.log))
    ensures e.remote == Wrap(High(e.log)) && High(e.log) <= High(e'.log)
  {
    InWindowBefore(e.log, e'.log);
    HighIsMonotone(e'.log, |e.log|);
    assert e'.log[..|e.log|] == e.log;
  }

  lemma ReachableLogsGrow(net: Net, steps: seq<Step>, s: Side)
    requires Reachable(net) && CanRun(net, steps)
    ensures net.At(s).end.log <= Run(net, steps).At(s).end.log
  {
    ReachableInv(net);
    LogsGrow(net, steps, s);
  }

  // ---- Duplicates ---------------------------------------------------------

  lemma {:induction false} AcceptedReliableIn(log: Log, w: Packet)
    ensures w in AcceptedReliable(log) <==> Accepted(w) in log && w.Reliable()
  {
    if log != [] {
      var init, e := log[..|log| - 1], log[|log| - 1];
      assert log == init + [e];
      AcceptedReliableIn(init, w);
    }
  }

  /** A listed packet was accepted. */
  lemma ListedWasAccepted(e: Endpoint, w: Packet)
    requires Deduplicates(e) && w in e.rx
    ensures Accepted(w) in e.log && w.Reliable()
  {
    assert w in AcceptedReliable(e.log);
    AcceptedReliableIn(e.log, w);
  }

  /** A reliable packet is known by its counter. */
  lemma SameSerialSamePacket(peer: Endpoint, p: Packet, w: Packet)
    requires Numbered(peer) && ResendsCopies(peer)
    requires Emitted(peer.log, p) && Emitted(peer.log, w) && p.Reliable() && w.Reliable() && p.serial == w.serial
    ensures p == w
  {
    var i := EmittedReliable(peer, p);
    var j := EmittedReliable(peer, w);
    SerialIdentifies(peer.log, i, j);
  }

  lemma SerialIdentifies(log: Log, i: nat, j: nat)
    requires i < |log| && j < |log| && log[i].Numbers() && log[j].Numbers()
    requires Serial(log[..i]) == Serial(log[..j])
    ensures i == j
  {
    if i < j {
      SerialsGrow(log, i, j);
    } else if j < i {
      SerialsGrow(log, j, i);
    }
  }

  /** What a packet shows, and the counter it stands for. */
  lemma EmittedIsBounded(e: Endpoint, w: Packet)
    requires Numbered(e) && ResendsCopies(e) && Emitted(e.log, w)
    ensures w.seqnum == Wrap(w.serial) && w.serial <= Serial(e.log)
    ensures w.Reliable() ==> w.serial < Serial(e.log)
  {
    EmittedIsNumbered(e, w);
    if w.Reliable() {
      var i := EmittedReliable(e, w);
      SerialsGrow(e.log, i, i + 1);
    } else {
      var i :| 0 <= i < |e.log| && e.log[i].Emits() && e.log[i].packet == w;
      SerialIsMonotone(e.log, i, |e.log|);
      assert e.log[..|e.log|] == e.log;
    }
  }

  lemma InboxIsBounded(net: Net, s: Side, p: Packet)
    requires Reachable(net) && p in net.At(s).inbox
    ensures var peer := net.At(s.Other()).end;
            && Emitted(peer.log, p) && Numbered(peer) && ResendsCopies(peer)
            && p.seqnum == Wrap(p.serial) && p.serial <= Serial(peer.log)
            && (p.Reliable() ==> p.serial < Serial(peer.log))
  {
    ReachableInv(net);
    EmittedIsBounded(net.At(s.Other()).end, p);
  }

  lemma ListIsBounded(net: Net, s: Side, w: Packet)
    requires Reachable(net) && w in net.At(s).end.rx
    ensures var peer := net.At(s.Other()).end;
            && Accepted(w) in net.At(s).end.log && Emitted(peer.log, w)
            && w.seqnum == Wrap(w.serial) && w.serial < Serial(peer.log) && w.Reliable()
  {
    ReachableInv(net);
    ListedWasAccepted(net.At(s).end, w);
    AcceptedWasEmitted(net, s, w);
    EmittedIsBounded(net.At(s.Other()).end, w);
  }

  lemma ListIsNumbered(net: Net, s: Side)
    requires Reachable(net)
    ensures forall w | w in net.At(s).end.rx ::
              w.seqnum == Wrap(w.serial) && w.serial < Serial(net.At(s.Other()).end.log)
  {
    forall w | w in net.At(s).end.rx
      ensures w.seqnum == Wrap(w.serial) && w.serial < Serial(net.At(s.Other()).end.log)
    {
      ListIsBounded(net, s, w);
    }
  }

  /** Fewer than 65536 numbers away from everything listed. */
  predicate Near(rx: seq<Packet>, p: Packet) {
    forall w | w in rx :: -MODULUS < w.serial - p.serial < MODULUS
  }

  /** Among the last 18 reliable packets accepted is the one with this counter. */
  ghost predicate Overtaken(e: Endpoint, serial: nat) {
    exists w :: w in Last(AcceptedReliable(e.log), RX_CAPACITY) && w.serial == serial
  }

  lemma ShowsNumber(rx: seq<Packet>, p: Packet)
    requires p.seqnum == Wrap(p.serial) && forall w | w in rx :: w.seqnum == Wrap(w.serial)
    ensures p.seqnum in Packets.Numbers(rx) <==> exists w :: w in rx && Wrap(w.serial) == Wrap(p.serial)
    ensures Near(rx, p) ==> (p.seqnum in Packets.Numbers(rx) <==> exists w :: w in rx && w.serial == p.serial)
  {
    var ns := Packets.Numbers(rx);
    if p.seqnum in ns {
      var k :| 0 <= k < |rx| && ns[k] == p.seqnum;
      assert rx[k] in rx;
      if Near(rx, p) {
        WrapIsInjective(rx[k].serial, p.serial);
      }
    }
    forall w | w in rx && Wrap(w.serial) == Wrap(p.serial) ensures p.seqnum in ns {
      var k :| 0 <= k < |rx| && rx[k] == w;
      assert ns[k] == p.seqnum;
    }
  }

  lemma WrapIsInjective(a: nat, b: nat)
    requires Wrap(a) == Wrap(b) && -MODULUS < a - b < MODULUS
    ensures a == b
  {
  }

  /** Duplicate suppression, exactly. In every run, however long, any packet under way, acks
      included, is taken for a duplicate if and only if one of the last 18 reliable packets
      accepted has a counter that wraps to the same number. With all of those fewer than 65536
      numbers away that is the very same counter. */
  lemma DuplicatesAreExact(net: Net, s: Side, p: Packet)
    requires Reachable(net) && p in net.At(s).inbox
    ensures var e := net.At(s).end;
            var last := Last(AcceptedReliable(e.log), RX_CAPACITY);
            && (IsDuplicate(e, p) <==> exists w :: w in last && Wrap(w.serial) == Wrap(p.serial))
            && (Near(last, p) ==> (IsDuplicate(e, p) <==> Overtaken(e, p.serial)))
  {
    ListsMatchHistory(net, s);
    InboxIsBounded(net, s, p);
    ListIsNumbered(net, s);
    ShowsNumber(net.At(s).end.rx, p);
  }

  lemma OvertakenByItself(net: Net, s: Side, p: Packet)
    requires Reachable(net) && p in net.At(s).inbox && p.Reliable()
    ensures Overtaken(net.At(s).end, p.serial) <==> p in Last(AcceptedReliable(net.At(s).end.log), RX_CAPACITY)
    ensures Overtaken(net.At(s).end, p.serial) ==> Accepted(p) in net.At(s).end.log
  {
    var e := net.At(s).end;
    ListsMatchHistory(net, s);
    if Overtaken(e, p.serial) {
      var w :| w in Last(AcceptedReliable(e.log), RX_CAPACITY) && w.serial == p.serial;
      InboxIsBounded(net, s, p);
      ListIsBounded(net, s, w);
      SameSerialSamePacket(net.At(s.Other()).end, p, w);
    }
  }

  lemma NearWhileShort(net: Net, s: Side, p: Packet)
    requires Reachable(net) && p in net.At(s).inbox
    requires Serial(net.At(s.Other()).end.log) < MODULUS + if p.Reliable() then 1 else 0
    ensures Near(Last(AcceptedReliable(net.At(s).end.log), RX_CAPACITY), p)
  {
    ListsMatchHistory(net, s);
    InboxIsBounded(net, s, p);
    ListIsNumbered(net, s);
  }

  /** So no new reliable packet is discarded: in every run in which the peer numbers at most
      65536 packets, a reliable packet under way is taken for a duplicate if and only if it is
      among the last 18 reliable packets accepted. */
  lemma DuplicatesAreTrue(net: Net, s: Side, p: Packet)
    requires Reachable(net) && p in net.At(s).inbox && p.Reliable()
    requires Serial(net.At(s.Other()).end.log) <= MODULUS
    ensures IsDuplicate(net.At(s).end, p) <==> p in Last(AcceptedReliable(net.At(s).end.log), 18)
    ensures IsDuplicate(net.At(s).end, p) ==> Accepted(p) in net.At(s).end.log
  {
    NearWhileShort(net, s, p);
    DuplicatesAreExact(net, s, p);
    OvertakenByItself(net, s, p);
  }

  /** But unreliable ones may be, and this is exactly when. In every run in which the peer
      numbers fewer than 65536 packets, an unreliable packet under way is discarded if and only
      if the reliable packet its sender sent next has overtaken it, and is still among the last
      18 reliable packets accepted. */
  lemma UnreliableIsOvertaken(net: Net, s: Side, p: Packet)
    requires Reachable(net) && p in net.At(s).inbox && p.Unreliable()
    requires Serial(net.At(s.Other()).end.log) < MODULUS
    ensures var e := net.At(s).end;
            var last := Last(AcceptedReliable(e.log), 18);
            && (IsDuplicate(e, p) <==> Overtaken(e, p.serial))
            && (IsDuplicate(e, p) <==> NextIsIn(net.At(s.Other()).end.log, p, last))
  {
    NearWhileShort(net, s, p);
    DuplicatesAreExact(net, s, p);
    OvertakenByNext(net, s, p);
  }

  /** The reliable packet sent next after this unreliable one is among these. */
  ghost predicate NextIsIn(log: Log, p: Packet, ps: seq<Packet>) {
    exists i: nat, j: nat ::
      i < |log| && j < |log| && log[i] == FirstSent(p) && IsNext(log, i, j) && log[j].packet in ps
  }

  lemma OvertakenByNext(net: Net, s: Side, p: Packet)
    requires Reachable(net) && p in net.At(s).inbox && p.Unreliable()
    ensures var e := net.At(s).end;
            Overtaken(e, p.serial) <==>
            NextIsIn(net.At(s.Other()).end.log, p, Last(AcceptedReliable(e.log), RX_CAPACITY))
  {
    var e, peer := net.At(s).end, net.At(s.Other()).end;
    var last := Last(AcceptedReliable(e.log), RX_CAPACITY);
    ListsMatchHistory(net, s);
    InboxIsBounded(net, s, p);
    if Overtaken(e, p.serial) {
      var w :| w in last && w.serial == p.serial;
      ListIsBounded(net, s, w);
      NextIsThis(peer, p, w, last);
    }
    NextHasCounter(peer, p, last);
  }

  lemma NextHasCounter(peer: Endpoint, p: Packet, ps: seq<Packet>)
    requires Numbered(peer) && p.Unreliable()
    ensures NextIsIn(peer.log, p, ps) ==> exists w :: w in ps && w.serial == p.serial
  {
    var log := peer.log;
    if NextIsIn(log, p, ps) {
      var i: nat, j: nat :|
        i < |log| && j < |log| && log[i] == FirstSent(p) && IsNext(log, i, j) && log[j].packet in ps;
      SharesCounter(peer, i, j);
    }
  }

  lemma NextIsThis(peer: Endpoint, p: Packet, w: Packet, ps: seq<Packet>)
    requires Numbered(peer) && ResendsCopies(peer) && Emitted(peer.log, p) && Emitted(peer.log, w)
    requires p.Unreliable() && w.Reliable() && w.serial == p.serial && w in ps
    ensures NextIsIn(peer.log, p, ps)
  {
    var i := EmittedUnreliable(peer, p);
    var j := EmittedReliable(peer, w);
    SharesCounter(peer, i, j);
  }

  /** Event `j` is the first after `i` that numbers a packet. */
  predicate IsNext(log: Log, i: nat, j: nat) {
    i < j < |log| && log[j].Numbers() && forall k | i < k < j :: !log[k].Numbers()
  }

  /** An unreliable packet has the counter of the reliable one sent next, and of no other. */
  lemma SharesCounter(e: Endpoint, i: nat, j: nat)
    requires Numbered(e) && i < |e.log| && j < |e.log|
    requires e.log[i].FirstSent? && !e.log[i].Numbers() && e.log[j].Numbers()
    ensures e.log[j].packet.serial == e.log[i].packet.serial <==> IsNext(e.log, i, j)
  {
    if j < i {
      SerialsGrow(e.log, j, i);
    } else if forall k | i < k < j :: !e.log[k].Numbers() {
      SerialStays(e.log, i, j);
    } else {
      var k :| i < k < j && e.log[k].Numbers();
      SerialIsMonotone(e.log, i, k);
      SerialsGrow(e.log, k, j);
    }
  }

  lemma {:induction false} SerialStays(log: Log, i: nat, j: nat)
    requires i <= j <= |log| && forall k | i <= k < j :: !log[k].Numbers()
    ensures Serial(log[..i]) == Serial(log[..j])
    decreases j
  {
    if i < j {
      SerialStays(log, i, j - 1);
      assert log[..j][..j - 1] == log[..j - 1];
    }
  }

  /** In every reachable state the transmit list is, in send order and as first sent, the
      reliable packets that no packet accepted later acknowledges; the receive list is the
      last 18 reliable packets accepted, and no number repeats within 19 of those. */
  lemma ListsMatchHistory(net: Net, s: Side)
    requires Reachable(net)
    ensures var e := net.At(s).end;
            var accepted := AcceptedReliable(e.log);
            && OnWires(e.tx) == Outstanding(e.log, |e.log|)
            && e.rx == Last(accepted, 18)
            && forall i, j | 0 <= i < j < |accepted| && j - i <= 18 :: accepted[i].seqnum != accepted[j].seqnum
  {
    ReachableInv(net);
  }

  /** In every run, a reliable packet is on the wire at most 5 times and nothing else is ever
      sent twice; until an end times out its entries have had 1 to 5 attempts, so that
      resending is always defined, numbers no packet and lists none. */
  lemma ResendingIsBounded(net: Net, s: Side, due: set<nat>)
    requires Reachable(net)
    ensures forall k: nat :: TimesSent(net.At(s).end.log, k) <= 5
    ensures forall i | 0 <= i < |net.At(s).end.log| && net.At(s).end.log[i].Resent? ::
              net.At(s).end.log[i].packet.Reliable()
    ensures !net.At(s).expired ==>
              && Enabled(net, Resend(s, due))
              && var e, e' := net.At(s).end, Next(net, Resend(s, due)).At(s).end;
                 && Alive(e.tx) && |e'.tx| == |e.tx| && e'.local == e.local
                 && (forall k | 0 <= k < |e.tx| :: e'.tx[k].OnWire() == e.tx[k].OnWire())
                 && (forall k | |e.log| <= k < |e'.log| :: e'.log[k].Resent?)
  {
    ReachableInv(net);
    if !net.At(s).expired {
      ResendOnlyResends(net.At(s).end, due, 0);
    }
  }

  // ---- Quiescence ---------------------------------------------------------

  /** Only the network acts, and it does not duplicate. */
  predicate Quiet(step: Step) {
    step.Lose? || (step.Deliver? && !step.keep)
  }

  function Weight(inbox: seq<Packet>): nat {
    if inbox == [] then 0
    else Weight(inbox[..|inbox| - 1]) + if inbox[|inbox| - 1].WantsAck() then 2 else 1
  }

  function Pending(net: Net): nat {
    Weight(net.left.inbox) + Weight(net.right.inbox)
  }

  lemma {:induction false} WeightSplits(a: seq<Packet>, b: seq<Packet>)
    ensures Weight(a + b) == Weight(a) + Weight(b)
  {
    if b == [] {
      assert a + b == a;
    } else {
      WeightSplits(a, b[..|b| - 1]);
      assert (a + b)[..|a + b| - 1] == a + b[..|b| - 1];
    }
  }

  lemma WeightWithout(inbox: seq<Packet>, i: nat)
    requires i < |inbox|
    ensures Weight(Without(inbox, i)) == Weight(inbox) - if inbox[i].WantsAck() then 2 else 1
  {
    var one := [inbox[i]];
    WeightSplits(inbox[..i], inbox[i + 1..]);
    WeightSplits(inbox[..i], one);
    WeightSplits(inbox[..i] + one, inbox[i + 1..]);
    assert inbox == inbox[..i] + one + inbox[i + 1..];
    assert one[..0] == [];
    assert Weight(one) == if inbox[i].WantsAck() then 2 else 1;
  }

  /** Processing a packet that asks for an ack emits the answer and nothing else. */
  lemma AnswerIsEmitted(e: Endpoint, p: Packet)
    ensures var news := Receive(e, p).log[|e.log|..];
            if p.WantsAck() then |news| == 2 && Emissions(news) == [news[1].packet] else Emissions(news) == []
  {
    var news := Receive(e, p).log[|e.log|..];
    assert !news[0].Emits();
    if p.WantsAck() {
      assert news[..1] == [news[0]] && [news[0]][..0] == [];
      assert Emissions(news) == Emissions([news[0]]) + [news[1].packet];
      assert Emissions([news[0]]) == Emissions([]) + [];
    } else {
      assert news == [news[0]] && news[..0] == [];
    }
  }

  /** The answer asks for nothing. */
  lemma DeliveryEmits(e: Endpoint, p: Packet)
    ensures var news := Receive(e, p).log[|e.log|..];
            Weight(Emissions(news)) == if p.WantsAck() then 1 else 0
  {
    AnswerIsEmitted(e, p);
    if p.WantsAck() {
      var answer := Receive(e, p).log[|e.log|..][1].packet;
      assert !answer.WantsAck();
      assert [answer][..0] == [];
    }
  }

  lemma QuietStepSettles(net: Net, step: Step)
    requires Enabled(net, step) && Quiet(step)
    ensures Pending(Next(net, step)) < Pending(net)
  {
    var h, peer := net.At(step.at), net.At(step.at.Other());
    WeightWithout(h.inbox, step.index);
    var news := Acting(h, step).end.log[|h.end.log|..];
    WeightSplits(peer.inbox, Emissions(news));
    if step.Deliver? {
      DeliveryEmits(h.end, h.inbox[step.index]);
    } else {
      assert news == [];
    }
  }

  /** Left alone, a network that does not duplicate goes quiet: no run is longer than what
      is under way, counting packets that ask for an ack twice. */
  lemma {:induction false} Quiescence(net: Net, steps: seq<Step>)
    requires CanRun(net, steps) && forall step | step in steps :: Quiet(step)
    ensures |steps| <= Pending(net)
    decreases |steps|
  {
    if steps != [] {
      QuietStepSettles(net, steps[0]);
      Quiescence(Next(net, steps[0]), steps[1..]);
    }
  }
}
