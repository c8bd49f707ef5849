/** What an endpoint's state says about its history, kept by every operation. */
module EndpointHistory {
  import opened SequenceNumbers
  import opened Packets
  import opened Reliability
  import Acks

  // ---- Reading a history --------------------------------------------------

  predicate HasAccepted(log: Log, n: U16) {
    exists j :: 0 <= j < |log| && log[j].Accepted? && log[j].packet.seqnum == n
  }

  /** Everything the packet acknowledges, other than number 0, had been accepted. */
  ghost predicate Justified(log: Log, p: Packet) {
    forall n: U16 | p.Acknowledges(n) :: n == 0 || HasAccepted(log, n)
  }

  /** Some later packet, not discarded as a duplicate, acknowledged event `i`'s. */
  predicate AckedAfter(log: Log, i: nat)
    requires i < |log|
  {
    exists j :: i < j < |log| && log[j].Accepted? && log[j].packet.Acknowledges(log[i].packet.seqnum)
  }

  /** Of the first `n` events, the reliable packets sent and not acknowledged since, in send order. */
  function Outstanding(log: Log, n: nat): seq<Packet>
    requires n <= |log|
  {
    if n == 0 then []
    else
      Outstanding(log, n - 1) +
      if log[n - 1].Numbers() && !AckedAfter(log, n - 1) then [log[n - 1].packet] else []
  }

  /** The reliable packets accepted, in order. */
  function AcceptedReliable(log: Log): seq<Packet> {
    if log == [] then []
    else
      var e := log[|log| - 1];
      AcceptedReliable(log[..|log| - 1]) + if e.Accepted? && e.packet.Reliable() then [e.packet] else []
  }

  function Last<T>(s: seq<T>, n: nat): seq<T> {
    if |s| <= n then s else s[|s| - n..]
  }

  /** How often the reliable packet with this serial was put on the wire. */
  function TimesSent(log: Log, serial: nat): nat {
    if log == [] then 0
    else
      var e := log[|log| - 1];
      TimesSent(log[..|log| - 1], serial) +
      if e.Emits() && e.packet.Reliable() && e.packet.serial == serial then 1 else 0
  }

  /** The highest unwrapped number accepted. */
  function High(log: Log): nat {
    if log == [] then 0
    else
      var e := log[|log| - 1];
      var h := High(log[..|log| - 1]);
      if e.Accepted? && e.packet.serial > h then e.packet.serial else h
  }

  /** Every accepted packet was numbered by its counter and came within half the number
      space of the highest before it. */
  predicate Windowed(log: Log) {
    forall i | 0 <= i < |log| && log[i].Accepted? ::
      && log[i].packet.seqnum == Wrap(log[i].packet.serial)
      && -(MODULUS / 2) < log[i].packet.serial - High(log[..i]) < MODULUS / 2
  }

  function OnWires(ps: seq<Packet>): (ws: seq<Packet>)
    ensures |ws| == |ps|
    ensures forall i | 0 <= i < |ps| :: ws[i] == ps[i].OnWire()
  {
    seq(|ps|, i requires 0 <= i < |ps| => ps[i].OnWire())
  }

  // ---- The invariants -----------------------------------------------------

  /** Acknowledgements sent are for numbers accepted before. */
  ghost predicate AcksSound(e: Endpoint) {
    && (e.remote == 0 || HasAccepted(e.log, e.remote))
    && (forall k | 0 <= k < |e.rx| :: HasAccepted(e.log, e.rx[k].seqnum))
    && (forall i | 0 <= i < |e.log| && e.log[i].Emits() :: Justified(e.log[..i], e.log[i].packet))
  }

  /** Packets are numbered by the count of reliable packets before them. */
  ghost predicate Numbered(e: Endpoint) {
    && e.local == Wrap(Serial(e.log))
    && (forall i | 0 <= i < |e.log| && e.log[i].FirstSent? ::
          e.log[i].packet.serial == Serial(e.log[..i]) && e.log[i].packet.seqnum == Wrap(Serial(e.log[..i])))
  }

  /** The transmit list is what is outstanding, as it was first sent. */
  ghost predicate Conserves(e: Endpoint) {
    OnWires(e.tx) == Outstanding(e.log, |e.log|)
  }

  /** Whatever is sent again is reliable and was sent before, unchanged. */
  ghost predicate ResendsCopies(e: Endpoint) {
    forall i | 0 <= i < |e.log| && e.log[i].Resent? ::
      e.log[i].packet.Reliable() && FirstSent(e.log[i].packet) in e.log[..i]
  }

  /** The receive list is the last 18 reliable packets accepted; among any 19 in a row
      no number repeats. */
  ghost predicate Deduplicates(e: Endpoint) {
    var accepted := AcceptedReliable(e.log);
    && e.rx == Last(accepted, RX_CAPACITY)
    && NoNearRepeats(accepted)
  }

  /** Within the window, the remote number is the highest unwrapped one, wrapped. */
  ghost predicate TracksHigh(e: Endpoint) {
    Windowed(e.log) ==> e.remote == Wrap(High(e.log))
  }

  function Min(a: nat, b: nat): nat {
    if a < b then a else b
  }

  /** No reliable packet is put on the wire more than 5 times. */
  ghost predicate CountsBounded(e: Endpoint) {
    && (forall k: nat :: TimesSent(e.log, k) <= MAX_RESENDCOUNT)
    && (forall k: nat | k >= Serial(e.log) :: TimesSent(e.log, k) == 0)
  }

  /** An entry counts its transmissions; the sixth attempt, the time-out, sends nothing. */
  ghost predicate CountIs(e: Endpoint, p: Packet) {
    && 1 <= p.attempts <= MAX_RESENDCOUNT + 1
    && TimesSent(e.log, p.serial) == Min(p.attempts, MAX_RESENDCOUNT)
  }

  ghost predicate ListCounts(e: Endpoint) {
    forall p | p in e.tx :: p.Reliable() && p.serial < Serial(e.log) && CountIs(e, p)
  }

  ghost predicate BoundsSends(e: Endpoint) {
    CountsBounded(e) && BySerial(e.tx) && ListCounts(e)
  }

  ghost predicate Inv(e: Endpoint) {
    && AcksSound(e) && Numbered(e) && Conserves(e) && ResendsCopies(e)
    && Deduplicates(e) && TracksHigh(e) && BoundsSends(e)
  }

  // ---- The four elementary moves ------------------------------------------

  datatype Move =
    | First(packet: Packet)
    | Again(index: nat)
    | Take(packet: Packet)
    | Drop(packet: Packet)

  predicate CanMove(e: Endpoint, m: Move) {
    match m
    case First(p) => p.attempts == 0
    case Again(i) => i < |e.tx| && e.tx[i].attempts <= MAX_RESENDCOUNT
    case Take(p) => !IsDuplicate(e, p)
    case Drop(p) => IsDuplicate(e, p)
  }

  function Made(e: Endpoint, m: Move): Endpoint
    requires CanMove(e, m)
  {
    match m
    case First(p) => SendFirst(e, p)
    case Again(i) => SendAgain(e, i)
    case Take(p) => Accept(e, p)
    case Drop(p) => Discard(e, p)
  }

  lemma MoveAppends(e: Endpoint, m: Move)
    requires CanMove(e, m)
    ensures e.log <= Made(e, m).log && |Made(e, m).log| <= |e.log| + 1
    ensures forall i | 0 <= i <= |e.log| :: Made(e, m).log[..i] == e.log[..i]
  {
  }

  // ---- Acks are sound -----------------------------------------------------

  lemma AcceptedStays(log: Log, log': Log, n: U16)
    requires log <= log' && HasAccepted(log, n)
    ensures HasAccepted(log', n)
  {
    var j :| 0 <= j < |log| && log[j].Accepted? && log[j].packet.seqnum == n;
    assert log'[j] == log[j];
  }

  lemma StampIsJustified(e: Endpoint, p: Packet)
    requires AcksSound(e)
    ensures Justified(e.log, Stamped(e, p).OnWire())
  {
    var q := Stamped(e, p).OnWire();
    var ns := Packets.Numbers(e.rx);
    forall n: U16 | q.Acknowledges(n) ensures n == 0 || HasAccepted(e.log, n) {
      Acks.AckRoundTrip(e.remote, ns, n);
      if n != e.remote {
        var k :| 0 <= k < |ns| && ns[k] == n;
        assert e.rx[k].seqnum == n;
      }
    }
  }

  /** A listed packet was emitted before, unchanged. */
  lemma ListedWasSent(e: Endpoint, i: nat)
    requires Conserves(e) && i < |e.tx|
    ensures FirstSent(e.tx[i].OnWire()) in e.log
  {
    OutstandingWasSent(e.log, |e.log|, i);
  }

  lemma {:induction false} OutstandingWasSent(log: Log, n: nat, i: nat)
    requires n <= |log| && i < |Outstanding(log, n)|
    ensures FirstSent(Outstanding(log, n)[i]) in log[..n]
    ensures Outstanding(log, n)[i].Reliable()
  {
    if i < |Outstanding(log, n - 1)| {
      OutstandingWasSent(log, n - 1, i);
      var j :| 0 <= j < n - 1 && log[..n - 1][j] == FirstSent(Outstanding(log, n - 1)[i]);
      assert log[..n][j] == log[j];
    } else {
      assert log[..n][n - 1] == log[n - 1];
    }
  }

  /** Numbers accepted once stay accepted, and only packets sent need a justification. */
  lemma AcksSoundAppend(e: Endpoint, e': Endpoint, event: Event)
    requires AcksSound(e) && e'.log == e.log + [event]
    requires e'.remote == e.remote || HasAccepted(e'.log, e'.remote)
    requires forall k | 0 <= k < |e'.rx| :: e'.rx[k] in e.rx || HasAccepted(e'.log, e'.rx[k].seqnum)
    requires event.Emits() ==> Justified(e.log, event.packet)
    ensures AcksSound(e')
  {
    hide Justified, HasAccepted;
    forall n: U16 | HasAccepted(e.log, n) ensures HasAccepted(e'.log, n) {
      AcceptedStays(e.log, e'.log, n);
    }
    forall i | 0 <= i < |e'.log| && e'.log[i].Emits() ensures Justified(e'.log[..i], e'.log[i].packet) {
      assert e'.log[..i] == e.log[..i];
      assert e.log[..|e.log|] == e.log;
    }
  }

  lemma AcksSoundAgain(e: Endpoint, i: nat)
    requires AcksSound(e) && Conserves(e) && i < |e.tx|
    ensures Justified(e.log, e.tx[i].OnWire())
  {
    ListedWasSent(e, i);
    var j :| 0 <= j < |e.log| && e.log[j] == FirstSent(e.tx[i].OnWire());
    JustifiedLater(e.log[..j], e.log, e.tx[i].OnWire());
  }

  lemma AcksSoundTake(e: Endpoint, p: Packet)
    requires AcksSound(e)
    ensures AcksSound(Accept(e, p))
  {
    assert (e.log + [Accepted(p)])[|e.log|] == Accepted(p);
    AcksSoundAppend(e, Accept(e, p), Accepted(p));
  }

  lemma AcksSoundKept(e: Endpoint, m: Move)
    requires AcksSound(e) && Conserves(e) && CanMove(e, m)
    ensures AcksSound(Made(e, m))
  {
    var e' := Made(e, m);
    match m {
      case First(p) =>
        StampIsJustified(e, p);
        AcksSoundAppend(e, e', FirstSent(Stamped(e, p).OnWire()));
      case Again(i) =>
        AcksSoundAgain(e, i);
        if e'.log != e.log {
          AcksSoundAppend(e, e', Resent(e'.tx[i].OnWire()));
        }
      case Take(p) =>
        AcksSoundTake(e, p);
      case Drop(p) =>
        AcksSoundAppend(e, e', Discarded(p));
    }
  }

  lemma JustifiedLater(log: Log, log': Log, p: Packet)
    requires log <= log' && Justified(log, p)
    ensures Justified(log', p)
  {
    forall n: U16 | p.Acknowledges(n) && n != 0 ensures HasAccepted(log', n) {
      AcceptedStays(log, log', n);
    }
  }

  // ---- Numbering ----------------------------------------------------------

  lemma NumberedKept(e: Endpoint, m: Move)
    requires Numbered(e) && CanMove(e, m)
    ensures Numbered(Made(e, m))
  {
    var e' := Made(e, m);
    MoveAppends(e, m);
    IncrementFollowsCounter(Serial(e.log));
    assert e'.log != e.log ==> e'.log[..|e'.log| - 1] == e.log;
  }

  // ---- Resends ------------------------------------------------------------

  lemma ResendsCopiesKept(e: Endpoint, m: Move)
    requires ResendsCopies(e) && Conserves(e) && CanMove(e, m)
    requires forall i | 0 <= i < |e.tx| :: e.tx[i].Reliable()
    ensures ResendsCopies(Made(e, m))
  {
    MoveAppends(e, m);
    if m.Again? {
      ListedWasSent(e, m.index);
      assert Made(e, m).log[..|e.log|] == e.log;
    }
  }

  // ---- The transmit list is conserved -------------------------------------

  lemma {:induction false} UnacknowledgedIsFilter(ps: seq<Packet>, acker: Packet)
    ensures OnWires(Unacknowledged(ps, acker)) == Unacknowledged(OnWires(ps), acker)
  {
    if ps != [] {
      var init, last := ps[..|ps| - 1], ps[|ps| - 1];
      UnacknowledgedIsFilter(init, acker);
      assert OnWires(ps)[..|ps| - 1] == OnWires(init);
      assert OnWires(Unacknowledged(init, acker) + [last]) == OnWires(Unacknowledged(init, acker)) + [last.OnWire()];
    }
  }

  /** Only accepting a packet can acknowledge an earlier one. */
  lemma AckedAfterAppend(log: Log, e: Event, i: nat)
    requires i < |log|
    ensures AckedAfter(log + [e], i) <==>
            AckedAfter(log, i) || (e.Accepted? && e.packet.Acknowledges(log[i].packet.seqnum))
  {
    var log' := log + [e];
    if AckedAfter(log, i) {
      var j :| i < j < |log| && log[j].Accepted? && log[j].packet.Acknowledges(log[i].packet.seqnum);
      assert log'[j] == log[j];
    }
    if AckedAfter(log', i) {
      var j :| i < j < |log'| && log'[j].Accepted? && log'[j].packet.Acknowledges(log'[i].packet.seqnum);
      assert j < |log| ==> log'[j] == log[j];
    }
    if e.Accepted? && e.packet.Acknowledges(log[i].packet.seqnum) {
      assert log'[|log|] == e;
    }
  }

  /** An event that accepts nothing leaves everything before it outstanding. */
  lemma {:induction false} OutstandingUntouched(log: Log, e: Event, n: nat)
    requires n <= |log| && !e.Accepted?
    ensures Outstanding(log + [e], n) == Outstanding(log, n)
  {
    if n > 0 {
      OutstandingUntouched(log, e, n - 1);
      AckedAfterAppend(log, e, n - 1);
    }
  }

  lemma UnacknowledgedAppend(ps: seq<Packet>, p: Packet, acker: Packet)
    ensures Unacknowledged(ps + [p], acker) ==
            Unacknowledged(ps, acker) + if acker.Acknowledges(p.seqnum) then [] else [p]
  {
    assert (ps + [p])[..|ps|] == ps;
  }

  /** Accepting a packet leaves outstanding what it does not acknowledge. */
  lemma {:induction false} OutstandingFiltered(log: Log, p: Packet, n: nat)
    requires n <= |log|
    ensures Outstanding(log + [Accepted(p)], n) == Unacknowledged(Outstanding(log, n), p)
  {
    hide AckedAfter, Packet.Acknowledges;
    if n > 0 {
      var log', last := log + [Accepted(p)], log[n - 1];
      var before := Outstanding(log, n - 1);
      OutstandingFiltered(log, p, n - 1);
      AckedAfterAppend(log, Accepted(p), n - 1);
      assert log'[n - 1] == last;
      if last.Numbers() && !AckedAfter(log, n - 1) {
        UnacknowledgedAppend(before, last.packet, p);
      } else {
        assert before + [] == before;
      }
    }
  }

  /** What an event adds to the outstanding packets. */
  lemma OutstandingAppend(log: Log, e: Event)
    ensures var log' := log + [e];
            Outstanding(log', |log'|) == Outstanding(log', |log|) + if e.Numbers() then [e.packet] else []
  {
    var log' := log + [e];
    assert !AckedAfter(log', |log|);
  }

  lemma ConservesFirst(e: Endpoint, p: Packet)
    requires Conserves(e)
    ensures Conserves(SendFirst(e, p))
  {
    var q := Stamped(e, p);
    var event := FirstSent(q.OnWire());
    OutstandingUntouched(e.log, event, |e.log|);
    OutstandingAppend(e.log, event);
    assert OnWires(e.tx + [q]) == OnWires(e.tx) + [q.OnWire()];
    assert Outstanding(e.log, |e.log|) + [] == Outstanding(e.log, |e.log|);
  }

  lemma ConservesAgain(e: Endpoint, i: nat)
    requires Conserves(e) && i < |e.tx| && e.tx[i].attempts < 255
    ensures Conserves(SendAgain(e, i))
  {
    var e' := SendAgain(e, i);
    assert OnWires(e'.tx) == OnWires(e.tx);
    if e'.log != e.log {
      var event := Resent(e'.tx[i].OnWire());
      OutstandingUntouched(e.log, event, |e.log|);
      OutstandingAppend(e.log, event);
      assert Outstanding(e.log, |e.log|) + [] == Outstanding(e.log, |e.log|);
    }
  }

  lemma ConservesAccept(e: Endpoint, p: Packet)
    requires Conserves(e)
    ensures Conserves(Accept(e, p))
  {
    OutstandingFiltered(e.log, p, |e.log|);
    OutstandingAppend(e.log, Accepted(p));
    UnacknowledgedIsFilter(e.tx, p);
    var left := Outstanding(e.log + [Accepted(p)], |e.log|);
    assert left + [] == left;
  }

  lemma ConservesKept(e: Endpoint, m: Move)
    requires Conserves(e) && CanMove(e, m)
    ensures Conserves(Made(e, m))
  {
    match m {
      case First(p) => ConservesFirst(e, p);
      case Again(i) => ConservesAgain(e, i);
      case Take(p) => ConservesAccept(e, p);
      case Drop(p) =>
        OutstandingUntouched(e.log, Discarded(p), |e.log|);
        OutstandingAppend(e.log, Discarded(p));
        assert Outstanding(e.log, |e.log|) + [] == Outstanding(e.log, |e.log|);
    }
  }

  // ---- Duplicates ---------------------------------------------------------

  lemma AcceptedReliableAppend(log: Log, e: Event)
    ensures AcceptedReliable(log + [e]) ==
            AcceptedReliable(log) + if e.Accepted? && e.packet.Reliable() then [e.packet] else []
  {
    assert (log + [e])[..|log|] == log;
  }

  ghost predicate NoNearRepeats(accepted: seq<Packet>) {
    forall i, j | 0 <= i < j < |accepted| && j - i <= RX_CAPACITY :: accepted[i].seqnum != accepted[j].seqnum
  }

  lemma LastRemembers(accepted: seq<Packet>, p: Packet)
    ensures Last(accepted + [p], RX_CAPACITY) == Remember(Last(accepted, RX_CAPACITY), p)
  {
  }

  lemma NewIsNotNear(accepted: seq<Packet>, p: Packet)
    requires NoNearRepeats(accepted)
    requires p.seqnum !in Packets.Numbers(Last(accepted, RX_CAPACITY))
    ensures NoNearRepeats(accepted + [p])
  {
    var rx := Last(accepted, RX_CAPACITY);
    var from := |accepted| - |rx|;
    forall i | 0 <= i < |accepted| && |accepted| - i <= RX_CAPACITY ensures accepted[i].seqnum != p.seqnum {
      assert rx[i - from] == accepted[i];
      assert Packets.Numbers(rx)[i - from] != p.seqnum;
    }
  }

  lemma DeduplicatesKept(e: Endpoint, m: Move)
    requires Deduplicates(e) && CanMove(e, m)
    ensures Deduplicates(Made(e, m))
  {
    var e' := Made(e, m);
    var accepted := AcceptedReliable(e.log);
    if e'.log != e.log {
      AcceptedReliableAppend(e.log, e'.log[|e.log|]);
      assert e'.log == e.log + [e'.log[|e.log|]];
      assert accepted + [] == accepted;
    }
    if m.Take? && m.packet.Reliable() {
      LastRemembers(accepted, m.packet);
      NewIsNotNear(accepted, m.packet);
    }
  }

  // ---- The remote number --------------------------------------------------

  lemma WindowedPrefix(log: Log, e: Event)
    requires Windowed(log + [e])
    ensures Windowed(log)
    ensures e.Accepted? ==>
              e.packet.seqnum == Wrap(e.packet.serial) && -(MODULUS / 2) < e.packet.serial - High(log) < MODULUS / 2
  {
    var log' := log + [e];
    assert log'[|log|] == e && log'[..|log|] == log;
    forall i | 0 <= i < |log| && log[i].Accepted?
      ensures log[i].packet.seqnum == Wrap(log[i].packet.serial)
      ensures -(MODULUS / 2) < log[i].packet.serial - High(log[..i]) < MODULUS / 2
    {
      assert log'[i] == log[i] && log'[..i] == log[..i];
    }
  }

  lemma HighAppend(log: Log, e: Event)
    ensures High(log + [e]) == if e.Accepted? && e.packet.serial > High(log) then e.packet.serial else High(log)
  {
    assert (log + [e])[..|log|] == log;
  }

  /** Within the window the remote number follows the highest one, which never falls: it
      changes exactly when that rises. */
  lemma TracksHighKept(e: Endpoint, m: Move)
    requires TracksHigh(e) && CanMove(e, m)
    ensures TracksHigh(Made(e, m))
    ensures High(e.log) <= High(Made(e, m).log)
    ensures Windowed(Made(e, m).log) ==>
              (Made(e, m).remote != e.remote <==> High(e.log) < High(Made(e, m).log))
  {
    var e' := Made(e, m);
    if e'.log != e.log {
      var event := e'.log[|e.log|];
      assert e'.log == e.log + [event];
      HighAppend(e.log, event);
      if Windowed(e'.log) {
        WindowedPrefix(e.log, event);
        if event.Accepted? {
          GreaterThanRefinesCounters(event.packet.serial, High(e.log));
        }
      }
    }
  }

  // ---- Bounded sending ----------------------------------------------------

  lemma TimesSentAppend(log: Log, e: Event, k: nat)
    ensures TimesSent(log + [e], k) ==
            TimesSent(log, k) + if e.Emits() && e.packet.Reliable() && e.packet.serial == k then 1 else 0
  {
    assert (log + [e])[..|log|] == log;
  }

  lemma SerialAppend(log: Log, e: Event)
    ensures Serial(log + [e]) == Serial(log) + if e.Numbers() then 1 else 0
  {
    assert (log + [e])[..|log|] == log;
  }

  /** What is left is what the packet does not acknowledge. */
  lemma {:induction false} UnacknowledgedMembers(ps: seq<Packet>, acker: Packet, p: Packet)
    ensures p in Unacknowledged(ps, acker) <==> p in ps && !acker.Acknowledges(p.seqnum)
  {
    if ps != [] {
      var init, last := ps[..|ps| - 1], ps[|ps| - 1];
      assert ps == init + [last];
      UnacknowledgedMembers(init, acker, p);
    }
  }

  ghost predicate BySerial(ps: seq<Packet>) {
    forall i, j | 0 <= i < j < |ps| :: ps[i].serial < ps[j].serial
  }

  /** Removing entries keeps their order. */
  lemma {:induction false} UnacknowledgedIsSorted(ps: seq<Packet>, acker: Packet)
    requires BySerial(ps)
    ensures BySerial(Unacknowledged(ps, acker))
  {
    if ps != [] {
      var init, last := ps[..|ps| - 1], ps[|ps| - 1];
      UnacknowledgedIsSorted(init, acker);
      var r := Unacknowledged(init, acker);
      forall i | 0 <= i < |r| ensures r[i].serial < last.serial {
        UnacknowledgedMembers(init, acker, r[i]);
        var k :| 0 <= k < |init| && init[k] == r[i];
        assert ps[k] == r[i];
      }
      assert r + [] == r;
    }
  }

  /** What one event adds to the counts. */
  lemma TimesSentStep(log: Log, event: Event)
    ensures forall k: nat :: TimesSent(log + [event], k) ==
              TimesSent(log, k) + if event.Emits() && event.packet.Reliable() && event.packet.serial == k then 1 else 0
  {
    forall k: nat
      ensures TimesSent(log + [event], k) ==
              TimesSent(log, k) + if event.Emits() && event.packet.Reliable() && event.packet.serial == k then 1 else 0
    {
      TimesSentAppend(log, event, k);
    }
  }

  /** How the counts move with the log. */
  lemma CountsKept(e: Endpoint, m: Move)
    requires CountsBounded(e) && CanMove(e, m)
    requires m.Again? ==> e.tx[m.index].Reliable() && CountIs(e, e.tx[m.index]) && e.tx[m.index].serial < Serial(e.log)
    ensures CountsBounded(Made(e, m))
    ensures Serial(e.log) <= Serial(Made(e, m).log)
    ensures forall k: nat :: TimesSent(Made(e, m).log, k) == TimesSent(e.log, k) +
              match m
              case First(p) => if p.Reliable() && k == Serial(e.log) then 1 else 0
              case Again(i) => if e.tx[i].attempts < MAX_RESENDCOUNT && k == e.tx[i].serial then 1 else 0
              case Take(_) => 0
              case Drop(_) => 0
  {
    var e' := Made(e, m);
    if e'.log != e.log {
      var event := e'.log[|e.log|];
      assert e'.log == e.log + [event];
      SerialAppend(e.log, event);
      TimesSentStep(e.log, event);
    }
    assert TimesSent(e.log, Serial(e.log)) == 0;
  }

  lemma ListedAgain(e: Endpoint, i: nat, p: Packet)
    requires CountsBounded(e) && BySerial(e.tx) && ListCounts(e) && CanMove(e, Again(i))
    requires p in SendAgain(e, i).tx
    ensures p.Reliable() && p.serial < Serial(SendAgain(e, i).log) && CountIs(SendAgain(e, i), p)
  {
    CountsKept(e, Again(i));
    var k :| 0 <= k < |e.tx| && SendAgain(e, i).tx[k] == p;
    assert e.tx[k] in e.tx && e.tx[i] in e.tx;
    assert k != i ==> p.serial != e.tx[i].serial;
  }

  lemma ListedFirst(e: Endpoint, q: Packet, p: Packet)
    requires CountsBounded(e) && ListCounts(e) && q.attempts == 0
    requires p in SendFirst(e, q).tx
    ensures p.Reliable() && p.serial < Serial(SendFirst(e, q).log) && CountIs(SendFirst(e, q), p)
  {
    hide Acks.History;
    CountsKept(e, First(q));
    SerialAppend(e.log, FirstSent(Stamped(e, q).OnWire()));
    if p in e.tx {
      assert p.serial != Serial(e.log);
    } else {
      assert p == Stamped(e, q);
      assert TimesSent(e.log, p.serial) == 0;
    }
  }

  lemma ListedAccept(e: Endpoint, q: Packet, p: Packet)
    requires CountsBounded(e) && ListCounts(e) && !IsDuplicate(e, q)
    requires p in Accept(e, q).tx
    ensures p.Reliable() && p.serial < Serial(Accept(e, q).log) && CountIs(Accept(e, q), p)
  {
    CountsKept(e, Take(q));
    UnacknowledgedMembers(e.tx, q, p);
  }

  lemma ListedDiscard(e: Endpoint, q: Packet, p: Packet)
    requires CountsBounded(e) && ListCounts(e) && IsDuplicate(e, q) && p in e.tx
    ensures p.Reliable() && p.serial < Serial(Discard(e, q).log) && CountIs(Discard(e, q), p)
  {
    CountsKept(e, Drop(q));
  }

  lemma ListedKept(e: Endpoint, m: Move)
    requires CountsBounded(e) && BySerial(e.tx) && ListCounts(e) && CanMove(e, m)
    ensures ListCounts(Made(e, m))
  {
    forall p | p in Made(e, m).tx
      ensures p.Reliable() && p.serial < Serial(Made(e, m).log) && CountIs(Made(e, m), p)
    {
      match m {
        case First(q) => ListedFirst(e, q, p);
        case Again(i) => ListedAgain(e, i, p);
        case Take(q) => ListedAccept(e, q, p);
        case Drop(q) => ListedDiscard(e, q, p);
      }
    }
  }

  lemma BoundsSendsKept(e: Endpoint, m: Move)
    requires BoundsSends(e) && CanMove(e, m)
    ensures BoundsSends(Made(e, m))
  {
    CountsKept(e, m);
    ListedKept(e, m);
    if m.Take? {
      UnacknowledgedIsSorted(e.tx, m.packet);
    }
  }

  // ---- All together -------------------------------------------------------

  lemma InvNew()
    ensures Inv(New())
  {
  }

  lemma InvKept(e: Endpoint, m: Move)
    requires Inv(e) && CanMove(e, m)
    ensures Inv(Made(e, m))
  {
    AcksSoundKept(e, m);
    NumberedKept(e, m);
    ConservesKept(e, m);
    ResendsCopiesKept(e, m);
    DeduplicatesKept(e, m);
    TracksHighKept(e, m);
    BoundsSendsKept(e, m);
  }

  predicate CanMoves(e: Endpoint, ms: seq<Move>)
    decreases |ms|
  {
    ms == [] || (CanMove(e, ms[0]) && CanMoves(Made(e, ms[0]), ms[1..]))
  }

  function AfterMoves(e: Endpoint, ms: seq<Move>): Endpoint
    requires CanMoves(e, ms)
    decreases |ms|
  {
    if ms == [] then e else AfterMoves(Made(e, ms[0]), ms[1..])
  }

  lemma {:induction false} InvKeptByMoves(e: Endpoint, ms: seq<Move>)
    requires Inv(e) && CanMoves(e, ms)
    ensures Inv(AfterMoves(e, ms))
    decreases |ms|
  {
    if ms != [] {
      InvKept(e, ms[0]);
      InvKeptByMoves(Made(e, ms[0]), ms[1..]);
    }
  }

  lemma {:induction false} MovesAppend(e: Endpoint, ms: seq<Move>)
    requires CanMoves(e, ms)
    ensures e.log <= AfterMoves(e, ms).log
    decreases |ms|
  {
    if ms != [] {
      MoveAppends(e, ms[0]);
      MovesAppend(Made(e, ms[0]), ms[1..]);
    }
  }

  /** `HandlePacketSequence` is dropping or taking the packet and then, if it asks for one,
      sending the answer: no other move is made. */
  lemma ReceiveIsMoves(e: Endpoint, p: Packet) returns (ms: seq<Move>)
    ensures ms == [if IsDuplicate(e, p) then Drop(p) else Take(p)] +
                  if p.WantsAck() then [First(AckFor(p.body))] else []
    ensures CanMoves(e, ms) && AfterMoves(e, ms) == Receive(e, p)
  {
    var m := if IsDuplicate(e, p) then Drop(p) else Take(p);
    var e' := Made(e, m);
    if p.WantsAck() {
      var reply := First(AckFor(p.body));
      ms := [m, reply];
      assert ms[1..] == [reply] && [reply][1..] == [];
      assert AfterMoves(e', [reply]) == AfterMoves(Made(e', reply), []);
    } else {
      ms := [m];
      assert ms[1..] == [] && [m] + [] == [m];
    }
  }

  /** One repeated send for each due entry from `i` on, in list order. */
  function Repeats(due: set<nat>, i: nat, n: nat): seq<Move>
    requires i <= n
    decreases n - i
  {
    if i == n then [] else (if i in due then [Again(i)] else []) + Repeats(due, i + 1, n)
  }

  /** `ResendMissingPackets` is a repeated send for each entry that is due, in order; unless
      it times out, all of them. */
  lemma {:induction false} ResendIsMoves(e: Endpoint, due: set<nat>, i: nat) returns (ms: seq<Move>)
    requires i <= |e.tx|
    requires forall k | i <= k < |e.tx| :: e.tx[k].attempts <= MAX_RESENDCOUNT
    ensures CanMoves(e, ms) && AfterMoves(e, ms) == ResendFrom(e, due, i).end
    ensures ms <= Repeats(due, i, |e.tx|)
    ensures !ResendFrom(e, due, i).timedOut ==> ms == Repeats(due, i, |e.tx|)
    decreases |e.tx| - i
  {
    ms := [];
    if i < |e.tx| {
      if i in due {
        var sent := SendAgain(e, i);
        if sent.tx[i].attempts <= MAX_RESENDCOUNT {
          ms := ResendIsMoves(sent, due, i + 1);
        }
        MovesPrepend(e, Again(i), ms);
        ms := [Again(i)] + ms;
      } else {
        ms := ResendIsMoves(e, due, i + 1);
        assert [] + Repeats(due, i + 1, |e.tx|) == Repeats(due, i + 1, |e.tx|);
      }
    }
  }

  lemma MovesPrepend(e: Endpoint, m: Move, ms: seq<Move>)
    requires CanMove(e, m) && CanMoves(Made(e, m), ms)
    ensures CanMoves(e, [m] + ms) && AfterMoves(e, [m] + ms) == AfterMoves(Made(e, m), ms)
  {
    assert ([m] + ms)[1..] == ms;
  }

  /** Unless it times out, resending leaves every entry within its five attempts. */
  lemma {:induction false} ResendStaysAlive(e: Endpoint, due: set<nat>, i: nat)
    requires Alive(e.tx) && i <= |e.tx|
    ensures var r := ResendFrom(e, due, i);
            && |r.end.tx| == |e.tx| && r.end.local == e.local
            && (r.timedOut || Alive(r.end.tx))
    decreases |e.tx| - i
  {
    if i < |e.tx| {
      if i in due && SendAgain(e, i).tx[i].attempts <= MAX_RESENDCOUNT {
        ResendStaysAlive(SendAgain(e, i), due, i + 1);
      } else if i !in due {
        ResendStaysAlive(e, due, i + 1);
      }
    }
  }
}
