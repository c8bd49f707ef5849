/** The reliable-UDP handler as the program keeps it: numbers and two lists of packet
    objects, updated in place. Each method is tied to the endpoint value of `Reliability`. */
module UDPHandlers {
  import opened SequenceNumbers
  import opened Packets
  import opened Reliability
  import opened DatagramFormat
  import Acks
  import Codec
  import PacketBytes

  const TIME_RESEND := 1000

  /** The entries whose resend time has passed when entry `i` is looked at, at `checks(i)`. */
  ghost function Due(times: seq<int>, checks: nat -> int): (due: set<nat>)
    ensures forall i: nat :: i in due <==> i < |times| && checks(i) - times[i] > 1000
  {
    set i: nat | i < |times| && checks(i) - times[i] > TIME_RESEND
  }

  /** The send time of an entry is that of its last attempt: `stamps` if there was one since. */
  ghost predicate Retimed(times: seq<int>, tx: seq<Packet>, times': seq<int>, tx': seq<Packet>, stamps: nat -> int) {
    && |times'| == |times| == |tx| == |tx'|
    && forall i: nat | i < |tx| ::
         times'[i] == if tx'[i].attempts != tx[i].attempts then stamps(i) else times[i]
  }

  /** The datagrams of some entries of a list. */
  ghost function Encodings(tx: seq<Packet>, s: seq<nat>): (ds: seq<seq<byte>>)
    requires forall k | 0 <= k < |s| :: s[k] < |tx|
    ensures |ds| == |s|
  {
    if s == [] then [] else [Codec.Encode(tx[s[0]])] + Encodings(tx, s[1..])
  }

  lemma {:induction false} EncodingsAt(tx: seq<Packet>, s: seq<nat>, k: nat)
    requires k < |s| && forall k | 0 <= k < |s| :: s[k] < |tx|
    ensures Encodings(tx, s)[k] == Codec.Encode(tx[s[k]])
  {
    hide Codec.Encode;
    if k > 0 {
      EncodingsAt(tx, s[1..], k - 1);
    }
  }

  lemma EncodingsOfOne(tx: seq<Packet>, i: nat, s: seq<nat>)
    requires i < |tx| && forall k | 0 <= k < |s| :: s[k] < |tx|
    ensures Encodings(tx, [i] + s) == [Codec.Encode(tx[i])] + Encodings(tx, s)
  {
    hide Codec.Encode;
    assert ([i] + s)[1..] == s;
  }

  // ---- Going through the list to resend -----------------------------------

  /** The endpoint, the send times and the socket. */
  datatype Progress = Progress(end: Endpoint, times: seq<int>, sent: seq<seq<byte>>)

  /** What `ResendMissingPackets` has done, from the state it started in. */
  ghost predicate Done(start: Progress, due: set<nat>, stamps: nat -> int, now: Progress, timedOut: bool)
    requires forall k | 0 <= k < |start.end.tx| :: start.end.tx[k].attempts < 255
  {
    && Resending(now.end, timedOut) == ResendFrom(start.end, due, 0)
    && Retimed(start.times, start.end.tx, now.times, now.end.tx, stamps)
    && now.sent == start.sent + Encodings(start.end.tx, SentAgain(start.end.tx, due, 0))
  }

  /** It has done the entries before `i`. */
  ghost predicate PartWay(start: Progress, due: set<nat>, stamps: nat -> int, now: Progress, i: nat) {
    && i <= |start.end.tx|
    && (forall k | 0 <= k < |start.end.tx| :: start.end.tx[k].attempts < 255)
    && Retimed(start.times, start.end.tx, now.times, now.end.tx, stamps)
    && now.times[i..] == start.times[i..] && now.end.tx[i..] == start.end.tx[i..]
    && (forall k | i <= k < |now.end.tx| :: now.end.tx[k] == start.end.tx[k])
    && ResendFrom(now.end, due, i) == ResendFrom(start.end, due, 0)
    && now.sent + Encodings(start.end.tx, SentAgain(start.end.tx, due, i)) ==
       start.sent + Encodings(start.end.tx, SentAgain(start.end.tx, due, 0))
  }

  /** One more entry. */
  ghost function AfterEntry(start: Progress, due: set<nat>, stamps: nat -> int, now: Progress, i: nat): Progress
    requires PartWay(start, due, stamps, now, i) && i < |start.end.tx|
  {
    if i !in due then now
    else
      Progress(
        SendAgain(now.end, i),
        now.times[i := stamps(i)],
        if start.end.tx[i].attempts < MAX_RESENDCOUNT then now.sent + [Codec.Encode(start.end.tx[i])] else now.sent)
  }

  lemma NothingDone(start: Progress, due: set<nat>, stamps: nat -> int)
    requires |start.times| == |start.end.tx|
    requires forall k | 0 <= k < |start.end.tx| :: start.end.tx[k].attempts < 255
    ensures PartWay(start, due, stamps, start, 0)
  {
  }

  lemma SentWithNext(start: Progress, due: set<nat>, stamps: nat -> int, now: Progress, i: nat)
    requires PartWay(start, due, stamps, now, i) && i < |start.end.tx|
    ensures var tx, sent' := start.end.tx, AfterEntry(start, due, stamps, now, i).sent;
            var all := start.sent + Encodings(tx, SentAgain(tx, due, 0));
            if i in due && tx[i].attempts >= MAX_RESENDCOUNT then sent' == all
            else sent' + Encodings(tx, SentAgain(tx, due, i + 1)) == all
  {
    var tx := start.end.tx;
    if i in due && tx[i].attempts >= MAX_RESENDCOUNT {
      assert now.sent + [] == now.sent;
    } else if i in due {
      EncodingsOfOne(tx, i, SentAgain(tx, due, i + 1));
      AppendOne(now.sent, Codec.Encode(tx[i]), Encodings(tx, SentAgain(tx, due, i + 1)));
    }
  }

  lemma RetimedWithNext(start: Progress, due: set<nat>, stamps: nat -> int, now: Progress, i: nat)
    requires PartWay(start, due, stamps, now, i) && i < |start.end.tx|
    ensures var now' := AfterEntry(start, due, stamps, now, i);
            && Retimed(start.times, start.end.tx, now'.times, now'.end.tx, stamps)
            && now'.times[i + 1..] == start.times[i + 1..] && now'.end.tx[i + 1..] == start.end.tx[i + 1..]
  {
    assert now.times[i] == now.times[i..][0] && start.times[i] == start.times[i..][0];
    assert now.times[i + 1..] == now.times[i..][1..] && start.times[i + 1..] == start.times[i..][1..];
    hide ResendFrom, Encodings, SentAgain;
  }

  lemma NextEntry(start: Progress, due: set<nat>, stamps: nat -> int, now: Progress, i: nat)
    requires PartWay(start, due, stamps, now, i) && i < |start.end.tx|
    ensures |now.times| == |now.end.tx| == |start.end.tx| && |start.times| == |start.end.tx|
    ensures now.times[i] == start.times[i] && now.end.tx[i] == start.end.tx[i] && now.end.tx[i].attempts < 255
    ensures var now' := AfterEntry(start, due, stamps, now, i);
            if i in due && start.end.tx[i].attempts >= MAX_RESENDCOUNT then Done(start, due, stamps, now', true)
            else PartWay(start, due, stamps, now', i + 1)
  {
    assert now.times[i] == now.times[i..][0] && start.times[i] == start.times[i..][0];
    SentWithNext(start, due, stamps, now, i);
    RetimedWithNext(start, due, stamps, now, i);
    hide Encodings, SentAgain, Codec.Encode;
  }

  lemma AllDone(start: Progress, due: set<nat>, stamps: nat -> int, now: Progress)
    requires PartWay(start, due, stamps, now, |start.end.tx|)
    ensures Done(start, due, stamps, now, false)
  {
    assert now.sent + [] == now.sent;
  }

  class AbstractPacket {
    const version: byte
    const body: Body
    var flags: byte
    var seqnum: U16
    var ack: U16
    var bits: U16
    var attempts: byte
    var sendTime: int
    ghost var serial: nat

    constructor (version: byte, body: Body, flags: byte, seqnum: U16, ack: U16, bits: U16, ghost serial: nat := 0)
      ensures Value() == Packet(version, flags, seqnum, ack, bits, body, 0, serial)
    {
      this.version, this.body, this.flags := version, body, flags;
      this.seqnum, this.ack, this.bits := seqnum, ack, bits;
      attempts, sendTime := 0, 0;
      this.serial := serial;
    }

    ghost function Value(): Packet
      reads this
    {
      Packet(version, flags, seqnum, ack, bits, body, attempts, serial)
    }

    /** Sent before, not timed out, and of a size that can be sent. */
    ghost predicate Listed()
      reads this
    {
      1 <= attempts <= MAX_RESENDCOUNT && Codec.Fits(Value())
    }

    /** `now` is the clock when the attempt is made. */
    method UpdateSendAttempt(now: int)
      modifies this`attempts, this`sendTime
      ensures attempts == (old(attempts) + 1) % 0x100 && sendTime == now
      ensures Value() == old(Value()).(attempts := attempts)
    {
      attempts := (attempts + 1) % 0x100;
      sendTime := now;
    }

    method GetAsBytes() returns (bytes: array<byte>)
      requires Codec.Fits(Value())
      ensures fresh(bytes) && bytes[..] == Codec.Encode(Value())
    {
      var p := Packet(version, flags, seqnum, ack, bits, body, attempts, 0);
      assert Codec.Encode(p) == Codec.Encode(Value());
      match body {
        case S64(_, _) => bytes := PacketBytes.S64GetAsBytes(p);
        case NetLib(_, _, _) => bytes := PacketBytes.NetLibGetAsBytes(p);
      }
    }
  }

  ghost function Values(ps: seq<AbstractPacket>): (vs: seq<Packet>)
    reads ps
    ensures |vs| == |ps|
    ensures forall i | 0 <= i < |ps| :: vs[i] == ps[i].Value()
  {
    seq(|ps|, i requires 0 <= i < |ps| reads ps => ps[i].Value())
  }

  /** The datagrams that carry a history's emissions. */
  ghost function Datagrams(log: Log): seq<seq<byte>> {
    if log == [] then []
    else
      var e := log[|log| - 1];
      Datagrams(log[..|log| - 1]) + if e.Emits() then [Codec.Encode(e.packet)] else []
  }

  /** They are the encodings of what the history emits, one for each emission. */
  lemma {:induction false} DatagramsAreEmissions(log: Log)
    ensures |Datagrams(log)| == |Emissions(log)|
    ensures forall k | 0 <= k < |Emissions(log)| :: Datagrams(log)[k] == Codec.Encode(Emissions(log)[k])
  {
    if log != [] {
      DatagramsAreEmissions(log[..|log| - 1]);
    }
  }

  /** What reading a datagram gives its caller; `Unsupported` is the version exception. */
  datatype Reading = Nothing | Unsupported(version: byte) | Got(packet: AbstractPacket)

  lemma NextListed<T>(rest: seq<T>, it: nat, listed: seq<T>, done: nat)
    requires it < |rest| && done <= |listed| && rest[it..] == listed[done..]
    ensures done < |listed| && rest[it] == listed[done] && rest[it + 1..] == listed[done + 1..]
  {
    assert rest[it..][0] == listed[done..][0];
    assert rest[it + 1..] == rest[it..][1..];
    assert listed[done + 1..] == listed[done..][1..];
  }

  class UDPHandler {
    var localSeqNum: U16
    var remoteSeqNum: U16
    var acksLeftRX: seq<AbstractPacket>
    var acksLeftTX: seq<AbstractPacket>
    /** Everything handed to the socket, and the history it belongs to. */
    ghost var socket: seq<seq<byte>>
    ghost var log: Log

    ghost predicate Valid()
      reads this, acksLeftTX
    {
      && (forall i, j | 0 <= i < j < |acksLeftTX| :: acksLeftTX[i] != acksLeftTX[j])
      && (forall i | 0 <= i < |acksLeftTX| :: acksLeftTX[i] !in acksLeftRX)
      && (forall i | 0 <= i < |acksLeftTX| :: acksLeftTX[i].Listed())
      && socket == Datagrams(log)
    }

    ghost function View(): Endpoint
      reads this, acksLeftRX, acksLeftTX
    {
      Endpoint(localSeqNum, remoteSeqNum, Values(acksLeftRX), Values(acksLeftTX), log)
    }

    constructor ()
      ensures Valid() && View() == New()
      ensures acksLeftRX == [] && acksLeftTX == []
    {
      localSeqNum, remoteSeqNum := 0, 0;
      acksLeftRX, acksLeftTX := [], [];
      socket, log := [], [];
    }

    /** The history field for the current receive list. */
    method AckBitfield() returns (bits: U16)
      ensures bits == Acks.History(remoteSeqNum, Packets.Numbers(View().rx))
    {
      ghost var ns := Packets.Numbers(View().rx);
      bits := 0;
      for i := 0 to |acksLeftRX|
        invariant bits == Acks.History(remoteSeqNum, ns[..i])
      {
        assert ns[..i + 1] == ns[..i] + [acksLeftRX[i].seqnum];
        bits := Acks.Mark(bits, remoteSeqNum, acksLeftRX[i].seqnum);
      }
      assert ns[..|acksLeftRX|] == ns;
    }

    /** The packet gets its number before the receive list is gone through, in which it may be. */
    method SetSequenceData(pkt: AbstractPacket)
      requires pkt.attempts == 1
      modifies pkt
      ensures pkt.Value() == Sequenced(old(pkt.Value()), localSeqNum, log) && pkt.sendTime == old(pkt.sendTime)
      ensures pkt !in acksLeftRX ==> pkt.Value() == Stamped(old(View()), old(pkt.Value()))
    {
      pkt.seqnum := localSeqNum;
      pkt.ack := remoteSeqNum;
      var bits := AckBitfield();
      ghost var ns := Packets.Numbers(View().rx);
      pkt.bits := bits;
      pkt.serial := Serial(log);
      assert Packets.Numbers(Values(acksLeftRX)) == ns;
      assert pkt !in acksLeftRX ==> Values(acksLeftRX) == old(Values(acksLeftRX));
    }

    /** A packet with this number and a history field for the receive list as it is. */
    ghost function Sequenced(p: Packet, local: U16, before: Log): Packet
      reads this`remoteSeqNum, this`acksLeftRX, acksLeftRX
    {
      p.(seqnum := local,
         ack := remoteSeqNum,
         bits := Acks.History(remoteSeqNum, Packets.Numbers(Values(acksLeftRX))),
         serial := Serial(before))
    }

    method Emit(pkt: AbstractPacket)
      requires socket == Datagrams(log) && Codec.Fits(pkt.Value())
      modifies this`socket, this`log
      ensures socket == Datagrams(log) == old(socket) + [Codec.Encode(pkt.Value())]
      ensures var p := pkt.Value();
              log == old(log) + [if p.attempts == 1 then FirstSent(p.OnWire()) else Resent(p.OnWire())]
    {
      var data := pkt.GetAsBytes();
      ghost var p := pkt.Value();
      socket := socket + [data[..]];
      assert data[..] == Codec.Encode(p.OnWire());
      log := log + [if p.attempts == 1 then FirstSent(p.OnWire()) else Resent(p.OnWire())];
    }

    /** Adds a packet to the transmit list and moves on to the next number. */
    method AwaitAck(pkt: AbstractPacket)
      modifies this`localSeqNum, this`acksLeftTX
      ensures acksLeftTX == old(acksLeftTX) + [pkt] && localSeqNum == Increment(old(localSeqNum))
      ensures View() == old(View()).(local := localSeqNum, tx := old(View()).tx + [pkt.Value()])
      ensures old(Valid()) && pkt !in old(acksLeftTX) && pkt !in acksLeftRX && pkt.Listed() ==> Valid()
    {
      acksLeftTX := acksLeftTX + [pkt];
      localSeqNum := Increment(localSeqNum);
      assert Values(acksLeftTX) == old(Values(acksLeftTX)) + [pkt.Value()];
    }

    /** Numbers a packet and puts it on the wire. */
    method EmitNumbered(pkt: AbstractPacket)
      requires Valid() && pkt !in acksLeftTX && Codec.Fits(pkt.Value()) && pkt.attempts == 1
      modifies this`socket, this`log, pkt
      ensures Valid() && pkt.Listed() && pkt.sendTime == old(pkt.sendTime)
      ensures socket == old(socket) + [Codec.Encode(pkt.Value())]
      ensures log == old(log) + [FirstSent(pkt.Value().OnWire())]
      ensures pkt.Value() == Sequenced(old(pkt.Value()), localSeqNum, old(log))
      ensures pkt !in acksLeftRX ==>
                && View() == old(View()).(log := log)
                && pkt.Value() == Stamped(old(View()), old(pkt.Value()))
    {
      hide Datagrams, Acks.History, Serial, Codec.Encode;
      SetSequenceData(pkt);
      Emit(pkt);
      assert Values(acksLeftTX) == old(Values(acksLeftTX));
      assert pkt !in acksLeftRX ==> Values(acksLeftRX) == old(Values(acksLeftRX));
    }

    /** The first transmission: numbers the packet and lists it if it needs an ack. */
    method SendNumbered(pkt: AbstractPacket)
      requires Valid() && pkt !in acksLeftTX && Codec.Fits(pkt.Value())
      requires pkt.attempts == 1
      modifies this`localSeqNum, this`acksLeftTX, this`socket, this`log, pkt
      ensures pkt.sendTime == old(pkt.sendTime)
      ensures socket == old(socket) + [Codec.Encode(pkt.Value())]
      ensures acksLeftTX == old(acksLeftTX) + if pkt.Value().Reliable() then [pkt] else []
      ensures pkt !in acksLeftRX ==>
                && Valid()
                && View() == SendFirst(old(View()), old(pkt.Value()).(attempts := 0))
                && pkt.Value() == Stamped(old(View()), old(pkt.Value()))
      ensures pkt in acksLeftRX ==> SentFromList(pkt, old(localSeqNum), old(log), old(pkt.Value()))
    {
      hide Datagrams, Acks.History, Serial, Codec.Encode, Codec.Fits;
      EmitNumbered(pkt);
      if pkt.flags / FLAG_UNRELIABLE % 2 == 0 {
        AwaitAck(pkt);
      }
    }

    /** What first sending a packet that is in the receive list leaves behind: it is renumbered
        there, after which the history field is made, and listed for an ack as well. */
    ghost predicate SentFromList(pkt: AbstractPacket, local: U16, before: Log, p: Packet)
      reads this, acksLeftRX, pkt
    {
      && pkt.Value() == Sequenced(p, local, before)
      && localSeqNum == (if p.Reliable() then Increment(local) else local)
      && log == before + [FirstSent(pkt.Value().OnWire())]
      && socket == Datagrams(log)
    }

    /** Sends a fresh packet, or one sent before again, listed or not. Returns false for the
        time-out exception, thrown before anything is sent. A packet still in the receive list
        is sent like any other; the lists then share it, which `Valid` rules out. */
    method SendPacket(pkt: AbstractPacket, now: int) returns (ok: bool)
      requires Valid() && Codec.Fits(pkt.Value())
      modifies this`localSeqNum, this`acksLeftTX, this`socket, this`log, pkt
      ensures ok <==> pkt.attempts <= 5
      ensures (ok || pkt !in old(acksLeftTX)) && (pkt !in acksLeftRX || old(pkt.attempts) != 0) ==> Valid()
      ensures pkt.sendTime == now
      ensures socket == old(socket) + if ok then [Codec.Encode(pkt.Value())] else []
      ensures old(pkt.attempts) == 0 ==>
                ok && acksLeftTX == old(acksLeftTX) + if pkt.Value().Reliable() then [pkt] else []
      ensures old(pkt.attempts) == 0 && pkt !in acksLeftRX ==>
                && View() == SendFirst(old(View()), old(pkt.Value()))
                && pkt.Value() == Stamped(old(View()), old(pkt.Value()))
      ensures old(pkt.attempts) == 0 && pkt in acksLeftRX ==>
                SentFromList(pkt, old(localSeqNum), old(log), old(pkt.Value()).(attempts := 1))
      ensures old(pkt.attempts) != 0 ==>
                && acksLeftTX == old(acksLeftTX) && localSeqNum == old(localSeqNum)
                && pkt.Value() == old(pkt.Value()).(attempts := (old(pkt.attempts) + 1) % 0x100)
                && log == old(log) + if ok then [Resent(pkt.Value().OnWire())] else []
    {
      hide Datagrams, Acks.History, Serial, Codec.Encode;
      pkt.UpdateSendAttempt(now);
      if pkt.attempts > MAX_RESENDCOUNT {
        return false;
      }
      if pkt.attempts == 1 {
        assert Values(acksLeftTX) == old(Values(acksLeftTX));
        assert pkt !in acksLeftRX ==> Values(acksLeftRX) == old(Values(acksLeftRX));
        SendNumbered(pkt);
      } else {
        Emit(pkt);
      }
      return true;
    }

    /** Drops every listed packet that `pkt` acknowledges. */
    method RemoveAcknowledged(pkt: AbstractPacket)
      requires Valid() && pkt !in acksLeftTX
      modifies this`acksLeftTX
      ensures Valid() && pkt !in acksLeftTX
      ensures Values(acksLeftTX) == Unacknowledged(old(Values(acksLeftTX)), pkt.Value())
    {
      hide Datagrams, Codec.Fits, Acks.IsAcked;
      ghost var listed := acksLeftTX;
      ghost var values := Values(listed);
      ghost var done := 0;
      var it := 0;
      while it < |acksLeftTX|
        invariant Valid() && pkt !in acksLeftTX
        invariant it <= |acksLeftTX| && done <= |listed|
        invariant acksLeftTX[it..] == listed[done..]
        invariant Values(acksLeftTX[..it]) == Unacknowledged(values[..done], pkt.Value())
        decreases |listed| - done
      {
        ghost var kept := acksLeftTX[..it];
        var pkt2ack := acksLeftTX[it];
        NextListed(acksLeftTX, it, listed, done);
        assert values[..done + 1][..done] == values[..done];
        if Acks.IsAcked(pkt.ack, pkt.bits, pkt2ack.seqnum) {
          Erase(it);
        } else {
          it := it + 1;
          assert Values(acksLeftTX[..it]) == Values(kept) + [pkt2ack.Value()];
        }
        done := done + 1;
      }
      assert acksLeftTX[..it] == acksLeftTX;
      assert values[..done] == values;
    }

    method Erase(it: nat)
      requires Valid() && it < |acksLeftTX|
      modifies this`acksLeftTX
      ensures Valid()
      ensures |acksLeftTX| == |old(acksLeftTX)| - 1
      ensures acksLeftTX[..it] == old(acksLeftTX[..it]) && acksLeftTX[it..] == old(acksLeftTX[it + 1..])
      ensures forall p | p in acksLeftTX :: p in old(acksLeftTX)
    {
      acksLeftTX := acksLeftTX[..it] + acksLeftTX[it + 1..];
    }

    /** Appends a reliable packet to the receive list, which keeps the last 18. */
    method RememberReceived(pkt: AbstractPacket)
      requires Valid() && pkt !in acksLeftTX
      modifies this`acksLeftRX
      ensures Valid()
      ensures forall p | p in acksLeftRX :: p == pkt || p in old(acksLeftRX)
      ensures View() == old(View()).(rx := Remember(old(View()).rx, pkt.Value()))
    {
      ghost var rx := Values(acksLeftRX);
      if |acksLeftRX| > 17 {
        acksLeftRX := acksLeftRX[1..];
        assert Values(acksLeftRX) == rx[1..];
      }
      ghost var kept := Values(acksLeftRX);
      acksLeftRX := acksLeftRX + [pkt];
      assert Values(acksLeftRX) == kept + [pkt.Value()];
    }

    method IsReceived(number: U16) returns (found: bool)
      ensures found <==> number in Packets.Numbers(View().rx)
    {
      found := false;
      for i := 0 to |acksLeftRX|
        invariant !found
        invariant forall k | 0 <= k < i :: acksLeftRX[k].seqnum != number
      {
        if acksLeftRX[i].seqnum == number {
          assert Packets.Numbers(View().rx)[i] == number;
          return true;
        }
      }
    }

    /** The acknowledgement for a packet of the same protocol. */
    static method MakeAck(body: Body) returns (pkt: AbstractPacket)
      ensures fresh(pkt) && pkt.Value() == AckFor(body) && Codec.Fits(pkt.Value())
    {
      var reply := match body
        case S64(_, _) => S64([0x41, 0x43, 0x4B], [])
        case NetLib(_, _, _) => NetLib(0, 0, []);
      pkt := new AbstractPacket(1, reply, FLAG_UNRELIABLE, 0, 0, 0);
    }

    method SendAck(body: Body, now: int)
      requires Valid()
      modifies this`localSeqNum, this`acksLeftTX, this`socket, this`log
      ensures Valid()
      ensures acksLeftTX == old(acksLeftTX)
      ensures View() == SendFirst(old(View()), AckFor(body))
      ensures |socket| == |old(socket)| + 1 && old(socket) <= socket
      ensures IsAnswer(socket[|old(socket)|], ProtocolOf(body), old(localSeqNum), old(remoteSeqNum))
    {
      AnswerReadsBack(View(), body);
      ghost var answer := Stamped(View(), AckFor(body)).OnWire();
      hide IsAnswer;
      hide Datagrams, Acks.History, Serial, Codec.Fits;
      var pkt := MakeAck(body);
      assert Values(acksLeftTX) == old(Values(acksLeftTX));
      assert Values(acksLeftRX) == old(Values(acksLeftRX));
      var ok := SendPacket(pkt, now);
      assert pkt.Value().OnWire() == answer;
      assert Codec.Encode(pkt.Value()) == Codec.Encode(answer);
      assert acksLeftTX == old(acksLeftTX) + [];
    }

    /** Records an event that puts nothing on the wire. */
    ghost method Record(event: Event)
      requires Valid() && !event.Emits()
      modifies this`log
      ensures Valid()
      ensures View() == old(View()).(log := old(log) + [event])
    {
      log := log + [event];
    }

    /** Moves the remote number up to a received one, never back. */
    method AdvanceTo(number: U16)
      requires Valid()
      modifies this`remoteSeqNum
      ensures Valid()
      ensures View() ==
              old(View()).(remote := if GreaterThan(number, old(remoteSeqNum)) then number else old(remoteSeqNum))
    {
      if GreaterThan(number, remoteSeqNum) {
        remoteSeqNum := number;
      }
    }

    /** The part of `HandlePacketSequence` that deals with a new packet. */
    method AcceptPacket(pkt: AbstractPacket)
      requires Valid() && pkt !in acksLeftRX && pkt !in acksLeftTX
      modifies this`acksLeftTX, this`acksLeftRX, this`remoteSeqNum, this`log
      ensures Valid()
      ensures View() == Accept(old(View()), pkt.Value())
    {
      hide Datagrams, Unacknowledged, Remember, GreaterThan, Codec.Fits;
      RemoveAcknowledged(pkt);
      AdvanceTo(pkt.seqnum);
      if pkt.flags / FLAG_UNRELIABLE % 2 == 0 {
        RememberReceived(pkt);
      }
      Record(Accepted(pkt.Value()));
    }

    /** Processing a packet has put an answer on the wire if it asked for one, else nothing. */
    ghost predicate Answered(before: seq<seq<byte>>, p: Packet)
      reads this
    {
      if p.flags / 2 % 2 == 0 then socket == before
      else
        && |socket| == |before| + 1 && before <= socket
        && IsAnswer(socket[|before|], ProtocolOf(p.body), localSeqNum, remoteSeqNum)
    }

    /** Returns whether the packet is new; a duplicate is only answered. */
    method HandlePacketSequence(pkt: AbstractPacket, now: int) returns (handled: bool)
      requires Valid() && pkt !in acksLeftRX && pkt !in acksLeftTX
      modifies this
      ensures Valid()
      ensures handled <==> !IsDuplicate(old(View()), pkt.Value())
      ensures View() == Receive(old(View()), pkt.Value())
      ensures Answered(old(socket), pkt.Value())
    {
      hide IsAnswer;
      hide Datagrams, Acks.History, Unacknowledged, Remember, GreaterThan, Codec.Fits;
      var found := IsReceived(pkt.seqnum);
      if found {
        Record(Discarded(pkt.Value()));
        if pkt.flags / FLAG_EXPLICITACK % 2 != 0 {
          SendAck(pkt.body, now);
        }
        return false;
      }
      AcceptPacket(pkt);
      if pkt.flags / FLAG_EXPLICITACK % 2 != 0 {
        SendAck(pkt.body, now);
      }
      return true;
    }

    /** Reads a datagram. `serial` is the history variable of the packet it carries. */
    method ReadNetLibPacket(data: array<byte>, now: int, ghost serial: nat) returns (r: Reading)
      requires Valid() && Codec.CoversNetLib(data[..])
      modifies this
      ensures Valid()
      ensures match Codec.DecodeNetLib(data[..])
              case NotThisProtocol => r.Nothing? && View() == old(View()) && socket == old(socket)
              case BadVersion(v) => r == Unsupported(v) && View() == old(View()) && socket == old(socket)
              case Parsed(p) =>
                var q := p.(serial := serial);
                && View() == Receive(old(View()), q) && Answered(old(socket), q)
                && (r.Nothing? <==> IsDuplicate(old(View()), q))
                && (!r.Nothing? ==> r.Got? && r.packet.Value() == q)
    {
      var decoded := PacketBytes.NetLibFromBytes(data);
      r := HandleDecoded(decoded, now, serial);
    }

    method ReadS64Packet(data: array<byte>, now: int, ghost serial: nat) returns (r: Reading)
      requires Valid() && Codec.CoversS64(data[..])
      modifies this
      ensures Valid()
      ensures match Codec.DecodeS64(data[..])
              case NotThisProtocol => r.Nothing? && View() == old(View()) && socket == old(socket)
              case BadVersion(v) => r == Unsupported(v) && View() == old(View()) && socket == old(socket)
              case Parsed(p) =>
                var q := p.(serial := serial);
                && View() == Receive(old(View()), q) && Answered(old(socket), q)
                && (r.Nothing? <==> IsDuplicate(old(View()), q))
                && (!r.Nothing? ==> r.Got? && r.packet.Value() == q)
    {
      var decoded := PacketBytes.S64FromBytes(data);
      r := HandleDecoded(decoded, now, serial);
    }

    method HandleDecoded(decoded: Codec.Decoded, now: int, ghost serial: nat) returns (r: Reading)
      requires Valid() && (decoded.Parsed? ==> decoded.packet.attempts == 0)
      modifies this
      ensures Valid()
      ensures match decoded
              case NotThisProtocol => r.Nothing? && View() == old(View()) && socket == old(socket)
              case BadVersion(v) => r == Unsupported(v) && View() == old(View()) && socket == old(socket)
              case Parsed(p) =>
                var q := p.(serial := serial);
                && View() == Receive(old(View()), q) && Answered(old(socket), q)
                && (r.Nothing? <==> IsDuplicate(old(View()), q))
                && (!r.Nothing? ==> r.Got? && r.packet.Value() == q)
    {
      match decoded {
        case NotThisProtocol =>
          r := Nothing;
        case BadVersion(v) =>
          r := Unsupported(v);
        case Parsed(p) =>
          var pkt := new AbstractPacket(p.version, p.body, p.flags, p.seqnum, p.ack, p.bits, serial);
          assert Values(acksLeftTX) == old(Values(acksLeftTX));
          assert Values(acksLeftRX) == old(Values(acksLeftRX));
          var handled := HandlePacketSequence(pkt, now);
          r := if handled then Got(pkt) else Nothing;
      }
    }

    ghost function SendTimes(): (times: seq<int>)
      reads this, acksLeftTX
      ensures |times| == |acksLeftTX|
      ensures forall i | 0 <= i < |times| :: times[i] == acksLeftTX[i].sendTime
    {
      seq(|acksLeftTX|, i requires 0 <= i < |acksLeftTX| reads this, acksLeftTX => acksLeftTX[i].sendTime)
    }

    /** Sends entry `i` again if its resend time has passed at `check`. */
    method ResendIfDue(i: nat, check: int, stamp: int) returns (ok: bool)
      requires Valid() && i < |acksLeftTX|
      modifies this`localSeqNum, this`acksLeftTX, this`socket, this`log, acksLeftTX[i]
      ensures acksLeftTX == old(acksLeftTX)
      ensures var due := check - old(SendTimes())[i] > TIME_RESEND;
              && View() == (if due then SendAgain(old(View()), i) else old(View()))
              && SendTimes() == (if due then old(SendTimes())[i := stamp] else old(SendTimes()))
              && (ok <==> !due || View().tx[i].attempts <= MAX_RESENDCOUNT)
              && socket == (if due && ok then old(socket) + [Codec.Encode(old(View()).tx[i])] else old(socket))
      ensures ok ==> Valid()
    {
      hide Datagrams, Serial;
      ghost var entry := View().tx[i];
      ok := true;
      if check - acksLeftTX[i].sendTime > TIME_RESEND {
        ghost var before := View();
        ok := SendPacket(acksLeftTX[i], stamp);
        assert View().rx == before.rx;
        assert View().tx == SendAgain(before, i).tx;
        assert Codec.Encode(View().tx[i]) == Codec.Encode(entry);
      }
    }

    /** Sends every listed packet whose resend time has passed again. Returns false when one
        of them was sent too often already. `checks` and `stamps` are the readings of the
        clock, which may run backwards, as each entry is looked at and sent. */
    method ResendMissingPackets(checks: nat -> int, stamps: nat -> int) returns (ok: bool)
      requires Valid()
      modifies this`localSeqNum, this`acksLeftTX, this`socket, this`log, acksLeftTX
      ensures acksLeftTX == old(acksLeftTX)
      ensures ok ==> Valid()
      ensures var tx, due := old(View()).tx, Due(old(SendTimes()), checks);
              && Resending(View(), !ok) == ResendFrom(old(View()), due, 0)
              && Retimed(old(SendTimes()), tx, SendTimes(), View().tx, stamps)
              && socket == old(socket) + Encodings(tx, SentAgain(tx, due, 0))
    {
      ghost var start := Progress(View(), SendTimes(), socket);
      ghost var due := Due(start.times, checks);
      ghost var now := start;
      NothingDone(start, due, stamps);
      hide Datagrams, Codec.Encode, PartWay, SendAgain, Valid;
      ok := true;
      for i := 0 to |acksLeftTX|
        invariant ok && Valid() && acksLeftTX == old(acksLeftTX)
        invariant View() == now.end && SendTimes() == now.times && socket == now.sent
        invariant PartWay(start, due, stamps, now, i)
      {
        NextEntry(start, due, stamps, now, i);
        ok := ResendIfDue(i, checks(i), stamps(i));
        now := AfterEntry(start, due, stamps, now, i);
        if !ok {
          return;
        }
      }
      AllDone(start, due, stamps, now);
    }
  }
}
