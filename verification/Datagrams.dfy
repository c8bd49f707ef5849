/** Packets travel as bytes: which packets a datagram carries, and why the step system may
    pass the packets themselves. */
module DatagramFormat {
  import opened SequenceNumbers
  import opened Packets
  import opened Reliability
  import Codec

  /** A packet whose type string, if it has one, survives the wire. */
  predicate Transmissible(p: Packet) {
    && p.version <= Codec.S64PACKET_VERSION
    && Codec.Fits(p)
    && (p.body.S64? ==> |p.body.kind| <= 255 && Codec.NulFree(p.body.kind))
  }

  /** The packet class a pair of handlers exchanges. */
  datatype Protocol = S64Protocol | NetLibProtocol

  /** A packet of this protocol, as transmitted, that the peer's reader understands. */
  predicate Carried(p: Packet, protocol: Protocol) {
    Transmissible(p) && p.attempts == 0 && (p.body.S64? <==> protocol.S64Protocol?)
  }

  predicate Covers(protocol: Protocol, datagram: seq<byte>) {
    if protocol.S64Protocol? then Codec.CoversS64(datagram) else Codec.CoversNetLib(datagram)
  }

  /** What the reader of the protocol makes of a datagram. */
  function Read(protocol: Protocol, datagram: seq<byte>): Codec.Decoded
    requires Covers(protocol, datagram)
  {
    if protocol.S64Protocol? then Codec.DecodeS64(datagram) else Codec.DecodeNetLib(datagram)
  }

  /** Reading the datagram of a packet, whatever follows it in the read buffer, and
      processing the result is processing that packet. */
  lemma DatagramCarriesPacket(e: Endpoint, p: Packet, protocol: Protocol, tail: seq<byte>)
    requires Carried(p, protocol)
    ensures var datagram := Codec.Encode(p) + tail;
            && Covers(protocol, datagram)
            && Read(protocol, datagram).Parsed?
            && Read(protocol, datagram).packet.(serial := p.serial) == p
            && Receive(e, Read(protocol, datagram).packet.(serial := p.serial)) == Receive(e, p)
  {
    if p.body.S64? {
      Codec.S64RoundTrip(p, tail);
    } else {
      Codec.NetLibRoundTrip(p, tail);
    }
  }

  /** Numbering a packet leaves it carried, and so is the answer to one. */
  lemma StampedIsCarried(e: Endpoint, p: Packet, protocol: Protocol)
    requires Carried(p, protocol)
    ensures Carried(Stamped(e, p).OnWire(), protocol)
    ensures Carried(AckFor(p.body), protocol)
  {
  }

  // ---- Answers as the peer reads them -------------------------------------

  function ProtocolOf(body: Body): Protocol {
    if body.S64? then S64Protocol else NetLibProtocol
  }

  /** The reader of the protocol makes an empty acknowledgement of this datagram, whatever
      follows it: version 1, unreliable and asking for nothing, with these numbers. */
  ghost predicate IsAnswer(datagram: seq<byte>, protocol: Protocol, seqnum: U16, ack: U16) {
    forall tail: seq<byte> ::
      && Covers(protocol, datagram + tail)
      && Read(protocol, datagram + tail).Parsed?
      && var q := Read(protocol, datagram + tail).packet;
         && q.IsAckBeat() && q.version == 1 && q.flags == 1 && q.seqnum == seqnum && q.ack == ack
         && q.body == if protocol.S64Protocol? then S64([0x41, 0x43, 0x4B], []) else NetLib(0, 0, [])
  }

  /** The answer to a packet is one. */
  lemma AnswerReadsBack(e: Endpoint, body: Body)
    ensures IsAnswer(Codec.Encode(Stamped(e, AckFor(body)).OnWire()), ProtocolOf(body), e.local, e.remote)
  {
    var q := Stamped(e, AckFor(body)).OnWire();
    forall tail: seq<byte>
      ensures Covers(ProtocolOf(body), Codec.Encode(q) + tail)
      ensures Read(ProtocolOf(body), Codec.Encode(q) + tail) == Codec.Parsed(Codec.Transmitted(q))
    {
      if body.S64? {
        Codec.S64RoundTrip(q, tail);
      } else {
        Codec.NetLibRoundTrip(q, tail);
      }
    }
  }
}
