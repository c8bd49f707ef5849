/** Packets as values: what both packet classes carry, on and off the wire. */
module Packets {
  import opened SequenceNumbers
  import Acks
  import Bits

  type byte = x: int | 0 <= x < 0x100
  type U32 = x: int | 0 <= x < 0x1_0000_0000
  type Payload = s: seq<byte> | |s| < 0x1_0000

  const FLAG_UNRELIABLE: byte := 0x01
  const FLAG_EXPLICITACK: byte := 0x02
  const MAX_RESENDCOUNT := 5

  /** The part that depends on the protocol: `S64` packets have a type string,
      `NetLib` packets a type number and a recipient mask. */
  datatype Body =
    | S64(kind: seq<byte>, data: Payload)
    | NetLib(id: byte, recipients: U32, data: Payload)

  /** `attempts` is a local counter and `serial` a history variable: the number of reliable
      packets the sender had numbered before stamping this one. Neither is put on the wire
      and no operation below branches on `serial`. */
  datatype Packet = Packet(
    version: byte,
    flags: byte,
    seqnum: U16,
    ack: U16,
    bits: U16,
    body: Body,
    attempts: byte,
    serial: nat)
  {
    predicate Unreliable() {
      flags / FLAG_UNRELIABLE % 2 == 1
    }

    predicate Reliable() {
      !Unreliable()
    }

    predicate WantsAck() {
      flags / FLAG_EXPLICITACK % 2 == 1
    }

    predicate Acknowledges(number: U16) {
      Acks.IsAcked(ack, bits, number)
    }

    /** An acknowledgement or heartbeat, which its receiver does not hand to the application. */
    predicate IsAckBeat() {
      match body
      case S64(kind, _) => kind == [0x41, 0x43, 0x4B]
      case NetLib(id, _, _) => id == 0
    }

    /** The packet as its receiver builds it: the send counter is not transmitted. */
    function OnWire(): Packet {
      this.(attempts := 0)
    }
  }

  /** The acknowledgement made in answer to a packet of the same protocol: "ACK", or type 0. */
  function AckFor(body: Body): Packet {
    var reply := match body
      case S64(_, _) => S64([0x41, 0x43, 0x4B], [])
      case NetLib(_, _, _) => NetLib(0, 0, []);
    Packet(1, FLAG_UNRELIABLE, 0, 0, 0, reply, 0, 0)
  }

  /** The flags are the two lowest bits of their byte. */
  lemma FlagsAreBits(p: Packet)
    ensures p.Unreliable() <==> Bits.And(p.flags, 1) != 0
    ensures p.Reliable() <==> Bits.And(p.flags, 1) == 0
    ensures p.WantsAck() <==> Bits.And(p.flags, 2) != 0
  {
    assert Bits.One(0) == 1 && Bits.One(1) == 2;
    Bits.AndOneTestsBit(p.flags, 0);
    Bits.AndOneTestsBit(p.flags, 1);
    assert Bits.Bit(p.flags, 1) == Bits.Bit(p.flags / 2, 0);
  }

  function Numbers(ps: seq<Packet>): (ns: seq<U16>)
    ensures |ns| == |ps|
    ensures forall i | 0 <= i < |ps| :: ns[i] == ps[i].seqnum
  {
    seq(|ps|, i requires 0 <= i < |ps| => ps[i].seqnum)
  }
}
