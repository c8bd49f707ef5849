/** The console library itself: the globals it writes in place, tied to the value of
    `NetLibCalls` after every call made so far. */
module NetLibWriter {
  import opened SequenceNumbers
  import opened Packets
  import opened NetLibCalls
  import Bits
  import Codec
  import PacketBytes

  /** `1 << k` in 32 bits. */
  function PowerOfTwo(k: nat): U32
    requires k < 32
  {
    (Bits.OneGrows(k, 32); Bits.SixteenBits(); Bits.OneAdds(16, 16); Bits.One(k))
  }

  /** `1 << k`; what the machine makes of a shift outside the word is an argument. */
  function Shifted(k: int, undefinedShift: U32): U32 {
    if 0 <= k < 32 then PowerOfTwo(k) else undefinedShift
  }

  /** The recipients of a packet to one player, and of one to all players but this. */
  function SendMask(to: byte, undefinedShift: U32): U32 {
    Shifted(to, undefinedShift)
  }

  function BroadcastMask(client: byte, undefinedShift: U32): U32 {
    0xFFFF_FFFF - Shifted(client - 1, undefinedShift)
  }

  /** Shifting one sets one bit. */
  lemma ShiftedHasOneBit(k: nat, undefinedShift: U32, j: nat)
    requires k < 32
    ensures Bits.Bit(Shifted(k, undefinedShift), j) <==> j == k
  {
    Bits.OneHasOneBit(k, j);
  }

  lemma OthersHaveTheirBit(k: nat, undefinedShift: U32, j: nat)
    requires k < 32
    ensures Bits.Bit(0xFFFF_FFFF - Shifted(k, undefinedShift), j) <==> j < 32 && j != k
  {
    Bits.SixteenBits();
    Bits.OneAdds(16, 16);
    Bits.OnesWithoutOne(32, k, j);
  }

  /** The recipients the client reads from a packet are exactly these players. */
  ghost predicate Names(d: Codec.Decoded, named: nat -> bool) {
    d.Parsed? ==> d.packet.body.NetLib? && forall j: nat :: Bits.Bit(d.packet.body.recipients, j) <==> named(j)
  }

  /** A packet sent to one player names that player and no other, */
  lemma SendNamesOne(calls: seq<Call>, first: nat, last: nat, to: byte, undefinedShift: U32)
    requires IsFirstStart(calls, first) && IsLastStart(calls, last) && to < 32
    ensures var d := Datagram(calls + [Complete(SendMask(to, undefinedShift))]);
            Codec.CoversNetLib(d) && Names(Codec.DecodeNetLib(d), j => j == to)
  {
    var mask := SendMask(to, undefinedShift);
    MaskIsRead(calls, first, last, mask);
    forall j: nat ensures Bits.Bit(mask, j) <==> j == to {
      ShiftedHasOneBit(to, undefinedShift, j);
    }
  }

  /** a broadcast names all 32 but this one, */
  lemma BroadcastNamesOthers(calls: seq<Call>, first: nat, last: nat, client: byte, undefinedShift: U32)
    requires IsFirstStart(calls, first) && IsLastStart(calls, last) && 1 <= client <= 32
    ensures var d := Datagram(calls + [Complete(BroadcastMask(client, undefinedShift))]);
            Codec.CoversNetLib(d) && Names(Codec.DecodeNetLib(d), j => j < 32 && j != client - 1)
  {
    var mask := BroadcastMask(client, undefinedShift);
    MaskIsRead(calls, first, last, mask);
    forall j: nat ensures Bits.Bit(mask, j) <==> j < 32 && j != client - 1 {
      OthersHaveTheirBit(client - 1, undefinedShift, j);
    }
  }

  /** and one sent to the server names nobody. */
  lemma ServerNamesNobody(calls: seq<Call>, first: nat, last: nat)
    requires IsFirstStart(calls, first) && IsLastStart(calls, last)
    ensures var d := Datagram(calls + [Complete(0)]);
            Codec.CoversNetLib(d) && Names(Codec.DecodeNetLib(d), _ => false)
  {
    MaskIsRead(calls, first, last, 0);
    forall j: nat ensures !Bits.Bit(0, j) {
      Bits.ZeroHasNoBits(j);
    }
  }

  lemma MaskIsRead(calls: seq<Call>, first: nat, last: nat, mask: U32)
    requires IsFirstStart(calls, first) && IsLastStart(calls, last)
    ensures var d := Datagram(calls + [Complete(mask)]);
            && Codec.CoversNetLib(d)
            && (Codec.DecodeNetLib(d).Parsed? ==>
                  Codec.DecodeNetLib(d).packet.body.NetLib? && Codec.DecodeNetLib(d).packet.body.recipients == mask)
  {
    ReadBack(calls, first, last, mask);
    CompletedBytes(calls, first, last, mask);
    Codec.BigRoundTrip32(mask, Codec.Big32(0));
  }

  class Writer {
    const buffer: array<byte>
    var cursor: nat
    var client: byte
    /** Every call made so far. */
    ghost var calls: seq<Call>

    ghost predicate Valid()
      reads this, buffer
    {
      && buffer.Length == MAX_PACKETSIZE && cursor <= MAX_PACKETSIZE
      && View() == After(Boot(), calls)
    }

    ghost function View(): Image
      reads this, buffer
    {
      Image(buffer[..], cursor)
    }

    /** The library's storage starts out zeroed. */
    constructor ()
      ensures Valid() && fresh(buffer) && calls == [] && client == 0
    {
      buffer := new byte[MAX_PACKETSIZE](_ => 0);
      cursor, client := 0, 0;
      calls := [];
      new;
      assert buffer[..] == Boot().buffer;
    }

    /** Records a call whose effect has been made. */
    ghost method Record(call: Call, before: Image)
      requires buffer.Length == MAX_PACKETSIZE && cursor <= MAX_PACKETSIZE
      requires before == After(Boot(), calls) && View() == Applied(before, call)
      modifies this`calls
      ensures Valid() && calls == old(calls) + [call]
    {
      AfterOne(Boot(), calls, call);
      calls := calls + [call];
    }

    /** Copies bytes into the buffer. */
    method Put(at: nat, bytes: seq<byte>)
      requires buffer.Length == MAX_PACKETSIZE && at + |bytes| <= MAX_PACKETSIZE
      modifies buffer
      ensures buffer[..] == Patched(old(buffer[..]), at, bytes)
    {
      PacketBytes.Memcpy(buffer, at, bytes);
      assert buffer[..] == buffer[..at + |bytes|] + buffer[at + |bytes|..];
    }

    /** `netlib_initialize`, at any time: the cursor stays where it is. */
    method Initialize()
      requires Valid()
      modifies this`client, this`calls, buffer
      ensures Valid() && client == 0 && calls == old(calls) + [NetLibCalls.Initialize]
    {
      ghost var before := View();
      Put(0, Codec.NETLIB_HEADER + [NETLIB_VERSION]);
      Put(6, [0, 0, 0, 0, 0, 0]);
      client := 0;
      Record(NetLibCalls.Initialize, before);
    }

    method SetClient(number: byte)
      requires Valid()
      modifies this`client
      ensures Valid() && client == number
    {
      client := number;
    }

    method Start(id: byte)
      requires Valid()
      modifies this`cursor, this`calls, buffer
      ensures Valid() && calls == old(calls) + [StartPacket(id)]
    {
      ghost var before := View();
      Put(4, [id, 0]);
      cursor := PACKET_HEADERSIZE;
      Record(StartPacket(id), before);
    }

    /** Appends bytes, or nothing if they do not all fit. */
    method WriteBytes(data: seq<byte>)
      requires Valid()
      modifies this`cursor, this`calls, buffer
      ensures Valid() && calls == old(calls) + [Write(data)]
    {
      ghost var before := View();
      if cursor + |data| <= MAX_PACKETSIZE {
        Put(cursor, data);
        cursor := cursor + |data|;
      }
      Record(Write(data), before);
    }

    method WriteByte(data: byte)
      requires Valid()
      modifies this`cursor, this`calls, buffer
      ensures Valid() && calls == old(calls) + [Write([data])]
    {
      WriteBytes([data]);
    }

    method WriteWord(data: U16)
      requires Valid()
      modifies this`cursor, this`calls, buffer
      ensures Valid() && calls == old(calls) + [Write(Codec.Big16(data))]
    {
      WriteBytes([data / 0x100 % 0x100, data % 0x100]);
    }

    method WriteDword(data: U32)
      requires Valid()
      modifies this`cursor, this`calls, buffer
      ensures Valid() && calls == old(calls) + [Write(Codec.Big32(data))]
    {
      WriteBytes([data / 0x100_0000 % 0x100, data / 0x1_0000 % 0x100, data / 0x100 % 0x100, data % 0x100]);
    }

    method WriteQword(high: U32, low: U32)
      requires Valid()
      modifies this`cursor, this`calls, buffer
      ensures Valid() && calls == old(calls) + [Write(Codec.Big32(high) + Codec.Big32(low))]
    {
      assert Codec.Big32(high) + Codec.Big32(low) ==
             [high / 0x100_0000, high / 0x1_0000 % 0x100, high / 0x100 % 0x100, high % 0x100,
              low / 0x100_0000, low / 0x1_0000 % 0x100, low / 0x100 % 0x100, low % 0x100];
      WriteBytes([high / 0x100_0000, high / 0x1_0000 % 0x100, high / 0x100 % 0x100, high % 0x100,
                  low / 0x100_0000, low / 0x1_0000 % 0x100, low / 0x100 % 0x100, low % 0x100]);
    }

    method SetPacketFlags(flags: byte)
      requires Valid()
      modifies this`calls, buffer
      ensures Valid() && calls == old(calls) + [SetFlags(flags)]
    {
      ghost var before := View();
      Put(5, [flags]);
      Record(SetFlags(flags), before);
    }

    /** Completes the header, started packet or not, and hands out the bytes to send. */
    method CompletePacket(mask: U32) returns (datagram: seq<byte>)
      requires Valid()
      modifies this`calls, buffer
      ensures Valid() && calls == old(calls) + [Complete(mask)] && datagram == Datagram(calls)
    {
      ghost var before := View();
      var datasize := DataSize(cursor);
      Put(12, Codec.Big32(mask));
      Put(16, Codec.Big16(datasize));
      assert buffer[..] == Patched(before.buffer, 12, Codec.Big32(mask) + Codec.Big16(datasize));
      Record(Complete(mask), before);
      datagram := buffer[..cursor];
    }

    /** To everyone but this console. */
    method Broadcast(undefinedShift: U32) returns (datagram: seq<byte>)
      requires Valid()
      modifies this`calls, buffer
      ensures Valid() && datagram == Datagram(calls)
      ensures calls == old(calls) + [Complete(BroadcastMask(client, undefinedShift))]
    {
      datagram := CompletePacket(0xFFFF_FFFF - Shifted(client as int - 1, undefinedShift));
    }

    method Send(to: byte, undefinedShift: U32) returns (datagram: seq<byte>)
      requires Valid()
      modifies this`calls, buffer
      ensures Valid() && datagram == Datagram(calls)
      ensures calls == old(calls) + [Complete(SendMask(to, undefinedShift))]
    {
      datagram := CompletePacket(Shifted(to, undefinedShift));
    }

    method SendToServer() returns (datagram: seq<byte>)
      requires Valid()
      modifies this`calls, buffer
      ensures Valid() && datagram == Datagram(calls)
      ensures calls == old(calls) + [Complete(0)]
    {
      datagram := CompletePacket(0);
    }
  }
}
