/** Writing packets into byte buffers and reading them back, field by field behind a
    moving count. */
module PacketBytes {
  import opened SequenceNumbers
  import opened Packets
  import opened Codec

  /** Copies `src` to `dst` at `at`. */
  method Memcpy(dst: array<byte>, at: nat, src: seq<byte>)
    requires at + |src| <= dst.Length
    modifies dst
    ensures dst[..at + |src|] == old(dst[..at]) + src
    ensures dst[at + |src|..] == old(dst[at + |src|..])
  {
    for i := 0 to |src|
      invariant dst[..at + i] == old(dst[..at]) + src[..i]
      invariant dst[at + |src|..] == old(dst[at + |src|..])
    {
      dst[at + i] := src[i];
      assert dst[..at + i + 1] == dst[..at + i] + [src[i]];
      assert src[..i + 1] == src[..i] + [src[i]];
    }
    assert src[..|src|] == src;
  }

  method WriteSequencing(dst: array<byte>, at: nat, p: Packet)
    requires at + 6 <= dst.Length
    modifies dst
    ensures dst[..at + 6] == old(dst[..at]) + Sequencing(p)
  {
    SwapsAreNetworkOrder16(p.seqnum, Big16(0));
    SwapsAreNetworkOrder16(p.ack, Big16(0));
    SwapsAreNetworkOrder16(p.bits, Big16(0));
    var writecount := at;
    Memcpy(dst, writecount, Memory16(Swap16(p.seqnum)));
    writecount := writecount + 2;
    Memcpy(dst, writecount, Memory16(Swap16(p.ack)));
    writecount := writecount + 2;
    Memcpy(dst, writecount, Memory16(Swap16(p.bits)));
  }

  /** The size computed in 16 bits must be the size written, or the buffer is too short. */
  method NetLibGetAsBytes(p: Packet) returns (bytes: array<byte>)
    requires p.body.NetLib? && Fits(p)
    ensures fresh(bytes) && bytes[..] == Encode(p)
  {
    SizeIsExactIffFits(p);
    SwapsAreNetworkOrder32(p.body.recipients, Big32(0));
    SwapsAreNetworkOrder16(|p.body.data|, Big16(0));
    bytes := new byte[EncodedSize(p)];
    var writecount := 0;
    Memcpy(bytes, writecount, NETLIB_HEADER);
    writecount := writecount + |NETLIB_HEADER|;
    Memcpy(bytes, writecount, [p.version]);
    writecount := writecount + 1;
    Memcpy(bytes, writecount, [p.body.id]);
    writecount := writecount + 1;
    Memcpy(bytes, writecount, [p.flags]);
    writecount := writecount + 1;
    assert bytes[..writecount] == NETLIB_HEADER + [p.version, p.body.id, p.flags];
    WriteSequencing(bytes, writecount, p);
    writecount := writecount + 6;
    Memcpy(bytes, writecount, Memory32(Swap32(p.body.recipients)));
    writecount := writecount + 4;
    Memcpy(bytes, writecount, Memory16(Swap16(|p.body.data|)));
    writecount := writecount + 2;
    assert bytes[..writecount] == Preamble(p);
    if |p.body.data| > 0 {
      Memcpy(bytes, writecount, p.body.data);
      writecount := writecount + |p.body.data|;
    }
    assert bytes[..] == bytes[..writecount];
  }

  /** The first eleven bytes of an S64 packet. */
  method WriteS64Header(bytes: array<byte>, p: Packet)
    requires bytes.Length >= 11
    modifies bytes
    ensures bytes[..11] == S64_HEADER + [p.version, p.flags] + Sequencing(p)
  {
    var writecount := 0;
    Memcpy(bytes, writecount, S64_HEADER);
    writecount := writecount + |S64_HEADER|;
    Memcpy(bytes, writecount, [p.version]);
    writecount := writecount + 1;
    Memcpy(bytes, writecount, [p.flags]);
    writecount := writecount + 1;
    assert bytes[..writecount] == S64_HEADER + [p.version, p.flags];
    WriteSequencing(bytes, writecount, p);
  }

  method S64GetAsBytes(p: Packet) returns (bytes: array<byte>)
    requires p.body.S64? && Fits(p)
    ensures fresh(bytes) && bytes[..] == Encode(p)
  {
    SizeIsExactIffFits(p);
    SwapsAreNetworkOrder16(|p.body.data|, Big16(0));
    bytes := new byte[EncodedSize(p)];
    WriteS64Header(bytes, p);
    var writecount := 11;
    Memcpy(bytes, writecount, [|p.body.kind| % 0x100]);
    writecount := writecount + 1;
    Memcpy(bytes, writecount, p.body.kind);
    writecount := writecount + |p.body.kind|;
    Memcpy(bytes, writecount, Memory16(Swap16(|p.body.data|)));
    writecount := writecount + 2;
    assert bytes[..writecount] == Preamble(p);
    if |p.body.data| > 0 {
      Memcpy(bytes, writecount, p.body.data);
      writecount := writecount + |p.body.data|;
    }
    assert bytes[..] == bytes[..writecount];
  }

  /** Reads a 16-bit number in network order at `at`. */
  method Read16(bytes: array<byte>, at: nat) returns (v: U16)
    requires at + 2 <= bytes.Length
    ensures v == FromBig16(bytes[..][at..at + 2])
  {
    var m := bytes[at..at + 2];
    SwapsAreNetworkOrder16(0, m);
    v := Swap16(Load16(m));
    assert m == bytes[..][at..at + 2];
  }

  method NetLibFromBytes(bytes: array<byte>) returns (r: Decoded)
    requires CoversNetLib(bytes[..])
    ensures r == DecodeNetLib(bytes[..])
  {
    ghost var b := bytes[..];
    if bytes[..3] != NETLIB_HEADER {
      return NotThisProtocol;
    }
    var readcount := |NETLIB_HEADER|;
    var version := bytes[readcount];
    readcount := readcount + 1;
    if version > S64PACKET_VERSION {
      return BadVersion(version);
    }
    var id := bytes[readcount];
    readcount := readcount + 1;
    var flags := bytes[readcount];
    readcount := readcount + 1;
    var seqnum := Read16(bytes, readcount);
    readcount := readcount + 2;
    var acknum := Read16(bytes, readcount);
    readcount := readcount + 2;
    var ackbitfield := Read16(bytes, readcount);
    readcount := readcount + 2;
    SwapsAreNetworkOrder32(0, b[12..16]);
    var recipients := Swap32(Load32(bytes[readcount..readcount + 4]));
    assert bytes[readcount..readcount + 4] == b[12..16];
    readcount := readcount + 4;
    var size := Read16(bytes, readcount);
    readcount := readcount + 2;
    var data: Payload := [];
    if size > 0 {
      data := bytes[readcount..readcount + size];
      readcount := readcount + size;
    }
    assert data == b[18..18 + size];
    r := Parsed(Packet(version, flags, seqnum, acknum, ackbitfield, NetLib(id, recipients, data), 0, 0));
  }

  method S64FromBytes(bytes: array<byte>) returns (r: Decoded)
    requires CoversS64(bytes[..])
    ensures r == DecodeS64(bytes[..])
  {
    ghost var b := bytes[..];
    if bytes[..3] != S64_HEADER {
      return NotThisProtocol;
    }
    var readcount := |S64_HEADER|;
    var version := bytes[readcount];
    readcount := readcount + 1;
    if version > S64PACKET_VERSION {
      return BadVersion(version);
    }
    var flags := bytes[readcount];
    readcount := readcount + 1;
    var seqnum := Read16(bytes, readcount);
    readcount := readcount + 2;
    var acknum := Read16(bytes, readcount);
    readcount := readcount + 2;
    var ackbitfield := Read16(bytes, readcount);
    readcount := readcount + 2;
    var typelen: int := bytes[readcount];
    readcount := readcount + 1;
    var typestr := UpToNul(bytes[readcount..readcount + typelen]);
    assert bytes[readcount..readcount + typelen] == KindField(b);
    readcount := readcount + typelen;
    var size := Read16(bytes, readcount);
    readcount := readcount + 2;
    var data: Payload := [];
    if size > 0 {
      data := bytes[readcount..readcount + size];
      readcount := readcount + size;
    }
    assert data == b[14 + typelen..14 + typelen + size];
    r := Parsed(Packet(version, flags, seqnum, acknum, ackbitfield, S64(typestr, data), 0, 0));
  }
}
