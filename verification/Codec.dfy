/** The two wire formats: byte layout, decoding, and why each inverts the other. */
module Codec {
  import opened SequenceNumbers
  import opened Packets

  const S64PACKET_VERSION := 1
  const S64_HEADER: seq<byte> := [0x53, 0x36, 0x34]
  const NETLIB_HEADER: seq<byte> := [0x4E, 0x4C, 0x50]

  /** Fixed bytes of a NetLib packet, and of an S64 packet besides its type string. */
  const NETLIB_OVERHEAD := 18
  const S64_OVERHEAD := 14

  datatype Decoded = NotThisProtocol | BadVersion(version: byte) | Parsed(packet: Packet)

  // ---- Numbers in memory --------------------------------------------------

  function Swap16(v: U16): U16 {
    v / 0x100 + (v % 0x100) * 0x100
  }

  function Swap32(v: U32): U32 {
    v % 0x100 * 0x100_0000 + v / 0x100 % 0x100 * 0x1_0000 + v / 0x1_0000 % 0x100 * 0x100 + v / 0x100_0000
  }

  /** How the (little-endian) client keeps a number in memory. */
  function Memory16(v: U16): seq<byte> {
    [v % 0x100, v / 0x100]
  }

  function Memory32(v: U32): seq<byte> {
    [v % 0x100, v / 0x100 % 0x100, v / 0x1_0000 % 0x100, v / 0x100_0000]
  }

  function Load16(m: seq<byte>): U16
    requires |m| == 2
  {
    m[0] as int + m[1] as int * 0x100
  }

  function Load32(m: seq<byte>): U32
    requires |m| == 4
  {
    m[0] as int + m[1] as int * 0x100 + m[2] as int * 0x1_0000 + m[3] as int * 0x100_0000
  }

  /** Network order. */
  function Big16(v: U16): seq<byte> {
    [v / 0x100, v % 0x100]
  }

  function Big32(v: U32): seq<byte> {
    [v / 0x100_0000, v / 0x1_0000 % 0x100, v / 0x100 % 0x100, v % 0x100]
  }

  function FromBig16(m: seq<byte>): U16
    requires |m| == 2
  {
    m[0] as int * 0x100 + m[1] as int
  }

  function FromBig32(m: seq<byte>): U32
    requires |m| == 4
  {
    m[0] as int * 0x100_0000 + m[1] as int * 0x1_0000 + m[2] as int * 0x100 + m[3] as int
  }

  lemma SwapsAreNetworkOrder16(v: U16, m: seq<byte>)
    requires |m| == 2
    ensures Memory16(Swap16(v)) == Big16(v)
    ensures Swap16(Load16(m)) == FromBig16(m)
  {
    assert Load16(m) / 0x100 == m[1] && Load16(m) % 0x100 == m[0];
  }

  lemma SwapsAreNetworkOrder32(v: U32, m: seq<byte>)
    requires |m| == 4
    ensures Memory32(Swap32(v)) == Big32(v)
    ensures Swap32(Load32(m)) == FromBig32(m)
  {
    DigitsOf32(v % 0x100, v / 0x100 % 0x100, v / 0x1_0000 % 0x100, v / 0x100_0000);
    DigitsOf32(m[3], m[2], m[1], m[0]);
  }

  lemma DigitsOf32(b3: byte, b2: byte, b1: byte, b0: byte)
    ensures var w := b3 * 0x100_0000 + b2 * 0x1_0000 + b1 * 0x100 + b0;
            w / 0x100_0000 == b3 && w / 0x1_0000 % 0x100 == b2 && w / 0x100 % 0x100 == b1 && w % 0x100 == b0
  {
    var w := b3 * 0x100_0000 + b2 * 0x1_0000 + b1 * 0x100 + b0;
    assert w / 0x100 == b3 * 0x1_0000 + b2 * 0x100 + b1;
    assert w / 0x1_0000 == b3 * 0x100 + b2;
  }

  lemma BigRoundTrip16(v: U16, m: seq<byte>)
    requires |m| == 2
    ensures FromBig16(Big16(v)) == v
    ensures Big16(FromBig16(m)) == m
  {
  }

  lemma BigRoundTrip32(v: U32, m: seq<byte>)
    requires |m| == 4
    ensures FromBig32(Big32(v)) == v
    ensures Big32(FromBig32(m)) == m
  {
    DigitsOf32(m[0], m[1], m[2], m[3]);
    assert v / 0x100 == v / 0x1_0000 * 0x100 + v / 0x100 % 0x100;
    assert v / 0x1_0000 == v / 0x100_0000 * 0x100 + v / 0x1_0000 % 0x100;
  }

  // ---- Encoding -----------------------------------------------------------

  function Sequencing(p: Packet): (s: seq<byte>)
    ensures |s| == 6
  {
    Big16(p.seqnum) + Big16(p.ack) + Big16(p.bits)
  }

  /** The bytes before the payload. */
  function Preamble(p: Packet): (s: seq<byte>)
    ensures |s| == if p.body.S64? then S64_OVERHEAD + |p.body.kind| else NETLIB_OVERHEAD
  {
    match p.body
    case NetLib(id, recipients, data) =>
      NETLIB_HEADER + [p.version, id, p.flags] + Sequencing(p) + Big32(recipients) + Big16(|data|)
    case S64(kind, data) =>
      S64_HEADER + [p.version, p.flags] + Sequencing(p) + [|kind| % 0x100] + kind + Big16(|data|)
  }

  function Encode(p: Packet): (s: seq<byte>)
    ensures |s| == |Preamble(p)| + |p.body.data|
  {
    Preamble(p) + p.body.data
  }

  /** `GetAsBytes_Size`: the same sum, in 16 bits. */
  function EncodedSize(p: Packet): U16 {
    (|Preamble(p)| + |p.body.data|) % MODULUS
  }

  /** The size fits its 16 bits. */
  predicate Fits(p: Packet) {
    match p.body
    case NetLib(_, _, data) => |data| <= 65517
    case S64(kind, data) => |kind| + |data| <= 65521
  }

  /** `GetAsBytes_Size` is the number of bytes written exactly for packets that fit. */
  lemma SizeIsExactIffFits(p: Packet)
    ensures EncodedSize(p) == |Encode(p)| <==> Fits(p)
  {
  }

  // ---- Decoding -----------------------------------------------------------

  predicate NulFree(s: seq<byte>) {
    0 !in s
  }

  /** A C string read from a buffer ends at its first NUL. */
  function UpToNul(s: seq<byte>): (r: seq<byte>)
    ensures r <= s && NulFree(r)
    ensures NulFree(s) <==> r == s
    ensures |r| < |s| ==> s[|r|] == 0
  {
    if s == [] || s[0] == 0 then [] else [s[0]] + UpToNul(s[1..])
  }

  /** The buffer holds everything the decoder reads. */
  predicate CoversNetLib(b: seq<byte>) {
    |b| >= 3 &&
    (b[..3] == NETLIB_HEADER ==>
       |b| >= 4 && (b[3] <= S64PACKET_VERSION ==> |b| >= 18 && |b| >= 18 + FromBig16(b[16..18])))
  }

  function DecodeNetLib(b: seq<byte>): Decoded
    requires CoversNetLib(b)
  {
    if b[..3] != NETLIB_HEADER then NotThisProtocol
    else if b[3] > S64PACKET_VERSION then BadVersion(b[3])
    else
      var size := FromBig16(b[16..18]);
      var body := NetLib(b[4], FromBig32(b[12..16]), b[18..18 + size]);
      Parsed(Packet(b[3], b[5], FromBig16(b[6..8]), FromBig16(b[8..10]), FromBig16(b[10..12]), body, 0, 0))
  }

  predicate CoversS64(b: seq<byte>) {
    |b| >= 3 &&
    (b[..3] == S64_HEADER ==>
       |b| >= 4 &&
       (b[3] <= S64PACKET_VERSION ==>
          && |b| >= 12 && |b| >= 14 + b[11] as int
          && |b| >= 14 + b[11] as int + FromBig16(b[12 + b[11] as int..14 + b[11] as int])))
  }

  /** The bytes of the type string as transmitted. */
  function KindField(b: seq<byte>): seq<byte>
    requires |b| >= 12 && |b| >= 14 + b[11] as int
  {
    b[12..12 + b[11] as int]
  }

  function DecodeS64(b: seq<byte>): Decoded
    requires CoversS64(b)
  {
    if b[..3] != S64_HEADER then NotThisProtocol
    else if b[3] > S64PACKET_VERSION then BadVersion(b[3])
    else
      var at := 12 + b[11] as int;
      var size := FromBig16(b[at..at + 2]);
      var body := S64(UpToNul(KindField(b)), b[at + 2..at + 2 + size]);
      Parsed(Packet(b[3], b[4], FromBig16(b[5..7]), FromBig16(b[7..9]), FromBig16(b[9..11]), body, 0, 0))
  }

  /** What a receiver can recover of a packet. */
  function Transmitted(p: Packet): Packet {
    p.(attempts := 0, serial := 0)
  }

  // ---- NetLib: decoding inverts encoding, and the converse ----------------

  /** Every byte of an encoded NetLib packet, by position. */
  lemma NetLibLayout(p: Packet, tail: seq<byte>)
    requires p.body.NetLib?
    ensures var b := Encode(p) + tail;
            && |b| >= 18 + |p.body.data|
            && b[..3] == [0x4E, 0x4C, 0x50] && b[3] == p.version && b[4] == p.body.id && b[5] == p.flags
            && b[6..8] == Big16(p.seqnum) && b[8..10] == Big16(p.ack) && b[10..12] == Big16(p.bits)
            && b[12..16] == Big32(p.body.recipients) && b[16..18] == Big16(|p.body.data|)
            && b[18..18 + |p.body.data|] == p.body.data
  {
    var b := Encode(p) + tail;
    assert b == Preamble(p) + (p.body.data + tail);
    assert b[..18] == Preamble(p);
    assert b[..3] == b[..18][..3];
    assert b[6..8] == b[..18][6..8];
    assert b[8..10] == b[..18][8..10];
    assert b[10..12] == b[..18][10..12];
    assert b[12..16] == b[..18][12..16];
    assert b[16..18] == b[..18][16..18];
  }

  /** Every NetLib packet of a supported version survives encoding, whatever follows it in
      the buffer, and every other is reported. */
  lemma NetLibRoundTrip(p: Packet, tail: seq<byte>)
    requires p.body.NetLib?
    ensures CoversNetLib(Encode(p) + tail)
    ensures DecodeNetLib(Encode(p) + tail) ==
            if p.version <= 1 then Parsed(Transmitted(p)) else BadVersion(p.version)
  {
    NetLibLayout(p, tail);
    BigRoundTrip16(p.seqnum, Big16(0));
    BigRoundTrip16(p.ack, Big16(0));
    BigRoundTrip16(p.bits, Big16(0));
    BigRoundTrip16(|p.body.data|, Big16(0));
    BigRoundTrip32(p.body.recipients, Big32(0));
  }

  /** Decoding loses nothing: the packet read re-encodes to the very bytes it was read from. */
  lemma NetLibCanonical(b: seq<byte>)
    requires CoversNetLib(b) && DecodeNetLib(b).Parsed?
    ensures var p := DecodeNetLib(b).packet;
            p.version <= S64PACKET_VERSION && |Encode(p)| <= |b| && b[..|Encode(p)|] == Encode(p)
  {
    var p := DecodeNetLib(b).packet;
    BigRoundTrip16(0, b[6..8]);
    BigRoundTrip16(0, b[8..10]);
    BigRoundTrip16(0, b[10..12]);
    BigRoundTrip16(0, b[16..18]);
    BigRoundTrip32(0, b[12..16]);
    assert Preamble(p) == b[..18];
    assert b[..|Encode(p)|] == b[..18] + b[18..|Encode(p)|];
  }

  // ---- S64: the same, as far as the type string allows --------------------

  /** The first twelve bytes. */
  function S64Fixed(p: Packet): (s: seq<byte>)
    requires p.body.S64?
    ensures |s| == 12
  {
    S64_HEADER + [p.version, p.flags] + Sequencing(p) + [|p.body.kind| % 0x100]
  }

  lemma S64FixedFields(p: Packet)
    requires p.body.S64?
    ensures var f := S64Fixed(p);
            && f[..3] == S64_HEADER && f[3] == p.version && f[4] == p.flags
            && f[5..7] == Big16(p.seqnum) && f[7..9] == Big16(p.ack) && f[9..11] == Big16(p.bits)
            && f[11] == |p.body.kind| % 0x100
  {
  }

  /** Every byte of an encoded S64 packet, by position. */
  lemma S64Layout(p: Packet, tail: seq<byte>)
    requires p.body.S64?
    ensures var b := Encode(p) + tail;
            var at := 12 + |p.body.kind|;
            && |b| >= at + 2 + |p.body.data|
            && b[..3] == [0x53, 0x36, 0x34] && b[3] == p.version && b[4] == p.flags
            && b[5..7] == Big16(p.seqnum) && b[7..9] == Big16(p.ack) && b[9..11] == Big16(p.bits)
            && b[11] == |p.body.kind| % 0x100
            && b[12..at] == p.body.kind && b[at..at + 2] == Big16(|p.body.data|)
            && b[at + 2..at + 2 + |p.body.data|] == p.body.data
  {
    var b := Encode(p) + tail;
    var f, kind, size, data := S64Fixed(p), p.body.kind, Big16(|p.body.data|), p.body.data;
    S64FixedFields(p);
    assert b == f + kind + size + data + tail;
    FieldsInOrder(f, kind, size, data, tail);
    assert b[..3] == b[..12][..3];
    assert b[5..7] == b[..12][5..7];
    assert b[7..9] == b[..12][7..9];
    assert b[9..11] == b[..12][9..11];
  }

  lemma FieldsInOrder<T>(f: seq<T>, kind: seq<T>, size: seq<T>, data: seq<T>, tail: seq<T>)
    ensures var b := f + kind + size + data + tail;
            var at := |f| + |kind|;
            && b[..|f|] == f && b[|f|..at] == kind && b[at..at + |size|] == size
            && b[at + |size|..at + |size| + |data|] == data
  {
  }

  /** An S64 packet of a supported version survives encoding exactly when its type string
      is at most 255 bytes and holds no NUL; every other version is reported. */
  lemma S64RoundTrip(p: Packet, tail: seq<byte>)
    requires p.body.S64?
    ensures |p.body.kind| <= 255 || p.version > 1 ==> CoversS64(Encode(p) + tail)
    ensures CoversS64(Encode(p) + tail) && p.version <= 1 ==>
              (DecodeS64(Encode(p) + tail) == Parsed(Transmitted(p)) <==>
               |p.body.kind| <= 255 && NulFree(p.body.kind))
    ensures p.version > 1 ==> DecodeS64(Encode(p) + tail) == BadVersion(p.version)
  {
    hide Encode, FromBig16;
    var b := Encode(p) + tail;
    S64Layout(p, tail);
    BigRoundTrip16(p.seqnum, Big16(0));
    BigRoundTrip16(p.ack, Big16(0));
    BigRoundTrip16(p.bits, Big16(0));
    BigRoundTrip16(|p.body.data|, Big16(0));
    if |p.body.kind| > 255 && CoversS64(b) && p.version <= S64PACKET_VERSION {
      assert DecodeS64(b).packet.body.kind <= KindField(b);
    }
  }

  lemma S64NulFreeCanonical(b: seq<byte>)
    requires CoversS64(b) && DecodeS64(b).Parsed? && NulFree(KindField(b))
    ensures var p := DecodeS64(b).packet;
            |Encode(p)| <= |b| && b[..|Encode(p)|] == Encode(p)
  {
    var p := DecodeS64(b).packet;
    var at := 12 + b[11] as int;
    BigRoundTrip16(0, b[5..7]);
    BigRoundTrip16(0, b[7..9]);
    BigRoundTrip16(0, b[9..11]);
    BigRoundTrip16(0, b[at..at + 2]);
    assert Preamble(p) == b[..at + 2];
    assert b[..|Encode(p)|] == b[..at + 2] + b[at + 2..|Encode(p)|];
  }

  /** The packet read re-encodes to the bytes it was read from exactly when the
      transmitted type string holds no NUL. */
  lemma S64Canonical(b: seq<byte>)
    requires CoversS64(b) && DecodeS64(b).Parsed?
    ensures var p := DecodeS64(b).packet;
            p.version <= S64PACKET_VERSION && |Encode(p)| <= |b| &&
            (b[..|Encode(p)|] == Encode(p) <==> NulFree(KindField(b)))
  {
    var p := DecodeS64(b).packet;
    if NulFree(KindField(b)) {
      S64NulFreeCanonical(b);
    } else {
      S64TruncatedIsNotCanonical(p, b[11]);
    }
  }

  /** A shorter type string re-encodes with another length byte. */
  lemma S64TruncatedIsNotCanonical(p: Packet, length: byte)
    requires p.body.S64? && |p.body.kind| < length
    ensures |Encode(p)| >= 14 + |p.body.kind| && Encode(p)[11] != length
  {
    S64Layout(p, []);
    assert Encode(p) + [] == Encode(p);
  }

  /** Neither decoder takes the other protocol's packets. */
  lemma ProtocolsAreDisjoint(p: Packet, tail: seq<byte>)
    ensures p.body.NetLib? ==> CoversS64(Encode(p) + tail) && DecodeS64(Encode(p) + tail) == NotThisProtocol
    ensures p.body.S64? ==> CoversNetLib(Encode(p) + tail) && DecodeNetLib(Encode(p) + tail) == NotThisProtocol
  {
    var b := Encode(p) + tail;
    if p.body.NetLib? {
      NetLibLayout(p, tail);
      assert b[..3][0] != S64_HEADER[0];
    } else {
      S64Layout(p, tail);
      assert b[..3][0] != NETLIB_HEADER[0];
    }
  }
}
