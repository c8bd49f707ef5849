/** The console library's packet builder as a value: a zeroed buffer, a cursor that only a
    start or a write moves, and what any sequence of calls leaves for the client to read. */
module NetLibCalls {
  import opened SequenceNumbers
  import opened Packets
  import Codec

  const MAX_PACKETSIZE := 4096
  const PACKET_HEADERSIZE := 18
  const NETLIB_VERSION: byte := 1

  datatype Call =
    | Initialize
    | StartPacket(id: byte)
    | Write(bytes: seq<byte>)
    | SetFlags(flags: byte)
    | Complete(mask: U32)

  datatype Image = Image(buffer: seq<byte>, cursor: nat)

  /** The library's storage before any call. */
  function Boot(): Image {
    Image(seq(MAX_PACKETSIZE, _ => 0), 0)
  }

  predicate Sized(w: Image) {
    |w.buffer| == MAX_PACKETSIZE && w.cursor <= MAX_PACKETSIZE
  }

  /** A buffer with some bytes overwritten. */
  function Patched(buffer: seq<byte>, at: nat, bytes: seq<byte>): (r: seq<byte>)
    requires at + |bytes| <= |buffer|
    ensures |r| == |buffer|
    ensures forall k | 0 <= k < |r| :: r[k] == if at <= k < at + |bytes| then bytes[k - at] else buffer[k]
  {
    buffer[..at] + bytes + buffer[at + |bytes|..]
  }

  /** The payload size in 16 bits, wrapped when no packet was started. */
  function DataSize(cursor: nat): U16 {
    (cursor - PACKET_HEADERSIZE) % MODULUS
  }

  /** One call. Writes go wherever the cursor is, and those that do not fit are discarded whole. */
  function Applied(w: Image, call: Call): (r: Image)
    requires Sized(w)
    ensures Sized(r)
  {
    match call
    case Initialize =>
      w.(buffer := Patched(Patched(w.buffer, 0, Codec.NETLIB_HEADER + [NETLIB_VERSION]), 6, [0, 0, 0, 0, 0, 0]))
    case StartPacket(id) => Image(Patched(w.buffer, 4, [id, 0]), PACKET_HEADERSIZE)
    case Write(bytes) =>
      if w.cursor + |bytes| > MAX_PACKETSIZE then w
      else Image(Patched(w.buffer, w.cursor, bytes), w.cursor + |bytes|)
    case SetFlags(flags) => w.(buffer := Patched(w.buffer, 5, [flags]))
    case Complete(mask) => w.(buffer := Patched(w.buffer, 12, Codec.Big32(mask) + Codec.Big16(DataSize(w.cursor))))
  }

  /** Any calls, in any order: the cursor stays inside the buffer. */
  function After(w: Image, calls: seq<Call>): (r: Image)
    requires Sized(w)
    ensures Sized(r) && |r.buffer| == 4096 && r.cursor <= 4096
  {
    if calls == [] then w else Applied(After(w, calls[..|calls| - 1]), calls[|calls| - 1])
  }

  /** The bytes handed to the USB port by a completed packet. */
  function Datagram(calls: seq<Call>): seq<byte> {
    var w := After(Boot(), calls);
    w.buffer[..w.cursor]
  }

  lemma AfterOne(w: Image, calls: seq<Call>, call: Call)
    requires Sized(w)
    ensures After(w, calls + [call]) == Applied(After(w, calls), call)
  {
    assert (calls + [call])[..|calls|] == calls;
  }

  lemma {:induction false} AfterSplit(w: Image, a: seq<Call>, b: seq<Call>)
    requires Sized(w)
    ensures After(w, a + b) == After(After(w, a), b)
  {
    if b == [] {
      assert a + b == a;
    } else {
      AfterSplit(w, a, b[..|b| - 1]);
      assert (a + b)[..|a + b| - 1] == a + b[..|b| - 1];
    }
  }

  // ---- What a caller can tell from the calls alone ------------------------

  predicate NoStart(calls: seq<Call>) {
    forall c | c in calls :: !c.StartPacket?
  }

  /** The writes that fit behind a cursor at `base`, in order, each whole. */
  function Fitted(base: nat, calls: seq<Call>): (r: seq<byte>)
    requires base <= MAX_PACKETSIZE
    ensures base + |r| <= MAX_PACKETSIZE
  {
    if calls == [] then []
    else
      var sofar, c := Fitted(base, calls[..|calls| - 1]), calls[|calls| - 1];
      if c.Write? && base + |sofar| + |c.bytes| <= MAX_PACKETSIZE then sofar + c.bytes else sofar
  }

  /** The flags set last. */
  function LastFlags(flags: byte, calls: seq<Call>): byte {
    if calls == [] then flags
    else if calls[|calls| - 1].SetFlags? then calls[|calls| - 1].flags
    else LastFlags(flags, calls[..|calls| - 1])
  }

  /** The parts of the header that only `netlib_initialize` sets. */
  predicate IsFixed(j: nat) {
    j < 4 || 6 <= j < 12
  }

  function FixedValue(j: nat): (b: byte)
    requires IsFixed(j)
    ensures b == if j == 0 then 0x4E else if j == 1 then 0x4C else if j == 2 then 0x50 else if j == 3 then 1 else 0
  {
    if j < 4 then (Codec.NETLIB_HEADER + [NETLIB_VERSION])[j] else 0
  }

  datatype Since = Never | At(written: nat)

  /** How much had been written when the library was last initialized, before any start. */
  function LastInitialized(calls: seq<Call>): Since {
    if calls == [] then Never
    else if calls[|calls| - 1].Initialize? then At(|Fitted(0, calls[..|calls| - 1])|)
    else LastInitialized(calls[..|calls| - 1])
  }

  /** A fixed header byte after calls without a start: what was written over it since the
      last initialization, else its value if there was one, else zero. */
  function EarlyByte(calls: seq<Call>, j: nat): byte
    requires IsFixed(j)
  {
    var written, since := Fitted(0, calls), LastInitialized(calls);
    if j < |written| && (since == Never || since.written <= j) then written[j]
    else if since == Never then 0
    else FixedValue(j)
  }

  /** The flags byte after calls without a start: set or written over, whichever came last. */
  function EarlyFlags(calls: seq<Call>): byte {
    if calls == [] then 0
    else
      var init, c := calls[..|calls| - 1], calls[|calls| - 1];
      var before, after := Fitted(0, init), Fitted(0, calls);
      if c.SetFlags? then c.flags
      else if |before| <= 5 < |after| then after[5]
      else EarlyFlags(init)
  }

  /** The type byte and everything behind the header after calls without a start. */
  function EarlyContent(calls: seq<Call>, j: nat): byte {
    if j < |Fitted(0, calls)| then Fitted(0, calls)[j] else 0
  }

  /** A fixed header byte at the end, when `first` is the first start. */
  function HeaderByte(calls: seq<Call>, first: nat, j: nat): byte
    requires first < |calls| && IsFixed(j)
  {
    if Initialize in calls[first + 1..] then FixedValue(j) else EarlyByte(calls[..first], j)
  }

  /** The packet the calls build: the last start's type, the flags set last after it, and the
      writes after it that fitted. */
  function Built(calls: seq<Call>, last: nat, mask: U32): Packet
    requires last < |calls| && calls[last].StartPacket?
  {
    var after := calls[last + 1..];
    var body := NetLib(calls[last].id, mask, Fitted(PACKET_HEADERSIZE, after));
    Packet(NETLIB_VERSION, LastFlags(0, after), 0, 0, 0, body, 0, 0)
  }

  // ---- Before the first start, after it, after the last -------------------

  lemma {:induction false} InitializedEarlier(calls: seq<Call>)
    ensures LastInitialized(calls) == Never || LastInitialized(calls).written <= |Fitted(0, calls)|
  {
    if calls != [] {
      InitializedEarlier(calls[..|calls| - 1]);
    }
  }

  /** The bytes no call but a start or a write changes. */
  predicate IsContent(j: nat) {
    j == 4 || PACKET_HEADERSIZE <= j < MAX_PACKETSIZE
  }

  /** Until the first start, writes go to the start of the buffer, over the header. */
  lemma {:induction false} BeforeFirstStart(calls: seq<Call>)
    requires NoStart(calls)
    ensures After(Boot(), calls).cursor == |Fitted(0, calls)|
    ensures forall j: nat | IsFixed(j) :: After(Boot(), calls).buffer[j] == EarlyByte(calls, j)
    ensures After(Boot(), calls).buffer[5] == EarlyFlags(calls)
    ensures forall j: nat | IsContent(j) :: After(Boot(), calls).buffer[j] == EarlyContent(calls, j)
  {
    if calls != [] {
      var init, c := calls[..|calls| - 1], calls[|calls| - 1];
      assert c in calls;
      BeforeFirstStart(init);
      InitializedEarlier(init);
      assert calls == init + [c];
      EarlyContentStep(After(Boot(), init), init, c);
      forall j: nat | IsFixed(j) ensures After(Boot(), calls).buffer[j] == EarlyByte(calls, j) {
        EarlyStep(After(Boot(), init), init, c, j);
      }
    }
  }

  lemma EarlyContentStep(w: Image, init: seq<Call>, c: Call)
    requires Sized(w) && !c.StartPacket? && w.cursor == |Fitted(0, init)|
    requires w.buffer[5] == EarlyFlags(init)
    requires forall j: nat | IsContent(j) :: w.buffer[j] == EarlyContent(init, j)
    ensures Applied(w, c).cursor == |Fitted(0, init + [c])|
    ensures Applied(w, c).buffer[5] == EarlyFlags(init + [c])
    ensures forall j: nat | IsContent(j) :: Applied(w, c).buffer[j] == EarlyContent(init + [c], j)
  {
    var calls := init + [c];
    assert calls[..|calls| - 1] == init && calls[|calls| - 1] == c;
    var fits := c.Write? && w.cursor + |c.bytes| <= MAX_PACKETSIZE;
    assert Fitted(0, calls) == if fits then Fitted(0, init) + c.bytes else Fitted(0, init);
  }

  lemma EarlyStep(w: Image, init: seq<Call>, c: Call, j: nat)
    requires Sized(w) && !c.StartPacket? && IsFixed(j)
    requires w.cursor == |Fitted(0, init)| && w.buffer[j] == EarlyByte(init, j)
    requires LastInitialized(init) == Never || LastInitialized(init).written <= |Fitted(0, init)|
    ensures Applied(w, c).buffer[j] == EarlyByte(init + [c], j)
  {
    var calls := init + [c];
    assert calls[..|calls| - 1] == init && calls[|calls| - 1] == c;
    assert LastInitialized(calls) == if c.Initialize? then At(|Fitted(0, init)|) else LastInitialized(init);
    var fits := c.Write? && w.cursor + |c.bytes| <= MAX_PACKETSIZE;
    assert Fitted(0, calls) == if fits then Fitted(0, init) + c.bytes else Fitted(0, init);
  }

  /** From the first start on, only initializing changes the fixed bytes. */
  lemma {:induction false} AfterFirstStart(w: Image, calls: seq<Call>)
    requires Sized(w) && w.cursor >= PACKET_HEADERSIZE
    ensures After(w, calls).cursor >= PACKET_HEADERSIZE
    ensures forall j: nat | IsFixed(j) ::
              After(w, calls).buffer[j] == if Initialize in calls then FixedValue(j) else w.buffer[j]
  {
    if calls != [] {
      var init, c := calls[..|calls| - 1], calls[|calls| - 1];
      assert calls == init + [c];
      AfterFirstStart(w, init);
      FixedStep(After(w, init), c);
    }
  }

  lemma FixedStep(w: Image, c: Call)
    requires Sized(w) && w.cursor >= PACKET_HEADERSIZE
    ensures Applied(w, c).cursor >= PACKET_HEADERSIZE
    ensures forall j: nat | IsFixed(j) ::
              Applied(w, c).buffer[j] == if c == Initialize then FixedValue(j) else w.buffer[j]
  {
  }

  /** Overwriting elsewhere. */
  lemma PatchedOutside(buffer: seq<byte>, at: nat, bytes: seq<byte>, lo: nat, hi: nat)
    requires at + |bytes| <= lo <= hi <= |buffer|
    ensures Patched(buffer, at, bytes)[lo..hi] == buffer[lo..hi]
  {
  }

  lemma PatchedAfter(buffer: seq<byte>, at: nat, bytes: seq<byte>, lo: nat)
    requires lo <= at && at + |bytes| <= |buffer|
    ensures Patched(buffer, at, bytes)[lo..at + |bytes|] == buffer[lo..at] + bytes
  {
  }

  /** Only a write that fits changes the payload, only setting flags the flags. */
  lemma PayloadStep(w: Image, payload: seq<byte>, c: Call)
    requires Sized(w) && !c.StartPacket?
    requires w.cursor == PACKET_HEADERSIZE + |payload| && w.buffer[PACKET_HEADERSIZE..w.cursor] == payload
    ensures var r := Applied(w, c);
            var fits := c.Write? && PACKET_HEADERSIZE + |payload| + |c.bytes| <= MAX_PACKETSIZE;
            var payload' := if fits then payload + c.bytes else payload;
            && r.cursor == PACKET_HEADERSIZE + |payload'|
            && r.buffer[4] == w.buffer[4] && r.buffer[5] == (if c.SetFlags? then c.flags else w.buffer[5])
            && r.buffer[PACKET_HEADERSIZE..r.cursor] == payload'
  {
    match c {
      case Initialize =>
        var header := Patched(w.buffer, 0, Codec.NETLIB_HEADER + [NETLIB_VERSION]);
        PatchedOutside(w.buffer, 0, Codec.NETLIB_HEADER + [NETLIB_VERSION], PACKET_HEADERSIZE, w.cursor);
        PatchedOutside(header, 6, [0, 0, 0, 0, 0, 0], PACKET_HEADERSIZE, w.cursor);
        assert Applied(w, c).buffer == Patched(header, 6, [0, 0, 0, 0, 0, 0]);
      case Write(bytes) =>
        if w.cursor + |bytes| <= MAX_PACKETSIZE {
          PatchedAfter(w.buffer, w.cursor, bytes, PACKET_HEADERSIZE);
          assert Applied(w, c).buffer == Patched(w.buffer, w.cursor, bytes);
        }
      case SetFlags(flags) =>
        PatchedOutside(w.buffer, 5, [flags], PACKET_HEADERSIZE, w.cursor);
        assert Applied(w, c).buffer == Patched(w.buffer, 5, [flags]);
      case Complete(mask) =>
        var fields := Codec.Big32(mask) + Codec.Big16(DataSize(w.cursor));
        PatchedOutside(w.buffer, 12, fields, PACKET_HEADERSIZE, w.cursor);
        assert Applied(w, c).buffer == Patched(w.buffer, 12, fields);
    }
  }

  /** From the last start on, the writes that fit fill the payload. */
  lemma {:induction false} AfterLastStart(w: Image, calls: seq<Call>)
    requires Sized(w) && w.cursor == PACKET_HEADERSIZE && NoStart(calls)
    ensures var r, payload := After(w, calls), Fitted(PACKET_HEADERSIZE, calls);
            && r.cursor == PACKET_HEADERSIZE + |payload|
            && r.buffer[4] == w.buffer[4] && r.buffer[5] == LastFlags(w.buffer[5], calls)
            && r.buffer[PACKET_HEADERSIZE..r.cursor] == payload
  {
    if calls != [] {
      var init, c := calls[..|calls| - 1], calls[|calls| - 1];
      assert c in calls;
      AfterLastStart(w, init);
      PayloadStep(After(w, init), Fitted(PACKET_HEADERSIZE, init), c);
    }
  }

  // ---- What the client reads back -----------------------------------------

  predicate IsFirstStart(calls: seq<Call>, first: nat) {
    first < |calls| && calls[first].StartPacket? && NoStart(calls[..first])
  }

  predicate IsLastStart(calls: seq<Call>, last: nat) {
    last < |calls| && calls[last].StartPacket? && NoStart(calls[last + 1..])
  }

  lemma FixedBytes(calls: seq<Call>, first: nat)
    requires IsFirstStart(calls, first)
    ensures forall j: nat | IsFixed(j) :: After(Boot(), calls).buffer[j] == HeaderByte(calls, first, j)
  {
    var early, start, rest := calls[..first], calls[first], calls[first + 1..];
    assert calls == (early + [start]) + rest;
    AfterSplit(Boot(), early + [start], rest);
    AfterOne(Boot(), early, start);
    BeforeFirstStart(early);
    AfterFirstStart(After(Boot(), early + [start]), rest);
  }

  lemma BuiltBytes(calls: seq<Call>, last: nat)
    requires IsLastStart(calls, last)
    ensures var r, p := After(Boot(), calls), Built(calls, last, 0);
            && r.cursor == PACKET_HEADERSIZE + |p.body.data|
            && r.buffer[4] == p.body.id && r.buffer[5] == p.flags
            && r.buffer[PACKET_HEADERSIZE..r.cursor] == p.body.data
  {
    var before, start, rest := calls[..last], calls[last], calls[last + 1..];
    assert calls == (before + [start]) + rest;
    AfterSplit(Boot(), before + [start], rest);
    AfterOne(Boot(), before, start);
    AfterLastStart(After(Boot(), before + [start]), rest);
  }

  /** Every byte of a completed packet: the header fields the completion writes, what was
      built since the last start, and the fixed bytes. */
  lemma CompletedBytes(calls: seq<Call>, first: nat, last: nat, mask: U32)
    requires IsFirstStart(calls, first) && IsLastStart(calls, last)
    ensures var d, p := Datagram(calls + [Complete(mask)]), Built(calls, last, mask);
            && |d| == 18 + |p.body.data|
            && (forall j: nat | IsFixed(j) :: d[j] == HeaderByte(calls, first, j))
            && d[4] == p.body.id && d[5] == p.flags
            && d[12..16] == Codec.Big32(mask) && d[16..18] == Codec.Big16(|p.body.data|)
            && d[18..] == p.body.data
  {
    var w := After(Boot(), calls);
    FixedBytes(calls, first);
    BuiltBytes(calls, last);
    AfterOne(Boot(), calls, Complete(mask));
    CompletedFields(w, mask);
  }

  /** What completing changes: the mask and the size. */
  lemma CompletedFields(w: Image, mask: U32)
    requires Sized(w) && w.cursor >= PACKET_HEADERSIZE
    ensures var d := Applied(w, Complete(mask)).buffer[..w.cursor];
            && |d| == w.cursor
            && (forall j: nat | j < 12 :: d[j] == w.buffer[j])
            && d[12..16] == Codec.Big32(mask) && d[16..18] == Codec.Big16(w.cursor - PACKET_HEADERSIZE)
            && d[PACKET_HEADERSIZE..] == w.buffer[PACKET_HEADERSIZE..w.cursor]
  {
    var m, n := Codec.Big32(mask), Codec.Big16(w.cursor - PACKET_HEADERSIZE);
    PatchedAfter(w.buffer, 12, m + n, 12);
    PatchedOutside(w.buffer, 12, m + n, PACKET_HEADERSIZE, w.cursor);
    TwoFields(Patched(w.buffer, 12, m + n), m, n, w.cursor);
  }

  lemma TwoFields<T>(b: seq<T>, m: seq<T>, n: seq<T>, end: nat)
    requires |m| == 4 && |n| == 2 && 18 <= end <= |b| && b[12..18] == m + n
    ensures b[..end][12..16] == m && b[..end][16..18] == n && b[..end][18..] == b[18..end]
  {
    assert b[..end][12..16] == b[12..18][..4];
    assert b[..end][16..18] == b[12..18][4..];
  }

  /** The client gets the same type, flags, recipients and payload. */
  predicate Recovers(d: Codec.Decoded, p: Packet) {
    d.Parsed? && d.packet.flags == p.flags && d.packet.body == p.body
  }

  /** The console and the client agree, exactly. For every sequence of calls that has a start,
      completed: the client recovers the type, flags, recipients and payload built since the
      last start if and only if the first three header bytes are "NLP" and the fourth is a
      version it knows; and it reads the very packet, numbered 0, if and only if no fixed
      header byte was left with another value. */
  lemma ReadBack(calls: seq<Call>, first: nat, last: nat, mask: U32)
    requires IsFirstStart(calls, first) && IsLastStart(calls, last)
    ensures var d, p := Datagram(calls + [Complete(mask)]), Built(calls, last, mask);
            && Codec.CoversNetLib(d)
            && (Recovers(Codec.DecodeNetLib(d), p) <==>
                  && (forall j: nat | j < 3 :: HeaderByte(calls, first, j) == FixedValue(j))
                  && HeaderByte(calls, first, 3) <= NETLIB_VERSION)
            && (Codec.DecodeNetLib(d) == Codec.Parsed(p) <==>
                  forall j: nat | IsFixed(j) :: HeaderByte(calls, first, j) == FixedValue(j))
  {
    var d, p := Datagram(calls + [Complete(mask)]), Built(calls, last, mask);
    CompletedBytes(calls, first, last, mask);
    DecodeCompleted(d, p);
    assert forall j: nat | IsFixed(j) :: d[j] == HeaderByte(calls, first, j);
  }

  lemma DecodeCompleted(d: seq<byte>, p: Packet)
    requires p.body.NetLib? && |d| == PACKET_HEADERSIZE + |p.body.data|
    requires p.version == NETLIB_VERSION && p.seqnum == p.ack == p.bits == p.attempts == p.serial == 0
    requires d[4] == p.body.id && d[5] == p.flags && d[12..16] == Codec.Big32(p.body.recipients)
    requires d[16..18] == Codec.Big16(|p.body.data|) && d[PACKET_HEADERSIZE..] == p.body.data
    ensures Codec.CoversNetLib(d)
    ensures Recovers(Codec.DecodeNetLib(d), p) <==>
            (forall j: nat | j < 3 :: d[j] == FixedValue(j)) && d[3] <= NETLIB_VERSION
    ensures Codec.DecodeNetLib(d) == Codec.Parsed(p) <==> forall j: nat | IsFixed(j) :: d[j] == FixedValue(j)
  {
    Codec.BigRoundTrip16(|p.body.data|, Codec.Big16(0));
    Codec.BigRoundTrip32(p.body.recipients, Codec.Big32(0));
    assert d[18..18 + |p.body.data|] == d[PACKET_HEADERSIZE..];
    HeaderIsNlp(d);
    ZeroNumber(d, 6);
    ZeroNumber(d, 8);
    ZeroNumber(d, 10);
  }

  lemma HeaderIsNlp(d: seq<byte>)
    requires |d| >= 3
    ensures d[..3] == Codec.NETLIB_HEADER <==> forall j: nat | j < 3 :: d[j] == FixedValue(j)
  {
    assert FixedValue(0) == 0x4E && FixedValue(1) == 0x4C && FixedValue(2) == 0x50;
  }

  lemma ZeroNumber(d: seq<byte>, at: nat)
    requires at + 2 <= |d|
    ensures Codec.FromBig16(d[at..at + 2]) == 0 <==> d[at] == 0 && d[at + 1] == 0
  {
    assert d[at..at + 2][0] == d[at] && d[at..at + 2][1] == d[at + 1];
  }

  // ---- Completed without a start ------------------------------------------

  /** What a client makes of the writes alone. */
  function Unstarted(calls: seq<Call>, mask: U32): Packet
    requires |Fitted(0, calls)| >= PACKET_HEADERSIZE
  {
    var written := Fitted(0, calls);
    Packet(
      EarlyByte(calls, 3),
      EarlyFlags(calls),
      Codec.FromBig16([EarlyByte(calls, 6), EarlyByte(calls, 7)]),
      Codec.FromBig16([EarlyByte(calls, 8), EarlyByte(calls, 9)]),
      Codec.FromBig16([EarlyByte(calls, 10), EarlyByte(calls, 11)]),
      NetLib(written[4], mask, written[PACKET_HEADERSIZE..]), 0, 0)
  }

  /** A packet completed without any start is read as one exactly when at least a header's
      worth was written and the name and version are in place: its type is the fifth byte
      written, its payload what was written behind the header, and its numbers come from
      whatever lies in their fields. */
  lemma NeverStarted(calls: seq<Call>, mask: U32)
    requires NoStart(calls)
    ensures var d, written := Datagram(calls + [Complete(mask)]), Fitted(0, calls);
            && |d| == |written|
            && (|written| < PACKET_HEADERSIZE && Codec.CoversNetLib(d) ==> !Codec.DecodeNetLib(d).Parsed?)
            && (|written| >= PACKET_HEADERSIZE ==>
                  && Codec.CoversNetLib(d)
                  && Codec.DecodeNetLib(d) ==
                     if exists j: nat :: j < 3 && EarlyByte(calls, j) != FixedValue(j) then Codec.NotThisProtocol
                     else if EarlyByte(calls, 3) > NETLIB_VERSION then Codec.BadVersion(EarlyByte(calls, 3))
                     else Codec.Parsed(Unstarted(calls, mask)))
  {
    hide EarlyByte, EarlyFlags, EarlyContent, Fitted;
    var w := After(Boot(), calls);
    BeforeFirstStart(calls);
    AfterOne(Boot(), calls, Complete(mask));
    if w.cursor >= PACKET_HEADERSIZE {
      var d := Datagram(calls + [Complete(mask)]);
      CompletedFields(w, mask);
      EarlyPayload(w, calls);
      assert d[4] == w.buffer[4] && d[5] == w.buffer[5];
      assert forall j: nat | IsFixed(j) :: d[j] == EarlyByte(calls, j);
      DecodeUnstarted(calls, mask, d);
    }
  }

  lemma EarlyPayload(w: Image, calls: seq<Call>)
    requires Sized(w) && PACKET_HEADERSIZE <= w.cursor == |Fitted(0, calls)|
    requires forall j: nat | IsContent(j) :: w.buffer[j] == EarlyContent(calls, j)
    ensures w.buffer[PACKET_HEADERSIZE..w.cursor] == Fitted(0, calls)[PACKET_HEADERSIZE..]
    ensures w.buffer[4] == Fitted(0, calls)[4]
  {
    hide Fitted;
  }

  lemma DecodeUnstarted(calls: seq<Call>, mask: U32, d: seq<byte>)
    requires |Fitted(0, calls)| == |d| >= PACKET_HEADERSIZE
    requires forall j: nat | IsFixed(j) :: d[j] == EarlyByte(calls, j)
    requires d[4] == Fitted(0, calls)[4] && d[5] == EarlyFlags(calls)
    requires d[12..16] == Codec.Big32(mask) && d[16..18] == Codec.Big16(|d| - PACKET_HEADERSIZE)
    requires d[PACKET_HEADERSIZE..] == Fitted(0, calls)[PACKET_HEADERSIZE..]
    ensures Codec.CoversNetLib(d)
    ensures Codec.DecodeNetLib(d) ==
            if exists j: nat :: j < 3 && EarlyByte(calls, j) != FixedValue(j) then Codec.NotThisProtocol
            else if EarlyByte(calls, 3) > NETLIB_VERSION then Codec.BadVersion(EarlyByte(calls, 3))
            else Codec.Parsed(Unstarted(calls, mask))
  {
    hide EarlyByte, EarlyFlags, Fitted;
    Codec.BigRoundTrip16(|d| - PACKET_HEADERSIZE, Codec.Big16(0));
    Codec.BigRoundTrip32(mask, Codec.Big32(0));
    HeaderIsNlp(d);
    assert d[..3] == Codec.NETLIB_HEADER <==> forall j: nat | j < 3 :: EarlyByte(calls, j) == FixedValue(j);
    assert d[6..8] == [EarlyByte(calls, 6), EarlyByte(calls, 7)];
    assert d[8..10] == [EarlyByte(calls, 8), EarlyByte(calls, 9)];
    assert d[10..12] == [EarlyByte(calls, 10), EarlyByte(calls, 11)];
    assert d[18..18 + (|d| - PACKET_HEADERSIZE)] == d[PACKET_HEADERSIZE..];
  }

  // ---- The library used as it is meant to be, and not ---------------------

  /** A library initialized with nothing written between then and the first start always
      sends what was built. */
  lemma InitializedAgrees(calls: seq<Call>, k: nat, first: nat, last: nat, mask: U32)
    requires IsFirstStart(calls, first) && IsLastStart(calls, last)
    requires k < first && calls[k].Initialize? && forall i | k < i < first :: !calls[i].Write?
    ensures var d := Datagram(calls + [Complete(mask)]);
            Codec.CoversNetLib(d) && Codec.DecodeNetLib(d) == Codec.Parsed(Built(calls, last, mask))
  {
    ReadBack(calls, first, last, mask);
    NothingWrittenSince(calls[..first], k);
  }

  lemma {:induction false} NothingWrittenSince(early: seq<Call>, k: nat)
    requires k < |early| && early[k].Initialize? && forall i | k < i < |early| :: !early[i].Write?
    ensures LastInitialized(early) == At(|Fitted(0, early)|)
  {
    var n := |early| - 1;
    if k < n {
      NothingWrittenSince(early[..n], k);
    }
  }

  /** One byte written before the first start spoils every packet sent after it, until the
      library is initialized again. */
  lemma EarlyWriteSpoilsHeader(calls: seq<Call>)
    requires calls == [Initialize, Write([0]), StartPacket(5)]
    ensures var d := Datagram(calls + [Complete(0)]);
            Codec.CoversNetLib(d) && Codec.DecodeNetLib(d) == Codec.NotThisProtocol
  {
    var early := calls[..2];
    assert early == [Initialize, Write([0])] && early[..1] == [Initialize] && early[..1][..0] == [];
    assert early[|early| - 1] == Write([0]) && early[..|early| - 1] == [Initialize];
    assert Fitted(0, [Initialize]) == [] && Fitted(0, early) == [] + [0];
    assert LastInitialized(early) == LastInitialized(early[..1]) == At(0);
    assert calls[3..] == [];
    assert IsFirstStart(calls, 2) && IsLastStart(calls, 2);
    ReadBack(calls, 2, 2, 0);
    CompletedBytes(calls, 2, 2, 0);
    assert HeaderByte(calls, 2, 0) == 0;
  }
}
