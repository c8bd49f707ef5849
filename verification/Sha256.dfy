/** The streaming implementation: a 64-byte buffer, a bit counter and the hash so far. */
module Sha256 {
  import opened Sha256Spec

  const TWO64 := 0x1_0000_0000_0000_0000

  // ---- The macros, with ROTRIGHT(x, n) written out as (x >> n) | (x << (32 - n)) ----

  function Ep0(x: bv32): bv32 {
    ((x >> 2) | (x << 30)) ^ ((x >> 13) | (x << 19)) ^ ((x >> 22) | (x << 10))
  }

  function Ep1(x: bv32): bv32 {
    ((x >> 6) | (x << 26)) ^ ((x >> 11) | (x << 21)) ^ ((x >> 25) | (x << 7))
  }

  function Sig0(x: bv32): bv32 {
    ((x >> 7) | (x << 25)) ^ ((x >> 18) | (x << 14)) ^ (x >> 3)
  }

  function Sig1(x: bv32): bv32 {
    ((x >> 17) | (x << 15)) ^ ((x >> 19) | (x << 13)) ^ (x >> 10)
  }

  /** Shifting both ways and joining is rotation, so the macros are the standard's functions. */
  lemma MacrosAreSigmas(x: bv32)
    ensures Ep0(x) == BigSigma0(x) && Ep1(x) == BigSigma1(x)
    ensures Sig0(x) == SmallSigma0(x) && Sig1(x) == SmallSigma1(x)
  {
  }

  class Context {
    const data: array<bv8>
    var datalen: nat
    var bitlen: nat
    const state: array<bv32>
    /** Everything hashed so far. */
    ghost var message: Message

    ghost function Value(): Hash
      reads state
      requires state.Length == 8
    {
      Hash(state[0], state[1], state[2], state[3], state[4], state[5], state[6], state[7])
    }

    /** `sha256_transform`: the schedule in an array, the working variables rolled in place. */
    method Transform()
      requires data.Length == 64 && state.Length == 8
      modifies state
      ensures Value() == Compress(old(Value()), data[..])
    {
      var m := Schedule();
      var a, b, c, d, e, f, g, h := Roll(m, data[..]);
      AddToState(Hash(a, b, c, d, e, f, g, h));
    }

    method AddToState(r: Hash)
      requires state.Length == 8
      modifies state
      ensures Value() == Add(old(Value()), r)
    {
      state[0] := Plus(state[0], r.a);
      state[1] := Plus(state[1], r.b);
      state[2] := Plus(state[2], r.c);
      state[3] := Plus(state[3], r.d);
      state[4] := Plus(state[4], r.e);
      state[5] := Plus(state[5], r.f);
      state[6] := Plus(state[6], r.g);
      state[7] := Plus(state[7], r.h);
    }

    method Roll(m: array<bv32>, ghost block: Block)
      returns (a: bv32, b: bv32, c: bv32, d: bv32, e: bv32, f: bv32, g: bv32, h: bv32)
      requires state.Length == 8 && m.Length == 64
      requires forall t | 0 <= t < 64 :: m[t] == W(block, t)
      ensures Hash(a, b, c, d, e, f, g, h) == Rounds(Value(), block, |K|)
    {
      a, b, c, d := state[0], state[1], state[2], state[3];
      e, f, g, h := state[4], state[5], state[6], state[7];
      for i := 0 to 64
        invariant Hash(a, b, c, d, e, f, g, h) == Rounds(Value(), block, i)
      {
        MacrosAreSigmas(e);
        MacrosAreSigmas(a);
        var t1 := Plus(Plus(Plus(Plus(h, Ep1(e)), Ch(e, f, g)), K[i]), m[i]);
        var t2 := Plus(Ep0(a), Maj(a, b, c));
        h := g;
        g := f;
        f := e;
        e := Plus(d, t1);
        d := c;
        c := b;
        b := a;
        a := Plus(t1, t2);
      }
    }

    method Schedule() returns (m: array<bv32>)
      requires data.Length == 64
      ensures fresh(m) && m.Length == 64
      ensures forall t | 0 <= t < 64 :: m[t] == W(data[..], t)
    {
      ghost var block: Block := data[..];
      m := new bv32[64];
      var j := 0;
      for i := 0 to 16
        invariant j == 4 * i
        invariant forall t | 0 <= t < i :: m[t] == W(block, t)
      {
        m[i] :=
          (data[j] as bv32 << 24) | (data[j + 1] as bv32 << 16) | (data[j + 2] as bv32 << 8) | data[j + 3] as bv32;
        j := j + 4;
      }
      for i := 16 to 64
        invariant forall t | 0 <= t < i :: m[t] == W(block, t)
      {
        MacrosAreSigmas(m[i - 2]);
        MacrosAreSigmas(m[i - 15]);
        m[i] := Plus(Plus(Plus(Sig1(m[i - 2]), m[i - 7]), Sig0(m[i - 15])), m[i - 16]);
      }
    }

    // ---- Streaming --------------------------------------------------------

    /** The complete blocks of a message are compressed into the state and counted in bits. */
    ghost predicate Hashed(m: Message)
      reads this`bitlen, state
    {
      && state.Length == 8
      && Value() == Blocks(m, |m| / 64)
      && bitlen == 512 * (|m| / 64) % TWO64
    }

    /** So is the message, and the rest of it waits in the buffer. */
    ghost predicate Valid()
      reads this, data, state
    {
      && data.Length == 64
      && datalen == |message| % 64
      && data[..datalen] == message[|message| - datalen..]
      && Hashed(message)
    }

    constructor ()
      ensures data.Length == 64 && state.Length == 8 && fresh(data) && fresh(state)
    {
      data := new bv8[64];
      state := new bv32[8];
    }

    /** `sha256_init`. */
    method Init()
      requires data.Length == 64 && state.Length == 8
      modifies this`datalen, this`bitlen, this`message, state
      ensures Valid() && message == []
    {
      datalen, bitlen, message := 0, 0, [];
      SetInitial();
      NoBlocks();
    }

    method SetInitial()
      requires state.Length == 8
      modifies state
      ensures Value() == INITIAL
    {
      state[0] := 0x6a09e667;
      state[1] := 0xbb67ae85;
      state[2] := 0x3c6ef372;
      state[3] := 0xa54ff53a;
      state[4] := 0x510e527f;
      state[5] := 0x9b05688c;
      state[6] := 0x1f83d9ab;
      state[7] := 0x5be0cd19;
    }

    /** `sha256_update`, for inputs its 32-bit index can count. However a message is split,
        the context after it is the same. */
    method Update(bytes: Message)
      requires Valid() && |bytes| < 0x1_0000_0000
      modifies this`datalen, this`bitlen, this`message, data, state
      ensures Valid() && message == old(message) + bytes
    {
      hide Context.Valid;
      for i := 0 to |bytes|
        invariant Valid() && message == old(message) + bytes[..i]
      {
        UpdateByte(bytes[i]);
        assert bytes[..i + 1] == bytes[..i] + [bytes[i]];
      }
      assert bytes[..|bytes|] == bytes;
    }

    /** The body of `sha256_update`'s loop. */
    method UpdateByte(byte: bv8)
      requires Valid()
      modifies this`datalen, this`bitlen, this`message, data, state
      ensures Valid() && message == old(message) + [byte]
    {
      ghost var before := message;
      Append(byte);
      if datalen == 64 {
        CompressFull(before);
      } else {
        StaysValid(before);
      }
    }

    /** Stores the byte as the end of the message. */
    method Append(byte: bv8)
      requires data.Length == 64 && datalen == |message| % 64
      requires data[..datalen] == message[|message| - datalen..]
      modifies this`datalen, this`message, data
      ensures message == old(message) + [byte] && message[..|old(message)|] == old(message)
      ensures 0 < datalen <= 64 && |message| % 64 == datalen % 64
      ensures data[..datalen] == message[|message| - datalen..]
    {
      TailGrows(message, datalen, byte);
      NextLength(|message|);
      Store(byte);
      message := message + [byte];
    }

    /** The buffer is full: it is compressed and emptied. */
    method CompressFull(ghost before: Message)
      requires data.Length == 64 == datalen && Hashed(before)
      requires |message| == |before| + 1 && message[..|before|] == before && |message| % 64 == 0
      requires data[..datalen] == message[|message| - 64..]
      modifies this`bitlen, this`datalen, state
      ensures Valid()
    {
      assert data[..datalen] == data[..];
      CompressBlock(before, message);
      datalen := 0;
    }

    /** The buffer is not full: nothing is compressed. */
    lemma StaysValid(before: Message)
      requires data.Length == 64 && datalen < 64 && Hashed(before)
      requires |message| == |before| + 1 && message[..|before|] == before && |message| % 64 == datalen != 0
      requires data[..datalen] == message[|message| - datalen..]
      ensures Valid()
    {
      BlockOpen(Compress, INITIAL, before, message);
    }

    method Store(byte: bv8)
      requires data.Length == 64 && datalen < 64
      modifies this`datalen, data
      ensures datalen == old(datalen) + 1 && data[..datalen] == old(data[..datalen]) + [byte]
    {
      data[datalen] := byte;
      datalen := datalen + 1;
    }

    /** The buffer holds the block that completes `after`. */
    method CompressBlock(ghost before: Message, ghost after: Message)
      requires data.Length == 64 && Hashed(before)
      requires |after| == |before| + 1 && after[..|before|] == before && |after| % 64 == 0
      requires data[..] == after[|after| - 64..]
      modifies this`bitlen, state
      ensures Hashed(after)
    {
      NextCount(|before| / 64);
      bitlen := (bitlen + 512) % TWO64;
      TransformBlock(before, after);
    }

    method TransformBlock(ghost before: Message, ghost after: Message)
      requires data.Length == 64 && state.Length == 8 && Value() == Blocks(before, |before| / 64)
      requires |after| == |before| + 1 && after[..|before|] == before && |after| % 64 == 0
      requires data[..] == after[|after| - 64..]
      modifies state
      ensures |after| / 64 == |before| / 64 + 1 && Value() == Blocks(after, |after| / 64)
    {
      ghost var h := Value();
      Transform();
      BlockHashed(before, after, data[..], h, Value());
    }

    // ---- Finishing --------------------------------------------------------

    /** The marker byte, and zeros up to `end`. */
    method PadTo(end: nat)
      requires data.Length == 64 && datalen < end <= 64
      modifies data
      ensures data[..end] == old(data[..datalen]) + [0x80] + Zeros(end - datalen - 1)
    {
      var i := datalen;
      data[i] := 0x80;
      i := i + 1;
      while i < end
        invariant datalen < i <= end
        invariant data[..i] == old(data[..datalen]) + [0x80] + Zeros(i - datalen - 1)
      {
        data[i] := 0;
        i := i + 1;
        assert data[..i] == data[..i - 1] + [0];
      }
    }

    method ClearFirst56()
      requires data.Length == 64
      modifies data
      ensures data[..56] == Zeros(56)
    {
      for i := 0 to 56
        invariant forall k | 0 <= k < i :: data[k] == 0
      {
        data[i] := 0;
      }
    }

    method WriteLength()
      requires data.Length == 64
      modifies data
      ensures data[..] == old(data[..56]) + LengthField(bitlen)
    {
      LengthBytes(bitlen);
      StoreLast8(data, [
        Low8(bitlen / 0x100_0000_0000_0000), Low8(bitlen / 0x1_0000_0000_0000),
        Low8(bitlen / 0x100_0000_0000), Low8(bitlen / 0x1_0000_0000),
        Low8(bitlen / 0x100_0000), Low8(bitlen / 0x1_0000), Low8(bitlen / 0x100), Low8(bitlen)]);
    }

    /** Pads the data left in the buffer, compressing it if the length field no longer fits. */
    method PadTail() returns (ghost first: Block)
      requires data.Length == 64 && state.Length == 8 && datalen < 64
      modifies data, state
      ensures Value() == if datalen < 56 then old(Value()) else Compress(old(Value()), first)
      ensures if datalen < 56 then data[..56] == old(data[..datalen]) + [0x80] + Zeros(55 - datalen)
              else first == old(data[..datalen]) + [0x80] + Zeros(63 - datalen) && data[..56] == Zeros(56)
    {
      first := Zeros(64);
      if datalen < 56 {
        PadTo(56);
      } else {
        PadTo(64);
        assert data[..] == data[..64];
        first := data[..];
        Transform();
        ClearFirst56();
      }
    }

    /** Completes the last block with the total length and compresses it. */
    method CompressLast(ghost first: Block, ghost h: Hash)
      requires data.Length == 64 && state.Length == 8 && datalen == |message| % 64
      requires 8 * |message| == (bitlen + datalen * 8) % TWO64
      requires h == Blocks(message, |message| / 64)
      requires Value() == if datalen < 56 then h else Compress(h, first)
      requires PadsTail(message, first, data[..56])
      modifies this`bitlen, data, state
      ensures Value() == Blocks(Padded(message), |Padded(message)| / 64)
    {
      bitlen := (bitlen + datalen * 8) % TWO64;
      ghost var part := data[..56];
      WriteLength();
      LengthCloses(message, first, part, data[..]);
      TransformLast(first, h);
    }

    method TransformLast(ghost first: Block, ghost h: Hash)
      requires data.Length == 64 && state.Length == 8
      requires h == Blocks(message, |message| / 64)
      requires Value() == if |message| % 64 < 56 then h else Compress(h, first)
      requires Closes(message, first, data[..])
      modifies state
      ensures Value() == Blocks(Padded(message), |Padded(message)| / 64)
    {
      ghost var h' := Value();
      Transform();
      FinishHash(message, first, data[..], h, h', Value());
    }

    /** `sha256_final`: for every message shorter than 2^61 bytes, the digest of all of it. */
    method Final(hash: array<bv8>)
      requires Valid() && |message| < 0x2000_0000_0000_0000
      requires hash.Length == 32 && hash != data
      modifies this`bitlen, data, state, hash
      ensures hash[..] == Digest(message)
    {
      hide Compress, Padded, Blocks;
      BitCount(|message|);
      ghost var h := Value();
      ghost var first := PadTail();
      CompressLast(first, h);
      WriteHash(hash);
    }

    method WriteHash(hash: array<bv8>)
      requires state.Length == 8 && hash.Length == 32
      modifies hash
      ensures hash[..] == HashBytes(Value())
    {
      ghost var goal := Serialized(state[..]);
      for i := 0 to 4
        invariant forall j | 0 <= j < 32 && j % 4 < i :: hash[j] == goal[j]
      {
        WriteColumn(hash, i, goal);
      }
      assert state[..] == [state[0], state[1], state[2], state[3], state[4], state[5], state[6], state[7]];
    }

    /** Byte `i` of each of the eight words. */
    method WriteColumn(hash: array<bv8>, i: nat, ghost goal: Message)
      requires state.Length == 8 && hash.Length == 32 && i < 4 && goal == Serialized(state[..])
      modifies hash
      ensures forall j | 0 <= j < 32 :: hash[j] == if j % 4 == i then goal[j] else old(hash[j])
    {
      var column := Column(i, goal);
      StoreColumn(hash, i, column);
    }

    method Column(i: nat, ghost goal: Message) returns (column: seq<bv8>)
      requires state.Length == 8 && i < 4 && goal == Serialized(state[..])
      ensures |column| == 8 && forall k | 0 <= k < 8 :: column[k] == goal[4 * k + i]
    {
      column := [
        ByteAt(state[0], i), ByteAt(state[1], i), ByteAt(state[2], i), ByteAt(state[3], i),
        ByteAt(state[4], i), ByteAt(state[5], i), ByteAt(state[6], i), ByteAt(state[7], i)];
      forall k | 0 <= k < 8 ensures column[k] == goal[4 * k + i] {
        SerializedAt(state[..], k, i);
      }
    }
  }

  /** The end of a message, extended with it. */
  lemma TailGrows<T>(m: seq<T>, n: nat, x: T)
    requires n <= |m|
    ensures m[|m| - n..] + [x] == (m + [x])[|m + [x]| - (n + 1)..]
    ensures (m + [x])[..|m|] == m
  {
  }

  method StoreColumn<T>(hash: array<T>, i: nat, column: seq<T>)
    requires hash.Length == 32 && i < 4 && |column| == 8
    modifies hash
    ensures forall j | 0 <= j < 32 :: hash[j] == if j % 4 == i then column[j / 4] else old(hash[j])
  {
    hash[i] := column[0];
    hash[i + 4] := column[1];
    hash[i + 8] := column[2];
    hash[i + 12] := column[3];
    hash[i + 16] := column[4];
    hash[i + 20] := column[5];
    hash[i + 24] := column[6];
    hash[i + 28] := column[7];
  }

  method StoreLast8<T>(data: array<T>, bytes: seq<T>)
    requires data.Length == 64 && |bytes| == 8
    modifies data
    ensures data[..] == old(data[..56]) + bytes
  {
    data[63] := bytes[7];
    data[62] := bytes[6];
    data[61] := bytes[5];
    data[60] := bytes[4];
    data[59] := bytes[3];
    data[58] := bytes[2];
    data[57] := bytes[1];
    data[56] := bytes[0];
  }

  lemma NextLength(n: nat)
    ensures if n % 64 + 1 == 64 then (n + 1) % 64 == 0 else (n + 1) % 64 == n % 64 + 1
  {
  }

  lemma NextCount(blocks: nat)
    ensures (512 * blocks % TWO64 + 512) % TWO64 == 512 * (blocks + 1) % TWO64
  {
  }

  /** Below 2^61 bytes the bit counter does not wrap. */
  lemma BitCount(length: nat)
    requires length < 0x2000_0000_0000_0000
    ensures (512 * (length / 64) % TWO64 + length % 64 * 8) % TWO64 == 8 * length
  {
  }

  /** The message has just reached the end of a block. */
  lemma BlockFilled<H>(f: (H, Block) -> H, start: H, before: Message, after: Message, block: Block, h: H, h': H)
    requires |after| == |before| + 1 && after[..|before|] == before && |after| % 64 == 0
    requires block == after[|after| - 64..]
    requires h == Chain(f, start, before, |before| / 64) && h' == f(h, block)
    ensures |after| / 64 == |before| / 64 + 1
    ensures h' == Chain(f, start, after, |after| / 64)
  {
    var n := |before| / 64;
    assert after[64 * n..64 * (n + 1)] == block;
    assert after[..64 * n] == before[..64 * n];
    ChainAppend(f, start, before, after, n, block);
  }

  lemma BlockHashed(before: Message, after: Message, block: Block, h: Hash, h': Hash)
    requires |after| == |before| + 1 && after[..|before|] == before && |after| % 64 == 0
    requires block == after[|after| - 64..]
    requires h == Blocks(before, |before| / 64) && h' == Compress(h, block)
    ensures |after| / 64 == |before| / 64 + 1
    ensures h' == Blocks(after, |after| / 64)
  {
    BlockFilled(Compress, INITIAL, before, after, block, h, h');
  }

  lemma BlockOpen<H>(f: (H, Block) -> H, start: H, before: Message, after: Message)
    requires |after| == |before| + 1 && after[..|before|] == before && |after| % 64 != 0
    ensures |after| / 64 == |before| / 64
    ensures Chain(f, start, after, |after| / 64) == Chain(f, start, before, |before| / 64)
  {
    var n := |before| / 64;
    assert after[..64 * n] == before[..64 * n];
    ChainOfPrefix(f, start, before, after, n);
  }
}
