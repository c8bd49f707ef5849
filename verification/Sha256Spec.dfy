/** SHA-256 as FIPS 180-4 defines it, on whole messages of bytes. */
module Sha256Spec {

  type Message = seq<bv8>
  type Block = b: Message | |b| == 64 witness seq(64, _ => 0)

  /** The eight working variables, and the hash value. */
  datatype Hash = Hash(a: bv32, b: bv32, c: bv32, d: bv32, e: bv32, f: bv32, g: bv32, h: bv32)

  // ---- Section 4.1.2: functions -------------------------------------------

  /** Addition modulo 2^32. */
  function Plus(x: bv32, y: bv32): bv32 {
    x + y
  }

  function Ch(x: bv32, y: bv32, z: bv32): bv32 {
    (x & y) ^ (!x & z)
  }

  function Maj(x: bv32, y: bv32, z: bv32): bv32 {
    (x & y) ^ (x & z) ^ (y & z)
  }

  function BigSigma0(x: bv32): bv32 {
    x.RotateRight(2) ^ x.RotateRight(13) ^ x.RotateRight(22)
  }

  function BigSigma1(x: bv32): bv32 {
    x.RotateRight(6) ^ x.RotateRight(11) ^ x.RotateRight(25)
  }

  function SmallSigma0(x: bv32): bv32 {
    x.RotateRight(7) ^ x.RotateRight(18) ^ (x >> 3)
  }

  function SmallSigma1(x: bv32): bv32 {
    x.RotateRight(17) ^ x.RotateRight(19) ^ (x >> 10)
  }

  // ---- Section 4.2.2: constants -------------------------------------------

  const K_0: seq<bv32> :=
    [0x428a2f98, 0x71374491, 0xb5c0fbcf, 0xe9b5dba5, 0x3956c25b, 0x59f111f1, 0x923f82a4, 0xab1c5ed5]
  const K_1: seq<bv32> :=
    [0xd807aa98, 0x12835b01, 0x243185be, 0x550c7dc3, 0x72be5d74, 0x80deb1fe, 0x9bdc06a7, 0xc19bf174]
  const K_2: seq<bv32> :=
    [0xe49b69c1, 0xefbe4786, 0x0fc19dc6, 0x240ca1cc, 0x2de92c6f, 0x4a7484aa, 0x5cb0a9dc, 0x76f988da]
  const K_3: seq<bv32> :=
    [0x983e5152, 0xa831c66d, 0xb00327c8, 0xbf597fc7, 0xc6e00bf3, 0xd5a79147, 0x06ca6351, 0x14292967]
  const K_4: seq<bv32> :=
    [0x27b70a85, 0x2e1b2138, 0x4d2c6dfc, 0x53380d13, 0x650a7354, 0x766a0abb, 0x81c2c92e, 0x92722c85]
  const K_5: seq<bv32> :=
    [0xa2bfe8a1, 0xa81a664b, 0xc24b8b70, 0xc76c51a3, 0xd192e819, 0xd6990624, 0xf40e3585, 0x106aa070]
  const K_6: seq<bv32> :=
    [0x19a4c116, 0x1e376c08, 0x2748774c, 0x34b0bcb5, 0x391c0cb3, 0x4ed8aa4a, 0x5b9cca4f, 0x682e6ff3]
  const K_7: seq<bv32> :=
    [0x748f82ee, 0x78a5636f, 0x84c87814, 0x8cc70208, 0x90befffa, 0xa4506ceb, 0xbef9a3f7, 0xc67178f2]

  const K: seq<bv32> := K_0 + K_1 + K_2 + K_3 + K_4 + K_5 + K_6 + K_7

  // ---- Section 5.1.1: padding ---------------------------------------------

  /** The least number of zero bytes that brings the length field to the end of a block. */
  function ZeroBytes(length: nat): (z: nat)
    ensures z < 64 && (length + z + 9) % 64 == 0
  {
    (55 - length) % 64
  }

  function Low8(n: nat): bv8 {
    (n % 0x100) as bv8
  }

  /** A number in `width` bytes, most significant first. */
  function BigEndian(n: nat, width: nat): (r: Message)
    ensures |r| == width
    decreases width
  {
    if width == 0 then [] else BigEndian(n / 0x100, width - 1) + [Low8(n)]
  }

  const LENGTH_BYTES: nat := 8

  /** The 64-bit number of bits. */
  function LengthField(bits: nat): Message {
    BigEndian(bits, LENGTH_BYTES)
  }

  function Zeros(n: nat): (z: Message)
    ensures |z| == n
  {
    seq(n, _ => 0)
  }

  function Padded(m: Message): (p: Message)
    ensures |p| % 64 == 0 && |p| >= |m| + 9
  {
    m + [0x80] + Zeros(ZeroBytes(|m|)) + LengthField(8 * |m|)
  }

  // ---- Section 6.2.2: computation -----------------------------------------

  function Word(b: Block, t: nat): bv32
    requires t < 16
  {
    (b[4 * t] as bv32 << 24) | (b[4 * t + 1] as bv32 << 16) | (b[4 * t + 2] as bv32 << 8) | b[4 * t + 3] as bv32
  }

  function W(b: Block, t: nat): bv32 {
    if t < 16 then Word(b, t)
    else Plus(Plus(Plus(SmallSigma1(W(b, t - 2)), W(b, t - 7)), SmallSigma0(W(b, t - 15))), W(b, t - 16))
  }

  function Round(s: Hash, k: bv32, w: bv32): Hash {
    var t1 := Plus(Plus(Plus(Plus(s.h, BigSigma1(s.e)), Ch(s.e, s.f, s.g)), k), w);
    var t2 := Plus(BigSigma0(s.a), Maj(s.a, s.b, s.c));
    Hash(Plus(t1, t2), s.a, s.b, s.c, Plus(s.d, t1), s.e, s.f, s.g)
  }

  function Rounds(s: Hash, b: Block, t: nat): Hash
    requires t <= |K|
  {
    if t == 0 then s else Round(Rounds(s, b, t - 1), K[t - 1], W(b, t - 1))
  }

  function Add(s: Hash, r: Hash): Hash {
    Hash(Plus(s.a, r.a), Plus(s.b, r.b), Plus(s.c, r.c), Plus(s.d, r.d),
         Plus(s.e, r.e), Plus(s.f, r.f), Plus(s.g, r.g), Plus(s.h, r.h))
  }

  function Compress(s: Hash, b: Block): Hash {
    Add(s, Rounds(s, b, |K|))
  }

  /** Section 5.3.3. */
  const INITIAL := Hash(
    0x6a09e667, 0xbb67ae85, 0x3c6ef372, 0xa54ff53a, 0x510e527f, 0x9b05688c, 0x1f83d9ab, 0x5be0cd19)

  /** A compression function applied to the first `n` blocks in turn. */
  function Chain<H>(f: (H, Block) -> H, start: H, m: Message, n: nat): H
    requires 64 * n <= |m|
  {
    if n == 0 then start else f(Chain(f, start, m, n - 1), m[64 * (n - 1)..64 * n])
  }

  /** The hash value after the first `n` blocks. */
  function Blocks(m: Message, n: nat): Hash
    requires 64 * n <= |m|
  {
    Chain(Compress, INITIAL, m, n)
  }

  /** The `i`-th byte of a word, most significant first: `(w >> (24 - 8 * i)) & 0xff`. */
  function ByteAt(w: bv32, i: nat): bv8
    requires i < 4
    decreases 3 - i
  {
    if i == 3 then (w & 0xff) as bv8 else ByteAt(w >> 8, i + 1)
  }

  function WordBytes(w: bv32): (r: Message)
    ensures |r| == 4
  {
    [ByteAt(w, 0), ByteAt(w, 1), ByteAt(w, 2), ByteAt(w, 3)]
  }

  /** Words, most significant byte first. */
  function Serialized(words: seq<bv32>): (r: Message)
    ensures |r| == 4 * |words|
  {
    if words == [] then [] else Serialized(words[..|words| - 1]) + WordBytes(words[|words| - 1])
  }

  function HashBytes(s: Hash): (r: Message)
    ensures |r| == 32
  {
    Serialized([s.a, s.b, s.c, s.d, s.e, s.f, s.g, s.h])
  }

  function Digest(m: Message): (r: Message)
    ensures |r| == 32
  {
    var p := Padded(m);
    HashBytes(Blocks(p, |p| / 64))
  }

  // ---- Facts --------------------------------------------------------------

  /** Padding ends a block with the length field, and no shorter run of zeros does. */
  lemma ZeroBytesIsLeast(length: nat, z: nat)
    requires (length + 1 + z + 8) % 64 == 0
    ensures (length + 1 + ZeroBytes(length) + 8) % 64 == 0
    ensures ZeroBytes(length) <= z
  {
  }

  /** The value after `n` blocks depends on those blocks only. */
  lemma {:induction false} ChainOfPrefix<H>(f: (H, Block) -> H, start: H, m: Message, m': Message, n: nat)
    requires 64 * n <= |m| && 64 * n <= |m'| && m[..64 * n] == m'[..64 * n]
    ensures Chain(f, start, m, n) == Chain(f, start, m', n)
  {
    if n > 0 {
      var k := 64 * (n - 1);
      assert m[..k] == m[..64 * n][..k] && m'[..k] == m'[..64 * n][..k];
      assert m[k..64 * n] == m[..64 * n][k..] && m'[k..64 * n] == m'[..64 * n][k..];
      ChainOfPrefix(f, start, m, m', n - 1);
    }
  }

  /** A further block is compressed into the value so far. */
  lemma ChainAppend<H>(f: (H, Block) -> H, start: H, before: Message, after: Message, n: nat, b: Block)
    requires 64 * n <= |before| && 64 * (n + 1) <= |after|
    requires after[..64 * n] == before[..64 * n] && after[64 * n..64 * (n + 1)] == b
    ensures Chain(f, start, after, n + 1) == f(Chain(f, start, before, n), b)
  {
    ChainOfPrefix(f, start, before, after, n);
  }

  /** The complete blocks of a message, and what is left of it. */
  function Whole(m: Message): (w: Message)
    ensures |w| == 64 * (|m| / 64)
  {
    m[..64 * (|m| / 64)]
  }

  function Tail(m: Message): (t: Message)
    ensures |t| == |m| % 64
    ensures m == Whole(m) + t
  {
    m[64 * (|m| / 64)..]
  }

  /** The value after one or two more blocks than a message completes. */
  lemma ChainOneMore<H>(f: (H, Block) -> H, start: H, m: Message, p: Message, n: nat, last: Block)
    requires 64 * n <= |m| && p == m[..64 * n] + last
    ensures Chain(f, start, p, n + 1) == f(Chain(f, start, m, n), last)
  {
    ChainAppend(f, start, m, p, n, last);
  }

  lemma ChainTwoMore<H>(f: (H, Block) -> H, start: H, m: Message, p: Message, n: nat, first: Block, last: Block)
    requires 64 * n <= |m| && p == m[..64 * n] + first + last
    ensures Chain(f, start, p, n + 2) == f(f(Chain(f, start, m, n), first), last)
  {
    var q := m[..64 * n] + first;
    ChainOneMore(f, start, m, q, n, first);
    assert q[..64 * (n + 1)] == q;
    ChainOneMore(f, start, q, p, n + 1, last);
  }

  /** What the last block, or the last two, of the padded message hold. */
  ghost predicate Closes(m: Message, first: Block, last: Block) {
    var t := Tail(m);
    if |t| < 56 then last == t + [0x80] + Zeros(55 - |t|) + LengthField(8 * |m|)
    else first == t + [0x80] + Zeros(63 - |t|) && last == Zeros(56) + LengthField(8 * |m|)
  }

  /** The last block up to its length field, the block before it being `first` if there are two. */
  ghost predicate PadsTail(m: Message, first: Block, part: Message) {
    var t := Tail(m);
    if |t| < 56 then part == t + [0x80] + Zeros(55 - |t|)
    else first == t + [0x80] + Zeros(63 - |t|) && part == Zeros(56)
  }

  lemma LengthCloses(m: Message, first: Block, part: Message, last: Block)
    requires PadsTail(m, first, part) && last == part + LengthField(8 * |m|)
    ensures Closes(m, first, last)
  {
  }

  lemma RegroupOne<T>(w: seq<T>, t: seq<T>, mark: seq<T>, z: seq<T>, length: seq<T>)
    ensures (w + t) + mark + z + length == w + (t + mark + z + length)
  {
  }

  lemma RegroupTwo<T>(w: seq<T>, t: seq<T>, mark: seq<T>, z: seq<T>, z': seq<T>, length: seq<T>)
    ensures (w + t) + mark + (z + z') + length == w + (t + mark + z) + (z' + length)
  {
  }

  lemma PaddedInOne(m: Message)
    requires |m| % 64 < 56
    ensures Padded(m) == Whole(m) + (Tail(m) + [0x80] + Zeros(55 - |m| % 64) + LengthField(8 * |m|))
  {
    assert ZeroBytes(|m|) == 55 - |m| % 64;
    RegroupOne(Whole(m), Tail(m), [0x80], Zeros(55 - |m| % 64), LengthField(8 * |m|));
  }

  lemma PaddedInTwo(m: Message)
    requires |m| % 64 >= 56
    ensures Padded(m) ==
            Whole(m) + (Tail(m) + [0x80] + Zeros(63 - |m| % 64)) + (Zeros(56) + LengthField(8 * |m|))
  {
    var z := 63 - |m| % 64;
    assert ZeroBytes(|m|) == z + 56;
    ZerosJoin(z, 56);
    RegroupTwo(Whole(m), Tail(m), [0x80], Zeros(z), Zeros(56), LengthField(8 * |m|));
  }

  lemma ZerosJoin(a: nat, b: nat)
    ensures Zeros(a + b) == Zeros(a) + Zeros(b)
  {
  }

  /** The padded message from the incomplete block on: one block when the length field
      still fits, two otherwise. */
  lemma PaddedBlocks(m: Message, first: Block, last: Block)
    requires Closes(m, first, last)
    ensures if |m| % 64 < 56 then Padded(m) == Whole(m) + last else Padded(m) == Whole(m) + first + last
  {
    if |m| % 64 < 56 {
      PaddedInOne(m);
    } else {
      PaddedInTwo(m);
    }
  }

  /** The hash of the padded message continues from that of the complete blocks. */
  lemma FinishOneBlock(m: Message, p: Message, last: Block, h: Hash, h': Hash)
    requires p == Whole(m) + last
    requires h == Blocks(m, |m| / 64) && h' == Compress(h, last)
    ensures h' == Blocks(p, |m| / 64 + 1)
  {
    ChainOneMore(Compress, INITIAL, m, p, |m| / 64, last);
  }

  lemma FinishTwoBlocks(m: Message, p: Message, first: Block, last: Block, h: Hash, h': Hash, h'': Hash)
    requires p == Whole(m) + first + last
    requires h == Blocks(m, |m| / 64) && h' == Compress(h, first) && h'' == Compress(h', last)
    ensures h'' == Blocks(p, |m| / 64 + 2)
  {
    ChainTwoMore(Compress, INITIAL, m, p, |m| / 64, first, last);
  }

  lemma FinishHash(m: Message, first: Block, last: Block, h: Hash, h': Hash, h'': Hash)
    requires Closes(m, first, last)
    requires h == Blocks(m, |m| / 64) && h'' == Compress(h', last)
    requires h' == if |m| % 64 < 56 then h else Compress(h, first)
    ensures h'' == Blocks(Padded(m), |Padded(m)| / 64)
  {
    hide Closes, Padded, Compress;
    PaddedBlocks(m, first, last);
    if |m| % 64 < 56 {
      FinishOneBlock(m, Padded(m), last, h, h'');
    } else {
      FinishTwoBlocks(m, Padded(m), first, last, h, h', h'');
    }
  }

  lemma WordBytesAt(w: bv32, i: nat)
    requires i < 4
    ensures WordBytes(w)[i] == ByteAt(w, i)
  {
  }

  lemma {:induction false} SerializedAt(words: seq<bv32>, k: nat, i: nat)
    requires k < |words| && i < 4
    ensures Serialized(words)[4 * k + i] == ByteAt(words[k], i)
  {
    var n := |words| - 1;
    if k < n {
      SerializedAt(words[..n], k, i);
    } else {
      WordBytesAt(words[k], i);
    }
  }

  lemma NoBlocks()
    ensures Blocks([], 0) == INITIAL
  {
  }

  lemma BigEndianStep(n: nat, width: nat)
    ensures BigEndian(n, width + 1) == BigEndian(n / 0x100, width) + [Low8(n)]
  {
  }

  /** Four bytes at a time. */
  lemma FourBytes(n: nat, width: nat)
    ensures BigEndian(n, width + 4) ==
            BigEndian(n / 0x1_0000_0000, width) +
            [Low8(n / 0x100_0000), Low8(n / 0x1_0000), Low8(n / 0x100), Low8(n)]
  {
    var n1 := n / 0x100;
    var n2 := n1 / 0x100;
    var n3 := n2 / 0x100;
    assert n2 == n / 0x1_0000 && n3 == n / 0x100_0000 && n3 / 0x100 == n / 0x1_0000_0000;
    BigEndianStep(n, width + 3);
    BigEndianStep(n1, width + 2);
    BigEndianStep(n2, width + 1);
    BigEndianStep(n3, width);
  }

  /** Shifting by whole bytes reaches each byte of the length field. */
  lemma LengthBytes(bits: nat)
    ensures LengthField(bits) == [
      Low8(bits / 0x100_0000_0000_0000), Low8(bits / 0x1_0000_0000_0000), Low8(bits / 0x100_0000_0000),
      Low8(bits / 0x1_0000_0000), Low8(bits / 0x100_0000), Low8(bits / 0x1_0000), Low8(bits / 0x100), Low8(bits)]
  {
    hide BigEndian, Low8;
    var high := bits / 0x1_0000_0000;
    FourBytes(bits, 4);
    FourBytes(high, 0);
    HighHalf(bits);
    NoBytes(high / 0x1_0000_0000);
  }

  lemma NoBytes(n: nat)
    ensures BigEndian(n, 0) == []
  {
  }

  lemma HighHalf(bits: nat)
    ensures var high := bits / 0x1_0000_0000;
            && high / 0x100 == bits / 0x100_0000_0000
            && high / 0x1_0000 == bits / 0x1_0000_0000_0000
            && high / 0x100_0000 == bits / 0x100_0000_0000_0000
  {
  }
}
