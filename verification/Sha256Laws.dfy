/** What the building blocks of SHA-256 compute, said without their definitions. */
module Sha256Laws {
  import opened Sha256Spec

  // ---- Functions on words -------------------------------------------------

  /** Choice: the second word's bits where the first has ones, the third's elsewhere. */
  lemma ChSelects(x: bv32, y: bv32, z: bv32)
    ensures Ch(x, y, z) & x == y & x
    ensures Ch(x, y, z) & !x == z & !x
  {
  }

  /** Majority: what two words agree on stands, and the third decides where they differ. */
  lemma MajVotes(x: bv32, y: bv32, z: bv32)
    ensures Maj(x, y, z) & !(x ^ y) == x & !(x ^ y)
    ensures Maj(x, y, z) & (x ^ y) == z & (x ^ y)
  {
  }

  /** The four sums of turned and shifted words, on the highest bit, on the lowest, and on a
      word with many. */
  lemma SigmasOfSomeWords()
    ensures BigSigma0(0x8000_0000) == 0x2004_0200 && BigSigma1(0x8000_0000) == 0x0210_0040
    ensures SmallSigma0(0x8000_0000) == 0x1100_2000 && SmallSigma1(0x8000_0000) == 0x0020_5000
    ensures BigSigma0(0x0000_0001) == 0x4008_0400 && BigSigma1(0x0000_0001) == 0x0420_0080
    ensures SmallSigma0(0x0000_0001) == 0x0200_4000 && SmallSigma1(0x0000_0001) == 0x0000_a000
    ensures BigSigma0(0x428a_2f98) == 0x44de_febd && BigSigma1(0x428a_2f98) == 0xd715_b5da
    ensures SmallSigma0(0x428a_2f98) == 0xb332_410e && SmallSigma1(0x428a_2f98) == 0x522f_8b9f
  {
  }

  // ---- Bytes and words ----------------------------------------------------

  /** A word is its four bytes, most significant first. */
  lemma WordByValue(b: Block, t: nat)
    requires t < 16
    ensures Word(b, t) ==
            (b[4 * t] as bv32) * 0x100_0000 + (b[4 * t + 1] as bv32) * 0x1_0000 +
            (b[4 * t + 2] as bv32) * 0x100 + (b[4 * t + 3] as bv32)
  {
  }

  lemma BytesByValue(w: bv32)
    ensures w ==
            (ByteAt(w, 0) as bv32) * 0x100_0000 + (ByteAt(w, 1) as bv32) * 0x1_0000 +
            (ByteAt(w, 2) as bv32) * 0x100 + (ByteAt(w, 3) as bv32)
  {
  }

  /** What bytes say as a number, most significant first. */
  function Number(b: Message): nat {
    if b == [] then 0 else 0x100 * Number(b[..|b| - 1]) + b[|b| - 1] as nat
  }

  function PowerOf256(width: nat): nat {
    if width == 0 then 1 else 0x100 * PowerOf256(width - 1)
  }

  lemma NextByte(b: bv8)
    requires b != 0xff
    ensures (b + 1) as nat == b as nat + 1
  {
  }

  /** Every number below 256 is a byte. */
  lemma {:induction false} ByteOf(n: nat) returns (b: bv8)
    requires n < 0x100
    ensures b as nat == n
  {
    b := 0;
    if n > 0 {
      b := ByteOf(n - 1);
      NextByte(b);
      b := b + 1;
    }
  }

  lemma LowByte(n: nat)
    ensures Low8(n) as nat == n % 0x100
  {
    var b := ByteOf(n % 0x100);
    assert (b as nat) as bv8 == b;
  }

  lemma {:induction false} BigEndianByValue(n: nat, width: nat)
    ensures PowerOf256(width) > 0 && Number(BigEndian(n, width)) == n % PowerOf256(width)
    decreases width
  {
    if width > 0 {
      BigEndianByValue(n / 0x100, width - 1);
      LowByte(n);
      BigEndianStep(n, width - 1);
      assert (BigEndian(n / 0x100, width - 1) + [Low8(n)])[..width - 1] == BigEndian(n / 0x100, width - 1);
      LastDigit(n, PowerOf256(width - 1));
    }
  }

  lemma LastDigit(n: nat, m: nat)
    requires m > 0
    ensures 0x100 * (n / 0x100 % m) + n % 0x100 == n % (0x100 * m)
  {
    var a, b, q := n / 0x100, n % 0x100, n / 0x100 / m;
    assert a == m * q + a % m;
    assert n == 0x100 * a + b == (0x100 * m) * q + (0x100 * (a % m) + b);
    assert 0x100 * (a % m) + b < 0x100 * m;
    RemainderIs(n, 0x100 * m, q, 0x100 * (a % m) + b);
  }

  lemma RemainderIs(n: nat, m: nat, q: nat, r: nat)
    requires m > 0 && r < m && n == m * q + r
    ensures n % m == r
  {
    var d := q - n / m;
    assert n == m * (n / m) + n % m;
    assert m * d == m * q - m * (n / m) == n % m - r;
    Multiples(m, d);
  }

  lemma Multiples(m: int, d: int)
    requires m > 0
    ensures d > 0 ==> m * d >= m
    ensures d < 0 ==> m * d <= -m
  {
  }

  /** Padding is a one bit, zeros, and the number of bits in the last eight bytes. */
  lemma PaddedByValue(m: Message)
    ensures var p := Padded(m);
            && |p| >= |m| + 9 && p[..|m|] == m && p[|m|] == 128
            && (forall k | |m| < k < |p| - 8 :: p[k] == 0)
            && Number(p[|p| - 8..]) == 8 * |m| % 0x1_00000000_00000000
  {
    BigEndianByValue(8 * |m|, 8);
    assert PowerOf256(4) == 0x1_0000_0000;
    assert Padded(m)[|Padded(m)| - 8..] == LengthField(8 * |m|);
  }

  // ---- Constants ----------------------------------------------------------

  /** The first 64 primes. */
  const PRIMES: seq<nat> := PRIMES_0 + PRIMES_1 + PRIMES_2 + PRIMES_3 + PRIMES_4 + PRIMES_5 + PRIMES_6 + PRIMES_7

  const PRIMES_0: seq<nat> := [2, 3, 5, 7, 11, 13, 17, 19]
  const PRIMES_1: seq<nat> := [23, 29, 31, 37, 41, 43, 47, 53]
  const PRIMES_2: seq<nat> := [59, 61, 67, 71, 73, 79, 83, 89]
  const PRIMES_3: seq<nat> := [97, 101, 103, 107, 109, 113, 127, 131]
  const PRIMES_4: seq<nat> := [137, 139, 149, 151, 157, 163, 167, 173]
  const PRIMES_5: seq<nat> := [179, 181, 191, 193, 197, 199, 211, 223]
  const PRIMES_6: seq<nat> := [227, 229, 233, 239, 241, 251, 257, 263]
  const PRIMES_7: seq<nat> := [269, 271, 277, 281, 283, 293, 307, 311]

  /** `n` is the cube root of `p` in fixed point, with 32 bits behind the point, which are `k`. */
  predicate IsCubeRoot(n: nat, p: nat, k: bv32) {
    && k as nat == n % 0x1_0000_0000
    && n * n * n <= p * 0x1_00000000_00000000_00000000 < (n + 1) * (n + 1) * (n + 1)
  }

  predicate IsSquareRoot(n: nat, p: nat, k: bv32) {
    && k as nat == n % 0x1_0000_0000
    && n * n <= p * 0x1_00000000_00000000 < (n + 1) * (n + 1)
  }

  /** These words are the first 32 bits of the fractions of the cube roots of these numbers. */
  ghost predicate AreRoots(ps: seq<nat>, ks: seq<bv32>) {
    |ps| == |ks| && forall i | 0 <= i < |ks| :: HasCubeRoot(ps[i], ks[i])
  }

  ghost predicate HasCubeRoot(p: nat, k: bv32) {
    exists n: nat :: IsCubeRoot(n, p, k)
  }

  lemma Together(ps: seq<nat>, ks: seq<bv32>, ps': seq<nat>, ks': seq<bv32>)
    requires AreRoots(ps, ks) && AreRoots(ps', ks')
    ensures AreRoots(ps + ps', ks + ks')
  {
    hide HasCubeRoot;
    forall i | 0 <= i < |ks + ks'| ensures HasCubeRoot((ps + ps')[i], (ks + ks')[i]) {
    }
  }

  /** A word of section 5.3.3. */
  ghost predicate IsRootOf(p: nat, k: bv32) {
    exists n: nat :: IsSquareRoot(n, p, k)
  }

  lemma Row0()
    ensures AreRoots(PRIMES_0, K_0)
  {
    assert IsCubeRoot(0x1_428a2f98, PRIMES_0[0], K_0[0]);
    assert IsCubeRoot(0x1_71374491, PRIMES_0[1], K_0[1]);
    assert IsCubeRoot(0x1_b5c0fbcf, PRIMES_0[2], K_0[2]);
    assert IsCubeRoot(0x1_e9b5dba5, PRIMES_0[3], K_0[3]);
    assert IsCubeRoot(0x2_3956c25b, PRIMES_0[4], K_0[4]);
    assert IsCubeRoot(0x2_59f111f1, PRIMES_0[5], K_0[5]);
    assert IsCubeRoot(0x2_923f82a4, PRIMES_0[6], K_0[6]);
    assert IsCubeRoot(0x2_ab1c5ed5, PRIMES_0[7], K_0[7]);
  }

  lemma Row1()
    ensures AreRoots(PRIMES_1, K_1)
  {
    assert IsCubeRoot(0x2_d807aa98, PRIMES_1[0], K_1[0]);
    assert IsCubeRoot(0x3_12835b01, PRIMES_1[1], K_1[1]);
    assert IsCubeRoot(0x3_243185be, PRIMES_1[2], K_1[2]);
    assert IsCubeRoot(0x3_550c7dc3, PRIMES_1[3], K_1[3]);
    assert IsCubeRoot(0x3_72be5d74, PRIMES_1[4], K_1[4]);
    assert IsCubeRoot(0x3_80deb1fe, PRIMES_1[5], K_1[5]);
    assert IsCubeRoot(0x3_9bdc06a7, PRIMES_1[6], K_1[6]);
    assert IsCubeRoot(0x3_c19bf174, PRIMES_1[7], K_1[7]);
  }

  lemma Row2()
    ensures AreRoots(PRIMES_2, K_2)
  {
    assert IsCubeRoot(0x3_e49b69c1, PRIMES_2[0], K_2[0]);
    assert IsCubeRoot(0x3_efbe4786, PRIMES_2[1], K_2[1]);
    assert IsCubeRoot(0x4_0fc19dc6, PRIMES_2[2], K_2[2]);
    assert IsCubeRoot(0x4_240ca1cc, PRIMES_2[3], K_2[3]);
    assert IsCubeRoot(0x4_2de92c6f, PRIMES_2[4], K_2[4]);
    assert IsCubeRoot(0x4_4a7484aa, PRIMES_2[5], K_2[5]);
    assert IsCubeRoot(0x4_5cb0a9dc, PRIMES_2[6], K_2[6]);
    assert IsCubeRoot(0x4_76f988da, PRIMES_2[7], K_2[7]);
  }

  lemma Row3()
    ensures AreRoots(PRIMES_3, K_3)
  {
    assert IsCubeRoot(0x4_983e5152, PRIMES_3[0], K_3[0]);
    assert IsCubeRoot(0x4_a831c66d, PRIMES_3[1], K_3[1]);
    assert IsCubeRoot(0x4_b00327c8, PRIMES_3[2], K_3[2]);
    assert IsCubeRoot(0x4_bf597fc7, PRIMES_3[3], K_3[3]);
    assert IsCubeRoot(0x4_c6e00bf3, PRIMES_3[4], K_3[4]);
    assert IsCubeRoot(0x4_d5a79147, PRIMES_3[5], K_3[5]);
    assert IsCubeRoot(0x5_06ca6351, PRIMES_3[6], K_3[6]);
    assert IsCubeRoot(0x5_14292967, PRIMES_3[7], K_3[7]);
  }

  lemma Row4()
    ensures AreRoots(PRIMES_4, K_4)
  {
    assert IsCubeRoot(0x5_27b70a85, PRIMES_4[0], K_4[0]);
    assert IsCubeRoot(0x5_2e1b2138, PRIMES_4[1], K_4[1]);
    assert IsCubeRoot(0x5_4d2c6dfc, PRIMES_4[2], K_4[2]);
    assert IsCubeRoot(0x5_53380d13, PRIMES_4[3], K_4[3]);
    assert IsCubeRoot(0x5_650a7354, PRIMES_4[4], K_4[4]);
    assert IsCubeRoot(0x5_766a0abb, PRIMES_4[5], K_4[5]);
    assert IsCubeRoot(0x5_81c2c92e, PRIMES_4[6], K_4[6]);
    assert IsCubeRoot(0x5_92722c85, PRIMES_4[7], K_4[7]);
  }

  lemma Row5()
    ensures AreRoots(PRIMES_5, K_5)
  {
    assert IsCubeRoot(0x5_a2bfe8a1, PRIMES_5[0], K_5[0]);
    assert IsCubeRoot(0x5_a81a664b, PRIMES_5[1], K_5[1]);
    assert IsCubeRoot(0x5_c24b8b70, PRIMES_5[2], K_5[2]);
    assert IsCubeRoot(0x5_c76c51a3, PRIMES_5[3], K_5[3]);
    assert IsCubeRoot(0x5_d192e819, PRIMES_5[4], K_5[4]);
    assert IsCubeRoot(0x5_d6990624, PRIMES_5[5], K_5[5]);
    assert IsCubeRoot(0x5_f40e3585, PRIMES_5[6], K_5[6]);
    assert IsCubeRoot(0x6_106aa070, PRIMES_5[7], K_5[7]);
  }

  lemma Row6()
    ensures AreRoots(PRIMES_6, K_6)
  {
    assert IsCubeRoot(0x6_19a4c116, PRIMES_6[0], K_6[0]);
    assert IsCubeRoot(0x6_1e376c08, PRIMES_6[1], K_6[1]);
    assert IsCubeRoot(0x6_2748774c, PRIMES_6[2], K_6[2]);
    assert IsCubeRoot(0x6_34b0bcb5, PRIMES_6[3], K_6[3]);
    assert IsCubeRoot(0x6_391c0cb3, PRIMES_6[4], K_6[4]);
    assert IsCubeRoot(0x6_4ed8aa4a, PRIMES_6[5], K_6[5]);
    assert IsCubeRoot(0x6_5b9cca4f, PRIMES_6[6], K_6[6]);
    assert IsCubeRoot(0x6_682e6ff3, PRIMES_6[7], K_6[7]);
  }

  lemma Row7()
    ensures AreRoots(PRIMES_7, K_7)
  {
    assert IsCubeRoot(0x6_748f82ee, PRIMES_7[0], K_7[0]);
    assert IsCubeRoot(0x6_78a5636f, PRIMES_7[1], K_7[1]);
    assert IsCubeRoot(0x6_84c87814, PRIMES_7[2], K_7[2]);
    assert IsCubeRoot(0x6_8cc70208, PRIMES_7[3], K_7[3]);
    assert IsCubeRoot(0x6_90befffa, PRIMES_7[4], K_7[4]);
    assert IsCubeRoot(0x6_a4506ceb, PRIMES_7[5], K_7[5]);
    assert IsCubeRoot(0x6_bef9a3f7, PRIMES_7[6], K_7[6]);
    assert IsCubeRoot(0x6_c67178f2, PRIMES_7[7], K_7[7]);
  }

  /** The constants are the first 32 bits of the fractions of the cube roots of the first 64 primes. */
  lemma ConstantsAreRoots()
    ensures |K| == 64 && AreRoots(PRIMES, K)
  {
    hide AreRoots;
    Row0();
    Row1();
    Row2();
    Row3();
    Row4();
    Row5();
    Row6();
    Row7();
    Together(PRIMES_0, K_0, PRIMES_1, K_1);
    Together(PRIMES_0 + PRIMES_1, K_0 + K_1, PRIMES_2, K_2);
    Together(PRIMES_0 + PRIMES_1 + PRIMES_2, K_0 + K_1 + K_2, PRIMES_3, K_3);
    Together(PRIMES_0 + PRIMES_1 + PRIMES_2 + PRIMES_3,
      K_0 + K_1 + K_2 + K_3, PRIMES_4, K_4);
    Together(PRIMES_0 + PRIMES_1 + PRIMES_2 + PRIMES_3 + PRIMES_4,
      K_0 + K_1 + K_2 + K_3 + K_4, PRIMES_5, K_5);
    Together(PRIMES_0 + PRIMES_1 + PRIMES_2 + PRIMES_3 + PRIMES_4 + PRIMES_5,
      K_0 + K_1 + K_2 + K_3 + K_4 + K_5, PRIMES_6, K_6);
    Together(PRIMES_0 + PRIMES_1 + PRIMES_2 + PRIMES_3 + PRIMES_4 + PRIMES_5 + PRIMES_6,
      K_0 + K_1 + K_2 + K_3 + K_4 + K_5 + K_6, PRIMES_7, K_7);
  }

  /** The initial hash value, those of the square roots of the first eight. */
  lemma InitialIsRoots()
    ensures IsRootOf(2, INITIAL.a)
    ensures IsRootOf(3, INITIAL.b)
    ensures IsRootOf(5, INITIAL.c)
    ensures IsRootOf(7, INITIAL.d)
    ensures IsRootOf(11, INITIAL.e)
    ensures IsRootOf(13, INITIAL.f)
    ensures IsRootOf(17, INITIAL.g)
    ensures IsRootOf(19, INITIAL.h)
  {
    assert IsSquareRoot(0x1_6a09e667, 2, INITIAL.a);
    assert IsSquareRoot(0x1_bb67ae85, 3, INITIAL.b);
    assert IsSquareRoot(0x2_3c6ef372, 5, INITIAL.c);
    assert IsSquareRoot(0x2_a54ff53a, 7, INITIAL.d);
    assert IsSquareRoot(0x3_510e527f, 11, INITIAL.e);
    assert IsSquareRoot(0x3_9b05688c, 13, INITIAL.f);
    assert IsSquareRoot(0x4_1f83d9ab, 17, INITIAL.g);
    assert IsSquareRoot(0x4_5be0cd19, 19, INITIAL.h);
  }
}
