/** The one-block example published for FIPS 180-4, the digest of "abc", computed eight rounds at a time. */
module Sha256Example {
  import opened Sha256Spec

  const ABC: Message := [0x61, 0x62, 0x63]

  // ---- Eight steps at a time ----------------------------------------------

  /** These are words `t` to `t + 7` of the schedule. */
  ghost predicate AreWords(b: Block, t: nat, ws: seq<bv32>) {
    |ws| == 8 && forall j: nat | j < 8 :: W(b, t + j) == ws[j]
  }

  /** These are the constants of rounds `t` to `t + 7`. */
  ghost predicate AreConstants(t: nat, ks: seq<bv32>) {
    t + 8 <= |K| && |ks| == 8 && forall j: nat | j < 8 :: K[t + j] == ks[j]
  }

  lemma ConstantRows()
    ensures AreConstants(0, K_0)
    ensures AreConstants(8, K_1)
    ensures AreConstants(16, K_2)
    ensures AreConstants(24, K_3)
    ensures AreConstants(32, K_4)
    ensures AreConstants(40, K_5)
    ensures AreConstants(48, K_6)
    ensures AreConstants(56, K_7)
  {
    hide AreConstants;
    RowsOf(K_0, K_1, K_2, K_3, K_4, K_5, K_6, K_7);
  }

  lemma RowsOf(
    k0: seq<bv32>, k1: seq<bv32>, k2: seq<bv32>, k3: seq<bv32>,
    k4: seq<bv32>, k5: seq<bv32>, k6: seq<bv32>, k7: seq<bv32>)
    requires K == k0 + k1 + k2 + k3 + k4 + k5 + k6 + k7
    requires |k0| == |k1| == |k2| == |k3| == |k4| == |k5| == |k6| == |k7| == 8
    ensures AreConstants(0, k0)
    ensures AreConstants(8, k1)
    ensures AreConstants(16, k2)
    ensures AreConstants(24, k3)
    ensures AreConstants(32, k4)
    ensures AreConstants(40, k5)
    ensures AreConstants(48, k6)
    ensures AreConstants(56, k7)
  {
  }

  /** The rule of the schedule. */
  predicate Extends(w2: bv32, w7: bv32, w15: bv32, w16: bv32, w: bv32) {
    w == Plus(Plus(Plus(SmallSigma1(w2), w7), SmallSigma0(w15)), w16)
  }

  /** Eight words follow from the sixteen before by the rule. */
  ghost predicate Follow(w0: seq<bv32>, w1: seq<bv32>, w2: seq<bv32>)
    requires |w0| == |w1| == |w2| == 8
  {
    && Extends(w1[6], w1[1], w0[1], w0[0], w2[0])
    && Extends(w1[7], w1[2], w0[2], w0[1], w2[1])
    && Extends(w2[0], w1[3], w0[3], w0[2], w2[2])
    && Extends(w2[1], w1[4], w0[4], w0[3], w2[3])
    && Extends(w2[2], w1[5], w0[5], w0[4], w2[4])
    && Extends(w2[3], w1[6], w0[6], w0[5], w2[5])
    && Extends(w2[4], w1[7], w0[7], w0[6], w2[6])
    && Extends(w2[5], w2[0], w1[0], w0[7], w2[7])
  }

  lemma FollowAt(w0: seq<bv32>, w1: seq<bv32>, w2: seq<bv32>, j: nat)
    requires |w0| == |w1| == |w2| == 8 && Follow(w0, w1, w2) && j < 8
    ensures var ws := w0 + w1 + w2; Extends(ws[j + 14], ws[j + 9], ws[j + 1], ws[j], ws[j + 16])
  {
    hide Extends;
  }

  lemma OneMoreWord(b: Block, t: nat, ws: seq<bv32>, j: nat)
    requires |ws| == 24 && j < 8 && Extends(ws[j + 14], ws[j + 9], ws[j + 1], ws[j], ws[j + 16])
    requires forall k: nat | k < 16 + j :: W(b, t + k) == ws[k]
    ensures W(b, t + (16 + j)) == ws[16 + j]
  {
    hide SmallSigma0, SmallSigma1, Plus;
    assert W(b, t + (j + 14)) == ws[j + 14] && W(b, t + (j + 9)) == ws[j + 9];
    assert W(b, t + (j + 1)) == ws[j + 1] && W(b, t + j) == ws[j];
  }

  lemma EightMoreWords(b: Block, t: nat, w0: seq<bv32>, w1: seq<bv32>, w2: seq<bv32>)
    requires AreWords(b, t, w0) && AreWords(b, t + 8, w1) && |w2| == 8
    requires Follow(w0, w1, w2)
    ensures AreWords(b, t + 16, w2)
  {
    hide Follow, Extends;
    for j := 0 to 8
      invariant forall k: nat | k < 16 + j :: W(b, t + k) == (w0 + w1 + w2)[k]
    {
      FollowAt(w0, w1, w2, j);
      OneMoreWord(b, t, w0 + w1 + w2, j);
    }
    forall j: nat | j < 8 ensures W(b, t + 16 + j) == w2[j] {
      assert W(b, t + (16 + j)) == (w0 + w1 + w2)[16 + j];
    }
  }

  /**
   * The working variables after `j` rounds more, where `va` and `ve` are what variables a and e held after
   * eight rounds and after the next eight: the other variables are earlier values of these two.
   */
  function Variables(va: seq<bv32>, ve: seq<bv32>, j: nat): Hash
    requires |va| == |ve| == 16 && j <= 8
  {
    Hash(va[j + 7], va[j + 6], va[j + 5], va[j + 4], ve[j + 7], ve[j + 6], ve[j + 5], ve[j + 4])
  }

  /** A round computes `a` and `e` and shifts the other variables. */
  predicate Gives(s: Hash, k: bv32, w: bv32, a: bv32, e: bv32) {
    Round(s, k, w) == Hash(a, s.a, s.b, s.c, e, s.e, s.f, s.g)
  }

  predicate RoundFollows(va: seq<bv32>, ve: seq<bv32>, ks: seq<bv32>, ws: seq<bv32>, j: nat)
    requires |va| == |ve| == 16 && |ks| == |ws| == 8 && j < 8
  {
    Gives(Variables(va, ve, j), ks[j], ws[j], va[j + 8], ve[j + 8])
  }

  ghost predicate RoundsFollow(va: seq<bv32>, ve: seq<bv32>, ks: seq<bv32>, ws: seq<bv32>)
    requires |va| == |ve| == 16 && |ks| == |ws| == 8
  {
    forall j: nat | j < 8 :: RoundFollows(va, ve, ks, ws, j)
  }

  lemma EachFollows(va: seq<bv32>, ve: seq<bv32>, ks: seq<bv32>, ws: seq<bv32>)
    requires |va| == |ve| == 16 && |ks| == |ws| == 8
    requires RoundFollows(va, ve, ks, ws, 0) && RoundFollows(va, ve, ks, ws, 1)
    requires RoundFollows(va, ve, ks, ws, 2) && RoundFollows(va, ve, ks, ws, 3)
    requires RoundFollows(va, ve, ks, ws, 4) && RoundFollows(va, ve, ks, ws, 5)
    requires RoundFollows(va, ve, ks, ws, 6) && RoundFollows(va, ve, ks, ws, 7)
    ensures RoundsFollow(va, ve, ks, ws)
  {
    hide RoundFollows;
  }

  lemma EightMoreRounds(b: Block, t: nat, va: seq<bv32>, ve: seq<bv32>, ks: seq<bv32>, ws: seq<bv32>)
    requires AreWords(b, t, ws) && AreConstants(t, ks) && |va| == |ve| == 16
    requires RoundsFollow(va, ve, ks, ws)
    requires Rounds(INITIAL, b, t) == Variables(va, ve, 0)
    ensures Rounds(INITIAL, b, t + 8) == Variables(va, ve, 8)
  {
    hide Round, W;
    for j := 0 to 8
      invariant Rounds(INITIAL, b, t + j) == Variables(va, ve, j)
    {
      assert RoundFollows(va, ve, ks, ws, j) && W(b, t + j) == ws[j] && K[t + j] == ks[j];
    }
  }

  // ---- The block of "abc" -------------------------------------------------

  /** Four bytes that matter, zeros, and the length. */
  ghost predicate IsAbc(b: Block) {
    && b[0] == 0x61 && b[1] == 0x62 && b[2] == 0x63 && b[3] == 0x80
    && (forall k | 4 <= k < 63 :: b[k] == 0) && b[63] == 24
  }

  lemma LowBytes()
    ensures Low8(0) == 0 && Low8(24) == 24
  {
  }

  lemma LengthOfAbc()
    ensures LengthField(24) == [0, 0, 0, 0, 0, 0, 0, 24]
  {
    hide Low8;
    LowBytes();
    LengthBytes(24);
  }

  lemma PartsOfAbc(b: Block, z: Message, l: Message)
    requires b == ABC + [0x80] + z + l && |z| == 52 && l == [0, 0, 0, 0, 0, 0, 0, 24]
    requires forall k | 0 <= k < 52 :: z[k] == 0
    ensures IsAbc(b)
  {
    var front := ABC + [0x80] + z;
    assert b[0] == front[0] == ABC[0] && b[1] == front[1] == ABC[1] && b[2] == front[2] == ABC[2];
    assert b[3] == front[3] == 0x80 && b[63] == l[7];
    forall k | 4 <= k < 63 ensures b[k] == 0 {
      assert b[k] == if k < 56 then z[k - 4] else l[k - 56];
    }
  }

  lemma PaddedAbc()
    ensures |Padded(ABC)| == 64 && IsAbc(Padded(ABC))
  {
    LengthOfAbc();
    hide LengthField, IsAbc;
    assert ZeroBytes(3) == 52;
    PartsOfAbc(Padded(ABC), Zeros(52), LengthField(24));
  }

  /** The schedule, */
  const W_0: seq<bv32> :=
    [0x61626380, 0x00000000, 0x00000000, 0x00000000, 0x00000000, 0x00000000, 0x00000000, 0x00000000]
  const W_1: seq<bv32> :=
    [0x00000000, 0x00000000, 0x00000000, 0x00000000, 0x00000000, 0x00000000, 0x00000000, 0x00000018]
  const W_2: seq<bv32> :=
    [0x61626380, 0x000f0000, 0x7da86405, 0x600003c6, 0x3e9d7b78, 0x0183fc00, 0x12dcbfdb, 0xe2e2c38e]
  const W_3: seq<bv32> :=
    [0xc8215c1a, 0xb73679a2, 0xe5bc3909, 0x32663c5b, 0x9d209d67, 0xec8726cb, 0x702138a4, 0xd3b7973b]
  const W_4: seq<bv32> :=
    [0x93f5997f, 0x3b68ba73, 0xaff4ffc1, 0xf10a5c62, 0x0a8b3996, 0x72af830a, 0x9409e33e, 0x24641522]
  const W_5: seq<bv32> :=
    [0x9f47bf94, 0xf0a64f5a, 0x3e246a79, 0x27333ba3, 0x0c4763f2, 0x840abf27, 0x7a290d5d, 0x065c43da]
  const W_6: seq<bv32> :=
    [0xfb3e89cb, 0xcc7617db, 0xb9e66c34, 0xa9993667, 0x84badedd, 0xc21462bc, 0x1487472c, 0xb20f7a99]
  const W_7: seq<bv32> :=
    [0xef57b9cd, 0xebe6b238, 0x9fe3095e, 0x78bc8d4b, 0xa43fcf15, 0x668b2ff8, 0xeeaba2cc, 0x12b1edeb]

  /** and what variables a and e hold after each round, from the initial value on. */
  const A_0: seq<bv32> :=
    [0x00000000, 0x00000000, 0x00000000, 0x00000000, 0xa54ff53a, 0x3c6ef372, 0xbb67ae85, 0x6a09e667]
  const A_1: seq<bv32> :=
    [0x5d6aebcd, 0x5a6ad9ad, 0xc8c347a7, 0xd550f666, 0x04409a6a, 0x2b4209f5, 0xe5030380, 0x85a07b5f]
  const A_2: seq<bv32> :=
    [0x8e04ecb9, 0x8c87346b, 0x4798a3f4, 0xf71fc5a9, 0x87912990, 0xd932eb16, 0xc0645fde, 0xb0fa238e]
  const A_3: seq<bv32> :=
    [0x21da9a9b, 0xc2fbd9d1, 0xfe777bbf, 0xe1f20c33, 0x9dc68b63, 0xc2606d6d, 0xa7a3623f, 0xc5d53d8d]
  const A_4: seq<bv32> :=
    [0x1c2c2838, 0xcde8037d, 0xb62ec4bc, 0x77d37528, 0x363482c9, 0xa0060b30, 0xea992a22, 0x73b33bf5]
  const A_5: seq<bv32> :=
    [0x98e12507, 0xfe604df5, 0xa9a7738c, 0x65a0cfe4, 0x41a65cb1, 0x34df1604, 0x6dc57a8a, 0x79ea687a]
  const A_6: seq<bv32> :=
    [0xd6670766, 0xdf46652f, 0x17aa0dfe, 0x9d4baf93, 0x26628815, 0x72ab4b91, 0xa14c14b0, 0x4172328d]
  const A_7: seq<bv32> :=
    [0x05757ceb, 0xf11bfaa8, 0x7a0508a1, 0x886e7a22, 0x101fd28f, 0xf5702fdb, 0x3ec45cdb, 0x38cc9913]
  const A_8: seq<bv32> :=
    [0xfcd1887b, 0xc062d46f, 0xffb70472, 0xb6ae8fff, 0xb85e2ce9, 0x04d24d6c, 0xd39a2165, 0x506e3058]
  const E_0: seq<bv32> :=
    [0x00000000, 0x00000000, 0x00000000, 0x00000000, 0x5be0cd19, 0x1f83d9ab, 0x9b05688c, 0x510e527f]
  const E_1: seq<bv32> :=
    [0xfa2a4622, 0x78ce7989, 0xf92939eb, 0x24e00850, 0x43ada245, 0x714260ad, 0x9b27a401, 0x0c657a79]
  const E_2: seq<bv32> :=
    [0x32ca2d8c, 0x1cc92596, 0x436b23e8, 0x816fd6e9, 0x1e578218, 0x745a48de, 0x0b92f20c, 0x07590dcd]
  const E_3: seq<bv32> :=
    [0x8034229c, 0x846ee454, 0xcc899961, 0xb0638179, 0x8ada8930, 0xe1257970, 0x49f5114a, 0xaa47c347]
  const E_4: seq<bv32> :=
    [0x2823ef91, 0x14383d8e, 0xc74c6516, 0xedffbff8, 0x6112a3b7, 0xade79437, 0x0109ab3a, 0xba591112]
  const E_5: seq<bv32> :=
    [0x9cd9f5f6, 0x59249dd3, 0x085f3833, 0xf4b002d6, 0x0772a26b, 0xa507a53d, 0xf0781bc8, 0x1efbc0a0]
  const E_6: seq<bv32> :=
    [0x26352d63, 0x838b2711, 0xdecd4715, 0xfda24c2e, 0xa80f11f0, 0xb7755da1, 0xd57b94a9, 0xfecf0bc6]
  const E_7: seq<bv32> :=
    [0xbd714038, 0x6e5c390c, 0x52f1ccf7, 0x49231c1e, 0x529e7d00, 0x9f4787c3, 0xe50e1b4f, 0x54cb266b]
  const E_8: seq<bv32> :=
    [0x9b5e906c, 0x7e44008e, 0x6d83bfc6, 0xb21bad3d, 0x961f4894, 0x948d25b6, 0xfb121210, 0x5ef50f24]

  lemma FirstWords(b: Block)
    requires IsAbc(b)
    ensures AreWords(b, 0, W_0) && AreWords(b, 8, W_1)
  {
    forall t: nat | t < 16 ensures W(b, t) == (W_0 + W_1)[t] {
      assert W(b, t) == Word(b, t);
    }
    forall j: nat | j < 8 ensures W(b, 8 + j) == W_1[j] {
      assert (W_0 + W_1)[8 + j] == W_1[j];
    }
  }

  lemma WordValues2()
    ensures Extends(0x00000000, 0x00000000, 0x00000000, 0x61626380, 0x61626380)
    ensures Extends(0x00000018, 0x00000000, 0x00000000, 0x00000000, 0x000f0000)
    ensures Extends(0x61626380, 0x00000000, 0x00000000, 0x00000000, 0x7da86405)
    ensures Extends(0x000f0000, 0x00000000, 0x00000000, 0x00000000, 0x600003c6)
    ensures Extends(0x7da86405, 0x00000000, 0x00000000, 0x00000000, 0x3e9d7b78)
    ensures Extends(0x600003c6, 0x00000000, 0x00000000, 0x00000000, 0x0183fc00)
    ensures Extends(0x3e9d7b78, 0x00000018, 0x00000000, 0x00000000, 0x12dcbfdb)
    ensures Extends(0x0183fc00, 0x61626380, 0x00000000, 0x00000000, 0xe2e2c38e)
  {
  }

  lemma Words2()
    ensures Follow(W_0, W_1, W_2)
  {
    WordValues2();
    hide Extends;
  }

  lemma WordValues3()
    ensures Extends(0x12dcbfdb, 0x000f0000, 0x00000000, 0x00000000, 0xc8215c1a)
    ensures Extends(0xe2e2c38e, 0x7da86405, 0x00000000, 0x00000000, 0xb73679a2)
    ensures Extends(0xc8215c1a, 0x600003c6, 0x00000000, 0x00000000, 0xe5bc3909)
    ensures Extends(0xb73679a2, 0x3e9d7b78, 0x00000000, 0x00000000, 0x32663c5b)
    ensures Extends(0xe5bc3909, 0x0183fc00, 0x00000000, 0x00000000, 0x9d209d67)
    ensures Extends(0x32663c5b, 0x12dcbfdb, 0x00000000, 0x00000000, 0xec8726cb)
    ensures Extends(0x9d209d67, 0xe2e2c38e, 0x00000018, 0x00000000, 0x702138a4)
    ensures Extends(0xec8726cb, 0xc8215c1a, 0x61626380, 0x00000018, 0xd3b7973b)
  {
  }

  lemma Words3()
    ensures Follow(W_1, W_2, W_3)
  {
    WordValues3();
    hide Extends;
  }

  lemma WordValues4()
    ensures Extends(0x702138a4, 0xb73679a2, 0x000f0000, 0x61626380, 0x93f5997f)
    ensures Extends(0xd3b7973b, 0xe5bc3909, 0x7da86405, 0x000f0000, 0x3b68ba73)
    ensures Extends(0x93f5997f, 0x32663c5b, 0x600003c6, 0x7da86405, 0xaff4ffc1)
    ensures Extends(0x3b68ba73, 0x9d209d67, 0x3e9d7b78, 0x600003c6, 0xf10a5c62)
    ensures Extends(0xaff4ffc1, 0xec8726cb, 0x0183fc00, 0x3e9d7b78, 0x0a8b3996)
    ensures Extends(0xf10a5c62, 0x702138a4, 0x12dcbfdb, 0x0183fc00, 0x72af830a)
    ensures Extends(0x0a8b3996, 0xd3b7973b, 0xe2e2c38e, 0x12dcbfdb, 0x9409e33e)
    ensures Extends(0x72af830a, 0x93f5997f, 0xc8215c1a, 0xe2e2c38e, 0x24641522)
  {
  }

  lemma Words4()
    ensures Follow(W_2, W_3, W_4)
  {
    WordValues4();
    hide Extends;
  }

  lemma WordValues5()
    ensures Extends(0x9409e33e, 0x3b68ba73, 0xb73679a2, 0xc8215c1a, 0x9f47bf94)
    ensures Extends(0x24641522, 0xaff4ffc1, 0xe5bc3909, 0xb73679a2, 0xf0a64f5a)
    ensures Extends(0x9f47bf94, 0xf10a5c62, 0x32663c5b, 0xe5bc3909, 0x3e246a79)
    ensures Extends(0xf0a64f5a, 0x0a8b3996, 0x9d209d67, 0x32663c5b, 0x27333ba3)
    ensures Extends(0x3e246a79, 0x72af830a, 0xec8726cb, 0x9d209d67, 0x0c4763f2)
    ensures Extends(0x27333ba3, 0x9409e33e, 0x702138a4, 0xec8726cb, 0x840abf27)
    ensures Extends(0x0c4763f2, 0x24641522, 0xd3b7973b, 0x702138a4, 0x7a290d5d)
    ensures Extends(0x840abf27, 0x9f47bf94, 0x93f5997f, 0xd3b7973b, 0x065c43da)
  {
  }

  lemma Words5()
    ensures Follow(W_3, W_4, W_5)
  {
    WordValues5();
    hide Extends;
  }

  lemma WordValues6()
    ensures Extends(0x7a290d5d, 0xf0a64f5a, 0x3b68ba73, 0x93f5997f, 0xfb3e89cb)
    ensures Extends(0x065c43da, 0x3e246a79, 0xaff4ffc1, 0x3b68ba73, 0xcc7617db)
    ensures Extends(0xfb3e89cb, 0x27333ba3, 0xf10a5c62, 0xaff4ffc1, 0xb9e66c34)
    ensures Extends(0xcc7617db, 0x0c4763f2, 0x0a8b3996, 0xf10a5c62, 0xa9993667)
    ensures Extends(0xb9e66c34, 0x840abf27, 0x72af830a, 0x0a8b3996, 0x84badedd)
    ensures Extends(0xa9993667, 0x7a290d5d, 0x9409e33e, 0x72af830a, 0xc21462bc)
    ensures Extends(0x84badedd, 0x065c43da, 0x24641522, 0x9409e33e, 0x1487472c)
    ensures Extends(0xc21462bc, 0xfb3e89cb, 0x9f47bf94, 0x24641522, 0xb20f7a99)
  {
  }

  lemma Words6()
    ensures Follow(W_4, W_5, W_6)
  {
    WordValues6();
    hide Extends;
  }

  lemma WordValues7()
    ensures Extends(0x1487472c, 0xcc7617db, 0xf0a64f5a, 0x9f47bf94, 0xef57b9cd)
    ensures Extends(0xb20f7a99, 0xb9e66c34, 0x3e246a79, 0xf0a64f5a, 0xebe6b238)
    ensures Extends(0xef57b9cd, 0xa9993667, 0x27333ba3, 0x3e246a79, 0x9fe3095e)
    ensures Extends(0xebe6b238, 0x84badedd, 0x0c4763f2, 0x27333ba3, 0x78bc8d4b)
    ensures Extends(0x9fe3095e, 0xc21462bc, 0x840abf27, 0x0c4763f2, 0xa43fcf15)
    ensures Extends(0x78bc8d4b, 0x1487472c, 0x7a290d5d, 0x840abf27, 0x668b2ff8)
    ensures Extends(0xa43fcf15, 0xb20f7a99, 0x065c43da, 0x7a290d5d, 0xeeaba2cc)
    ensures Extends(0x668b2ff8, 0xef57b9cd, 0xfb3e89cb, 0x065c43da, 0x12b1edeb)
  {
  }

  lemma Words7()
    ensures Follow(W_5, W_6, W_7)
  {
    WordValues7();
    hide Extends;
  }

  lemma Values0()
    ensures Gives(Hash(0x6a09e667, 0xbb67ae85, 0x3c6ef372, 0xa54ff53a, 0x510e527f, 0x9b05688c, 0x1f83d9ab, 0x5be0cd19),
                  0x428a2f98, 0x61626380, 0x5d6aebcd, 0xfa2a4622)
    ensures Gives(Hash(0x5d6aebcd, 0x6a09e667, 0xbb67ae85, 0x3c6ef372, 0xfa2a4622, 0x510e527f, 0x9b05688c, 0x1f83d9ab),
                  0x71374491, 0x00000000, 0x5a6ad9ad, 0x78ce7989)
    ensures Gives(Hash(0x5a6ad9ad, 0x5d6aebcd, 0x6a09e667, 0xbb67ae85, 0x78ce7989, 0xfa2a4622, 0x510e527f, 0x9b05688c),
                  0xb5c0fbcf, 0x00000000, 0xc8c347a7, 0xf92939eb)
    ensures Gives(Hash(0xc8c347a7, 0x5a6ad9ad, 0x5d6aebcd, 0x6a09e667, 0xf92939eb, 0x78ce7989, 0xfa2a4622, 0x510e527f),
                  0xe9b5dba5, 0x00000000, 0xd550f666, 0x24e00850)
    ensures Gives(Hash(0xd550f666, 0xc8c347a7, 0x5a6ad9ad, 0x5d6aebcd, 0x24e00850, 0xf92939eb, 0x78ce7989, 0xfa2a4622),
                  0x3956c25b, 0x00000000, 0x04409a6a, 0x43ada245)
    ensures Gives(Hash(0x04409a6a, 0xd550f666, 0xc8c347a7, 0x5a6ad9ad, 0x43ada245, 0x24e00850, 0xf92939eb, 0x78ce7989),
                  0x59f111f1, 0x00000000, 0x2b4209f5, 0x714260ad)
    ensures Gives(Hash(0x2b4209f5, 0x04409a6a, 0xd550f666, 0xc8c347a7, 0x714260ad, 0x43ada245, 0x24e00850, 0xf92939eb),
                  0x923f82a4, 0x00000000, 0xe5030380, 0x9b27a401)
    ensures Gives(Hash(0xe5030380, 0x2b4209f5, 0x04409a6a, 0xd550f666, 0x9b27a401, 0x714260ad, 0x43ada245, 0x24e00850),
                  0xab1c5ed5, 0x00000000, 0x85a07b5f, 0x0c657a79)
  {
  }

  lemma Rounds0()
    ensures RoundsFollow(A_0 + A_1, E_0 + E_1, K_0, W_0)
  {
    Values0();
    hide Gives, RoundsFollow;
    EachFollows(A_0 + A_1, E_0 + E_1, K_0, W_0);
  }

  lemma Values1()
    ensures Gives(Hash(0x85a07b5f, 0xe5030380, 0x2b4209f5, 0x04409a6a, 0x0c657a79, 0x9b27a401, 0x714260ad, 0x43ada245),
                  0xd807aa98, 0x00000000, 0x8e04ecb9, 0x32ca2d8c)
    ensures Gives(Hash(0x8e04ecb9, 0x85a07b5f, 0xe5030380, 0x2b4209f5, 0x32ca2d8c, 0x0c657a79, 0x9b27a401, 0x714260ad),
                  0x12835b01, 0x00000000, 0x8c87346b, 0x1cc92596)
    ensures Gives(Hash(0x8c87346b, 0x8e04ecb9, 0x85a07b5f, 0xe5030380, 0x1cc92596, 0x32ca2d8c, 0x0c657a79, 0x9b27a401),
                  0x243185be, 0x00000000, 0x4798a3f4, 0x436b23e8)
    ensures Gives(Hash(0x4798a3f4, 0x8c87346b, 0x8e04ecb9, 0x85a07b5f, 0x436b23e8, 0x1cc92596, 0x32ca2d8c, 0x0c657a79),
                  0x550c7dc3, 0x00000000, 0xf71fc5a9, 0x816fd6e9)
    ensures Gives(Hash(0xf71fc5a9, 0x4798a3f4, 0x8c87346b, 0x8e04ecb9, 0x816fd6e9, 0x436b23e8, 0x1cc92596, 0x32ca2d8c),
                  0x72be5d74, 0x00000000, 0x87912990, 0x1e578218)
    ensures Gives(Hash(0x87912990, 0xf71fc5a9, 0x4798a3f4, 0x8c87346b, 0x1e578218, 0x816fd6e9, 0x436b23e8, 0x1cc92596),
                  0x80deb1fe, 0x00000000, 0xd932eb16, 0x745a48de)
    ensures Gives(Hash(0xd932eb16, 0x87912990, 0xf71fc5a9, 0x4798a3f4, 0x745a48de, 0x1e578218, 0x816fd6e9, 0x436b23e8),
                  0x9bdc06a7, 0x00000000, 0xc0645fde, 0x0b92f20c)
    ensures Gives(Hash(0xc0645fde, 0xd932eb16, 0x87912990, 0xf71fc5a9, 0x0b92f20c, 0x745a48de, 0x1e578218, 0x816fd6e9),
                  0xc19bf174, 0x00000018, 0xb0fa238e, 0x07590dcd)
  {
  }

  lemma Rounds1()
    ensures RoundsFollow(A_1 + A_2, E_1 + E_2, K_1, W_1)
  {
    Values1();
    hide Gives, RoundsFollow;
    EachFollows(A_1 + A_2, E_1 + E_2, K_1, W_1);
  }

  lemma Values2()
    ensures Gives(Hash(0xb0fa238e, 0xc0645fde, 0xd932eb16, 0x87912990, 0x07590dcd, 0x0b92f20c, 0x745a48de, 0x1e578218),
                  0xe49b69c1, 0x61626380, 0x21da9a9b, 0x8034229c)
    ensures Gives(Hash(0x21da9a9b, 0xb0fa238e, 0xc0645fde, 0xd932eb16, 0x8034229c, 0x07590dcd, 0x0b92f20c, 0x745a48de),
                  0xefbe4786, 0x000f0000, 0xc2fbd9d1, 0x846ee454)
    ensures Gives(Hash(0xc2fbd9d1, 0x21da9a9b, 0xb0fa238e, 0xc0645fde, 0x846ee454, 0x8034229c, 0x07590dcd, 0x0b92f20c),
                  0x0fc19dc6, 0x7da86405, 0xfe777bbf, 0xcc899961)
    ensures Gives(Hash(0xfe777bbf, 0xc2fbd9d1, 0x21da9a9b, 0xb0fa238e, 0xcc899961, 0x846ee454, 0x8034229c, 0x07590dcd),
                  0x240ca1cc, 0x600003c6, 0xe1f20c33, 0xb0638179)
    ensures Gives(Hash(0xe1f20c33, 0xfe777bbf, 0xc2fbd9d1, 0x21da9a9b, 0xb0638179, 0xcc899961, 0x846ee454, 0x8034229c),
                  0x2de92c6f, 0x3e9d7b78, 0x9dc68b63, 0x8ada8930)
    ensures Gives(Hash(0x9dc68b63, 0xe1f20c33, 0xfe777bbf, 0xc2fbd9d1, 0x8ada8930, 0xb0638179, 0xcc899961, 0x846ee454),
                  0x4a7484aa, 0x0183fc00, 0xc2606d6d, 0xe1257970)
    ensures Gives(Hash(0xc2606d6d, 0x9dc68b63, 0xe1f20c33, 0xfe777bbf, 0xe1257970, 0x8ada8930, 0xb0638179, 0xcc899961),
                  0x5cb0a9dc, 0x12dcbfdb, 0xa7a3623f, 0x49f5114a)
    ensures Gives(Hash(0xa7a3623f, 0xc2606d6d, 0x9dc68b63, 0xe1f20c33, 0x49f5114a, 0xe1257970, 0x8ada8930, 0xb0638179),
                  0x76f988da, 0xe2e2c38e, 0xc5d53d8d, 0xaa47c347)
  {
  }

  lemma Rounds2()
    ensures RoundsFollow(A_2 + A_3, E_2 + E_3, K_2, W_2)
  {
    Values2();
    hide Gives, RoundsFollow;
    EachFollows(A_2 + A_3, E_2 + E_3, K_2, W_2);
  }

  lemma Values3()
    ensures Gives(Hash(0xc5d53d8d, 0xa7a3623f, 0xc2606d6d, 0x9dc68b63, 0xaa47c347, 0x49f5114a, 0xe1257970, 0x8ada8930),
                  0x983e5152, 0xc8215c1a, 0x1c2c2838, 0x2823ef91)
    ensures Gives(Hash(0x1c2c2838, 0xc5d53d8d, 0xa7a3623f, 0xc2606d6d, 0x2823ef91, 0xaa47c347, 0x49f5114a, 0xe1257970),
                  0xa831c66d, 0xb73679a2, 0xcde8037d, 0x14383d8e)
    ensures Gives(Hash(0xcde8037d, 0x1c2c2838, 0xc5d53d8d, 0xa7a3623f, 0x14383d8e, 0x2823ef91, 0xaa47c347, 0x49f5114a),
                  0xb00327c8, 0xe5bc3909, 0xb62ec4bc, 0xc74c6516)
    ensures Gives(Hash(0xb62ec4bc, 0xcde8037d, 0x1c2c2838, 0xc5d53d8d, 0xc74c6516, 0x14383d8e, 0x2823ef91, 0xaa47c347),
                  0xbf597fc7, 0x32663c5b, 0x77d37528, 0xedffbff8)
    ensures Gives(Hash(0x77d37528, 0xb62ec4bc, 0xcde8037d, 0x1c2c2838, 0xedffbff8, 0xc74c6516, 0x14383d8e, 0x2823ef91),
                  0xc6e00bf3, 0x9d209d67, 0x363482c9, 0x6112a3b7)
    ensures Gives(Hash(0x363482c9, 0x77d37528, 0xb62ec4bc, 0xcde8037d, 0x6112a3b7, 0xedffbff8, 0xc74c6516, 0x14383d8e),
                  0xd5a79147, 0xec8726cb, 0xa0060b30, 0xade79437)
    ensures Gives(Hash(0xa0060b30, 0x363482c9, 0x77d37528, 0xb62ec4bc, 0xade79437, 0x6112a3b7, 0xedffbff8, 0xc74c6516),
                  0x06ca6351, 0x702138a4, 0xea992a22, 0x0109ab3a)
    ensures Gives(Hash(0xea992a22, 0xa0060b30, 0x363482c9, 0x77d37528, 0x0109ab3a, 0xade79437, 0x6112a3b7, 0xedffbff8),
                  0x14292967, 0xd3b7973b, 0x73b33bf5, 0xba591112)
  {
  }

  lemma Rounds3()
    ensures RoundsFollow(A_3 + A_4, E_3 + E_4, K_3, W_3)
  {
    Values3();
    hide Gives, RoundsFollow;
    EachFollows(A_3 + A_4, E_3 + E_4, K_3, W_3);
  }

  lemma Values4()
    ensures Gives(Hash(0x73b33bf5, 0xea992a22, 0xa0060b30, 0x363482c9, 0xba591112, 0x0109ab3a, 0xade79437, 0x6112a3b7),
                  0x27b70a85, 0x93f5997f, 0x98e12507, 0x9cd9f5f6)
    ensures Gives(Hash(0x98e12507, 0x73b33bf5, 0xea992a22, 0xa0060b30, 0x9cd9f5f6, 0xba591112, 0x0109ab3a, 0xade79437),
                  0x2e1b2138, 0x3b68ba73, 0xfe604df5, 0x59249dd3)
    ensures Gives(Hash(0xfe604df5, 0x98e12507, 0x73b33bf5, 0xea992a22, 0x59249dd3, 0x9cd9f5f6, 0xba591112, 0x0109ab3a),
                  0x4d2c6dfc, 0xaff4ffc1, 0xa9a7738c, 0x085f3833)
    ensures Gives(Hash(0xa9a7738c, 0xfe604df5, 0x98e12507, 0x73b33bf5, 0x085f3833, 0x59249dd3, 0x9cd9f5f6, 0xba591112),
                  0x53380d13, 0xf10a5c62, 0x65a0cfe4, 0xf4b002d6)
    ensures Gives(Hash(0x65a0cfe4, 0xa9a7738c, 0xfe604df5, 0x98e12507, 0xf4b002d6, 0x085f3833, 0x59249dd3, 0x9cd9f5f6),
                  0x650a7354, 0x0a8b3996, 0x41a65cb1, 0x0772a26b)
    ensures Gives(Hash(0x41a65cb1, 0x65a0cfe4, 0xa9a7738c, 0xfe604df5, 0x0772a26b, 0xf4b002d6, 0x085f3833, 0x59249dd3),
                  0x766a0abb, 0x72af830a, 0x34df1604, 0xa507a53d)
    ensures Gives(Hash(0x34df1604, 0x41a65cb1, 0x65a0cfe4, 0xa9a7738c, 0xa507a53d, 0x0772a26b, 0xf4b002d6, 0x085f3833),
                  0x81c2c92e, 0x9409e33e, 0x6dc57a8a, 0xf0781bc8)
    ensures Gives(Hash(0x6dc57a8a, 0x34df1604, 0x41a65cb1, 0x65a0cfe4, 0xf0781bc8, 0xa507a53d, 0x0772a26b, 0xf4b002d6),
                  0x92722c85, 0x24641522, 0x79ea687a, 0x1efbc0a0)
  {
  }

  lemma Rounds4()
    ensures RoundsFollow(A_4 + A_5, E_4 + E_5, K_4, W_4)
  {
    Values4();
    hide Gives, RoundsFollow;
    EachFollows(A_4 + A_5, E_4 + E_5, K_4, W_4);
  }

  lemma Values5()
    ensures Gives(Hash(0x79ea687a, 0x6dc57a8a, 0x34df1604, 0x41a65cb1, 0x1efbc0a0, 0xf0781bc8, 0xa507a53d, 0x0772a26b),
                  0xa2bfe8a1, 0x9f47bf94, 0xd6670766, 0x26352d63)
    ensures Gives(Hash(0xd6670766, 0x79ea687a, 0x6dc57a8a, 0x34df1604, 0x26352d63, 0x1efbc0a0, 0xf0781bc8, 0xa507a53d),
                  0xa81a664b, 0xf0a64f5a, 0xdf46652f, 0x838b2711)
    ensures Gives(Hash(0xdf46652f, 0xd6670766, 0x79ea687a, 0x6dc57a8a, 0x838b2711, 0x26352d63, 0x1efbc0a0, 0xf0781bc8),
                  0xc24b8b70, 0x3e246a79, 0x17aa0dfe, 0xdecd4715)
    ensures Gives(Hash(0x17aa0dfe, 0xdf46652f, 0xd6670766, 0x79ea687a, 0xdecd4715, 0x838b2711, 0x26352d63, 0x1efbc0a0),
                  0xc76c51a3, 0x27333ba3, 0x9d4baf93, 0xfda24c2e)
    ensures Gives(Hash(0x9d4baf93, 0x17aa0dfe, 0xdf46652f, 0xd6670766, 0xfda24c2e, 0xdecd4715, 0x838b2711, 0x26352d63),
                  0xd192e819, 0x0c4763f2, 0x26628815, 0xa80f11f0)
    ensures Gives(Hash(0x26628815, 0x9d4baf93, 0x17aa0dfe, 0xdf46652f, 0xa80f11f0, 0xfda24c2e, 0xdecd4715, 0x838b2711),
                  0xd6990624, 0x840abf27, 0x72ab4b91, 0xb7755da1)
    ensures Gives(Hash(0x72ab4b91, 0x26628815, 0x9d4baf93, 0x17aa0dfe, 0xb7755da1, 0xa80f11f0, 0xfda24c2e, 0xdecd4715),
                  0xf40e3585, 0x7a290d5d, 0xa14c14b0, 0xd57b94a9)
    ensures Gives(Hash(0xa14c14b0, 0x72ab4b91, 0x26628815, 0x9d4baf93, 0xd57b94a9, 0xb7755da1, 0xa80f11f0, 0xfda24c2e),
                  0x106aa070, 0x065c43da, 0x4172328d, 0xfecf0bc6)
  {
  }

  lemma Rounds5()
    ensures RoundsFollow(A_5 + A_6, E_5 + E_6, K_5, W_5)
  {
    Values5();
    hide Gives, RoundsFollow;
    EachFollows(A_5 + A_6, E_5 + E_6, K_5, W_5);
  }

  lemma Values6()
    ensures Gives(Hash(0x4172328d, 0xa14c14b0, 0x72ab4b91, 0x26628815, 0xfecf0bc6, 0xd57b94a9, 0xb7755da1, 0xa80f11f0),
                  0x19a4c116, 0xfb3e89cb, 0x05757ceb, 0xbd714038)
    ensures Gives(Hash(0x05757ceb, 0x4172328d, 0xa14c14b0, 0x72ab4b91, 0xbd714038, 0xfecf0bc6, 0xd57b94a9, 0xb7755da1),
                  0x1e376c08, 0xcc7617db, 0xf11bfaa8, 0x6e5c390c)
    ensures Gives(Hash(0xf11bfaa8, 0x05757ceb, 0x4172328d, 0xa14c14b0, 0x6e5c390c, 0xbd714038, 0xfecf0bc6, 0xd57b94a9),
                  0x2748774c, 0xb9e66c34, 0x7a0508a1, 0x52f1ccf7)
    ensures Gives(Hash(0x7a0508a1, 0xf11bfaa8, 0x05757ceb, 0x4172328d, 0x52f1ccf7, 0x6e5c390c, 0xbd714038, 0xfecf0bc6),
                  0x34b0bcb5, 0xa9993667, 0x886e7a22, 0x49231c1e)
    ensures Gives(Hash(0x886e7a22, 0x7a0508a1, 0xf11bfaa8, 0x05757ceb, 0x49231c1e, 0x52f1ccf7, 0x6e5c390c, 0xbd714038),
                  0x391c0cb3, 0x84badedd, 0x101fd28f, 0x529e7d00)
    ensures Gives(Hash(0x101fd28f, 0x886e7a22, 0x7a0508a1, 0xf11bfaa8, 0x529e7d00, 0x49231c1e, 0x52f1ccf7, 0x6e5c390c),
                  0x4ed8aa4a, 0xc21462bc, 0xf5702fdb, 0x9f4787c3)
    ensures Gives(Hash(0xf5702fdb, 0x101fd28f, 0x886e7a22, 0x7a0508a1, 0x9f4787c3, 0x529e7d00, 0x49231c1e, 0x52f1ccf7),
                  0x5b9cca4f, 0x1487472c, 0x3ec45cdb, 0xe50e1b4f)
    ensures Gives(Hash(0x3ec45cdb, 0xf5702fdb, 0x101fd28f, 0x886e7a22, 0xe50e1b4f, 0x9f4787c3, 0x529e7d00, 0x49231c1e),
                  0x682e6ff3, 0xb20f7a99, 0x38cc9913, 0x54cb266b)
  {
  }

  lemma Rounds6()
    ensures RoundsFollow(A_6 + A_7, E_6 + E_7, K_6, W_6)
  {
    Values6();
    hide Gives, RoundsFollow;
    EachFollows(A_6 + A_7, E_6 + E_7, K_6, W_6);
  }

  lemma Values7()
    ensures Gives(Hash(0x38cc9913, 0x3ec45cdb, 0xf5702fdb, 0x101fd28f, 0x54cb266b, 0xe50e1b4f, 0x9f4787c3, 0x529e7d00),
                  0x748f82ee, 0xef57b9cd, 0xfcd1887b, 0x9b5e906c)
    ensures Gives(Hash(0xfcd1887b, 0x38cc9913, 0x3ec45cdb, 0xf5702fdb, 0x9b5e906c, 0x54cb266b, 0xe50e1b4f, 0x9f4787c3),
                  0x78a5636f, 0xebe6b238, 0xc062d46f, 0x7e44008e)
    ensures Gives(Hash(0xc062d46f, 0xfcd1887b, 0x38cc9913, 0x3ec45cdb, 0x7e44008e, 0x9b5e906c, 0x54cb266b, 0xe50e1b4f),
                  0x84c87814, 0x9fe3095e, 0xffb70472, 0x6d83bfc6)
    ensures Gives(Hash(0xffb70472, 0xc062d46f, 0xfcd1887b, 0x38cc9913, 0x6d83bfc6, 0x7e44008e, 0x9b5e906c, 0x54cb266b),
                  0x8cc70208, 0x78bc8d4b, 0xb6ae8fff, 0xb21bad3d)
    ensures Gives(Hash(0xb6ae8fff, 0xffb70472, 0xc062d46f, 0xfcd1887b, 0xb21bad3d, 0x6d83bfc6, 0x7e44008e, 0x9b5e906c),
                  0x90befffa, 0xa43fcf15, 0xb85e2ce9, 0x961f4894)
    ensures Gives(Hash(0xb85e2ce9, 0xb6ae8fff, 0xffb70472, 0xc062d46f, 0x961f4894, 0xb21bad3d, 0x6d83bfc6, 0x7e44008e),
                  0xa4506ceb, 0x668b2ff8, 0x04d24d6c, 0x948d25b6)
    ensures Gives(Hash(0x04d24d6c, 0xb85e2ce9, 0xb6ae8fff, 0xffb70472, 0x948d25b6, 0x961f4894, 0xb21bad3d, 0x6d83bfc6),
                  0xbef9a3f7, 0xeeaba2cc, 0xd39a2165, 0xfb121210)
    ensures Gives(Hash(0xd39a2165, 0x04d24d6c, 0xb85e2ce9, 0xb6ae8fff, 0xfb121210, 0x948d25b6, 0x961f4894, 0xb21bad3d),
                  0xc67178f2, 0x12b1edeb, 0x506e3058, 0x5ef50f24)
  {
  }

  lemma Rounds7()
    ensures RoundsFollow(A_7 + A_8, E_7 + E_8, K_7, W_7)
  {
    Values7();
    hide Gives, RoundsFollow;
    EachFollows(A_7 + A_8, E_7 + E_8, K_7, W_7);
  }

  lemma ScheduleOfAbc(b: Block)
    requires IsAbc(b)
    ensures AreWords(b, 0, W_0)
    ensures AreWords(b, 8, W_1)
    ensures AreWords(b, 16, W_2)
    ensures AreWords(b, 24, W_3)
    ensures AreWords(b, 32, W_4)
    ensures AreWords(b, 40, W_5)
    ensures AreWords(b, 48, W_6)
    ensures AreWords(b, 56, W_7)
  {
    hide Follow, AreWords;
    FirstWords(b);
    Words2();
    EightMoreWords(b, 0, W_0, W_1, W_2);
    Words3();
    EightMoreWords(b, 8, W_1, W_2, W_3);
    Words4();
    EightMoreWords(b, 16, W_2, W_3, W_4);
    Words5();
    EightMoreWords(b, 24, W_3, W_4, W_5);
    Words6();
    EightMoreWords(b, 32, W_4, W_5, W_6);
    Words7();
    EightMoreWords(b, 40, W_5, W_6, W_7);
  }

  lemma RoundsOfAbc(b: Block)
    requires IsAbc(b)
    ensures Rounds(INITIAL, b, 64) == Variables(A_7 + A_8, E_7 + E_8, 8)
  {
    ScheduleOfAbc(b);
    ConstantRows();
    FirstVariables(b);
    hide AreWords, AreConstants, Rounds, RoundsFollow, Variables;
    Rounds0();
    EightMoreRounds(b, 0, A_0 + A_1, E_0 + E_1, K_0, W_0);
    SameVariables(A_0, A_1, A_2, E_0, E_1, E_2);
    Rounds1();
    EightMoreRounds(b, 8, A_1 + A_2, E_1 + E_2, K_1, W_1);
    SameVariables(A_1, A_2, A_3, E_1, E_2, E_3);
    Rounds2();
    EightMoreRounds(b, 16, A_2 + A_3, E_2 + E_3, K_2, W_2);
    SameVariables(A_2, A_3, A_4, E_2, E_3, E_4);
    Rounds3();
    EightMoreRounds(b, 24, A_3 + A_4, E_3 + E_4, K_3, W_3);
    SameVariables(A_3, A_4, A_5, E_3, E_4, E_5);
    Rounds4();
    EightMoreRounds(b, 32, A_4 + A_5, E_4 + E_5, K_4, W_4);
    SameVariables(A_4, A_5, A_6, E_4, E_5, E_6);
    Rounds5();
    EightMoreRounds(b, 40, A_5 + A_6, E_5 + E_6, K_5, W_5);
    SameVariables(A_5, A_6, A_7, E_5, E_6, E_7);
    Rounds6();
    EightMoreRounds(b, 48, A_6 + A_7, E_6 + E_7, K_6, W_6);
    SameVariables(A_6, A_7, A_8, E_6, E_7, E_8);
    Rounds7();
    EightMoreRounds(b, 56, A_7 + A_8, E_7 + E_8, K_7, W_7);
  }

  lemma FirstVariables(b: Block)
    ensures Rounds(INITIAL, b, 0) == Variables(A_0 + A_1, E_0 + E_1, 0)
  {
  }

  lemma SameVariables(a0: seq<bv32>, a1: seq<bv32>, a2: seq<bv32>, e0: seq<bv32>, e1: seq<bv32>, e2: seq<bv32>)
    requires |a0| == |a1| == |a2| == |e0| == |e1| == |e2| == 8
    ensures Variables(a0 + a1, e0 + e1, 8) == Variables(a1 + a2, e1 + e2, 0)
  {
  }

  /** The hash value of the block. */
  const ABC_HASH :=
    Hash(0xba7816bf, 0x8f01cfea, 0x414140de, 0x5dae2223, 0xb00361a3, 0x96177a9c, 0xb410ff61, 0xf20015ad)

  lemma CompressAbc(b: Block)
    requires IsAbc(b)
    ensures Compress(INITIAL, b) == ABC_HASH
  {
    RoundsOfAbc(b);
    hide Rounds;
  }

  lemma OneBlock(b: Block)
    ensures Blocks(b, 1) == Compress(INITIAL, b)
  {
    assert b[0..64] == b;
    BlockHashedFirst(Compress, INITIAL, b);
  }

  lemma BlockHashedFirst<H>(f: (H, Block) -> H, start: H, b: Block)
    requires b[0..64] == b
    ensures Chain(f, start, b, 1) == f(start, b)
  {
    assert Chain(f, start, b, 0) == start;
  }

  // ---- The bytes of the hash value ----------------------------------------

  lemma {:induction false} SerializedConcat(v: seq<bv32>, w: seq<bv32>)
    ensures Serialized(v + w) == Serialized(v) + Serialized(w)
  {
    hide WordBytes;
    if w == [] {
      assert v + w == v;
    } else {
      var k := |w| - 1;
      assert (v + w)[..|v + w| - 1] == v + w[..k];
      SerializedConcat(v, w[..k]);
    }
  }

  lemma SerializedPair(v: bv32, w: bv32)
    ensures Serialized([v, w]) == WordBytes(v) + WordBytes(w)
  {
    hide WordBytes;
    assert [v, w] == [v] + [w] && [v][..0] == [] && [w][..0] == [];
    SerializedConcat([v], [w]);
  }

  lemma SerializedFour(v: bv32, w: bv32, x: bv32, y: bv32)
    ensures Serialized([v, w, x, y]) == WordBytes(v) + WordBytes(w) + (WordBytes(x) + WordBytes(y))
  {
    hide WordBytes, Serialized;
    assert [v, w, x, y] == [v, w] + [x, y];
    SerializedConcat([v, w], [x, y]);
    SerializedPair(v, w);
    SerializedPair(x, y);
  }

  lemma BytesOfWords()
    ensures WordBytes(ABC_HASH.a) == [0xba, 0x78, 0x16, 0xbf]
    ensures WordBytes(ABC_HASH.b) == [0x8f, 0x01, 0xcf, 0xea]
    ensures WordBytes(ABC_HASH.c) == [0x41, 0x41, 0x40, 0xde]
    ensures WordBytes(ABC_HASH.d) == [0x5d, 0xae, 0x22, 0x23]
    ensures WordBytes(ABC_HASH.e) == [0xb0, 0x03, 0x61, 0xa3]
    ensures WordBytes(ABC_HASH.f) == [0x96, 0x17, 0x7a, 0x9c]
    ensures WordBytes(ABC_HASH.g) == [0xb4, 0x10, 0xff, 0x61]
    ensures WordBytes(ABC_HASH.h) == [0xf2, 0x00, 0x15, 0xad]
  {
  }

  /** The digest of "abc". */
  lemma DigestOfAbc()
    ensures Digest(ABC) ==
            ([0xba, 0x78, 0x16, 0xbf] + [0x8f, 0x01, 0xcf, 0xea] +
             ([0x41, 0x41, 0x40, 0xde] + [0x5d, 0xae, 0x22, 0x23])) +
            ([0xb0, 0x03, 0x61, 0xa3] + [0x96, 0x17, 0x7a, 0x9c] +
             ([0xb4, 0x10, 0xff, 0x61] + [0xf2, 0x00, 0x15, 0xad]))
  {
    hide Compress, Padded, WordBytes, Serialized, IsAbc;
    PaddedAbc();
    var p := Padded(ABC);
    OneBlock(p);
    CompressAbc(p);
    var s := ABC_HASH;
    assert [s.a, s.b, s.c, s.d, s.e, s.f, s.g, s.h] == [s.a, s.b, s.c, s.d] + [s.e, s.f, s.g, s.h];
    SerializedConcat([s.a, s.b, s.c, s.d], [s.e, s.f, s.g, s.h]);
    SerializedFour(s.a, s.b, s.c, s.d);
    SerializedFour(s.e, s.f, s.g, s.h);
    BytesOfWords();
  }
}
