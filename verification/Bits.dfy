/** Bitwise operations on unsigned numbers, with the facts about single bits used elsewhere. */
module Bits {

  /** `1 << k`. */
  function One(k: nat): (r: nat)
    ensures r >= 1
  {
    if k == 0 then 1 else 2 * One(k - 1)
  }

  /** `a | b`. */
  function Or(a: nat, b: nat): nat {
    if a == 0 && b == 0 then 0
    else 2 * Or(a / 2, b / 2) + if a % 2 == 1 || b % 2 == 1 then 1 else 0
  }

  /** `a & b`. */
  function And(a: nat, b: nat): nat {
    if a == 0 || b == 0 then 0
    else 2 * And(a / 2, b / 2) + if a % 2 == 1 && b % 2 == 1 then 1 else 0
  }

  /** Bit `k` of `a` is set. */
  predicate Bit(a: nat, k: nat) {
    if k == 0 then a % 2 == 1 else Bit(a / 2, k - 1)
  }

  lemma {:induction false} ZeroHasNoBits(k: nat)
    ensures !Bit(0, k)
  {
    if k > 0 {
      ZeroHasNoBits(k - 1);
    }
  }

  lemma {:induction false} OrHasBothBits(a: nat, b: nat, k: nat)
    ensures Bit(Or(a, b), k) <==> Bit(a, k) || Bit(b, k)
  {
    if k > 0 {
      assert Or(a, b) / 2 == Or(a / 2, b / 2);
      OrHasBothBits(a / 2, b / 2, k - 1);
    }
  }

  lemma {:induction false} OneHasOneBit(j: nat, k: nat)
    ensures Bit(One(j), k) <==> j == k
  {
    if j > 0 && k > 0 {
      OneHasOneBit(j - 1, k - 1);
    } else if k > 0 {
      ZeroHasNoBits(k - 1);
    }
  }

  /** All ones but one. */
  lemma {:induction false} OnesWithoutOne(width: nat, k: nat, j: nat)
    requires k < width
    ensures One(k) < One(width)
    ensures Bit(One(width) - 1 - One(k), j) <==> j < width && j != k
  {
    OneGrows(k, width);
    if k == 0 {
      if j > 0 {
        Ones(width - 1, j - 1);
        assert (One(width) - 2) / 2 == One(width - 1) - 1;
      }
    } else {
      OnesWithoutOne(width - 1, k - 1, if j == 0 then 0 else j - 1);
      assert (One(width) - 1 - One(k)) / 2 == One(width - 1) - 1 - One(k - 1);
    }
  }

  lemma {:induction false} Ones(width: nat, j: nat)
    ensures Bit(One(width) - 1, j) <==> j < width
  {
    if width == 0 {
      ZeroHasNoBits(j);
    } else if j > 0 {
      Ones(width - 1, j - 1);
      assert (One(width) - 1) / 2 == One(width - 1) - 1;
    }
  }

  /** Masking with a power of two tests one bit. */
  lemma {:induction false} AndOneTestsBit(a: nat, k: nat)
    ensures And(a, One(k)) != 0 <==> Bit(a, k)
  {
    if a == 0 {
      ZeroHasNoBits(k);
    } else if k == 0 {
      assert One(0) / 2 == 0;
    } else {
      assert One(k) / 2 == One(k - 1) && One(k) % 2 == 0;
      AndOneTestsBit(a / 2, k - 1);
    }
  }

  lemma {:induction false} OrStaysBelow(a: nat, b: nat, width: nat)
    requires a < One(width) && b < One(width)
    ensures Or(a, b) < One(width)
  {
    if width > 0 {
      OrStaysBelow(a / 2, b / 2, width - 1);
    }
  }

  lemma {:induction false} OneGrows(j: nat, k: nat)
    requires j < k
    ensures One(j) < One(k)
  {
    if j > 0 {
      OneGrows(j - 1, k - 1);
    }
  }

  lemma SixteenBits()
    ensures One(16) == 0x1_0000
  {
    assert One(4) == 16;
    assert One(8) == 256;
    assert One(12) == 4096;
  }

  lemma {:induction false} OneAdds(j: nat, k: nat)
    ensures One(j + k) == One(j) * One(k)
  {
    if j > 0 {
      OneAdds(j - 1, k);
    }
  }
}
