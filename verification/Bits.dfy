/** Powers of two, bits of natural numbers and the C bit operators on them. */
module Bits {

  function Pow2(n: nat): (p: nat)
    ensures p > 0
  {
    if n == 0 then 1 else 2 * Pow2(n - 1)
  }

  /** Bit `i` of `a`, counted from the least significant bit. */
  function Bit(a: nat, i: nat): nat {
    if i == 0 then a % 2 else Bit(a / 2, i - 1)
  }

  /** The C operator `|`. */
  function Or(a: nat, b: nat): nat
    decreases a
  {
    if a == 0 then b
    else (if a % 2 == 1 || b % 2 == 1 then 1 else 0) + 2 * Or(a / 2, b / 2)
  }

  /** The C operator `^`. */
  function Xor(a: nat, b: nat): nat
    decreases a
  {
    if a == 0 then b
    else (if a % 2 == b % 2 then 0 else 1) + 2 * Xor(a / 2, b / 2)
  }

  /** The C operator `<<`, before truncation to a register. */
  function Shl(a: nat, n: nat): nat {
    if n == 0 then a else 2 * Shl(a, n - 1)
  }

  /** The `n` low bits of `a`: what an n-bit register keeps of it. */
  function Low(a: nat, n: nat): nat {
    if n == 0 then 0 else a % 2 + 2 * Low(a / 2, n - 1)
  }

  /** The C operator `>>`. */
  function Shr(a: nat, n: nat): nat {
    if n == 0 then a else Shr(a / 2, n - 1)
  }

  lemma {:induction false} Pow2Mono(a: nat, b: nat)
    requires a <= b
    ensures Pow2(a) <= Pow2(b)
  {
    if a != b {
      Pow2Mono(a, b - 1);
    }
  }

  lemma Pow2Seven(n: nat)
    ensures Pow2(n + 7) == 128 * Pow2(n)
  {
    assert Pow2(n + 7) == 2 * Pow2(n + 6) == 4 * Pow2(n + 5) == 8 * Pow2(n + 4);
    assert Pow2(n + 4) == 2 * Pow2(n + 3) == 4 * Pow2(n + 2) == 8 * Pow2(n + 1);
  }

  lemma Pow2Eight(n: nat)
    ensures Pow2(n + 8) == 256 * Pow2(n)
  {
    Pow2Seven(n);
    assert Pow2(n + 8) == 2 * Pow2(n + 7);
  }

  lemma Pow2At32(n: nat)
    requires n == 32
    ensures Pow2(n) == 0x1_0000_0000
  {
    Pow2Eight(0);
    Pow2Eight(8);
    Pow2Eight(16);
    Pow2Eight(24);
  }

  lemma Pow2At64(n: nat)
    requires n == 64
    ensures Pow2(n) == 0x1_0000_0000_0000_0000
  {
    Pow2At32(32);
    Pow2Eight(32);
    Pow2Eight(40);
    Pow2Eight(48);
    Pow2Eight(56);
  }

  lemma {:induction false} ShlAdd(a: nat, b: nat, n: nat)
    ensures Shl(a + b, n) == Shl(a, n) + Shl(b, n)
  {
    if n != 0 {
      ShlAdd(a, b, n - 1);
    }
  }

  lemma {:induction false} ShlDouble(a: nat, n: nat)
    ensures Shl(2 * a, n) == Shl(a, n + 1)
  {
    if n != 0 {
      ShlDouble(a, n - 1);
    }
  }

  lemma ShlSeven(a: nat, n: nat)
    ensures Shl(128 * a, n) == Shl(a, n + 7)
  {
    ShlDouble(64 * a, n);
    ShlDouble(32 * a, n + 1);
    ShlDouble(16 * a, n + 2);
    ShlDouble(8 * a, n + 3);
    ShlDouble(4 * a, n + 4);
    ShlDouble(2 * a, n + 5);
    ShlDouble(a, n + 6);
  }

  /** Splitting off the seven low bits of a shifted value. */
  lemma ShlSplit(v: nat, n: nat)
    ensures Shl(v, n) == Shl(v % 128, n) + Shl(v / 128, n + 7)
  {
    ShlAdd(v % 128, 128 * (v / 128), n);
    ShlSeven(v / 128, n);
  }

  lemma {:induction false} ShlBound(a: nat, m: nat, n: nat)
    requires a < Pow2(m)
    ensures Shl(a, n) + Pow2(n) <= Pow2(m + n)
  {
    if n != 0 {
      ShlBound(a, m, n - 1);
    }
  }

  lemma {:induction false} LowIsSmall(a: nat, n: nat)
    ensures Low(a, n) < Pow2(n)
    ensures Low(a, n) <= a
    ensures a < Pow2(n) ==> Low(a, n) == a
  {
    if n != 0 {
      LowIsSmall(a / 2, n - 1);
    }
  }

  /** Truncation commutes with adding above the cut. */
  lemma {:induction false} LowAddHigh(a: nat, b: nat, n: nat)
    ensures Low(a + Shl(b, n), n) == Low(a, n)
  {
    if n != 0 {
      assert (a + Shl(b, n)) % 2 == a % 2 && (a + Shl(b, n)) / 2 == a / 2 + Shl(b, n - 1);
      LowAddHigh(a / 2, b, n - 1);
    }
  }

  lemma {:induction false} LowLow(a: nat, m: nat, n: nat)
    requires m <= n
    ensures Low(Low(a, n), m) == Low(a, m)
  {
    if m != 0 {
      assert Low(a, n) % 2 == a % 2 && Low(a, n) / 2 == Low(a / 2, n - 1);
      LowLow(a / 2, m - 1, n - 1);
    }
  }

  lemma {:induction false} LowOfShl(a: nat, k: nat, n: nat)
    requires k <= n
    ensures Low(Shl(a, k), n) == Shl(Low(a, n - k), k)
  {
    if k != 0 {
      assert Shl(a, k) % 2 == 0 && Shl(a, k) / 2 == Shl(a, k - 1);
      LowOfShl(a, k - 1, n - 1);
    }
  }

  /** Truncation distributes over `|`. */
  lemma {:induction false} LowOfOr(a: nat, b: nat, n: nat)
    ensures Low(Or(a, b), n) == Or(Low(a, n), Low(b, n))
  {
    if a == 0 {
      LowIsSmall(0, n);
    } else if n != 0 {
      LowOfOr(a / 2, b / 2, n - 1);
      var low := if a % 2 == 1 || b % 2 == 1 then 1 else 0;
      assert Or(a, b) % 2 == low && Or(a, b) / 2 == Or(a / 2, b / 2);
      assert Low(a, n) == 0 ==> Low(a / 2, n - 1) == 0 && a % 2 == 0;
      assert Low(a, n) % 2 == a % 2 && Low(a, n) / 2 == Low(a / 2, n - 1);
      assert Low(b, n) % 2 == b % 2 && Low(b, n) / 2 == Low(b / 2, n - 1);
    }
  }

  lemma {:induction false} ShlZero(n: nat)
    ensures Shl(0, n) == 0 && Shl(1, n) == Pow2(n)
  {
    if n != 0 {
      ShlZero(n - 1);
    }
  }

  /** Or-ing a value above bit `k` into a value below bit `k` adds them. */
  lemma {:induction false} OrDisjoint(a: nat, b: nat, k: nat)
    requires a < Pow2(k)
    ensures Or(a, Shl(b, k)) == a + Shl(b, k)
  {
    if a != 0 && k != 0 {
      OrDisjoint(a / 2, b, k - 1);
    }
  }

  lemma {:induction false} XorDisjoint(a: nat, b: nat, k: nat)
    requires a < Pow2(k)
    ensures Xor(a, Shl(b, k)) == a + Shl(b, k)
  {
    if a != 0 && k != 0 {
      XorDisjoint(a / 2, b, k - 1);
    }
  }

  lemma {:induction false} OrBound(a: nat, b: nat, n: nat)
    requires a < Pow2(n) && b < Pow2(n)
    ensures Or(a, b) < Pow2(n)
  {
    if a != 0 && n != 0 {
      OrBound(a / 2, b / 2, n - 1);
    }
  }

  lemma {:induction false} OrBit(a: nat, b: nat, i: nat)
    ensures Bit(Or(a, b), i) == if Bit(a, i) == 1 || Bit(b, i) == 1 then 1 else 0
    decreases a, i
  {
    BitOfZero(i);
    if a != 0 {
      var low := if a % 2 == 1 || b % 2 == 1 then 1 else 0;
      assert Or(a, b) == low + 2 * Or(a / 2, b / 2);
      assert Or(a, b) % 2 == low && Or(a, b) / 2 == Or(a / 2, b / 2);
      if i != 0 {
        OrBit(a / 2, b / 2, i - 1);
      }
    } else {
      BitIsBinary(b, i);
    }
  }

  lemma {:induction false} BitIsBinary(a: nat, i: nat)
    ensures Bit(a, i) == 0 || Bit(a, i) == 1
  {
    if i != 0 {
      BitIsBinary(a / 2, i - 1);
    }
  }

  lemma {:induction false} BitOfZero(i: nat)
    ensures Bit(0, i) == 0
  {
    if i != 0 {
      BitOfZero(i - 1);
    }
  }

  /** A single set bit, as produced by `1 << k`. */
  lemma {:induction false} BitOfPow2(k: nat, i: nat)
    ensures Bit(Pow2(k), i) == if i == k then 1 else 0
  {
    if k == 0 {
      if i != 0 {
        BitOfZero(i - 1);
      }
    } else {
      assert Pow2(k) % 2 == 0 && Pow2(k) / 2 == Pow2(k - 1);
      if i != 0 {
        BitOfPow2(k - 1, i - 1);
      }
    }
  }

  /** The mask of the `k` lowest bits, as produced by `allbits >> (32 - k)`. */
  lemma {:induction false} BitOfMask(k: nat, i: nat)
    ensures Bit(Pow2(k) - 1, i) == if i < k then 1 else 0
  {
    if k == 0 {
      BitOfZero(i);
    } else {
      assert Pow2(k) - 1 == 2 * (Pow2(k - 1) - 1) + 1;
      if i != 0 {
        BitOfMask(k - 1, i - 1);
      }
    }
  }

  /** Two n-bit words with the same bits are equal. */
  lemma {:induction false} BitsExtensional(a: nat, b: nat, n: nat)
    requires a < Pow2(n) && b < Pow2(n)
    requires forall i: nat | i < n :: Bit(a, i) == Bit(b, i)
    ensures a == b
  {
    if n != 0 {
      assert Bit(a, 0) == Bit(b, 0);
      forall i: nat | i < n - 1
        ensures Bit(a / 2, i) == Bit(b / 2, i)
      {
        assert Bit(a, i + 1) == Bit(b, i + 1);
      }
      BitsExtensional(a / 2, b / 2, n - 1);
    }
  }

  lemma ShrSeven(a: nat, n: nat)
    ensures Shr(a, n + 7) == Shr(a / 128, n)
  {
    assert Shr(a, n + 7) == Shr(a / 2, n + 6) == Shr(a / 4, n + 5) == Shr(a / 8, n + 4);
    assert Shr(a / 8, n + 4) == Shr(a / 16, n + 3) == Shr(a / 32, n + 2) == Shr(a / 64, n + 1);
  }

  lemma {:induction false} ShrBound(a: nat, m: nat, n: nat)
    requires a < Pow2(m + n)
    ensures Shr(a, n) < Pow2(m)
  {
    if n != 0 {
      ShrBound(a / 2, m, n - 1);
    }
  }

  lemma {:induction false} ShrPositive(a: nat, n: nat)
    ensures Shr(a, n) >= 1 <==> a >= Pow2(n)
  {
    if n != 0 {
      ShrPositive(a / 2, n - 1);
    }
  }
}
