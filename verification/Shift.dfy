/** Shifts of unsigned machine words, written over natural numbers. */
module Shift {

  const TWO32: nat := 0x1_0000_0000
  const TWO64: nat := 0x1_0000_0000_0000_0000

  /** x >> k */
  function Shr(x: nat, k: nat): nat
  {
    if k == 0 then x else Shr(x, k - 1) / 2
  }

  /** x << k on a 64-bit size_t: doubled k times, the carry out of bit 63 lost. */
  function Shl64(x: nat, k: nat): (r: nat)
    ensures r < TWO64
  {
    if k == 0 then x % TWO64 else Shl64(x, k - 1) * 2 % TWO64
  }

  function Pow2(k: nat): (p: nat)
    ensures p >= 1
  {
    if k == 0 then 1 else 2 * Pow2(k - 1)
  }

  /** The position of the highest set bit of x, what bsr computes. */
  function FloorLog2(x: nat): nat
  {
    if x < 2 then 0 else 1 + FloorLog2(x / 2)
  }

  lemma {:induction false} ShrMonotone(x: nat, y: nat, k: nat)
    requires x <= y
    ensures Shr(x, k) <= Shr(y, k)
  {
    if k > 0 {
      ShrMonotone(x, y, k - 1);
    }
  }

  lemma {:induction false} ShrCompose(x: nat, j: nat, k: nat)
    ensures Shr(Shr(x, j), k) == Shr(x, j + k)
  {
    if k > 0 {
      ShrCompose(x, j, k - 1);
    }
  }

  /** Two numbers that agree above bit j agree above every bit k >= j. */
  lemma ShrAgree(x: nat, y: nat, j: nat, k: nat)
    requires j <= k
    requires Shr(x, j) == Shr(y, j)
    ensures Shr(x, k) == Shr(y, k)
  {
    ShrCompose(x, j, k - j);
    ShrCompose(y, j, k - j);
  }

  lemma {:induction false} ShrOfZero(k: nat)
    ensures Shr(0, k) == 0
  {
    if k > 0 {
      ShrOfZero(k - 1);
    }
  }

  lemma {:induction false} FloorLog2Spec(x: nat)
    requires x > 0
    ensures Shr(x, FloorLog2(x)) == 1
  {
    if x >= 2 {
      FloorLog2Spec(x / 2);
      assert Shr(x, 1) == x / 2;
      ShrCompose(x, 1, FloorLog2(x / 2));
    }
  }

  lemma ShrPastOne(x: nat, k: nat, l: nat)
    requires Shr(x, k) == 1 && k < l
    ensures Shr(x, l) == 0
  {
    ShrCompose(x, k + 1, l - k - 1);
    ShrOfZero(l - k - 1);
  }

  /** Only one shift brings x down to 1. */
  lemma FloorLog2Unique(x: nat, k: nat)
    requires Shr(x, k) == 1
    ensures x > 0 && FloorLog2(x) == k
  {
    if x == 0 {
      ShrOfZero(k);
    } else {
      FloorLog2Spec(x);
      if FloorLog2(x) < k {
        ShrPastOne(x, FloorLog2(x), k);
      } else if k < FloorLog2(x) {
        ShrPastOne(x, k, FloorLog2(x));
      }
    }
  }

  /** Doubling moves every bit up by one place. */
  lemma ShrOfDouble(x: nat, k: nat)
    requires k > 0
    ensures Shr(2 * x, k) == Shr(x, k - 1)
  {
    assert Shr(2 * x, 1) == x;
    ShrCompose(2 * x, 1, k - 1);
  }

  /** Multiplying by 1 << j is undone by a shift. */
  lemma {:induction false} ShrScaled(x: nat, j: nat, k: nat)
    ensures Shr(x * Pow2(j), j + k) == Shr(x, k)
  {
    if j > 0 {
      assert x * Pow2(j) == 2 * (x * Pow2(j - 1));
      ShrOfDouble(x * Pow2(j - 1), j + k);
      ShrScaled(x, j - 1, k);
    }
  }

  /** Adding bit m leaves the bits below it alone. */
  lemma {:induction false} ShrPlusPow2(x: nat, m: nat, k: nat)
    requires k <= m
    ensures Shr(x + Pow2(m), k) == Shr(x, k) + Pow2(m - k)
  {
    if k > 0 {
      ShrPlusPow2(x, m, k - 1);
    }
  }

  lemma {:induction false} Pow2Scale(j: nat, k: nat)
    ensures Pow2(j + k) == Pow2(j) * Pow2(k)
  {
    if k > 0 {
      Pow2Scale(j, k - 1);
      assert Pow2(j + k) == 2 * Pow2(j + (k - 1));
    }
  }

  /** A shift is a division. */
  lemma {:induction false} ShrIsDiv(x: nat, k: nat)
    ensures Shr(x, k) == x / Pow2(k)
  {
    if k > 0 {
      ShrIsDiv(x, k - 1);
      DivTwice(x, Pow2(k - 1));
    }
  }

  lemma DivTwice(x: nat, p: nat)
    requires p > 0
    ensures x / p / 2 == x / (2 * p)
  {
    var q, r := x / p, x % p;
    assert x == q * p + r;
    var d := q / 2 * p;
    assert x == 2 * d + (q % 2) * p + r by {
      assert q * p == (2 * (q / 2) + q % 2) * p == 2 * d + (q % 2) * p;
    }
    assert q % 2 == 0 || q % 2 == 1;
    assert 0 <= (q % 2) * p + r < 2 * p;
    QuotientIs(x, q / 2, 2 * p);
  }

  lemma QuotientIs(x: int, q: int, d: int)
    requires d > 0 && q * d <= x < q * d + d
    ensures x / d == q
  {
    var k := x / d - q;
    assert (x / d) * d <= x < (x / d) * d + d;
    assert k * d == (x / d) * d - q * d;
    assert -d < k * d < d;
    assert k == 0 by {
      assert k >= 1 ==> k * d >= d;
      assert k <= -1 ==> k * d <= -d;
    }
  }

  lemma Pow2At64()
    ensures Pow2(16) == 0x1_0000 && Pow2(32) == 0x1_0000_0000 && Pow2(64) == TWO64
  {
    assert Pow2(2) == 4;
    Pow2Scale(2, 2);
    Pow2Scale(4, 4);
    Pow2Scale(8, 8);
    assert Pow2(16) == 0x1_0000;
    Pow2Scale(16, 16);
    assert Pow2(32) == 0x1_0000_0000;
    Pow2Scale(32, 32);
  }

  /** Bit k of a doubled 64-bit word is bit k - 1 of the word, carry or not. */
  lemma DoubleBit(y: nat, k: nat)
    requires y < TWO64 && 0 < k < 64
    ensures Shr(y * 2 % TWO64, k) % 2 == Shr(y, k - 1) % 2
  {
    ShrOfDouble(y, k);
    if y * 2 >= TWO64 {
      DropCarry(y * 2 - TWO64, k);
    }
  }

  lemma DropCarry(r: nat, k: nat)
    requires k < 64
    ensures Shr(r + TWO64, k) % 2 == Shr(r, k) % 2
  {
    Pow2At64();
    DropHighBit(r, 64, k);
  }

  lemma DropHighBit(r: nat, m: nat, k: nat)
    requires k < m
    ensures Shr(r + Pow2(m), k) % 2 == Shr(r, k) % 2
  {
    ShrPlusPow2(r, m, k);
    assert Pow2(m - k) == 2 * Pow2(m - k - 1);
  }

  /** Bit j of x << k is bit j - k of x. */
  lemma {:induction false} ShlBit(x: nat, k: nat, j: nat)
    requires x < TWO64 && k <= j < 64
    ensures Shr(Shl64(x, k), j) % 2 == Shr(x, j - k) % 2
  {
    if k > 0 {
      DoubleBit(Shl64(x, k - 1), j);
      ShlBit(x, k - 1, j - 1);
    }
  }
}
