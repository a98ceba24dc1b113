/** Which treebin a chunk size belongs to, and the levels of a treebin's trie. */
module TreeIndex {
  import opened Shift

  const NTREEBINS: nat := 32
  const TREEBIN_SHIFT: nat := 8

  /** compute_tree_index, with the position of the highest bit found by bsr. */
  function OfSize(s: nat): (i: nat)
    requires s < TWO64
    ensures i < NTREEBINS
  {
    var x := Shr(s, TREEBIN_SHIFT);
    if x == 0 then 0
    else if x > 0xFFFF then NTREEBINS - 1
    else
      var k := FloorLog2(x);
      Log2Below16(x);
      2 * k + Shr(s, k + (TREEBIN_SHIFT - 1)) % 2
  }

  /** Subtraction and left shift of an unsigned int. */
  function Sub32(x: nat, y: nat): nat
    requires x < TWO32 && y < TWO32
  {
    (x - y + TWO32) % TWO32
  }

  function Shl32(x: nat, k: nat): nat
  {
    x * Pow2(k) % TWO32
  }

  /** x & (1 << k) */
  function OneBit(x: nat, k: nat): nat
  {
    if Shr(x, k) % 2 == 1 then Pow2(k) else 0
  }

  /** The highest set bit of x, found without a branch: shift x up while counting what it took. */
  function HighestBit(x: nat): int
    requires x < TWO32
  {
    var n := OneBit(Shr(Sub32(x, 0x100), 16), 3);
    var y1 := Shl32(x, n);
    var k1 := OneBit(Shr(Sub32(y1, 0x1000), 16), 2);
    var y2 := Shl32(y1, k1);
    var k2 := OneBit(Shr(Sub32(y2, 0x4000), 16), 1);
    var y3 := Shl32(y2, k2);
    14 - (n + k1 + k2) + Shr(y3, 15)
  }

  /** compute_tree_index as the portable macro has it. */
  function OfSizeBranchFree(s: nat): int
    requires s < TWO64
  {
    var x := Shr(s, TREEBIN_SHIFT);
    if x == 0 then 0
    else if x > 0xFFFF then NTREEBINS - 1
    else
      var k := HighestBit(x);
      if k < 0 then -1 else 2 * k + Shr(s, k + (TREEBIN_SHIFT - 1)) % 2
  }

  /** compute_tree_index as the gcc/x86 macro has it: x is an unsigned int there. */
  function OfSizeNarrow(s: nat): int
    requires s < TWO64
  {
    var x := Shr(s, TREEBIN_SHIFT) % TWO32;
    if x == 0 then 0
    else if x > 0xFFFF then NTREEBINS - 1
    else var k := FloorLog2(x); 2 * k + Shr(s, k + (TREEBIN_SHIFT - 1)) % 2
  }

  /** minsize_for_tree_index */
  function MinSize(i: nat): nat
  {
    Pow2(i / 2 + TREEBIN_SHIFT) + (if i % 2 == 1 then Pow2(i / 2 + TREEBIN_SHIFT - 1) else 0)
  }

  lemma Pow2Small()
    ensures Pow2(0) == 1 && Pow2(1) == 2 && Pow2(2) == 4 && Pow2(3) == 8 && Pow2(4) == 16
    ensures Pow2(5) == 32 && Pow2(6) == 64 && Pow2(7) == 128 && Pow2(8) == 0x100
    ensures Pow2(9) == 0x200 && Pow2(10) == 0x400 && Pow2(11) == 0x800 && Pow2(12) == 0x1000
    ensures Pow2(13) == 0x2000 && Pow2(14) == 0x4000 && Pow2(15) == 0x8000 && Pow2(16) == 0x1_0000
  {
    assert Pow2(2) == 4;
    assert Pow2(4) == 16;
    assert Pow2(6) == 64;
    assert Pow2(8) == 0x100;
    assert Pow2(10) == 0x400;
    assert Pow2(12) == 0x1000;
    assert Pow2(14) == 0x4000;
  }

  /** x >> k is one exactly between two consecutive powers of two. */
  lemma {:induction false} ShrIsOne(x: nat, k: nat)
    ensures Shr(x, k) == 1 <==> Pow2(k) <= x < 2 * Pow2(k)
    ensures Shr(x, k) == 2 <==> 2 * Pow2(k) <= x < 3 * Pow2(k)
    ensures Shr(x, k) == 3 <==> 3 * Pow2(k) <= x < 4 * Pow2(k)
  {
    if k > 0 {
      assert Shr(x, 1) == x / 2;
      ShrCompose(x, 1, k - 1);
      ShrIsOne(x / 2, k - 1);
    }
  }

  lemma Log2Below16(x: nat)
    requires 0 < x <= 0xFFFF
    ensures FloorLog2(x) < 16
  {
    var k := FloorLog2(x);
    if k >= 16 {
      Pow2Small();
      FloorLog2Spec(x);
      ShrIsOne(x, 15);
      ShrCompose(x, 16, k - 16);
      ShrOfZero(k - 16);
      ShrMonotone(x, 0xFFFF, 16);
      TopBit();
    }
  }

  lemma TopBit()
    ensures Shr(0xFFFF, 16) == 0
  {
    Pow2Small();
    ShrIsOne(0xFFFF, 15);
  }

  // ---------------------------------------------------------------------------
  // The three forms of the macro

  /** One halving step of the branch-free search: bit k of the borrow tells whether y < bound. */
  lemma BorrowBit(y: nat, bound: nat, k: nat)
    requires y < 0x1_0000 && bound < 0x1_0000 && k < 16
    ensures OneBit(Shr(Sub32(y, bound), 16), k) == if y < bound then Pow2(k) else 0
  {
    hide Shr, Pow2, Sub32;
    Borrows(y, bound);
    Shr16(Sub32(y, bound));
    OnesOdd(k);
    ShrOfZero(k);
  }

  lemma OnesOdd(k: nat)
    requires k < 16
    ensures Shr(0xFFFF, k) % 2 == 1
  {
    AllOnes(k);
    assert Pow2(16 - k) == 2 * Pow2(15 - k);
    hide Shr, Pow2;
    OddBelow(Pow2(15 - k));
  }

  lemma OddBelow(p: nat)
    requires p > 0
    ensures (2 * p - 1) % 2 == 1
  {
    assert 2 * p - 1 == 2 * (p - 1) + 1;
  }

  lemma Borrows(y: nat, bound: nat)
    requires y < 0x1_0000 && bound < 0x1_0000
    ensures Sub32(y, bound) / 0x1_0000 == if y < bound then 0xFFFF else 0
  {
    var d := Sub32(y, bound);
    if y < bound {
      assert d == TWO32 - bound + y;
      QuotientIs(d, 0xFFFF, 0x1_0000);
    } else {
      assert d == y - bound;
      QuotientIs(d, 0, 0x1_0000);
    }
  }

  lemma Shr16(x: nat)
    ensures Shr(x, 16) == x / 0x1_0000
  {
    Pow2Small();
    ShrIsDiv(x, 16);
  }

  lemma {:induction false} AllOnes(k: nat)
    requires k <= 16
    ensures Shr(0xFFFF, k) == Pow2(16 - k) - 1
  {
    Pow2Small();
    if k > 0 {
      AllOnes(k - 1);
    }
  }

  lemma BranchFreeStep(y: nat, bound: nat, k: nat, scale: nat) returns (z: nat)
    requires 0 < y < 0x1_0000 && bound < 0x1_0000
    requires k < 4 && scale == Pow2(Pow2(k)) && bound * scale == 0x1_0000
    ensures z == if y < bound then y * scale else y
    ensures z == Shl32(y, OneBit(Shr(Sub32(y, bound), 16), k))
    ensures 0 < z < 0x1_0000
  {
    BorrowBit(y, bound, k);
    if y < bound {
      hide OneBit, Shr, Sub32, Pow2;
      z := y * scale;
      LessTimes(y, bound, scale);
    } else {
      z := y;
      assert Pow2(0) == 1;
    }
  }

  lemma LessTimes(x: nat, y: nat, s: nat)
    requires 0 < x < y && s > 0
    ensures 0 < x * s < y * s
  {
    assert (y - x) * s > 0;
  }

  /** The branch-free search finds the highest bit. */
  lemma HighestBitIsLog2(x: nat)
    requires 0 < x <= 0xFFFF
    ensures HighestBit(x) == FloorLog2(x)
  {
    Pow2Small();
    var y1 := BranchFreeStep(x, 0x100, 3, 0x100);
    BorrowBit(x, 0x100, 3);
    var y2 := BranchFreeStep(y1, 0x1000, 2, 0x10);
    BorrowBit(y1, 0x1000, 2);
    var y3 := BranchFreeStep(y2, 0x4000, 1, 4);
    BorrowBit(y2, 0x4000, 1);
    var n := if x < 0x100 then 8 else 0;
    var k1 := if y1 < 0x1000 then 4 else 0;
    var k2 := if y2 < 0x4000 then 2 else 0;
    assert HighestBit(x) == 14 - (n + k1 + k2) + Shr(y3, 15);
    assert y3 == x * Pow2(n + k1 + k2);
    BranchFreeTail(x, y3, 14 - (n + k1 + k2));
  }

  /** The portable form of the macro is the one by bsr. */
  lemma BranchFreeIsOfSize(s: nat)
    requires s < TWO64
    ensures OfSizeBranchFree(s) == OfSize(s)
  {
    var x := Shr(s, TREEBIN_SHIFT);
    if 0 < x <= 0xFFFF {
      HighestBitIsLog2(x);
    }
  }

  lemma BranchFreeTail(x: nat, y: nat, k: nat)
    requires k <= 14
    requires y == x * Pow2(14 - k) && 0x4000 <= y < 0x1_0000
    ensures FloorLog2(x) == k + Shr(y, 15)
  {
    Pow2Small();
    ShrScaled(x, 14 - k, k);
    ShrScaled(x, 14 - k, k + 1);
    ShrIsDiv(y, 14);
    if Shr(y, 15) == 0 {
      FloorLog2Unique(x, k);
    } else {
      FloorLog2Unique(x, k + 1);
    }
  }

  /** The narrowing macro agrees with the size_t one exactly outside these sizes. */
  lemma NarrowAgrees(s: nat)
    requires s < TWO64
    ensures OfSizeNarrow(s) == OfSize(s) <==>
            Shr(s, 8) < TWO32 || Shr(s, 8) % TWO32 >= 0xC000
  {
    var x := Shr(s, 8) % TWO32;
    if Shr(s, 8) >= TWO32 && 0 < x <= 0xFFFF {
      NarrowIsLast(s);
    }
  }

  /** A narrowed index is 31 only for the upper half of the last octave. */
  lemma NarrowIsLast(s: nat)
    requires s < TWO64 && 0 < Shr(s, 8) % TWO32 <= 0xFFFF
    ensures OfSizeNarrow(s) == 31 <==> Shr(s, 8) % TWO32 >= 0xC000
  {
    var x := Shr(s, 8) % TWO32;
    Log2Below16(x);
    LastOctave(x);
    if x >= 0x8000 {
      NarrowTopBit(s);
    }
  }

  lemma LastOctave(x: nat)
    requires 0 < x <= 0xFFFF
    ensures FloorLog2(x) == 15 <==> x >= 0x8000
  {
    Pow2Small();
    ShrIsOne(x, 15);
    FloorLog2Spec(x);
    if x >= 0x8000 {
      FloorLog2Unique(x, 15);
    }
  }

  lemma NarrowTopBit(s: nat)
    requires 0x8000 <= Shr(s, 8) % TWO32 <= 0xFFFF
    ensures Shr(s, 22) % 2 == if Shr(s, 8) % TWO32 >= 0xC000 then 1 else 0
  {
    var x := Shr(s, 8);
    ShrCompose(s, 8, 14);
    Pow2Small();
    ShrIsDiv(x, 14);
    assert Shr(x, 14) == x / 0x4000;
    hide Shr, Pow2;
    assert x == TWO32 * (x / TWO32) + x % TWO32;
    QuotientParity(x, x / TWO32, x % TWO32);
  }

  lemma QuotientParity(x: nat, k: nat, y: nat)
    requires x == TWO32 * k + y && 0x8000 <= y <= 0xFFFF
    ensures x / 0x4000 % 2 == if y >= 0xC000 then 1 else 0
  {
    var e := if y >= 0xC000 then 1 else 0;
    var q := 0x2_0000 * k + 1;
    QuotientIs(x, 2 * q + e, 0x4000);
    EvenOdd(q, e);
  }

  lemma EvenOdd(q: nat, e: nat)
    requires e < 2
    ensures (2 * q + e) % 2 == e
  {
  }

  // ---------------------------------------------------------------------------
  // What the index means

  lemma IndexKey(s: nat)
    requires 256 <= s < TWO64
    ensures var i := OfSize(s); i < 31 ==> Shr(s, i / 2 + 7) == 2 + i % 2
    ensures var i := OfSize(s); i == 31 ==> s >= MinSize(31)
  {
    Pow2Small();
    var x := Shr(s, 8);
    Shr8(s);
    if x > 0xFFFF {
      assert s >= 0x100_0000;
      MinSize31();
    } else {
      var k := FloorLog2(x);
      FloorLog2Spec(x);
      Log2Below16(x);
      ShrCompose(s, 8, k);
      assert Shr(s, k + 8) == 1;
      assert Shr(s, k + 7) == 2 + Shr(s, k + 7) % 2;
      if k == 15 && Shr(s, k + 7) % 2 == 1 {
        ShrIsOne(s, 22);
        MinSize31();
      }
    }
  }

  lemma Shr8(s: nat)
    ensures Shr(s, 8) == s / 256
  {
    Pow2Small();
    ShrIsDiv(s, 8);
  }

  lemma MinSize31()
    ensures MinSize(31) == 0xC0_0000 && 3 * Pow2(22) == MinSize(31)
  {
    Pow2Small();
    Pow2Scale(7, 15);
    Pow2Scale(8, 15);
  }

  /** Every tree chunk lies between the least size of its bin and that of the next bin. */
  lemma Bounds(s: nat)
    requires 256 <= s < TWO64
    ensures MinSize(OfSize(s)) <= s
    ensures OfSize(s) == 31 || s < MinSize(OfSize(s) + 1)
  {
    var i := OfSize(s);
    IndexKey(s);
    if i < 31 {
      ShrIsOne(s, i / 2 + 7);
      assert Pow2(i / 2 + 8) == 2 * Pow2(i / 2 + 7);
    }
  }

  lemma {:induction false} MinSizeMonotone(i: nat, j: nat)
    requires i <= j
    ensures MinSize(i) <= MinSize(j)
    decreases j - i
  {
    if i < j {
      assert MinSize(i) <= MinSize(i + 1);
      MinSizeMonotone(i + 1, j);
    }
  }

  /** A larger bin holds larger chunks only. */
  lemma Monotone(s: nat, t: nat)
    requires 256 <= s < TWO64 && 256 <= t < TWO64
    requires OfSize(s) < OfSize(t)
    ensures s < t
  {
    Bounds(s);
    Bounds(t);
    MinSizeMonotone(OfSize(s) + 1, OfSize(t));
  }

  // ---------------------------------------------------------------------------
  // Levels of a trie. Chunk sizes are counted in 8-byte words from here on.

  /** The sizes of a treebin agree in all bits from this one up. */
  function RootLevel(i: nat): nat
  {
    if i == NTREEBINS - 1 then 61 else i / 2 + 4
  }

  /** bit_for_tree_index: the highest bit, of sizes in bytes, that the tree of a bin resolves. */
  function BitForTreeIndex(i: nat): nat
    requires i < NTREEBINS
  {
    if i == NTREEBINS - 1 then 63 else i / 2 + TREEBIN_SHIFT - 2
  }

  /** leftshift_for_tree_index */
  function LeftShift(i: nat): nat
    requires i < NTREEBINS
  {
    if i == NTREEBINS - 1 then 0 else 63 - (i / 2 + TREEBIN_SHIFT - 2)
  }

  const WORD_LIMIT: nat := 0x2000_0000_0000_0000

  function Bin(n: nat): (i: nat)
    requires n < WORD_LIMIT
    ensures i < NTREEBINS
  {
    OfSize(8 * n)
  }

  lemma ShrOfWords(n: nat, k: nat)
    ensures Shr(8 * n, k + 3) == Shr(n, k)
  {
    Pow2Small();
    ShrIsDiv(8 * n, 3);
    ShrCompose(8 * n, 3, k);
  }

  /** Two sizes of one bin agree above the bits that its trie inspects. */
  lemma SameBinSameRoot(n: nat, k: nat)
    requires 32 <= n < WORD_LIMIT && 32 <= k < WORD_LIMIT
    requires Bin(n) == Bin(k)
    ensures Shr(n, RootLevel(Bin(n))) == Shr(k, RootLevel(Bin(n)))
  {
    IndexKey(8 * n);
    IndexKey(8 * k);
    var e := RootLevel(Bin(n));
    ShrOfWords(n, e);
    ShrOfWords(k, e);
    if Bin(n) == 31 {
      BelowLimit(n);
      BelowLimit(k);
    }
  }

  lemma BelowLimit(n: nat)
    requires n < WORD_LIMIT
    ensures Shr(n, 61) == 0
  {
    ShrIsDiv(n, 61);
    Pow2At64();
    assert Pow2(64) == 2 * Pow2(63) == 4 * Pow2(62);
  }

  /** The word a trie walk keeps shifting: its sign bit is the bit of n below level e. */
  function Probe(n: nat, e: nat): nat
    requires e <= 61
  {
    Shl64(8 * n, 61 - e)
  }

  lemma ProbeSign(n: nat, e: nat)
    requires 1 <= e <= 61 && n < WORD_LIMIT
    ensures Shr(Probe(n, e), 63) % 2 == Shr(n, e - 1) % 2
    ensures Probe(n, e) * 2 % TWO64 == Probe(n, e - 1)
  {
    ShlBit(8 * n, 61 - e, 63);
    ShrOfWords(n, e - 1);
  }

  /** The walk starts with the size shifted by the macro's amount. */
  lemma ProbeStart(n: nat)
    requires 32 <= n < WORD_LIMIT
    ensures RootLevel(Bin(n)) <= 61
    ensures Shl64(8 * n, LeftShift(Bin(n))) == Probe(n, RootLevel(Bin(n)))
  {
  }
}
