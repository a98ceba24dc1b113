/** The bit operations on 32-bit maps. */
module BitOps {

  /** Tests, sets and clears idx2bit(k). */
  predicate HasBit(m: bv32, k: bv32)
    requires k < 32
  {
    m & (1 << k) != 0
  }

  function SetBit(m: bv32, k: bv32): bv32
    requires k < 32
  {
    m | (1 << k)
  }

  function DropBit(m: bv32, k: bv32): bv32
    requires k < 32
  {
    m & !(1 << k)
  }

  /** The map shifted down to bin k, so that its low bit is the mark of bin k. */
  function ShiftDown(m: bv32, k: bv32): bv32
    requires k < 32
  {
    m >> k
  }

  /** The map shifted back up. */
  function ShiftUp(m: bv32, k: bv32): bv32
    requires k < 32
  {
    m << k
  }

  function LeastBit(x: bv32): bv32
  {
    x & -x
  }

  /** compute_bit2idx in its portable form */
  function BitToIndex(x: bv32): bv32
  {
    var y0 := x - 1;
    var k0 := (y0 >> 12) & 16;
    var y1 := y0 >> k0;
    var k1 := (y1 >> 5) & 8;
    var y2 := y1 >> k1;
    var k2 := (y2 >> 2) & 4;
    var y3 := y2 >> k2;
    var k3 := (y3 >> 1) & 2;
    var y4 := y3 >> k3;
    var k4 := (y4 >> 0) & 1;
    var y5 := y4 >> k4;
    k0 + k1 + k2 + k3 + k4 + y5
  }

  /** left_bits(idx2bit(k)) */
  function LeftBits(k: bv32): bv32
    requires k < 32
  {
    ((1 << k) << 1) | -((1 << k) << 1)
  }

  /** The bits of m above k. */
  function BitsAbove(m: bv32, k: bv32): bv32
    requires k < 32
  {
    LeftBits(k) & m
  }

  /** The bin a search of a non-empty map ends in. */
  function LowestIndex(x: bv32): (k: bv32)
    requires x != 0
    ensures k < 32
  {
    BitToIndex(LeastBit(x))
  }

  // ---------------------------------------------------------------------------
  // Facts on single bits

  lemma OneBits(k: bv32, l: bv32)
    requires k < 32 && l < 32 && k != l
    ensures (1 as bv32 << k) & (1 << l) == 0
  {
  }

  lemma MaskedOr(m: bv32, a: bv32, b: bv32)
    requires a & b == 0
    ensures (m | a) & b == m & b
    ensures (m & !a) & b == m & b
  {
  }

  lemma OwnBit(m: bv32, k: bv32)
    requires k < 32
    ensures (m | (1 << k)) & (1 << k) != 0
    ensures (m & !(1 << k)) & (1 << k) == 0
  {
  }

  lemma OtherBit(m: bv32, k: bv32, l: bv32)
    requires k < 32 && l < 32 && k != l
    ensures (m | (1 << k)) & (1 << l) == m & (1 << l)
    ensures (m & !(1 << k)) & (1 << l) == m & (1 << l)
  {
    OneBits(k, l);
    MaskedOr(m, 1 << k, 1 << l);
  }

  lemma BitAfterSet(m: bv32, k: bv32, l: bv32)
    requires k < 32 && l < 32
    ensures HasBit(SetBit(m, k), l) <==> k == l || HasBit(m, l)
  {
    if k == l {
      OwnBit(m, k);
    } else {
      OtherBit(m, k, l);
    }
  }

  lemma BitAfterDrop(m: bv32, k: bv32, l: bv32)
    requires k < 32 && l < 32
    ensures HasBit(DropBit(m, k), l) <==> k != l && HasBit(m, l)
  {
    if k == l {
      OwnBit(m, k);
    } else {
      OtherBit(m, k, l);
    }
  }

  lemma LowestIsLowest(x: bv32, l: bv32)
    requires x != 0 && l < 32
    ensures HasBit(x, LowestIndex(x))
    ensures l < LowestIndex(x) ==> !HasBit(x, l)
  {
  }

  lemma LeftOfOneBit(k: bv32, l: bv32)
    requires k < 32 && l < 32
    ensures HasBit(LeftBits(k), l) <==> k < l
  {
  }

  lemma AndBit(x: bv32, m: bv32, l: bv32)
    requires l < 32
    ensures HasBit(x & m, l) <==> HasBit(x, l) && HasBit(m, l)
  {
  }

  lemma BitAbove(m: bv32, k: bv32, l: bv32)
    requires k < 32 && l < 32
    ensures HasBit(BitsAbove(m, k), l) <==> k < l && HasBit(m, l)
  {
    hide LeftBits, HasBit;
    LeftOfOneBit(k, l);
    AndBit(LeftBits(k), m, l);
  }

  /** The bits from k up. */
  function UpFrom(k: bv32): bv32
    requires k < 32
  {
    -(1 << k)
  }

  lemma ShiftsMask(m: bv32, k: bv32)
    requires k < 32
    ensures ShiftUp(ShiftDown(m, k), k) == m & UpFrom(k)
  {
  }

  lemma BitUpFrom(k: bv32, l: bv32)
    requires k < 32 && l < 32
    ensures HasBit(UpFrom(k), l) <==> k <= l
  {
  }

  lemma BitShiftedBack(m: bv32, k: bv32, l: bv32)
    requires k < 32 && l < 32
    ensures HasBit(ShiftUp(ShiftDown(m, k), k), l) <==> k <= l && HasBit(m, l)
  {
    hide HasBit, ShiftUp, ShiftDown, UpFrom;
    ShiftsMask(m, k);
    BitUpFrom(k, l);
    MaskedBit(ShiftUp(ShiftDown(m, k), k), m, UpFrom(k), l);
  }

  lemma MaskedBit(x: bv32, m: bv32, mask: bv32, l: bv32)
    requires l < 32 && x == m & mask
    ensures HasBit(x, l) <==> HasBit(m, l) && HasBit(mask, l)
  {
    AndBit(m, mask, l);
  }

  lemma BitsShiftedDown(m: bv32, k: bv32)
    requires k < 31
    ensures ShiftDown(m, k) & 3 != 0 <==> HasBit(m, k) || HasBit(m, k + 1)
    ensures !ShiftDown(m, k) & 1 == if HasBit(m, k) then 0 else 1
  {
  }

  lemma LastBitShiftedDown(m: bv32)
    ensures ShiftDown(m, 31) & 3 != 0 <==> HasBit(m, 31)
    ensures HasBit(m, 31) ==> !ShiftDown(m, 31) & 1 == 0
  {
  }

  lemma ShiftBackKeeps(x: bv32, k: bv32)
    requires k < 32 && x <= (0xFFFF_FFFF as bv32) >> k
    ensures x != 0 <==> ShiftUp(x, k) != 0
  {
  }

  lemma ShiftDownBound(m: bv32, k: bv32)
    requires k < 32
    ensures ShiftDown(m, k) <= (0xFFFF_FFFF as bv32) >> k
  {
  }

  lemma ShiftedBackNonzero(m: bv32, k: bv32)
    requires k < 32
    ensures ShiftDown(m, k) != 0 <==> ShiftUp(ShiftDown(m, k), k) != 0
  {
    hide ShiftDown, ShiftUp;
    ShiftDownBound(m, k);
    ShiftBackKeeps(ShiftDown(m, k), k);
  }

  lemma NoBits(k: bv32)
    requires k < 32
    ensures !HasBit(0, k)
  {
  }
}

/** The 32-bit maps of non-empty bins, and the searches on them. */
module BinMap {
  import opened BitOps

  /** A bin index below 32 as the unsigned int the bit operations shift by. */
  function Index(i: nat): (k: bv32)
    requires i < 32
    ensures k < 32
  {
    (if i % 2 == 1 then 1 else 0) | (if i / 2 % 2 == 1 then 2 else 0) | (if i / 4 % 2 == 1 then 4 else 0)
    | (if i / 8 % 2 == 1 then 8 else 0) | (if i / 16 % 2 == 1 then 16 else 0)
  }

  /** The bin number held in an unsigned int. */
  function Number(k: bv32): (i: nat)
    requires k < 32
    ensures i < 32 && Index(i) == k
  {
    (if k & 1 != 0 then 1 else 0) + (if k & 2 != 0 then 2 else 0) + (if k & 4 != 0 then 4 else 0)
    + (if k & 8 != 0 then 8 else 0) + (if k & 16 != 0 then 16 else 0)
  }

  lemma IndexNumber(i: nat)
    requires i < 32
    ensures Number(Index(i)) == i
  {
  }

  lemma IndexInjective(i: nat, j: nat)
    requires i < 32 && j < 32 && Index(i) == Index(j)
    ensures i == j
  {
    IndexNumber(i);
    IndexNumber(j);
  }

  lemma NumberNext(k: bv32)
    requires k < 31
    ensures Number(k + 1) == Number(k) + 1
  {
  }

  lemma IndexNext(i: nat)
    requires i < 31
    ensures Index(i) < 31 && Index(i + 1) == Index(i) + 1
  {
    IndexNumber(i);
    assert Number(31) == 31;
    NumberNext(Index(i));
    IndexNumber(i + 1);
  }

  lemma {:induction false} IndexIncreases(i: nat, j: nat)
    requires i < j < 32
    ensures Index(i) < Index(j)
    decreases j - i
  {
    IndexNext(i);
    if i + 1 < j {
      IndexIncreases(i + 1, j);
    }
  }

  lemma IndexOrder(i: nat, j: nat)
    requires i < 32 && j < 32
    ensures i < j <==> Index(i) < Index(j)
  {
    if i < j {
      IndexIncreases(i, j);
    } else if j < i {
      IndexIncreases(j, i);
    }
  }

  predicate Marked(m: bv32, i: nat)
    requires i < 32
  {
    HasBit(m, Index(i))
  }

  function Mark(m: bv32, i: nat): bv32
    requires i < 32
  {
    SetBit(m, Index(i))
  }

  function Clear(m: bv32, i: nat): bv32
    requires i < 32
  {
    DropBit(m, Index(i))
  }

  lemma MarkedAfterMark(m: bv32, i: nat, j: nat)
    requires i < 32 && j < 32
    ensures Marked(Mark(m, i), j) <==> i == j || Marked(m, j)
  {
    hide Index, HasBit, SetBit;
    if Index(i) == Index(j) {
      IndexInjective(i, j);
    }
    BitAfterSet(m, Index(i), Index(j));
  }

  lemma MarkedAfterClear(m: bv32, i: nat, j: nat)
    requires i < 32 && j < 32
    ensures Marked(Clear(m, i), j) <==> i != j && Marked(m, j)
  {
    hide Index, HasBit, DropBit;
    if Index(i) == Index(j) {
      IndexInjective(i, j);
    }
    BitAfterDrop(m, Index(i), Index(j));
  }

  lemma NothingMarked(i: nat)
    requires i < 32
    ensures !Marked(0, i)
  {
    hide Index, HasBit;
    NoBits(Index(i));
  }

  /** The least marked bin of a non-empty map. */
  function FirstMarked(x: bv32): nat
    requires x != 0
  {
    Number(LowestIndex(x))
  }

  lemma FirstMarkedIsLeast(x: bv32, j: nat)
    requires x != 0 && j < 32
    ensures FirstMarked(x) < 32 && Marked(x, FirstMarked(x))
    ensures j < FirstMarked(x) ==> !Marked(x, j)
  {
    hide Index, HasBit, LowestIndex;
    IndexOrder(j, FirstMarked(x));
    LowestIsLowest(x, Index(j));
  }

  /** The marked bins above bin i. */
  lemma MarkedAbove(m: bv32, i: nat, j: nat)
    requires i < 32 && j < 32
    ensures Marked(BitsAbove(m, Index(i)), j) <==> i < j && Marked(m, j)
  {
    hide Index, HasBit, BitsAbove;
    IndexOrder(i, j);
    BitAbove(m, Index(i), Index(j));
  }

  /** The marked bins from bin i up, out of the map shifted down to bin i. */
  lemma MarkedFrom(m: bv32, i: nat, j: nat)
    requires i < 32 && j < 32
    ensures Marked(ShiftUp(ShiftDown(m, Index(i)), Index(i)), j) <==> i <= j && Marked(m, j)
  {
    hide Index, HasBit, ShiftDown, ShiftUp;
    IndexOrder(j, i);
    BitShiftedBack(m, Index(i), Index(j));
  }

  /** The two low bits of the shifted map are the marks of bins i and i + 1. */
  lemma LowTwoMarks(m: bv32, i: nat)
    requires i < 31
    ensures ShiftDown(m, Index(i)) & 3 != 0 <==> Marked(m, i) || Marked(m, i + 1)
    ensures !ShiftDown(m, Index(i)) & 1 == if Marked(m, i) then 0 else 1
  {
    hide Index, HasBit, ShiftDown;
    IndexNext(i);
    BitsShiftedDown(m, Index(i));
  }

  /** smallbits & 3: one of the two low bits is set. */
  predicate LowTwo(smallbits: bv32)
  {
    smallbits & 3 != 0
  }

  /** (smallbits << i) & left_bits(idx2bit(i)) */
  function BinsAbove(smallbits: bv32, i: nat): bv32
    requires i < 32
  {
    BitsAbove(ShiftUp(smallbits, Index(i)), Index(i))
  }

  /** The bin an exact fit is taken from: bin i if it is marked, else the next one. */
  function ExactBin(m: bv32, i: nat): (j: nat)
    requires i < 32
    ensures i <= j <= i + 1
  {
    if !ShiftDown(m, Index(i)) & 1 == 0 then i else i + 1
  }

  lemma ExactBinMarked(m: bv32, i: nat)
    requires i < 32
    ensures LowTwo(ShiftDown(m, Index(i))) ==> ExactBin(m, i) < 32 && Marked(m, ExactBin(m, i))
    ensures !LowTwo(ShiftDown(m, Index(i))) ==> !Marked(m, i) && (i < 31 ==> !Marked(m, i + 1))
  {
    if i < 31 {
      hide HasBit, ShiftDown, Index;
      LowTwoMarks(m, i);
    } else {
      LastBitShiftedDown(m);
      assert Index(31) == 31;
    }
  }

  lemma ExactBinFirst(m: bv32, i: nat)
    requires i < 32
    ensures Marked(m, i) ==> ExactBin(m, i) == i
  {
    if i < 31 {
      hide HasBit, ShiftDown, Index;
      LowTwoMarks(m, i);
    } else {
      LastBitShiftedDown(m);
      assert Index(31) == 31;
    }
  }

  /** The marked bins above bin i, computed from the map shifted down to bin i. */
  lemma MarkedAboveShifted(m: bv32, i: nat, j: nat)
    requires i < 32 && j < 32
    ensures Marked(BinsAbove(ShiftDown(m, Index(i)), i), j) <==> i < j && Marked(m, j)
  {
    hide HasBit, ShiftDown, ShiftUp, BitsAbove, Index;
    MarkedAbove(ShiftUp(ShiftDown(m, Index(i)), Index(i)), i, j);
    MarkedFrom(m, i, j);
  }

  /** A shifted map with its low bit clear still has a bin above. */
  lemma SomeAbove(m: bv32, i: nat)
    requires i < 32 && ShiftDown(m, Index(i)) != 0 && !Marked(m, i)
    ensures BinsAbove(ShiftDown(m, Index(i)), i) != 0
  {
    hide HasBit, ShiftDown, ShiftUp, BitsAbove, Index, FirstMarked;
    ShiftedBackNonzero(m, Index(i));
    var x := ShiftUp(ShiftDown(m, Index(i)), Index(i));
    var j := FirstMarked(x);
    FirstMarkedIsLeast(x, 0);
    MarkedFrom(m, i, j);
    MarkedAboveShifted(m, i, j);
    NothingMarked(j);
  }

  /** A shifted map that is zero has no bin from i up. */
  lemma NoneFrom(m: bv32, i: nat, j: nat)
    requires i < 32 && j < 32 && ShiftDown(m, Index(i)) == 0
    ensures i <= j ==> !Marked(m, j)
  {
    hide HasBit, ShiftDown, ShiftUp, Index;
    ShiftedBackNonzero(m, Index(i));
    MarkedFrom(m, i, j);
    NothingMarked(j);
  }
}
