/** The flags of the buckets of a hash table: two bits each, sixteen buckets to a 32-bit word. */
module BucketFlags {
  import opened BitOps
  import opened BinMap

  type Flags = seq<bv32>

  /** __ac_fsize: the words for n buckets */
  function FlagWords(n: nat): nat
  {
    if n < 16 then 1 else n / 16
  }

  /** A word with all its buckets empty: four bytes 0xaa. */
  const ALL_EMPTY: bv32 := 0xaaaa_aaaa

  /** (i & 0xf) << 1 */
  function Offset(i: nat): (s: bv32)
    ensures s < 32
  {
    Index(2 * (i % 16))
  }

  // On one word, at an even place

  predicate EmptyBit(w: bv32, s: bv32)
    requires s < 32
  {
    (w >> s) & 2 != 0
  }

  predicate DelBit(w: bv32, s: bv32)
    requires s < 32
  {
    (w >> s) & 1 != 0
  }

  predicate EitherBit(w: bv32, s: bv32)
    requires s < 32
  {
    (w >> s) & 3 != 0
  }

  function DelTrue(w: bv32, s: bv32): bv32
    requires s < 32
  {
    w | ((1 as bv32) << s)
  }

  function EmptyFalse(w: bv32, s: bv32): bv32
    requires s < 32
  {
    w & !((2 as bv32) << s)
  }

  function BothFalse(w: bv32, s: bv32): bv32
    requires s < 32
  {
    w & !((3 as bv32) << s)
  }

  lemma EitherBitIs(w: bv32, s: bv32)
    requires s < 32
    ensures EitherBit(w, s) <==> EmptyBit(w, s) || DelBit(w, s)
  {
  }

  lemma DelTrueBits(w: bv32, s: bv32, t: bv32)
    requires s < 32 && t < 32 && s & 1 == 0 && t & 1 == 0
    ensures EmptyBit(DelTrue(w, s), t) == EmptyBit(w, t)
    ensures DelBit(DelTrue(w, s), t) <==> s == t || DelBit(w, t)
  {
  }

  lemma EmptyFalseBits(w: bv32, s: bv32, t: bv32)
    requires s < 32 && t < 32 && s & 1 == 0 && t & 1 == 0
    ensures EmptyBit(EmptyFalse(w, s), t) <==> s != t && EmptyBit(w, t)
    ensures DelBit(EmptyFalse(w, s), t) == DelBit(w, t)
  {
  }

  lemma BothFalseBits(w: bv32, s: bv32, t: bv32)
    requires s < 32 && t < 32 && s & 1 == 0 && t & 1 == 0
    ensures EmptyBit(BothFalse(w, s), t) <==> s != t && EmptyBit(w, t)
    ensures DelBit(BothFalse(w, s), t) <==> s != t && DelBit(w, t)
  {
  }

  lemma AllEmptyBits(s: bv32)
    requires s < 32 && s & 1 == 0
    ensures EmptyBit(ALL_EMPTY, s) && !DelBit(ALL_EMPTY, s)
  {
  }

  lemma OffsetEven(i: nat)
    ensures Offset(i) & 1 == 0
  {
  }

  lemma OffsetSame(i: nat, j: nat)
    ensures i / 16 == j / 16 && Offset(i) == Offset(j) ==> i == j
  {
    hide Index;
    if Offset(i) == Offset(j) {
      IndexInjective(2 * (i % 16), 2 * (j % 16));
    }
  }

  // On all words

  predicate Has(f: Flags, i: nat)
  {
    i / 16 < |f|
  }

  /** __ac_isempty */
  predicate IsEmpty(f: Flags, i: nat)
    requires Has(f, i)
  {
    EmptyBit(f[i / 16], Offset(i))
  }

  /** __ac_isdel */
  predicate IsDel(f: Flags, i: nat)
    requires Has(f, i)
  {
    DelBit(f[i / 16], Offset(i))
  }

  /** __ac_iseither */
  predicate IsEither(f: Flags, i: nat)
    requires Has(f, i)
  {
    EitherBit(f[i / 16], Offset(i))
  }

  /** __ac_set_isdel_true */
  function SetDel(f: Flags, i: nat): Flags
    requires Has(f, i)
  {
    f[i / 16 := DelTrue(f[i / 16], Offset(i))]
  }

  /** __ac_set_isempty_false */
  function SetNotEmpty(f: Flags, i: nat): Flags
    requires Has(f, i)
  {
    f[i / 16 := EmptyFalse(f[i / 16], Offset(i))]
  }

  /** __ac_set_isboth_false */
  function SetLive(f: Flags, i: nat): Flags
    requires Has(f, i)
  {
    f[i / 16 := BothFalse(f[i / 16], Offset(i))]
  }

  lemma EitherIs(f: Flags, i: nat)
    requires Has(f, i)
    ensures IsEither(f, i) <==> IsEmpty(f, i) || IsDel(f, i)
  {
    hide EmptyBit, DelBit, EitherBit, Offset;
    EitherBitIs(f[i / 16], Offset(i));
  }

  lemma AfterSetDel(f: Flags, i: nat, j: nat)
    requires Has(f, i) && Has(f, j)
    ensures IsEmpty(SetDel(f, i), j) == IsEmpty(f, j)
    ensures IsDel(SetDel(f, i), j) <==> i == j || IsDel(f, j)
  {
    hide EmptyBit, DelBit, DelTrue, Offset;
    if i / 16 == j / 16 {
      OffsetEven(i);
      OffsetEven(j);
      OffsetSame(i, j);
      DelTrueBits(f[i / 16], Offset(i), Offset(j));
    }
  }

  lemma AfterSetNotEmpty(f: Flags, i: nat, j: nat)
    requires Has(f, i) && Has(f, j)
    ensures IsEmpty(SetNotEmpty(f, i), j) <==> i != j && IsEmpty(f, j)
    ensures IsDel(SetNotEmpty(f, i), j) == IsDel(f, j)
  {
    hide EmptyBit, DelBit, EmptyFalse, Offset;
    if i / 16 == j / 16 {
      OffsetEven(i);
      OffsetEven(j);
      OffsetSame(i, j);
      EmptyFalseBits(f[i / 16], Offset(i), Offset(j));
    }
  }

  lemma AfterSetLive(f: Flags, i: nat, j: nat)
    requires Has(f, i) && Has(f, j)
    ensures IsEmpty(SetLive(f, i), j) <==> i != j && IsEmpty(f, j)
    ensures IsDel(SetLive(f, i), j) <==> i != j && IsDel(f, j)
  {
    hide EmptyBit, DelBit, BothFalse, Offset;
    if i / 16 == j / 16 {
      OffsetEven(i);
      OffsetEven(j);
      OffsetSame(i, j);
      BothFalseBits(f[i / 16], Offset(i), Offset(j));
    }
  }

  lemma WhenAllEmpty(f: Flags, i: nat)
    requires Has(f, i) && f[i / 16] == ALL_EMPTY
    ensures IsEmpty(f, i) && !IsDel(f, i)
  {
    hide EmptyBit, DelBit, Offset;
    OffsetEven(i);
    AllEmptyBits(Offset(i));
  }
}
