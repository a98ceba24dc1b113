/** kroundup32: the next power of two, by smearing the highest bit downwards. */
module RoundUp {
  import opened Shift
  import opened Alignment

  const TWO31: nat := 0x8000_0000

  /** x | y */
  function BitOr(x: nat, y: nat): nat
  {
    if x == 0 then y
    else if y == 0 then x
    else 2 * BitOr(x / 2, y / 2) + if x % 2 == 1 || y % 2 == 1 then 1 else 0
  }

  /** x |= x >> w */
  function Smear(x: nat, w: nat): nat
  {
    BitOr(x, Shr(x, w))
  }

  function RoundUp32(x: nat): nat
    requires x < TWO32
  {
    var y := (x + TWO32 - 1) % TWO32;
    (Smear(Smear(Smear(Smear(Smear(y, 1), 2), 4), 8), 16) + 1) % TWO32
  }

  /** x is below 2^l, and of its l bits the highest w are ones. */
  ghost predicate OnesAtTop(x: nat, l: nat, w: nat)
  {
    if l <= w then x == Pow2(l) - 1 else Shr(x, l - w) == Pow2(w) - 1
  }

  lemma {:induction false} OrZero(x: nat)
    ensures BitOr(x, 0) == x && BitOr(0, x) == x
  {
  }

  lemma OrHalf(x: nat, y: nat)
    ensures BitOr(x, y) / 2 == BitOr(x / 2, y / 2)
  {
    OrZero(x / 2);
    OrZero(y / 2);
  }

  lemma {:induction false} ShrOfOr(x: nat, y: nat, k: nat)
    ensures Shr(BitOr(x, y), k) == BitOr(Shr(x, k), Shr(y, k))
  {
    if k > 0 {
      ShrOfOr(x, y, k - 1);
      OrHalf(Shr(x, k - 1), Shr(y, k - 1));
    }
  }

  /** x with its low q bits set. */
  function Filled(x: nat, q: nat): nat
  {
    Shr(x, q) * Pow2(q) + Pow2(q) - 1
  }

  lemma FilledStep(x: nat, q: nat)
    requires q > 0
    ensures Filled(x, q) == 2 * Filled(x / 2, q - 1) + 1
  {
    ShrCompose(x, 1, q - 1);
    assert Shr(x, 1) == x / 2;
    FillStep(Shr(x, q), Pow2(q - 1));
  }

  lemma {:induction false} FillLow(x: nat, q: nat)
    ensures BitOr(x, Pow2(q) - 1) == Filled(x, q)
    decreases q
  {
    if q == 0 {
      OrZero(x);
    } else {
      assert Pow2(q) == 2 * Pow2(q - 1);
      hide BitOr, Filled, Pow2;
      FillLow(x / 2, q - 1);
      FilledStep(x, q);
      OrOdd(x, Pow2(q - 1) - 1);
    }
  }

  lemma OrOdd(x: nat, y: nat)
    ensures BitOr(x, 2 * y + 1) == 2 * BitOr(x / 2, y) + 1
  {
    OrZero(y);
  }

  lemma FillStep(s: nat, b: nat)
    ensures 2 * (s * b) == s * (2 * b)
  {
  }

  /** Shifting w ones (and more bits) down by w leaves ones only, if at most w bits remain. */
  lemma {:induction false} TopOnes(x: nat, l: nat, w: nat, m: nat)
    requires w < l && OnesAtTop(x, l, w) && w <= m <= 2 * w && m <= l
    ensures Shr(x, l - m + w) == Pow2(m - w) - 1
  {
    ShrCompose(x, l - w, 2 * w - m);
    OnesShifted(w, 2 * w - m);
  }

  lemma {:induction false} OnesShifted(w: nat, k: nat)
    requires k <= w
    ensures Shr(Pow2(w) - 1, k) == Pow2(w - k) - 1
  {
    if k > 0 {
      OnesShifted(w, k - 1);
      assert Pow2(w - (k - 1)) == 2 * Pow2(w - k);
    }
  }

  lemma {:induction false} SmallShift(x: nat, l: nat)
    requires x < Pow2(l)
    ensures Shr(x, l) == 0
  {
    ShrIsDiv(x, l);
    QuotientIs(x, 0, Pow2(l));
  }

  /** One smearing step doubles the ones at the top. */
  lemma SmearStep(x: nat, l: nat, w: nat)
    requires x < Pow2(l) && OnesAtTop(x, l, w) && w > 0
    ensures Smear(x, w) < Pow2(l) && OnesAtTop(Smear(x, w), l, 2 * w)
  {
    if l <= w {
      SmallShift(x, l);
      ShrPastZero(x, l, w);
      OrZero(x);
    } else {
      SmearMore(x, l, w, if l <= 2 * w then l else 2 * w);
    }
  }

  lemma SmearMore(x: nat, l: nat, w: nat, m: nat)
    requires x < Pow2(l) && OnesAtTop(x, l, w) && 0 < w < m <= 2 * w && m <= l
    ensures Shr(Smear(x, w), l - m) == Pow2(m) - 1
    ensures Smear(x, w) < Pow2(l)
    ensures m == l ==> Smear(x, w) == Pow2(m) - 1
  {
    hide BitOr, Shr, Pow2;
    var k := l - m;
    var y := Smear(x, w);
    assert Shr(y, k) == BitOr(Shr(x, k), Shr(x, w + k)) by {
      ShrOfOr(x, Shr(x, w), k);
      ShrCompose(x, w, k);
    }
    TopOnes(x, l, w, m);
    assert Shr(Shr(x, k), m - w) == Pow2(w) - 1 by {
      ShrCompose(x, k, m - w);
    }
    FilledOnes(Shr(x, k), w, m - w);
    SmallSmear(y, k, m);
    assert Shr(y, 0) == y by {
      ShrZero(y);
    }
  }

  lemma FilledOnes(x: nat, w: nat, q: nat)
    requires Shr(x, q) == Pow2(w) - 1
    ensures BitOr(x, Pow2(q) - 1) == Pow2(w + q) - 1
  {
    hide BitOr, Shr, Pow2;
    FillLow(x, q);
    assert BitOr(x, Pow2(q) - 1) == (Pow2(w) - 1) * Pow2(q) + Pow2(q) - 1;
    Pow2Scale(w, q);
    ProductOfOnes(Pow2(w), Pow2(q));
  }

  lemma ShrZero(y: nat)
    ensures Shr(y, 0) == y
  {
  }

  lemma ProductOfOnes(a: nat, b: nat)
    requires a > 0
    ensures (a - 1) * b + b - 1 == a * b - 1
  {
  }

  lemma ShrPastZero(x: nat, l: nat, w: nat)
    requires Shr(x, l) == 0 && l <= w
    ensures Shr(x, w) == 0
  {
    ShrCompose(x, l, w - l);
    ShrOfZero(w - l);
  }

  lemma SmallSmear(y: nat, k: nat, m: nat)
    requires Shr(y, k) == Pow2(m) - 1
    ensures y < Pow2(m + k)
  {
    ShrIsDiv(y, k);
    Pow2Scale(m, k);
    hide Shr, Pow2;
    var p := Pow2(k);
    var a := y / p;
    assert y == a * p + y % p;
    ProductOfOnes(Pow2(m), p);
  }

  /** The number of bits of y. */
  function Bits(y: nat): nat
  {
    if y == 0 then 0 else 1 + FloorLog2(y)
  }

  lemma BitsSpec(y: nat)
    ensures y < Pow2(Bits(y)) && (y > 0 ==> Pow2(Bits(y) - 1) <= y) && OnesAtTop(y, Bits(y), 1)
  {
    if y > 0 {
      FloorLog2Spec(y);
      var k := FloorLog2(y);
      ShrIsDiv(y, k);
      var p := Pow2(k);
      assert y == y / p * p + y % p;
      assert Pow2(1) == 2;
    }
  }

  /** For 1 <= x <= 2^31 the least power of two not below x; else the 32-bit result wraps to 0. */
  lemma RoundsUp(x: nat)
    requires x < TWO32
    ensures x == 0 || x > TWO31 ==> RoundUp32(x) == 0
    ensures 0 < x <= TWO31 ==> IsPower(RoundUp32(x)) && x <= RoundUp32(x) <= TWO31 && RoundUp32(x) < 2 * x
  {
    hide Smear, Bits, Pow2;
    var y := (x + TWO32 - 1) % TWO32;
    var l := Bits(y);
    BitsSpec(y);
    SmearStep(y, l, 1);
    var y1 := Smear(y, 1);
    SmearStep(y1, l, 2);
    var y2 := Smear(y1, 2);
    SmearStep(y2, l, 4);
    var y3 := Smear(y2, 4);
    SmearStep(y3, l, 8);
    var y4 := Smear(y3, 8);
    SmearStep(y4, l, 16);
    var y5 := Smear(y4, 16);
    BitsNone(y);
    BitsWithin(y, l);
    SmearedOut(y5, l);
    assert RoundUp32(x) == Pow2(l) % TWO32;
    hide OnesAtTop, RoundUp32;
    RoundedBounds(x, y, l);
  }

  lemma BitsNone(y: nat)
    ensures y == 0 <==> Bits(y) == 0
  {
  }

  lemma SmearedOut(y: nat, l: nat)
    requires OnesAtTop(y, l, 32) && l <= 32
    ensures y == Pow2(l) - 1
  {
  }

  lemma BitsWithin(y: nat, l: nat)
    requires y < TWO32 && (y > 0 ==> l > 0 && Pow2(l - 1) <= y) && (y == 0 ==> l == 0)
    ensures l <= 32
  {
    Pow2At64();
    if l > 0 {
      Pow2Order(l - 1, 32);
    }
  }

  lemma RoundedBounds(x: nat, y: nat, l: nat)
    requires x < TWO32 && y == (x + TWO32 - 1) % TWO32 && l <= 32 && y < Pow2(l) && (y > 0 ==> l > 0 && Pow2(l - 1) <= y) && (y == 0 ==> l == 0)
    ensures x == 0 || x > TWO31 ==> Pow2(l) % TWO32 == 0
    ensures 0 < x <= TWO31 ==> IsPower(Pow2(l) % TWO32) && x <= Pow2(l) % TWO32 <= TWO31 && Pow2(l) % TWO32 < 2 * x
  {
    PowersOf32();
    Pow2Order(31, l);
    hide Pow2;
    if x == 0 || x > TWO31 {
      assert y >= TWO31;
      assert l == 32;
    } else {
      assert y == x - 1;
      if l > 0 {
        Pow2Order(31, l - 1);
      }
      assert l <= 31;
      PowerBelow(l);
    }
  }

  lemma PowersOf32()
    ensures Pow2(32) == TWO32 && Pow2(31) == TWO31
  {
    Pow2At64();
    assert Pow2(32) == 2 * Pow2(31);
  }

  lemma PowerBelow(l: nat)
    requires l <= 31
    ensures Pow2(l) <= TWO31 && Pow2(l) % TWO32 == Pow2(l)
    ensures l > 0 ==> Pow2(l) == 2 * Pow2(l - 1)
    ensures l == 0 ==> Pow2(l) == 1
  {
    PowersOf32();
    Pow2Order(31, l);
  }
}
