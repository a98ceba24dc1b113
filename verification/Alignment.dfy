/** Powers of two as alignments, and the bit tricks that round to them. */
module Alignment {
  import opened Shift

  /** x & y */
  function BitAnd(x: nat, y: nat): nat
  {
    if x == 0 || y == 0 then 0 else 2 * BitAnd(x / 2, y / 2) + if x % 2 == 1 && y % 2 == 1 then 1 else 0
  }

  ghost predicate IsPower(a: nat)
  {
    exists k: nat :: a == Pow2(k)
  }

  const TWO63: nat := 0x8000_0000_0000_0000

  lemma {:induction false} EvenPower(a: nat)
    requires a > 0 && a % 2 == 0
    ensures IsPower(a) <==> IsPower(a / 2)
  {
    if IsPower(a) {
      var k: nat :| a == Pow2(k);
      assert a / 2 == Pow2(k - 1);
    }
    if IsPower(a / 2) {
      var k: nat :| a / 2 == Pow2(k);
      assert a == Pow2(k + 1);
    }
  }

  lemma {:induction false} AndSelf(x: nat)
    ensures BitAnd(x, x) == x
  {
    if x > 0 {
      AndSelf(x / 2);
    }
  }

  /** The test a & (a - 1) == 0. */
  lemma {:induction false} PowerTest(a: nat)
    requires a > 0
    ensures BitAnd(a, a - 1) == 0 <==> IsPower(a)
  {
    if a == 1 {
      assert a == Pow2(0);
    } else if a % 2 == 0 {
      assert (a - 1) / 2 == a / 2 - 1;
      PowerTest(a / 2);
      EvenPower(a);
    } else {
      assert (a - 1) / 2 == a / 2;
      AndSelf(a / 2);
      forall k: nat
        ensures a != Pow2(k)
      {
      }
    }
  }

  lemma {:induction false} Pow2Order(j: nat, k: nat)
    ensures j < k <==> Pow2(j) < Pow2(k)
  {
    if j > 0 && k > 0 {
      Pow2Order(j - 1, k - 1);
    }
  }

  /** The low k bits of x. */
  function Low(x: nat, k: nat): nat
  {
    x % Pow2(k)
  }

  lemma LowStep(x: nat, k: nat)
    requires k > 0
    ensures Low(x, k) == 2 * Low(x / 2, k - 1) + x % 2
  {
    var p := Pow2(k - 1);
    var q := x / 2 / p;
    var r := 2 * (x / 2 % p) + x % 2;
    assert x == q * (2 * p) + r;
    RemainderIs(x, 2 * p, q, r);
  }

  lemma RemainderIs(x: nat, d: nat, q: nat, r: nat)
    requires d > 0 && x == q * d + r && r < d
    ensures x % d == r
  {
    QuotientIs(x, q, d);
    assert x == x / d * d + x % d;
  }

  lemma {:induction false} AllOnes(x: nat, w: nat)
    requires x < Pow2(w)
    ensures BitAnd(x, Pow2(w) - 1) == x
  {
    if w > 0 && x > 0 {
      assert (Pow2(w) - 1) / 2 == Pow2(w - 1) - 1;
      AllOnes(x / 2, w - 1);
    }
  }

  /** x & -2^k in w-bit arithmetic clears the low k bits. */
  lemma {:induction false} MaskLow(x: nat, k: nat, w: nat)
    requires x < Pow2(w) && k <= w
    ensures Pow2(k) <= Pow2(w) && BitAnd(x, Pow2(w) - Pow2(k)) == x - Low(x, k)
  {
    Pow2Order(w, k);
    if k == 0 {
      AllOnes(x, w);
    } else {
      LowStep(x, k);
      assert Pow2(k) == 2 * Pow2(k - 1) && Pow2(w) == 2 * Pow2(w - 1);
      hide BitAnd, Low, Pow2;
      HalfBelow(x, Pow2(w - 1));
      MaskLow(x / 2, k - 1, w - 1);
      MaskStep(x, x / 2, Pow2(w - 1) - Pow2(k - 1), Pow2(w) - Pow2(k), Low(x / 2, k - 1));
    }
  }

  lemma HalfBelow(x: nat, p: nat)
    requires x < 2 * p
    ensures x / 2 < p
  {
  }

  lemma MaskStep(x: nat, h: nat, y: nat, m: nat, low: nat)
    requires h == x / 2 && m == 2 * y && BitAnd(h, y) == h - low
    ensures BitAnd(x, m) == x - (2 * low + x % 2)
  {
    hide BitAnd;
    EvenMask(x, y);
    Parity(x, h);
  }

  lemma Parity(x: nat, h: nat)
    requires h == x / 2
    ensures x - x % 2 == 2 * h
  {
  }

  lemma EvenMask(x: nat, y: nat)
    ensures BitAnd(x, 2 * y) == 2 * BitAnd(x / 2, y)
  {
    assert 2 * y / 2 == y && 2 * y % 2 == 0;
  }

  lemma PowersOfTwo()
    ensures Pow2(64) == TWO64 && Pow2(63) == TWO63 && Pow2(4) == 16 && Pow2(5) == 32
  {
    Pow2At64();
    assert Pow2(64) == 2 * Pow2(63);
    assert Pow2(4) == 16;
  }

  /** Rounding an address up to a power of two: (x + a - 1) & -a. */
  lemma RoundedUp(x: nat, a: nat)
    requires IsPower(a) && a <= TWO63 && x + a - 1 < TWO64
    ensures var u := BitAnd(x + a - 1, TWO64 - a); u % a == 0 && x <= u < x + a
  {
    hide Low, BitAnd, Pow2;
    var k: nat :| a == Pow2(k);
    PowersOfTwo();
    Pow2Order(63, k);
    MaskLow(x + a - 1, k, 64);
    LowRest(x + a - 1, k, a);
  }

  lemma LowRest(y: nat, k: nat, a: nat)
    requires a == Pow2(k)
    ensures Low(y, k) <= y && (y - Low(y, k)) % a == 0 && Low(y, k) < a
  {
    RoundedDown(y, a);
  }

  lemma RoundedDown(y: nat, a: nat)
    requires a > 0
    ensures y % a <= y && (y - y % a) % a == 0
  {
    var q, r := y / a, y % a;
    assert y == q * a + r;
    assert q * a >= 0;
    RemainderIs(y - r, a, q, 0);
  }

  lemma MultipleMod(a: nat, q: nat)
    requires a > 0
    ensures a * q % a == 0
  {
    RemainderIs(a * q, a, q, 0);
  }

  lemma {:induction false} DoublingFrom16(k: nat)
    ensures Shl64(16, k) == if k < 60 then Pow2(k + 4) else 0
  {
    hide Pow2;
    PowersOfTwo();
    if k > 0 {
      DoublingFrom16(k - 1);
      if k < 60 {
        Pow2Order(k + 3, 63);
        Pow2Order(63, k + 3);
        Doubled(k + 3);
      }
    }
  }

  lemma Doubled(j: nat)
    requires Pow2(j) < TWO63
    ensures Pow2(j) * 2 % TWO64 == Pow2(j + 1)
  {
  }

  /** The loop that doubles 16 until it reaches alignment ends exactly for alignments up to 2^63. */
  lemma RoundingEnds(alignment: nat)
    requires 32 <= alignment < TWO64
    ensures (BitAnd(alignment, alignment - 1) == 0 || exists k: nat :: alignment <= Shl64(16, k)) <==> alignment <= TWO63
  {
    PowersOfTwo();
    PowerTest(alignment);
    if alignment <= TWO63 {
      DoublingFrom16(59);
      assert alignment <= Shl64(16, 59);
    } else {
      forall k: nat
        ensures Shl64(16, k) < alignment
      {
        DoublingFrom16(k);
        Pow2Order(63, k + 4);
      }
      if IsPower(alignment) {
        var k: nat :| alignment == Pow2(k);
        Pow2Order(63, k);
        Pow2Order(k, 64);
      }
    }
  }

  /** The alignment used: a power of two, at least a minimal chunk, the least one not below the request. */
  ghost predicate RoundedAlignment(alignment: nat, a: nat)
  {
    && IsPower(a) && 32 <= a && alignment <= a
    && forall k: nat {:trigger Pow2(k)} :: alignment <= Pow2(k) && 32 <= Pow2(k) ==> a <= Pow2(k)
  }

  method RoundAlignment(alignment: nat) returns (a: nat)
    requires 8 < alignment <= TWO63
    ensures RoundedAlignment(alignment, a) && IsPower(a) && 32 <= a <= TWO63
  {
    PowersOfTwo();
    hide BitAnd, Pow2, IsPower;
    a := alignment;
    if a < 32 {
      a := 32;
    }
    PowerTest(a);
    if BitAnd(a, a - 1) != 0 {
      var x := 16;
      ghost var j: nat := 4;
      while x < a
        invariant x == Pow2(j) && 4 <= j <= 63 && (j > 4 ==> Pow2(j - 1) < a)
        decreases 63 - j
      {
        NextDouble(j, a);
        x := x * 2 % TWO64;
        j := j + 1;
      }
      IsPowerOf(x, j);
      forall k: nat | a <= Pow2(k)
        ensures x <= Pow2(k)
      {
        Pow2Order(k, j);
        Pow2Order(j - 1, k);
      }
      a := x;
    }
  }

  /** The payload of a chunk at x is aligned to a. */
  predicate Aligned(x: nat, a: nat)
    requires a > 0
  {
    8 * (x + 2) % a == 0
  }

  lemma NextDouble(j: nat, a: nat)
    requires Pow2(j) < a <= TWO63
    ensures j < 63 && Pow2(j) * 2 % TWO64 == Pow2(j + 1) && Pow2(j + 1) <= TWO63
  {
    PowersOfTwo();
    Pow2Order(j, 63);
    Pow2Order(63, j + 1);
  }

  lemma IsPowerOf(x: nat, j: nat)
    requires x == Pow2(j)
    ensures IsPower(x)
  {
  }

  /** The chunk, in words, whose payload is aligned to a and that leaves at least a minimal chunk, 32 bytes, behind p. */
  function AlignedChunk(p: nat, a: nat): int
    requires 0 < a <= TWO64
  {
    var br := BitAnd(8 * (p + 2) + a - 1, TWO64 - a) / 8 - 2;
    if br - p >= 4 then br else br + a / 8
  }

  lemma EightDivides(a: nat, u: nat)
    requires IsPower(a) && a >= 32 && u % a == 0
    ensures a % 8 == 0 && u % 8 == 0 && (u + a) % a == 0
  {
    EightInPower(a);
    hide IsPower;
    NextMultiple(u, a);
    EighthOf(u, u / a, a);
  }

  lemma EightInPower(a: nat)
    requires IsPower(a) && a >= 32
    ensures a % 8 == 0
  {
    var k: nat :| a == Pow2(k);
    assert k >= 5 by {
      PowersOfTwo();
      Pow2Order(k, 5);
    }
    EightTimes(k - 3);
    hide Pow2;
    RemainderIs(a, 8, Pow2(k - 3), 0);
  }

  lemma EightTimes(j: nat)
    ensures Pow2(j + 3) == 8 * Pow2(j)
  {
    assert Pow2(j + 3) == 2 * Pow2(j + 2);
    assert Pow2(j + 2) == 2 * Pow2(j + 1);
  }

  lemma NextMultiple(u: nat, a: nat)
    requires a > 0 && u % a == 0
    ensures (u + a) % a == 0 && u == u / a * a
  {
    var q := u / a;
    assert u == q * a + u % a;
    RemainderIs(u + a, a, q + 1, 0);
  }

  lemma EighthOf(u: nat, q: nat, a: nat)
    requires u == q * a && a % 8 == 0
    ensures u % 8 == 0
  {
    var v := a / 8;
    assert q * a == q * v * 8;
    RemainderIs(u, 8, q * v, 0);
  }

  /** Between two multiples that follow each other there is none. */
  lemma NoMultiple(u: nat, a: nat, v: nat)
    requires a > 0 && u % a == 0 && u < v < u + a
    ensures v % a != 0
  {
    var q := u / a;
    NextMultiple(u, a);
    RemainderIs(v, a, q, v - u);
  }

  /** No chunk at y has an aligned payload, where u is the first multiple from the payload of p on. */
  lemma NotAligned(p: nat, a: nat, u: nat, y: nat)
    requires a > 0 && u % a == 0 && 8 * (p + 2) <= u < 8 * (p + 2) + a && p <= y && 8 * (y + 2) < u + a && 8 * (y + 2) != u
    ensures 8 * (y + 2) % a != 0
  {
    var v := 8 * (y + 2);
    if u < v {
      NoMultiple(u, a, v);
    } else {
      var q := u / a;
      NextMultiple(u, a);
      AtLeastOne(u, a, q);
      RemainderIs(v, a, q - 1, v - (u - a));
    }
  }

  lemma AtLeastOne(u: nat, a: nat, q: nat)
    requires a > 0 && u > 0 && u == q * a
    ensures q >= 1 && u - a == (q - 1) * a
  {
    assert q == 0 ==> u == 0;
  }

  lemma AlignedChunkIs(p: nat, a: nat)
    requires IsPower(a) && 32 <= a <= TWO63 && 8 * (p + 2) + a - 1 < TWO64 && !Aligned(p, a)
    ensures var u, c := BitAnd(8 * (p + 2) + a - 1, TWO64 - a), AlignedChunk(p, a);
      && u % a == 0 && 8 * (p + 2) <= u < 8 * (p + 2) + a && (u + a) % a == 0 && c >= p + 4
      && (8 * (c + 2) == u || (8 * (c + 2) == u + a && u < 8 * (p + 6)))
  {
    hide IsPower, BitAnd;
    var x := 8 * (p + 2);
    RoundedUp(x, a);
    var u := BitAnd(x + a - 1, TWO64 - a);
    EightDivides(a, u);
    assert u == 8 * (u / 8) && a == 8 * (a / 8);
  }

  /** A misaligned payload: the aligned one is the first behind room for a minimal chunk, and not far. */
  lemma AlignedChunkFits(p: nat, a: nat)
    requires IsPower(a) && 32 <= a <= TWO63 && 8 * (p + 2) + a - 1 < TWO64 && !Aligned(p, a)
    ensures var c := AlignedChunk(p, a); p + 4 <= c <= p + a / 8 + 3 && Aligned(c, a)
    ensures forall y: nat {:trigger Aligned(y, a)} :: p + 4 <= y < AlignedChunk(p, a) ==> !Aligned(y, a)
  {
    AlignedChunkIs(p, a);
    hide IsPower, BitAnd, AlignedChunk;
    var u := BitAnd(8 * (p + 2) + a - 1, TWO64 - a);
    forall y: nat {:trigger Aligned(y, a)} | p + 4 <= y < AlignedChunk(p, a)
      ensures !Aligned(y, a)
    {
      NotAligned(p, a, u, y);
    }
  }
}
