/** Triangular probing of a table whose size is a power of two. */
module Probing {
  import opened Shift
  import opened Alignment

  /** x & (n - 1), for a table of n buckets. */
  function Bucket(x: nat, n: nat): nat
    requires n > 0
  {
    BitAnd(x, n - 1)
  }

  lemma {:induction false} AndOnes(x: nat, k: nat)
    ensures BitAnd(x, Pow2(k) - 1) == Low(x, k)
  {
    if k > 0 {
      AndOnes(x / 2, k - 1);
      LowStep(x, k);
      OddMask(x, Pow2(k - 1) - 1);
    }
  }

  lemma OddMask(x: nat, y: nat)
    ensures BitAnd(x, 2 * y + 1) == 2 * BitAnd(x / 2, y) + x % 2
  {
  }

  lemma BucketIsMod(x: nat, n: nat)
    requires n > 0 && IsPower(n)
    ensures Bucket(x, n) == x % n < n
  {
    var k: nat :| n == Pow2(k);
    AndOnes(x, k);
  }

  /** How far the t-th probe is from the first. */
  function Tri(t: nat): nat
  {
    if t == 0 then 0 else Tri(t - 1) + t
  }

  lemma {:induction false} TriFormula(t: nat)
    ensures 2 * Tri(t) == t * (t + 1)
  {
    if t > 0 {
      TriFormula(t - 1);
    }
  }

  /** The bucket of probe t for hash value h. */
  function Probe(h: nat, t: nat, n: nat): (i: nat)
    requires n > 0
    ensures i < n
  {
    (h + Tri(t)) % n
  }

  /** i = (i + (++step)) & mask makes the next probe. */
  lemma ProbeStep(h: nat, t: nat, n: nat)
    requires n > 0 && IsPower(n)
    ensures Bucket(Probe(h, t, n) + t + 1, n) == Probe(h, t + 1, n)
    ensures Bucket(h, n) == Probe(h, 0, n)
  {
    BucketIsMod(Probe(h, t, n) + t + 1, n);
    BucketIsMod(h, n);
    AddMod(h + Tri(t), t + 1, n);
  }

  lemma AddMod(x: nat, y: nat, n: nat)
    requires n > 0
    ensures (x % n + y) % n == (x + y) % n
  {
    var k, q, r := x / n, (x % n + y) / n, (x % n + y) % n;
    Divided(x, n);
    Divided(x % n + y, n);
    SumOfMultiples(k, q, n);
    RemainderIs(x + y, n, k + q, r);
  }

  lemma Divided(x: nat, n: nat)
    requires n > 0
    ensures x == (x / n) * n + x % n && 0 <= x % n < n && x / n >= 0
  {
  }

  lemma SumOfMultiples(k: nat, q: nat, n: nat)
    ensures k * n + q * n == (k + q) * n
  {
  }

  /** Equal remainders: the difference is a multiple. */
  lemma EqualMods(x: nat, y: nat, n: nat)
    requires n > 0 && x <= y && x % n == y % n
    ensures (y - x) % n == 0
  {
    assert x == x / n * n + x % n && y == y / n * n + y % n;
    var q := y / n - x / n;
    assert y - x == q * n;
    assert q >= 0 by {
      assert q < 0 ==> q * n < 0;
    }
    RemainderIs(y - x, n, q, 0);
  }

  /** A power of two that divides a product with an odd factor divides the other factor. */
  lemma {:induction false} OddFactor(a: nat, b: nat, k: nat)
    requires b % 2 == 1 && a * b % Pow2(k) == 0
    ensures a % Pow2(k) == 0
  {
    if k > 0 {
      var p := Pow2(k - 1);
      Halved(a * b, p);
      assert a * b % 2 == 0;
      assert a % 2 == 0 by {
        if a % 2 == 1 {
          OddTimesOdd(a, b);
        }
      }
      var c := a / 2;
      assert a * b == 2 * (c * b) by {
        assert a == 2 * c;
      }
      assert c * b % p == 0;
      OddFactor(c, b, k - 1);
      assert a == 2 * p * (c / p) by {
        assert c == p * (c / p);
      }
      MultipleMod(2 * p, c / p);
    } else {
      assert Pow2(k) == 1;
    }
  }

  lemma OddTimesOdd(a: nat, b: nat)
    requires a % 2 == 1 && b % 2 == 1
    ensures a * b % 2 == 1
  {
    var c, d := a / 2, b / 2;
    assert a == 2 * c + 1 && b == 2 * d + 1;
    assert a * b == 2 * (2 * c * d + c + d) + 1;
  }

  /** A multiple of 2p is even, and its half a multiple of p. */
  lemma Halved(x: nat, p: nat)
    requires p > 0 && x % (2 * p) == 0
    ensures x % 2 == 0 && x / 2 % p == 0
  {
    var q := x / (2 * p);
    assert x == 2 * p * q;
    assert x == 2 * (p * q);
    MultipleMod(p, q);
  }

  /** Two probes hit the same bucket only if 2n divides (t - s)(t + s + 1). */
  lemma SameBucket(h: nat, s: nat, t: nat, n: nat)
    requires n > 0 && s <= t && Probe(h, s, n) == Probe(h, t, n)
    ensures (t - s) * (t + s + 1) % (2 * n) == 0
  {
    TriOrder(s, t);
    EqualMods(h + Tri(s), h + Tri(t), n);
    TriDifference(s, t);
    DoubleMultiple(Tri(t) - Tri(s), n);
  }

  lemma TriDifference(s: nat, t: nat)
    requires s <= t
    ensures 2 * (Tri(t) - Tri(s)) == (t - s) * (t + s + 1)
  {
    TriFormula(s);
    TriFormula(t);
  }

  lemma DoubleMultiple(d: nat, n: nat)
    requires n > 0 && d % n == 0
    ensures 2 * d % (2 * n) == 0
  {
    assert d == n * (d / n);
    assert 2 * d == 2 * n * (d / n);
    MultipleMod(2 * n, d / n);
  }

  lemma {:induction false} TriOrder(s: nat, t: nat)
    requires s <= t
    ensures Tri(s) <= Tri(t)
    decreases t
  {
    if s < t {
      TriOrder(s, t - 1);
    }
  }

  /** If 2n = 2^(k+1) divides (t - s)(t + s + 1), it divides one of the factors: they are not both even. */
  lemma OneFactor(s: nat, t: nat, k: nat)
    requires s <= t && (t - s) * (t + s + 1) % Pow2(k + 1) == 0
    ensures (t - s) % Pow2(k + 1) == 0 || (t + s + 1) % Pow2(k + 1) == 0
  {
    var a, b := t - s, t + s + 1;
    assert a + b == 2 * t + 1;
    if b % 2 == 1 {
      OddFactor(a, b, k + 1);
    } else {
      assert a * b == b * a;
      OddFactor(b, a, k + 1);
    }
  }

  /** The first n probes go to different buckets. */
  lemma ProbesDiffer(h: nat, s: nat, t: nat, n: nat)
    requires IsPower(n) && s < t < n
    ensures Probe(h, s, n) != Probe(h, t, n)
  {
    var k: nat :| n == Pow2(k);
    if Probe(h, s, n) == Probe(h, t, n) {
      SameBucket(h, s, t, n);
      OneFactor(s, t, k);
      assert 0 < t - s < 2 * n && 0 < t + s + 1 < 2 * n;
      assert Pow2(k + 1) == 2 * n;
      SmallMod(t - s, 2 * n);
      SmallMod(t + s + 1, 2 * n);
    }
  }

  lemma SmallMod(x: nat, d: nat)
    requires x < d
    ensures x % d == x
  {
    RemainderIs(x, d, 0, x);
  }

  /** The probe sequence first comes back to its start after 2n - 1 steps. */
  lemma FirstReturn(h: nat, n: nat)
    requires IsPower(n)
    ensures Probe(h, 2 * n - 1, n) == Probe(h, 0, n)
    ensures forall t: nat :: 0 < t < 2 * n - 1 ==> Probe(h, t, n) != Probe(h, 0, n)
  {
    var k: nat :| n == Pow2(k);
    forall t: nat | 0 < t < 2 * n - 1
      ensures Probe(h, t, n) != Probe(h, 0, n)
    {
      if Probe(h, t, n) == Probe(h, 0, n) {
        SameBucket(h, 0, t, n);
        assert Pow2(k + 1) == 2 * n;
        OneFactor(0, t, k);
        SmallMod(t, 2 * n);
        SmallMod(t + 1, 2 * n);
      }
    }
    LastProbe(h, n);
  }

  lemma LastProbe(h: nat, n: nat)
    requires n > 0
    ensures Probe(h, 2 * n - 1, n) == Probe(h, 0, n)
  {
    var q := 2 * n - 1;
    TriFormula(q);
    assert q * (2 * n) == 2 * (q * n);
    AddMod(q * n, h, n);
    MultipleMod(n, q);
    assert n * q == q * n;
  }

  // ---------------------------------------------------------------------------
  // The first n probes cover the table

  /** The buckets of the first t probes. */
  ghost function Visited(h: nat, t: nat, n: nat): set<nat>
    requires n > 0
  {
    set u: nat | u < t :: Probe(h, u, n)
  }

  lemma {:induction false} VisitedCount(h: nat, t: nat, n: nat)
    requires IsPower(n) && t <= n && n > 0
    ensures |Visited(h, t, n)| == t
  {
    if t > 0 {
      VisitedCount(h, t - 1, n);
      var i := Probe(h, t - 1, n);
      forall u: nat | u < t - 1
        ensures Probe(h, u, n) != i
      {
        ProbesDiffer(h, u, t - 1, n);
      }
      assert i !in Visited(h, t - 1, n);
      assert Visited(h, t, n) == Visited(h, t - 1, n) + {i};
    } else {
      assert Visited(h, t, n) == {};
    }
  }

  function Below(n: nat): (s: set<nat>)
    ensures |s| == n && forall i: nat :: i in s <==> i < n
  {
    if n == 0 then {} else Below(n - 1) + {n - 1}
  }

  /** Every bucket is probed within the first n probes. */
  lemma Covered(h: nat, i: nat, n: nat) returns (t: nat)
    requires IsPower(n) && i < n
    ensures t < n && Probe(h, t, n) == i
  {
    VisitedCount(h, n, n);
    var v := Visited(h, n, n);
    assert v <= Below(n);
    if i !in v {
      assert v <= Below(n) - {i};
      Fewer(v, Below(n) - {i});
      assert false;
    }
    t :| t < n && Probe(h, t, n) == i;
  }

  lemma {:induction false} Fewer<T>(a: set<T>, b: set<T>)
    requires a <= b
    ensures |a| <= |b|
  {
    if a != {} {
      var x :| x in a;
      Fewer(a - {x}, b - {x});
    }
  }
}
