/** The open-addressing hash table, with its arrays changed in place. */
module HashTables {
  import opened Shift
  import opened Alignment
  import opened RoundUp
  import opened Probing
  import opened BucketFlags
  import opened Tables
  import opened Rehashing

  /** (khint_t)(n * 0.77 + 0.5) */
  function UpperBound(n: nat): (u: nat)
    ensures 100 * u <= 77 * n + 50 < 100 * (u + 1)
  {
    (77 * n + 50) / 100
  }

  /** The size of the table that a resize to newN makes. */
  function TableSize(newN: nat): nat
    requires newN < TWO32
  {
    var m := RoundUp32(newN);
    if m < 4 then 4 else m
  }

  /** A resize of a table of n buckets and so many keys needs memory that it does not get. */
  predicate ResizeFails(n: nat, size: nat, newN: nat, flagsFail: bool, keysFail: bool, valsFail: bool)
    requires newN < TWO32
  {
    size < UpperBound(TableSize(newN)) && (flagsFail || (n < TableSize(newN) && (keysFail || valsFail)))
  }

  lemma TableSizeIs(newN: nat)
    requires newN < TWO32
    ensures IsPower(TableSize(newN)) && 4 <= TableSize(newN) <= TWO31
    ensures newN <= TWO31 ==> newN <= TableSize(newN)
  {
    RoundsUp(newN);
    assert Pow2(2) == 4;
    assert IsPower(4);
    hide RoundUp32;
    if newN == 0 || newN > TWO31 {
      assert RoundUp32(newN) == 0;
    }
  }

  lemma PowersApart(a: nat, b: nat)
    requires IsPower(a) && IsPower(b)
    ensures a < b ==> 2 * a <= b
  {
    var j: nat :| a == Pow2(j);
    var k: nat :| b == Pow2(k);
    if a < b {
      Pow2Order(j, k);
      Pow2Order(k, j + 1);
      assert Pow2(j + 1) == 2 * a;
    }
  }

  /** The two resizes that put asks for: the same size if it is mostly tombstones, else twice the size. */
  lemma TableSizes(n: nat)
    requires n == 0 || (IsPower(n) && 4 <= n <= TWO31)
    ensures n > 0 ==> TableSize(n - 1) == n
    ensures n < TWO31 ==> TableSize(n + 1) == if n == 0 then 4 else 2 * n
    ensures n == TWO31 ==> TableSize(n + 1) == 4
  {
    hide RoundUp32, IsPower;
    if n == 0 {
      RoundsUp(1);
    } else {
      RoundsUp(n - 1);
      PowersApart(RoundUp32(n - 1), n);
      PowersApart(n, RoundUp32(n - 1));
      RoundsUp(n + 1);
      if n < TWO31 {
        TwiceWithin(n);
        PowersApart(n, RoundUp32(n + 1));
        DoublePower(n);
        PowersApart(2 * n, RoundUp32(n + 1));
      }
    }
  }

  lemma DoublePower(n: nat)
    requires IsPower(n)
    ensures IsPower(2 * n)
  {
    var k: nat :| n == Pow2(k);
    assert 2 * n == Pow2(k + 1);
  }

  lemma TwiceWithin(n: nat)
    requires IsPower(n) && n < TWO31
    ensures 2 * n <= TWO31
  {
    PowersOf32();
    assert IsPower(TWO31);
    PowersApart(n, TWO31);
  }

  /** realloc: a block of m elements with the old contents as far as they fit. */
  method Realloc<T(0)>(a: array<T>, m: nat) returns (b: array<T>)
    ensures fresh(b) && b.Length == m
    ensures forall i :: 0 <= i < m && i < a.Length ==> b[i] == a[i]
  {
    b := new T[m];
    forall i | 0 <= i < m && i < a.Length {
      b[i] := a[i];
    }
  }

  /** So many of the n buckets are not empty. */
  ghost predicate OccupiedIs(f: Flags, n: nat, count: nat)
  {
    (forall i: nat :: i < n ==> Has(f, i)) && |Occupied(f, n)| == count
  }

  lemma NothingHeld<K(!new)>(f: Flags, n: nat, ks: seq<K>, hash: K -> nat)
    requires n > 0 && Sized(f, n) && AllEmpty(f) && n <= |ks|
    ensures TableOk(f, n, ks, map[], hash) && OccupiedIs(f, n, 0)
  {
    HasAll(f, n);
    hide IsEmpty, IsDel;
    forall i: nat | i < n
      ensures BucketOk(f, ks, map[], i) && IsEmpty(f, i)
    {
      WhenAllEmpty(f, i);
    }
    assert Occupied(f, n) == {};
  }

  lemma MovingSized<K(!new), V>(f: Flags, n: nat, g: Flags, m: nat, ks: seq<K>, vs: seq<V>, pl: map<K, Place>, c: map<K, V>, hash: K -> nat)
    requires m > 0 && Moving(f, n, g, m, ks, vs, pl, c, hash)
    ensures Sized(g, m) && (forall i: nat :: i < m ==> Has(g, i)) && m <= |ks|
    ensures (forall i: nat :: i < n ==> Has(f, i)) && n <= |ks|
  {
    HasAll(g, m);
    assert NewOk(g, ks, pl, m - 1);
    if n > 0 {
      assert OldOk(f, ks, pl, n - 1);
    }
    forall i: nat | i < n
      ensures Has(f, i)
    {
      assert OldOk(f, ks, pl, i);
    }
  }

  lemma OneLess<K, V>(pl: map<K, Place>, c: map<K, V>, key: K)
    requires key !in pl && pl.Keys + {key} == c.Keys
    ensures |pl| + 1 == |c| && key in c
  {
    assert |pl| == |pl.Keys| && |c| == |c.Keys|;
  }

  /** The buckets of the old table that still hold a key. */
  ghost function OldLive(f: Flags, n: nat): set<nat>
  {
    set i | i in Below(n) && Has(f, i) && Live(f, i)
  }

  ghost predicate Gone(f: Flags, i: nat)
  {
    Has(f, i) ==> !Live(f, i)
  }

  /** What the old table had lost it has not got back. */
  ghost predicate StillGone(f: Flags, f': Flags, n: nat)
  {
    forall i: nat {:trigger Gone(f', i)} :: i < n && Gone(f, i) ==> Gone(f', i)
  }

  lemma GoneStays(f: Flags, f': Flags, f'': Flags, n: nat)
    ensures StillGone(f, f, n)
    ensures StillGone(f, f', n) && StillGone(f', f'', n) ==> StillGone(f, f'', n)
  {
    hide Gone;
  }

  /** The key in hand, with its value, is the one that has no place. */
  ghost predicate InHand<K, V>(key: K, val: V, pl: map<K, Place>, c: map<K, V>)
  {
    key !in pl && pl.Keys + {key} == c.Keys && key in c && c[key] == val
  }

  /** Taking a key out of the old table leaves fewer there. */
  lemma FewerOld(f: Flags, n: nat, i: nat)
    requires i < n && Has(f, i) && Live(f, i)
    ensures OldLive(SetDel(f, i), n) < OldLive(f, n)
    ensures Gone(SetDel(f, i), i) && forall j: nat :: j < n && Gone(f, j) ==> Gone(SetDel(f, i), j)
  {
    hide IsEmpty, IsDel, SetDel;
    LengthKept(f, i);
    forall j: nat | j < n && Has(f, j)
      ensures Has(SetDel(f, i), j) && (Live(SetDel(f, i), j) <==> j != i && Live(f, j))
    {
      AfterSetDel(f, i, j);
    }
    assert i in OldLive(f, n) && i !in OldLive(SetDel(f, i), n);
  }

  /** The key in hand is swapped for the one of a live old bucket. */
  lemma Swapped<K(!new), V>(f: Flags, n: nat, g: Flags, m: nat, ks: seq<K>, vs: seq<V>, pl: map<K, Place>, c: map<K, V>, hash: K -> nat,
        key: K, i: nat)
    requires m > 0 && Moving(f, n, g, m, ks, vs, pl, c, hash) && key !in pl && pl.Keys + {key} == c.Keys
    requires i < m && i < n && i < |ks| && i < |vs| && Has(g, i) && IsEmpty(g, i) && Reached(g, m, hash(key), i) && Has(f, i) && Live(f, i)
    ensures var pl' := (pl - {ks[i]})[key := New(i)];
      && Moving(SetDel(f, i), n, SetNotEmpty(g, i), m, ks[i := key], vs[i := c[key]], pl', c, hash)
      && ks[i] !in pl' && pl'.Keys + {ks[i]} == c.Keys && vs[i] == c[ks[i]]
    ensures OldLive(SetDel(f, i), n) < OldLive(f, n)
    ensures forall j: nat :: j < n && Gone(f, j) ==> Gone(SetDel(f, i), j)
  {
    hide IsEmpty, IsDel, SetDel, SetNotEmpty, Moving, Reached, OldLive;
    PickedUp(f, n, g, m, ks, vs, pl, c, hash, i);
    FewerOld(f, n, i);
    PutDown(SetDel(f, i), n, g, m, ks, vs, pl - {ks[i]}, c, hash, key, i);
    assert (pl - {ks[i]})[key := New(i)].Keys + {ks[i]} == c.Keys;
  }

  lemma GoneIs(f: Flags, i: nat)
    requires Has(f, i)
    ensures Gone(f, i) <==> !Live(f, i)
  {
  }

  lemma Nobody(f: Flags, n: nat)
    requires forall i: nat :: i < n ==> Gone(f, i)
    ensures forall i: nat :: i < n && Has(f, i) ==> !Live(f, i)
  {
    forall i: nat | i < n && Has(f, i)
      ensures !Live(f, i)
    {
      GoneIs(f, i);
    }
  }

  lemma UpperBelow(n: nat)
    requires n >= 4
    ensures 0 < UpperBound(n) < n
  {
  }

  /** A table reads the same from another array that agrees on its buckets. */
  lemma SameTable<K(!new)>(f: Flags, n: nat, ks: seq<K>, ks': seq<K>, pos: map<K, nat>, hash: K -> nat)
    requires n > 0 ==> TableOk(f, n, ks, pos, hash)
    requires n <= |ks| && n <= |ks'| && forall i :: 0 <= i < n ==> ks'[i] == ks[i]
    ensures n > 0 ==> TableOk(f, n, ks', pos, hash)
  {
    hide Live, Reached;
    if n > 0 {
      forall i: nat | i < n
        ensures BucketOk(f, ks', pos, i)
      {
        assert BucketOk(f, ks, pos, i);
      }
      forall k | k in pos
        ensures KeyOk(f, n, ks', pos, hash, k)
      {
        assert KeyOk(f, n, ks, pos, hash, k);
      }
    }
  }

  lemma SameContents<K, V>(pos: map<K, nat>, n: nat, vs: seq<V>, vs': seq<V>)
    requires n <= |vs| && n <= |vs'| && forall i :: 0 <= i < n ==> vs'[i] == vs[i]
    requires forall k :: k in pos ==> pos[k] < n
    ensures Contents(pos, vs') == Contents(pos, vs)
  {
  }

  lemma NoContents<K, V>(pos: map<K, nat>, vs: seq<V>, vs': seq<V>)
    requires pos == map[]
    ensures Contents(pos, vs') == Contents(pos, vs)
  {
  }

  lemma KeysBelow<K(!new)>(f: Flags, n: nat, ks: seq<K>, pos: map<K, nat>, hash: K -> nat)
    requires n > 0 && TableOk(f, n, ks, pos, hash)
    ensures forall k :: k in pos ==> pos[k] < n
  {
    forall k | k in pos
      ensures pos[k] < n
    {
      assert KeyOk(f, n, ks, pos, hash, k);
    }
  }

  /** After the rehash the new table holds the old contents, and still does when the arrays are cut to its size. */
  lemma MovedTable<K(!new), V>(f: Flags, n: nat, g: Flags, m: nat, ks: seq<K>, vs: seq<V>, ks': seq<K>, vs': seq<V>, pl: map<K, Place>,
        c: map<K, V>, hash: K -> nat)
    requires m > 0 && Moving(f, n, g, m, ks, vs, pl, c, hash) && pl.Keys == c.Keys && forall i: nat :: i < n ==> Gone(f, i)
    requires m <= |ks| && m <= |ks'| && forall i :: 0 <= i < m ==> ks'[i] == ks[i]
    requires m <= |vs| && m <= |vs'| && forall i :: 0 <= i < m ==> vs'[i] == vs[i]
    ensures TableOk(g, m, ks', NewPlaces(pl), hash) && OccupiedIs(g, m, |c|) && |NewPlaces(pl)| == |c|
    ensures (forall k :: k in NewPlaces(pl) ==> NewPlaces(pl)[k] < m) && Contents(NewPlaces(pl), vs') == c
  {
    hide TableOk, Moving, Gone, Live;
    Nobody(f, n);
    MoveEnds(f, n, g, m, ks, vs, pl, c, hash);
    SameTable(g, m, ks, ks', NewPlaces(pl), hash);
    KeysBelow(g, m, ks, NewPlaces(pl), hash);
    SameContents(NewPlaces(pl), m, vs, vs');
    assert NewPlaces(pl).Keys == pl.Keys;
    assert |NewPlaces(pl)| == |NewPlaces(pl).Keys| == |c.Keys| == |c|;
  }

  lemma KeyCount<K, V>(pos: map<K, nat>, vs: seq<V>)
    requires forall k :: k in pos ==> pos[k] < |vs|
    ensures Contents(pos, vs).Keys == pos.Keys && |Contents(pos, vs)| == |pos|
  {
    assert Contents(pos, vs).Keys == pos.Keys;
    assert |Contents(pos, vs)| == |Contents(pos, vs).Keys| == |pos.Keys| == |pos|;
  }

  /** put's resize makes room for one more key exactly if the table is not at its largest or is less than half full. */
  lemma ResizeMakesRoom(n: nat, size: nat)
    requires n == 0 || (IsPower(n) && 4 <= n <= TWO31)
    requires size <= UpperBound(n)
    ensures n > 2 * size ==> n > 0 && TableSize(n - 1) == n
    ensures n <= 2 * size || n == 0 ==> TableSize(n + 1) == if n == TWO31 || n == 0 then 4 else 2 * n
    ensures size < UpperBound(if n > 2 * size then TableSize(n - 1) else TableSize(n + 1)) <==> n < TWO31 || n > 2 * size
  {
    hide TableSize, IsPower;
    TableSizes(n);
  }

  class HashTable<K(==,!new,0), V(0)> {
    const hash: K -> nat
    var nBuckets: nat
    var size: nat
    var nOccupied: nat
    var upperBound: nat
    var flags: array<bv32>
    var keys: array<K>
    var vals: array<V>
    ghost var pos: map<K, nat>    // the bucket of each key

    /** The four arrays and the table itself are different objects. */
    ghost predicate Separate()
      reads this
    {
      (flags as object) != (keys as object) && (flags as object) != (vals as object) && (keys as object) != (vals as object)
    }

    ghost predicate Valid()
      reads this, flags, keys, vals
    {
      && Separate()
      && (if nBuckets == 0 then
            size == 0 && nOccupied == 0 && upperBound == 0 && pos == map[]
          else
            && nBuckets <= TWO31 && nBuckets <= keys.Length && nBuckets <= vals.Length
            && TableOk(flags[..], nBuckets, keys[..], pos, hash)
            && size == |pos|
            && upperBound == UpperBound(nBuckets)
            && OccupiedIs(flags[..], nBuckets, nOccupied)
            && nOccupied <= upperBound)
    }

    /** The map the table stands for. */
    ghost function Map(): map<K, V>
      requires Valid()
      reads this, flags, keys, vals
    {
      PlacesWithin();
      Contents(pos, vals[..])
    }

    lemma PlacesWithin()
      requires Valid()
      ensures forall k :: k in pos ==> pos[k] < nBuckets <= vals.Length && pos[k] < keys.Length && keys[pos[k]] == k
    {
      forall k | k in pos
        ensures pos[k] < nBuckets <= vals.Length && pos[k] < keys.Length && keys[pos[k]] == k
      {
        assert KeyOk(flags[..], nBuckets, keys[..], pos, hash, k);
      }
    }

    /** kh_init */
    constructor (hash: K -> nat)
      ensures Valid() && Map() == map[] && this.hash == hash && fresh(flags) && fresh(keys) && fresh(vals)
    {
      this.hash := hash;
      nBuckets, size, nOccupied, upperBound := 0, 0, 0, 0;
      flags, keys, vals := new bv32[0], new K[0], new V[0];
      pos := map[];
    }

    lemma BucketsWithin()
      requires Valid() && nBuckets > 0
      ensures IsPower(nBuckets) && forall i: nat :: i < nBuckets ==> Has(flags[..], i) && i / 16 < flags.Length
    {
      HasAll(flags[..], nBuckets);
    }

    /** The load bound leaves an empty bucket. */
    lemma EmptyBucket() returns (e: nat)
      requires Valid() && nBuckets > 0
      ensures e < nBuckets && Has(flags[..], e) && IsEmpty(flags[..], e)
    {
      BucketsWithin();
      e := FreeBucket(flags[..], nBuckets);
    }

    /** size and n_occupied count the live and the non-empty buckets, and at least one bucket is empty. */
    lemma Counts()
      requires Valid() && nBuckets > 0
      ensures forall i: nat :: i < nBuckets ==> Has(flags[..], i)
      ensures size == |LiveSet(flags[..], nBuckets)| == |Map()|
      ensures nOccupied == |Occupied(flags[..], nBuckets)|
      ensures size <= nOccupied <= upperBound < nBuckets
    {
      BucketsWithin();
      PlacesWithin();
      LiveCount(flags[..], nBuckets, keys[..], pos, hash);
      assert Map().Keys == pos.Keys;
      assert LiveSet(flags[..], nBuckets) <= Occupied(flags[..], nBuckets);
      Fewer(LiveSet(flags[..], nBuckets), Occupied(flags[..], nBuckets));
    }

    /** kh_get: the bucket of the key, or n_buckets. */
    method Get(key: K) returns (x: nat)
      requires Valid()
      ensures x != nBuckets <==> key in Map()
      ensures key in Map() ==> x < nBuckets && pos[key] == x && keys[x] == key && vals[x] == Map()[key]
      ensures forall i: nat :: i < nBuckets && BucketLive(i) && keys[i] == key ==> i == x
    {
      hide EmptyBit, DelBit, EitherBit, Offset, Bucket, Probe, TableOk, Passed, OccupiedIs, IsPower;
      PlacesWithin();
      if nBuckets != 0 {
        BucketsWithin();
        ghost var e := EmptyBucket();
        ghost var h := hash(key);
        PassedNone(flags[..], nBuckets, keys[..], h, key);
        var k := hash(key);
        var i := Bucket(k, nBuckets);
        var last := i;
        var step := 0;
        ProbeStep(h, 0, nBuckets);
        while !EmptyBit(flags[i / 16], Offset(i)) && (DelBit(flags[i / 16], Offset(i)) || keys[i] != key)
          invariant i < nBuckets && i == Probe(h, step, nBuckets) && last == Probe(h, 0, nBuckets)
          invariant Passed(flags[..], nBuckets, keys[..], h, key, step) && step < nBuckets
          decreases nBuckets - step
        {
          ProbeStep(h, step, nBuckets);
          PassedMore(flags[..], nBuckets, keys[..], h, key, step);
          step := step + 1;
          i := Bucket(i + step, nBuckets);
          SearchEnds(flags[..], nBuckets, keys[..], h, key, step, e);
          if i == last {
            assert false;
          }
        }
        Absent(flags[..], nBuckets, keys[..], pos, hash, key, step);
        EitherIs(flags[..], i);
        if EitherBit(flags[i / 16], Offset(i)) {
          x := nBuckets;
        } else {
          Found(flags[..], nBuckets, keys[..], pos, hash, key, i);
          x := i;
        }
        forall j: nat | j < nBuckets && BucketLive(j) && keys[j] == key
          ensures j == x
        {
          Found(flags[..], nBuckets, keys[..], pos, hash, key, j);
        }
      } else {
        x := 0;
      }
    }

    lemma KeyLive(key: K)
      requires Valid() && key in Map()
      ensures pos[key] < nBuckets && keys[pos[key]] == key && BucketLive(pos[key])
    {
      PlacesWithin();
      assert KeyOk(flags[..], nBuckets, keys[..], pos, hash, key);
    }

    /** kh_clear */
    method Clear()
      requires Valid()
      modifies flags, `size, `nOccupied, `pos
      ensures Valid() && Map() == map[] && nBuckets == old(nBuckets) && size == nOccupied == 0
    {
      if nBuckets != 0 {
        forall w | 0 <= w < flags.Length {
          flags[w] := ALL_EMPTY;
        }
        size := 0;
        nOccupied := 0;
        pos := map[];
        NothingHeld(flags[..], nBuckets, keys[..], hash);
      }
    }

    /** kh_del: a live bucket loses its key. */
    method Del(x: nat)
      requires Valid() && x <= nBuckets
      modifies flags, `size, `pos
      ensures Valid() && nBuckets == old(nBuckets) && nOccupied == old(nOccupied)
      ensures if x < nBuckets && old(BucketLive(x)) then size == old(size) - 1 && flags[..] == SetDel(old(flags[..]), x)
              else size == old(size) && flags[..] == old(flags[..])
      ensures Map() == if x < nBuckets && old(BucketLive(x)) then old(Map()) - {keys[x]} else old(Map())
    {
      hide EmptyBit, DelBit, EitherBit, DelTrue, Offset, TableOk, Occupied, UpperBound;
      PlacesWithin();
      if x != nBuckets {
        BucketsWithin();
        EitherIs(flags[..], x);
        if !EitherBit(flags[x / 16], Offset(x)) {
          ghost var f := flags[..];
          Deleted(f, nBuckets, keys[..], pos, hash, x);
          flags[x / 16] := DelTrue(flags[x / 16], Offset(x));
          assert flags[..] == SetDel(f, x);
          size := size - 1;
          pos := pos - {keys[x]};
          assert pos.Keys == old(pos).Keys - {keys[x]};
          PlacesWithin();
        }
      }
    }

    ghost predicate BucketLive(x: nat)
      requires Valid() && x < nBuckets
      reads this, flags, keys, vals
    {
      HasAll(flags[..], nBuckets);
      Live(flags[..], x)
    }

    // -------------------------------------------------------------------------
    // Rehash

    /** The objects of a rehash are all different. */
    ghost predicate Apart(newFlags: array<bv32>)
      reads this
    {
      && Separate() && newFlags != flags
      && (newFlags as object) != (keys as object) && (newFlags as object) != (vals as object)
    }

    /** The first empty bucket on the way of hash value k in the new table. */
    method FindEmpty(newFlags: array<bv32>, m: nat, k: nat) returns (i: nat)
      requires Sized(newFlags[..], m) && (forall i: nat :: i < m ==> Has(newFlags[..], i))
      requires |Occupied(newFlags[..], m)| < m
      ensures i < m && Has(newFlags[..], i) && IsEmpty(newFlags[..], i) && Reached(newFlags[..], m, k, i)
    {
      hide EmptyBit, Offset, Bucket, Probe, IsPower, ReachedIn, Occupied;
      ghost var e := FreeBucket(newFlags[..], m);
      var step := 0;
      ProbeStep(k, 0, m);
      i := Bucket(k, m);
      FirstReached(newFlags[..], m, k);
      while !EmptyBit(newFlags[i / 16], Offset(i))
        invariant i < m && Has(newFlags[..], i) && i == Probe(k, step, m) && ReachedIn(newFlags[..], m, k, i, step) && step < m
        decreases m - step
      {
        NextReached(newFlags[..], m, k, i, step, e);
        ProbeStep(k, step, m);
        step := step + 1;
        i := Bucket(i + step, m);
      }
    }

    /** A bucket takes the key in hand and gives up its own, which is no longer in the old table. */
    method Swap(i: nat, key: K, val: V) returns (key': K, val': V)
      requires Separate() && i < keys.Length && i < vals.Length && Has(flags[..], i)
      modifies flags, keys, vals
      ensures key' == old(keys[i]) && val' == old(vals[i])
      ensures keys[..] == old(keys[..])[i := key] && vals[..] == old(vals[..])[i := val] && flags[..] == SetDel(old(flags[..]), i)
    {
      hide DelTrue, Offset;
      key' := keys[i];
      keys[i] := key;
      val' := vals[i];
      vals[i] := val;
      flags[i / 16] := DelTrue(flags[i / 16], Offset(i));
    }

    /** The first empty bucket on the way of the key in hand is marked as not empty. */
    method Claim(newFlags: array<bv32>, m: nat, key: K, ghost pl: map<K, Place>, ghost c: map<K, V>) returns (i: nat)
      requires Apart(newFlags) && m > 0 && m <= keys.Length && m <= vals.Length
      requires Moving(flags[..], nBuckets, newFlags[..], m, keys[..], vals[..], pl, c, hash)
      requires key !in pl && pl.Keys + {key} == c.Keys && |c| <= m
      modifies newFlags
      ensures flags[..] == old(flags[..]) && keys[..] == old(keys[..]) && vals[..] == old(vals[..])
      ensures i < m && Has(old(newFlags[..]), i) && IsEmpty(old(newFlags[..]), i) && Reached(old(newFlags[..]), m, hash(key), i)
      ensures newFlags[..] == SetNotEmpty(old(newFlags[..]), i)
      ensures i < nBuckets ==> Has(flags[..], i) && (EitherBit(flags[i / 16], Offset(i)) <==> !Live(flags[..], i))
    {
      hide EmptyBit, DelBit, EitherBit, Offset, EmptyFalse, Moving, Reached, Sized, IsEmpty, IsDel, Occupied;
      ghost var f, g, ks, vs := flags[..], newFlags[..], keys[..], vals[..];
      MovingSized(f, nBuckets, g, m, ks, vs, pl, c, hash);
      RoomLeft(f, nBuckets, g, m, ks, vs, pl, c, hash);
      OneLess(pl, c, key);
      i := FindEmpty(newFlags, m, hash(key));
      newFlags[i / 16] := EmptyFalse(newFlags[i / 16], Offset(i));
      assert newFlags[..] == SetNotEmpty(g, i);
      if i < nBuckets {
        EitherIs(f, i);
      }
    }

    /** The bucket i was claimed in the flags g of the new table for the key in hand. */
    ghost predicate Claimed(newFlags: array<bv32>, m: nat, g: Flags, i: nat, key: K, val: V, pl: map<K, Place>, c: map<K, V>)
      reads this, flags, newFlags, keys, vals
    {
      && Apart(newFlags) && i < m <= keys.Length && m <= vals.Length
      && Moving(flags[..], nBuckets, g, m, keys[..], vals[..], pl, c, hash) && InHand(key, val, pl, c)
      && Has(g, i) && IsEmpty(g, i) && Reached(g, m, hash(key), i) && newFlags[..] == SetNotEmpty(g, i)
    }

    /** The key in hand is swapped for the one in its bucket, which is still of the old table. */
    method KickOne(newFlags: array<bv32>, m: nat, i: nat, key: K, val: V, ghost g: Flags, ghost pl: map<K, Place>, ghost c: map<K, V>)
      returns (key': K, val': V, ghost pl': map<K, Place>)
      requires Claimed(newFlags, m, g, i, key, val, pl, c) && i < nBuckets && Has(flags[..], i) && Live(flags[..], i)
      modifies flags, keys, vals
      ensures Moving(flags[..], nBuckets, newFlags[..], m, keys[..], vals[..], pl', c, hash) && InHand(key', val', pl', c)
      ensures OldLive(flags[..], nBuckets) < OldLive(old(flags[..]), nBuckets) && StillGone(old(flags[..]), flags[..], nBuckets)
    {
      hide Moving, Reached, IsEmpty, IsDel, OldLive, SetDel, SetNotEmpty;
      Swapped(flags[..], nBuckets, g, m, keys[..], vals[..], pl, c, hash, key, i);
      pl' := (pl - {keys[i]})[key := New(i)];
      key', val' := Swap(i, key, val);
    }

    /** The key in hand is put in its bucket, which no key of the old table is in. */
    method Settle(newFlags: array<bv32>, m: nat, i: nat, key: K, val: V, ghost g: Flags, ghost pl: map<K, Place>, ghost c: map<K, V>)
      requires Claimed(newFlags, m, g, i, key, val, pl, c) && (i < nBuckets ==> Has(flags[..], i) && !Live(flags[..], i))
      modifies keys, vals
      ensures Moving(flags[..], nBuckets, newFlags[..], m, keys[..], vals[..], pl[key := New(i)], c, hash)
    {
      hide Moving, Reached, IsEmpty, IsDel, SetNotEmpty;
      ghost var ks, vs := keys[..], vals[..];
      PutDown(flags[..], nBuckets, g, m, ks, vs, pl, c, hash, key, i);
      keys[i] := key;
      vals[i] := val;
      assert keys[..] == ks[i := key] && vals[..] == vs[i := val];
    }

    /** The key in hand goes to its place in the new table; a key of the old table that is there is taken in hand instead. */
    method KickOut(newFlags: array<bv32>, m: nat, key0: K, val0: V, ghost pl0: map<K, Place>, ghost c: map<K, V>) returns (ghost pl: map<K, Place>)
      requires Apart(newFlags) && m > 0 && m <= keys.Length && m <= vals.Length
      requires Moving(flags[..], nBuckets, newFlags[..], m, keys[..], vals[..], pl0, c, hash) && InHand(key0, val0, pl0, c) && |c| <= m
      modifies flags, newFlags, keys, vals
      ensures Moving(flags[..], nBuckets, newFlags[..], m, keys[..], vals[..], pl, c, hash) && pl.Keys == c.Keys
      ensures StillGone(old(flags[..]), flags[..], nBuckets)
    {
      hide EmptyBit, DelBit, EitherBit, Offset, SetNotEmpty, Moving, Reached, IsEmpty, IsDel, OldLive, StillGone, Live;
      var key, val := key0, val0;
      pl := pl0;
      GoneStays(flags[..], flags[..], flags[..], nBuckets);
      while true
        invariant Moving(flags[..], nBuckets, newFlags[..], m, keys[..], vals[..], pl, c, hash) && InHand(key, val, pl, c)
        invariant StillGone(old(flags[..]), flags[..], nBuckets)
        decreases OldLive(flags[..], nBuckets)
      {
        ghost var f, g := flags[..], newFlags[..];
        var i := Claim(newFlags, m, key, pl, c);
        if i < nBuckets && !EitherBit(flags[i / 16], Offset(i)) {
          key, val, pl := KickOne(newFlags, m, i, key, val, g, pl, c);
          GoneStays(old(flags[..]), f, flags[..], nBuckets);
        } else {
          Settle(newFlags, m, i, key, val, g, pl, c);
          pl := pl[key := New(i)];
          return;
        }
      }
    }

    /** Every key of the old table goes to the new one. */
    method Rehash(newFlags: array<bv32>, m: nat, ghost c: map<K, V>) returns (ghost pl: map<K, Place>)
      requires Apart(newFlags) && m > 0 && m <= keys.Length && m <= vals.Length
      requires Moving(flags[..], nBuckets, newFlags[..], m, keys[..], vals[..], AllOld(pos), c, hash)
      requires pos.Keys == c.Keys && |c| <= m
      modifies flags, newFlags, keys, vals
      ensures Moving(flags[..], nBuckets, newFlags[..], m, keys[..], vals[..], pl, c, hash) && pl.Keys == c.Keys
      ensures forall i: nat :: i < nBuckets ==> Gone(flags[..], i)
    {
      hide EmptyBit, DelBit, EitherBit, Offset, EmptyFalse, DelTrue, Moving, Sized, IsEmpty, IsDel, OldLive, Occupied, Gone;
      pl := AllOld(pos);
      for j := 0 to nBuckets
        invariant Moving(flags[..], nBuckets, newFlags[..], m, keys[..], vals[..], pl, c, hash) && pl.Keys == c.Keys
        invariant forall i: nat :: i < j ==> Gone(flags[..], i)
      {
        ghost var f, g, ks, vs := flags[..], newFlags[..], keys[..], vals[..];
        MovingSized(f, nBuckets, g, m, ks, vs, pl, c, hash);
        EitherIs(f, j);
        GoneIs(f, j);
        if !EitherBit(flags[j / 16], Offset(j)) {
          PickedUp(f, nBuckets, g, m, ks, vs, pl, c, hash, j);
          FewerOld(f, nBuckets, j);
          var key, val := keys[j], vals[j];
          flags[j / 16] := DelTrue(flags[j / 16], Offset(j));
          assert flags[..] == SetDel(f, j);
          pl := KickOut(newFlags, m, key, val, pl - {key}, c);
        }
      }
    }

    /** kh_resize; the three allocations may fail. */
    method Resize(newN: nat, flagsFail: bool, keysFail: bool, valsFail: bool) returns (ret: int)
      requires Valid() && newN < TWO32
      modifies this, flags, keys, vals
      ensures Valid() && Map() == old(Map()) && size == old(size)
      ensures ret == if ResizeFails(old(nBuckets), size, newN, flagsFail, keysFail, valsFail) then -1 else 0
      ensures ret == -1 || size >= UpperBound(TableSize(newN)) ==> nBuckets == old(nBuckets) && nOccupied == old(nOccupied) && upperBound == old(upperBound)
      ensures ret == 0 && size < UpperBound(TableSize(newN)) ==> nBuckets == TableSize(newN) && nOccupied == size < upperBound
      ensures ret == 0 && size < UpperBound(TableSize(newN)) && nBuckets != old(nBuckets) ==> keys.Length == vals.Length == nBuckets
      ensures (flags == old(flags) || fresh(flags)) && (keys == old(keys) || fresh(keys)) && (vals == old(vals) || fresh(vals))
    {
      hide Valid, TableSize, UpperBound, Contents;
      TableSizeIs(newN);
      UpperBelow(TableSize(newN));
      var m := TableSize(newN);
      if size >= UpperBound(m) {
        return 0;
      }
      if flagsFail {
        return -1;
      }
      var newFlags := new bv32[FlagWords(m)];
      forall w | 0 <= w < newFlags.Length {
        newFlags[w] := ALL_EMPTY;
      }
      Arrays();
      if nBuckets < m {
        var ok := Expand(m, keysFail, valsFail);
        if !ok {
          return -1;
        }
        Arrays();
      }
      Replace(newFlags, m);
      ret := 0;
    }

    lemma Arrays()
      requires Valid()
      ensures Separate() && nBuckets <= keys.Length && nBuckets <= vals.Length && nBuckets <= TWO31
    {
    }

    /** The arrays of keys and values grown to m elements. */
    method Expand(m: nat, keysFail: bool, valsFail: bool) returns (ok: bool)
      requires Valid() && nBuckets < m
      modifies `keys, `vals
      ensures Valid() && Map() == old(Map())
      ensures ok ==> keys.Length == m && vals.Length == m
      ensures ok <==> !(keysFail || valsFail)
      ensures (keys == old(keys) || fresh(keys)) && (vals == old(vals) || fresh(vals))
    {
      hide TableOk, OccupiedIs, UpperBound, Contents;
      PlacesWithin();
      if keysFail {
        return false;
      }
      var newKeys := Realloc(keys, m);
      if nBuckets > 0 {
        assert forall i :: 0 <= i < nBuckets ==> newKeys[..][i] == keys[..][i];
        SameTable(flags[..], nBuckets, keys[..], newKeys[..], pos, hash);
      }
      keys := newKeys;
      if valsFail {
        return false;
      }
      var newVals := Realloc(vals, m);
      if nBuckets > 0 {
        assert forall i :: 0 <= i < nBuckets ==> newVals[..][i] == vals[..][i];
        SameContents(pos, nBuckets, vals[..], newVals[..]);
      } else {
        NoContents(pos, vals[..], newVals[..]);
      }
      vals := newVals;
      ok := true;
    }

    /** The rehash into the new flags, and the fields of the new table. */
    method Replace(newFlags: array<bv32>, m: nat)
      requires Valid() && Apart(newFlags) && m > 0 && m <= keys.Length && m <= vals.Length && m <= TWO31
      requires Sized(newFlags[..], m) && AllEmpty(newFlags[..]) && size < UpperBound(m) <= m
      modifies this, flags, newFlags, keys, vals
      ensures Valid() && Map() == old(Map()) && size == old(size)
      ensures nBuckets == m && nOccupied == size && upperBound == UpperBound(m)
      ensures if m < old(nBuckets) then keys.Length == vals.Length == m else keys == old(keys) && vals == old(vals)
      ensures flags == newFlags && (keys == old(keys) || fresh(keys)) && (vals == old(vals) || fresh(vals))
    {
      hide Valid, Map, TableOk, OccupiedIs, Moving, UpperBound, Gone, Sized, AllEmpty, Contents, IsPower;
      Arrays();
      RehashStarts(newFlags, m);
      ghost var c := Map();
      ghost var pl := Rehash(newFlags, m, c);
      ghost var f, ks, vs := flags[..], keys[..], vals[..];
      if nBuckets > m {
        Shrink(m);
      }
      MovedTable(f, nBuckets, newFlags[..], m, ks, vs, keys[..], vals[..], pl, c, hash);
      Install(newFlags, m, NewPlaces(pl));
    }

    lemma RehashStarts(newFlags: array<bv32>, m: nat)
      requires Valid() && m > 0 && m <= keys.Length && m <= vals.Length && Sized(newFlags[..], m) && AllEmpty(newFlags[..])
      ensures Moving(flags[..], nBuckets, newFlags[..], m, keys[..], vals[..], AllOld(pos), Map(), hash)
      ensures Map().Keys == pos.Keys && |Map()| == size
    {
      hide TableOk, OccupiedIs, Moving, UpperBound, Sized, AllEmpty, Contents;
      PlacesWithin();
      KeyCount(pos, vals[..]);
      MoveStarts(flags[..], nBuckets, newFlags[..], m, keys[..], vals[..], pos, hash);
    }

    /** The arrays of keys and values cut to m elements. */
    method Shrink(m: nat)
      requires m <= keys.Length && m <= vals.Length && Separate()
      modifies `keys, `vals
      ensures fresh(keys) && fresh(vals) && keys.Length == m && vals.Length == m && Separate()
      ensures forall i :: 0 <= i < m ==> keys[..][i] == old(keys[..])[i] && vals[..][i] == old(vals[..])[i]
    {
      keys := Realloc(keys, m);
      vals := Realloc(vals, m);
    }

    /** The fields of the new table. */
    method Install(newFlags: array<bv32>, m: nat, ghost places: map<K, nat>)
      requires Apart(newFlags) && 0 < m <= keys.Length && m <= vals.Length && m <= TWO31
      requires TableOk(newFlags[..], m, keys[..], places, hash) && OccupiedIs(newFlags[..], m, size) && |places| == size
      requires (forall k :: k in places ==> places[k] < m) && size <= UpperBound(m)
      modifies `flags, `nBuckets, `nOccupied, `upperBound, `pos
      ensures Valid() && Map() == Contents(places, vals[..])
      ensures nBuckets == m && nOccupied == size && upperBound == UpperBound(m) && flags == newFlags
    {
      hide TableOk, OccupiedIs, UpperBound, Contents;
      flags := newFlags;
      nBuckets := m;
      nOccupied := size;
      upperBound := UpperBound(nBuckets);
      pos := places;
    }

    // -------------------------------------------------------------------------
    // Put

    /** There is room for one more key, or a resize can make some. */
    predicate Growable()
      reads this
    {
      nOccupied < upperBound || nBuckets < TWO31 || nBuckets > 2 * size
    }

    /** A put would need a resize that does not get its memory. */
    predicate PutFails(flagsFail: bool, keysFail: bool, valsFail: bool)
      requires nBuckets <= TWO31
      reads this
    {
      nOccupied >= upperBound
      && (if nBuckets > 2 * size then ResizeFails(nBuckets, size, nBuckets - 1, flagsFail, keysFail, valsFail)
          else ResizeFails(nBuckets, size, nBuckets + 1, flagsFail, keysFail, valsFail))
    }

    /** The resize of kh_put: tombstones are cleared, or the table is doubled. */
    method MakeRoom(flagsFail: bool, keysFail: bool, valsFail: bool) returns (ok: bool)
      requires Valid()
      modifies this, flags, keys, vals
      ensures old(nOccupied < upperBound) ==> ok && unchanged(this) && unchanged(flags, keys, vals)
      ensures Valid() && Map() == old(Map())
      ensures ok && old(Growable()) ==> nOccupied < upperBound
      ensures ok && old(nOccupied >= upperBound) && old(Growable()) ==>
                nOccupied == size && nBuckets == if old(nBuckets) > 2 * old(size) then old(nBuckets) else if old(nBuckets) == 0 then 4 else 2 * old(nBuckets)
      ensures !ok ==> (flagsFail || keysFail || valsFail) && nBuckets == old(nBuckets) && nOccupied == old(nOccupied)
      ensures ok <==> !old(PutFails(flagsFail, keysFail, valsFail))
      ensures size == old(size)
      ensures !old(Growable()) ==> nOccupied >= upperBound
      ensures (flags == old(flags) || fresh(flags)) && (keys == old(keys) || fresh(keys)) && (vals == old(vals) || fresh(vals))
    {
      hide Map, TableSize, UpperBound, TableOk, OccupiedIs, IsPower;
      ok := true;
      if nOccupied >= upperBound {
        SizeBounds();
        hide Valid;
        ResizeMakesRoom(nBuckets, size);
        var r;
        if nBuckets > 2 * size {
          r := Resize(nBuckets - 1, flagsFail, keysFail, valsFail);
        } else {
          r := Resize(nBuckets + 1, flagsFail, keysFail, valsFail);
        }
        ok := r >= 0;
      }
    }

    lemma SizeBounds()
      requires Valid()
      ensures nBuckets == 0 || (IsPower(nBuckets) && 4 <= nBuckets <= TWO31 && upperBound == UpperBound(nBuckets))
      ensures size <= nOccupied <= upperBound
    {
      if nBuckets > 0 {
        Counts();
      }
    }

    /** The bucket for the key: where it is, or else the last tombstone on its way, or the empty bucket at its end. */
    method FindSite(key: K) returns (x: nat)
      requires Valid() && nBuckets > 0
      ensures x < nBuckets && Has(flags[..], x)
      ensures key in pos ==> x == pos[key] && Live(flags[..], x)
      ensures key !in pos ==> !Live(flags[..], x) && Reached(flags[..], nBuckets, hash(key), x)
      ensures key !in pos ==> SiteIs(flags[..], nBuckets, hash(key), x, !IsEmpty(flags[..], x))
    {
      hide EmptyBit, DelBit, EitherBit, Offset, Bucket, Probe, TableOk, Passed, OccupiedIs, IsPower, ReachedIn, Occupied, UpperBound;
      hide SiteIs, NoTombstone, LastTombstone;
      BucketsWithin();
      ghost var f, ks, n := flags[..], keys[..], nBuckets;
      ghost var e := EmptyBucket();
      ghost var h := hash(key);
      PassedNone(f, n, ks, h, key);
      x := nBuckets;
      var site := nBuckets;
      var k := hash(key);
      var i := Bucket(k, nBuckets);
      ProbeStep(h, 0, nBuckets);
      var step := 0;
      ghost var u := 0;
      TombstoneSeen(f, n, h, 0, 0);
      if EmptyBit(flags[i / 16], Offset(i)) {
        x := i;
      } else {
        var last := i;
        while !EmptyBit(flags[i / 16], Offset(i)) && (DelBit(flags[i / 16], Offset(i)) || keys[i] != key)
          invariant i < n && i == Probe(h, step, n) && last == Probe(h, 0, n) && x == n
          invariant Passed(f, n, ks, h, key, step) && step < n
          invariant site == n || (site < n && IsDel(f, site) && Reached(f, n, h, site))
          invariant if site == n then NoTombstone(f, n, h, step) else LastTombstone(f, n, h, step, u) && site == Probe(h, u, n)
          decreases n - step
        {
          PassedReached(f, n, ks, h, key, step);
          TombstoneSeen(f, n, h, step, u);
          if DelBit(flags[i / 16], Offset(i)) {
            site := i;
            u := step;
          }
          ProbeStep(h, step, n);
          PassedMore(f, n, ks, h, key, step);
          step := step + 1;
          i := Bucket(i + step, nBuckets);
          SearchEnds(f, n, ks, h, key, step, e);
          if i == last {
            assert false;
          }
        }
        if x == nBuckets {
          if EmptyBit(flags[i / 16], Offset(i)) && site != nBuckets {
            x := site;
          } else {
            x := i;
          }
        }
      }
      PassedReached(f, n, ks, h, key, step);
      Absent(f, n, ks, pos, hash, key, step);
      if IsEmpty(f, i) {
        SiteFound(f, n, ks, h, key, step, u);
      }
      if Live(f, i) {
        Found(f, n, ks, pos, hash, key, i);
      }
    }

    /** A tombstone is counted by n_occupied and not by size. */
    lemma Tombstones(x: nat)
      requires Valid() && x < nBuckets && !BucketLive(x) && !BucketEmpty(x)
      ensures size < nOccupied
    {
      hide TableOk, UpperBound, IsEmpty, IsDel;
      Counts();
      assert x in Occupied(flags[..], nBuckets) && x !in LiveSet(flags[..], nBuckets);
      Fewer(LiveSet(flags[..], nBuckets), Occupied(flags[..], nBuckets) - {x});
    }

    /** The part of kh_put after the resize: 1 is returned for an empty bucket, 2 for a tombstone, 0 if the key was there. */
    method PutNow(key: K) returns (x: nat, ret: int)
      requires Valid() && nOccupied < upperBound
      modifies flags, keys, `size, `nOccupied, `pos
      ensures Valid() && x < nBuckets && key in pos && pos[key] == x && keys[x] == key && key in Map()
      ensures ret == 0 <==> key in old(Map())
      ensures ret == 0 ==> Map() == old(Map())
      ensures ret != 0 ==> Map() == old(Map())[key := vals[x]] && size == old(size) + 1
      ensures ret == (if old(BucketLive(x)) then 0 else if old(BucketEmpty(x)) then 1 else 2)
      ensures nOccupied == old(nOccupied) + if ret == 1 then 1 else 0
      ensures nBuckets == old(nBuckets) && (ret == 0 ==> size == old(size)) && (ret == 2 ==> old(size) < old(nOccupied))
      ensures ret > 0 ==> SiteIs(old(flags[..]), nBuckets, hash(key), x, ret == 2) && Has(old(flags[..]), x) && flags[..] == SetLive(old(flags[..]), x)
    {
      hide EmptyBit, DelBit, EitherBit, Offset, TableOk, Occupied, UpperBound, Reached, SiteIs;
      PlacesWithin();
      BucketsWithin();
      x := FindSite(key);
      if EmptyBit(flags[x / 16], Offset(x)) {
        Fill(key, x);
        nOccupied := nOccupied + 1;
        ret := 1;
      } else if DelBit(flags[x / 16], Offset(x)) {
        Tombstones(x);
        Fill(key, x);
        ret := 2;
      } else {
        ret := 0;
      }
    }

    /** The key is written to a bucket on its path that holds none; n_occupied is left to the caller. */
    method Fill(key: K, x: nat)
      requires Valid() && nOccupied < upperBound && x < nBuckets && key !in pos
      requires Has(flags[..], x) && !Live(flags[..], x) && Reached(flags[..], nBuckets, hash(key), x)
      modifies flags, keys, `size, `pos
      ensures Separate() && TableOk(flags[..], nBuckets, keys[..], pos, hash) && pos == old(pos)[key := x]
      ensures size == |pos| == old(size) + 1 && keys[x] == key
      ensures forall k :: k in pos ==> pos[k] < nBuckets
      ensures OccupiedIs(flags[..], nBuckets, nOccupied + if old(IsEmpty(flags[..], x)) then 1 else 0)
      ensures Contents(pos, vals[..]) == old(Map())[key := vals[x]]
      ensures flags[..] == SetLive(old(flags[..]), x)
    {
      hide EmptyBit, DelBit, EitherBit, Offset, BothFalse, TableOk, Occupied, UpperBound, Reached, IsEmpty, IsDel;
      PlacesWithin();
      BucketsWithin();
      ghost var f, ks := flags[..], keys[..];
      Inserted(f, nBuckets, ks, pos, hash, key, x);
      OccupiedAfter(f, nBuckets, x);
      keys[x] := key;
      flags[x / 16] := BothFalse(flags[x / 16], Offset(x));
      size := size + 1;
      assert flags[..] == SetLive(f, x) && keys[..] == ks[x := key];
      pos := pos[key := x];
    }

    ghost predicate BucketEmpty(x: nat)
      requires Valid() && x < nBuckets
      reads this, flags, keys, vals
    {
      HasAll(flags[..], nBuckets);
      IsEmpty(flags[..], x)
    }

    ghost predicate BucketDeleted(x: nat)
      requires Valid() && x < nBuckets
      reads this, flags, keys, vals
    {
      !BucketLive(x) && !BucketEmpty(x)
    }

    /** kh_put: 0 if the key was there, 1 if it went to an empty bucket, 2 if it went to a tombstone, -1 if memory ran out. */
    method Put(key: K, flagsFail: bool, keysFail: bool, valsFail: bool) returns (x: nat, ret: int)
      requires Valid() && Growable()
      modifies this, flags, keys, vals
      ensures Valid() && -1 <= ret <= 2
      ensures ret == -1 ==> x == nBuckets && Map() == old(Map()) && (flagsFail || keysFail || valsFail)
      ensures ret == -1 <==> old(PutFails(flagsFail, keysFail, valsFail))
      ensures ret != -1 ==> x < nBuckets && key in Map() && pos[key] == x && keys[x] == key
      ensures ret == 0 <==> ret != -1 && key in old(Map())
      ensures ret == 0 ==> Map() == old(Map())
      ensures ret > 0 ==> Map() == old(Map())[key := vals[x]]
      ensures size == old(size) + if ret > 0 then 1 else 0
      ensures ret == 1 ==> nOccupied == (if old(nOccupied < upperBound) then old(nOccupied) else old(size)) + 1
      ensures ret == 2 ==> nBuckets == old(nBuckets) && nOccupied == old(nOccupied) < upperBound
      ensures ret > 0 && old(nOccupied < upperBound) ==> x < old(nBuckets) && (if ret == 1 then old(BucketEmpty(x)) else old(BucketDeleted(x)))
      ensures ret > 0 && old(nOccupied < upperBound) ==> SiteIs(old(flags[..]), nBuckets, hash(key), x, ret == 2) && nBuckets == old(nBuckets)
      ensures ret > 0 && old(nOccupied >= upperBound) ==> ret == 1 && FilledOnPath(flags[..], nBuckets, hash(key), x)
      ensures (flags == old(flags) || fresh(flags)) && (keys == old(keys) || fresh(keys)) && (vals == old(vals) || fresh(vals))
    {
      hide Valid, Map;
      hide SiteIs, FilledOnPath;
      var ok := MakeRoom(flagsFail, keysFail, valsFail);
      if !ok {
        return nBuckets, -1;
      }
      assert old(nOccupied < upperBound) ==> flags[..] == old(flags[..]);
      ghost var f := flags[..];
      x, ret := PutNow(key);
      if ret == 1 {
        NowFilled(f, nBuckets, hash(key), x);
      }
    }

    /** kh_val(h, x) = v for the bucket of a key */
    method SetVal(x: nat, v: V)
      requires Valid() && x < nBuckets && BucketLive(x)
      modifies vals
      ensures Valid() && keys[x] in old(Map()) && Map() == old(Map())[keys[x] := v]
    {
      hide TableOk, Occupied, UpperBound;
      PlacesWithin();
      BucketsWithin();
      Found(flags[..], nBuckets, keys[..], pos, hash, keys[x], x);
      vals[x] := v;
      PlacesWithin();
    }
  }
}
