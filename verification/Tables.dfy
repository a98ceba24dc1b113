/** An open-addressing table as flags and a sequence of keys: where the keys are, and how they are found. */
module Tables {
  import opened Shift
  import opened Alignment
  import opened Probing
  import opened BucketFlags

  predicate Live(f: Flags, i: nat)
    requires Has(f, i)
  {
    !IsEmpty(f, i) && !IsDel(f, i)
  }

  /** A power of two of buckets, with flags for all of them. */
  ghost predicate Sized(f: Flags, n: nat)
  {
    IsPower(n) && 4 <= n && |f| == FlagWords(n)
  }

  lemma HasAll(f: Flags, n: nat)
    requires Sized(f, n)
    ensures forall i: nat :: i < n ==> Has(f, i)
  {
    var k: nat :| n == Pow2(k);
    if n >= 16 {
      assert Pow2(4) == 16;
      Pow2Order(k, 4);
      Pow2Scale(4, k - 4);
      assert n == 16 * Pow2(k - 4);
    }
  }

  /** Probe t for hash value h finds bucket i, and all buckets before on the way are in use or were. */
  ghost predicate ReachedIn(f: Flags, n: nat, h: nat, i: nat, t: nat)
    requires n > 0
  {
    && t < n && Probe(h, t, n) == i
    && forall u: nat {:trigger Probe(h, u, n)} :: u < t ==> Has(f, Probe(h, u, n)) && !IsEmpty(f, Probe(h, u, n))
  }

  ghost predicate Reached(f: Flags, n: nat, h: nat, i: nat)
    requires n > 0
  {
    exists t: nat :: ReachedIn(f, n, h, i, t)
  }

  // ---------------------------------------------------------------------------
  // Where a new key goes

  ghost predicate Tombstone(f: Flags, i: nat)
  {
    Has(f, i) && !IsEmpty(f, i) && IsDel(f, i)
  }

  /** Probe t for hash value h is the first to find an empty bucket. */
  ghost predicate FirstEmpty(f: Flags, n: nat, h: nat, t: nat)
    requires n > 0
  {
    ReachedIn(f, n, h, Probe(h, t, n), t) && Has(f, Probe(h, t, n)) && IsEmpty(f, Probe(h, t, n))
  }

  /** None of the first t probes finds a tombstone. */
  ghost predicate NoTombstone(f: Flags, n: nat, h: nat, t: nat)
    requires n > 0
  {
    forall v: nat {:trigger Probe(h, v, n)} :: v < t ==> !Tombstone(f, Probe(h, v, n))
  }

  /** Probe u is the last of the first t to find a tombstone. */
  ghost predicate LastTombstone(f: Flags, n: nat, h: nat, t: nat, u: nat)
    requires n > 0
  {
    u < t && Tombstone(f, Probe(h, u, n)) && forall v: nat {:trigger Probe(h, v, n)} :: u < v < t ==> !Tombstone(f, Probe(h, v, n))
  }

  /** Bucket x is the last tombstone before the first empty bucket for hash value h; or, where there is none, that empty bucket. */
  ghost predicate SiteIs(f: Flags, n: nat, h: nat, x: nat, tombstone: bool)
    requires n > 0
  {
    exists t: nat {:trigger FirstEmpty(f, n, h, t)} :: FirstEmpty(f, n, h, t) &&
      if tombstone then
        exists u: nat {:trigger LastTombstone(f, n, h, t, u)} :: LastTombstone(f, n, h, t, u) && x == Probe(h, u, n)
      else
        NoTombstone(f, n, h, t) && x == Probe(h, t, n)
  }

  /** Bucket x was the first empty one on its path, and what is before it on the path is in use. */
  ghost predicate FilledOnPath(f: Flags, n: nat, h: nat, x: nat)
    requires n > 0
  {
    exists t: nat {:trigger ReachedIn(f, n, h, x, t)} :: ReachedIn(f, n, h, x, t) &&
      forall u: nat {:trigger Probe(h, u, n)} :: u < t ==> Has(f, Probe(h, u, n)) && Live(f, Probe(h, u, n))
  }

  lemma NowFilled(f: Flags, n: nat, h: nat, x: nat)
    requires n > 0 && SiteIs(f, n, h, x, false) && Has(f, x)
    ensures FilledOnPath(SetLive(f, x), n, h, x)
  {
    hide IsEmpty, IsDel, Probe, SetLive;
    var f' := SetLive(f, x);
    var t: nat :| FirstEmpty(f, n, h, t) && NoTombstone(f, n, h, t) && x == Probe(h, t, n);
    LengthKept(f, x);
    forall u: nat {:trigger Probe(h, u, n)} | u < t
      ensures Has(f', Probe(h, u, n)) && Live(f', Probe(h, u, n))
    {
      AfterSetLive(f, x, Probe(h, u, n));
    }
    assert ReachedIn(f', n, h, x, t);
  }

  /** There is one such bucket. */
  lemma OneSite(f: Flags, n: nat, h: nat, x: nat, tombstone: bool, x': nat, tombstone': bool)
    requires n > 0 && SiteIs(f, n, h, x, tombstone) && SiteIs(f, n, h, x', tombstone')
    ensures x == x' && tombstone == tombstone'
  {
    hide IsEmpty, IsDel, Probe, Has;
    var t: nat :| FirstEmpty(f, n, h, t) &&
      if tombstone then exists u: nat :: LastTombstone(f, n, h, t, u) && x == Probe(h, u, n) else NoTombstone(f, n, h, t) && x == Probe(h, t, n);
    var t': nat :| FirstEmpty(f, n, h, t') &&
      if tombstone' then exists u: nat :: LastTombstone(f, n, h, t', u) && x' == Probe(h, u, n) else NoTombstone(f, n, h, t') && x' == Probe(h, t', n);
    OneEnd(f, n, h, t, t');
    if tombstone && tombstone' {
      var u: nat :| LastTombstone(f, n, h, t, u) && x == Probe(h, u, n);
      var u': nat :| LastTombstone(f, n, h, t, u') && x' == Probe(h, u', n);
    }
  }

  lemma OneEnd(f: Flags, n: nat, h: nat, t: nat, t': nat)
    requires n > 0 && FirstEmpty(f, n, h, t) && FirstEmpty(f, n, h, t')
    ensures t == t'
  {
    hide IsEmpty, Probe, Has;
  }

  /** What one more probe, of a bucket in use, does to the last tombstone seen. */
  lemma TombstoneSeen(f: Flags, n: nat, h: nat, t: nat, u: nat)
    requires n > 0
    ensures NoTombstone(f, n, h, 0)
    ensures Tombstone(f, Probe(h, t, n)) ==> LastTombstone(f, n, h, t + 1, t)
    ensures !Tombstone(f, Probe(h, t, n)) && NoTombstone(f, n, h, t) ==> NoTombstone(f, n, h, t + 1)
    ensures !Tombstone(f, Probe(h, t, n)) && LastTombstone(f, n, h, t, u) ==> LastTombstone(f, n, h, t + 1, u)
  {
    hide Tombstone, Probe;
  }

  /** The search has come to an empty bucket. */
  lemma SiteFound<K>(f: Flags, n: nat, ks: seq<K>, h: nat, key: K, t: nat, u: nat)
    requires n > 0 && Passed(f, n, ks, h, key, t) && t < n && Has(f, Probe(h, t, n)) && IsEmpty(f, Probe(h, t, n))
    ensures NoTombstone(f, n, h, t) ==> SiteIs(f, n, h, Probe(h, t, n), false)
    ensures LastTombstone(f, n, h, t, u) ==> SiteIs(f, n, h, Probe(h, u, n), true)
    ensures LastTombstone(f, n, h, t, u) ==> Tombstone(f, Probe(h, u, n))
  {
    hide IsEmpty, IsDel, Probe;
    assert FirstEmpty(f, n, h, t);
  }

  /** A live bucket is the place of its key. */
  ghost predicate BucketOk<K>(f: Flags, ks: seq<K>, pos: map<K, nat>, i: nat)
  {
    Has(f, i) && i < |ks| && (Live(f, i) ==> ks[i] in pos && pos[ks[i]] == i)
  }

  /** The place of a key is a live bucket that holds it, on its probe path. */
  ghost predicate KeyOk<K>(f: Flags, n: nat, ks: seq<K>, pos: map<K, nat>, hash: K -> nat, k: K)
    requires k in pos && n > 0
  {
    var i := pos[k];
    i < n && i < |ks| && Has(f, i) && Live(f, i) && ks[i] == k && Reached(f, n, hash(k), i)
  }

  /** The live buckets are exactly the places of the keys: no key is there twice, and every key is found. */
  ghost predicate TableOk<K(!new)>(f: Flags, n: nat, ks: seq<K>, pos: map<K, nat>, hash: K -> nat)
    requires n > 0
  {
    && Sized(f, n)
    && (forall i: nat {:trigger BucketOk(f, ks, pos, i)} :: i < n ==> BucketOk(f, ks, pos, i))
    && (forall k {:trigger KeyOk(f, n, ks, pos, hash, k)} :: k in pos ==> KeyOk(f, n, ks, pos, hash, k))
  }

  /** The buckets that are not empty. */
  ghost function Occupied(f: Flags, n: nat): set<nat>
    requires forall i: nat :: i < n ==> Has(f, i)
  {
    set i | i in Below(n) && !IsEmpty(f, i)
  }

  /** The buckets that hold a key. */
  ghost function LiveSet(f: Flags, n: nat): set<nat>
    requires forall i: nat :: i < n ==> Has(f, i)
  {
    set i | i in Below(n) && Live(f, i)
  }

  lemma FreeBucket(f: Flags, n: nat)
    returns (e: nat)
    requires (forall i: nat :: i < n ==> Has(f, i)) && |Occupied(f, n)| < n
    ensures e < n && IsEmpty(f, e)
  {
    var rest := Below(n) - Occupied(f, n);
    assert Below(n) * Occupied(f, n) == Occupied(f, n);
    assert |rest| == n - |Occupied(f, n)|;
    e :| e in rest;
  }

  // ---------------------------------------------------------------------------
  // Searches

  /** The first t buckets on the way of a key are not empty, and do not hold it. */
  ghost predicate Passed<K>(f: Flags, n: nat, ks: seq<K>, h: nat, key: K, t: nat)
    requires n > 0
  {
    forall u: nat {:trigger Probe(h, u, n)} :: u < t ==>
      var i := Probe(h, u, n);
      Has(f, i) && i < |ks| && !IsEmpty(f, i) && (IsDel(f, i) || ks[i] != key)
  }

  /** An empty bucket ends the search: a key that is somewhere is found, or passed, before. */
  lemma Absent<K(!new)>(f: Flags, n: nat, ks: seq<K>, pos: map<K, nat>, hash: K -> nat, key: K, t: nat)
    requires n > 0 && TableOk(f, n, ks, pos, hash) && Passed(f, n, ks, hash(key), key, t)
    requires Has(f, Probe(hash(key), t, n))
    ensures IsEmpty(f, Probe(hash(key), t, n)) ==> key !in pos
  {
    if key in pos {
      assert KeyOk(f, n, ks, pos, hash, key);
      var s: nat :| ReachedIn(f, n, hash(key), pos[key], s);
      assert Probe(hash(key), s, n) == pos[key];
    }
  }

  /** A live bucket with the key is the only one. */
  lemma Found<K(!new)>(f: Flags, n: nat, ks: seq<K>, pos: map<K, nat>, hash: K -> nat, key: K, i: nat)
    requires n > 0 && TableOk(f, n, ks, pos, hash) && i < n && i < |ks| && Has(f, i) && Live(f, i) && ks[i] == key
    ensures key in pos && pos[key] == i
  {
    assert BucketOk(f, ks, pos, i);
  }

  lemma PassedNone<K>(f: Flags, n: nat, ks: seq<K>, h: nat, key: K)
    requires n > 0
    ensures Passed(f, n, ks, h, key, 0)
  {
  }

  lemma PassedMore<K>(f: Flags, n: nat, ks: seq<K>, h: nat, key: K, t: nat)
    requires n > 0 && Passed(f, n, ks, h, key, t)
    requires var i := Probe(h, t, n); Has(f, i) && i < |ks| && !IsEmpty(f, i) && (IsDel(f, i) || ks[i] != key)
    ensures Passed(f, n, ks, h, key, t + 1)
  {
    hide IsEmpty, IsDel, Probe;
  }

  lemma PassedReached<K>(f: Flags, n: nat, ks: seq<K>, h: nat, key: K, t: nat)
    requires n > 0 && Passed(f, n, ks, h, key, t) && t < n
    ensures Reached(f, n, h, Probe(h, t, n))
  {
    assert ReachedIn(f, n, h, Probe(h, t, n), t);
  }

  lemma PassedBucket<K>(f: Flags, n: nat, ks: seq<K>, h: nat, key: K, t: nat, s: nat)
    requires n > 0 && Passed(f, n, ks, h, key, t) && Has(f, Probe(h, s, n))
    ensures s < t ==> !IsEmpty(f, Probe(h, s, n))
  {
  }

  /** A search does not pass an empty bucket, so it ends within the first n probes and never comes back to its start. */
  lemma SearchEnds<K>(f: Flags, n: nat, ks: seq<K>, h: nat, key: K, t: nat, e: nat)
    requires IsPower(n) && n > 0 && Passed(f, n, ks, h, key, t) && e < n && Has(f, e) && IsEmpty(f, e)
    ensures t < n
    ensures t > 0 ==> Probe(h, t, n) != Probe(h, 0, n)
  {
    var s := Covered(h, e, n);
    PassedBucket(f, n, ks, h, key, t, s);
    if t > 0 {
      ProbesDiffer(h, 0, t, n);
    }
  }

  lemma FirstReached(f: Flags, n: nat, h: nat)
    requires n > 0
    ensures ReachedIn(f, n, h, Probe(h, 0, n), 0)
  {
  }

  /** The next probe, as long as there is an empty bucket somewhere. */
  lemma NextReached(f: Flags, n: nat, h: nat, i: nat, t: nat, e: nat)
    requires IsPower(n) && n > 0 && ReachedIn(f, n, h, i, t) && Has(f, i) && e < n && Has(f, e)
    ensures !IsEmpty(f, i) && IsEmpty(f, e) ==> t + 1 < n && ReachedIn(f, n, h, Probe(h, t + 1, n), t + 1)
  {
    var s := Covered(h, e, n);
    assert s < t ==> !IsEmpty(f, Probe(h, s, n));
  }

  // ---------------------------------------------------------------------------
  // Changes

  lemma StillReached(f: Flags, f': Flags, n: nat, h: nat, i: nat)
    requires n > 0 && Reached(f, n, h, i) && |f'| == |f|
    requires forall j: nat :: j < n && Has(f, j) && !IsEmpty(f, j) ==> !IsEmpty(f', j)
    ensures Reached(f', n, h, i)
  {
    var t: nat :| ReachedIn(f, n, h, i, t);
    assert ReachedIn(f', n, h, i, t);
  }

  /** A key put into a bucket on its path that holds none. */
  lemma Inserted<K(!new)>(f: Flags, n: nat, ks: seq<K>, pos: map<K, nat>, hash: K -> nat, key: K, x: nat)
    requires n > 0 && TableOk(f, n, ks, pos, hash) && key !in pos
    requires x < n && x < |ks| && Has(f, x) && !Live(f, x) && Reached(f, n, hash(key), x)
    ensures TableOk(SetLive(f, x), n, ks[x := key], pos[key := x], hash)
  {
    hide SetLive, IsEmpty, IsDel;
    var f', ks', pos' := SetLive(f, x), ks[x := key], pos[key := x];
    HasAll(f, n);
    assert |f'| == |f| by {
      LengthKept(f, x);
    }
    forall j: nat | j < n
      ensures BucketOk(f', ks', pos', j) && (!IsEmpty(f, j) ==> !IsEmpty(f', j)) && (j != x ==> Live(f', j) == Live(f, j)) && (j == x ==> Live(f', j))
    {
      AfterSetLive(f, x, j);
      assert BucketOk(f, ks, pos, j);
    }
    forall k | k in pos'
      ensures KeyOk(f', n, ks', pos', hash, k)
    {
      if k != key {
        assert KeyOk(f, n, ks, pos, hash, k);
      }
      StillReached(f, f', n, hash(k), pos'[k]);
    }
  }

  lemma LengthKept(f: Flags, x: nat)
    requires Has(f, x)
    ensures |SetLive(f, x)| == |SetDel(f, x)| == |SetNotEmpty(f, x)| == |f|
  {
  }

  lemma OccupiedAfter(f: Flags, n: nat, x: nat)
    requires (forall i: nat :: i < n ==> Has(f, i)) && x < n
    ensures |SetLive(f, x)| == |f| && forall i: nat :: i < n ==> Has(SetLive(f, x), i)
    ensures Occupied(SetLive(f, x), n) == Occupied(f, n) + {x}
    ensures |Occupied(SetLive(f, x), n)| == |Occupied(f, n)| + if IsEmpty(f, x) then 1 else 0
  {
    hide SetLive, IsEmpty, IsDel;
    LengthKept(f, x);
    forall i: nat | i < n
      ensures Has(SetLive(f, x), i)
    {
      assert Has(f, i);
    }
    forall j: nat | j < n
      ensures j in Occupied(SetLive(f, x), n) <==> j in Occupied(f, n) + {x}
    {
      AfterSetLive(f, x, j);
    }
    assert x in Occupied(f, n) <==> !IsEmpty(f, x);
    assert !IsEmpty(f, x) ==> Occupied(f, n) + {x} == Occupied(f, n);
    assert Occupied(SetLive(f, x), n) == Occupied(f, n) + {x};
  }

  /** A live bucket marked deleted: its key is gone, all others are still found. */
  lemma Deleted<K(!new)>(f: Flags, n: nat, ks: seq<K>, pos: map<K, nat>, hash: K -> nat, x: nat)
    requires n > 0 && TableOk(f, n, ks, pos, hash) && x < n && Has(f, x) && Live(f, x)
    ensures x < |ks| && ks[x] in pos && TableOk(SetDel(f, x), n, ks, pos - {ks[x]}, hash)
    ensures (forall i: nat :: i < n ==> Has(f, i) && Has(SetDel(f, x), i)) && Occupied(SetDel(f, x), n) == Occupied(f, n)
  {
    hide SetDel, IsEmpty, IsDel;
    HasAll(f, n);
    assert BucketOk(f, ks, pos, x);
    LengthKept(f, x);
    var f', pos' := SetDel(f, x), pos - {ks[x]};
    forall i: nat | i < n
      ensures Has(f', i)
    {
      assert Has(f, i);
    }
    forall j: nat | j < n
      ensures BucketOk(f', ks, pos', j) && IsEmpty(f', j) == IsEmpty(f, j) && (j != x ==> Live(f', j) == Live(f, j))
    {
      AfterSetDel(f, x, j);
      assert BucketOk(f, ks, pos, j);
    }
    forall k | k in pos'
      ensures KeyOk(f', n, ks, pos', hash, k)
    {
      assert KeyOk(f, n, ks, pos, hash, k);
      StillReached(f, f', n, hash(k), pos[k]);
    }
    assert Occupied(f', n) == Occupied(f, n);
  }

  /** The places of the keys are as many as the live buckets. */
  lemma {:induction false} LiveCount<K(!new)>(f: Flags, n: nat, ks: seq<K>, pos: map<K, nat>, hash: K -> nat)
    requires n > 0 && TableOk(f, n, ks, pos, hash)
    ensures forall i: nat :: i < n ==> Has(f, i)
    ensures |LiveSet(f, n)| == |pos|
  {
    HasAll(f, n);
    var s := LiveSet(f, n);
    forall i | i in s
      ensures i < |ks| && ks[i] in pos && pos[ks[i]] == i
    {
      assert BucketOk(f, ks, pos, i);
    }
    forall k | k in pos
      ensures pos[k] in s && pos[k] < |ks| && ks[pos[k]] == k
    {
      assert KeyOk(f, n, ks, pos, hash, k);
    }
    SameCount(s, pos.Keys, ks);
  }

  /** A set of places and the set of the different keys at them. */
  lemma {:induction false} SameCount<K>(s: set<nat>, keys: set<K>, ks: seq<K>)
    requires forall i :: i in s ==> i < |ks| && ks[i] in keys
    requires forall i, j :: i in s && j in s && ks[i] == ks[j] ==> i == j
    requires forall k :: k in keys ==> exists i :: i in s && ks[i] == k
    ensures |s| == |keys|
  {
    if s == {} {
      assert keys == {};
    } else {
      var i :| i in s;
      assert ks[i] in keys;
      SameCount(s - {i}, keys - {ks[i]}, ks);
    }
  }
}
