/**
 The rehash in place: old and new table share the buckets of keys and values. A key is in
 a live bucket of the old table, or in a bucket of the new one, or the one in hand.
 */
module Rehashing {
  import opened Shift
  import opened Alignment
  import opened Probing
  import opened BucketFlags
  import opened Tables

  datatype Place = Old(i: nat) | New(i: nat)

  ghost predicate OldOk<K>(f: Flags, ks: seq<K>, pl: map<K, Place>, i: nat)
  {
    Has(f, i) && i < |ks| && (Live(f, i) ==> ks[i] in pl && pl[ks[i]] == Old(i))
  }

  ghost predicate NewOk<K>(g: Flags, ks: seq<K>, pl: map<K, Place>, i: nat)
  {
    Has(g, i) && i < |ks| && !IsDel(g, i) && (!IsEmpty(g, i) ==> ks[i] in pl && pl[ks[i]] == New(i))
  }

  ghost predicate PlaceOk<K, V>(f: Flags, n: nat, g: Flags, m: nat, ks: seq<K>, vs: seq<V>, pl: map<K, Place>, c: map<K, V>,
        hash: K -> nat, k: K)
    requires k in pl && m > 0
  {
    var i := pl[k].i;
    && k in c && i < |ks| && i < |vs| && ks[i] == k && vs[i] == c[k]
    && match pl[k]
       case Old(_) => i < n && Has(f, i) && Live(f, i)
       case New(_) => i < m && Has(g, i) && !IsEmpty(g, i) && Reached(g, m, hash(k), i)
  }

  /** f with n buckets is the old table, g with m buckets the new one; c is what they hold together. */
  ghost predicate Moving<K(!new), V>(f: Flags, n: nat, g: Flags, m: nat, ks: seq<K>, vs: seq<V>, pl: map<K, Place>, c: map<K, V>,
        hash: K -> nat)
    requires m > 0
  {
    && Sized(g, m)
    && (forall i: nat {:trigger OldOk(f, ks, pl, i)} :: i < n ==> OldOk(f, ks, pl, i))
    && (forall i: nat {:trigger NewOk(g, ks, pl, i)} :: i < m ==> NewOk(g, ks, pl, i))
    && (forall k {:trigger PlaceOk(f, n, g, m, ks, vs, pl, c, hash, k)} :: k in pl ==> PlaceOk(f, n, g, m, ks, vs, pl, c, hash, k))
  }

  /** What a table maps its keys to. */
  ghost function Contents<K, V>(pos: map<K, nat>, vs: seq<V>): map<K, V>
    requires forall k :: k in pos ==> pos[k] < |vs|
  {
    map k | k in pos :: vs[pos[k]]
  }

  ghost predicate AllEmpty(g: Flags)
  {
    forall w :: 0 <= w < |g| ==> g[w] == ALL_EMPTY
  }

  /** All keys are in the old table. */
  function AllOld<K>(pos: map<K, nat>): map<K, Place>
  {
    map k | k in pos :: Old(pos[k])
  }

  /** Where the keys are in the new table. */
  function NewPlaces<K>(pl: map<K, Place>): map<K, nat>
  {
    map k | k in pl :: pl[k].i
  }

  lemma MoveStarts<K(!new), V>(f: Flags, n: nat, g: Flags, m: nat, ks: seq<K>, vs: seq<V>, pos: map<K, nat>, hash: K -> nat)
    requires n == 0 ==> pos == map[]
    requires n > 0 ==> TableOk(f, n, ks, pos, hash)
    requires m > 0 && Sized(g, m) && AllEmpty(g) && n <= |ks| && m <= |ks| && n <= |vs| && m <= |vs|
    ensures (forall k :: k in pos ==> pos[k] < |vs|) && Moving(f, n, g, m, ks, vs, AllOld(pos), Contents(pos, vs), hash)
  {
    hide IsEmpty, IsDel;
    HasAll(g, m);
    forall i: nat | i < m
      ensures NewOk(g, ks, AllOld(pos), i)
    {
      WhenAllEmpty(g, i);
    }
    forall k | k in pos
      ensures n > 0 && KeyOk(f, n, ks, pos, hash, k) && pos[k] < |vs|
    {
    }
    forall i: nat | i < n
      ensures OldOk(f, ks, AllOld(pos), i)
    {
      assert BucketOk(f, ks, pos, i);
    }
    forall k | k in AllOld(pos)
      ensures PlaceOk(f, n, g, m, ks, vs, AllOld(pos), Contents(pos, vs), hash, k)
    {
      assert KeyOk(f, n, ks, pos, hash, k);
    }
  }

  /** The key of a live old bucket is taken in hand. */
  lemma PickedUp<K(!new), V>(f: Flags, n: nat, g: Flags, m: nat, ks: seq<K>, vs: seq<V>, pl: map<K, Place>, c: map<K, V>,
        hash: K -> nat, j: nat)
    requires m > 0 && Moving(f, n, g, m, ks, vs, pl, c, hash) && j < n && Has(f, j) && Live(f, j)
    ensures j < |ks| && j < |vs| && ks[j] in pl && ks[j] in c && vs[j] == c[ks[j]]
    ensures Moving(SetDel(f, j), n, g, m, ks, vs, pl - {ks[j]}, c, hash)
    ensures |SetDel(f, j)| == |f| && Has(SetDel(f, j), j) && !Live(SetDel(f, j), j)
    ensures forall i: nat :: i < n && Has(f, i) && !Live(f, i) ==> !Live(SetDel(f, j), i)
  {
    hide SetDel, IsEmpty, IsDel;
    assert OldOk(f, ks, pl, j);
    assert PlaceOk(f, n, g, m, ks, vs, pl, c, hash, ks[j]);
    var f', pl' := SetDel(f, j), pl - {ks[j]};
    LengthKept(f, j);
    forall i: nat | i < n
      ensures OldOk(f', ks, pl', i) && Has(f, i) && (Live(f', i) <==> i != j && Live(f, i))
    {
      assert OldOk(f, ks, pl, i);
      AfterSetDel(f, j, i);
    }
    forall i: nat | i < m
      ensures NewOk(g, ks, pl', i)
    {
      assert NewOk(g, ks, pl, i);
    }
    forall k | k in pl'
      ensures PlaceOk(f', n, g, m, ks, vs, pl', c, hash, k)
    {
      assert PlaceOk(f, n, g, m, ks, vs, pl, c, hash, k);
    }
  }

  /** The key in hand is put into an empty new bucket on its path, no live old one. */
  lemma PutDown<K(!new), V>(f: Flags, n: nat, g: Flags, m: nat, ks: seq<K>, vs: seq<V>, pl: map<K, Place>, c: map<K, V>,
        hash: K -> nat, key: K, i: nat)
    requires m > 0 && Moving(f, n, g, m, ks, vs, pl, c, hash) && key in c && key !in pl
    requires i < m && i < |ks| && i < |vs| && Has(g, i) && IsEmpty(g, i) && Reached(g, m, hash(key), i)
    requires i < n ==> Has(f, i) && !Live(f, i)
    ensures Moving(f, n, SetNotEmpty(g, i), m, ks[i := key], vs[i := c[key]], pl[key := New(i)], c, hash)
    ensures |SetNotEmpty(g, i)| == |g|
  {
    hide SetNotEmpty, IsEmpty, IsDel;
    var g', ks', vs', pl' := SetNotEmpty(g, i), ks[i := key], vs[i := c[key]], pl[key := New(i)];
    LengthKept(g, i);
    assert NewOk(g, ks, pl, i);
    forall j: nat | j < n
      ensures OldOk(f, ks', pl', j)
    {
      assert OldOk(f, ks, pl, j);
    }
    forall j: nat | j < m
      ensures NewOk(g', ks', pl', j) && Has(g, j) && (IsEmpty(g', j) <==> j != i && IsEmpty(g, j))
    {
      assert NewOk(g, ks, pl, j);
      AfterSetNotEmpty(g, i, j);
    }
    forall k | k in pl'
      ensures PlaceOk(f, n, g', m, ks', vs', pl', c, hash, k)
    {
      if k != key {
        assert PlaceOk(f, n, g, m, ks, vs, pl, c, hash, k);
        if pl[k].New? {
          StillReached(g, g', m, hash(k), pl[k].i);
        }
      } else {
        StillReached(g, g', m, hash(k), i);
      }
    }
  }

  /** The new table has an empty bucket as long as it holds fewer keys than buckets. */
  lemma RoomLeft<K(!new), V>(f: Flags, n: nat, g: Flags, m: nat, ks: seq<K>, vs: seq<V>, pl: map<K, Place>, c: map<K, V>, hash: K -> nat)
    requires m > 0 && Moving(f, n, g, m, ks, vs, pl, c, hash)
    ensures forall i: nat :: i < m ==> Has(g, i)
    ensures |Occupied(g, m)| <= |pl|
    ensures (forall k :: k in pl ==> pl[k].New?) ==> |Occupied(g, m)| == |pl|
  {
    HasAll(g, m);
    hide IsEmpty, IsDel, Has, Reached, Sized;
    var s := Occupied(g, m);
    forall i | i in s
      ensures i < |ks| && ks[i] in pl && pl[ks[i]] == New(i)
    {
      assert NewOk(g, ks, pl, i);
    }
    var keys := set i | i in s :: ks[i];
    SameCount(s, keys, ks);
    assert keys <= pl.Keys;
    Fewer(keys, pl.Keys);
    if forall k :: k in pl ==> pl[k].New? {
      forall k | k in pl
        ensures k in keys
      {
        assert PlaceOk(f, n, g, m, ks, vs, pl, c, hash, k);
        assert pl[k].i in s;
      }
      assert keys == pl.Keys;
    }
  }

  /** Nothing is left in the old table: the new one holds everything. */
  lemma MoveEnds<K(!new), V>(f: Flags, n: nat, g: Flags, m: nat, ks: seq<K>, vs: seq<V>, pl: map<K, Place>, c: map<K, V>, hash: K -> nat)
    requires m > 0 && Moving(f, n, g, m, ks, vs, pl, c, hash) && pl.Keys == c.Keys
    requires forall i: nat :: i < n && Has(f, i) ==> !Live(f, i)
    ensures TableOk(g, m, ks, NewPlaces(pl), hash)
    ensures (forall k :: k in NewPlaces(pl) ==> NewPlaces(pl)[k] < |vs|) && Contents(NewPlaces(pl), vs) == c
    ensures (forall i: nat :: i < m ==> Has(g, i)) && |Occupied(g, m)| == |c|
  {
    var pos := NewPlaces(pl);
    forall k | k in pl
      ensures PlaceOk(f, n, g, m, ks, vs, pl, c, hash, k) && pl[k].New?
    {
      assert PlaceOk(f, n, g, m, ks, vs, pl, c, hash, k);
    }
    RoomLeft(f, n, g, m, ks, vs, pl, c, hash);
    assert |pl| == |pl.Keys| == |c.Keys| == |c|;
    forall i: nat | i < m
      ensures BucketOk(g, ks, pos, i)
    {
      assert NewOk(g, ks, pl, i);
    }
    forall k | k in pos
      ensures KeyOk(g, m, ks, pos, hash, k)
    {
      assert PlaceOk(f, n, g, m, ks, vs, pl, c, hash, k);
      assert NewOk(g, ks, pl, pl[k].i);
    }
  }
}
