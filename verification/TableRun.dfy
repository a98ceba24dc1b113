/** Runs of the hash table: a client that makes any requests in any order has a finite map. */
module TableRuns {
  import opened Shift
  import opened HashTables

  /** What a client may ask for; the flags say which allocations of a resize fail. */
  datatype Request<K, V> =
    | Insert(key: K, val: V, flagsFail: bool, keysFail: bool, valsFail: bool)    // kh_put, and kh_val of the bucket
    | Find(key: K)                                                               // kh_get, and kh_val of the bucket
    | Remove(key: K)                                                             // kh_del of kh_get
    | Clear
    | Resize(newN: nat, flagsFail: bool, keysFail: bool, valsFail: bool)

  datatype Answer<V> = Added | Replaced | NoMemory | Full | Value(val: V) | NoKey | Done

  /** The map, and whether a full table could still be grown. */
  datatype Moment<K, V> = Moment(m: map<K, V>, growable: bool)

  predicate WellFormed<K, V>(q: Request<K, V>)
  {
    q.Resize? ==> q.newN < TWO32
  }

  /** What a request answers and does to the map. */
  ghost predicate Served<K, V>(q: Request<K, V>, a: Answer<V>, s: Moment<K, V>, s': Moment<K, V>)
  {
    match q
    case Insert(key, val, flagsFail, keysFail, valsFail) =>
      if !s.growable then
        a == Full && s' == s
      else if a == NoMemory then
        (flagsFail || keysFail || valsFail) && s'.m == s.m
      else
        a == (if key in s.m then Replaced else Added) && s'.m == s.m[key := val]
    case Find(key) => s' == s && a == if key in s.m then Value(s.m[key]) else NoKey
    case Remove(key) => s'.m == s.m - {key} && a == if key in s.m then Done else NoKey
    case Clear => s'.m == map[] && a == Done
    case Resize(_, flagsFail, keysFail, valsFail) =>
      s'.m == s.m && (a == Done || (a == NoMemory && (flagsFail || keysFail || valsFail)))
  }

  /** Each answer and each map follows from the one before; fewer than 2^30 keys never make a table that cannot grow. */
  ghost predicate IsTrace<K, V>(qs: seq<Request<K, V>>, answers: seq<Answer<V>>, trace: seq<Moment<K, V>>)
  {
    && |trace| == |qs| + 1 && |answers| == |qs|
    && (forall i {:trigger trace[i]} :: 0 <= i < |trace| && |trace[i].m| < 0x4000_0000 ==> trace[i].growable)
    && (forall i {:trigger qs[i]} :: 0 <= i < |qs| ==> Served(qs[i], answers[i], trace[i], trace[i + 1]))
  }

  lemma LongerTrace<K, V>(qs: seq<Request<K, V>>, answers: seq<Answer<V>>, trace: seq<Moment<K, V>>, i: nat, a: Answer<V>, s: Moment<K, V>)
    requires i < |qs| && IsTrace(qs[..i], answers, trace) && Served(qs[i], a, trace[i], s)
    requires |s.m| < 0x4000_0000 ==> s.growable
    ensures IsTrace(qs[..i + 1], answers + [a], trace + [s])
  {
    hide Served;
    var qs', answers', trace' := qs[..i + 1], answers + [a], trace + [s];
    forall j | 0 <= j < |qs'|
      ensures Served(qs'[j], answers'[j], trace'[j], trace'[j + 1])
    {
      if j < i {
        assert qs[..i][j] == qs'[j];
      }
    }
  }

  ghost function Now<K(!new, 0), V(0)>(t: HashTable<K, V>): Moment<K, V>
    requires t.Valid()
    reads t, t.flags, t.keys, t.vals
  {
    Moment(t.Map(), t.Growable())
  }

  lemma Grows<K(!new, 0), V(0)>(t: HashTable<K, V>)
    requires t.Valid()
    ensures |Now(t).m| < 0x4000_0000 ==> Now(t).growable
  {
    if t.nBuckets > 0 {
      t.Counts();
    }
  }

  method Serve<K(==, !new, 0), V(0)>(t: HashTable<K, V>, q: Request<K, V>) returns (a: Answer<V>)
    requires t.Valid() && WellFormed(q)
    modifies t, t.flags, t.keys, t.vals
    ensures t.Valid() && Served(q, a, old(Now(t)), Now(t))
    ensures (t.flags == old(t.flags) || fresh(t.flags)) && (t.keys == old(t.keys) || fresh(t.keys)) && (t.vals == old(t.vals) || fresh(t.vals))
  {
    hide HashTable.Valid, HashTable.Map, HashTable.BucketLive;
    match q
    case Insert(key, val, flagsFail, keysFail, valsFail) => a := DoInsert(t, key, val, flagsFail, keysFail, valsFail);
    case Find(key) =>
      var x := t.Get(key);
      t.Arrays();
      a := if x != t.nBuckets then Value(t.vals[x]) else NoKey;
    case Remove(key) => a := DoRemove(t, key);
    case Clear =>
      t.Clear();
      a := Done;
    case Resize(newN, flagsFail, keysFail, valsFail) =>
      var r := t.Resize(newN, flagsFail, keysFail, valsFail);
      a := if r < 0 then NoMemory else Done;
  }

  /** The key is put, and its bucket given the value. */
  method DoInsert<K(==, !new, 0), V(0)>(t: HashTable<K, V>, key: K, val: V, flagsFail: bool, keysFail: bool, valsFail: bool) returns (a: Answer<V>)
    requires t.Valid()
    modifies t, t.flags, t.keys, t.vals
    ensures t.Valid() && Served(Insert(key, val, flagsFail, keysFail, valsFail), a, old(Now(t)), Now(t))
    ensures (t.flags == old(t.flags) || fresh(t.flags)) && (t.keys == old(t.keys) || fresh(t.keys)) && (t.vals == old(t.vals) || fresh(t.vals))
  {
    hide HashTable.Valid, HashTable.Map, HashTable.BucketEmpty, HashTable.BucketDeleted, HashTable.BucketLive;
    if !t.Growable() {
      return Full;
    }
    var x, ret := t.Put(key, flagsFail, keysFail, valsFail);
    if ret == -1 {
      return NoMemory;
    }
    t.Arrays();
    t.KeyLive(key);
    ghost var m := t.Map();
    assert m[key := val] == old(t.Map())[key := val];
    t.SetVal(x, val);
    a := if ret == 0 then Replaced else Added;
  }

  /** The key is looked up, and its bucket deleted. */
  method DoRemove<K(==, !new, 0), V(0)>(t: HashTable<K, V>, key: K) returns (a: Answer<V>)
    requires t.Valid()
    modifies t.flags, t`size, t`pos
    ensures t.Valid() && Served(Remove(key), a, old(Now(t)), Now(t))
  {
    hide HashTable.Valid, HashTable.Map, HashTable.BucketLive;
    var x := t.Get(key);
    t.Arrays();
    if x != t.nBuckets {
      t.KeyLive(key);
    }
    a := if x != t.nBuckets then Done else NoKey;
    t.Del(x);
    assert t.Map() == old(t.Map()) - {key};
  }

  /** Every run of the table is a run of a finite map. */
  method Run<K(==, !new, 0), V(0)>(t: HashTable<K, V>, qs: seq<Request<K, V>>) returns (answers: seq<Answer<V>>, ghost trace: seq<Moment<K, V>>)
    requires t.Valid() && forall i :: 0 <= i < |qs| ==> WellFormed(qs[i])
    modifies t, t.flags, t.keys, t.vals
    ensures t.Valid() && IsTrace(qs, answers, trace) && trace[0] == old(Now(t)) && trace[|qs|] == Now(t)
  {
    hide Served, Now;
    answers, trace := [], [Now(t)];
    Grows(t);
    for i := 0 to |qs|
      invariant t.Valid() && IsTrace(qs[..i], answers, trace) && trace[0] == old(Now(t)) && trace[i] == Now(t)
      invariant (t.flags == old(t.flags) || fresh(t.flags)) && (t.keys == old(t.keys) || fresh(t.keys)) && (t.vals == old(t.vals) || fresh(t.vals))
    {
      var a := Serve(t, qs[i]);
      Grows(t);
      LongerTrace(qs, answers, trace, i, a, Now(t));
      answers := answers + [a];
      trace := trace + [Now(t)];
    }
    assert qs[..|qs|] == qs;
  }
}
