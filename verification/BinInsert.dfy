/** Putting a free chunk into its bin. */
module BinInsert {
  import opened Shift
  import opened TreeIndex
  import opened SizeTrie
  import opened Words
  import opened Rings
  import opened Bins

  ghost predicate Beside(b: Bins, a: Addr, p: Addr, n: nat)
    requires a in b.size
  {
    p + n <= a || a + b.size[a] <= p
  }

  /** The n words at p are a chunk that is in no bin and overlaps none that is. */
  ghost predicate Insertable(m: seq<Word>, h: Addr, b: Bins, p: Addr, n: nat)
  {
    && First(h) <= p
    && MIN_CHUNK <= n < WORD_LIMIT
    && p + n <= |m|
    && SizeOf(m[p + HEAD]) == n
    && forall a {:trigger Beside(b, a, p, n)} :: a in b.size ==> Beside(b, a, p, n)
  }

  lemma InsertBounds(m: seq<Word>, h: Addr, b: Bins, p: Addr, n: nat)
    requires Insertable(m, h, b, p, n)
    ensures First(h) <= p && p + n <= |m| && MIN_CHUNK <= n < WORD_LIMIT
  {
  }

  /** p chained in behind the front element of the ring of size n. */
  function Chained(b: Bins, p: Addr, n: nat): Bins
    requires n in b.ring && |b.ring[n]| > 0
  {
    b.(size := b.size[p := n], ring := b.ring[n := InsertSecond(b.ring[n], p)])
  }

  /** p as the tree node of the new size n. */
  function Planted(b: Bins, p: Addr, n: nat, t: Trie): Bins
  {
    Bins(b.size[p := n], b.ring[n := [p]], t)
  }

  lemma NotBinned(m: seq<Word>, h: Addr, b: Bins, p: Addr, n: nat)
    requires Shape(h, b) && Insertable(m, h, b, p, n)
    ensures p !in b.size
  {
    forall a | a in b.size
      ensures a != p
    {
      assert Placed(h, b, a) && Beside(b, a, p, n);
    }
  }

  lemma ClearOfRing(m: seq<Word>, h: Addr, b: Bins, p: Addr, n: nat, s: nat)
    requires Shape(h, b) && Insertable(m, h, b, p, n) && s in b.ring
    ensures p !in b.size && ClearOf(b.ring[s], p) && p !in b.ring[s]
  {
    NotBinned(m, h, b, p, n);
    forall k | 0 <= k < |b.ring[s]|
      ensures Rings.Clear(b.ring[s][k], p) && b.ring[s][k] != p
    {
      Element(h, b, s, k);
      if k >= Front(s) {
        assert Beside(b, b.ring[s][k], p, n);
      }
    }
  }

  lemma InsertClear(m: seq<Word>, h: Addr, b: Bins, p: Addr, n: nat)
    requires BinsOk(m, h, b) && Insertable(m, h, b, p, n) && n in b.ring && |b.ring[n]| > 0
    ensures Rings.Clear(b.ring[n][0], p) && Rings.Clear(Succ(b.ring[n], 0), p)
    ensures |b.ring[n]| > 1 ==> Rings.Clear(b.ring[n][0], Succ(b.ring[n], 0))
  {
    ClearOfRing(m, h, b, p, n, n);
    RingSpaced(h, b, n);
  }

  // ---------------------------------------------------------------------------
  // Shape

  lemma ApartAfter(m: seq<Word>, h: Addr, b: Bins, p: Addr, n: nat, b': Bins)
    requires Shape(h, b) && Insertable(m, h, b, p, n) && b'.size == b.size[p := n]
    ensures forall a, c {:trigger Apart(b', a, c)} :: a in b'.size && c in b'.size ==> Apart(b', a, c)
  {
    NotBinned(m, h, b, p, n);
    forall a, c | a in b'.size && c in b'.size
      ensures Apart(b', a, c)
    {
      if a != p && c != p {
        assert Apart(b, a, c);
      } else if a != p {
        assert Beside(b, a, p, n);
      } else if c != p {
        assert Beside(b, c, p, n);
      }
    }
  }

  lemma ShapeChained(m: seq<Word>, h: Addr, b: Bins, p: Addr, n: nat)
    requires Shape(h, b) && Insertable(m, h, b, p, n) && n in b.ring && |b.ring[n]| > 0
    ensures Shape(h, Chained(b, p, n))
  {
    var b' := Chained(b, p, n);
    ClearOfRing(m, h, b, p, n, n);
    ApartAfter(m, h, b, p, n, b');
    forall s | s in b'.ring
      ensures RingShape(h, b', s)
    {
      assert RingShape(h, b, s);
      if s == n {
        var r, r' := b.ring[n], b'.ring[n];
        assert r'[0] == r[0] && r'[1] == p && forall k :: 2 <= k < |r'| ==> r'[k] == r[k - 1];
      }
    }
    forall a | a in b'.size
      ensures Placed(h, b', a)
    {
      if a == p {
        assert b'.ring[n][1] == p;
      } else {
        var k := PlaceOf(h, b, a);
        assert b'.ring[b'.size[a]][if b.size[a] == n && k > 0 then k + 1 else k] == a;
      }
    }
  }

  lemma ShapePlanted(m: seq<Word>, h: Addr, b: Bins, p: Addr, n: nat, t: Trie)
    requires Shape(h, b) && Insertable(m, h, b, p, n) && n !in b.ring && n >= NSMALLBINS
    requires t.node.Keys == b.trie.node.Keys + {n}
    ensures Shape(h, Planted(b, p, n, t))
  {
    var b' := Planted(b, p, n, t);
    ApartAfter(m, h, b, p, n, b');
    NotBinned(m, h, b, p, n);
    forall s | s in b'.ring
      ensures RingShape(h, b', s)
    {
      assert s != n ==> RingShape(h, b, s);
    }
    forall a | a in b'.size
      ensures Placed(h, b', a)
    {
      if a == p {
        assert b'.ring[n][0] == p;
      } else {
        var k := PlaceOf(h, b, a);
        assert b'.ring[b'.size[a]][k] == a;
      }
    }
  }

  // ---------------------------------------------------------------------------
  // insert_small_chunk, and the chaining branch of insert_large_chunk

  lemma OkChained(m: seq<Word>, m': seq<Word>, h: Addr, b: Bins, p: Addr, n: nat)
    requires BinsOk(m, h, b) && Insertable(m, h, b, p, n) && n in b.ring && |b.ring[n]| > 0
    requires n >= MIN_LARGE ==> Mate(m, p, n)
    requires LinkedIn(m, m', b.ring[n], p)
    ensures BinsOk(m', h, Chained(b, p, n))
  {
    hide Bin;
    ShapeChained(m, h, b, p, n);
    ChainedRings(m, m', h, b, p, n);
    ChainedTrees(m, m', h, b, p, n);
    ChainedChains(m, m', h, b, p, n);
    ChainedSizes(m, m', h, b, p, n);
  }

  lemma ChainedWrites(m: seq<Word>, m': seq<Word>, h: Addr, b: Bins, p: Addr, n: nat)
    requires BinsOk(m, h, b) && Insertable(m, h, b, p, n) && n in b.ring && |b.ring[n]| > 0
    requires LinkedIn(m, m', b.ring[n], p)
    ensures BinWrites(m, m', h, b.size[p := n])
  {
    NotBinned(m, h, b, p, n);
    var sz := b.size[p := n];
    LinkNotOff(h, b, sz, n, 0);
    LinkNotOff(h, b, sz, n, Next(|b.ring[n]|, 0));
    assert p in sz;
    assert !OffBins(h, sz, p + FD) && !OffBins(h, sz, p + BK);
  }

  lemma ChainedRings(m: seq<Word>, m': seq<Word>, h: Addr, b: Bins, p: Addr, n: nat)
    requires BinsOk(m, h, b) && Insertable(m, h, b, p, n) && n in b.ring && |b.ring[n]| > 0
    requires LinkedIn(m, m', b.ring[n], p)
    ensures RingsLinked(m', Chained(b, p, n))
  {
    var b' := Chained(b, p, n);
    var q := b.ring[n];
    forall s | s in b'.ring
      ensures RingOk(m', b', s)
    {
      assert RingOk(m, b, s);
      ClearOfRing(m, h, b, p, n, s);
      if s == n {
        RingSpaced(h, b, n);
        LinkedInsert(m, m', q, p);
      } else {
        var r := b.ring[s];
        forall k | 0 <= k < |r| && r[k] + 4 <= |m|
          ensures m'[r[k] + FD] == m[r[k] + FD] && m'[r[k] + BK] == m[r[k] + BK]
        {
          ElementsClear(h, b, s, k, n, 0);
          ElementsClear(h, b, s, k, n, Next(|q|, 0));
          assert Rings.Clear(r[k], p);
        }
        if |r| > 1 || s >= NSMALLBINS {
          LinkedFrame(m, m', r);
        }
      }
    }
  }

  /** Link words of a ring are not tree words of a large chunk. */
  lemma TreeWordsKept(m: seq<Word>, m': seq<Word>, h: Addr, b: Bins, p: Addr, n: nat, s: nat, k: nat)
    requires Shape(h, b) && Insertable(m, h, b, p, n) && n in b.ring && |b.ring[n]| > 0
    requires LinkedIn(m, m', b.ring[n], p)
    requires s in b.ring && s >= NSMALLBINS && k < |b.ring[s]| && b.ring[s][k] + 8 <= |m|
    ensures SameTreeWords(m, m', b.ring[s][k])
  {
    var a, q := b.ring[s][k], b.ring[n];
    Element(h, b, s, k);
    assert Beside(b, a, p, n);
    LinkWordKept(h, b, a, n, 0);
    LinkWordKept(h, b, a, n, Next(|q|, 0));
  }

  lemma LinkWordKept(h: Addr, b: Bins, a: Addr, n: nat, j: nat)
    requires Shape(h, b) && a in b.size && b.size[a] >= NSMALLBINS && n in b.ring && j < |b.ring[n]|
    ensures var y := b.ring[n][j]; y == a || y + 4 <= a || a + 8 <= y + 2
  {
    Element(h, b, n, j);
    assert Placed(h, b, a);
    if j >= Front(n) {
      assert Apart(b, a, b.ring[n][j]);
    }
  }

  lemma HeaderKept(h: Addr, b: Bins, n: nat, j: nat, i: nat)
    requires Shape(h, b) && n in b.ring && j < |b.ring[n]| && i < NTREEBINS
    ensures var y := b.ring[n][j]; TreeBin(h, i) != y + FD && TreeBin(h, i) != y + BK
  {
    Element(h, b, n, j);
  }

  lemma ChainedTrees(m: seq<Word>, m': seq<Word>, h: Addr, b: Bins, p: Addr, n: nat)
    requires BinsOk(m, h, b) && Insertable(m, h, b, p, n) && n in b.ring && |b.ring[n]| > 0
    requires LinkedIn(m, m', b.ring[n], p)
    ensures TreesLinked(m', h, Chained(b, p, n))
  {
    hide Bin;
    var b' := Chained(b, p, n);
    assert forall s :: NodeOf(b', s) == NodeOf(b, s);
    forall s | s in b'.trie.node
      ensures NodeLinked(m', h, b', s)
    {
      assert NodeLinked(m, h, b, s) && RingShape(h, b, s);
      TreeWordsKept(m, m', h, b, p, n, s, 0);
    }
    forall i | 0 <= i < NTREEBINS
      ensures RootLinked(m', h, b', i)
    {
      assert RootLinked(m, h, b, i);
      HeaderKept(h, b, n, 0, i);
      HeaderKept(h, b, n, Next(|b.ring[n]|, 0), i);
    }
  }

  lemma ChainedChains(m: seq<Word>, m': seq<Word>, h: Addr, b: Bins, p: Addr, n: nat)
    requires BinsOk(m, h, b) && Insertable(m, h, b, p, n) && n in b.ring && |b.ring[n]| > 0
    requires n >= MIN_LARGE ==> Mate(m, p, n)
    requires LinkedIn(m, m', b.ring[n], p)
    ensures ChainsOk(m', Chained(b, p, n))
  {
    hide Bin;
    var b' := Chained(b, p, n);
    forall s | s in b'.ring && NSMALLBINS <= s < WORD_LIMIT
      ensures MatesOk(m', b', s)
    {
      assert MatesOk(m, b, s) && RingShape(h, b, s);
      forall k | 1 <= k < |b'.ring[s]|
        ensures Mate(m', b'.ring[s][k], s)
      {
        var j := if s == n then k - 1 else k;
        if s == n && k == 1 {
          LinkWordsBeside(m, h, b, p, n, 0);
          LinkWordsBeside(m, h, b, p, n, Next(|b.ring[n]|, 0));
        } else {
          assert b'.ring[s][k] == b.ring[s][j];
          assert Mate(m, b.ring[s][j], s);
          TreeWordsKept(m, m', h, b, p, n, s, j);
        }
      }
    }
  }

  lemma LinkWordsBeside(m: seq<Word>, h: Addr, b: Bins, p: Addr, n: nat, j: nat)
    requires Shape(h, b) && Insertable(m, h, b, p, n) && n in b.ring && j < |b.ring[n]|
    ensures var y := b.ring[n][j]; y + 4 <= p || p + n <= y
  {
    Element(h, b, n, j);
    if j >= Front(n) {
      assert Beside(b, b.ring[n][j], p, n);
    }
  }

  lemma ChainedSizes(m: seq<Word>, m': seq<Word>, h: Addr, b: Bins, p: Addr, n: nat)
    requires BinsOk(m, h, b) && Insertable(m, h, b, p, n) && n in b.ring && |b.ring[n]| > 0
    requires LinkedIn(m, m', b.ring[n], p)
    ensures SizesOk(m', Chained(b, p, n))
  {
    var b' := Chained(b, p, n);
    var q := b.ring[n];
    forall a | a in b'.size
      ensures SizeWord(m', b', a)
    {
      LinkWordsBeside(m, h, b, p, n, 0);
      LinkWordsBeside(m, h, b, p, n, Next(|q|, 0));
      if a != p {
        assert SizeWord(m, b, a) && Placed(h, b, a) && Beside(b, a, p, n);
        HeadKept(h, b, a, n, 0);
        HeadKept(h, b, a, n, Next(|q|, 0));
      }
    }
  }

  lemma HeadKept(h: Addr, b: Bins, a: Addr, n: nat, j: nat)
    requires Shape(h, b) && a in b.size && n in b.ring && j < |b.ring[n]|
    ensures var y := b.ring[n][j]; a + HEAD != y + FD && a + HEAD != y + BK
  {
    Element(h, b, n, j);
    assert Placed(h, b, a);
    if j >= Front(n) {
      assert Apart(b, a, b.ring[n][j]);
    }
  }

  // ---------------------------------------------------------------------------
  // The branches of insert_large_chunk that make a new tree node

  /** m' is m with p hung at a slot under the node of size q, or at the bin when q is 0. */
  ghost predicate Hung(m: seq<Word>, m': seq<Word>, h: Addr, b: Bins, p: Addr, n: nat, q: nat, bit: nat)
    requires n < WORD_LIMIT
  {
    var w := Slot(h, b, n, q, bit);
    && |m'| == |m|
    && p + 8 <= |m| && w < |m|
    && SameExcept(m, m', {w, p + FD, p + BK, p + CHILD0, p + CHILD1, p + PARENT, p + INDEX})
    && m'[w] == p
    && m'[p + FD] == p && m'[p + BK] == p
    && m'[p + CHILD0] == 0 && m'[p + CHILD1] == 0
    && m'[p + PARENT] == (if q == 0 then TreeBin(h, Bin(n)) else NodeOf(b, q))
    && m'[p + INDEX] == Bin(n)
  }

  /** A new node at p: the premises all the lemmas below share. */
  ghost predicate Planting(m: seq<Word>, m': seq<Word>, h: Addr, b: Bins, p: Addr, n: nat, q: nat, bit: nat)
  {
    && BinsOk(m, h, b)
    && Insertable(m, h, b, p, n)
    && n >= MIN_LARGE && n !in b.trie.node
    && bit < 2 && (q == 0 || q in b.trie.node)
    && Hung(m, m', h, b, p, n, q, bit)
  }

  /** The words of a binned chunk other than the slot are as before. */
  lemma PlantingKeeps(m: seq<Word>, m': seq<Word>, h: Addr, b: Bins, p: Addr, n: nat, q: nat, bit: nat, a: Addr)
    requires Planting(m, m', h, b, p, n, q, bit) && a in b.size
    ensures a + b.size[a] <= |m|
    ensures forall w: nat :: a + HEAD <= w < a + b.size[a] && w != Slot(h, b, n, q, bit) ==> m'[w] == m[w]
    ensures a != NodeOf(b, q) ==> !(a + HEAD <= Slot(h, b, n, q, bit) < a + b.size[a])
  {
    hide Bin;
    assert Beside(b, a, p, n) && SizeWord(m, b, a);
    SlotClear(h, b, n, q, bit, a);
  }

  lemma PlantedRings(m: seq<Word>, m': seq<Word>, h: Addr, b: Bins, p: Addr, n: nat, q: nat, bit: nat, t: Trie)
    requires Planting(m, m', h, b, p, n, q, bit)
    ensures RingsLinked(m', Planted(b, p, n, t))
  {
    hide Bin;
    var b' := Planted(b, p, n, t);
    forall s | s in b'.ring
      ensures RingOk(m', b', s)
    {
      if s == n {
        assert LinkedAt(m', [p], 0);
      } else {
        assert RingOk(m, b, s);
        var r := b.ring[s];
        forall k | 0 <= k < |r| && r[k] + 4 <= |m|
          ensures m'[r[k] + FD] == m[r[k] + FD] && m'[r[k] + BK] == m[r[k] + BK]
        {
          Element(h, b, s, k);
          SlotNotLink(h, b, n, q, bit, s, k);
          if k >= Front(s) {
            PlantingKeeps(m, m', h, b, p, n, q, bit, r[k]);
          }
        }
        if |r| > 1 || s >= NSMALLBINS {
          LinkedFrame(m, m', r);
        }
      }
    }
  }

  lemma PlantedChains(m: seq<Word>, m': seq<Word>, h: Addr, b: Bins, p: Addr, n: nat, q: nat, bit: nat, t: Trie)
    requires Planting(m, m', h, b, p, n, q, bit)
    ensures ChainsOk(m', Planted(b, p, n, t))
  {
    hide Bin;
    var b' := Planted(b, p, n, t);
    forall s | s in b'.ring && NSMALLBINS <= s < WORD_LIMIT
      ensures MatesOk(m', b', s)
    {
      if s != n {
        assert MatesOk(m, b, s);
        forall k | 1 <= k < |b.ring[s]|
          ensures Mate(m', b.ring[s][k], s)
        {
          assert Mate(m, b.ring[s][k], s);
          Element(h, b, s, k);
          if q != 0 {
            assert RingShape(h, b, q);
            ElementsClear(h, b, s, k, q, 0);
          }
          PlantingKeeps(m, m', h, b, p, n, q, bit, b.ring[s][k]);
        }
      }
    }
  }

  lemma PlantedSizes(m: seq<Word>, m': seq<Word>, h: Addr, b: Bins, p: Addr, n: nat, q: nat, bit: nat, t: Trie)
    requires Planting(m, m', h, b, p, n, q, bit)
    ensures SizesOk(m', Planted(b, p, n, t))
  {
    hide Bin;
    var b' := Planted(b, p, n, t);
    if q != 0 {
      assert RingShape(h, b, q);
      Element(h, b, q, 0);
    }
    forall a | a in b'.size
      ensures SizeWord(m', b', a)
    {
      if a != p {
        assert SizeWord(m, b, a) && Placed(h, b, a);
        PlantingKeeps(m, m', h, b, p, n, q, bit, a);
      } else if q != 0 {
        assert Beside(b, NodeOf(b, q), p, n);
      }
    }
  }

  /** A tree node that is not the new one keeps its words but for the slot. */
  /** The words of a tree node after the planting: the child word that is the slot holds p. */
  lemma PlantedWords(m: seq<Word>, m': seq<Word>, h: Addr, b: Bins, p: Addr, n: nat, q: nat, bit: nat, s: nat)
    requires Planting(m, m', h, b, p, n, q, bit) && s in b.trie.node
    ensures s < WORD_LIMIT && s != n && NodeOf(b, s) != 0
    ensures var a := NodeOf(b, s);
      && a + 8 <= |m| == |m'|
      && m'[a + CHILD0] == (if s == q && bit == 0 then p else m[a + CHILD0])
      && m'[a + CHILD1] == (if s == q && bit == 1 then p else m[a + CHILD1])
      && m'[a + PARENT] == m[a + PARENT] && m'[a + INDEX] == m[a + INDEX]
  {
    hide Bin;
    assert NodeOk(b.trie, s) && NodeLinked(m, h, b, s) && RingShape(h, b, s);
    Element(h, b, s, 0);
    NodesDiffer(h, b, s, q);
    PlantingKeeps(m, m', h, b, p, n, q, bit, NodeOf(b, s));
  }

  lemma PlantedNode(m: seq<Word>, m': seq<Word>, h: Addr, b: Bins, p: Addr, n: nat, q: nat, bit: nat, t: Trie, s: nat)
    requires Planting(m, m', h, b, p, n, q, bit) && s in b.trie.node && s in t.node
    requires t.node[s] == if s == q then b.trie.node[s].WithChild(bit, n) else b.trie.node[s]
    ensures NodeLinked(m', h, Planted(b, p, n, t), s)
  {
    hide Bin;
    var b' := Planted(b, p, n, t);
    assert NodeOk(b.trie, s) && ChildOk(b.trie, s, 0) && ChildOk(b.trie, s, 1) && UpOk(b.trie, s);
    assert NodeLinked(m, h, b, s);
    PlantedWords(m, m', h, b, p, n, q, bit, s);
    assert n != 0 && n !in b.trie.node && bit < 2;
    hide Planting, TrieOk;
    assert forall x :: x != n ==> NodeOf(b', x) == NodeOf(b, x);
    assert NodeOf(b', n) == p;
  }

  lemma PlantedRoots(m: seq<Word>, m': seq<Word>, h: Addr, b: Bins, p: Addr, n: nat, q: nat, bit: nat, t: Trie, i: nat)
    requires Planting(m, m', h, b, p, n, q, bit) && i < NTREEBINS
    requires t.root == if q == 0 then b.trie.root[Bin(n) := n] else b.trie.root
    ensures RootLinked(m', h, Planted(b, p, n, t), i)
  {
    hide Bin;
    var b' := Planted(b, p, n, t);
    assert RootLinked(m, h, b, i) && RootOk(b.trie, i);
    if q != 0 {
      assert RingShape(h, b, q);
      Element(h, b, q, 0);
    }
    assert forall x :: x != n ==> NodeOf(b', x) == NodeOf(b, x);
  }

  /** *H = X: the first chunk of a treebin. */
  lemma OkNewRoot(m: seq<Word>, m': seq<Word>, h: Addr, b: Bins, p: Addr, n: nat)
    requires BinsOk(m, h, b) && Insertable(m, h, b, p, n) && n >= MIN_LARGE
    requires b.trie.root[Bin(n)] == 0 && Hung(m, m', h, b, p, n, 0, 0)
    ensures n !in b.trie.node && BinsOk(m', h, Planted(b, p, n, AddRoot(b.trie, n)))
  {
    hide Bin;
    AddRootOk(b.trie, n);
    OkPlanted(m, m', h, b, p, n, 0, 0, AddRoot(b.trie, n));
  }

  /** *C = X: a new leaf where the walk for size n ends. */
  lemma OkNewLeaf(m: seq<Word>, m': seq<Word>, h: Addr, b: Bins, p: Addr, n: nat, q: nat)
    requires BinsOk(m, h, b) && Insertable(m, h, b, p, n) && n !in b.trie.node
    requires OnPath(b.trie, q, n) && b.trie.node[q].level > 0
    requires b.trie.node[q].Child(Shr(n, b.trie.node[q].level - 1) % 2) == 0
    requires Hung(m, m', h, b, p, n, q, Shr(n, b.trie.node[q].level - 1) % 2)
    ensures BinsOk(m', h, Planted(b, p, n, AddLeaf(b.trie, n, q)))
  {
    hide Bin;
    AddLeafOk(b.trie, n, q);
    OkPlanted(m, m', h, b, p, n, q, Shr(n, b.trie.node[q].level - 1) % 2, AddLeaf(b.trie, n, q));
  }

  lemma OkPlanted(m: seq<Word>, m': seq<Word>, h: Addr, b: Bins, p: Addr, n: nat, q: nat, bit: nat, t: Trie)
    requires Planting(m, m', h, b, p, n, q, bit) && TrieOk(t)
    requires t.node.Keys == b.trie.node.Keys + {n}
    requires t.root == if q == 0 then b.trie.root[Bin(n) := n] else b.trie.root
    requires forall s :: s in b.trie.node ==>
      t.node[s] == if s == q then b.trie.node[s].WithChild(bit, n) else b.trie.node[s]
    requires t.node[n].left == 0 && t.node[n].right == 0 && t.node[n].up == q
    ensures BinsOk(m', h, Planted(b, p, n, t))
  {
    hide Bin;
    var b' := Planted(b, p, n, t);
    assert n in b.ring ==> RingShape(h, b, n);
    ShapePlanted(m, h, b, p, n, t);
    PlantedRings(m, m', h, b, p, n, q, bit, t);
    PlantedChains(m, m', h, b, p, n, q, bit, t);
    PlantedSizes(m, m', h, b, p, n, q, bit, t);
    forall s | s in b'.trie.node
      ensures NodeLinked(m', h, b', s)
    {
      if s != n {
        PlantedNode(m, m', h, b, p, n, q, bit, t, s);
      } else {
        assert forall x :: x != n ==> NodeOf(b', x) == NodeOf(b, x);
      }
    }
    forall i | 0 <= i < NTREEBINS
      ensures RootLinked(m', h, b', i)
    {
      PlantedRoots(m, m', h, b, p, n, q, bit, t, i);
    }
  }

  /** Such writes stay in the slot and in the new node. */
  lemma HungWrites(m: seq<Word>, m': seq<Word>, h: Addr, b: Bins, p: Addr, n: nat, q: nat, bit: nat)
    requires Planting(m, m', h, b, p, n, q, bit)
    ensures BinWrites(m, m', h, b.size[p := n])
  {
    hide Bin;
    NotBinned(m, h, b, p, n);
    var sz := b.size[p := n];
    assert p in sz;
    if q != 0 {
      assert RingShape(h, b, q);
      Element(h, b, q, 0);
      assert NodeOf(b, q) in sz;
    }
    assert !OffBins(h, sz, Slot(h, b, n, q, bit));
  }
}
