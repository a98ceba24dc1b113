/** Taking a free chunk out of its bin. */
module BinRemove {
  import opened Shift
  import opened TreeIndex
  import opened SizeTrie
  import opened Words
  import opened Rings
  import opened Bins
  import opened BinTrees

  /** Element k, not the front, taken out of the ring of size n. */
  function Unchained(b: Bins, n: nat, k: nat): Bins
    requires n in b.ring && k < |b.ring[n]| && |b.ring[n]| > 1
  {
    b.(size := b.size - {b.ring[n][k]}, ring := b.ring[n := Without(b.ring[n], k)])
  }

  /** The only chunk of size n taken out, and its size out of the trees. */
  function Uprooted(b: Bins, n: nat, t: Trie): Bins
    requires n in b.ring && |b.ring[n]| > 0
  {
    Bins(b.size - {b.ring[n][0]}, b.ring - {n}, t)
  }

  // ---------------------------------------------------------------------------
  // Shape

  lemma WithoutPlaces(r: seq<Addr>, k: nat)
    requires k < |r| && |r| > 1 && Distinct(r)
    ensures Distinct(Without(r, k)) && r[k] !in Without(r, k)
    ensures forall j :: 0 <= j < |r| && j != k ==> r[j] in Without(r, k)
    ensures k > 0 ==> Without(r, k)[0] == r[0]
    ensures forall i :: 0 <= i < |Without(r, k)| ==> Without(r, k)[i] in r
  {
    var r' := Without(r, k);
    forall j | 0 <= j < |r| && j != k
      ensures r[j] in r'
    {
      assert r[j] == r'[if k > 0 then (if j < k then j else j - 1) else (if j == |r| - 1 then 0 else j)];
    }
  }

  lemma ShapeUnchained(h: Addr, b: Bins, n: nat, k: nat)
    requires Shape(h, b) && n in b.ring && |b.ring[n]| > 1 && Front(n) <= k < |b.ring[n]|
    ensures Shape(h, Unchained(b, n, k))
  {
    var b' := Unchained(b, n, k);
    forall s | s in b'.ring
      ensures RingShape(h, b', s)
    {
      RingUnchained(h, b, n, k, s);
    }
    forall a | a in b'.size
      ensures Placed(h, b', a)
    {
      PlacedUnchained(h, b, n, k, a);
    }
    forall a, c | a in b'.size && c in b'.size
      ensures Apart(b', a, c)
    {
      assert Apart(b, a, c);
    }
  }

  lemma RingUnchained(h: Addr, b: Bins, n: nat, k: nat, s: nat)
    requires Shape(h, b) && n in b.ring && |b.ring[n]| > 1 && Front(n) <= k < |b.ring[n]| && s in b.ring
    ensures RingShape(h, Unchained(b, n, k), s)
  {
    var b' := Unchained(b, n, k);
    var r, r' := b.ring[n], b'.ring[n];
    assert RingShape(h, b, n) && RingShape(h, b, s);
    WithoutPlaces(r, k);
    Element(h, b, n, k);
    if s == n && n < NSMALLBINS {
      assert forall i :: 1 <= i < |r'| ==> r'[i] != r'[0];
      forall i | 1 <= i < |r'|
        ensures r'[i] in b'.size && b'.size[r'[i]] == s
      {
        var j :| 0 <= j < |r| && r[j] == r'[i];
      }
    }
  }

  lemma PlacedUnchained(h: Addr, b: Bins, n: nat, k: nat, a: Addr)
    requires Shape(h, b) && n in b.ring && |b.ring[n]| > 1 && Front(n) <= k < |b.ring[n]|
    requires a in Unchained(b, n, k).size
    ensures Placed(h, Unchained(b, n, k), a)
  {
    var b' := Unchained(b, n, k);
    var r, r' := b.ring[n], b'.ring[n];
    assert RingShape(h, b, n);
    WithoutPlaces(r, k);
    var j := PlaceOf(h, b, a);
    if b.size[a] == n {
      assert j != k && a in r';
      var i :| 0 <= i < |r'| && r'[i] == a;
      assert n < NSMALLBINS ==> a != r[0];
    } else {
      assert b'.ring[b'.size[a]][j] == a;
    }
  }

  lemma ShapeUprooted(h: Addr, b: Bins, n: nat, t: Trie)
    requires Shape(h, b) && n in b.ring && n >= NSMALLBINS && |b.ring[n]| == 1
    requires t.node.Keys == b.trie.node.Keys - {n}
    ensures Shape(h, Uprooted(b, n, t))
  {
    var b' := Uprooted(b, n, t);
    Element(h, b, n, 0);
    forall s | s in b'.ring
      ensures RingShape(h, b', s)
    {
      assert RingShape(h, b, s);
    }
    forall a | a in b'.size
      ensures Placed(h, b', a)
    {
      var j := PlaceOf(h, b, a);
      assert b.size[a] != n;
      assert b'.ring[b'.size[a]][j] == a;
    }
    forall a, c | a in b'.size && c in b'.size
      ensures Apart(b', a, c)
    {
      assert Apart(b, a, c);
    }
  }

  // ---------------------------------------------------------------------------
  // Joining the neighbours in a ring

  ghost predicate Unlinking(m: seq<Word>, m': seq<Word>, h: Addr, b: Bins, n: nat, k: nat)
  {
    && BinsOk(m, h, b)
    && n in b.ring && |b.ring[n]| > 1 && Front(n) <= k < |b.ring[n]|
    && LinkedOut(m, m', b.ring[n], k)
  }

  /** The words that joining ring n writes are link words of ring n. */
  lemma UnlinkingKeeps(m: seq<Word>, m': seq<Word>, h: Addr, b: Bins, n: nat, k: nat, a: Addr)
    requires Unlinking(m, m', h, b, n, k) && a in b.size
    ensures a + b.size[a] <= |m|
    ensures forall w: nat :: a + HEAD <= w < a + b.size[a] && w != a + FD && w != a + BK ==> m'[w] == m[w]
  {
    var r := b.ring[n];
    assert SizeWord(m, b, a) && Placed(h, b, a);
    ElementBeside(h, b, n, Prev(|r|, k), a);
    ElementBeside(h, b, n, Next(|r|, k), a);
  }

  lemma ElementBeside(h: Addr, b: Bins, n: nat, j: nat, a: Addr)
    requires Shape(h, b) && a in b.size && n in b.ring && j < |b.ring[n]|
    ensures var y := b.ring[n][j]; y == a || y + 4 <= a || a + b.size[a] <= y
  {
    Element(h, b, n, j);
    assert Placed(h, b, a);
    if j >= Front(n) {
      assert Apart(b, a, b.ring[n][j]);
    }
  }

  lemma UnlinkingRings(m: seq<Word>, m': seq<Word>, h: Addr, b: Bins, n: nat, k: nat)
    requires Unlinking(m, m', h, b, n, k)
    ensures |b.ring[n]| > 2 || n >= NSMALLBINS ==> Linked(m', Without(b.ring[n], k))
    ensures forall s :: s in b.ring && s != n ==> RingOk(m', b, s)
  {
    var q := b.ring[n];
    assert RingOk(m, b, n);
    RingSpaced(h, b, n);
    if |q| > 2 {
      LinkedRemove(m, m', q, k);
    } else {
      assert LinkedAt(m', Without(q, k), 0);
    }
    forall s | s in b.ring && s != n
      ensures RingOk(m', b, s)
    {
      assert RingOk(m, b, s);
      var r := b.ring[s];
      forall j | 0 <= j < |r| && r[j] + 4 <= |m|
        ensures m'[r[j] + FD] == m[r[j] + FD] && m'[r[j] + BK] == m[r[j] + BK]
      {
        ElementsClear(h, b, s, j, n, Prev(|q|, k));
        ElementsClear(h, b, s, j, n, Next(|q|, k));
      }
      if |r| > 1 || s >= NSMALLBINS {
        LinkedFrame(m, m', r);
      }
    }
  }

  lemma UnlinkingTrees(m: seq<Word>, m': seq<Word>, h: Addr, b: Bins, n: nat, k: nat)
    requires Unlinking(m, m', h, b, n, k)
    ensures TreesLinked(m', h, b)
  {
    hide Bin;
    forall s | s in b.trie.node
      ensures NodeLinked(m', h, b, s)
    {
      assert NodeLinked(m, h, b, s) && RingShape(h, b, s);
      Element(h, b, s, 0);
      UnlinkingKeeps(m, m', h, b, n, k, NodeOf(b, s));
    }
    forall i | 0 <= i < NTREEBINS
      ensures RootLinked(m', h, b, i)
    {
      assert RootLinked(m, h, b, i);
      Element(h, b, n, Prev(|b.ring[n]|, k));
      Element(h, b, n, Next(|b.ring[n]|, k));
    }
  }

  /** unlink_small_chunk when other chunks stay, and unlink_large_chunk of a chained chunk. */
  lemma OkUnchained(m: seq<Word>, m': seq<Word>, h: Addr, b: Bins, n: nat, k: nat)
    requires Unlinking(m, m', h, b, n, k) && k > 0
    ensures BinsOk(m', h, Unchained(b, n, k))
  {
    hide Bin;
    var b' := Unchained(b, n, k);
    var q := b.ring[n];
    assert RingShape(h, b, n);
    ShapeUnchained(h, b, n, k);
    UnlinkingRings(m, m', h, b, n, k);
    UnlinkingTrees(m, m', h, b, n, k);
    WithoutPlaces(q, k);
    forall s | s in b'.ring
      ensures RingOk(m', b', s)
    {
      assert s != n ==> RingOk(m', b, s);
    }
    UnchainedTrees(m', h, b, n, k);
    UnchainedChains(m, m', h, b, n, k);
    forall a | a in b'.size
      ensures SizeWord(m', b', a)
    {
      assert SizeWord(m, b, a) && Placed(h, b, a);
      UnlinkingKeeps(m, m', h, b, n, k, a);
    }
  }

  lemma UnchainedTrees(m: seq<Word>, h: Addr, b: Bins, n: nat, k: nat)
    requires TreesLinked(m, h, b) && n in b.ring && 0 < k < |b.ring[n]|
    ensures TreesLinked(m, h, Unchained(b, n, k))
  {
    hide Bin;
    var b' := Unchained(b, n, k);
    assert forall s :: NodeOf(b', s) == NodeOf(b, s);
    forall s | s in b'.trie.node
      ensures NodeLinked(m, h, b', s)
    {
      assert NodeLinked(m, h, b, s);
    }
    forall i | 0 <= i < NTREEBINS
      ensures RootLinked(m, h, b', i)
    {
      assert RootLinked(m, h, b, i);
    }
  }

  lemma UnchainedChains(m: seq<Word>, m': seq<Word>, h: Addr, b: Bins, n: nat, k: nat)
    requires Unlinking(m, m', h, b, n, k) && k > 0
    ensures ChainsOk(m', Unchained(b, n, k))
  {
    hide Bin;
    var b' := Unchained(b, n, k);
    forall s | s in b'.ring && NSMALLBINS <= s < WORD_LIMIT
      ensures MatesOk(m', b', s)
    {
      assert MatesOk(m, b, s);
      forall j | 1 <= j < |b'.ring[s]|
        ensures Mate(m', b'.ring[s][j], s)
      {
        var i := if s == n && j >= k then j + 1 else j;
        assert b'.ring[s][j] == b.ring[s][i];
        assert Mate(m, b.ring[s][i], s);
        Element(h, b, s, i);
        UnlinkingKeeps(m, m', h, b, n, k, b.ring[s][i]);
      }
    }
  }

  /** unlink_small_chunk of the only chunk of its bin: nothing is written, the header goes stale. */
  lemma OkEmptied(m: seq<Word>, h: Addr, b: Bins, n: nat)
    requires BinsOk(m, h, b) && n < NSMALLBINS && |b.ring[n]| == 2
    ensures BinsOk(m, h, Unchained(b, n, 1))
  {
    hide Bin;
    var b' := Unchained(b, n, 1);
    ShapeUnchained(h, b, n, 1);
    UnchainedTrees(m, h, b, n, 1);
    forall s | s in b'.ring
      ensures RingOk(m, b', s)
    {
      assert RingOk(m, b, s);
    }
    forall s | s in b'.ring && NSMALLBINS <= s < WORD_LIMIT
      ensures MatesOk(m, b', s)
    {
      assert MatesOk(m, b, s);
      forall j | 1 <= j < |b'.ring[s]|
        ensures Mate(m, b'.ring[s][j], s)
      {
        assert Mate(m, b.ring[s][j], s);
      }
    }
    forall a | a in b'.size
      ensures SizeWord(m, b', a)
    {
      assert SizeWord(m, b, a);
    }
  }

  lemma UnlinkingWrites(m: seq<Word>, m': seq<Word>, h: Addr, b: Bins, n: nat, k: nat)
    requires Unlinking(m, m', h, b, n, k)
    ensures BinWrites(m, m', h, b.size)
  {
    LinkNotOff(h, b, b.size, n, Prev(|b.ring[n]|, k));
    LinkNotOff(h, b, b.size, n, Next(|b.ring[n]|, k));
  }

  /** The neighbours of a binned chunk as its link words name them. */
  lemma Neighbours(m: seq<Word>, h: Addr, b: Bins, p: Addr) returns (k: nat)
    requires BinsOk(m, h, b) && p in b.size
    ensures var n := b.size[p]; n in b.ring && Front(n) <= k < |b.ring[n]| && b.ring[n][k] == p
    ensures var r := b.ring[b.size[p]];
      && Within(m, r) && Distinct(r) && p + 4 <= |m| && First(h) <= p
      && (|r| > 1 || b.size[p] >= NSMALLBINS ==> m[p + FD] == Succ(r, k) && m[p + BK] == Pred(r, k))
      && (b.size[p] < NSMALLBINS ==> |r| > 1 && r[0] == SmallBin(h, b.size[p]))
      && (|r| > 1 ==> (Succ(r, k) == Pred(r, k) <==> |r| == 2))
      && (|r| > 2 ==> Rings.Clear(Succ(r, k), Pred(r, k)))
      && (forall i :: Front(b.size[p]) <= i < |r| ==> First(h) <= r[i])
  {
    k := PlaceOf(h, b, p);
    var n := b.size[p];
    var r := b.ring[n];
    RingFacts(m, h, b, n);
    if |r| > 1 || n >= NSMALLBINS {
      assert LinkedAt(m, r, k);
    }
    if |r| > 1 {
      NeighboursEqual(r, k);
      RingSpaced(h, b, n);
      if |r| > 2 {
        assert Rings.Clear(r[Next(|r|, k)], r[Prev(|r|, k)]);
      }
    }
  }

  // ---------------------------------------------------------------------------
  // unlink_large_chunk of a tree node

  /** A tree node with chained chunks: the last of them, at r, becomes the tree node. */
  lemma OkReplaced(m: seq<Word>, m1: seq<Word>, m2: seq<Word>, h: Addr, b: Bins, n: nat)
    requires MIN_LARGE <= n < WORD_LIMIT && n in b.trie.node && Unlinking(m, m1, h, b, n, 0)
    requires Moved(m1, m2, h, b, b.trie, n, b.ring[n][|b.ring[n]| - 1])
    ensures BinsOk(m2, h, Unchained(b, n, 0))
  {
    hide Bin, Side;
    var b' := Unchained(b, n, 0);
    var q := b.ring[n];
    var r := q[|q| - 1];
    ReplacementMovable(m, m1, h, b, n);
    ShapeUnchained(h, b, n, 0);
    UnlinkingRings(m, m1, h, b, n, 0);
    MovedTrees(m1, m2, h, b, b.trie, n, r, b', n) by {
      assert NodeOf(b', n) == r;
    }
    SizesWithin(m, h, b);
    MovedWritesTrees(m1, m2, h, b, b.trie, n, r);
    ReplacedRings(m1, m2, h, b, n, r);
    ReplacedChains(m, m1, m2, h, b, n);
    forall a | a in b'.size
      ensures SizeWord(m2, b', a)
    {
      assert SizeWord(m, b, a) && Placed(h, b, a) && SameFront(m1, m2, a);
      UnlinkingKeeps(m, m1, h, b, n, 0, a);
    }
  }

  lemma SizesWithin(m: seq<Word>, h: Addr, b: Bins)
    requires BinsOk(m, h, b)
    ensures forall a :: a in b.size ==> a + b.size[a] <= |m|
  {
    forall a | a in b.size
      ensures a + b.size[a] <= |m|
    {
      assert SizeWord(m, b, a);
    }
  }

  lemma ReplacementMovable(m: seq<Word>, m1: seq<Word>, h: Addr, b: Bins, n: nat)
    requires MIN_LARGE <= n < WORD_LIMIT && n in b.trie.node && Unlinking(m, m1, h, b, n, 0)
    ensures Movable(m1, h, b, b.trie, n, b.ring[n][|b.ring[n]| - 1])
  {
    hide Bin;
    var q := b.ring[n];
    var l := |q| - 1;
    UnlinkingTrees(m, m1, h, b, n, 0);
    assert b.(trie := b.trie) == b;
    Element(h, b, n, l);
    assert MatesOk(m, b, n) && Mate(m, q[l], n);
    UnlinkingKeeps(m, m1, h, b, n, 0, q[l]);
    forall s | s in b.trie.node
      ensures NodeOf(b, s) != q[l]
    {
      assert RingShape(h, b, s);
      ElementsClear(h, b, s, 0, n, l);
    }
  }

  lemma ReplacedRings(m1: seq<Word>, m2: seq<Word>, h: Addr, b: Bins, n: nat, r: Addr)
    requires Shape(h, b) && n in b.ring && |b.ring[n]| > 1 && n >= NSMALLBINS
    requires Linked(m1, Without(b.ring[n], 0))
    requires forall s :: s in b.ring && s != n ==> RingOk(m1, b, s)
    requires TreeWritesOnly(m1, m2, h, b, b.trie, r)
    ensures RingsLinked(m2, Unchained(b, n, 0))
  {
    var b' := Unchained(b, n, 0);
    forall s | s in b'.ring
      ensures RingOk(m2, b', s)
    {
      if s != n {
        assert RingOk(m1, b, s);
        TreeWritesKeep(m1, m2, h, b, b.trie, r, s);
      } else {
        var q := b'.ring[n];
        assert RingShape(h, b, n);
        WithoutPlaces(b.ring[n], 0);
        forall k | 0 <= k < |q| && q[k] + 4 <= |m1|
          ensures m2[q[k] + FD] == m1[q[k] + FD] && m2[q[k] + BK] == m1[q[k] + BK]
        {
          assert q[k] in b.ring[n];
          assert SameFront(m1, m2, q[k]);
        }
        LinkedFrame(m1, m2, q);
      }
    }
  }

  lemma ReplacedChains(m: seq<Word>, m1: seq<Word>, m2: seq<Word>, h: Addr, b: Bins, n: nat)
    requires n in b.trie.node && MIN_LARGE <= n < WORD_LIMIT && Unlinking(m, m1, h, b, n, 0)
    requires TreeWritesOnly(m1, m2, h, b, b.trie, b.ring[n][|b.ring[n]| - 1])
    ensures ChainsOk(m2, Unchained(b, n, 0))
  {
    hide Bin;
    var b' := Unchained(b, n, 0);
    var q := b.ring[n];
    forall s | s in b'.ring && NSMALLBINS <= s < WORD_LIMIT
      ensures MatesOk(m2, b', s)
    {
      forall j | 1 <= j < |b'.ring[s]|
        ensures Mate(m2, b'.ring[s][j], s)
      {
        assert b'.ring[s][j] == b.ring[s][j];
        ElementsClear(h, b, s, j, n, |q| - 1);
        MateKept(m, m1, m2, h, b, n, 0, b.trie, q[|q| - 1], s, j);
      }
    }
  }

  /** A chained chunk that stays chained keeps its tree words. */
  lemma MateKept(m: seq<Word>, m1: seq<Word>, m2: seq<Word>, h: Addr, b: Bins, n: nat, k: nat, t: Trie, r: Addr, s: nat, j: nat)
    requires Unlinking(m, m1, h, b, n, k) && t.node.Keys <= b.trie.node.Keys
    requires TreeWritesOnly(m1, m2, h, b, t, r)
    requires s in b.ring && NSMALLBINS <= s < WORD_LIMIT && 1 <= j < |b.ring[s]| && b.ring[s][j] != r
    ensures Mate(m2, b.ring[s][j], s)
  {
    hide Bin;
    var a := b.ring[s][j];
    assert MatesOk(m, b, s) && Mate(m, a, s);
    Element(h, b, s, j);
    UnlinkingKeeps(m, m1, h, b, n, k, a);
    NotANode(h, b, t, s, j);
    assert SameTreeWords(m1, m2, a);
  }

  lemma NotANode(h: Addr, b: Bins, t: Trie, s: nat, j: nat)
    requires Shape(h, b) && t.node.Keys <= b.trie.node.Keys && s in b.ring && 1 <= j < |b.ring[s]|
    ensures forall x :: x in t.node ==> NodeOf(b, x) != b.ring[s][j]
  {
    forall x | x in t.node
      ensures NodeOf(b, x) != b.ring[s][j]
    {
      assert RingShape(h, b, x);
      ElementsClear(h, b, x, 0, s, j);
    }
  }

  // ---------------------------------------------------------------------------
  // The last chunk of its size

  /** Parts of the invariant that follow when only tree words were written. */
  lemma UprootedRest(m: seq<Word>, m': seq<Word>, h: Addr, b: Bins, n: nat, t: Trie, t0: Trie, r: Addr)
    requires BinsOk(m, h, b) && n in b.trie.node && |b.ring[n]| == 1
    requires t.node.Keys == b.trie.node.Keys - {n} && t0.node.Keys <= b.trie.node.Keys
    requires TreeWritesOnly(m, m', h, b, t0, r)
    requires r == 0 || exists s :: s in b.trie.node && r == NodeOf(b, s)
    ensures Shape(h, Uprooted(b, n, t)) && RingsLinked(m', Uprooted(b, n, t))
    ensures ChainsOk(m', Uprooted(b, n, t)) && SizesOk(m', Uprooted(b, n, t))
  {
    hide Bin;
    var b' := Uprooted(b, n, t);
    ShapeUprooted(h, b, n, t);
    forall s | s in b'.ring
      ensures RingOk(m', b', s)
    {
      assert RingOk(m, b, s);
      TreeWritesKeep(m, m', h, b, t0, r, s);
    }
    forall s | s in b'.ring && NSMALLBINS <= s < WORD_LIMIT
      ensures MatesOk(m', b', s)
    {
      assert MatesOk(m, b, s);
      forall j | 1 <= j < |b'.ring[s]|
        ensures Mate(m', b'.ring[s][j], s)
      {
        var a := b.ring[s][j];
        assert Mate(m, a, s);
        Element(h, b, s, j);
        NotANode(h, b, b.trie, s, j);
        assert SameTreeWords(m, m', a);
      }
    }
    forall a | a in b'.size
      ensures SizeWord(m', b', a)
    {
      assert SizeWord(m, b, a) && SameFront(m, m', a);
    }
  }

  /** Links of trees of which size n is gone do not need n's ring. */
  lemma UprootedTrees(m: seq<Word>, h: Addr, b: Bins, n: nat, t: Trie)
    requires TreesLinked(m, h, b.(trie := t)) && TrieOk(t) && n !in t.node && n in b.ring && |b.ring[n]| > 0
    ensures TreesLinked(m, h, Uprooted(b, n, t))
  {
    hide Bin;
    var b1, b' := b.(trie := t), Uprooted(b, n, t);
    forall s | s in b'.trie.node
      ensures NodeLinked(m, h, b', s)
    {
      assert NodeLinked(m, h, b1, s);
      LinksInTrie(t, s);
    }
    forall i | 0 <= i < NTREEBINS
      ensures RootLinked(m, h, b', i)
    {
      assert RootLinked(m, h, b1, i) && RootOk(t, i);
    }
  }

  lemma OkCutLeaf(m: seq<Word>, m': seq<Word>, h: Addr, b: Bins, n: nat)
    requires BinsOk(m, h, b) && n in b.trie.node && n < WORD_LIMIT && |b.ring[n]| == 1
    requires b.trie.node[n].IsLeaf() && Unhooked(m, m', h, b, n)
    ensures BinsOk(m', h, Uprooted(b, n, Substitute(b.trie, n, 0)))
  {
    hide Bin, Substitute, Side;
    var t := Substitute(b.trie, n, 0);
    LinksInTrie(b.trie, n);
    Substituted(b.trie, n, 0);
    assert NodeOk(b.trie, n);
    SubstituteOk(b.trie, n, 0);
    SizesWithin(m, h, b);
    UnhookedTrees(m, m', h, b, n);
    UnhookedWritesTrees(m, m', h, b, n);
    UprootedRest(m, m', h, b, n, t, b.trie, 0);
    UprootedTrees(m', h, b, n, t);
  }

  lemma TreeWritesCompose(m: seq<Word>, m1: seq<Word>, m2: seq<Word>, h: Addr, b: Bins, t: Trie, r: Addr)
    requires TreeWritesOnly(m, m1, h, b, b.trie, 0) && TreeWritesOnly(m1, m2, h, b, t, r)
    requires t.node.Keys <= b.trie.node.Keys && 0 !in b.size
    ensures TreeWritesOnly(m, m2, h, b, b.trie, r)
  {
    forall i | 0 <= i < NSMALLBINS
      ensures SameFront(m, m2, SmallBin(h, i))
    {
      assert SameFront(m, m1, SmallBin(h, i)) && SameFront(m1, m2, SmallBin(h, i));
    }
    forall a | a in b.size
      ensures SameFront(m, m2, a)
    {
      assert SameFront(m, m1, a) && SameFront(m1, m2, a);
    }
    forall a | a in b.size && b.size[a] >= MIN_LARGE && a != r && forall s :: s in b.trie.node ==> NodeOf(b, s) != a
      ensures SameTreeWords(m, m2, a)
    {
      assert SameTreeWords(m, m1, a) && SameTreeWords(m1, m2, a);
    }
  }

  /** The leaf of size s, cut off its place below n, may move. */
  lemma LeafMovable(m: seq<Word>, m1: seq<Word>, h: Addr, b: Bins, n: nat, s: nat)
    requires BinsOk(m, h, b) && n in b.trie.node && n < WORD_LIMIT
    requires s in b.trie.node && s != n && s < WORD_LIMIT && b.trie.node[s].IsLeaf() && Under(b.trie, n, s)
    requires Unhooked(m, m1, h, b, s)
    ensures Movable(m1, h, b, Substitute(b.trie, s, 0), n, NodeOf(b, s))
  {
    hide Bin, Substitute, Side;
    var t := Substitute(b.trie, s, 0);
    var r := NodeOf(b, s);
    LinksInTrie(b.trie, s);
    Substituted(b.trie, s, 0);
    assert NodeOk(b.trie, s);
    SubstituteOk(b.trie, s, 0);
    UnhookedTrees(m, m1, h, b, s);
    NodeFacts(h, b, b.trie, s);
    assert NodeLinked(m, h, b, s);
    HookElsewhere(h, b, s);
    forall x | x in t.node
      ensures NodeOf(b, x) != r
    {
      NodesDiffer(h, b, s, x);
    }
  }

  /** The hook of a node is not one of its own words. */
  lemma HookElsewhere(h: Addr, b: Bins, s: nat)
    requires PartOf(h, b, b.trie) && s in b.trie.node && s < WORD_LIMIT
    ensures var w := Hook(h, b, b.trie, s); w <= NodeOf(b, s) || NodeOf(b, s) + 8 <= w
  {
    hide Bin, Side;
    LinksInTrie(b.trie, s);
    NodeFacts(h, b, b.trie, s);
    SlotClear(h, b, s, b.trie.node[s].up, Side(b.trie, s), NodeOf(b, s));
    NodesDiffer(h, b, s, b.trie.node[s].up);
  }

  lemma PromotionFits(t: Trie, n: nat, s: nat)
    requires TrieOk(t) && n in t.node && s in t.node && s != n && t.node[s].IsLeaf() && Under(t, n, s)
    ensures var t1 := Substitute(t, s, 0);
      && TrieOk(t1) && n in t1.node && s !in t1.node && TreeSize(n) && Fits(t1, n, s)
      && TrieOk(Substitute(t1, n, s))
      && t1.node.Keys == t.node.Keys - {s}
      && Substitute(t1, n, s).node.Keys == t.node.Keys - {n}
  {
    hide Bin, Substitute, Shr;
    var t1 := Substitute(t, s, 0);
    LinksInTrie(t, s);
    Substituted(t, s, 0);
    assert NodeOk(t, s);
    SubstituteOk(t, s, 0);
    Substituted(t1, n, s);
    SubstituteOk(t1, n, s);
  }

  /** A tree node with children and no chained chunk: the leaf of size s takes its place. */
  lemma OkPromoted(m: seq<Word>, m1: seq<Word>, m2: seq<Word>, h: Addr, b: Bins, n: nat, s: nat)
    requires BinsOk(m, h, b) && n in b.trie.node && n < WORD_LIMIT && |b.ring[n]| == 1
    requires s in b.trie.node && s != n && s < WORD_LIMIT && b.trie.node[s].IsLeaf() && Under(b.trie, n, s)
    requires Unhooked(m, m1, h, b, s)
    requires n in Substitute(b.trie, s, 0).node && Moved(m1, m2, h, b, Substitute(b.trie, s, 0), n, NodeOf(b, s))
    ensures n in Substitute(b.trie, s, 0).node
    ensures BinsOk(m2, h, Uprooted(b, n, Substitute(Substitute(b.trie, s, 0), n, s)))
  {
    hide Bin, Substitute, Side, Moved, Unhooked;
    var t1 := Substitute(b.trie, s, 0);
    var t := Substitute(t1, n, s);
    var r := NodeOf(b, s);
    PromotionFits(b.trie, n, s);
    Substituted(t1, n, s);
    LeafMovable(m, m1, h, b, n, s);
    SizesWithin(m, h, b);
    UnhookedWritesTrees(m, m1, h, b, s);
    assert |m1| == |m|;
    MovedWritesTrees(m1, m2, h, b, t1, n, r);
    assert 0 !in b.size by {
      assert 0 in b.size ==> Placed(h, b, 0);
    }
    TreeWritesCompose(m, m1, m2, h, b, t1, r);
    UprootedRest(m, m2, h, b, n, t, b.trie, r);
    var b2 := b.(trie := t);
    MovedTrees(m1, m2, h, b, t1, n, r, b2, s) by {
      assert forall x :: NodeOf(b2, x) == NodeOf(b, x);
      assert s != 0;
    }
    UprootedTrees(m2, h, b, n, t);
  }
}
