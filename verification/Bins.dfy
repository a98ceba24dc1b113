/**
 The bins of a malloc space as its words hold them: circular lists of free chunks of one
 size, and tries through the child and parent words of one chunk of each large size.
 */
module Bins {
  import opened Shift
  import opened TreeIndex
  import opened SizeTrie
  import opened Words
  import opened Rings

  /**
   size: the binned chunks. ring: for each size the circular list of its chunks, with the
   bin header in front for small sizes and the tree node in front for large ones.
   */
  datatype Bins = Bins(size: map<Addr, nat>, ring: map<nat, seq<Addr>>, trie: Trie)

  /** The tree node of a size; null for size 0. */
  function NodeOf(b: Bins, s: nat): Addr
  {
    if s != 0 && s in b.ring && |b.ring[s]| > 0 then b.ring[s][0] else 0
  }

  /** The first place of a ring that holds a chunk. */
  function Front(s: nat): nat
  {
    if s < NSMALLBINS then 1 else 0
  }

  // ---------------------------------------------------------------------------
  // Shape: what does not depend on memory

  ghost predicate RingShape(h: Addr, b: Bins, s: nat)
    requires s in b.ring
  {
    var r := b.ring[s];
    && |r| > 0
    && (if s < NSMALLBINS then r[0] == SmallBin(h, s) else s in b.trie.node)
    && Distinct(r)
    && forall k :: Front(s) <= k < |r| ==> r[k] in b.size && b.size[r[k]] == s
  }

  ghost predicate Placed(h: Addr, b: Bins, a: Addr)
    requires a in b.size
  {
    && First(h) <= a
    && MIN_CHUNK <= b.size[a] < WORD_LIMIT
    && b.size[a] in b.ring
    && exists k :: Front(b.size[a]) <= k < |b.ring[b.size[a]]| && b.ring[b.size[a]][k] == a
  }

  /** p is the chunk of its bin that is taken first: the first of the list, or the tree node. */
  ghost predicate FirstOfBin(b: Bins, p: Addr)
  {
    && p in b.size && b.size[p] in b.ring && Front(b.size[p]) < |b.ring[b.size[p]]|
    && p == b.ring[b.size[p]][Front(b.size[p])]
  }

  ghost predicate Apart(b: Bins, a: Addr, c: Addr)
    requires a in b.size && c in b.size
  {
    a == c || a + b.size[a] <= c || c + b.size[c] <= a
  }

  ghost predicate Shape(h: Addr, b: Bins)
  {
    && (forall s {:trigger RingShape(h, b, s)} :: s in b.ring ==> RingShape(h, b, s))
    && (forall i :: 0 <= i < NSMALLBINS ==> i in b.ring)
    && (forall s :: s in b.trie.node ==> s in b.ring && s >= NSMALLBINS)
    && (forall a {:trigger Placed(h, b, a)} :: a in b.size ==> Placed(h, b, a))
    && (forall a, c {:trigger Apart(b, a, c)} :: a in b.size && c in b.size ==> Apart(b, a, c))
  }

  // ---------------------------------------------------------------------------
  // Words

  ghost predicate RingOk(m: seq<Word>, b: Bins, s: nat)
    requires s in b.ring
  {
    |b.ring[s]| > 1 || s >= NSMALLBINS ==> Linked(m, b.ring[s])
  }

  /** What the parent word of a tree node holds. */
  function ParentWord(h: Addr, b: Bins, s: nat): Addr
    requires s in b.trie.node && s < WORD_LIMIT
  {
    if b.trie.node[s].up == 0 then TreeBin(h, Bin(s)) else NodeOf(b, b.trie.node[s].up)
  }

  ghost predicate NodeLinked(m: seq<Word>, h: Addr, b: Bins, s: nat)
    requires s in b.trie.node
  {
    var a := NodeOf(b, s);
    && s < WORD_LIMIT
    && a + 8 <= |m|
    && m[a + CHILD0] == NodeOf(b, b.trie.node[s].left)
    && m[a + CHILD1] == NodeOf(b, b.trie.node[s].right)
    && m[a + PARENT] == ParentWord(h, b, s)
    && m[a + INDEX] == Bin(s)
  }

  ghost predicate RootLinked(m: seq<Word>, h: Addr, b: Bins, i: nat)
    requires i < |b.trie.root|
  {
    TreeBin(h, i) < |m| && m[TreeBin(h, i)] == NodeOf(b, b.trie.root[i])
  }

  /** A chunk chained to a tree node: it has no place in the tree itself. */
  ghost predicate Mate(m: seq<Word>, a: Addr, s: nat)
    requires s < WORD_LIMIT
  {
    a + 8 <= |m| && m[a + CHILD0] == 0 && m[a + CHILD1] == 0 && m[a + PARENT] == 0 && m[a + INDEX] == Bin(s)
  }

  ghost predicate MatesOk(m: seq<Word>, b: Bins, s: nat)
    requires s in b.ring && s < WORD_LIMIT
  {
    forall k {:trigger Mate(m, b.ring[s][k], s)} :: 1 <= k < |b.ring[s]| ==> Mate(m, b.ring[s][k], s)
  }

  ghost predicate SizeWord(m: seq<Word>, b: Bins, a: Addr)
    requires a in b.size
  {
    a + b.size[a] <= |m| && a + HEAD < |m| && SizeOf(m[a + HEAD]) == b.size[a]
  }

  ghost predicate TreesLinked(m: seq<Word>, h: Addr, b: Bins)
  {
    && |b.trie.root| == NTREEBINS
    && (forall s {:trigger NodeLinked(m, h, b, s)} :: s in b.trie.node ==> NodeLinked(m, h, b, s))
    && (forall i {:trigger RootLinked(m, h, b, i)} :: 0 <= i < NTREEBINS ==> RootLinked(m, h, b, i))
  }

  ghost predicate RingsLinked(m: seq<Word>, b: Bins)
  {
    forall s {:trigger RingOk(m, b, s)} :: s in b.ring ==> RingOk(m, b, s)
  }

  ghost predicate ChainsOk(m: seq<Word>, b: Bins)
  {
    forall s {:trigger MatesOk(m, b, s)} :: s in b.ring && NSMALLBINS <= s < WORD_LIMIT ==> MatesOk(m, b, s)
  }

  ghost predicate SizesOk(m: seq<Word>, b: Bins)
  {
    forall a {:trigger SizeWord(m, b, a)} :: a in b.size ==> SizeWord(m, b, a)
  }

  ghost predicate BinsOk(m: seq<Word>, h: Addr, b: Bins)
  {
    && First(h) <= |m|
    && Shape(h, b)
    && TrieOk(b.trie)
    && RingsLinked(m, b)
    && TreesLinked(m, h, b)
    && ChainsOk(m, b)
    && SizesOk(m, b)
  }

  // ---------------------------------------------------------------------------
  // Where a chunk is

  /** The place of a binned chunk in the ring of its size. */
  lemma PlaceOf(h: Addr, b: Bins, a: Addr) returns (k: nat)
    requires Shape(h, b) && a in b.size
    ensures b.size[a] in b.ring && Front(b.size[a]) <= k < |b.ring[b.size[a]]| && b.ring[b.size[a]][k] == a
    ensures MIN_CHUNK <= b.size[a] < WORD_LIMIT && First(h) <= a
  {
    assert Placed(h, b, a);
    k :| Front(b.size[a]) <= k < |b.ring[b.size[a]]| && b.ring[b.size[a]][k] == a;
  }

  /** An element of a ring is a header below all chunks, or a chunk of the ring's size. */
  lemma Element(h: Addr, b: Bins, s: nat, k: nat)
    requires Shape(h, b) && s in b.ring && k < |b.ring[s]|
    ensures k < Front(s) ==> s < NSMALLBINS && b.ring[s][k] == SmallBin(h, s)
    ensures k >= Front(s) ==> b.ring[s][k] in b.size && b.size[b.ring[s][k]] == s && First(h) <= b.ring[s][k]
                              && MIN_CHUNK <= s < WORD_LIMIT
  {
    assert RingShape(h, b, s);
    if k >= Front(s) {
      assert Placed(h, b, b.ring[s][k]);
    }
  }

  /** Link words of different ring elements do not overlap. */
  lemma ElementsClear(h: Addr, b: Bins, s: nat, j: nat, t: nat, k: nat)
    requires Shape(h, b) && s in b.ring && t in b.ring && j < |b.ring[s]| && k < |b.ring[t]|
    requires s != t || j != k
    ensures b.ring[s][j] != b.ring[t][k] && Clear(b.ring[s][j], b.ring[t][k])
  {
    Element(h, b, s, j);
    Element(h, b, t, k);
    var x, y := b.ring[s][j], b.ring[t][k];
    if j >= Front(s) && k >= Front(t) {
      assert Apart(b, x, y);
      assert RingShape(h, b, s);
    }
  }

  lemma RingSpaced(h: Addr, b: Bins, s: nat)
    requires Shape(h, b) && s in b.ring
    ensures Spaced(b.ring[s])
  {
    var r := b.ring[s];
    forall j, k | 0 <= j < |r| && 0 <= k < |r| && j != k
      ensures Clear(r[j], r[k])
    {
      ElementsClear(h, b, s, j, s, k);
    }
  }

  /** Tree nodes of different sizes are different chunks, and no chunk is at 0. */
  lemma NodesDiffer(h: Addr, b: Bins, s: nat, t: nat)
    requires Shape(h, b) && s in b.trie.node
    requires t == 0 || t in b.trie.node
    ensures NodeOf(b, s) != 0
    ensures NodeOf(b, s) == NodeOf(b, t) ==> s == t
  {
    assert RingShape(h, b, s);
    Element(h, b, s, 0);
    if t != 0 {
      assert RingShape(h, b, t);
      Element(h, b, t, 0);
    }
  }

  // ---------------------------------------------------------------------------
  // Writes elsewhere

  /** The words of the chunk of n words at a that a bin may use are as before. */
  ghost predicate SameChunk(m: seq<Word>, m': seq<Word>, a: Addr, n: nat)
  {
    && |m'| == |m|
    && a + n <= |m|
    && (a + HEAD < |m| ==> SizeOf(m'[a + HEAD]) == SizeOf(m[a + HEAD]))
    && forall w :: a + 2 <= w < a + n ==> m'[w] == m[w]
  }

  ghost predicate SameHeaders(m: seq<Word>, m': seq<Word>, h: Addr)
  {
    |m'| == |m| && First(h) <= |m| && forall w: nat :: InHeaders(h, w) ==> m'[w] == m[w]
  }

  ghost predicate SameBins(m: seq<Word>, m': seq<Word>, h: Addr, b: Bins)
  {
    && SameHeaders(m, m', h)
    && forall a {:trigger SameChunk(m, m', a, b.size[a])} :: a in b.size ==> SameChunk(m, m', a, b.size[a])
  }

  lemma BinsFrame(m: seq<Word>, m': seq<Word>, h: Addr, b: Bins)
    requires BinsOk(m, h, b) && SameBins(m, m', h, b)
    ensures BinsOk(m', h, b)
  {
    hide Bin;
    FrameRings(m, m', h, b);
    FrameTrees(m, m', h, b);
    FrameChains(m, m', h, b);
    forall a | a in b.size
      ensures SizeWord(m', b, a)
    {
      assert SizeWord(m, b, a) && SameChunk(m, m', a, b.size[a]);
    }
  }

  lemma FrameRings(m: seq<Word>, m': seq<Word>, h: Addr, b: Bins)
    requires BinsOk(m, h, b) && SameBins(m, m', h, b)
    ensures RingsLinked(m', b)
  {
    forall s | s in b.ring
      ensures RingOk(m', b, s)
    {
      assert RingOk(m, b, s);
      var r := b.ring[s];
      forall k | 0 <= k < |r| && r[k] + 4 <= |m|
        ensures m'[r[k] + FD] == m[r[k] + FD] && m'[r[k] + BK] == m[r[k] + BK]
      {
        Element(h, b, s, k);
        if k >= Front(s) {
          assert SameChunk(m, m', r[k], b.size[r[k]]);
        }
      }
      if |r| > 1 || s >= NSMALLBINS {
        LinkedFrame(m, m', r);
      }
    }
  }

  ghost predicate SameTreeWords(m: seq<Word>, m': seq<Word>, a: Addr)
  {
    && |m'| == |m|
    && a + 8 <= |m|
    && m'[a + CHILD0] == m[a + CHILD0] && m'[a + CHILD1] == m[a + CHILD1]
    && m'[a + PARENT] == m[a + PARENT] && m'[a + INDEX] == m[a + INDEX]
  }

  lemma FrameTreeWords(m: seq<Word>, m': seq<Word>, h: Addr, b: Bins, s: nat, k: nat)
    requires Shape(h, b) && SameBins(m, m', h, b)
    requires s in b.ring && s >= NSMALLBINS && k < |b.ring[s]|
    ensures SameTreeWords(m, m', b.ring[s][k])
  {
    Element(h, b, s, k);
    assert SameChunk(m, m', b.ring[s][k], b.size[b.ring[s][k]]);
  }

  lemma FrameTrees(m: seq<Word>, m': seq<Word>, h: Addr, b: Bins)
    requires BinsOk(m, h, b) && SameBins(m, m', h, b)
    ensures TreesLinked(m', h, b)
  {
    hide Bin;
    forall s | s in b.trie.node
      ensures NodeLinked(m', h, b, s)
    {
      assert NodeLinked(m, h, b, s) && RingShape(h, b, s);
      FrameTreeWords(m, m', h, b, s, 0);
    }
    forall i | 0 <= i < NTREEBINS
      ensures RootLinked(m', h, b, i)
    {
      assert RootLinked(m, h, b, i) && InHeaders(h, TreeBin(h, i));
    }
  }

  lemma FrameChains(m: seq<Word>, m': seq<Word>, h: Addr, b: Bins)
    requires BinsOk(m, h, b) && SameBins(m, m', h, b)
    ensures ChainsOk(m', b)
  {
    hide Bin;
    forall s | s in b.ring && NSMALLBINS <= s < WORD_LIMIT
      ensures MatesOk(m', b, s)
    {
      assert MatesOk(m, b, s);
      forall k | 1 <= k < |b.ring[s]|
        ensures Mate(m', b.ring[s][k], s)
      {
        assert Mate(m, b.ring[s][k], s);
        FrameTreeWords(m, m', h, b, s, k);
      }
    }
  }

  // ---------------------------------------------------------------------------
  // The words that point to tree nodes

  /** The word a tree node hangs from: a child word of the node of size q, or the bin when q is 0. */
  function Slot(h: Addr, b: Bins, n: nat, q: nat, bit: nat): Addr
    requires n < WORD_LIMIT
  {
    if q == 0 then TreeBin(h, Bin(n)) else NodeOf(b, q) + CHILD0 + bit
  }

  /** A slot is inside its own tree node or the bin headers, and inside no other chunk. */
  lemma SlotClear(h: Addr, b: Bins, n: nat, q: nat, bit: nat, a: Addr)
    requires Shape(h, b) && n < WORD_LIMIT && bit < 2 && (q == 0 || q in b.trie.node) && a in b.size
    ensures var w := Slot(h, b, n, q, bit);
      (q != 0 && a == NodeOf(b, q)) || w <= a || a + b.size[a] <= w
  {
    hide Bin;
    assert Placed(h, b, a);
    if q != 0 {
      assert RingShape(h, b, q);
      Element(h, b, q, 0);
      assert Apart(b, a, NodeOf(b, q));
    }
  }

  /** No slot is a link word. */
  lemma SlotNotLink(h: Addr, b: Bins, n: nat, q: nat, bit: nat, s: nat, k: nat)
    requires Shape(h, b) && n < WORD_LIMIT && bit < 2 && (q == 0 || q in b.trie.node)
    requires s in b.ring && k < |b.ring[s]|
    ensures var w := Slot(h, b, n, q, bit);
      w != b.ring[s][k] + FD && w != b.ring[s][k] + BK
  {
    hide Bin;
    Element(h, b, s, k);
    if k >= Front(s) {
      SlotClear(h, b, n, q, bit, b.ring[s][k]);
    } else if q != 0 {
      assert RingShape(h, b, q);
      Element(h, b, q, 0);
    }
  }

  // ---------------------------------------------------------------------------
  // What bin operations may write

  /** Word w is in no bin header and inside no chunk of sz. */
  ghost predicate OffBins(h: Addr, sz: map<Addr, nat>, w: nat)
  {
    !InHeaders(h, w) && forall a :: a in sz ==> w < a + 2 || a + sz[a] <= w
  }

  /** Only bin headers and the insides of the chunks of sz were written. */
  ghost predicate BinWrites(m: seq<Word>, m': seq<Word>, h: Addr, sz: map<Addr, nat>)
  {
    |m'| == |m| && forall w {:trigger m'[w]} :: 0 <= w < |m| && OffBins(h, sz, w) ==> m'[w] == m[w]
  }

  lemma WritesCompose(m: seq<Word>, m1: seq<Word>, m2: seq<Word>, h: Addr, sz: map<Addr, nat>)
    requires BinWrites(m, m1, h, sz) && BinWrites(m1, m2, h, sz)
    ensures BinWrites(m, m2, h, sz)
  {
  }

  lemma NoWrites(m: seq<Word>, h: Addr, sz: map<Addr, nat>)
    ensures BinWrites(m, m, h, sz)
  {
  }

  /** The ring of a size in memory. */
  lemma RingFacts(m: seq<Word>, h: Addr, b: Bins, n: nat)
    requires BinsOk(m, h, b) && n in b.ring
    ensures |b.ring[n]| > 0 && Within(m, b.ring[n]) && Distinct(b.ring[n])
    ensures n < NSMALLBINS ==> b.ring[n][0] == SmallBin(h, n)
    ensures |b.ring[n]| > 1 || n >= NSMALLBINS ==> Linked(m, b.ring[n])
    ensures forall k :: Front(n) <= k < |b.ring[n]| ==>
      b.ring[n][k] in b.size && b.size[b.ring[n][k]] == n && First(h) <= b.ring[n][k]
  {
    assert RingShape(h, b, n) && RingOk(m, b, n);
    forall k | 0 <= k < |b.ring[n]|
      ensures b.ring[n][k] + 4 <= |m|
    {
      Element(h, b, n, k);
      if k >= Front(n) {
        assert SizeWord(m, b, b.ring[n][k]);
      }
    }
    forall k | Front(n) <= k < |b.ring[n]|
      ensures First(h) <= b.ring[n][k]
    {
      Element(h, b, n, k);
    }
  }

  lemma SmallRing(m: seq<Word>, h: Addr, b: Bins, n: nat)
    requires BinsOk(m, h, b) && n < NSMALLBINS
    ensures n in b.ring && |b.ring[n]| > 0 && b.ring[n][0] == SmallBin(h, n)
    ensures Within(m, b.ring[n]) && Distinct(b.ring[n])
    ensures forall k :: 1 <= k < |b.ring[n]| ==> First(h) <= b.ring[n][k]
    ensures |b.ring[n]| > 1 ==> Linked(m, b.ring[n])
    ensures |b.ring[n]| > 1 ==> m[SmallBin(h, n) + FD] == Succ(b.ring[n], 0) == b.ring[n][1]
  {
    assert n in b.ring;
    RingFacts(m, h, b, n);
    if |b.ring[n]| > 1 {
      assert LinkedAt(m, b.ring[n], 0);
    }
  }

  /** The link words of a ring element may be written. */
  lemma LinkNotOff(h: Addr, b: Bins, sz: map<Addr, nat>, n: nat, k: nat)
    requires Shape(h, b) && n in b.ring && k < |b.ring[n]|
    requires forall a :: a in b.size ==> a in sz && sz[a] == b.size[a]
    ensures !OffBins(h, sz, b.ring[n][k] + FD) && !OffBins(h, sz, b.ring[n][k] + BK)
  {
    Element(h, b, n, k);
    if k >= Front(n) {
      assert b.ring[n][k] in sz;
    }
  }
}
