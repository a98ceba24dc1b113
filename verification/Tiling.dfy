/** How chunks cover the segment, and the heads and feet that record it. */
module Tiling {
  import opened Shift
  import opened TreeIndex
  import opened Words

  datatype Chunk = Chunk(size: nat, used: bool)

  /** The chunks between the first one and top, by address. */
  type Chunks = map<Addr, Chunk>

  ghost predicate ChunkOk(g: Chunks, lo: Addr, top: Addr, a: Addr)
    requires a in g
  {
    var c := a + g[a].size;
    && lo <= a
    && MIN_CHUNK <= g[a].size
    && c <= top
    && (c == top || c in g)
    && (!g[a].used ==> c in g && g[c].used)
  }

  ghost predicate Separate(g: Chunks, a: Addr, c: Addr)
    requires a in g && c in g
  {
    a == c || a + g[a].size <= c || c + g[c].size <= a
  }

  /** The chunks tile the space from lo to top, and no two free ones touch, top included. */
  ghost predicate Tiled(g: Chunks, lo: Addr, top: Addr)
  {
    && lo <= top
    && (lo == top || lo in g)
    && (forall a {:trigger ChunkOk(g, lo, top, a)} :: a in g ==> ChunkOk(g, lo, top, a))
    && (forall a, c {:trigger Separate(g, a, c)} :: a in g && c in g ==> Separate(g, a, c))
  }

  /** Head, foot and the next chunk's PINUSE bit agree with the chunk at a. */
  ghost predicate ChunkWords(m: seq<Word>, g: Chunks, a: Addr)
    requires a in g
  {
    var n := g[a].size;
    && a + n + HEAD < |m| && a + HEAD < |m|
    && SizeOf(m[a + HEAD]) == n
    && Cinuse(m[a + HEAD]) == g[a].used
    && Pinuse(m[a + n + HEAD]) == g[a].used
    && (!g[a].used ==> m[a + n] == 8 * n)
  }

  ghost predicate HeadsOk(m: seq<Word>, g: Chunks)
  {
    forall a {:trigger ChunkWords(m, g, a)} :: a in g ==> ChunkWords(m, g, a)
  }

  /** Top's head, for a top of topsize bytes, and the fake head behind it. */
  ghost predicate TopWords(m: seq<Word>, lo: Addr, top: Addr, topsize: nat)
  {
    && lo + HEAD < |m|
    && top + topsize / 8 + HEAD + 1 < |m|
    && topsize < TWO64
    && Pinuse(m[top + HEAD])
    && (Cinuse(m[top + HEAD]) <==> topsize % 4 >= 2)
    && (topsize >= 8 ==> m[top + HEAD] == TopHead(topsize))
    && EndMarked(m[top + topsize / 8 + HEAD], topsize % 8)
    && Pinuse(m[lo + HEAD])
  }

  // ---------------------------------------------------------------------------
  // Neighbours

  /** Every chunk but the first, and top, has a chunk that ends at it. */
  lemma Predecessor(g: Chunks, lo: Addr, top: Addr, c: Addr) returns (a: Addr)
    requires Tiled(g, lo, top) && (c in g || c == top) && c != lo
    ensures a in g && a + g[a].size == c
  {
    if c in g {
      assert ChunkOk(g, lo, top, c);
    }
    a := lo;
    while a + g[a].size != c
      invariant a in g && a < c
      decreases c - a
    {
      assert ChunkOk(g, lo, top, a);
      if c in g {
        assert Separate(g, a, c);
      }
      a := a + g[a].size;
    }
  }

  /** Only one chunk ends at a given place. */
  lemma OnePredecessor(g: Chunks, lo: Addr, top: Addr, a: Addr, c: Addr)
    requires Tiled(g, lo, top) && a in g && c in g && a + g[a].size == c + g[c].size
    ensures a == c
  {
    assert ChunkOk(g, lo, top, a) && ChunkOk(g, lo, top, c) && Separate(g, a, c);
  }

  /** A clear PINUSE bit means that the previous chunk is free, and prev_foot its size. */
  lemma FreeBefore(m: seq<Word>, g: Chunks, lo: Addr, top: Addr, topsize: nat, p: Addr)
    requires Tiled(g, lo, top) && HeadsOk(m, g) && TopWords(m, lo, top, topsize) && p in g
    requires p + HEAD < |m| && !Pinuse(m[p + HEAD])
    ensures p < |m| && m[p] % 8 == 0 && m[p] / 8 <= p
    ensures var a := p - m[p] / 8; a in g && !g[a].used && a + g[a].size == p && a != p
  {
    assert ChunkOk(g, lo, top, p);
    var a := Predecessor(g, lo, top, p);
    assert ChunkWords(m, g, a) && ChunkOk(g, lo, top, a);
  }

  // ---------------------------------------------------------------------------
  // Changes of the tiling

  /** Chunk a cut in two. */
  function Split(g: Chunks, a: Addr, n: nat, first: bool, second: bool): Chunks
    requires a in g && n <= g[a].size
  {
    g[a := Chunk(n, first)][a + n := Chunk(g[a].size - n, second)]
  }

  lemma SplitIs(g: Chunks, a: Addr, n: nat, first: bool, second: bool)
    requires a in g && 0 < n < g[a].size && a + n !in g
    ensures var g' := Split(g, a, n, first, second);
      && g'.Keys == g.Keys + {a + n}
      && g'[a] == Chunk(n, first)
      && g'[a + n] == Chunk(g[a].size - n, second)
      && forall x :: x in g && x != a ==> g'[x] == g[x]
  {
  }

  lemma TiledUsed(g: Chunks, lo: Addr, top: Addr, a: Addr)
    requires Tiled(g, lo, top) && a in g
    ensures Tiled(g[a := Chunk(g[a].size, true)], lo, top)
  {
    var g' := g[a := Chunk(g[a].size, true)];
    forall x | x in g'
      ensures ChunkOk(g', lo, top, x)
    {
      assert ChunkOk(g, lo, top, x);
    }
    forall x, y | x in g' && y in g'
      ensures Separate(g', x, y)
    {
      assert Separate(g, x, y);
    }
  }

  lemma NothingInside(g: Chunks, lo: Addr, top: Addr, a: Addr, c: Addr)
    requires Tiled(g, lo, top) && a in g && a < c < a + g[a].size
    ensures c !in g
  {
    forall x | x in g
      ensures x != c
    {
      assert Separate(g, a, x) && ChunkOk(g, lo, top, x);
    }
  }

  lemma TiledSplit(g: Chunks, lo: Addr, top: Addr, a: Addr, n: nat, second: bool)
    requires Tiled(g, lo, top) && a in g && MIN_CHUNK <= n && n + MIN_CHUNK <= g[a].size
    requires second || !g[a].used
    ensures Tiled(Split(g, a, n, true, second), lo, top)
    ensures a + n !in g
  {
    var g' := Split(g, a, n, true, second);
    assert ChunkOk(g, lo, top, a);
    NothingInside(g, lo, top, a, a + n);
    forall x | x in g'
      ensures ChunkOk(g', lo, top, x)
    {
      if x != a + n {
        assert ChunkOk(g, lo, top, x);
      }
    }
    forall x, y | x in g' && y in g'
      ensures Separate(g', x, y)
    {
      if x in g && y in g {
        assert Separate(g, x, y);
      } else if x in g {
        assert Separate(g, x, a) && ChunkOk(g, lo, top, x);
      } else if y in g {
        assert Separate(g, y, a) && ChunkOk(g, lo, top, y);
      }
    }
  }

  /** A chunk of n words cut off the bottom of top. */
  lemma TiledPush(g: Chunks, lo: Addr, top: Addr, n: nat)
    requires Tiled(g, lo, top) && MIN_CHUNK <= n
    ensures top !in g && Tiled(g[top := Chunk(n, true)], lo, top + n)
  {
    var g' := g[top := Chunk(n, true)];
    assert top in g ==> ChunkOk(g, lo, top, top);
    forall x | x in g'
      ensures ChunkOk(g', lo, top + n, x)
    {
      if x != top {
        assert ChunkOk(g, lo, top, x);
      }
    }
    forall x, y | x in g' && y in g'
      ensures Separate(g', x, y)
    {
      if x in g && y in g {
        assert Separate(g, x, y);
      }
      assert x in g ==> ChunkOk(g, lo, top, x);
      assert y in g ==> ChunkOk(g, lo, top, y);
    }
  }

  /** The last chunk, in use, grown or shrunk at top's expense. */
  lemma TiledMoveTop(g: Chunks, lo: Addr, top: Addr, a: Addr, n: nat)
    requires Tiled(g, lo, top) && a in g && g[a].used && a + g[a].size == top && MIN_CHUNK <= n
    ensures Tiled(g[a := Chunk(n, true)], lo, a + n)
  {
    var g' := g[a := Chunk(n, true)];
    assert ChunkOk(g, lo, top, a);
    forall x | x in g'
      ensures ChunkOk(g', lo, a + n, x)
    {
      assert ChunkOk(g, lo, top, x) && Separate(g, x, a);
    }
    forall x, y | x in g' && y in g'
      ensures Separate(g', x, y)
    {
      assert Separate(g, x, y) && Separate(g, x, a) && Separate(g, y, a) && ChunkOk(g, lo, top, x) && ChunkOk(g, lo, top, y);
    }
  }

  /** Freeing everything leaves one free space: with no chunk in use there is no chunk at all. */
  lemma NothingUsed(g: Chunks, lo: Addr, top: Addr)
    requires Tiled(g, lo, top) && forall a :: a in g ==> !g[a].used
    ensures g == map[] && top == lo
  {
    forall a: Addr
      ensures a !in g
    {
      assert a in g ==> ChunkOk(g, lo, top, a);
    }
  }

  // ---------------------------------------------------------------------------
  // The blocks the clients hold

  /** The sizes of the chunks in use. */
  ghost function Live(g: Chunks): map<Addr, nat>
  {
    map a | a in g && g[a].used :: g[a].size
  }

  /** One more chunk, at p, is in use, of nb words or, where less than a chunk would remain, a whole free chunk. */
  ghost predicate Took(g: Chunks, g': Chunks, p: Addr, nb: nat)
  {
    && p !in Live(g)
    && p in g' && g'[p].used && nb <= g'[p].size < nb + MIN_CHUNK
    && (g'[p].size == nb || (p in g && g'[p].size == g[p].size))
    && Live(g') == Live(g)[p := g'[p].size]
  }

  lemma TookWhole(g: Chunks, p: Addr, nb: nat)
    requires p in g && !g[p].used && nb <= g[p].size < nb + MIN_CHUNK
    ensures Took(g, g[p := Chunk(g[p].size, true)], p, nb)
  {
    var g' := g[p := Chunk(g[p].size, true)];
    assert Live(g') == Live(g)[p := g'[p].size];
  }

  lemma TookFirst(g: Chunks, p: Addr, nb: nat)
    requires p in g && !g[p].used && 0 < nb < g[p].size && p + nb !in g
    ensures Took(g, Split(g, p, nb, true, false), p, nb)
  {
    var g' := Split(g, p, nb, true, false);
    assert Live(g') == Live(g)[p := nb];
  }

  lemma TookNew(g: Chunks, p: Addr, nb: nat)
    requires p !in g
    ensures Took(g, g[p := Chunk(nb, true)], p, nb)
  {
    var g' := g[p := Chunk(nb, true)];
    assert Live(g') == Live(g)[p := nb];
  }

  // ---------------------------------------------------------------------------
  // A chunk in use is freed and merged with its free neighbours

  /** The chunk a lies wholly outside or inside the n words at p, and inside only q is in use. */
  ghost predicate SpanPart(g: Chunks, p: Addr, n: nat, q: Addr, a: Addr)
    requires a in g
  {
    || a + g[a].size <= p
    || p + n <= a
    || (p <= a && a + g[a].size <= p + n && (g[a].used ==> a == q))
  }

  /** The n words at p are whole chunks: q, in use, and free neighbours. */
  ghost predicate Spans(g: Chunks, p: Addr, n: nat, q: Addr)
  {
    && p in g && q in g && g[q].used && p <= q && q + g[q].size <= p + n
    && (forall a {:trigger SpanPart(g, p, n, q, a)} :: a in g ==> SpanPart(g, p, n, q, a))
  }

  /** No free chunk ends at p. */
  ghost predicate UsedUpTo(g: Chunks, p: Addr)
  {
    forall c {:trigger g[c]} :: c in g && c + g[c].size == p ==> g[c].used
  }

  /** The chunks outside the n words at p. */
  function Dropped(g: Chunks, p: Addr, n: nat): Chunks
  {
    map a | a in g && !(p <= a < p + n) :: g[a]
  }

  /** The n words at p made one free chunk. */
  function Merged(g: Chunks, p: Addr, n: nat): Chunks
  {
    Dropped(g, p, n)[p := Chunk(n, false)]
  }

  lemma SpansSelf(g: Chunks, lo: Addr, top: Addr, q: Addr)
    requires Tiled(g, lo, top) && q in g && g[q].used
    ensures Spans(g, q, g[q].size, q) && q + g[q].size <= top && (q + g[q].size == top || q + g[q].size in g)
  {
    assert ChunkOk(g, lo, top, q);
    forall a | a in g
      ensures SpanPart(g, q, g[q].size, q, a)
    {
      assert Separate(g, a, q) && ChunkOk(g, lo, top, a);
    }
  }

  lemma SpansBack(g: Chunks, lo: Addr, top: Addr, p: Addr, n: nat, q: Addr, a: Addr)
    requires Tiled(g, lo, top) && Spans(g, p, n, q) && a in g && !g[a].used && a + g[a].size == p
    ensures Spans(g, a, g[a].size + n, q) && UsedUpTo(g, a)
  {
    assert ChunkOk(g, lo, top, a);
    forall x | x in g
      ensures SpanPart(g, a, g[a].size + n, q, x)
    {
      assert SpanPart(g, p, n, q, x) && Separate(g, x, a) && ChunkOk(g, lo, top, x);
    }
    forall c | c in g && c + g[c].size == a
      ensures g[c].used
    {
      assert ChunkOk(g, lo, top, c);
    }
  }

  lemma SpansForward(g: Chunks, lo: Addr, top: Addr, p: Addr, n: nat, q: Addr)
    requires Tiled(g, lo, top) && Spans(g, p, n, q) && p + n in g && !g[p + n].used
    ensures Spans(g, p, n + g[p + n].size, q)
    ensures var c := p + n + g[p + n].size; c in g && g[c].used
  {
    var c := p + n;
    assert ChunkOk(g, lo, top, c);
    forall x | x in g
      ensures SpanPart(g, p, n + g[c].size, q, x)
    {
      assert SpanPart(g, p, n, q, x) && Separate(g, x, c) && ChunkOk(g, lo, top, x);
    }
  }

  /** The merged chunk between chunks in use: the tiling is kept, and only q is no longer live. */
  lemma TiledMerged(g: Chunks, lo: Addr, top: Addr, p: Addr, n: nat, q: Addr)
    requires Tiled(g, lo, top) && Spans(g, p, n, q) && UsedUpTo(g, p) && p + n in g && g[p + n].used
    ensures Tiled(Merged(g, p, n), lo, top)
  {
    var g' := Merged(g, p, n);
    ChunkOkMerged(g, lo, top, p, n, q, lo);
    hide ChunkOk, Separate, Merged, Spans, UsedUpTo;
    forall x | x in g'
      ensures ChunkOk(g', lo, top, x)
    {
      ChunkOkMerged(g, lo, top, p, n, q, x);
    }
    forall x, y | x in g' && y in g'
      ensures Separate(g', x, y)
    {
      SeparateMerged(g, lo, top, p, n, q, x, y);
    }
  }

  lemma ChunkOkMerged(g: Chunks, lo: Addr, top: Addr, p: Addr, n: nat, q: Addr, x: Addr)
    requires Tiled(g, lo, top) && Spans(g, p, n, q) && UsedUpTo(g, p) && p + n in g && g[p + n].used
    ensures x in Merged(g, p, n) ==> ChunkOk(Merged(g, p, n), lo, top, x)
    ensures lo in Merged(g, p, n)
  {
    assert ChunkOk(g, lo, top, p) && ChunkOk(g, lo, top, q) && ChunkOk(g, lo, top, p + n);
    assert x in g ==> SpanPart(g, p, n, q, x) && ChunkOk(g, lo, top, x);
  }

  lemma SeparateMerged(g: Chunks, lo: Addr, top: Addr, p: Addr, n: nat, q: Addr, x: Addr, y: Addr)
    requires Tiled(g, lo, top) && Spans(g, p, n, q) && x in Merged(g, p, n) && y in Merged(g, p, n)
    ensures Separate(Merged(g, p, n), x, y)
  {
    assert x in g ==> SpanPart(g, p, n, q, x) && ChunkOk(g, lo, top, x);
    assert y in g ==> SpanPart(g, p, n, q, y) && ChunkOk(g, lo, top, y);
    assert x in g && y in g ==> Separate(g, x, y);
  }

  /** The merged space joined to top. */
  lemma TiledDropped(g: Chunks, lo: Addr, top: Addr, p: Addr, n: nat, q: Addr)
    requires Tiled(g, lo, top) && Spans(g, p, n, q) && UsedUpTo(g, p) && p + n == top
    ensures Tiled(Dropped(g, p, n), lo, p)
  {
    var g' := Dropped(g, p, n);
    assert ChunkOk(g, lo, top, p);
    forall x | x in g'
      ensures ChunkOk(g', lo, p, x)
    {
      assert SpanPart(g, p, n, q, x) && ChunkOk(g, lo, top, x);
    }
    forall x, y | x in g' && y in g'
      ensures Separate(g', x, y)
    {
      assert Separate(g, x, y);
    }
  }

  lemma LiveMerged(g: Chunks, p: Addr, n: nat, q: Addr)
    requires Spans(g, p, n, q) && forall a :: a in g ==> g[a].size > 0
    ensures Live(Merged(g, p, n)) == Live(g) - {q} && Live(Dropped(g, p, n)) == Live(g) - {q}
  {
    forall a | a in g
      ensures p <= a < p + n && g[a].used ==> a == q
    {
      assert SpanPart(g, p, n, q, a);
    }
    assert g[q].size > 0;
  }

  /** p is a tightest fit for nb words among all free chunks. */
  ghost predicate Tightest(g: Chunks, nb: nat, p: Addr)
  {
    p in g && !g[p].used && forall a :: a in g && !g[a].used && g[a].size >= nb ==> g[p].size <= g[a].size
  }

  /** No free chunk but top has nb words. */
  ghost predicate NoneFits(g: Chunks, nb: nat)
  {
    forall a :: a in g && !g[a].used ==> g[a].size < nb
  }

  /** Some free chunk, or top with its topsize bytes, can serve nb words. */
  ghost predicate CanServe(g: Chunks, topsize: nat, nb: nat)
  {
    8 * nb < topsize || exists a :: a in g && !g[a].used && g[a].size >= nb
  }
}
