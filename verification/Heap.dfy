/** What each change of heads and feet does to the heap, its tiling and the payloads in it. */
module Heap {
  import opened Shift
  import opened TreeIndex
  import opened SizeTrie
  import opened Words
  import opened Rings
  import opened Bins
  import opened BinInsert
  import opened Tiling

  /** The payload of the chunk of n words at a: from its link words to the foot word behind it. */
  ghost predicate SamePayload(m: seq<Word>, m': seq<Word>, a: Addr, n: nat)
  {
    |m'| == |m| && a + n < |m| && forall w :: a + 2 <= w <= a + n ==> m'[w] == m[w]
  }

  /** No chunk in use but p has its payload changed. */
  ghost predicate PayloadsKept(m: seq<Word>, m': seq<Word>, g: Chunks, p: Addr)
  {
    forall a {:trigger SamePayload(m, m', a, g[a].size)} :: a in g && g[a].used && a != p ==> SamePayload(m, m', a, g[a].size)
  }

  /** Heads, feet and tiling agree. */
  ghost predicate HeapOk(m: seq<Word>, lo: Addr, g: Chunks, top: Addr, topsize: nat)
  {
    && Tiled(g, lo, top)
    && HeadsOk(m, g)
    && TopWords(m, lo, top, topsize)
    && |m| <= WORD_LIMIT
  }

  lemma ChunkWithin(m: seq<Word>, lo: Addr, g: Chunks, top: Addr, topsize: nat, p: Addr)
    requires HeapOk(m, lo, g, top, topsize) && p in g
    ensures p + g[p].size <= top && p + g[p].size + HEAD < |m| && MIN_CHUNK <= g[p].size < WORD_LIMIT && lo <= p
  {
    assert ChunkOk(g, lo, top, p) && ChunkWords(m, g, p);
  }

  // ---------------------------------------------------------------------------
  // A free chunk is put to use

  /** set_inuse_and_pinuse(p, n) */
  ghost predicate MarkedInuse(m: seq<Word>, m': seq<Word>, p: Addr, n: nat)
    requires n < WORD_LIMIT
  {
    && p + n + HEAD < |m|
    && SameExcept(m, m', {p + HEAD, p + n + HEAD})
    && m'[p + HEAD] == UsedHead(n, true)
    && m'[p + n + HEAD] == OrPinuse(m[p + n + HEAD])
  }

  lemma UsedWhole(m: seq<Word>, m': seq<Word>, lo: Addr, g: Chunks, top: Addr, topsize: nat, p: Addr)
    requires HeapOk(m, lo, g, top, topsize) && p in g && !g[p].used
    requires g[p].size < WORD_LIMIT && MarkedInuse(m, m', p, g[p].size)
    ensures HeapOk(m', lo, g[p := Chunk(g[p].size, true)], top, topsize)
    ensures PayloadsKept(m, m', g, p)
  {
    hide SizeOf, Cinuse, Pinuse, UsedHead, FreeHead, OrPinuse, AndNotPinuse, TopHead, EndMarked;
    hide ChunkWords, SamePayload, MarkedInuse, Tiled;
    var g' := g[p := Chunk(g[p].size, true)];
    TiledUsed(g, lo, top, p);
    UsedWholeSelf(m, m', lo, g, top, topsize, p);
    forall a | a in g'
      ensures ChunkWords(m', g', a)
      ensures a != p ==> SamePayload(m, m', a, g[a].size)
    {
      if a != p {
        UsedWholeOther(m, m', lo, g, top, topsize, p, a);
        SameChunkWords(m', g, g', a);
      }
    }
  }

  lemma SameChunkWords(m: seq<Word>, g: Chunks, g': Chunks, a: Addr)
    requires a in g && a in g' && g'[a] == g[a] && ChunkWords(m, g, a)
    ensures ChunkWords(m, g', a)
  {
  }

  lemma UsedWholeSelf(m: seq<Word>, m': seq<Word>, lo: Addr, g: Chunks, top: Addr, topsize: nat, p: Addr)
    requires HeapOk(m, lo, g, top, topsize) && p in g && !g[p].used
    requires g[p].size < WORD_LIMIT && MarkedInuse(m, m', p, g[p].size)
    ensures ChunkWords(m', g[p := Chunk(g[p].size, true)], p) && TopWords(m', lo, top, topsize) && |m'| == |m|
  {
    hide SizeOf, Cinuse, Pinuse, UsedHead, FreeHead, OrPinuse, AndNotPinuse, TopHead, EndMarked;
    assert ChunkOk(g, lo, top, p) && ChunkOk(g, lo, top, p + g[p].size) && ChunkWords(m, g, p);
  }

  lemma UsedWholeOther(m: seq<Word>, m': seq<Word>, lo: Addr, g: Chunks, top: Addr, topsize: nat, p: Addr, a: Addr)
    requires HeapOk(m, lo, g, top, topsize) && p in g && !g[p].used && a in g && a != p
    requires g[p].size < WORD_LIMIT && MarkedInuse(m, m', p, g[p].size)
    ensures ChunkWords(m', g, a) && SamePayload(m, m', a, g[a].size)
  {
    hide SizeOf, Cinuse, Pinuse, UsedHead, FreeHead, OrPinuse, AndNotPinuse, TopHead, EndMarked;
    assert ChunkWords(m, g, a) && ChunkOk(g, lo, top, a) && Separate(g, a, p) && ChunkOk(g, lo, top, p);
    if a + g[a].size == p + g[p].size {
      OnePredecessor(g, lo, top, a, p);
    }
  }

  /** The heads of a chunk of n words in use and a free chunk of k words behind it, with its foot. */
  ghost predicate CutInTwo(m: seq<Word>, m': seq<Word>, p: Addr, n: nat, k: nat)
    requires n < WORD_LIMIT && k < WORD_LIMIT
  {
    && p + n + k + HEAD < |m|
    && SameExcept(m, m', {p + HEAD, p + n + HEAD, p + n + k})
    && m'[p + HEAD] == UsedHead(n, true)
    && m'[p + n + HEAD] == FreeHead(k)
    && m'[p + n + k] == 8 * k
  }

  lemma UsedFirstPart(m: seq<Word>, m': seq<Word>, lo: Addr, g: Chunks, top: Addr, topsize: nat, p: Addr, n: nat)
    requires HeapOk(m, lo, g, top, topsize) && p in g && !g[p].used
    requires MIN_CHUNK <= n && n + MIN_CHUNK <= g[p].size < WORD_LIMIT
    requires CutInTwo(m, m', p, n, g[p].size - n)
    ensures p + n !in g && HeapOk(m', lo, Split(g, p, n, true, false), top, topsize)
    ensures PayloadsKept(m, m', g, p)
  {
    hide SizeOf, Cinuse, Pinuse, UsedHead, FreeHead, OrPinuse, AndNotPinuse, Split, TopHead, EndMarked;
    hide ChunkWords, Tiled, HeadsOk;
    TiledSplit(g, lo, top, p, n, false);
    UsedFirstPartHeads(m, m', lo, g, top, topsize, p, n);
    UsedFirstPartTop(m, m', lo, g, top, topsize, p, n);
  }

  lemma UsedFirstPartHeads(m: seq<Word>, m': seq<Word>, lo: Addr, g: Chunks, top: Addr, topsize: nat, p: Addr, n: nat)
    requires HeapOk(m, lo, g, top, topsize) && p in g && !g[p].used
    requires MIN_CHUNK <= n && n + MIN_CHUNK <= g[p].size < WORD_LIMIT
    requires CutInTwo(m, m', p, n, g[p].size - n)
    requires p + n !in g
    ensures HeadsOk(m', Split(g, p, n, true, false)) && PayloadsKept(m, m', g, p)
  {
    hide SizeOf, Cinuse, Pinuse, UsedHead, FreeHead, OrPinuse, AndNotPinuse, Split, CutInTwo, Tiled, TopWords;
    UsedFirstPartParts(m, m', lo, g, top, topsize, p, n);
    var g' := Split(g, p, n, true, false);
    SplitIs(g, p, n, true, false);
    forall a | a in g && a != p
      ensures ChunkWords(m', g', a) && SamePayload(m, m', a, g[a].size)
    {
      UsedFirstPartOther(m, m', lo, g, top, topsize, p, n, a);
    }
  }

  lemma UsedFirstPartParts(m: seq<Word>, m': seq<Word>, lo: Addr, g: Chunks, top: Addr, topsize: nat, p: Addr, n: nat)
    requires HeapOk(m, lo, g, top, topsize) && p in g && !g[p].used
    requires MIN_CHUNK <= n && n + MIN_CHUNK <= g[p].size < WORD_LIMIT
    requires CutInTwo(m, m', p, n, g[p].size - n)
    requires p + n !in g
    ensures ChunkWords(m', Split(g, p, n, true, false), p) && ChunkWords(m', Split(g, p, n, true, false), p + n)
  {
    hide SizeOf, Cinuse, Pinuse, UsedHead, FreeHead, OrPinuse, AndNotPinuse, Split, TopHead, EndMarked;
    SplitIs(g, p, n, true, false);
    assert ChunkWords(m, g, p);
  }

  lemma UsedFirstPartTop(m: seq<Word>, m': seq<Word>, lo: Addr, g: Chunks, top: Addr, topsize: nat, p: Addr, n: nat)
    requires HeapOk(m, lo, g, top, topsize) && p in g && !g[p].used
    requires MIN_CHUNK <= n && n + MIN_CHUNK <= g[p].size < WORD_LIMIT
    requires CutInTwo(m, m', p, n, g[p].size - n)
    ensures TopWords(m', lo, top, topsize)
  {
    hide SizeOf, Cinuse, Pinuse, UsedHead, FreeHead, OrPinuse, AndNotPinuse, Split, TopHead, EndMarked;
    assert ChunkOk(g, lo, top, p) && ChunkWords(m, g, p);
    assert p + g[p].size in g ==> ChunkOk(g, lo, top, p + g[p].size);
  }

  lemma UsedFirstPartOther(m: seq<Word>, m': seq<Word>, lo: Addr, g: Chunks, top: Addr, topsize: nat, p: Addr, n: nat, a: Addr)
    requires HeapOk(m, lo, g, top, topsize) && p in g && !g[p].used
    requires MIN_CHUNK <= n && n + MIN_CHUNK <= g[p].size < WORD_LIMIT
    requires CutInTwo(m, m', p, n, g[p].size - n)
    requires a in g && a != p
    ensures ChunkWords(m', g, a) && SamePayload(m, m', a, g[a].size)
  {
    hide SizeOf, Cinuse, Pinuse, UsedHead, FreeHead, OrPinuse, AndNotPinuse, Split, TopHead, EndMarked;
    assert ChunkWords(m, g, a) && ChunkOk(g, lo, top, a) && Separate(g, a, p) && ChunkOk(g, lo, top, p);
    if a + g[a].size == p + g[p].size {
      OnePredecessor(g, lo, top, a, p);
    }
  }

  /** A chunk of n words in use cut off top, k bytes remaining. */
  ghost predicate CutOffTop(m: seq<Word>, m': seq<Word>, p: Addr, n: nat, k: nat)
    requires n < WORD_LIMIT && k < TWO64
  {
    && p + n + HEAD < |m|
    && SameExcept(m, m', {p + HEAD, p + n + HEAD})
    && m'[p + HEAD] == UsedHead(n, true)
    && m'[p + n + HEAD] == TopHead(k)
  }

  /** Top moved up by n words, its head rewritten. */
  lemma TopMoved(m: seq<Word>, m': seq<Word>, lo: Addr, top: Addr, topsize: nat, top': Addr, topsize': nat)
    requires TopWords(m, lo, top, topsize) && lo + HEAD < |m'| == |m| && 8 * top' + topsize' == 8 * top + topsize && topsize' < TWO64
    requires top' + HEAD < |m| && m'[top' + HEAD] == TopHead(topsize') && topsize' > 0 && Pinuse(m'[lo + HEAD])
    requires var w := top + topsize / 8 + HEAD; w != top' + HEAD ==> m'[w] == m[w]
    ensures TopWords(m', lo, top', topsize')
  {
    hide Cinuse, Pinuse, TopHead, EndMarked;
    assert top' + topsize' / 8 == top + topsize / 8 && topsize' % 8 == topsize % 8;
    if topsize' < 8 {
      ShortHead(topsize');
    }
  }

  lemma UsedFromTop(m: seq<Word>, m': seq<Word>, lo: Addr, g: Chunks, top: Addr, topsize: nat, n: nat)
    requires HeapOk(m, lo, g, top, topsize) && MIN_CHUNK <= n && 8 * n < topsize < TWO64
    requires CutOffTop(m, m', top, n, topsize - 8 * n)
    ensures top !in g && HeapOk(m', lo, g[top := Chunk(n, true)], top + n, topsize - 8 * n)
    ensures PayloadsKept(m, m', g, top)
  {
    hide SizeOf, Cinuse, Pinuse, UsedHead, FreeHead, OrPinuse, AndNotPinuse, TopHead, EndMarked;
    var g' := g[top := Chunk(n, true)];
    TopMoved(m, m', lo, top, topsize, top + n, topsize - 8 * n) by {
      assert lo != top ==> lo in g && ChunkOk(g, lo, top, lo);
    }
    TiledPush(g, lo, top, n);
    assert ChunkWords(m', g', top);
    hide ChunkWords, SamePayload, CutOffTop, Tiled, TopWords;
    forall a | a in g && a != top
      ensures ChunkWords(m', g', a) && SamePayload(m, m', a, g[a].size)
    {
      UsedFromTopOther(m, m', lo, g, top, topsize, n, a);
      SameChunkWords(m', g, g', a);
    }
  }

  lemma UsedFromTopOther(m: seq<Word>, m': seq<Word>, lo: Addr, g: Chunks, top: Addr, topsize: nat, n: nat, a: Addr)
    requires HeapOk(m, lo, g, top, topsize) && MIN_CHUNK <= n && 8 * n < topsize < TWO64
    requires CutOffTop(m, m', top, n, topsize - 8 * n) && a in g
    ensures ChunkWords(m', g, a) && SamePayload(m, m', a, g[a].size)
  {
    hide SizeOf, Cinuse, Pinuse, UsedHead, FreeHead, OrPinuse, AndNotPinuse, TopHead, EndMarked;
    assert ChunkWords(m, g, a) && ChunkOk(g, lo, top, a);
  }

  // ---------------------------------------------------------------------------
  // A chunk in use is freed

  /** set_free_with_pinuse(p, n, next): where the PINUSE bit was already clear, it is cleared again. */
  ghost predicate MarkedFree(m: seq<Word>, m': seq<Word>, p: Addr, n: nat)
    requires n < WORD_LIMIT
  {
    && p + n + HEAD < |m|
    && SameExcept(m, m', {p + HEAD, p + n, p + n + HEAD})
    && m'[p + HEAD] == FreeHead(n)
    && m'[p + n] == 8 * n
    && m'[p + n + HEAD] == AndNotPinuse(m[p + n + HEAD])
  }

  lemma FreedWhole(m: seq<Word>, m': seq<Word>, lo: Addr, g: Chunks, top: Addr, topsize: nat, p: Addr, n: nat, q: Addr)
    requires HeapOk(m, lo, g, top, topsize) && Spans(g, p, n, q) && UsedUpTo(g, p) && p + n in g && g[p + n].used
    requires n < WORD_LIMIT && MarkedFree(m, m', p, n)
    ensures HeapOk(m', lo, Merged(g, p, n), top, topsize)
    ensures PayloadsKept(m, m', g, q)
  {
    hide SizeOf, Cinuse, Pinuse, UsedHead, FreeHead, OrPinuse, AndNotPinuse, SamePayload;
    hide Tiled, ChunkWords, MarkedFree;
    var g': Chunks := Merged(g, p, n);
    TiledMerged(g, lo, top, p, n, q);
    UsedOutside(g, lo, top, p, n, q);
    FreedWholeEnds(m, m', lo, g, top, topsize, p, n, q);
    forall a | a in g' && a != p
      ensures ChunkWords(m', g', a) && SamePayload(m, m', a, g[a].size)
    {
      FreedWholeOther(m, m', lo, g, top, p, n, a);
    }
  }

  lemma FreedWholeEnds(m: seq<Word>, m': seq<Word>, lo: Addr, g: Chunks, top: Addr, topsize: nat, p: Addr, n: nat, q: Addr)
    requires HeapOk(m, lo, g, top, topsize) && Spans(g, p, n, q) && p + n in g
    requires n < WORD_LIMIT && MarkedFree(m, m', p, n)
    ensures ChunkWords(m', Merged(g, p, n), p) && TopWords(m', lo, top, topsize) && |m'| == |m|
  {
    hide SizeOf, Cinuse, Pinuse, UsedHead, FreeHead, OrPinuse, AndNotPinuse, TopHead, EndMarked;
    assert ChunkOk(g, lo, top, p) && ChunkOk(g, lo, top, p + n) && ChunkOk(g, lo, top, q);
  }

  lemma UsedOutside(g: Chunks, lo: Addr, top: Addr, p: Addr, n: nat, q: Addr)
    requires Tiled(g, lo, top) && Spans(g, p, n, q)
    ensures forall a :: a in g && g[a].used && a != q ==> a in Dropped(g, p, n) && a in Merged(g, p, n) && a != p
  {
    forall a | a in g && g[a].used && a != q
      ensures a in Dropped(g, p, n) && a != p
    {
      assert SpanPart(g, p, n, q, a) && ChunkOk(g, lo, top, a);
    }
  }

  lemma FreedWholeOther(m: seq<Word>, m': seq<Word>, lo: Addr, g: Chunks, top: Addr, p: Addr, n: nat, a: Addr)
    requires HeadsOk(m, g) && Tiled(Merged(g, p, n), lo, top)
    requires n < WORD_LIMIT && MarkedFree(m, m', p, n)
    requires a in Merged(g, p, n) && a != p
    ensures ChunkWords(m', Merged(g, p, n), a) && SamePayload(m, m', a, g[a].size)
  {
    hide SizeOf, Cinuse, Pinuse, UsedHead, FreeHead, OrPinuse, AndNotPinuse, TopHead, EndMarked;
    var g': Chunks := Merged(g, p, n);
    assert ChunkWords(m, g, a) && ChunkOk(g', lo, top, a) && Separate(g', a, p) && ChunkOk(g', lo, top, p);
    if a + g'[a].size == p + n {
      OnePredecessor(g', lo, top, a, p);
    }
  }

  /** The space from p on becomes the bottom of top. */
  lemma FreedToTop(m: seq<Word>, m': seq<Word>, lo: Addr, g: Chunks, top: Addr, topsize: nat, p: Addr, n: nat, q: Addr)
    requires HeapOk(m, lo, g, top, topsize) && Spans(g, p, n, q) && UsedUpTo(g, p)
    requires p + n == top && 0 < 8 * n + topsize < TWO64
    requires SameExcept(m, m', {p + HEAD}) && p + HEAD < |m| && m'[p + HEAD] == TopHead(8 * n + topsize)
    ensures HeapOk(m', lo, Dropped(g, p, n), p, 8 * n + topsize)
    ensures PayloadsKept(m, m', g, q)
  {
    hide SizeOf, Cinuse, Pinuse, UsedHead, FreeHead, OrPinuse, AndNotPinuse, TopHead, EndMarked;
    hide Tiled, ChunkWords, SamePayload;
    var g': Chunks := Dropped(g, p, n);
    TiledDropped(g, lo, top, p, n, q);
    UsedOutside(g, lo, top, p, n, q);
    ChunkWithin(m, lo, g, top, topsize, p);
    forall a | a in g'
      ensures ChunkWords(m', g', a) && SamePayload(m, m', a, g[a].size)
    {
      FreedToTopOther(m, m', lo, g, top, p, n, 8 * n + topsize, a);
    }
    TopMoved(m, m', lo, top, topsize, p, 8 * n + topsize);
  }

  lemma FreedToTopOther(m: seq<Word>, m': seq<Word>, lo: Addr, g: Chunks, top: Addr, p: Addr, n: nat, k: nat, a: Addr)
    requires HeadsOk(m, g) && Tiled(Dropped(g, p, n), lo, p) && p + HEAD < |m| && k < TWO64
    requires SameExcept(m, m', {p + HEAD}) && m'[p + HEAD] == TopHead(k)
    requires a in Dropped(g, p, n)
    ensures ChunkWords(m', Dropped(g, p, n), a) && SamePayload(m, m', a, g[a].size)
  {
    hide SizeOf, Cinuse, Pinuse, UsedHead, FreeHead, OrPinuse, AndNotPinuse, TopHead;
    var g': Chunks := Dropped(g, p, n);
    assert ChunkWords(m, g, a) && ChunkOk(g', lo, p, a);
    assert p in g' ==> ChunkOk(g', lo, p, p);
  }

  // ---------------------------------------------------------------------------
  // A chunk in use is cut, or grown into top

  /** set_inuse on both parts of a chunk in use; the second head was user data before. */
  ghost predicate CutInuse(m: seq<Word>, m': seq<Word>, p: Addr, n: nat, k: nat)
    requires n < WORD_LIMIT && k < WORD_LIMIT && p + HEAD < |m|
  {
    && p + n + k + HEAD < |m|
    && SameExcept(m, m', {p + HEAD, p + n + HEAD, p + n + k + HEAD})
    && m'[p + HEAD] == UsedHead(n, Pinuse(m[p + HEAD]))
    && m'[p + n + HEAD] == UsedHead(k, true)
    && m'[p + n + k + HEAD] == OrPinuse(m[p + n + k + HEAD])
  }

  lemma CutUsed(m: seq<Word>, m': seq<Word>, lo: Addr, g: Chunks, top: Addr, topsize: nat, p: Addr, n: nat)
    requires HeapOk(m, lo, g, top, topsize) && p in g && g[p].used
    requires MIN_CHUNK <= n && n + MIN_CHUNK <= g[p].size < WORD_LIMIT && p + HEAD < |m|
    requires CutInuse(m, m', p, n, g[p].size - n)
    ensures p + n !in g && HeapOk(m', lo, Split(g, p, n, true, true), top, topsize)
    ensures PayloadsKept(m, m', g, p)
    ensures forall w :: p + 2 <= w <= p + n ==> m'[w] == m[w]
    ensures forall w :: p + n + 2 <= w <= p + g[p].size ==> m'[w] == m[w]
  {
    hide SizeOf, Cinuse, Pinuse, UsedHead, FreeHead, OrPinuse, AndNotPinuse, Split, TopHead, EndMarked;
    hide ChunkWords, Tiled, HeadsOk;
    TiledSplit(g, lo, top, p, n, true);
    CutUsedHeads(m, m', lo, g, top, topsize, p, n);
    CutUsedTop(m, m', lo, g, top, topsize, p, n);
  }

  lemma CutUsedHeads(m: seq<Word>, m': seq<Word>, lo: Addr, g: Chunks, top: Addr, topsize: nat, p: Addr, n: nat)
    requires HeapOk(m, lo, g, top, topsize) && p in g && g[p].used
    requires MIN_CHUNK <= n && n + MIN_CHUNK <= g[p].size < WORD_LIMIT && p + HEAD < |m|
    requires CutInuse(m, m', p, n, g[p].size - n)
    requires p + n !in g
    ensures HeadsOk(m', Split(g, p, n, true, true)) && PayloadsKept(m, m', g, p)
  {
    hide SizeOf, Cinuse, Pinuse, UsedHead, FreeHead, OrPinuse, AndNotPinuse, Split, CutInuse, Tiled, TopWords;
    CutUsedParts(m, m', lo, g, top, topsize, p, n);
    var g' := Split(g, p, n, true, true);
    SplitIs(g, p, n, true, true);
    forall a | a in g && a != p
      ensures ChunkWords(m', g', a) && SamePayload(m, m', a, g[a].size)
    {
      CutUsedOther(m, m', lo, g, top, topsize, p, n, a);
    }
  }

  lemma CutUsedParts(m: seq<Word>, m': seq<Word>, lo: Addr, g: Chunks, top: Addr, topsize: nat, p: Addr, n: nat)
    requires HeapOk(m, lo, g, top, topsize) && p in g && g[p].used
    requires MIN_CHUNK <= n && n + MIN_CHUNK <= g[p].size < WORD_LIMIT && p + HEAD < |m|
    requires CutInuse(m, m', p, n, g[p].size - n)
    requires p + n !in g
    ensures ChunkWords(m', Split(g, p, n, true, true), p) && ChunkWords(m', Split(g, p, n, true, true), p + n)
  {
    hide SizeOf, Cinuse, Pinuse, UsedHead, FreeHead, OrPinuse, AndNotPinuse, Split, TopHead, EndMarked;
    SplitIs(g, p, n, true, true);
    assert ChunkWords(m, g, p);
  }

  lemma CutUsedTop(m: seq<Word>, m': seq<Word>, lo: Addr, g: Chunks, top: Addr, topsize: nat, p: Addr, n: nat)
    requires HeapOk(m, lo, g, top, topsize) && p in g && g[p].used
    requires MIN_CHUNK <= n && n + MIN_CHUNK <= g[p].size < WORD_LIMIT && p + HEAD < |m|
    requires CutInuse(m, m', p, n, g[p].size - n)
    ensures TopWords(m', lo, top, topsize)
    ensures forall w :: p + 2 <= w <= p + n ==> m'[w] == m[w]
    ensures forall w :: p + n + 2 <= w <= p + g[p].size ==> m'[w] == m[w]
  {
    hide SizeOf, Cinuse, Pinuse, UsedHead, FreeHead, OrPinuse, AndNotPinuse, Split, TopHead, EndMarked;
    assert ChunkOk(g, lo, top, p) && ChunkWords(m, g, p);
    assert p + g[p].size in g ==> ChunkOk(g, lo, top, p + g[p].size);
  }

  lemma CutUsedOther(m: seq<Word>, m': seq<Word>, lo: Addr, g: Chunks, top: Addr, topsize: nat, p: Addr, n: nat, a: Addr)
    requires HeapOk(m, lo, g, top, topsize) && p in g && g[p].used
    requires MIN_CHUNK <= n && n + MIN_CHUNK <= g[p].size < WORD_LIMIT && p + HEAD < |m|
    requires CutInuse(m, m', p, n, g[p].size - n)
    requires a in g && a != p
    ensures ChunkWords(m', g, a) && SamePayload(m, m', a, g[a].size)
  {
    hide SizeOf, Cinuse, Pinuse, UsedHead, FreeHead, OrPinuse, AndNotPinuse, Split, TopHead, EndMarked;
    assert ChunkWords(m, g, a) && ChunkOk(g, lo, top, a) && Separate(g, a, p) && ChunkOk(g, lo, top, p);
    if a + g[a].size == p + g[p].size {
      OnePredecessor(g, lo, top, a, p);
    }
  }

  /** The last chunk, in use, grown to n words of what was it and top together; k bytes remain. */
  ghost predicate GrownInuse(m: seq<Word>, m': seq<Word>, p: Addr, n: nat, k: nat)
    requires n < WORD_LIMIT && k < TWO64 && p + HEAD < |m|
  {
    && p + n + HEAD < |m|
    && SameExcept(m, m', {p + HEAD, p + n + HEAD})
    && m'[p + HEAD] == UsedHead(n, Pinuse(m[p + HEAD]))
    && m'[p + n + HEAD] == TopHead(k)
  }

  lemma GrownUsed(m: seq<Word>, m': seq<Word>, lo: Addr, g: Chunks, top: Addr, topsize: nat, p: Addr, n: nat)
    requires HeapOk(m, lo, g, top, topsize) && p in g && g[p].used && p + g[p].size == top && p + HEAD < |m|
    requires g[p].size < n < WORD_LIMIT && 8 * n < 8 * g[p].size + topsize < TWO64
    requires GrownInuse(m, m', p, n, 8 * g[p].size + topsize - 8 * n)
    ensures HeapOk(m', lo, g[p := Chunk(n, true)], p + n, 8 * g[p].size + topsize - 8 * n)
    ensures PayloadsKept(m, m', g, p)
    ensures forall w :: p + 2 <= w <= top ==> m'[w] == m[w]
  {
    hide SizeOf, Cinuse, Pinuse, UsedHead, FreeHead, OrPinuse, AndNotPinuse, TopHead, EndMarked;
    var g' := g[p := Chunk(n, true)];
    assert ChunkOk(g, lo, top, p) && ChunkWords(m, g, p);
    TiledMoveTop(g, lo, top, p, n);
    TopMoved(m, m', lo, top, topsize, p + n, 8 * g[p].size + topsize - 8 * n);
    forall a | a in g'
      ensures ChunkWords(m', g', a)
    {
      assert ChunkWords(m, g, a) && ChunkOk(g, lo, top, a) && Separate(g, a, p);
    }
    forall a | a in g && a != p
      ensures SamePayload(m, m', a, g[a].size)
    {
      assert ChunkWords(m, g, a) && Separate(g, a, p) && ChunkOk(g, lo, top, a);
    }
  }

  // ---------------------------------------------------------------------------
  // Bins and heap do not disturb each other

  /** The chunks of sz are free chunks of g. */
  ghost predicate AllFree(g: Chunks, sz: map<Addr, nat>)
  {
    forall a :: a in sz ==> a in g && g[a] == Chunk(sz[a], false)
  }

  lemma HeadOffBins(h: Addr, g: Chunks, top: Addr, sz: map<Addr, nat>, c: Addr)
    requires Tiled(g, First(h), top) && AllFree(g, sz) && (c in g || c == top)
    ensures OffBins(h, sz, c + HEAD)
    ensures c in g ==> OffBins(h, sz, c + g[c].size) && OffBins(h, sz, c + g[c].size + HEAD)
  {
    assert c in g ==> ChunkOk(g, First(h), top, c);
    forall a | a in sz
      ensures c + HEAD < a + 2 || a + sz[a] <= c + HEAD
      ensures c in g ==> c + g[c].size + HEAD < a + 2 || a + sz[a] <= c + g[c].size
    {
      assert ChunkOk(g, First(h), top, a);
      if c in g {
        assert Separate(g, a, c);
      }
    }
  }

  lemma PayloadOffBins(h: Addr, g: Chunks, top: Addr, sz: map<Addr, nat>, c: Addr, w: nat)
    requires Tiled(g, First(h), top) && AllFree(g, sz) && c in g && g[c].used && c + 2 <= w <= c + g[c].size
    ensures OffBins(h, sz, w)
  {
    assert ChunkOk(g, First(h), top, c);
    forall a | a in sz
      ensures w < a + 2 || a + sz[a] <= w
    {
      assert Separate(g, a, c);
    }
  }

  /** Bin operations leave heads, feet, tiling and payloads alone. */
  lemma HeapFrame(m: seq<Word>, m': seq<Word>, h: Addr, g: Chunks, top: Addr, topsize: nat, sz: map<Addr, nat>)
    requires HeapOk(m, First(h), g, top, topsize) && AllFree(g, sz) && BinWrites(m, m', h, sz)
    ensures HeapOk(m', First(h), g, top, topsize)
    ensures PayloadsKept(m, m', g, 0)
  {
    hide SizeOf, Cinuse, Pinuse, UsedHead, FreeHead, OffBins, TopHead;
    var lo := First(h);
    HeadOffBins(h, g, top, sz, top);
    forall a | a in g
      ensures ChunkWords(m', g, a)
    {
      assert ChunkWords(m, g, a);
      HeadOffBins(h, g, top, sz, a);
    }
    forall a | a in g && g[a].used
      ensures SamePayload(m, m', a, g[a].size)
    {
      assert ChunkWords(m, g, a);
      forall w | a + 2 <= w <= a + g[a].size
        ensures m'[w] == m[w]
      {
        PayloadOffBins(h, g, top, sz, a, w);
      }
    }
    TopOffBins(h, g, top, topsize, sz);
    HeadOffBins(h, g, top, sz, if lo in g then lo else top);
  }

  lemma TopOffBins(h: Addr, g: Chunks, top: Addr, topsize: nat, sz: map<Addr, nat>)
    requires Tiled(g, First(h), top) && AllFree(g, sz)
    ensures OffBins(h, sz, top + topsize / 8 + HEAD)
  {
    forall a | a in sz
      ensures a + sz[a] <= top
    {
      assert ChunkOk(g, First(h), top, a);
    }
  }

  /** Writes to the heads and insides of the n words at p, which no bin holds, leave the bins alone. */
  lemma KeepBins(m: seq<Word>, m': seq<Word>, h: Addr, b: Bins, p: Addr, n: nat)
    requires BinsOk(m, h, b) && First(h) <= p && |m'| == |m|
    requires forall a :: a in b.size ==> a + b.size[a] <= p || p + n <= a
    requires forall w :: 0 <= w < |m| && !(p + HEAD <= w <= p + n + HEAD) ==> m'[w] == m[w]
    requires p + n in b.size && p + n + HEAD < |m| ==> SizeOf(m'[p + n + HEAD]) == SizeOf(m[p + n + HEAD])
    ensures BinsOk(m', h, b)
  {
    hide SizeOf;
    forall a | a in b.size
      ensures SameChunk(m, m', a, b.size[a])
    {
      assert SizeWord(m, b, a) && Placed(h, b, a);
    }
    BinsFrame(m, m', h, b);
  }

  // ---------------------------------------------------------------------------
  // Glue

  lemma PayloadsCompose(m: seq<Word>, m1: seq<Word>, m2: seq<Word>, g: Chunks, p: Addr, q: Addr)
    requires PayloadsKept(m, m1, g, p) && PayloadsKept(m1, m2, g, q)
    requires q == p || q == 0 || p == 0
    requires 0 !in g
    ensures PayloadsKept(m, m2, g, if p == 0 then q else p)
  {
    forall a | a in g && g[a].used && a != (if p == 0 then q else p)
      ensures SamePayload(m, m2, a, g[a].size)
    {
      assert SamePayload(m, m1, a, g[a].size) && SamePayload(m1, m2, a, g[a].size);
    }
  }

  /** Payloads of chunks that are still there, seen from the later chunks. */
  lemma PayloadsOfLater(m: seq<Word>, m': seq<Word>, g: Chunks, g': Chunks, p: Addr)
    requires PayloadsKept(m, m', g', p)
    requires forall a :: a in g && g[a].used && a != p ==> a in g' && g'[a] == g[a]
    ensures PayloadsKept(m, m', g, p)
  {
    forall a | a in g && g[a].used && a != p
      ensures SamePayload(m, m', a, g[a].size)
    {
      assert SamePayload(m, m', a, g'[a].size);
    }
  }

  /** A free chunk that no bin holds may be inserted. */
  lemma FreeInsertable(m: seq<Word>, h: Addr, g: Chunks, top: Addr, topsize: nat, b: Bins, p: Addr)
    requires HeapOk(m, First(h), g, top, topsize) && AllFree(g, b.size) && p in g && p !in b.size
    ensures Insertable(m, h, b, p, g[p].size)
  {
    assert ChunkWords(m, g, p) && ChunkOk(g, First(h), top, p);
    forall a | a in b.size
      ensures Beside(b, a, p, g[p].size)
    {
      assert Separate(g, a, p);
    }
  }

  /** Bins hold nothing of an unbinned chunk. */
  lemma BinsBeside(h: Addr, g: Chunks, top: Addr, b: Bins, p: Addr)
    requires Tiled(g, First(h), top) && AllFree(g, b.size) && p !in b.size && (p in g || p == top)
    ensures First(h) <= p
    ensures forall a :: a in b.size ==> a + b.size[a] <= p || p + (if p in g then g[p].size else 0) <= a
  {
    assert p in g ==> ChunkOk(g, First(h), top, p);
    forall a | a in b.size
      ensures a + b.size[a] <= p || p + (if p in g then g[p].size else 0) <= a
    {
      assert ChunkOk(g, First(h), top, a);
      if p in g {
        assert Separate(g, a, p);
      }
    }
  }
}
