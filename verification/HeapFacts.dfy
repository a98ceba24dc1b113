/** Heads, feet and bins of one space together: what each step of an operation keeps. */
module HeapFacts {
  import opened Shift
  import opened TreeIndex
  import opened BitOps
  import opened BinMap
  import opened SizeTrie
  import opened TrieSearch
  import opened Words
  import opened Outcomes
  import opened Rings
  import opened Bins
  import opened BinInsert
  import opened BinTrees
  import opened BinRemove
  import opened TreeWalks
  import opened Tiling
  import opened Heap
  import opened BinFacts

  lemma AllFreeWith(g: Chunks, sz: map<Addr, nat>, p: Addr)
    requires AllFree(g, sz) && p in g && !g[p].used
    ensures AllFree(g, sz[p := g[p].size])
  {
  }

  lemma AllFreeWithout(g: Chunks, sz: map<Addr, nat>, p: Addr)
    requires AllFree(g, sz)
    ensures AllFree(g, sz - {p})
  {
  }

  lemma AllFreeKept(g: Chunks, g': Chunks, sz: map<Addr, nat>, p: Addr)
    requires AllFree(g, sz) && p !in sz
    requires forall a :: a in g && a != p && !g[a].used ==> a in g' && g'[a] == g[a]
    ensures AllFree(g', sz)
  {
  }

  lemma AllFreeSplit(g: Chunks, sz: map<Addr, nat>, p: Addr, n: nat)
    requires AllFree(g, sz) && p in g && p !in sz && n <= g[p].size && p + n !in g
    ensures AllFree(Split(g, p, n, true, false), sz) && p + n !in sz
    ensures AllFree(Split(g, p, n, true, true), sz)
  {
  }

  lemma BinsBesideHeap(m: seq<Word>, h: Addr, g: Chunks, top: Addr, topsize: nat, b: Bins, p: Addr)
    requires HeapOk(m, First(h), g, top, topsize) && AllFree(g, b.size) && p in g && p !in b.size
    ensures First(h) <= p && 0 !in g
    ensures forall a :: a in b.size ==> a + b.size[a] <= p || p + g[p].size <= a
  {
    BinsBeside(h, g, top, b, p);
    assert 0 in g ==> ChunkOk(g, First(h), top, 0);
  }

  lemma PayloadsSame(m: seq<Word>, g: Chunks, lo: Addr, top: Addr, topsize: nat)
    requires HeapOk(m, lo, g, top, topsize)
    ensures forall p :: PayloadsKept(m, m, g, p)
  {
    forall a | a in g && g[a].used
      ensures SamePayload(m, m, a, g[a].size)
    {
      assert ChunkWords(m, g, a);
    }
  }

  /** Blocks in use before are in use after one more was taken. */
  lemma LiveStays(g: Chunks, g': Chunks, p: Addr, nb: nat)
    requires Took(g, g', p, nb)
    ensures forall a :: a in g && g[a].used ==> a in g' && g'[a] == g[a]
  {
    forall a | a in g && g[a].used
      ensures a in g' && g'[a] == g[a]
    {
      assert a in Live(g);
      assert a in Live(g') && Live(g')[a] == Live(g)[a];
    }
  }

  lemma TopBounds(m: seq<Word>, h: Addr, g: Chunks, top: Addr, topsize: nat, b: Bins)
    requires HeapOk(m, First(h), g, top, topsize) && AllFree(g, b.size)
    ensures top + topsize / 8 + HEAD + 1 < |m| <= WORD_LIMIT && topsize < TWO64 && First(h) <= top && top !in g && top !in b.size && 0 !in g
    ensures forall a :: a in b.size ==> a + b.size[a] <= top
    ensures forall a :: a in b.size ==> a + b.size[a] != top
  {
    assert top in g ==> ChunkOk(g, First(h), top, top);
    assert 0 in g ==> ChunkOk(g, First(h), top, 0);
    forall a | a in b.size
      ensures a + b.size[a] <= top && a + b.size[a] != top
    {
      assert ChunkOk(g, First(h), top, a);
      var c := a + b.size[a];
      assert c in g ==> ChunkOk(g, First(h), top, c);
    }
  }

  lemma FirstPartFree(m: seq<Word>, lo: Addr, g: Chunks, top: Addr, topsize: nat, p: Addr, n: nat)
    requires HeapOk(m, lo, g, top, topsize) && p in g && 0 < n < g[p].size
    ensures p + n !in g
  {
    NothingInside(g, lo, top, p, p + n);
  }

  /** The tree node found is a free binned chunk. */
  lemma FoundChunk(m: seq<Word>, h: Addr, g: Chunks, top: Addr, topsize: nat, b: Bins, dv: Addr, sv: nat, v: Addr)
    requires BinsOk(m, h, b) && HeapOk(m, First(h), g, top, topsize) && AllFree(g, b.size)
    requires AtNode(b, sv, v) && (dv != 0 ==> dv !in b.size)
    ensures v in b.size && b.size[v] == sv && v in g && g[v] == Chunk(sv, false) && First(h) <= v && v != 0
    ensures v != dv && 0 !in g && FirstOfBin(b, v)
  {
    ReadNode(m, h, b, sv, v);
    assert 0 in g ==> ChunkOk(g, First(h), top, 0);
  }

  lemma DvSize(m: seq<Word>, h: Addr, g: Chunks, top: Addr, topsize: nat, b: Bins, dv: Addr, dvsize: nat)
    requires HeapOk(m, First(h), g, top, topsize) && DvOk(g, b, dv, dvsize)
    ensures dvsize < WORD_LIMIT
  {
    if dv != 0 {
      ChunkWithin(m, First(h), g, top, topsize, dv);
    }
  }

  /** Every free chunk is dv, or in a bin, but for one that is being moved. */
  ghost predicate FreeIsBinned(g: Chunks, b: Bins, dv: Addr, loose: Addr)
  {
    forall a {:trigger a in b.size} {:trigger g[a]} :: a in g && !g[a].used && a != dv && a != loose ==> a in b.size
  }

  /** dv is null, or a free chunk of dvsize words in no bin. */
  ghost predicate DvOk(g: Chunks, b: Bins, dv: Addr, dvsize: nat)
  {
    && (dvsize == 0 <==> dv == 0)
    && (dv != 0 ==> dv in g && g[dv] == Chunk(dvsize, false) && dv !in b.size)
  }

  lemma BinnedServes(g: Chunks, b: Bins, p: Addr, topsize: nat, nb: nat)
    requires AllFree(g, b.size) && TightestBinned(b.size, nb, p)
    ensures p in g && CanServe(g, topsize, nb)
  {
    assert p in g && !g[p].used && g[p].size >= nb;
  }

  lemma NothingServes(g: Chunks, b: Bins, dv: Addr, dvsize: nat, topsize: nat, nb: nat)
    requires AllFree(g, b.size) && DvOk(g, b, dv, dvsize) && FreeIsBinned(g, b, dv, 0) && 0 !in g
    requires dvsize < nb && topsize <= 8 * nb && forall a :: a in b.size ==> b.size[a] < nb
    ensures !CanServe(g, topsize, nb)
  {
    forall a | a in g && !g[a].used
      ensures g[a].size < nb
    {
      assert a == dv || a in b.size;
    }
  }

  lemma NothingFits(g: Chunks, b: Bins, dv: Addr, dvsize: nat, nb: nat)
    requires AllFree(g, b.size) && DvOk(g, b, dv, dvsize) && FreeIsBinned(g, b, dv, 0) && 0 !in g
    requires dvsize < nb && forall a :: a in b.size ==> b.size[a] < nb
    ensures NoneFits(g, nb)
  {
    forall a | a in g && !g[a].used
      ensures g[a].size < nb
    {
      assert a == dv || a in b.size;
    }
  }

  /** The tightest of the binned chunks, if it is tighter than dv, is the tightest of all. */
  lemma TightOverall(g: Chunks, b: Bins, dv: Addr, dvsize: nat, nb: nat, p: Addr)
    requires AllFree(g, b.size) && DvOk(g, b, dv, dvsize) && FreeIsBinned(g, b, dv, 0)
    requires TightestBinned(b.size, nb, p) && (nb <= dvsize ==> b.size[p] < dvsize) && 0 !in g
    ensures Tightest(g, nb, p)
  {
    forall a | a in g && !g[a].used && g[a].size >= nb
      ensures g[p].size <= g[a].size
    {
      assert a == dv || a in b.size;
    }
  }

  lemma DvTight(g: Chunks, b: Bins, dv: Addr, dvsize: nat, nb: nat, p: Addr)
    requires AllFree(g, b.size) && DvOk(g, b, dv, dvsize) && FreeIsBinned(g, b, dv, 0) && 0 !in g
    requires nb <= dvsize ==> forall a :: a in b.size && b.size[a] >= nb ==> dvsize <= b.size[a]
    requires p != 0 && p in g ==> g[p] == Chunk(dvsize, false) && nb <= dvsize
    ensures p != 0 && p in g ==> Tightest(g, nb, p)
  {
    forall a | p in g && a in g && !g[a].used && g[a].size >= nb
      ensures g[p].size <= g[a].size
    {
      assert a == dv || a in b.size;
    }
  }

  /** A binned chunk taken out of its bin, and one put into a bin, as dv and the rest of the bins see it. */
  lemma LinksTaken(g: Chunks, b: Bins, b': Bins, dv: Addr, dvsize: nat, p: Addr)
    requires DvOk(g, b, dv, dvsize) && FreeIsBinned(g, b, dv, 0) && b'.size == b.size - {p} && 0 !in g
    ensures DvOk(g, b', dv, dvsize) && FreeIsBinned(g, b', dv, p)
  {
  }

  lemma LinksPut(g: Chunks, b: Bins, b': Bins, dv: Addr, dvsize: nat, p: Addr, n: nat)
    requires DvOk(g, b, dv, dvsize) && FreeIsBinned(g, b, dv, p) && b'.size == b.size[p := n] && p != dv
    ensures DvOk(g, b', dv, dvsize) && FreeIsBinned(g, b', dv, 0)
  {
  }

  lemma DvOfFewer(g: Chunks, b: Bins, b': Bins, dv: Addr, dvsize: nat)
    requires DvOk(g, b, dv, dvsize) && b'.size.Keys <= b.size.Keys
    ensures DvOk(g, b', dv, dvsize) && (dv != 0 ==> dvsize > 0)
  {
  }

  /** Every free chunk outside the n words at p is dv, or binned; no binned chunk reaches inside. */
  ghost predicate Opened(g: Chunks, sz: map<Addr, nat>, dv: Addr, p: Addr, n: nat)
  {
    && (forall a {:trigger a in sz} {:trigger g[a]} :: a in g && !g[a].used && a != dv ==> a in sz || p <= a < p + n)
    && (forall a {:trigger sz[a]} :: a in sz ==> a + sz[a] <= p || p + n <= a)
  }

  lemma OpenedSelf(m: seq<Word>, h: Addr, g: Chunks, top: Addr, topsize: nat, b: Bins, dv: Addr, q: Addr)
    requires HeapOk(m, First(h), g, top, topsize) && AllFree(g, b.size) && FreeIsBinned(g, b, dv, 0)
    requires q in g && g[q].used
    ensures Opened(g, b.size, dv, q, g[q].size) && Spans(g, q, g[q].size, q)
    ensures q + g[q].size == top || q + g[q].size in g
    ensures q + HEAD < |m| && SizeOf(m[q + HEAD]) == g[q].size && Cinuse(m[q + HEAD]) && First(h) <= q && 0 !in g
    ensures Pinuse(m[q + HEAD]) ==> UsedUpTo(g, q)
    ensures q + g[q].size + HEAD < |m|
    ensures forall a :: a in g && q <= a < q + g[q].size ==> a == q
  {
    BinsBesideHeap(m, h, g, top, topsize, b, q);
    SpansSelf(g, First(h), top, q);
    ChunkWithin(m, First(h), g, top, topsize, q);
    assert ChunkWords(m, g, q);
    forall a | a in g && q <= a < q + g[q].size
      ensures a == q
    {
      assert Separate(g, a, q) && ChunkOk(g, First(h), top, a);
    }
    forall c | c in g && c + g[c].size == q
      ensures Pinuse(m[q + HEAD]) ==> g[c].used
    {
      assert ChunkWords(m, g, c);
    }
  }

  /** The head behind the opened words. */
  lemma NextHead(m: seq<Word>, h: Addr, g: Chunks, top: Addr, topsize: nat, p: Addr, n: nat, q: Addr)
    requires HeapOk(m, First(h), g, top, topsize) && Spans(g, p, n, q) && q + g[q].size == p + n
    ensures First(h) <= p && p < p + n <= top && p + n + HEAD < |m| && Pinuse(m[p + n + HEAD])
    ensures p + n == top || p + n in g
    ensures Cinuse(m[p + n + HEAD]) <==> if p + n != top then g[p + n].used else topsize % 4 >= 2
    ensures p + n != top ==> SizeOf(m[p + n + HEAD]) == g[p + n].size && top !in g
    ensures top !in g
  {
    assert ChunkWords(m, g, q) && ChunkOk(g, First(h), top, q) && ChunkOk(g, First(h), top, p);
    assert p + n in g ==> ChunkWords(m, g, p + n);
    assert top in g ==> ChunkOk(g, First(h), top, top);
  }

  /** A clear PINUSE bit: the free chunk before q. */
  lemma ChunkBefore(m: seq<Word>, h: Addr, g: Chunks, top: Addr, topsize: nat, q: Addr)
    requires HeapOk(m, First(h), g, top, topsize)
    requires q in g && g[q].used && q + HEAD < |m| && !Pinuse(m[q + HEAD])
    ensures q < |m| && m[q] % 8 == 0 && m[q] / 8 < q && m[q] % 2 == 0
    ensures var a := q - m[q] / 8;
      && a in g && g[a] == Chunk(m[q] / 8, false) && First(h) <= a
      && Spans(g, a, m[q] / 8 + g[q].size, q) && UsedUpTo(g, a)
      && forall c :: c in g && a <= c < q + g[q].size ==> c == a || c == q
  {
    hide Spans, UsedUpTo, Pinuse, HeadsOk, TopWords, Tiled;
    FreeBefore(m, g, First(h), top, topsize, q);
    EvenEighths(m[q]);
    NeighbourSpan(g, First(h), top, q - m[q] / 8, q);
  }

  lemma EvenEighths(w: nat)
    requires w % 8 == 0
    ensures w % 2 == 0
  {
    assert w == 2 * (4 * (w / 8));
  }

  lemma NeighbourSpan(g: Chunks, lo: Addr, top: Addr, a: Addr, q: Addr)
    requires Tiled(g, lo, top) && a in g && !g[a].used && q in g && g[q].used && a + g[a].size == q
    ensures lo <= a && Spans(g, a, g[a].size + g[q].size, q) && UsedUpTo(g, a)
    ensures forall c :: c in g && a <= c < q + g[q].size ==> c == a || c == q
  {
    hide Spans, UsedUpTo;
    assert ChunkOk(g, lo, top, a);
    forall c | c in g && a <= c < q + g[q].size
      ensures c == a || c == q
    {
      assert Separate(g, c, a) && Separate(g, c, q) && ChunkOk(g, lo, top, c);
    }
    SpansSelf(g, lo, top, q);
    SpansBack(g, lo, top, q, g[q].size, q, a);
  }

  /** A free neighbour a, taken out of its bin, joins the opened words. */
  lemma OpenedMore(m: seq<Word>, lo: Addr, g: Chunks, top: Addr, topsize: nat, sz: map<Addr, nat>, dv: Addr,
        p: Addr, n: nat, a: Addr, p': Addr, n': nat)
    requires HeapOk(m, lo, g, top, topsize) && AllFree(g, sz) && Opened(g, sz, dv, p, n) && a in g && !g[a].used
    requires n' == n + g[a].size && ((p' == a && a + g[a].size == p) || (p' == p && p + n == a))
    ensures Opened(g, sz - {a}, dv, p', n')
  {
    forall c | c in sz - {a}
      ensures c + sz[c] <= p' || p' + n' <= c
    {
      assert Separate(g, c, a);
    }
    forall c | c in g && !g[c].used && c != dv
      ensures c in sz - {a} || p' <= c < p' + n'
    {
      assert ChunkOk(g, lo, top, a);
      assert c in sz || p <= c < p + n;
    }
  }

  lemma FreeStart(m: seq<Word>, h: Addr, g: Chunks, top: Addr, topsize: nat, a: Addr, q: Addr)
    requires HeapOk(m, First(h), g, top, topsize) && a in g && !g[a].used && a + g[a].size == q
    ensures MergeStart(g, q) == a
  {
    MergeStartIs(g, First(h), top, a, q);
  }

  /** The chunk in front is dv and the one behind in use: the words are the new dv. */
  lemma GatheredDv(s: Space, p: Addr, n: nat, joins: bool)
    requires s.dv == p && n > 0 && (p + n == s.top ==> !joins) && (p + n in s.g ==> s.g[p + n].used)
    ensures Forward(s, p, n, joins) == s.(g := Merged(s.g, p, n), dv := p, dvsize := n)
  {
  }

  lemma MergedHeap(m: seq<Word>, m': seq<Word>, h: Addr, g: Chunks, top: Addr, topsize: nat, b: Bins, dv: Addr, p: Addr, n: nat, q: Addr)
    requires HeapOk(m, First(h), g, top, topsize) && BinsOk(m, h, b) && AllFree(g, b.size)
    requires Spans(g, p, n, q) && UsedUpTo(g, p) && p + n in g && g[p + n].used && Opened(g, b.size, dv, p, n)
    requires n < WORD_LIMIT && MarkedFree(m, m', p, n)
    ensures HeapOk(m', First(h), Merged(g, p, n), top, topsize) && BinsOk(m', h, b) && AllFree(Merged(g, p, n), b.size)
    ensures p !in b.size && PayloadsKept(m, m', g, q) && Live(Merged(g, p, n)) == Live(g) - {q}
    ensures p in Merged(g, p, n) && Merged(g, p, n)[p] == Chunk(n, false)
  {
    hide BinsOk, SizeOf, FreeHead, AndNotPinuse, TopHead, Live, HeadsOk, TopWords, PayloadsKept;
    FreedWhole(m, m', First(h), g, top, topsize, p, n, q);
    SizesPositive(g, First(h), top);
    LiveMerged(g, p, n, q);
    assert ChunkOk(g, First(h), top, p);
    KeepBins(m, m', h, b, p, n);
  }

  /** The same words where the chunk behind is top: the bins are kept, and top's PINUSE bit is lost. */
  lemma StrandedBins(m: seq<Word>, m': seq<Word>, h: Addr, g: Chunks, top: Addr, topsize: nat, b: Bins, dv: Addr, p: Addr, n: nat, q: Addr)
    requires HeapOk(m, First(h), g, top, topsize) && BinsOk(m, h, b) && AllFree(g, b.size)
    requires Spans(g, p, n, q) && Opened(g, b.size, dv, p, n) && p + n == top
    requires n < WORD_LIMIT && MarkedFree(m, m', p, n)
    ensures BinsOk(m', h, b) && Insertable(m', h, b, p, n) && p !in b.size
    ensures OffBins(h, b.size[p := n], top + HEAD) && !Pinuse(m'[top + HEAD])
    ensures p in Merged(g, p, n) && Merged(g, p, n)[p] == Chunk(n, false)
  {
    hide BinsOk, HeadsOk, Tiled;
    SpanNonempty(g, First(h), top, p, n, q);
    BinnedBelow(g, First(h), top, b);
    KeepBins(m, m', h, b, p, n);
  }

  lemma BinnedBelow(g: Chunks, lo: Addr, top: Addr, b: Bins)
    requires Tiled(g, lo, top) && AllFree(g, b.size)
    ensures forall a :: a in b.size ==> b.size[a] > 0 && a + b.size[a] <= top
    ensures top !in b.size
  {
    forall a | a in b.size
      ensures b.size[a] > 0 && a + b.size[a] <= top
    {
      assert ChunkOk(g, lo, top, a);
    }
  }

  lemma SizesPositive(g: Chunks, lo: Addr, top: Addr)
    requires Tiled(g, lo, top)
    ensures forall a :: a in g ==> g[a].size > 0
  {
    forall a | a in g
      ensures g[a].size > 0
    {
      assert ChunkOk(g, lo, top, a);
    }
  }

  /** After the merge, the new chunk is dv if dv was part of it, and to be binned if not. */
  lemma LinksMerged(g: Chunks, b: Bins, dv: Addr, dvsize: nat, p: Addr, n: nat)
    requires DvOk(g, b, dv, dvsize) && Opened(g, b.size, dv, p, n) && p !in b.size && p != 0 && n > 0
    ensures p <= dv < p + n ==> DvOk(Merged(g, p, n), b, p, n) && FreeIsBinned(Merged(g, p, n), b, p, 0)
    ensures !(p <= dv < p + n) ==> DvOk(Merged(g, p, n), b, dv, dvsize) && FreeIsBinned(Merged(g, p, n), b, dv, p)
  {
  }

  /** Where dv is among the opened words, any chunk may become dv. */
  lemma OpenedDv(g: Chunks, sz: map<Addr, nat>, dv: Addr, p: Addr, n: nat)
    requires Opened(g, sz, dv, p, n) && p <= dv < p + n
    ensures Opened(g, sz, p, p, n)
  {
  }

  lemma WordOffBins(m: seq<Word>, m': seq<Word>, h: Addr, sz: map<Addr, nat>, w: nat)
    requires BinWrites(m, m', h, sz) && OffBins(h, sz, w) && w < |m|
    ensures |m'| == |m| && m'[w] == m[w]
  {
  }

  lemma SpanWithin(m: seq<Word>, h: Addr, g: Chunks, top: Addr, topsize: nat, p: Addr, n: nat, q: Addr)
    requires HeapOk(m, First(h), g, top, topsize) && Spans(g, p, n, q) && (p + n in g || p + n == top)
    ensures First(h) <= p && p + n + HEAD < |m| && n < WORD_LIMIT && n >= MIN_CHUNK && 0 !in g
  {
    assert p + n in g ==> ChunkWords(m, g, p + n);
    assert 0 in g ==> ChunkOk(g, First(h), top, 0);
    SpanNonempty(g, First(h), top, p, n, q);
  }

  /** The free chunk behind the opened words, not dv, is binned, and the words behind it have a clear PINUSE bit. */
  lemma ChunkBehind(m: seq<Word>, h: Addr, g: Chunks, top: Addr, topsize: nat, sz: map<Addr, nat>, dv: Addr, p: Addr, n: nat, q: Addr)
    requires HeapOk(m, First(h), g, top, topsize) && Spans(g, p, n, q) && Opened(g, sz, dv, p, n)
    requires p + n in g && !g[p + n].used && AllFree(g, sz)
    ensures var c := p + n;
      && Spans(g, p, n + g[c].size, q) && c + g[c].size in g && g[c + g[c].size].used
      && c + g[c].size + HEAD < |m| && !Pinuse(m[c + g[c].size + HEAD])
      && (c != dv ==> c in sz && sz[c] == g[c].size)
      && forall x :: x in g && c <= x < c + g[c].size ==> x == c
  {
    hide Pinuse, SizeOf;
    forall x | x in g && p + n <= x < p + n + g[p + n].size
      ensures x == p + n
    {
      assert Separate(g, x, p + n) && ChunkOk(g, First(h), top, x);
    }
    SpansForward(g, First(h), top, p, n, q);
    assert ChunkWords(m, g, p + n);
  }

  lemma DroppedHeap(m: seq<Word>, m': seq<Word>, h: Addr, g: Chunks, top: Addr, topsize: nat, b: Bins, dv: Addr, p: Addr, n: nat, q: Addr)
    requires HeapOk(m, First(h), g, top, topsize) && BinsOk(m, h, b) && AllFree(g, b.size)
    requires Spans(g, p, n, q) && UsedUpTo(g, p) && p + n == top && Opened(g, b.size, dv, p, n)
    requires 0 < 8 * n + topsize < TWO64 && SameExcept(m, m', {p + HEAD}) && p + HEAD < |m| && m'[p + HEAD] == TopHead(8 * n + topsize)
    ensures HeapOk(m', First(h), Dropped(g, p, n), p, 8 * n + topsize) && BinsOk(m', h, b) && AllFree(Dropped(g, p, n), b.size)
    ensures PayloadsKept(m, m', g, q) && Live(Dropped(g, p, n)) == Live(g) - {q}
  {
    hide BinsOk, SizeOf, FreeHead, AndNotPinuse, TopHead, Live, HeadsOk, TopWords, PayloadsKept;
    FreedToTop(m, m', First(h), g, top, topsize, p, n, q);
    SizesPositive(g, First(h), top);
    LiveMerged(g, p, n, q);
    assert ChunkOk(g, First(h), top, p);
    SpanNonempty(g, First(h), top, p, n, q);
    KeepBins(m, m', h, b, p, n);
  }

  lemma SpanNonempty(g: Chunks, lo: Addr, top: Addr, p: Addr, n: nat, q: Addr)
    requires Tiled(g, lo, top) && Spans(g, p, n, q)
    ensures n >= MIN_CHUNK && lo <= p
  {
    assert ChunkOk(g, lo, top, q) && ChunkOk(g, lo, top, p);
  }

  lemma LinksDropped(g: Chunks, b: Bins, dv: Addr, dvsize: nat, p: Addr, n: nat)
    requires DvOk(g, b, dv, dvsize) && Opened(g, b.size, dv, p, n) && p != 0
    ensures p <= dv < p + n ==> DvOk(Dropped(g, p, n), b, 0, 0) && FreeIsBinned(Dropped(g, p, n), b, 0, 0)
    ensures !(p <= dv < p + n) ==> DvOk(Dropped(g, p, n), b, dv, dvsize) && FreeIsBinned(Dropped(g, p, n), b, dv, 0)
  {
  }

  lemma SizeRead(m: seq<Word>, lo: Addr, g: Chunks, top: Addr, topsize: nat, c: Addr)
    requires HeapOk(m, lo, g, top, topsize) && c in g
    ensures c + HEAD < |m| && SizeOf(m[c + HEAD]) == g[c].size
  {
    assert ChunkWords(m, g, c);
  }

  lemma BinnedSize(g: Chunks, b: Bins, dv: Addr, a: Addr)
    requires AllFree(g, b.size) && FreeIsBinned(g, b, dv, 0) && a in g && !g[a].used && a != dv && a != 0
    ensures a in b.size && b.size[a] == g[a].size
  {
  }

  lemma TopSpan(m: seq<Word>, h: Addr, g: Chunks, top: Addr, topsize: nat, p: Addr, n: nat, q: Addr)
    requires HeapOk(m, First(h), g, top, topsize) && Spans(g, p, n, q) && p + n == top
    ensures First(h) <= p && p + HEAD < |m| && 0 < 8 * n + topsize < TWO64 && n > 0
  {
    SpanNonempty(g, First(h), top, p, n, q);
    ChunkWithin(m, First(h), g, top, topsize, p);
  }

  lemma UsedNotBinned(g: Chunks, b: Bins, p: Addr)
    requires AllFree(g, b.size) && p in g && g[p].used
    ensures p !in b.size
  {
  }

  lemma MarkedTwice(w: Word, k: nat)
    requires k < WORD_LIMIT
    ensures OrPinuse(UsedHead(k, Pinuse(w))) == UsedHead(k, true)
  {
  }

  /** The chunk p in use was cut into chunks in use of n and k words; all words of both payloads were kept. */
  ghost predicate CutLive(m: seq<Word>, m': seq<Word>, g: Chunks, g': Chunks, p: Addr, n: nat, k: nat)
  {
    && |m'| == |m| && p + n + k < |m|
    && p in g && g[p] == Chunk(n + k, true) && p + n !in g
    && g' == Split(g, p, n, true, true)
    && PayloadsKept(m, m', g, p)
    && (forall w :: p + 2 <= w <= p + n ==> m'[w] == m[w])
    && (forall w :: p + n + 2 <= w <= p + n + k ==> m'[w] == m[w])
  }

  lemma CutHeap(m: seq<Word>, m': seq<Word>, h: Addr, g: Chunks, top: Addr, topsize: nat, b: Bins, dv: Addr, dvsize: nat, p: Addr, n: nat, k: nat)
    requires HeapOk(m, First(h), g, top, topsize) && BinsOk(m, h, b) && AllFree(g, b.size) && p in g && g[p] == Chunk(n + k, true)
    requires n >= MIN_CHUNK && k >= MIN_CHUNK && n + k < WORD_LIMIT && p + HEAD < |m| && CutInuse(m, m', p, n, k)
    ensures HeapOk(m', First(h), Split(g, p, n, true, true), top, topsize)
    ensures BinsOk(m', h, b) && AllFree(Split(g, p, n, true, true), b.size)
    ensures DvOk(g, b, dv, dvsize) ==> DvOk(Split(g, p, n, true, true), b, dv, dvsize)
    ensures FreeIsBinned(g, b, dv, 0) ==> FreeIsBinned(Split(g, p, n, true, true), b, dv, 0)
    ensures CutLive(m, m', g, Split(g, p, n, true, true), p, n, k)
  {
    hide BinsOk, SizeOf, UsedHead, OrPinuse, Pinuse, HeadsOk, Tiled, TopWords, PayloadsKept;
    CutUsed(m, m', First(h), g, top, topsize, p, n);
    UsedNotBinned(g, b, p);
    BinsBesideHeap(m, h, g, top, topsize, b, p);
    AllFreeSplit(g, b.size, p, n);
    KeepBins(m, m', h, b, p, n + k);
    ChunkWithin(m, First(h), g, top, topsize, p);
  }

  lemma CutSplits(m: seq<Word>, m': seq<Word>, g: Chunks, g': Chunks, p: Addr, n: nat, k: nat)
    requires CutLive(m, m', g, g', p, n, k)
    ensures p in g && g[p] == Chunk(n + k, true) && g' == Split(g, p, n, true, true)
  {
  }

  lemma SizeOfLive(g: Chunks, p: Addr)
    requires p in Live(g)
    ensures p in g && g[p] == Chunk(Live(g)[p], true)
  {
  }

  lemma LiveCut(m: seq<Word>, m': seq<Word>, g: Chunks, g': Chunks, p: Addr, n: nat, k: nat)
    requires CutLive(m, m', g, g', p, n, k) && n > 0 && k > 0
    ensures Live(g') == Live(g)[p := n][p + n := k] && p in Live(g) && p + n !in Live(g)
    ensures p in g' && g'[p] == Chunk(n, true) && p + n in g' && g'[p + n] == Chunk(k, true)
    ensures forall a :: a in g && a != p ==> a in g' && g'[a] == g[a]
  {
    SplitIs(g, p, n, true, true);
  }

  /** Words inside the payload of a block in use are nobody else's. */
  lemma PayloadWritten(m: seq<Word>, m': seq<Word>, h: Addr, g: Chunks, top: Addr, topsize: nat, b: Bins, a: Addr)
    requires HeapOk(m, First(h), g, top, topsize) && BinsOk(m, h, b) && AllFree(g, b.size) && a in g && g[a].used
    requires |m'| == |m| && forall w :: 0 <= w < |m| && !(a + 2 <= w <= a + g[a].size) ==> m'[w] == m[w]
    ensures HeapOk(m', First(h), g, top, topsize) && BinsOk(m', h, b)
    ensures PayloadsKept(m, m', g, a)
  {
    hide BinsOk, SizeOf, Pinuse, Cinuse, FreeHead;
    var lo := First(h);
    UsedNotBinned(g, b, a);
    BinsBesideHeap(m, h, g, top, topsize, b, a);
    KeepBins(m, m', h, b, a, g[a].size);
    assert ChunkOk(g, lo, top, a) && ChunkWords(m, g, a);
    forall c | c in g
      ensures ChunkWords(m', g, c) && (c != a ==> SamePayload(m, m', c, g[c].size))
    {
      PayloadElsewhere(m, g, lo, top, a, c);
    }
  }

  lemma PayloadElsewhere(m: seq<Word>, g: Chunks, lo: Addr, top: Addr, a: Addr, c: Addr)
    requires Tiled(g, lo, top) && HeadsOk(m, g) && a in g && g[a].used && c in g
    ensures ChunkWords(m, g, c)
    ensures !(a + 2 <= c + HEAD <= a + g[a].size) && !(a + 2 <= c + g[c].size + HEAD <= a + g[a].size)
    ensures !g[c].used ==> !(a + 2 <= c + g[c].size <= a + g[a].size)
    ensures c != a ==> c + g[c].size < a + 2 || a + g[a].size < c + 2
  {
    hide SizeOf, Pinuse, Cinuse;
    assert Separate(g, a, c) && ChunkWords(m, g, c) && ChunkOk(g, lo, top, c) && ChunkOk(g, lo, top, a);
    if a + g[a].size == c + g[c].size {
      OnePredecessor(g, lo, top, a, c);
    }
  }

  /** Payloads kept, seen from other chunks: what g0 has in use besides p is in use in g and is not q. */
  lemma PayloadsSeen(m: seq<Word>, m': seq<Word>, g: Chunks, q: Addr, g0: Chunks, p: Addr)
    requires PayloadsKept(m, m', g, q)
    requires forall a :: a in Live(g0) && a != p ==> a in Live(g) && Live(g)[a] == Live(g0)[a] && a != q
    ensures PayloadsKept(m, m', g0, p)
  {
    forall a | a in g0 && g0[a].used && a != p
      ensures SamePayload(m, m', a, g0[a].size)
    {
      assert a in Live(g0);
      assert SamePayload(m, m', a, g[a].size);
    }
  }

  ghost predicate WordKept(m: seq<Word>, m': seq<Word>, r: Addr, r': Addr, k: nat)
  {
    r + k < |m| && r' + k < |m'| && m'[r' + k] == m[r + k]
  }

  /** The block of n words at r has moved to r', as far as bytes reach. */
  ghost predicate ContentsKept(m: seq<Word>, m': seq<Word>, r: Addr, r': Addr, n: nat, bytes: nat)
  {
    forall k: nat {:trigger WordKept(m, m', r, r', k)} :: k < n - 1 && 8 * k < bytes ==> WordKept(m, m', r, r', k)
  }

  /** The block at p was replaced by one at p' that has room for bytes. */
  ghost predicate Resized(g: Chunks, g': Chunks, p: Addr, p': Addr, bytes: nat)
  {
    && p' in Live(g') && RequestWords(bytes) <= Live(g')[p'] < RequestWords(bytes) + MIN_CHUNK
    && p in Live(g) && (p' == p || p' !in Live(g))
    && Live(g') == (Live(g) - {p})[p' := Live(g')[p']]
  }

  lemma LiveLess(g: Chunks, g0: Chunks, q: Addr)
    requires Live(g) == Live(g0) - {q} && 0 !in g
    ensures forall a :: a in Live(g0) && a != q ==> a in Live(g) && Live(g)[a] == Live(g0)[a] && a != 0
  {
    forall a | a in Live(g0) && a != q
      ensures a in Live(g) && Live(g)[a] == Live(g0)[a] && a != 0
    {
      assert a in Live(g0) - {q};
    }
  }

  lemma CutThenFreed(m: seq<Word>, m1: seq<Word>, m2: seq<Word>, g: Chunks, g1: Chunks, g2: Chunks, p: Addr, n: nat, k: nat)
    requires CutLive(m, m1, g, g1, p, n, k) && n >= 2 && k > 0 && 0 !in g
    requires Live(g2) == Live(g1) - {p + n} && PayloadsKept(m1, m2, g1, p + n)
    ensures Live(g2) == Live(g)[p := n] && PayloadsKept(m, m2, g, p)
    ensures p + n < |m| == |m2| && forall w :: p + 2 <= w <= p + n ==> m2[w] == m[w]
  {
    hide PayloadsKept, Split;
    LiveCut(m, m1, g, g1, p, n, k);
    assert SamePayload(m1, m2, p, n) by {
      PayloadAt(m1, m2, g1, p + n, p);
    }
    assert Live(g2) == Live(g)[p := n];
    hide Live;
    PayloadsSeen(m1, m2, g1, p + n, g, p);
    PayloadsCompose(m, m1, m2, g, p, p);
  }

  lemma PayloadAt(m: seq<Word>, m': seq<Word>, g: Chunks, q: Addr, a: Addr)
    requires PayloadsKept(m, m', g, q) && a in g && g[a].used && a != q
    ensures SamePayload(m, m', a, g[a].size)
  {
  }

  lemma StillLive(g: Chunks, g': Chunks, p: Addr, nb: nat, a: Addr)
    requires Took(g, g', p, nb) && a in Live(g)
    ensures a != p && a in Live(g') && Live(g')[a] == Live(g)[a]
    ensures a in g' && g'[a] == Chunk(Live(g)[a], true) && p in g' && g'[p].used && g'[p].size >= nb
  {
    assert a in Live(g');
  }

  /** Two blocks in use do not overlap. */
  lemma BlocksApart(m: seq<Word>, h: Addr, g: Chunks, top: Addr, topsize: nat, p: Addr, c: Addr)
    requires HeapOk(m, First(h), g, top, topsize) && p in g && c in g && p != c
    ensures p + g[p].size + HEAD < |m| && c + g[c].size + HEAD < |m|
    ensures p + g[p].size <= c || c + g[c].size <= p
    ensures g[p].size >= MIN_CHUNK && g[c].size >= MIN_CHUNK && 0 !in g
  {
    ChunkWithin(m, First(h), g, top, topsize, p);
    ChunkWithin(m, First(h), g, top, topsize, c);
    assert Separate(g, p, c);
    assert 0 in g ==> ChunkOk(g, First(h), top, 0);
  }

  /** A new block was taken, filled, and the old block freed. */
  lemma BlockMoved(m: seq<Word>, m1: seq<Word>, m2: seq<Word>, m3: seq<Word>, g: Chunks, g1: Chunks, g3: Chunks,
        p: Addr, n: nat, p': Addr, bytes: nat)
    requires p in Live(g) && n == Live(g)[p] && n >= 1 && 0 !in g && bytes < MAX_REQUEST && n < RequestWords(bytes)
    requires Took(g, g1, p', RequestWords(bytes)) && PayloadsKept(m, m1, g, p')
    requires PayloadsKept(m1, m2, g1, p') && p' + 2 + n - 1 <= |m2|
    requires p + 2 + n - 1 <= |m1| && m2[p' + 2..p' + 2 + n - 1] == m1[p + 2..p + 2 + n - 1]
    requires PayloadsKept(m2, m3, g1, p) && Live(g3) == Live(g1) - {p}
    ensures Resized(g, g3, p, p', bytes) && PayloadsKept(m, m3, g, p) && ContentsKept(m, m3, p + 2, p' + 2, n, bytes)
  {
    hide PayloadsKept, RequestWords;
    assert p != p' && p in Live(g1) && p' in Live(g1);
    PayloadAt(m, m1, g, p', p);
    PayloadAt(m2, m3, g1, p, p');
    forall k: nat {:trigger WordKept(m, m3, p + 2, p' + 2, k)} | k < n - 1
      ensures WordKept(m, m3, p + 2, p' + 2, k)
    {
      assert m2[p' + 2..p' + 2 + n - 1][k] == m1[p + 2..p + 2 + n - 1][k];
    }
    PayloadsSeen(m, m1, g, p', g, p);
    PayloadsSeen(m1, m2, g1, p', g, p);
    PayloadsSeen(m2, m3, g1, p, g, p);
    PayloadsCompose(m, m1, m2, g, p, p);
    PayloadsCompose(m, m2, m3, g, p, p);
  }

  /** The chunk p can be resized to nb words where it is. */
  ghost predicate FitsInPlace(g: Chunks, top: Addr, topsize: nat, p: Addr, nb: nat)
  {
    p in g && (nb <= g[p].size || (p + g[p].size == top && 8 * nb < 8 * g[p].size + topsize))
  }

  /** The chunk p can be resized to nb words: in place, at top's expense, or by moving it. */
  ghost predicate CanResize(g: Chunks, top: Addr, topsize: nat, p: Addr, nb: nat)
  {
    FitsInPlace(g, top, topsize, p, nb) || CanServe(g, topsize, nb)
  }

  /** What the head of a block in use says. */
  lemma HeadsRead(m: seq<Word>, h: Addr, g: Chunks, top: Addr, topsize: nat, p: Addr)
    requires HeapOk(m, First(h), g, top, topsize) && p in Live(g)
    ensures p in g && g[p] == Chunk(Live(g)[p], true)
    ensures p + HEAD < |m| && SizeOf(m[p + HEAD]) == g[p].size && Cinuse(m[p + HEAD]) && First(h) <= p
    ensures MIN_CHUNK <= g[p].size && p + g[p].size + HEAD < |m| && Pinuse(m[p + g[p].size + HEAD]) && 0 !in g
    ensures !Pinuse(m[p + HEAD]) ==> m[p] % 2 == 0
  {
    hide SizeOf, Pinuse, Cinuse;
    ChunkWithin(m, First(h), g, top, topsize, p);
    assert ChunkWords(m, g, p);
    if !Pinuse(m[p + HEAD]) {
      FreeBefore(m, g, First(h), top, topsize, p);
    }
    assert 0 in g ==> ChunkOk(g, First(h), top, 0);
  }

  lemma LiveSet(g: Chunks, p: Addr, n: nat)
    ensures Live(g[p := Chunk(n, true)]) == Live(g)[p := n]
  {
  }

  /** A block resized where it is. */
  lemma StaysInPlace(m: seq<Word>, m': seq<Word>, g: Chunks, g': Chunks, p: Addr, n: nat, n': nat, bytes: nat)
    requires p in Live(g) && Live(g)[p] == n && Live(g') == Live(g)[p := n'] && bytes < MAX_REQUEST && RequestWords(bytes) <= n' < RequestWords(bytes) + MIN_CHUNK
    requires |m'| == |m| && p + n < |m| && forall w :: p + 2 <= w <= p + n && w <= p + n' ==> m'[w] == m[w]
    ensures Resized(g, g', p, p, bytes) && ContentsKept(m, m', p + 2, p + 2, n, bytes)
  {
    hide RequestWords;
    assert Live(g)[p := n'] == (Live(g) - {p})[p := n'];
  }

  /** Since (m, g) a block of n words at p was added, with the blocks at xs still to be given back; all others are as they were. */
  ghost predicate Holding(m: seq<Word>, m': seq<Word>, g: Chunks, g': Chunks, p: Addr, n: nat, xs: set<Addr>)
  {
    && p !in Live(g) && p in Live(g') && Live(g')[p] == n && p !in xs
    && xs <= Live(g').Keys && xs !! Live(g).Keys
    && Live(g') - xs == Live(g)[p := n]
    && PayloadsKept(m, m', g, 0)
  }

  lemma HoldingTook(m: seq<Word>, m': seq<Word>, g: Chunks, g': Chunks, p: Addr, nb: nat)
    requires Took(g, g', p, nb) && PayloadsKept(m, m', g, p) && 0 !in g
    ensures p in Live(g') && nb <= Live(g')[p] < nb + MIN_CHUNK
    ensures Holding(m, m', g, g', p, Live(g')[p], {})
  {
    assert Live(g') - {} == Live(g');
    forall a | a in g && g[a].used
      ensures SamePayload(m, m', a, g[a].size)
    {
      assert a in Live(g);
    }
  }

  lemma HoldingCut(m: seq<Word>, m1: seq<Word>, m2: seq<Word>, g: Chunks, g1: Chunks, g2: Chunks, p: Addr, n: nat, k: nat, xs: set<Addr>)
    requires Holding(m, m1, g, g1, p, n + k, xs) && CutLive(m1, m2, g1, g2, p, n, k) && n > 0 && k > 0 && 0 !in g
    ensures Holding(m, m2, g, g2, p, n, xs + {p + n})
    ensures Holding(m, m2, g, g2, p + n, k, xs + {p})
  {
    LiveCut(m1, m2, g1, g2, p, n, k);
    hide PayloadsKept, CutLive;
    forall a | a in Live(g)
      ensures a in Live(g1) && Live(g1)[a] == Live(g)[a] && a != p && a != p + n
    {
      assert a in Live(g)[p := n + k];
      assert a in Live(g1) - xs;
    }
    HoldingPayloads(m, m1, m2, g, g1, p);
    BlocksCut(Live(g), Live(g1), Live(g2), p, n, k, xs);
  }

  /** The chunk of a payload address, if not null. */
  function Taken(x: Addr): set<Addr>
  {
    if x < 2 then {} else {x - 2}
  }

  lemma BlocksCut(l: map<Addr, nat>, l1: map<Addr, nat>, l2: map<Addr, nat>, p: Addr, n: nat, k: nat, xs: set<Addr>)
    requires l1 - xs == l[p := n + k] && p !in xs && xs <= l1.Keys && p !in l && xs !! l.Keys
    requires p + n !in l1 && n > 0 && l2 == l1[p := n][p + n := k]
    ensures l2 - (xs + {p + n}) == l[p := n] && l2 - (xs + {p}) == l[p + n := k]
  {
    forall a: Addr | a != p
      ensures a in l <==> a in l1 && a !in xs
      ensures a in l ==> l[a] == l1[a]
    {
      assert a in l[p := n + k] <==> a in l1 - xs;
      assert a in l1 - xs ==> (l1 - xs)[a] == l1[a];
    }
    assert p + n !in l;
  }

  lemma HoldingPayloads(m: seq<Word>, m1: seq<Word>, m2: seq<Word>, g: Chunks, g1: Chunks, q: Addr)
    requires PayloadsKept(m, m1, g, 0) && 0 !in g && (forall a :: a in Live(g) ==> a in Live(g1) && Live(g1)[a] == Live(g)[a])
    requires q !in Live(g) && PayloadsKept(m1, m2, g1, q)
    ensures PayloadsKept(m, m2, g, 0)
  {
    hide PayloadsKept;
    PayloadsSeen(m1, m2, g1, q, g, 0);
    PayloadsCompose(m, m1, m2, g, 0, 0);
  }

  lemma HoldingFreed(m: seq<Word>, m1: seq<Word>, m2: seq<Word>, g: Chunks, g1: Chunks, g2: Chunks, p: Addr, n: nat, xs: set<Addr>, x: Addr)
    requires Holding(m, m1, g, g1, p, n, xs) && x in xs && 0 !in g
    requires Live(g2) == Live(g1) - {x} && PayloadsKept(m1, m2, g1, x)
    ensures Holding(m, m2, g, g2, p, n, xs - {x})
  {
    hide PayloadsKept;
    forall a | a in Live(g)
      ensures a in Live(g1) && Live(g1)[a] == Live(g)[a] && a != x
    {
      assert a in Live(g)[p := n];
      assert a in Live(g1) - xs;
    }
    HoldingPayloads(m, m1, m2, g, g1, x);
    assert Live(g2) - (xs - {x}) == Live(g)[p := n];
  }

  lemma HeldBlock(m: seq<Word>, m': seq<Word>, g: Chunks, g': Chunks, p: Addr, n: nat, xs: set<Addr>)
    requires Holding(m, m', g, g', p, n, xs)
    ensures p in Live(g') && Live(g')[p] == n
  {
  }

  /** A block of bytes aligned to a can be served. */
  ghost predicate CanAlign(g: Chunks, topsize: nat, alignment: nat, a: nat, bytes: nat)
  {
    if alignment <= 8 then
      bytes < MAX_REQUEST && CanServe(g, topsize, RequestWords(bytes))
    else
      var req := 8 * RequestWords(bytes) + a + 24;
      bytes + a < MAX_REQUEST && req < MAX_REQUEST && CanServe(g, topsize, RequestWords(req))
  }

  // ---------------------------------------------------------------------------
  // The empty space

  /** No chunk binned. */
  function NoBins(h: Addr): Bins
  {
    Bins(map[], map i | 0 <= i < NSMALLBINS :: [SmallBin(h, i)], Trie(map[], seq(NTREEBINS, _ => 0)))
  }

  /** A small bin header linked to itself. */
  ghost predicate EmptyList(m: seq<Word>, h: Addr, i: nat)
  {
    SmallBin(h, i) + 4 <= |m| && m[SmallBin(h, i) + FD] == SmallBin(h, i) && m[SmallBin(h, i) + BK] == SmallBin(h, i)
  }

  ghost predicate EmptyLists(m: seq<Word>, h: Addr)
  {
    forall i :: 0 <= i < NSMALLBINS ==> EmptyList(m, h, i)
  }

  ghost predicate EmptyTrees(m: seq<Word>, h: Addr)
  {
    forall i {:trigger TreeBin(h, i)} :: 0 <= i < NTREEBINS ==> TreeBin(h, i) < |m| && m[TreeBin(h, i)] == 0
  }

  lemma EmptyKept(m: seq<Word>, m': seq<Word>, h: Addr)
    requires EmptyLists(m, h) && EmptyTrees(m, h) && |m'| == |m|
    requires forall w :: h + 11 <= w < First(h) && w < |m| ==> m'[w] == m[w]
    ensures EmptyLists(m', h) && EmptyTrees(m', h)
  {
    forall i | 0 <= i < NSMALLBINS
      ensures EmptyList(m', h, i)
    {
      assert EmptyList(m, h, i);
    }
    forall i | 0 <= i < NTREEBINS
      ensures TreeBin(h, i) < |m'| && m'[TreeBin(h, i)] == 0
    {
      assert m[TreeBin(h, i)] == 0;
    }
  }

  lemma EmptyBinsOk(m: seq<Word>, h: Addr)
    requires First(h) <= |m| && EmptyTrees(m, h)
    ensures BinsOk(m, h, NoBins(h)) && SmallMapOk(NoBins(h), 0) && TreeMapOk(NoBins(h), 0) && NoBins(h).size == map[]
  {
    hide Marked;
    var b := NoBins(h);
    forall i | 0 <= i < NTREEBINS
      ensures RootLinked(m, h, b, i) && !Marked(0, i)
    {
      NothingMarked(i);
      assert TreeBin(h, i) < |m| && m[TreeBin(h, i)] == 0;
    }
    forall s | s in b.ring
      ensures RingShape(h, b, s) && RingOk(m, b, s)
    {
    }
  }

  lemma NoTop(m: seq<Word>, lo: Addr, g: Chunks, top: Addr, topsize: nat)
    requires top + HEAD < |m|
    ensures !Pinuse(m[top + HEAD]) ==> !HeapOk(m, lo, g, top, topsize)
  {
  }

  /** What init_top writes, for a top that ends at byte hi. */
  lemma TopWritten(m: seq<Word>, m': seq<Word>, top: Addr, topsize: nat, hi: nat)
    requires hi + 8 > 8 * top && hi < TWO64 && topsize == (hi + TWO64 - 8 * top) % TWO64 && hi + 16 < 8 * |m| && top + HEAD < |m|
    requires m' == Stored(m[top + HEAD := TopHead(topsize)], hi + 8, 8 * TOP_FOOT)
    ensures forall w :: 0 <= w < |m| && w != top + HEAD && (8 * w + 8 <= hi + 8 || hi + 16 <= 8 * w) ==> m'[w] == m[w]
    ensures hi <= 8 * top ==> !Pinuse(m'[top + HEAD])
    ensures hi > 8 * top ==> TopWords(m', top, top, topsize)
  {
    hide Pinuse, Cinuse, TopHead, EndMarked, LowStored, HighStored;
    WrappedSize(hi, top);
    var m1: seq<Word> := m[top + HEAD := TopHead(topsize)];
    var w, s := (hi + 8) / 8, (hi + 8) % 8;
    assert hi + 8 == 8 * w + s;
    EvenFoot();
    if hi < 8 * top {
      assert w == top;
    } else {
      assert w == top + topsize / 8 + HEAD && s == topsize % 8;
      if s != 0 {
        EndMarkedBy(m1[w], s);
      } else {
        EndMarkedWhole();
      }
    }
  }

  lemma EvenFoot()
    ensures !Pinuse(8 * TOP_FOOT)
  {
  }

  lemma EndMarkedWhole()
    ensures EndMarked(8 * TOP_FOOT, 0)
  {
  }

  lemma EndMarkedBy(x: Word, s: nat)
    requires 0 < s < 8
    ensures EndMarked(LowStored(x, s, 8 * TOP_FOOT), s)
  {
  }

  lemma EmptyHeapOk(m: seq<Word>, h: Addr, top: Addr, topsize: nat)
    requires |m| <= WORD_LIMIT && top == First(h) && TopWords(m, top, top, topsize)
    ensures HeapOk(m, First(h), map[], top, topsize)
  {
  }

  lemma EmptyServes(g: Chunks, topsize: nat, nb: nat)
    requires g == map[]
    ensures CanServe(g, topsize, nb) <==> 8 * nb < topsize
  {
  }

  /** A block cut off an empty space ends where top begins. */
  lemma OnlyBlock(m: seq<Word>, lo: Addr, g: Chunks, top: Addr, topsize: nat, nb: nat)
    requires HeapOk(m, lo, g, top, topsize) && Took(map[], g, lo, nb)
    ensures Live(g) == map[lo := nb] && lo + nb == top
  {
    assert Live(map[]) == map[];
    assert Live(g) == map[lo := nb] by {
      assert Live(g) == Live(map[])[lo := g[lo].size];
    }
    assert ChunkOk(g, lo, top, lo);
    NoneAbove(g, lo, top);
  }

  /** Behind a free chunk there is one in use. */
  lemma NoneAbove(g: Chunks, lo: Addr, top: Addr)
    requires Tiled(g, lo, top) && forall a :: a in Live(g) ==> a == lo
    ensures forall c :: c in g ==> c <= lo
  {
    forall c | c in g
      ensures c <= lo
    {
      assert ChunkOk(g, lo, top, c);
      assert if g[c].used then c in Live(g) else c + g[c].size in Live(g);
    }
  }

  lemma NothingShifted(i: bv32)
    requires i < 32
    ensures ShiftDown(0, i) == 0 && !LowTwo(0)
  {
  }

  /** With no chunk binned, no bin is marked. */
  lemma NothingBinned(m: seq<Word>, h: Addr, b: Bins, smallmap: bv32, treemap: bv32)
    requires BinsOk(m, h, b) && SmallMapOk(b, smallmap) && TreeMapOk(b, treemap) && forall a :: a !in b.size
    ensures b.size == map[] && smallmap == 0 && treemap == 0
  {
    hide Marked, FirstMarked, Bin;
    if smallmap != 0 {
      var i := FirstMarked(smallmap);
      FirstMarkedIsLeast(smallmap, 0);
      assert Marked(smallmap, i) ==> |b.ring[i]| > 1;
      FirstOf(m, h, b, i);
    }
    if treemap != 0 {
      var i := FirstMarked(treemap);
      FirstMarkedIsLeast(treemap, 0);
      assert Marked(treemap, i) ==> b.trie.root[i] != 0;
      assert RootOk(b.trie, i);
      TreeSizes(m, h, b);
    }
  }
}
