/**
 What malloc and free do, without memory: a space as its chunks, which of them are binned, dv and
 top. The operations on memory are proved to do exactly this.
 */
module Outcomes {
  import opened Shift
  import opened TreeIndex
  import opened Alignment
  import opened Words
  import opened Rings
  import opened Bins
  import opened Tiling

  /** The lists of the bins, by chunk size; a list for a small size starts with the bin's header. */
  type Lists = map<nat, seq<Addr>>

  /** sz are the sizes of the binned chunks; dvsize counts words, topsize bytes. */
  datatype Space = Space(g: Chunks, sz: map<Addr, nat>, lists: Lists, dv: Addr, dvsize: nat, top: Addr, topsize: nat, trim: Word, checks: Word)

  // ---------------------------------------------------------------------------
  // Bins

  /** A chunk put in the list of its size: behind the first element, or as the only one. */
  function PutIn(l: Lists, n: nat, p: Addr): Lists
  {
    if n in l && |l[n]| > 0 then l[n := InsertSecond(l[n], p)] else l[n := [p]]
  }

  ghost function PlaceIn(r: seq<Addr>, p: Addr): (k: nat)
    requires p in r
    ensures k < |r| && r[k] == p
  {
    var k: nat :| k < |r| && r[k] == p;
    k
  }

  /** A chunk taken out of the list of its size. */
  ghost function TakenOut(l: Lists, n: nat, p: Addr): Lists
  {
    if n !in l || p !in l[n] then l
    else if |l[n]| == 1 then l - {n}
    else l[n := Without(l[n], PlaceIn(l[n], p))]
  }

  /** The chunk of a list that is taken first. */
  function FirstIn(l: Lists, n: nat): Addr
  {
    if n in l && Front(n) < |l[n]| then l[n][Front(n)] else 0
  }

  ghost function Unbinned(s: Space, p: Addr): Space
  {
    if p in s.sz then s.(sz := s.sz - {p}, lists := TakenOut(s.lists, s.sz[p], p)) else s
  }

  function PutBinned(s: Space, p: Addr, n: nat): Space
  {
    s.(sz := s.sz[p := n], lists := PutIn(s.lists, n, p))
  }

  /** What is put in a list can be taken out again, and the lists are as before; in a small bin it is what is taken first. */
  lemma PutThenTaken(l: Lists, n: nat, p: Addr)
    requires n in l ==> |l[n]| > 0 && p !in l[n]
    requires n < NSMALLBINS ==> n in l
    ensures TakenOut(PutIn(l, n, p), n, p) == l
    ensures n < NSMALLBINS ==> FirstIn(PutIn(l, n, p), n) == p
  {
    var l' := PutIn(l, n, p);
    assert p in l'[n] by {
      assert l'[n][if n in l then 1 else 0] == p;
    }
    if n in l {
      assert PlaceIn(l'[n], p) == 1;
      assert Without(l'[n], 1) == l[n];
      assert l'[n := l[n]] == l;
    } else {
      assert l' - {n} == l;
    }
  }

  lemma FirstInList(b: Bins, p: Addr)
    requires FirstOfBin(b, p)
    ensures p in b.size && p == FirstIn(b.ring, b.size[p])
  {
  }

  lemma NothingToUnbin(s: Space, p: Addr)
    requires p !in s.sz
    ensures Unbinned(s, p) == s
  {
  }

  lemma UnchainedLists(b: Bins, n: nat, k: nat)
    requires n in b.ring && k < |b.ring[n]| && |b.ring[n]| > 1 && Distinct(b.ring[n])
    ensures TakenOut(b.ring, n, b.ring[n][k]) == b.ring[n := Without(b.ring[n], k)]
  {
    var r := b.ring[n];
    assert r[k] in r;
    assert PlaceIn(r, r[k]) == k;
  }

  // ---------------------------------------------------------------------------
  // malloc

  /** A chunk of exactly n words is binned. */
  ghost predicate Binned(sz: map<Addr, nat>, n: nat)
  {
    exists a :: a in sz && sz[a] == n
  }

  /** A binned chunk has nb words, and fewer than limit. */
  ghost predicate BinFits(sz: map<Addr, nat>, nb: nat, limit: nat)
  {
    exists a :: a in sz && nb <= sz[a] < limit
  }

  /** p is a smallest binned chunk of at least nb words. */
  ghost predicate TightestBinned(sz: map<Addr, nat>, nb: nat, p: Addr)
  {
    p in sz && nb <= sz[p] && forall a :: a in sz && sz[a] >= nb ==> sz[p] <= sz[a]
  }

  /**
   The chunk that nb words are taken from. A small request: a binned chunk of that size or one word
   more, else dv if it is big enough, else a smallest binned chunk. A larger one: a smallest binned
   chunk if it is smaller than dv or dv is not big enough, else dv. Top is the last resort. Of the
   binned chunks of one size it is the first in their list.
   */
  ghost predicate Chosen(s: Space, nb: nat, p: Addr)
  {
    (p in s.sz ==> p == FirstIn(s.lists, s.sz[p])) &&
    if nb < NSMALLBINS && (Binned(s.sz, nb) || (Binned(s.sz, nb + 1) && nb + 1 < NSMALLBINS)) then
      p in s.sz && s.sz[p] == if Binned(s.sz, nb) then nb else nb + 1
    else if s.dvsize < nb && exists a :: a in s.sz && s.sz[a] >= nb then
      TightestBinned(s.sz, nb, p)
    else if nb >= NSMALLBINS && BinFits(s.sz, nb, s.dvsize) then
      TightestBinned(s.sz, nb, p)
    else if nb <= s.dvsize then
      p == s.dv
    else
      p == s.top && 8 * nb < s.topsize
  }

  /** The chunk p in use, as far as it is not more than nb words by a chunk. */
  function Used(g: Chunks, p: Addr, nb: nat): Chunks
    requires p in g
  {
    if g[p].size < nb + MIN_CHUNK then g[p := Chunk(g[p].size, true)] else Split(g, p, nb, true, false)
  }

  /** The words come from the binned chunk p. What it has too much is a new dv, and the old dv binned, if the request is small; and is binned if not. */
  ghost function FromBin(s: Space, nb: nat, p: Addr): Space
    requires p in s.g && p in s.sz
  {
    var rest := s.g[p].size - nb;
    var s1 := Unbinned(s, p).(g := Used(s.g, p, nb));
    if rest < MIN_CHUNK then
      s1
    else if nb < NSMALLBINS then
      (if s.dvsize == 0 then s1 else PutBinned(s1, s.dv, s.dvsize)).(dv := p + nb, dvsize := rest)
    else
      PutBinned(s1, p + nb, rest)
  }

  function FromDv(s: Space, nb: nat): Space
    requires s.dv in s.g && nb <= s.dvsize
  {
    var rest := s.dvsize - nb;
    if rest < MIN_CHUNK then
      s.(g := Used(s.g, s.dv, nb), dv := 0, dvsize := 0)
    else
      s.(g := Used(s.g, s.dv, nb), dv := s.dv + nb, dvsize := rest)
  }

  function FromTop(s: Space, nb: nat): Space
    requires 8 * nb <= s.topsize
  {
    s.(g := s.g[s.top := Chunk(nb, true)], top := s.top + nb, topsize := s.topsize - 8 * nb)
  }

  /** The space after nb words were taken from p. */
  ghost function AfterMalloc(s: Space, nb: nat, p: Addr): Space
  {
    if p in s.sz && p in s.g then FromBin(s, nb, p)
    else if p == s.dv && s.dv in s.g && nb <= s.dvsize then FromDv(s, nb)
    else if 8 * nb <= s.topsize then FromTop(s, nb)
    else s
  }

  /** A small request that an exact bin serves, or that dv does not. */
  lemma ChosenSmall(s: Space, nb: nat, p: Addr)
    requires nb < NSMALLBINS && TightestBinned(s.sz, nb, p) && p in s.g
    requires (s.dvsize < nb || (s.sz[p] <= nb + 1 && s.sz[p] < NSMALLBINS)) && p == FirstIn(s.lists, s.sz[p])
    ensures Chosen(s, nb, p) && AfterMalloc(s, nb, p) == FromBin(s, nb, p)
  {
  }

  /** A larger request for which the bins have a tighter fit than dv. */
  lemma ChosenLarge(s: Space, nb: nat, p: Addr)
    requires nb >= NSMALLBINS && TightestBinned(s.sz, nb, p) && p in s.g
    requires (nb <= s.dvsize ==> s.sz[p] < s.dvsize) && p == FirstIn(s.lists, s.sz[p])
    ensures Chosen(s, nb, p) && AfterMalloc(s, nb, p) == FromBin(s, nb, p)
  {
  }

  /** The bins do not serve a request. */
  lemma ChosenRest(s: Space, nb: nat, p: Addr)
    requires s.dvsize < nb ==> forall a :: a in s.sz ==> s.sz[a] < nb
    requires nb < NSMALLBINS ==> forall a :: a in s.sz ==> s.sz[a] != nb && (s.sz[a] == nb + 1 ==> nb + 1 >= NSMALLBINS)
    requires nb >= NSMALLBINS ==> forall a :: a in s.sz && nb <= s.sz[a] ==> s.dvsize <= s.sz[a]
    requires p !in s.sz && if nb <= s.dvsize then p == s.dv else p == s.top && 8 * nb < s.topsize
    ensures Chosen(s, nb, p)
  {
  }

  /** The choice is unique: what malloc answers, and what it leaves, is a function of the space. */
  lemma OneChoice(s: Space, nb: nat, p: Addr, p': Addr)
    requires Chosen(s, nb, p) && Chosen(s, nb, p')
    ensures p == p'
  {
    hide FirstIn;
    assert p in s.sz && p' in s.sz ==> s.sz[p] == s.sz[p'];
  }

  // ---------------------------------------------------------------------------
  // free

  /** Where the free chunk in front of q starts, or q. */
  ghost function MergeStart(g: Chunks, q: Addr): Addr
  {
    if exists a :: a in g && !g[a].used && a + g[a].size == q then
      var a :| a in g && !g[a].used && a + g[a].size == q;
      a
    else
      q
  }

  /** The release counter after one more large chunk was freed. */
  function Counted(checks: Word): Word
  {
    if checks == 1 then MAX_RELEASE_CHECK_RATE else (checks + TWO64 - 1) % TWO64
  }

  /** The n words at p, of which no binned chunk is left, are one free chunk: the new dv, if the old one is among them, and else binned. */
  function Gathered(s: Space, p: Addr, n: nat): Space
  {
    var s1 := s.(g := Merged(s.g, p, n));
    if p <= s.dv < p + n then
      s1.(dv := p, dvsize := n)
    else
      PutBinned(s1, p, n).(checks := if n < NSMALLBINS then s.checks else Counted(s.checks))
  }

  /** The n words at p are the bottom of top; dv is gone if it is among them. A trim that is due turns trimming off. */
  function ToTop(s: Space, p: Addr, n: nat): Space
  {
    var dropped := p <= s.dv < p + n;
    var topsize := s.topsize + 8 * n;
    var due := topsize > s.trim;
    s.(g := Dropped(s.g, p, n), dv := if dropped then 0 else s.dv, dvsize := if dropped then 0 else s.dvsize, top := p, topsize := topsize,
       trim := if due then TWO64 - 1 else s.trim, checks := if due then MAX_RELEASE_CHECK_RATE else s.checks)
  }

  /** The n words at p and what is free behind them are gathered. */
  ghost function Forward(s: Space, p: Addr, n: nat, joins: bool): Space
  {
    if p + n == s.top && joins then ToTop(s, p, n)
    else if p + n in s.g && !s.g[p + n].used then Gathered(Unbinned(s, p + n), p, n + s.g[p + n].size)
    else Gathered(s, p, n)
  }

  /** The space after the chunk q was freed; joins says whether a chunk that ends at top is joined to it. */
  ghost function AfterFree(s: Space, q: Addr, joins: bool): Space
  {
    var p := MergeStart(s.g, q);
    if q in s.g && p <= q then Forward(Unbinned(s, p), p, q + s.g[q].size - p, joins) else s
  }

  lemma MergeStartIs(g: Chunks, lo: Addr, top: Addr, a: Addr, q: Addr)
    requires Tiled(g, lo, top) && a in g && !g[a].used && a + g[a].size == q
    ensures MergeStart(g, q) == a
  {
    forall c | c in g && !g[c].used && c + g[c].size == q
      ensures c == a
    {
      OnePredecessor(g, lo, top, a, c);
    }
  }

  lemma NoMergeStart(g: Chunks, q: Addr)
    requires UsedUpTo(g, q)
    ensures MergeStart(g, q) == q
  {
  }

  lemma ForwardTop(s: Space, p: Addr, n: nat)
    requires p + n == s.top
    ensures Forward(s, p, n, true) == ToTop(s, p, n)
  {
  }

  lemma ForwardNext(s: Space, p: Addr, n: nat, joins: bool)
    requires p + n in s.g && !s.g[p + n].used && p + n != s.top
    ensures Forward(s, p, n, joins) == Gathered(Unbinned(s, p + n), p, n + s.g[p + n].size)
  {
  }

  lemma ForwardBin(s: Space, p: Addr, n: nat, joins: bool)
    requires p + n in s.g ==> s.g[p + n].used
    requires p + n == s.top ==> !joins
    ensures Forward(s, p, n, joins) == Gathered(s, p, n)
  {
  }

  lemma GatheredIs(s: Space, p: Addr, n: nat)
    ensures p <= s.dv < p + n ==> Gathered(s, p, n) == s.(g := Merged(s.g, p, n), dv := p, dvsize := n)
    ensures !(p <= s.dv < p + n) ==>
              Gathered(s, p, n) ==
              PutBinned(s.(g := Merged(s.g, p, n)), p, n).(checks := if n < NSMALLBINS then s.checks else Counted(s.checks))
  {
  }

  lemma AfterFreeIs(s: Space, q: Addr, p: Addr, joins: bool)
    requires q in s.g && MergeStart(s.g, q) == p <= q
    ensures AfterFree(s, q, joins) == Forward(Unbinned(s, p), p, q + s.g[q].size - p, joins)
  {
  }

  // ---------------------------------------------------------------------------
  // realloc and memalign

  /** The chunk p in use is cut in two chunks in use. */
  function CutIn(s: Space, p: Addr, n: nat): Space
  {
    if p in s.g && n <= s.g[p].size then s.(g := Split(s.g, p, n, true, true)) else s
  }

  /** The last chunk grown to nb words at top's expense. */
  function Grown(s: Space, p: Addr, nb: nat): Space
    requires p in s.g && 8 * nb <= 8 * s.g[p].size + s.topsize
  {
    s.(g := s.g[p := Chunk(nb, true)], top := p + nb, topsize := 8 * s.g[p].size + s.topsize - 8 * nb)
  }

  /** The block p was resized to nb words, and is now p': cut or left in place, grown into top, or moved. */
  ghost predicate Reallocated(s: Space, p: Addr, nb: nat, p': Addr, s': Space)
  {
    p in s.g &&
    var n := s.g[p].size;
    if nb <= n then
      p' == p && s' == if n - nb < MIN_CHUNK then s else AfterFree(CutIn(s, p, nb), p + nb, true)
    else if p + n == s.top && 8 * nb < 8 * n + s.topsize then
      p' == p && s' == Grown(s, p, nb)
    else
      Chosen(s, nb, p') && s' == AfterFree(AfterMalloc(s, nb, p'), p, true)
  }

  /** The chunk whose payload is the aligned one in a block at p0: p0 itself, or the first that leaves a chunk in front. */
  ghost predicate AlignedFrom(p0: Addr, a: nat, p: Addr)
    requires a > 0
  {
    if Aligned(p0, a) then
      p == p0
    else
      p >= p0 + MIN_CHUNK && Aligned(p, a) && forall x: Addr {:trigger Aligned(x, a)} :: p0 + MIN_CHUNK <= x < p ==> !Aligned(x, a)
  }

  /** What is in front of p in the block at p0 is cut off. */
  function Led(s: Space, p0: Addr, p: Addr): Space
  {
    if p0 < p then CutIn(s, p0, p - p0) else s
  }

  /** What the block at p of n words has behind nb, if more than a chunk, is cut off. */
  function Trailed(s: Space, p: Addr, n: nat, nb: nat): Space
  {
    if n > nb + MIN_CHUNK then CutIn(s, p, nb) else s
  }

  /** A block of nb words aligned to a was cut out of one of req words; leader and trailer are free again. */
  ghost predicate AlignedOut(s: Space, a: nat, nb: nat, req: nat, p: Addr, s': Space)
    requires a > 0
  {
    exists p0: Addr {:trigger Chosen(s, req, p0)} :: Chosen(s, req, p0) && AlignedFrom(p0, a, p) && p0 <= p && AlignedIn(AfterMalloc(s, req, p0), p0, p, nb, s')
  }

  lemma AlignedSteps(s: Space, a: nat, nb: nat, req: nat, p0: Addr, p: Addr, s0: Space, s1: Space, s2: Space, s3: Space, s4: Space)
    requires a > 0 && Chosen(s, req, p0) && AlignedFrom(p0, a, p) && s0 == AfterMalloc(s, req, p0)
    requires p0 in s0.g && p0 <= p <= p0 + s0.g[p0].size
    requires var n := p0 + s0.g[p0].size - p;
      && s1 == Led(s0, p0, p) && s2 == Trailed(s1, p, n, nb)
      && s3 == (if p0 < p then AfterFree(s2, p0, true) else s2)
      && s4 == if n > nb + MIN_CHUNK then AfterFree(s3, p + nb, true) else s3
    ensures AlignedOut(s, a, nb, req, p, s4)
  {
    hide Chosen, AlignedFrom, AfterMalloc, Led, Trailed, AfterFree;
    assert AlignedIn(AfterMalloc(s, req, p0), p0, p, nb, s4);
  }

  /** The leader, then the trailer, of the block at p0 are cut off and freed. */
  ghost predicate AlignedIn(s: Space, p0: Addr, p: Addr, nb: nat, s': Space)
  {
    && p0 in s.g && p0 <= p <= p0 + s.g[p0].size
    && var n := p0 + s.g[p0].size - p;
       var s1 := Trailed(Led(s, p0, p), p, n, nb);
       var s2 := if p0 < p then AfterFree(s1, p0, true) else s1;
       s' == if n > nb + MIN_CHUNK then AfterFree(s2, p + nb, true) else s2
  }
}
