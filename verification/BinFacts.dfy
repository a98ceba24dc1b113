/** The bins with the two bitmaps of non-empty bins, and what the searches of malloc find in them. */
module BinFacts {
  import opened Shift
  import opened TreeIndex
  import opened BitOps
  import opened BinMap
  import opened SizeTrie
  import opened TrieSearch
  import opened Words
  import opened Outcomes
  import opened Rings
  import opened Bins
  import opened BinInsert
  import opened BinTrees
  import opened BinRemove
  import opened TreeWalks
  import opened Tiling
  import opened Heap

  /** smallmap marks the small bins that hold a chunk. */
  ghost predicate SmallMapOk(b: Bins, smallmap: bv32)
  {
    forall i {:trigger Marked(smallmap, i)} :: 0 <= i < NSMALLBINS ==>
      i in b.ring && (Marked(smallmap, i) <==> |b.ring[i]| > 1)
  }

  /** treemap marks the treebins that have a root. */
  ghost predicate TreeMapOk(b: Bins, treemap: bv32)
  {
    |b.trie.root| == NTREEBINS &&
    forall i {:trigger Marked(treemap, i)} :: 0 <= i < NTREEBINS ==> (Marked(treemap, i) <==> b.trie.root[i] != 0)
  }

  lemma SmallMapChained(b: Bins, smallmap: bv32, p: Addr, n: nat)
    requires SmallMapOk(b, smallmap) && n < NSMALLBINS && n in b.ring && |b.ring[n]| > 0
    ensures SmallMapOk(Chained(b, p, n), if Marked(smallmap, n) then smallmap else Mark(smallmap, n))
  {
    hide Marked, Mark;
    var b' := Chained(b, p, n);
    var smallmap' := if Marked(smallmap, n) then smallmap else Mark(smallmap, n);
    forall i | 0 <= i < NSMALLBINS
      ensures i in b'.ring && (Marked(smallmap', i) <==> |b'.ring[i]| > 1)
    {
      assert Marked(smallmap, i) ==> |b.ring[i]| > 1;
      MarkedAfterMark(smallmap, n, i);
    }
  }

  /** The first chunk of a small bin and its successor. */
  lemma FirstOf(m: seq<Word>, h: Addr, b: Bins, i: nat)
    requires BinsOk(m, h, b) && i < NSMALLBINS && i in b.ring && |b.ring[i]| > 1
    ensures var r := b.ring[i];
      && r[1] in b.size && b.size[r[1]] == i
      && r[1] + 4 <= |m| && m[r[1] + FD] == Succ(r, 1)
      && (Succ(r, 1) == r[0] <==> |r| == 2)
      && r[0] == SmallBin(h, i) == Pred(r, 1)
      && (|r| > 2 ==> First(h) <= Succ(r, 1) && Rings.Clear(Succ(r, 1), r[0]))
  {
    RingFacts(m, h, b, i);
    RingSpaced(h, b, i);
    assert |b.ring[i]| > 2 ==> Rings.Clear(b.ring[i][2], b.ring[i][0]);
    assert LinkedAt(m, b.ring[i], 1);
  }

  lemma SmallMapUnchained(b: Bins, smallmap: bv32, n: nat, k: nat)
    requires SmallMapOk(b, smallmap) && n in b.ring && |b.ring[n]| > 1 && k < |b.ring[n]|
    ensures SmallMapOk(Unchained(b, n, k), if n < NSMALLBINS && |b.ring[n]| == 2 then BinMap.Clear(smallmap, n) else smallmap)
  {
    hide Marked, BinMap.Clear;
    var b' := Unchained(b, n, k);
    forall i | 0 <= i < NSMALLBINS
      ensures i in b'.ring
      ensures Marked(if n < NSMALLBINS && |b.ring[n]| == 2 then BinMap.Clear(smallmap, n) else smallmap, i) <==> |b'.ring[i]| > 1
    {
      assert Marked(smallmap, i) ==> |b.ring[i]| > 1;
      if n < NSMALLBINS {
        MarkedAfterClear(smallmap, n, i);
      }
    }
  }

  lemma NoRoot(m: seq<Word>, h: Addr, b: Bins, n: nat)
    requires BinsOk(m, h, b) && TreeSize(n) && b.trie.root[Bin(n)] == 0
    ensures n !in b.trie.node
  {
    AddRootOk(b.trie, n);
  }

  /** A tree node is beside a chunk that is in no bin. */
  lemma SlotBeside(m: seq<Word>, h: Addr, b: Bins, x: Addr, n: nat, q: nat, t: Addr)
    requires BinsOk(m, h, b) && Insertable(m, h, b, x, n) && n >= MIN_LARGE && AtNode(b, q, t)
    ensures t + 8 <= x || x + 8 <= t
  {
    ReadNode(m, h, b, q, t);
    assert Beside(b, t, x, n);
  }

  /** The ring of a large size: its front is the tree node. */
  lemma TreeRing(m: seq<Word>, h: Addr, b: Bins, n: nat, t: Addr)
    requires BinsOk(m, h, b) && AtNode(b, n, t)
    ensures n in b.ring && |b.ring[n]| > 0 && b.ring[n][0] == t && Within(m, b.ring[n])
    ensures t + 4 <= |m| && m[t + FD] == Succ(b.ring[n], 0) && First(h) <= t && First(h) <= Succ(b.ring[n], 0)
  {
    NodeFacts(h, b, b.trie, n);
    RingFacts(m, h, b, n);
    assert LinkedAt(m, b.ring[n], 0);
  }

  lemma Relinked(m: seq<Word>, m1: seq<Word>, m2: seq<Word>, r: seq<Addr>, x: Addr)
    requires |r| > 0 && Within(m, r) && |m1| == |m| && x + 4 <= |m|
    requires SameExcept(m1, m2, {r[0] + FD, Succ(r, 0) + BK, x + FD, x + BK})
    requires m2[r[0] + FD] == x && m2[Succ(r, 0) + BK] == x && m2[x + FD] == Succ(r, 0) && m2[x + BK] == r[0]
    ensures LinkedIn(m1, m2, r, x)
  {
  }

  /** A size that no tree has has no list. */
  lemma NewSize(m: seq<Word>, h: Addr, b: Bins, n: nat)
    requires BinsOk(m, h, b) && n >= NSMALLBINS && n !in b.trie.node
    ensures n !in b.ring
  {
    assert n in b.ring ==> RingShape(h, b, n);
  }

  lemma WithinKept(m: seq<Word>, m': seq<Word>, r: seq<Addr>)
    requires Within(m, r) && |m'| == |m|
    ensures Within(m', r)
  {
  }

  lemma MapsChained(b: Bins, x: Addr, n: nat, smallmap: bv32, treemap: bv32)
    requires SmallMapOk(b, smallmap) && TreeMapOk(b, treemap) && n in b.ring && |b.ring[n]| > 0 && n >= NSMALLBINS
    ensures SmallMapOk(Chained(b, x, n), smallmap) && TreeMapOk(Chained(b, x, n), treemap)
  {
    SmallMapKept(b, Chained(b, x, n), smallmap);
    TreeMapKept(b, Chained(b, x, n), treemap);
  }

  lemma BelowNode(h: Addr, b: Bins, n: nat, q: nat, t: Addr, rp: Addr)
    requires Below(h, b, n, q, t, rp)
    ensures AtNode(b, q, t)
  {
  }

  lemma NodeAddress(m: seq<Word>, h: Addr, b: Bins, q: nat, t: Addr)
    requires BinsOk(m, h, b) && AtNode(b, q, t)
    ensures First(h) <= t
  {
    ReadNode(m, h, b, q, t);
  }

  lemma TreeMapSubstituted(b: Bins, b': Bins, treemap: bv32, n: nat, r: nat)
    requires TreeMapOk(b, treemap) && |b'.trie.root| == NTREEBINS && n != 0
    requires forall i :: 0 <= i < NTREEBINS ==> b'.trie.root[i] == if b.trie.root[i] == n then r else b.trie.root[i]
    requires r != 0
    ensures TreeMapOk(b', treemap)
  {
    hide Marked;
    forall i | 0 <= i < NTREEBINS
      ensures Marked(treemap, i) <==> b'.trie.root[i] != 0
    {
      assert Marked(treemap, i) ==> b.trie.root[i] != 0;
    }
  }

  lemma TreeMapCut(b: Bins, b': Bins, treemap: bv32, n: nat)
    requires TreeMapOk(b, treemap) && TrieOk(b.trie) && n in b.trie.node && TreeSize(n)
    requires |b'.trie.root| == NTREEBINS
    requires forall i :: 0 <= i < NTREEBINS ==> b'.trie.root[i] == if b.trie.root[i] == n then 0 else b.trie.root[i]
    ensures TreeMapOk(b', if b.trie.node[n].up == 0 then BinMap.Clear(treemap, Bin(n)) else treemap)
  {
    hide Marked, BinMap.Clear, Bin, TrieOk;
    forall i | 0 <= i < NTREEBINS
      ensures Marked(if b.trie.node[n].up == 0 then BinMap.Clear(treemap, Bin(n)) else treemap, i) <==> b'.trie.root[i] != 0
    {
      OneRoot(b.trie, n, i);
      MarkedAfterClear(treemap, Bin(n), i);
      assert Marked(treemap, i) ==> b.trie.root[i] != 0;
    }
  }

  /** The maps after a tree node of which there are more chunks lost one. */
  lemma MapsUnchained(b: Bins, n: nat, k: nat, smallmap: bv32, treemap: bv32)
    requires SmallMapOk(b, smallmap) && TreeMapOk(b, treemap) && n >= NSMALLBINS
    requires n in b.ring && |b.ring[n]| > 1 && k < |b.ring[n]|
    ensures SmallMapOk(Unchained(b, n, k), smallmap) && TreeMapOk(Unchained(b, n, k), treemap)
  {
    SmallMapKept(b, Unchained(b, n, k), smallmap);
    TreeMapKept(b, Unchained(b, n, k), treemap);
  }

  /** A large binned chunk is a tree node if it has a parent word, and chained to one if not. */
  lemma NodeOrMate(m: seq<Word>, h: Addr, b: Bins, x: Addr, k: nat)
    requires BinsOk(m, h, b) && x in b.size && b.size[x] >= MIN_LARGE
    requires b.size[x] in b.ring && k < |b.ring[b.size[x]]| && b.ring[b.size[x]][k] == x
    ensures b.size[x] in b.trie.node && b.size[x] < WORD_LIMIT && x + 8 <= |m|
    ensures m[x + PARENT] == 0 <==> k > 0
    ensures k == 0 ==> NodeOf(b, b.size[x]) == x
    ensures PartOf(h, b, b.trie) && TreesLinked(m, h, b) && b.(trie := b.trie) == b
  {
    hide Bin, Side;
    var n := b.size[x];
    assert RingShape(h, b, n) && Placed(h, b, x);
    NodeFacts(h, b, b.trie, n);
    if k > 0 {
      assert MatesOk(m, b, n) && Mate(m, b.ring[n][k], n);
    } else {
      HookRead(m, h, b, b.trie, n);
      LinksInTrie(b.trie, n);
      if b.trie.node[n].up != 0 {
        NodeFacts(h, b, b.trie, b.trie.node[n].up);
      }
    }
  }

  lemma ParentKept(m: seq<Word>, m1: seq<Word>, h: Addr, b: Bins, n: nat, x: Addr)
    requires Unlinking(m, m1, h, b, n, 0) && x in b.size && b.size[x] >= MIN_LARGE && x + 8 <= |m|
    ensures m1[x + PARENT] == m[x + PARENT]
  {
    UnlinkingKeeps(m, m1, h, b, n, 0, x);
  }

  lemma TreeParts(m: seq<Word>, h: Addr, b: Bins, n: nat)
    requires BinsOk(m, h, b) && n in b.trie.node
    ensures PartOf(h, b, b.trie) && TreesLinked(m, h, b) && b.(trie := b.trie) == b
    ensures TrieOk(b.trie) && n != 0 && TreeSize(n) && NodeOf(b, n) != 0
  {
    assert NodeOk(b.trie, n);
    NodeFacts(h, b, b.trie, n);
  }

  /** Only an element alone in its ring precedes itself. */
  lemma SelfLoop(r: seq<Addr>, k: nat)
    requires k < |r| && Distinct(r)
    ensures Pred(r, k) == r[k] <==> |r| == 1
  {
  }

  /** A node below another is not a root. */
  lemma BelowNotRoot(t: Trie, n: nat, s: nat, i: nat)
    requires TrieOk(t) && n in t.node && s != n && Under(t, n, s) && i < NTREEBINS
    ensures t.root[i] != s && t.node[s].up != 0 && t.node[s].up in t.node
  {
    hide Bin, RootLevel, Shr;
    Descend(t, n, s);
    assert NodeOk(t, s) && UpOk(t, s) && NodeOk(t, n) && UpOk(t, n);
    OneRoot(t, s, i);
    if t.node[s].up == 0 {
      Unique(t, s, n);
    }
  }

  /** Cutting off the leaf of size s does not touch the node of size n above it. */
  lemma PromoteFacts(m: seq<Word>, h: Addr, b: Bins, n: nat, s: nat, x: Addr)
    requires BinsOk(m, h, b) && AtNode(b, n, x) && n < WORD_LIMIT && s in b.trie.node && s != n && s < WORD_LIMIT
    requires b.trie.node[s].IsLeaf() && Under(b.trie, n, s)
    ensures n in Substitute(b.trie, s, 0).node && s != 0 && s !in Substitute(b.trie, s, 0).node
    ensures Hook(h, b, b.trie, s) != x + PARENT && First(h) <= Hook(h, b, b.trie, s)
    ensures forall i :: 0 <= i < NTREEBINS ==> b.trie.root[i] != s
  {
    hide Bin, Side, Shr;
    forall i | 0 <= i < NTREEBINS
      ensures b.trie.root[i] != s
    {
      BelowNotRoot(b.trie, n, s, i);
    }
    PromotionFits(b.trie, n, s);
    TreeParts(m, h, b, s);
    HookAt(h, b, b.trie, s, n);
    NodeFacts(h, b, b.trie, n);
    assert NodeOk(b.trie, s) && UpOk(b.trie, s);
    BelowNotRoot(b.trie, n, s, Bin(s));
    NodeFacts(h, b, b.trie, b.trie.node[s].up);
  }

  lemma MapsCut(b: Bins, b': Bins, n: nat, smallmap: bv32, treemap: bv32)
    requires SmallMapOk(b, smallmap) && TreeMapOk(b, treemap) && TrieOk(b.trie) && n in b.trie.node && TreeSize(n)
    requires n in b.ring && |b.ring[n]| > 0 && b' == Uprooted(b, n, Substitute(b.trie, n, 0))
    ensures SmallMapOk(b', smallmap)
    ensures TreeMapOk(b', if b.trie.node[n].up == 0 then BinMap.Clear(treemap, Bin(n)) else treemap)
  {
    hide Bin, TrieOk, Marked;
    Substituted(b.trie, n, 0) by {
      LinksInTrie(b.trie, n);
    }
    SmallMapKept(b, b', smallmap);
    TreeMapCut(b, b', treemap, n);
  }

  lemma MapsPromoted(b: Bins, b': Bins, t1: Trie, n: nat, s: nat, smallmap: bv32, treemap: bv32)
    requires SmallMapOk(b, smallmap) && TreeMapOk(b, treemap) && n >= NSMALLBINS && s != 0 && n != s
    requires s in b.trie.node && n in t1.node && s !in t1.node && t1 == Substitute(b.trie, s, 0)
    requires forall i :: 0 <= i < NTREEBINS ==> b.trie.root[i] != s
    requires n in b.ring && |b.ring[n]| > 0 && b' == Uprooted(b, n, Substitute(t1, n, s))
    ensures SmallMapOk(b', smallmap) && TreeMapOk(b', treemap)
  {
    hide Marked, Substitute;
    Substituted(b.trie, s, 0);
    Substituted(t1, n, s);
    SmallMapKept(b, b', smallmap);
    TreeMapSubstituted(b, b', treemap, n, s);
  }

  lemma NegativeSize(nb: nat)
    requires 0 < nb < WORD_LIMIT
    ensures SubWords(0, nb) == Remainder(nb, 0) != 0
  {
  }

  lemma ExactAt(m: seq<Word>, h: Addr, b: Bins, nb: nat, q: nat, sv: nat)
    requires BinsOk(m, h, b) && q in b.trie.node && TreeSize(q) && TreeSize(nb) && Bin(q) == Bin(nb)
    requires sv == nb && sv in b.trie.node
    ensures LeftmostWalk(b.trie, nb, Bin(nb), q, sv)
  {
    ExactFit(b.trie, nb, q);
  }

  lemma LeftmostNode(m: seq<Word>, h: Addr, b: Bins, nb: nat, i: nat, q: nat, t: Addr, sv: nat)
    requires BinsOk(m, h, b) && SubtreeAt(b, q, t) && t != 0 && LeftmostWalk(b.trie, nb, i, q, sv)
    ensures q != 0 && AtNode(b, q, t) && TreeSize(q) && Bin(q) == i
  {
  }

  lemma SubtreeNull(m: seq<Word>, h: Addr, b: Bins, q: nat, t: Addr)
    requires BinsOk(m, h, b) && SubtreeAt(b, q, t)
    ensures t == 0 <==> q == 0
  {
    if q != 0 {
      ReadNode(m, h, b, q, t);
    }
  }

  /** A treebin's word is null exactly when the bin is not marked. */
  lemma RootOf(m: seq<Word>, h: Addr, b: Bins, treemap: bv32, i: nat)
    requires BinsOk(m, h, b) && TreeMapOk(b, treemap) && i < NTREEBINS
    ensures TreeBin(h, i) < |m| && (m[TreeBin(h, i)] != 0 <==> Marked(treemap, i))
    ensures Marked(treemap, i) <==> b.trie.root[i] != 0
    ensures SubtreeAt(b, b.trie.root[i], m[TreeBin(h, i)])
  {
    hide Marked;
    ReadRoot(m, h, b, i);
    assert Marked(treemap, i) ==> b.trie.root[i] != 0;
  }

  lemma NothingInBin(m: seq<Word>, h: Addr, b: Bins, treemap: bv32, nb: nat, i: nat)
    requires BinsOk(m, h, b) && TreeMapOk(b, treemap) && i < NTREEBINS && !Marked(treemap, i)
    ensures LeftmostWalk(b.trie, nb, i, 0, 0)
  {
    EmptyBin(b.trie, nb, i);
  }

  /** The subtree that is left to walk holds sizes big enough, unless an exact fit was found. */
  lemma SubtreeFits(m: seq<Word>, h: Addr, b: Bins, nb: nat, i: nat, q: nat, sv: nat)
    requires BinsOk(m, h, b) && LeftmostWalk(b.trie, nb, i, q, sv) && nb != 0
    ensures q != 0 ==> q >= nb || sv != 0
  {
    if q != 0 {
      SelfUnder(b.trie, q);
    }
  }

  lemma OwnBest(m: seq<Word>, h: Addr, b: Bins, nb: nat, sv: nat)
    requires BinsOk(m, h, b) && TreeSize(nb) && LeftmostWalk(b.trie, nb, Bin(nb), 0, sv)
    requires sv != 0 && TreeSize(sv) && Bin(sv) == Bin(nb)
    ensures BestFit(b.trie, nb, sv)
  {
    FoundInOwnBin(b.trie, nb, sv);
  }

  /** The next marked bin above idx. */
  lemma LaterBin(m: seq<Word>, h: Addr, b: Bins, treemap: bv32, idx: nat, nb: nat)
    requires BinsOk(m, h, b) && TreeMapOk(b, treemap) && TreeSize(nb) && idx == Bin(nb)
    requires BitsAbove(treemap, Index(idx)) != 0
    ensures |b.trie.root| == NTREEBINS
    ensures var i := FirstMarked(BitsAbove(treemap, Index(idx)));
      && idx < i < NTREEBINS
      && b.trie.root[i] >= nb && b.trie.root[i] != 0
      && TreeBin(h, i) < |m| && SubtreeAt(b, b.trie.root[i], m[TreeBin(h, i)])
      && LeftmostWalk(b.trie, nb, i, b.trie.root[i], 0)
      && forall j :: idx < j < i ==> b.trie.root[j] == 0
  {
    hide Marked, BitsAbove, Index, Bin, FirstMarked;
    var left := BitsAbove(treemap, Index(idx));
    var i := FirstMarked(left);
    FirstMarkedIsLeast(left, 0);
    MarkedAbove(treemap, idx, i);
    RootOf(m, h, b, treemap, i);
    ContinueInBin(b.trie, nb, i);
    SubtreeFits(m, h, b, nb, i, b.trie.root[i], 0);
    forall j | idx < j < i
      ensures b.trie.root[j] == 0
    {
      FirstMarkedIsLeast(left, j);
      MarkedAbove(treemap, idx, j);
      RootOf(m, h, b, treemap, j);
    }
  }

  lemma LaterBest(m: seq<Word>, h: Addr, b: Bins, nb: nat, i: nat, sv: nat)
    requires BinsOk(m, h, b) && TreeSize(nb) && Bin(nb) < i < NTREEBINS
    requires LeftmostWalk(b.trie, nb, Bin(nb), 0, 0)
    requires forall j :: Bin(nb) < j < i ==> b.trie.root[j] == 0
    requires LeftmostWalk(b.trie, nb, i, 0, sv) && sv != 0 && TreeSize(sv) && Bin(sv) == i
    ensures BestFit(b.trie, nb, sv)
  {
    FoundInLaterBin(b.trie, nb, i, sv);
  }

  lemma NoLaterBin(m: seq<Word>, h: Addr, b: Bins, treemap: bv32, nb: nat)
    requires BinsOk(m, h, b) && TreeMapOk(b, treemap) && TreeSize(nb)
    requires LeftmostWalk(b.trie, nb, Bin(nb), 0, 0) && BitsAbove(treemap, Index(Bin(nb))) == 0
    ensures BestFit(b.trie, nb, 0)
  {
    hide Marked, BitsAbove, Index, Bin;
    forall j | Bin(nb) < j < NTREEBINS
      ensures b.trie.root[j] == 0
    {
      MarkedAbove(treemap, Bin(nb), j);
      NothingMarked(j);
      RootOf(m, h, b, treemap, j);
    }
    FoundNowhere(b.trie, nb);
  }

  /** Large binned chunks are exactly the sizes in the trees. */
  lemma TreeSizes(m: seq<Word>, h: Addr, b: Bins)
    requires BinsOk(m, h, b)
    ensures forall a :: a in b.size && b.size[a] >= MIN_LARGE ==> b.size[a] in b.trie.node
    ensures forall s :: s in b.trie.node ==> NodeOf(b, s) in b.size && b.size[NodeOf(b, s)] == s && s >= MIN_LARGE
  {
    hide Bin;
    forall a | a in b.size && b.size[a] >= MIN_LARGE
      ensures b.size[a] in b.trie.node
    {
      assert Placed(h, b, a) && RingShape(h, b, b.size[a]);
    }
    forall s | s in b.trie.node
      ensures NodeOf(b, s) in b.size && b.size[NodeOf(b, s)] == s && s >= MIN_LARGE
    {
      NodeFacts(h, b, b.trie, s);
    }
  }

  /** The binned chunks of small sizes are in the marked small bins. */
  lemma SmallSizes(m: seq<Word>, h: Addr, b: Bins, smallmap: bv32, a: Addr)
    requires BinsOk(m, h, b) && SmallMapOk(b, smallmap) && a in b.size && b.size[a] < NSMALLBINS
    ensures Marked(smallmap, b.size[a])
  {
    hide Marked;
    var k := PlaceOf(h, b, a);
    assert Marked(smallmap, b.size[a]) <==> |b.ring[b.size[a]]| > 1;
  }

  /** No bin from idx up is marked: no small binned chunk has idx words. */
  lemma NoSmallFit(m: seq<Word>, h: Addr, b: Bins, smallmap: bv32, idx: nat)
    requires BinsOk(m, h, b) && SmallMapOk(b, smallmap) && idx < NSMALLBINS && ShiftDown(smallmap, Index(idx)) == 0
    ensures forall a :: a in b.size && b.size[a] < NSMALLBINS ==> b.size[a] < idx
  {
    hide Marked, Index, ShiftDown;
    forall a | a in b.size && b.size[a] < NSMALLBINS
      ensures b.size[a] < idx
    {
      SmallSizes(m, h, b, smallmap, a);
      NoneFrom(smallmap, idx, b.size[a]);
    }
  }

  /** No treebin is marked: no large chunk is binned. */
  lemma NoTreeFit(m: seq<Word>, h: Addr, b: Bins)
    requires BinsOk(m, h, b) && TreeMapOk(b, 0)
    ensures forall a :: a in b.size ==> b.size[a] < MIN_LARGE
  {
    hide Bin, Marked;
    forall a | a in b.size
      ensures b.size[a] < MIN_LARGE
    {
      if b.size[a] >= MIN_LARGE {
        TreeSizes(m, h, b);
        RootUnder(b.trie, b.size[a]);
        NothingMarked(Bin(b.size[a]));
      }
    }
  }

  /** The lowest marked treebin. */
  lemma FirstTree(m: seq<Word>, h: Addr, b: Bins, treemap: bv32, nb: nat)
    requires BinsOk(m, h, b) && TreeMapOk(b, treemap) && treemap != 0 && 0 < nb < NSMALLBINS
    ensures |b.trie.root| == NTREEBINS
    ensures var i := FirstMarked(treemap);
      && i < NTREEBINS && TreeBin(h, i) < |m|
      && b.trie.root[i] >= nb && b.trie.root[i] != 0
      && SubtreeAt(b, b.trie.root[i], m[TreeBin(h, i)])
      && LeftmostWalk(b.trie, nb, i, b.trie.root[i], 0)
      && forall j :: 0 <= j < i ==> b.trie.root[j] == 0
  {
    hide Marked, Bin, FirstMarked;
    var i := FirstMarked(treemap);
    FirstMarkedIsLeast(treemap, 0);
    RootOf(m, h, b, treemap, i);
    ContinueInBin(b.trie, nb, i);
    assert RootOk(b.trie, i);
    forall j | 0 <= j < i
      ensures b.trie.root[j] == 0
    {
      FirstMarkedIsLeast(treemap, j);
      RootOf(m, h, b, treemap, j);
    }
  }

  /** The first node looked at is taken, if it is big enough. */
  lemma RootPreferred(nb: nat, q: nat)
    requires 0 < nb <= q < WORD_LIMIT
    ensures SubWords(q, nb) == Remainder(nb, q) < Remainder(nb, 0) && Better(nb, 0, q) == q
  {
  }

  lemma FirstBest(m: seq<Word>, h: Addr, b: Bins, treemap: bv32, nb: nat, sv: nat)
    requires BinsOk(m, h, b) && TreeMapOk(b, treemap) && treemap != 0 && 0 < nb < NSMALLBINS
    requires var i := FirstMarked(treemap);
      && i < NTREEBINS && |b.trie.root| == NTREEBINS
      && (forall j :: 0 <= j < i ==> b.trie.root[j] == 0)
      && LeftmostWalk(b.trie, nb, i, 0, sv) && sv != 0 && TreeSize(sv) && Bin(sv) == i
    ensures BestFit(b.trie, nb, sv)
  {
    FoundInFirstBin(b.trie, nb, FirstMarked(treemap), sv);
  }

  /** The wrapped comparison of remainders takes the tree chunk exactly when it fits tighter than dv. */
  lemma FitOrNone(m: seq<Word>, h: Addr, b: Bins, nb: nat, dvsize: nat, sv: nat, v: Addr)
    requires BinsOk(m, h, b) && BestFit(b.trie, nb, sv) && TreeSize(nb) && dvsize < WORD_LIMIT
    requires if sv == 0 then v == 0 else AtNode(b, sv, v)
    ensures v == 0 <==> sv == 0
    ensures v != 0 ==> sv >= nb && Remainder(nb, sv) == sv - nb
    ensures var taken := v != 0 && Remainder(nb, sv) < SubWords(dvsize, nb);
      && (taken <==> sv != 0 && (nb <= dvsize ==> sv < dvsize))
      && (!taken ==> forall s :: s in b.trie.node && s >= nb ==> nb <= dvsize <= s)
  {
    if sv != 0 {
      ReadNode(m, h, b, sv, v);
    }
  }

  /** With the marks of bins nb and nb + 1 clear, no chunk of exactly these sizes is binned. */
  lemma NoExact(m: seq<Word>, h: Addr, b: Bins, smallmap: bv32, nb: nat)
    requires BinsOk(m, h, b) && SmallMapOk(b, smallmap) && nb < NSMALLBINS && !LowTwo(ShiftDown(smallmap, Index(nb)))
    ensures forall a :: a in b.size ==> b.size[a] != nb && (b.size[a] == nb + 1 ==> nb + 1 >= NSMALLBINS)
  {
    hide Marked, Index, ShiftDown, LowTwo;
    ExactBinMarked(smallmap, nb);
    forall a | a in b.size
      ensures b.size[a] != nb && (b.size[a] == nb + 1 ==> nb + 1 >= NSMALLBINS)
    {
      if b.size[a] < NSMALLBINS {
        SmallSizes(m, h, b, smallmap, a);
      }
    }
  }

  /** The exact bin is the first bin from nb up that holds a chunk. */
  lemma ExactIsTightest(m: seq<Word>, h: Addr, b: Bins, smallmap: bv32, nb: nat, p: Addr)
    requires BinsOk(m, h, b) && SmallMapOk(b, smallmap) && MIN_CHUNK <= nb < NSMALLBINS
    requires LowTwo(ShiftDown(smallmap, Index(nb)))
    requires p in b.size && b.size[p] == ExactBin(smallmap, nb)
    ensures TightestBinned(b.size, nb, p)
  {
    hide Marked, Index, ShiftDown, HasBit;
    ExactBinMarked(smallmap, nb);
    forall a | a in b.size && b.size[a] >= nb
      ensures b.size[p] <= b.size[a]
    {
      if b.size[a] == nb {
        SmallSizes(m, h, b, smallmap, a);
        ExactBinFirst(smallmap, nb);
      }
    }
  }

  lemma NextIsTightest(m: seq<Word>, h: Addr, b: Bins, smallmap: bv32, nb: nat)
    requires BinsOk(m, h, b) && SmallMapOk(b, smallmap) && MIN_CHUNK <= nb < NSMALLBINS
    requires !LowTwo(ShiftDown(smallmap, Index(nb))) && ShiftDown(smallmap, Index(nb)) != 0
    ensures var left := BinsAbove(ShiftDown(smallmap, Index(nb)), nb);
      && left != 0
      && nb < FirstMarked(left) < NSMALLBINS && Marked(smallmap, FirstMarked(left))
      && forall p :: p in b.size && b.size[p] == FirstMarked(left) ==> TightestBinned(b.size, nb, p)
  {
    hide Marked, Index, ShiftDown, HasBit, BinsAbove, FirstMarked;
    ExactBinMarked(smallmap, nb);
    SomeAbove(smallmap, nb);
    var left := BinsAbove(ShiftDown(smallmap, Index(nb)), nb);
    var i := FirstMarked(left);
    FirstMarkedIsLeast(left, 0);
    MarkedAboveShifted(smallmap, nb, i);
    forall a | a in b.size && b.size[a] >= nb
      ensures i <= b.size[a]
    {
      if b.size[a] < i {
        SmallSizes(m, h, b, smallmap, a);
        MarkedAboveShifted(smallmap, nb, b.size[a]);
        FirstMarkedIsLeast(left, b.size[a]);
      }
    }
  }

  /** A best fit of the trees is a tightest fit of the bins when no small bin can serve. */
  lemma TreeIsTightest(m: seq<Word>, h: Addr, b: Bins, nb: nat, p: Addr)
    requires BinsOk(m, h, b) && p in b.size && BestFit(b.trie, nb, b.size[p])
    requires forall a :: a in b.size && b.size[a] < NSMALLBINS ==> b.size[a] < nb
    ensures TightestBinned(b.size, nb, p)
  {
    TreeSizes(m, h, b);
    assert Placed(h, b, p);
  }

  lemma SmallBelow(nb: nat, b: Bins)
    requires nb >= MIN_LARGE
    ensures forall a :: a in b.size && b.size[a] < NSMALLBINS ==> b.size[a] < nb
  {
  }

  lemma BinOfSize(n: nat)
    requires n < WORD_LIMIT
    ensures Bin(n) == OfSize(8 * n)
  {
  }

  /** Writing the tree words of a chunk that is in no bin. */
  lemma NewChunkWritten(m: seq<Word>, m': seq<Word>, h: Addr, b: Bins, x: Addr, n: nat)
    requires BinsOk(m, h, b) && Insertable(m, h, b, x, n) && n >= MIN_LARGE
    requires SameExcept(m, m', {x + INDEX, x + CHILD0, x + CHILD1, x + PARENT})
    ensures BinsOk(m', h, b) && Insertable(m', h, b, x, n) && BinWrites(m, m', h, b.size[x := n])
  {
    hide Bin, SizeOf;
    NotBinned(m, h, b, x, n);
    forall a | a in b.size
      ensures a + b.size[a] <= x || x + n <= a
    {
      assert Beside(b, a, x, n);
    }
    KeepBins(m, m', h, b, x, n);
    assert x in b.size[x := n];
  }

  lemma TreeMapKept(b: Bins, b': Bins, treemap: bv32)
    requires TreeMapOk(b, treemap) && b'.trie.root == b.trie.root
    ensures TreeMapOk(b', treemap)
  {
    forall i | 0 <= i < NTREEBINS
      ensures Marked(treemap, i) <==> b'.trie.root[i] != 0
    {
    }
  }

  lemma TreeMapMarked(b: Bins, b': Bins, treemap: bv32, i: nat, s: nat)
    requires TreeMapOk(b, treemap) && i < NTREEBINS && b'.trie.root == b.trie.root[i := s] && s != 0
    ensures TreeMapOk(b', Mark(treemap, i))
  {
    hide Marked, Mark;
    forall j | 0 <= j < NTREEBINS
      ensures Marked(Mark(treemap, i), j) <==> b'.trie.root[j] != 0
    {
      MarkedAfterMark(treemap, i, j);
      assert Marked(treemap, j) ==> b.trie.root[j] != 0;
    }
  }

  lemma SmallMapKept(b: Bins, b': Bins, smallmap: bv32)
    requires SmallMapOk(b, smallmap)
    requires forall i :: 0 <= i < NSMALLBINS && i in b.ring ==> i in b'.ring && b'.ring[i] == b.ring[i]
    ensures SmallMapOk(b', smallmap)
  {
    forall i | 0 <= i < NSMALLBINS
      ensures i in b'.ring && (Marked(smallmap, i) <==> |b'.ring[i]| > 1)
    {
      assert Marked(smallmap, i) ==> |b.ring[i]| > 1;
    }
  }
}
