/** A malloc space over one fixed segment. */
module Mspaces {
  import opened Shift
  import opened TreeIndex
  import opened BitOps
  import opened BinMap
  import opened SizeTrie
  import opened TrieSearch
  import opened Words
  import opened Outcomes
  import opened Rings
  import opened Bins
  import opened BinInsert
  import opened BinTrees
  import opened BinRemove
  import opened TreeWalks
  import opened Tiling
  import opened Heap
  import opened Alignment
  import opened BinFacts
  import opened HeapFacts

  class Mspace {
    const mem: array<Word>
    const h: Addr
    const hi: nat           // the byte address where top ends
    const leastAddr: nat    // a byte address
    var smallmap: bv32
    var treemap: bv32
    var dvsize: nat
    var topsize: nat        // in bytes: the segment may end anywhere in a word
    var dv: Addr
    var top: Addr
    var trimCheck: Word
    var releaseChecks: Word
    ghost var g: Chunks
    ghost var b: Bins

    predicate OkAddress(a: Addr)
    {
      8 * a >= leastAddr
    }

    ghost predicate BinsValid()
      reads this, mem
    {
      && mem.Length <= WORD_LIMIT
      && leastAddr <= 8 * h
      && BinsOk(mem[..], h, b)
      && SmallMapOk(b, smallmap)
      && TreeMapOk(b, treemap)
    }

    /** Heads, feet and bins agree; binned chunks are free chunks. */
    ghost predicate Heaped()
      reads this, mem
    {
      && BinsValid()
      && HeapOk(mem[..], First(h), g, top, topsize)
      && AllFree(g, b.size)
    }

    /** What ties the free chunks to dv and the bins, and top to the end of the segment. */
    ghost predicate Links(loose: Addr)
      reads this
    {
      && DvOk(g, b, dv, dvsize)
      && FreeIsBinned(g, b, dv, loose)
      && 8 * top + topsize == hi
      && topsize > 0
    }

    /** The low bits of the size of top leave its head marked free. */
    ghost predicate TopReadsFree()
    {
      hi % 4 < 2
    }

    /** The space without its memory. */
    ghost function Layout(): Space
      reads this
    {
      Space(g, b.size, b.ring, dv, dvsize, top, topsize, trimCheck, releaseChecks)
    }

    /** The invariant of every run. */
    ghost predicate Valid()
      reads this, mem
    {
      Heaped() && Links(0)
    }

    // -------------------------------------------------------------------------
    // Operations on smallbins

    /** Link p in between the neighbours front and f of a list. */
    method LinkBetween(front: Addr, f: Addr, p: Addr)
      requires front + 4 <= mem.Length <= WORD_LIMIT && f + 4 <= mem.Length && p + 4 <= mem.Length
      requires Rings.Clear(front, p) && Rings.Clear(f, p) && (front == f || Rings.Clear(front, f))
      modifies mem
      ensures SameExcept(old(mem[..]), mem[..], {front + FD, f + BK, p + FD, p + BK})
      ensures mem[front + FD] == p && mem[f + BK] == p && mem[p + FD] == f && mem[p + BK] == front
    {
      mem[front + FD] := p;
      mem[f + BK] := p;
      mem[p + FD] := f;
      mem[p + BK] := front;
    }

    /** insert_small_chunk */
    method InsertSmallChunk(p: Addr, n: nat)
      requires BinsValid() && Insertable(mem[..], h, b, p, n) && n < NSMALLBINS
      modifies `smallmap, `b, mem
      ensures BinsValid() && n in old(b).ring && |old(b).ring[n]| > 0 && b == Chained(old(b), p, n)
      ensures BinWrites(old(mem[..]), mem[..], h, b.size)
    {
      hide BinsOk, Insertable, SizeOf, BinWrites, Marked, Mark;
      ghost var m := mem[..];
      SmallRing(m, h, b, n);
      ghost var r := b.ring[n];
      InsertBounds(m, h, b, p, n);
      InsertClear(m, h, b, p, n);
      var bin := SmallBin(h, n);
      var f := bin;
      if !Marked(smallmap, n) {
        smallmap := Mark(smallmap, n);
      } else if OkAddress(mem[bin + FD]) {
        f := mem[bin + FD];
      } else {
        assert false;
      }
      assert f == Succ(r, 0);
      LinkBetween(bin, f, p);
      assert LinkedIn(m, mem[..], r, p);
      ChainedWrites(m, mem[..], h, b, p, n);
      OkChained(m, mem[..], h, b, p, n);
      SmallMapChained(b, old(smallmap), p, n);
      assert TreeMapOk(Chained(b, p, n), treemap);
      b := Chained(b, p, n);
    }

    /** Join the neighbours f and bk of a chunk taken out of a list. */
    method Join(f: Addr, bk: Addr)
      requires f + 4 <= mem.Length <= WORD_LIMIT && bk + 4 <= mem.Length
      requires f == bk || Rings.Clear(f, bk)
      modifies mem
      ensures SameExcept(old(mem[..]), mem[..], {bk + FD, f + BK})
      ensures mem[f + BK] == bk && mem[bk + FD] == f
    {
      mem[f + BK] := bk;
      mem[bk + FD] := f;
    }

    /** unlink_small_chunk */
    method UnlinkSmallChunk(p: Addr, n: nat)
      requires BinsValid() && p in b.size && n == b.size[p] < NSMALLBINS
      modifies `smallmap, `b, mem
      ensures BinsValid() && b.size == old(b).size - {p} && b.trie == old(b).trie && b.ring == TakenOut(old(b).ring, n, p)
      ensures BinWrites(old(mem[..]), mem[..], h, old(b).size)
    {
      hide BinsOk, SizeOf, BinWrites, Marked, BinMap.Clear;
      ghost var m := mem[..];
      ghost var k := Neighbours(m, h, b, p);
      ghost var r := b.ring[n];
      var bin := SmallBin(h, n);
      var f := mem[p + FD];
      var bk := mem[p + BK];
      if f == bk {
        smallmap := BinMap.Clear(smallmap, n);
        OkEmptied(m, h, b, n);
        NoWrites(m, h, b.size);
      } else if (f == bin || OkAddress(f)) && (bk == bin || OkAddress(bk)) {
        Join(f, bk);
        assert Unlinking(m, mem[..], h, b, n, k);
        UnlinkingWrites(m, mem[..], h, b, n, k);
        OkUnchained(m, mem[..], h, b, n, k);
      } else {
        assert false;
      }
      SmallMapUnchained(b, old(smallmap), n, k);
      UnchainedLists(b, n, k);
      b := Unchained(b, n, k);
    }

    /** unlink_first_small_chunk */
    method UnlinkFirstSmallChunk(i: nat) returns (p: Addr)
      requires BinsValid() && i < NSMALLBINS && Marked(smallmap, i)
      modifies `smallmap, `b, mem
      ensures p in old(b).size && old(b).size[p] == i && FirstOfBin(old(b), p)
      ensures b.ring == TakenOut(old(b).ring, i, p)
      ensures BinsValid() && b.size == old(b).size - {p} && b.trie == old(b).trie
      ensures BinWrites(old(mem[..]), mem[..], h, old(b).size)
    {
      hide BinsOk, SizeOf, BinWrites, Marked, BinMap.Clear;
      ghost var m := mem[..];
      SmallRing(m, h, b, i);
      ghost var r := b.ring[i];
      FirstOf(m, h, b, i);
      RingFacts(m, h, b, i);
      UnchainedLists(b, i, 1);
      var bin := SmallBin(h, i);
      p := mem[bin + FD];
      var f := mem[p + FD];
      if bin == f {
        smallmap := BinMap.Clear(smallmap, i);
        OkEmptied(m, h, b, i);
        NoWrites(m, h, b.size);
      } else if OkAddress(f) {
        Join(f, bin);
        assert Unlinking(m, mem[..], h, b, i, 1);
        UnlinkingWrites(m, mem[..], h, b, i, 1);
        OkUnchained(m, mem[..], h, b, i, 1);
      } else {
        assert false;
      }
      SmallMapUnchained(b, old(smallmap), i, 1);
      b := Unchained(b, i, 1);
    }

    // -------------------------------------------------------------------------
    // Operations on trees

    /** The walk of insert_large_chunk: to the node of size n, or to the null child word where n belongs. */
    method FindPlace(n: nat) returns (t: Addr, c: Addr, ghost q: nat)
      requires BinsValid() && TreeSize(n) && Marked(treemap, Bin(n))
      ensures AtNode(b, q, t) && OnPath(b.trie, q, n) && t + 8 <= mem.Length && SizeOf(mem[t + HEAD]) == q
      ensures q != n ==>
        && n !in b.trie.node
        && b.trie.node[q].level > 0
        && b.trie.node[q].Child(Shr(n, b.trie.node[q].level - 1) % 2) == 0
        && c == t + CHILD0 + Shr(n, b.trie.node[q].level - 1) % 2
    {
      hide BinsOk, SizeOf, Bin, TrieOk, Marked, OnPath, Probe, Shl64;
      ghost var m := mem[..];
      ReadRoot(m, h, b, Bin(n));
      WalkStart(m, h, b, n);
      q := b.trie.root[Bin(n)];
      t := mem[TreeBin(h, Bin(n))];
      c := 0;
      var kb: nat := Shl64(8 * n, LeftShift(Bin(n)));
      ReadNode(m, h, b, q, t);
      while SizeOf(mem[t + HEAD]) != n
        invariant WalkingTo(b, n, q, t, kb)
        invariant t + 8 <= mem.Length && SizeOf(mem[t + HEAD]) == q && t != 0
        decreases b.trie.node[q].level
      {
        WalkStep(m, h, b, n, q, t, kb);
        ghost var bit := Shr(kb, 63) % 2;
        c := t + CHILD0 + Shr(kb, 63) % 2;
        kb := kb * 2 % TWO64;
        if mem[c] != 0 {
          t := mem[c];
          q := b.trie.node[q].Child(bit);
          ReadNode(m, h, b, q, t);
        } else {
          return;
        }
      }
    }

    /** A chunk that becomes a tree node: in a treebin when q is 0, else under the node of size q at t. */
    method Hang(x: Addr, n: nat, slot: Addr, parent: Addr, ghost q: nat, ghost bit: nat)
      requires BinsOk(mem[..], h, b) && mem.Length <= WORD_LIMIT
      requires Insertable(mem[..], h, b, x, n) && n >= MIN_LARGE && n !in b.trie.node
      requires bit < 2 && (q == 0 || q in b.trie.node)
      requires slot == Slot(h, b, n, q, bit) && parent == (if q == 0 then TreeBin(h, Bin(n)) else NodeOf(b, q))
      requires parent < mem.Length && slot < mem.Length && x + 8 <= mem.Length && (slot < x || x + 8 <= slot)
      requires mem[x + INDEX] == Bin(n) && mem[x + CHILD0] == 0 && mem[x + CHILD1] == 0
      modifies mem
      ensures Hung(old(mem[..]), mem[..], h, b, x, n, q, bit)
    {
      hide BinsOk, Insertable, SizeOf, Bin, SmallMapOk, TreeMapOk, Slot;
      mem[slot] := x;
      mem[x + PARENT] := parent;
      mem[x + FD] := x;
      mem[x + BK] := x;
    }

    /** The first chunk of a treebin. */
    method PlantRoot(x: Addr, n: nat)
      requires BinsValid() && Insertable(mem[..], h, b, x, n) && n >= MIN_LARGE && !Marked(treemap, Bin(n))
      requires x + 8 <= mem.Length && mem[x + INDEX] == Bin(n) && mem[x + CHILD0] == 0 && mem[x + CHILD1] == 0
      modifies `treemap, `b, mem
      ensures BinsValid() && b.size == old(b).size[x := n] && b.ring == PutIn(old(b).ring, n, x)
      ensures BinWrites(old(mem[..]), mem[..], h, b.size)
    {
      hide BinsOk, SizeOf, Bin, Marked, Mark, BinWrites, Hung, TrieOk, RootLevel;
      ghost var m := mem[..];
      var i := Bin(n);
      ReadRoot(m, h, b, i);
      NoRoot(m, h, b, n);
      treemap := Mark(treemap, i);
      Hang(x, n, TreeBin(h, i), TreeBin(h, i), 0, 0);
      OkNewRoot(m, mem[..], h, b, x, n);
      HungWrites(m, mem[..], h, b, x, n, 0, 0);
      ghost var b' := Planted(b, x, n, AddRoot(b.trie, n));
      TreeMapMarked(b, b', old(treemap), i, n);
      SmallMapKept(b, b', smallmap);
      NewSize(m, h, b, n);
      b := b';
    }

    /** A new leaf where the walk for size n ended. */
    method PlantLeaf(x: Addr, n: nat, t: Addr, c: Addr, ghost q: nat)
      requires BinsValid() && Insertable(mem[..], h, b, x, n) && n >= MIN_LARGE
      requires x + 8 <= mem.Length && mem[x + INDEX] == Bin(n) && mem[x + CHILD0] == 0 && mem[x + CHILD1] == 0
      requires AtNode(b, q, t) && OnPath(b.trie, q, n) && n !in b.trie.node && b.trie.node[q].level > 0
      requires b.trie.node[q].Child(Shr(n, b.trie.node[q].level - 1) % 2) == 0
      requires c == t + CHILD0 + Shr(n, b.trie.node[q].level - 1) % 2
      modifies `b, mem
      ensures BinsValid() && b.size == old(b).size[x := n] && b.ring == PutIn(old(b).ring, n, x)
      ensures BinWrites(old(mem[..]), mem[..], h, b.size)
    {
      hide BinsOk, SizeOf, Bin, Marked, BinWrites, Hung, TrieOk, RootLevel, Shr, OnPath;
      ghost var m := mem[..];
      ghost var bit := Shr(n, b.trie.node[q].level - 1) % 2;
      ReadNode(m, h, b, q, t);
      SlotBeside(m, h, b, x, n, q, t);
      Hang(x, n, c, t, q, bit);
      OkNewLeaf(m, mem[..], h, b, x, n, q);
      HungWrites(m, mem[..], h, b, x, n, q, bit);
      ghost var b' := Planted(b, x, n, AddLeaf(b.trie, n, q));
      TreeMapKept(b, b', treemap);
      SmallMapKept(b, b', smallmap);
      NewSize(m, h, b, n);
      b := b';
    }

    /** One more chunk of a size that has a tree node. */
    method PlantMate(x: Addr, n: nat, t: Addr)
      requires BinsValid() && Insertable(mem[..], h, b, x, n) && n >= MIN_LARGE && AtNode(b, n, t)
      requires x + 8 <= mem.Length && mem[x + INDEX] == Bin(n) && mem[x + CHILD0] == 0 && mem[x + CHILD1] == 0
      modifies `b, mem
      ensures BinsValid() && b.size == old(b).size[x := n] && b.ring == PutIn(old(b).ring, n, x)
      ensures BinWrites(old(mem[..]), mem[..], h, b.size)
    {
      hide BinsOk, Insertable, SizeOf, Bin, Marked, BinWrites, TrieOk, SmallMapOk, TreeMapOk, Within, Distinct, LinkedIn;
      ghost var m := mem[..];
      ReadNode(m, h, b, n, t);
      TreeRing(m, h, b, n, t);
      InsertBounds(m, h, b, x, n);
      var f := mem[t + FD];
      if OkAddress(t) && OkAddress(f) {
        mem[x + PARENT] := 0;
        ghost var m1 := mem[..];
        NewChunkWritten(m, m1, h, b, x, n);
        WithinKept(m, m1, b.ring[n]);
        LinkMate(t, f, x, n);
        WritesCompose(m, m1, mem[..], h, b.size);
      } else {
        assert false;
      }
    }

    /** The chunk x is linked into the list of its size, between the tree node t and its next chunk f. */
    method LinkMate(t: Addr, f: Addr, x: Addr, ghost n: nat)
      requires BinsValid() && Insertable(mem[..], h, b, x, n) && n >= MIN_LARGE && Mate(mem[..], x, n) && x + 4 <= mem.Length
      requires n in b.ring && |b.ring[n]| > 0 && t == b.ring[n][0] && f == Succ(b.ring[n], 0) && Within(mem[..], b.ring[n])
      modifies `b, mem
      ensures BinsValid() && b == Chained(old(b), x, n) && BinWrites(old(mem[..]), mem[..], h, b.size)
    {
      hide BinsOk, Insertable, SizeOf, Bin, Marked, BinWrites, TrieOk, SmallMapOk, TreeMapOk, LinkedIn, Mate;
      ghost var m := mem[..];
      InsertClear(m, h, b, x, n);
      LinkBetween(t, f, x);
      Relinked(m, m, mem[..], b.ring[n], x);
      OkChained(m, mem[..], h, b, x, n);
      ChainedWrites(m, mem[..], h, b, x, n);
      MapsChained(b, x, n, smallmap, treemap);
      b := Chained(b, x, n);
    }

    /** insert_large_chunk */
    method InsertLargeChunk(x: Addr, n: nat)
      requires BinsValid() && Insertable(mem[..], h, b, x, n) && n >= MIN_LARGE
      modifies `treemap, `b, mem
      ensures BinsValid() && b.size == old(b).size[x := n] && b.ring == PutIn(old(b).ring, n, x)
      ensures BinWrites(old(mem[..]), mem[..], h, b.size)
    {
      hide BinsOk, SizeOf, Bin, Marked, OnPath, BinWrites, Shr, OfSizeBranchFree;
      ghost var m := mem[..];
      InsertBounds(m, h, b, x, n);
      BranchFreeIsOfSize(8 * n);
      BinOfSize(n);
      var i := OfSizeBranchFree(8 * n);
      mem[x + INDEX] := i;
      mem[x + CHILD0] := 0;
      mem[x + CHILD1] := 0;
      ghost var m1 := mem[..];
      NewChunkWritten(m, m1, h, b, x, n);
      if !Marked(treemap, i) {
        PlantRoot(x, n);
      } else {
        var t, c;
        ghost var q;
        t, c, q := FindPlace(n);
        if SizeOf(mem[t + HEAD]) != n {
          if OkAddress(c) {
            PlantLeaf(x, n, t, c, q);
          } else {
            NodeAddress(m1, h, b, q, t);
            assert false;
          }
        } else {
          PlantMate(x, n, t);
        }
      }
      WritesCompose(m, m1, mem[..], h, b.size);
    }

    /** The rightmost leaf below x, and the word it hangs from. */
    method FindLeaf(x: Addr, ghost n: nat) returns (r: Addr, rp: Addr, ghost s: nat)
      requires BinsValid() && AtNode(b, n, x) && x + 8 <= mem.Length
      ensures r == 0 <==> b.trie.node[n].IsLeaf()
      ensures r != 0 ==> Below(h, b, n, s, r, rp) && b.trie.node[s].IsLeaf() && rp < mem.Length
    {
      hide BinsOk, Bin, TrieOk, Below, SmallMapOk, TreeMapOk;
      ghost var m := mem[..];
      ReadNode(m, h, b, n, x);
      rp := x + CHILD1;
      r := mem[rp];
      s := b.trie.node[n].right;
      if r == 0 {
        rp := x + CHILD0;
        r := mem[rp];
        s := b.trie.node[n].left;
      }
      if r != 0 {
        BelowStart(m, h, b, n, x, if s == b.trie.node[n].right then 1 else 0);
        BelowNode(h, b, n, s, r, rp);
        ReadNode(m, h, b, s, r);
        var cp := if mem[r + CHILD1] != 0 then r + CHILD1 else r + CHILD0;
        while mem[cp] != 0
          invariant Below(h, b, n, s, r, rp) && AtNode(b, s, r) && r != 0 && r + 8 <= mem.Length && rp < mem.Length
          invariant cp == if mem[r + CHILD1] != 0 then r + CHILD1 else r + CHILD0
          decreases b.trie.node[s].level
        {
          ReadNode(m, h, b, s, r);
          ghost var bit := if b.trie.node[s].right != 0 then 1 else 0;
          BelowStep(m, h, b, n, s, r, rp, bit);
          rp := cp;
          r := mem[rp];
          s := b.trie.node[s].Child(bit);
          BelowNode(h, b, n, s, r, rp);
          ReadNode(m, h, b, s, r);
          cp := if mem[r + CHILD1] != 0 then r + CHILD1 else r + CHILD0;
        }
        ReadNode(m, h, b, s, r);
      }
    }

    /** The word that pointed to the tree node x now holds r; an emptied treebin is unmarked. */
    method SetHook(x: Addr, xp: Addr, r: Addr, ghost n: nat, ghost t: Trie)
      requires mem.Length <= WORD_LIMIT && leastAddr <= 8 * h && r < mem.Length
      requires PartOf(h, b, t) && TreesLinked(mem[..], h, b.(trie := t)) && n in t.node && n < WORD_LIMIT
      requires x == NodeOf(b, n) && x + 8 <= mem.Length && xp == mem[x + PARENT]
      modifies mem, `treemap
      ensures Hook(h, b, t, n) < mem.Length && SameExcept(old(mem[..]), mem[..], {Hook(h, b, t, n)})
      ensures mem[Hook(h, b, t, n)] == r
      ensures treemap == if r == 0 && t.node[n].up == 0 then BinMap.Clear(old(treemap), Bin(n)) else old(treemap)
    {
      hide Bin, Side, Hook, TreesLinked, PartOf, BinMap.Clear;
      HookRead(mem[..], h, b, t, n);
      var i := mem[x + INDEX];
      var hd := TreeBin(h, i);
      if x == mem[hd] {
        mem[hd] := r;
        if r == 0 {
          treemap := BinMap.Clear(treemap, i);
        }
      } else if OkAddress(xp) {
        if mem[xp + CHILD0] == x {
          mem[xp + CHILD0] := r;
        } else {
          mem[xp + CHILD1] := r;
        }
      } else {
        assert false;
      }
    }

    /** The child of x on one side, if any, becomes the child of r. */
    method AdoptChild(x: Addr, r: Addr, bit: nat)
      requires mem.Length <= WORD_LIMIT && leastAddr <= 8 * h && bit < 2 && x + 8 <= mem.Length && r + 8 <= mem.Length
      requires var c := mem[x + CHILD0 + bit]; c != 0 ==> h <= c && c + 8 <= mem.Length && Far(c, r)
      modifies mem
      ensures var c := old(mem[x + CHILD0 + bit]); c + 8 <= mem.Length && Adopted(old(mem[..]), mem[..], c, r, bit)
    {
      var c := mem[x + CHILD0 + bit];
      if c != 0 {
        if OkAddress(c) {
          mem[r + CHILD0 + bit] := c;
          mem[c + PARENT] := r;
        } else {
          assert false;
        }
      }
    }

    ghost predicate Adoptable(c: Addr, x: Addr, r: Addr)
    {
      c + 8 <= mem.Length && (c != 0 ==> h <= c && Far(c, r) && Far(x, c))
    }

    /** The parent and the children of x become those of r. */
    method Inherit(x: Addr, xp: Word, r: Addr) returns (ghost m1: seq<Word>, ghost m2: seq<Word>)
      requires mem.Length <= WORD_LIMIT && leastAddr <= 8 * h && x + 8 <= mem.Length && r + 8 <= mem.Length && Far(x, r)
      requires Adoptable(mem[x + CHILD0], x, r) && Adoptable(mem[x + CHILD1], x, r)
      modifies mem
      ensures |m1| == |m2| == mem.Length
      ensures SameExcept(old(mem[..]), m1, {r + PARENT}) && m1[r + PARENT] == xp
      ensures var c := old(mem[x + CHILD0]); c + 8 <= mem.Length && Adopted(m1, m2, c, r, 0)
      ensures var c := old(mem[x + CHILD1]); c + 8 <= mem.Length && Adopted(m2, mem[..], c, r, 1)
    {
      mem[r + PARENT] := xp;
      m1 := mem[..];
      AdoptChild(x, r, 0);
      m2 := mem[..];
      AdoptChild(x, r, 1);
    }

    /** The chunk r takes the place of the tree node x: its hook, its parent and its children. */
    method TakePlace(x: Addr, xp: Addr, r: Addr, ghost n: nat, ghost t: Trie)
      requires mem.Length <= WORD_LIMIT && leastAddr <= 8 * h
      requires Movable(mem[..], h, b, t, n, r) && x == NodeOf(b, n) && x + 8 <= mem.Length && xp == mem[x + PARENT]
      modifies mem, `treemap
      ensures Moved(old(mem[..]), mem[..], h, b, t, n, r)
      ensures treemap == old(treemap)
    {
      hide Bin, Side, Hook, TreesLinked, PartOf, Adopted, SameExcept, Moved;
      ghost var m := mem[..];
      HookRead(m, h, b, t, n);
      MoveApart(m, h, b, t, n, r);
      hide Movable, NodeOf;
      SetHook(x, xp, r, n, t);
      ghost var m1 := mem[..];
      HookClear(m, m1, Hook(h, b, t, n), x);
      if OkAddress(r) {
        ghost var m2, m3 := Inherit(x, xp, r);
        MovedInSteps(m, m1, m2, m3, mem[..], h, b, t, n, r);
      } else {
        assert false;
      }
    }

    /** unlink_large_chunk when other chunks of the size stay. */
    method UnchainLarge(x: Addr, xp: Addr, ghost n: nat, ghost k: nat)
      requires BinsValid() && x in b.size && n == b.size[x] >= MIN_LARGE && x + 8 <= mem.Length && xp == mem[x + PARENT]
      requires n in b.ring && 1 < |b.ring[n]| && k < |b.ring[n]| && b.ring[n][k] == x
      requires Within(mem[..], b.ring[n]) && mem[x + FD] == Succ(b.ring[n], k) && mem[x + BK] == Pred(b.ring[n], k)
      requires h <= Succ(b.ring[n], k)
      requires Succ(b.ring[n], k) == Pred(b.ring[n], k) || Rings.Clear(Succ(b.ring[n], k), Pred(b.ring[n], k))
      modifies `treemap, `b, mem
      ensures BinsValid() && b.size == old(b).size - {x} && b.ring == TakenOut(old(b).ring, n, x)
      ensures BinWrites(old(mem[..]), mem[..], h, old(b).size)
    {
      hide BinsOk, SizeOf, Bin, BinWrites, Moved, Movable, SmallMapOk, TreeMapOk, PartOf, TreesLinked;
      ghost var m := mem[..];
      NodeOrMate(m, h, b, x, k);
      var f := mem[x + FD];
      var r := mem[x + BK];
      if OkAddress(f) {
        Join(f, r);
      } else {
        assert false;
      }
      ghost var m1 := mem[..];
      assert Unlinking(m, m1, h, b, n, k);
      UnlinkingWrites(m, m1, h, b, n, k);
      MapsUnchained(b, n, k, smallmap, treemap);
      if xp != 0 {
        ReplacementMovable(m, m1, h, b, n);
        ParentKept(m, m1, h, b, n, x);
        TakePlace(x, xp, r, n, b.trie);
        OkReplaced(m, m1, mem[..], h, b, n);
        MovedBinWrites(m1, mem[..], h, b, b.trie, n, r);
        WritesCompose(m, m1, mem[..], h, b.size);
      } else {
        OkUnchained(m, m1, h, b, n, k);
      }
      RingFacts(m, h, b, n);
      UnchainedLists(b, n, k);
      b := Unchained(b, n, k);
    }

    /** The tree node x, a leaf and the only chunk of its size, is cut off. */
    method CutLeaf(x: Addr, xp: Addr, ghost n: nat)
      requires BinsValid() && AtNode(b, n, x) && n < WORD_LIMIT && x + 8 <= mem.Length && xp == mem[x + PARENT]
      requires n in b.ring && |b.ring[n]| == 1 && b.trie.node[n].IsLeaf()
      modifies `treemap, `b, mem
      ensures BinsValid() && b.size == old(b).size - {x} && b.ring == old(b).ring - {n}
      ensures BinWrites(old(mem[..]), mem[..], h, old(b).size)
    {
      hide BinsOk, SizeOf, Bin, BinWrites, Hook, SmallMapOk, TreeMapOk, PartOf, TreesLinked, Substitute, TrieOk;
      ghost var m := mem[..];
      TreeParts(m, h, b, n);
      SetHook(x, xp, 0, n, b.trie);
      assert Unhooked(m, mem[..], h, b, n);
      OkCutLeaf(m, mem[..], h, b, n);
      UnhookedBinWrites(m, mem[..], h, b, n);
      Substituted(b.trie, n, 0);
      ghost var b' := Uprooted(b, n, Substitute(b.trie, n, 0));
      MapsCut(b, b', n, smallmap, old(treemap));
      b := b';
    }

    /** The leaf r of size s takes the place of the tree node x, the only chunk of its size. */
    method Promote(x: Addr, xp: Addr, r: Addr, rp: Addr, ghost n: nat, ghost s: nat)
      requires BinsValid() && AtNode(b, n, x) && n < WORD_LIMIT && x + 8 <= mem.Length && xp == mem[x + PARENT]
      requires n in b.ring && |b.ring[n]| == 1
      requires Below(h, b, n, s, r, rp) && b.trie.node[s].IsLeaf() && rp < mem.Length
      modifies `treemap, `b, mem
      ensures BinsValid() && b.size == old(b).size - {x} && b.ring == old(b).ring - {n}
      ensures BinWrites(old(mem[..]), mem[..], h, old(b).size)
    {
      hide BinsOk, SizeOf, Bin, BinWrites, Hook, SmallMapOk, TreeMapOk, PartOf, TreesLinked, Substitute, TrieOk, Moved, Movable, Under;
      ghost var m := mem[..];
      ghost var t1 := Substitute(b.trie, s, 0);
      TreeParts(m, h, b, n);
      PromoteFacts(m, h, b, n, s, x);
      if OkAddress(rp) {
        mem[rp] := 0;
      } else {
        assert false;
      }
      ghost var m1 := mem[..];
      assert Unhooked(m, m1, h, b, s);
      LeafMovable(m, m1, h, b, n, s);
      UnhookedBinWrites(m, m1, h, b, s);
      TakePlace(x, xp, r, n, t1);
      OkPromoted(m, m1, mem[..], h, b, n, s);
      MovedBinWrites(m1, mem[..], h, b, t1, n, r);
      WritesCompose(m, m1, mem[..], h, b.size);
      Substituted(b.trie, s, 0);
      Substituted(t1, n, s);
      ghost var b' := Uprooted(b, n, Substitute(t1, n, s));
      MapsPromoted(b, b', t1, n, s, smallmap, treemap);
      b := b';
    }

    /** unlink_large_chunk */
    method UnlinkLargeChunk(x: Addr)
      requires BinsValid() && x in b.size && b.size[x] >= MIN_LARGE
      modifies `treemap, `b, mem
      ensures BinsValid() && b.size == old(b).size - {x} && b.ring == TakenOut(old(b).ring, old(b).size[x], x)
      ensures BinWrites(old(mem[..]), mem[..], h, old(b).size)
    {
      hide BinsOk, SizeOf, Bin, BinWrites, Below, PartOf, TreesLinked;
      ghost var m := mem[..];
      ghost var k := Neighbours(m, h, b, x);
      ghost var n := b.size[x];
      NodeOrMate(m, h, b, x, k);
      ghost var r := b.ring[n];
      SelfLoop(r, k);
      var xp := mem[x + PARENT];
      if mem[x + BK] != x {
        UnchainLarge(x, xp, n, k);
      } else {
        var l, rp;
        ghost var s;
        l, rp, s := FindLeaf(x, n);
        if l != 0 {
          Promote(x, xp, l, rp, n, s);
        } else {
          CutLeaf(x, xp, n);
        }
      }
    }

    // -------------------------------------------------------------------------
    // malloc support

    /** The walk of tmalloc_large along the bits of nb: t is left at the least subtree of sizes above nb. */
    method WalkPath(nb: nat) returns (t: Addr, v: Addr, rsize: nat, ghost q: nat, ghost sv: nat)
      requires BinsValid() && TreeSize(nb) && Marked(treemap, Bin(nb))
      ensures SubtreeAt(b, q, t) && LeftmostWalk(b.trie, nb, Bin(nb), q, sv)
      ensures CandidateAt(b, nb, Bin(nb), sv, v) && sv < WORD_LIMIT && rsize == Remainder(nb, sv)
    {
      hide BinsOk, SizeOf, Bin, TrieOk, Marked, Probe, Shl64, LeftmostWalk, PathWalk, SubWords, Remainder, Better;
      ghost var m := mem[..];
      ReadRoot(m, h, b, Bin(nb));
      SearchStart(m, h, b, nb);
      q := b.trie.root[Bin(nb)];
      t := mem[TreeBin(h, Bin(nb))];
      v, sv := 0, 0;
      NegativeSize(nb);
      rsize := SubWords(0, nb);
      var sizebits: nat := Shl64(8 * nb, LeftShift(Bin(nb)));
      var rst: Addr := 0;
      ghost var sr: nat := 0;
      while true
        invariant WalkingTo(b, nb, q, t, sizebits) && PathWalk(b.trie, nb, q, sr, sv) && SubtreeAt(b, sr, rst)
        invariant CandidateAt(b, nb, Bin(nb), sv, v) && sv < WORD_LIMIT && rsize == Remainder(nb, sv) != 0
        decreases b.trie.node[q].level
      {
        CompareNode(m, h, b, nb, Bin(nb), q, t, sv, v);
        ghost var sv' := Better(nb, sv, q);
        var trem := SubWords(SizeOf(mem[t + HEAD]), nb);
        if trem < rsize {
          v := t;
          rsize := trem;
          if rsize == 0 {
            sv := sv';
            ExactAt(m, h, b, nb, q, sv);
            return;
          }
        }
        SearchStep(m, h, b, nb, q, t, sizebits, sr, rst, sv);
        ghost var c := PathChild(b.trie, nb, q);
        var rt := mem[t + CHILD1];
        t := mem[t + CHILD0 + Shr(sizebits, 63) % 2];
        if rt != 0 && rt != t {
          rst := rt;
        }
        sr := NextUntaken(b.trie, q, c, sr);
        sv := sv';
        if t == 0 {
          t := rst;
          q := sr;
          return;
        }
        q := c;
        sizebits := sizebits * 2 % TWO64;
      }
    }

    /** The walk to the least size of a subtree. */
    method WalkLeftmost(nb: nat, t0: Addr, v0: Addr, rsize0: nat, ghost i: nat, ghost q0: nat, ghost sv0: nat)
      returns (v: Addr, rsize: nat, ghost sv: nat)
      requires BinsValid() && 0 < nb < WORD_LIMIT
      requires SubtreeAt(b, q0, t0) && LeftmostWalk(b.trie, nb, i, q0, sv0)
      requires CandidateAt(b, nb, i, sv0, v0) && sv0 < WORD_LIMIT && rsize0 == Remainder(nb, sv0)
      ensures LeftmostWalk(b.trie, nb, i, 0, sv)
      ensures CandidateAt(b, nb, i, sv, v) && sv < WORD_LIMIT && rsize == Remainder(nb, sv)
      ensures sv0 != 0 || (q0 != 0 && q0 >= nb) ==> sv != 0
    {
      hide BinsOk, SizeOf, Bin, TrieOk, LeftmostWalk, SubWords, Remainder;
      ghost var m := mem[..];
      var t: Addr := t0;
      ghost var q: nat := q0;
      v, rsize, sv := v0, rsize0, sv0;
      while t != 0
        invariant SubtreeAt(b, q, t) && LeftmostWalk(b.trie, nb, i, q, sv)
        invariant CandidateAt(b, nb, i, sv, v) && sv < WORD_LIMIT && rsize == Remainder(nb, sv)
        invariant sv0 != 0 ==> sv != 0
        invariant q0 != 0 && q0 >= nb ==> sv != 0 || q == q0
        decreases if q == 0 then 0 else 1 + b.trie.node[q].level
      {
        LeftmostNode(m, h, b, nb, i, q, t, sv);
        CompareNode(m, h, b, nb, i, q, t, sv, v);
        LeastStep(m, h, b, nb, i, q, t, sv);
        var trem := SubWords(SizeOf(mem[t + HEAD]), nb);
        if trem < rsize {
          rsize := trem;
          v := t;
        }
        sv := Better(nb, sv, q);
        q := b.trie.node[q].Leftmost();
        t := if mem[t + CHILD0] != 0 then mem[t + CHILD0] else mem[t + CHILD1];
      }
      SubtreeNull(m, h, b, q, t);
    }

    /** The search of tmalloc_large: the tightest fit among all tree chunks. */
    method BestLarge(nb: nat) returns (v: Addr, rsize: nat, ghost sv: nat)
      requires BinsValid() && TreeSize(nb)
      ensures BestFit(b.trie, nb, sv) && rsize == Remainder(nb, sv)
      ensures if sv == 0 then v == 0 else AtNode(b, sv, v)
    {
      hide BinsOk, SizeOf, Bin, Marked, BestFit, LeftmostWalk, Remainder, BitsAbove, Index, FirstMarked, OfSizeBranchFree, SubWords, TreeMapOk, TrieOk;
      ghost var m := mem[..];
      BranchFreeIsOfSize(8 * nb);
      BinOfSize(nb);
      var idx := OfSizeBranchFree(8 * nb);
      var t: Addr := 0;
      ghost var q: nat := 0;
      v, sv := 0, 0;
      NegativeSize(nb);
      rsize := SubWords(0, nb);
      RootOf(m, h, b, treemap, idx);
      if mem[TreeBin(h, idx)] != 0 {
        t, v, rsize, q, sv := WalkPath(nb);
      } else {
        NothingInBin(m, h, b, treemap, nb, idx);
      }
      if t == 0 && v == 0 {
        SubtreeNull(m, h, b, q, t);
        SubtreeNull(m, h, b, sv, v);
        var leftbits := BitsAbove(treemap, Index(idx));
        if leftbits != 0 {
          var i := FirstMarked(leftbits);
          LaterBin(m, h, b, treemap, idx, nb);
          t := mem[TreeBin(h, i)];
          q := b.trie.root[i];
          v, rsize, sv := WalkLeftmost(nb, t, 0, rsize, i, q, 0);
          LaterBest(m, h, b, nb, i, sv);
        } else {
          NoLaterBin(m, h, b, treemap, nb);
        }
      } else {
        SubtreeNull(m, h, b, q, t);
        SubtreeNull(m, h, b, sv, v);
        SubtreeFits(m, h, b, nb, idx, q, sv);
        v, rsize, sv := WalkLeftmost(nb, t, v, rsize, idx, q, sv);
        OwnBest(m, h, b, nb, sv);
      }
    }

    // -------------------------------------------------------------------------
    // Bins and heads together

    /** insert_chunk */
    method InsertBinned(p: Addr, n: nat)
      requires BinsValid() && Insertable(mem[..], h, b, p, n) && p !in b.size
      modifies `smallmap, `treemap, `b, mem
      ensures BinsValid() && b.size == old(b).size[p := n] && Layout() == PutBinned(old(Layout()), p, n)
      ensures BinWrites(old(mem[..]), mem[..], h, b.size)
    {
      hide BinsOk, SizeOf, BinWrites, SmallMapOk, TreeMapOk;
      if n < NSMALLBINS {
        InsertSmallChunk(p, n);
      } else {
        InsertLargeChunk(p, n);
      }
    }

    /** insert_chunk of a free chunk of the heap */
    method InsertChunk(p: Addr, n: nat)
      requires Heaped() && p in g && g[p] == Chunk(n, false) && p !in b.size
      modifies `smallmap, `treemap, `b, mem
      ensures Heaped() && b.size == old(b).size[p := n] && Layout() == PutBinned(old(Layout()), p, n)
      ensures PayloadsKept(old(mem[..]), mem[..], g, 0)
    {
      hide BinsOk, SizeOf, HeapOk, AllFree, BinWrites, Insertable, PayloadsKept, SmallMapOk, TreeMapOk;
      ghost var m := mem[..];
      FreeInsertable(m, h, g, top, topsize, b, p);
      AllFreeWith(g, b.size, p);
      InsertBinned(p, n);
      HeapFrame(m, mem[..], h, g, top, topsize, b.size);
    }

    /** unlink_chunk */
    method UnlinkChunk(p: Addr, n: nat)
      requires Heaped() && p in b.size && b.size[p] == n
      modifies `smallmap, `treemap, `b, mem
      ensures Heaped() && b.size == old(b).size - {p} && b.ring == TakenOut(old(b).ring, n, p)
      ensures Layout() == Unbinned(old(Layout()), p)
      ensures PayloadsKept(old(mem[..]), mem[..], g, 0)
    {
      hide BinsOk, SizeOf, HeapOk, AllFree, BinWrites, PayloadsKept, SmallMapOk, TreeMapOk;
      ghost var m := mem[..];
      AllFreeWithout(g, b.size, p);
      if n < NSMALLBINS {
        UnlinkSmallChunk(p, n);
      } else {
        UnlinkLargeChunk(p);
      }
      HeapFrame(m, mem[..], h, g, top, topsize, old(b).size);
    }

    /** set_inuse_and_pinuse of a whole free chunk that is in no bin */
    method UseAll(p: Addr, n: nat)
      requires Heaped() && p in g && g[p] == Chunk(n, false) && p !in b.size
      modifies `g, mem
      ensures Heaped() && g == old(g)[p := Chunk(n, true)]
      ensures PayloadsKept(old(mem[..]), mem[..], old(g), p)
    {
      hide BinsOk, SizeOf, HeapOk, AllFree, PayloadsKept, UsedHead, OrPinuse, SmallMapOk, TreeMapOk;
      ghost var m := mem[..];
      ChunkWithin(m, First(h), g, top, topsize, p);
      BinsBesideHeap(m, h, g, top, topsize, b, p);
      mem[p + HEAD] := UsedHead(n, true);
      mem[p + n + HEAD] := OrPinuse(mem[p + n + HEAD]);
      UsedWhole(m, mem[..], First(h), g, top, topsize, p);
      KeepBins(m, mem[..], h, b, p, n);
      AllFreeKept(g, g[p := Chunk(n, true)], b.size, p);
      g := g[p := Chunk(n, true)];
    }

    /** The first n words of a free chunk put to use; what remains is a free chunk behind them. */
    method UseFirst(p: Addr, n: nat, k: nat) returns (r: Addr)
      requires Heaped() && p in g && g[p] == Chunk(n + k, false) && p !in b.size && n >= MIN_CHUNK && k >= MIN_CHUNK
      modifies `g, mem
      ensures r == p + n && r !in old(g) && r !in b.size
      ensures Heaped() && g == Split(old(g), p, n, true, false)
      ensures PayloadsKept(old(mem[..]), mem[..], old(g), p)
    {
      hide BinsOk, SizeOf, HeapOk, AllFree, PayloadsKept, UsedHead, FreeHead, SmallMapOk, TreeMapOk;
      ghost var m := mem[..];
      ChunkWithin(m, First(h), g, top, topsize, p);
      BinsBesideHeap(m, h, g, top, topsize, b, p);
      mem[p + HEAD] := UsedHead(n, true);
      r := p + n;
      mem[r + HEAD] := FreeHead(k);
      mem[r + k] := 8 * k;
      UsedFirstPart(m, mem[..], First(h), g, top, topsize, p, n);
      KeepBins(m, mem[..], h, b, p, n + k);
      AllFreeSplit(g, b.size, p, n);
      g := Split(g, p, n, true, false);
    }

    /** A free chunk taken out of its bin is put to use; what is too much for nb words remains a free chunk. */
    method Take(p: Addr, n: nat, nb: nat) returns (r: Addr)
      requires Heaped() && Links(p) && p in g && g[p] == Chunk(n, false) && p !in b.size && p != dv
      requires MIN_CHUNK <= nb <= n
      modifies `g, mem
      ensures Heaped() && Took(old(g), g, p, nb)
      ensures PayloadsKept(old(mem[..]), mem[..], old(g), p)
      ensures r == (if n - nb < MIN_CHUNK then 0 else p + nb) && Links(r) && g == Used(old(g), p, nb)
      ensures r != 0 ==> r in g && g[r] == Chunk(n - nb, false) && r !in b.size && r != dv && r != p
    {
      hide BinsOk, HeapOk, AllFree, PayloadsKept, Took, SmallMapOk, TreeMapOk, Live;
      if n - nb < MIN_CHUNK {
        TookWhole(g, p, nb);
        UseAll(p, n);
        r := 0;
      } else {
        r := UseFirst(p, nb, n - nb);
        TookFirst(old(g), p, nb);
        SplitIs(old(g), p, nb, true, false);
        hide Split;
      }
    }

    /** replace_dv: the chunk r becomes dv; the old dv, which is small, goes to its bin. */
    method ReplaceDv(r: Addr, k: nat)
      requires Heaped() && Links(r) && r in g && g[r] == Chunk(k, false) && r !in b.size && r != dv && k > 0 && r != 0
      requires dvsize < NSMALLBINS
      modifies `smallmap, `treemap, `b, `dv, `dvsize, mem
      ensures Valid() && dv == r && dvsize == k
      ensures Layout() == (if old(dvsize) == 0 then old(Layout()) else PutBinned(old(Layout()), old(dv), old(dvsize))).(dv := r, dvsize := k)
      ensures PayloadsKept(old(mem[..]), mem[..], g, 0)
    {
      hide BinsOk, HeapOk, AllFree, PayloadsKept, SmallMapOk, TreeMapOk;
      var dvs := dvsize;
      PayloadsSame(mem[..], g, First(h), top, topsize);
      if dvs != 0 {
        InsertChunk(dv, dvs);
      }
      dvsize := k;
      dv := r;
    }

    // -------------------------------------------------------------------------
    // malloc

    /** A remainderless fit to a smallbin. */
    method MallocExact(idx: nat, ghost nb: nat) returns (p: Addr)
      requires Valid() && MIN_CHUNK <= nb <= idx <= nb + 1 && idx < NSMALLBINS && Marked(smallmap, idx)
      modifies `smallmap, `b, `g, mem
      ensures Valid() && Took(old(g), g, p, nb) && PayloadsKept(old(mem[..]), mem[..], old(g), p)
      ensures p != 0 && p in old(b).size && old(b).size[p] == idx && FirstOfBin(old(b), p)
      ensures p in old(g) && Layout() == FromBin(old(Layout()), nb, p)
    {
      hide BinsOk, HeapOk, AllFree, PayloadsKept, Took, SmallMapOk, TreeMapOk, Marked;
      ghost var m := mem[..];
      p := UnlinkFirst(idx);
      ghost var m1 := mem[..];
      TookWhole(g, p, nb);
      BinsBesideHeap(m1, h, g, top, topsize, b, p);
      UseAll(p, idx);
      PayloadsCompose(m, m1, mem[..], old(g), 0, p);
    }

    /** unlink_first_small_chunk of a heap */
    method UnlinkFirst(i: nat) returns (p: Addr)
      requires Valid() && i < NSMALLBINS && Marked(smallmap, i)
      modifies `smallmap, `b, mem
      ensures Heaped() && Links(p) && p in g && g[p] == Chunk(i, false) && p !in b.size && p != dv && p != 0
      ensures p in old(b).size && old(b).size[p] == i && FirstOfBin(old(b), p) && b.size == old(b).size - {p}
      ensures b.ring == TakenOut(old(b).ring, i, p) && Layout() == Unbinned(old(Layout()), p)
      ensures PayloadsKept(old(mem[..]), mem[..], g, 0)
    {
      hide BinsOk, HeapOk, PayloadsKept, SmallMapOk, TreeMapOk, Marked, BinWrites;
      ghost var m := mem[..];
      p := UnlinkFirstSmallChunk(i);
      AllFreeWithout(g, old(b).size, p);
      HeapFrame(m, mem[..], h, g, top, topsize, old(b).size);
      BinsBesideHeap(mem[..], h, g, top, topsize, b, p);
    }

    /** A chunk of the next nonempty smallbin, split; the remainder becomes dv. */
    method MallocNext(idx: nat, i: nat) returns (p: Addr)
      requires Valid() && MIN_CHUNK <= idx < i < NSMALLBINS && Marked(smallmap, i) && dvsize < idx
      modifies `smallmap, `treemap, `b, `g, `dv, `dvsize, mem
      ensures Valid() && Took(old(g), g, p, idx) && PayloadsKept(old(mem[..]), mem[..], old(g), p)
      ensures p != 0 && p in old(b).size && old(b).size[p] == i && FirstOfBin(old(b), p)
      ensures p in old(g) && Layout() == FromBin(old(Layout()), idx, p)
    {
      hide BinsOk, HeapOk, AllFree, PayloadsKept, Took, SmallMapOk, TreeMapOk, Marked;
      ghost var m := mem[..];
      p := UnlinkFirst(i);
      p := SplitToDv(p, i, idx, m);
    }

    /** Take nb words of the chunk p out of its bin; the remainder becomes dv. */
    method SplitToDv(q: Addr, n: nat, nb: nat, ghost m: seq<Word>) returns (p: Addr)
      requires Heaped() && Links(q) && q in g && g[q] == Chunk(n, false) && q !in b.size && q != dv && q != 0
      requires MIN_CHUNK <= nb <= n && dvsize < NSMALLBINS
      requires PayloadsKept(m, mem[..], g, 0)
      modifies `smallmap, `treemap, `b, `g, `dv, `dvsize, mem
      ensures p in old(g)
      ensures var s := old(Layout()).(g := Used(old(g), p, nb));
        Layout() == if n - nb < MIN_CHUNK then s
                    else (if s.dvsize == 0 then s else PutBinned(s, s.dv, s.dvsize)).(dv := p + nb, dvsize := n - nb)
      ensures p == q && Valid() && Took(old(g), g, p, nb) && PayloadsKept(m, mem[..], old(g), p)
    {
      hide BinsOk, HeapOk, AllFree, PayloadsKept, Took, SmallMapOk, TreeMapOk;
      ghost var m1 := mem[..];
      p := q;
      BinsBesideHeap(m1, h, g, top, topsize, b, p);
      var r := Take(p, n, nb);
      ghost var m2 := mem[..];
      PayloadsCompose(m, m1, m2, old(g), 0, p);
      if r != 0 {
        ghost var g1 := g;
        ReplaceDv(r, n - nb);
        LiveStays(old(g), g1, p, nb);
        PayloadsOfLater(m2, mem[..], old(g), g1, 0);
        PayloadsCompose(m, m2, mem[..], old(g), p, 0);
      }
    }

    /** The least tree chunk, for a small request. */
    method LeastTreeChunk(nb: nat) returns (v: Addr, rsize: nat, ghost sv: nat)
      requires BinsValid() && MIN_CHUNK <= nb < NSMALLBINS && treemap != 0
      ensures AtNode(b, sv, v) && BestFit(b.trie, nb, sv) && sv >= nb && rsize == sv - nb
    {
      hide BinsOk, SizeOf, Bin, Marked, BestFit, LeftmostWalk, FirstMarked, LowestIndex, TreeMapOk, TrieOk, SubWords;
      ghost var m := mem[..];
      var i := FirstMarked(treemap);
      FirstTree(m, h, b, treemap, nb);
      var t := mem[TreeBin(h, i)];
      ghost var q := b.trie.root[i];
      SubtreeNull(m, h, b, q, t);
      LeftmostNode(m, h, b, nb, i, q, t, 0);
      CompareNode(m, h, b, nb, i, q, t, 0, 0);
      LeastStep(m, h, b, nb, i, q, t, 0);
      RootPreferred(nb, q);
      v := t;
      rsize := SubWords(SizeOf(mem[t + HEAD]), nb);
      t := if mem[t + CHILD0] != 0 then mem[t + CHILD0] else mem[t + CHILD1];
      v, rsize, sv := WalkLeftmost(nb, t, v, rsize, i, b.trie.node[q].Leftmost(), q);
      FirstBest(m, h, b, treemap, nb, sv);
    }

    /** tmalloc_small */
    method TmallocSmall(nb: nat) returns (p: Addr)
      requires Valid() && MIN_CHUNK <= nb < NSMALLBINS && treemap != 0 && dvsize < nb
      modifies `smallmap, `treemap, `b, `g, `dv, `dvsize, mem
      ensures Valid() && Took(old(g), g, p, nb) && PayloadsKept(old(mem[..]), mem[..], old(g), p)
      ensures p != 0 && p in old(b).size && BestFit(old(b).trie, nb, old(b).size[p]) && FirstOfBin(old(b), p)
      ensures p in old(g) && Layout() == FromBin(old(Layout()), nb, p)
    {
      hide BinsOk, HeapOk, AllFree, PayloadsKept, Took, SmallMapOk, TreeMapOk, BestFit;
      ghost var m := mem[..];
      var v, rsize;
      ghost var sv;
      v, rsize, sv := LeastTreeChunk(nb);
      FoundChunk(m, h, g, top, topsize, b, dv, sv, v);
      var r := v + nb;
      if OkAddress(v) && v < r {
        UnlinkChunk(v, rsize + nb);
        p := SplitToDv(v, rsize + nb, nb, m);
      } else {
        assert false;
      }
    }

    /** tmalloc_large */
    method TmallocLarge(nb: nat) returns (p: Addr)
      requires Valid() && TreeSize(nb)
      modifies `smallmap, `treemap, `b, `g, mem
      ensures p == 0 ==> Valid() && unchanged(this, mem) && mem[..] == old(mem[..])
      ensures p == 0 ==> forall s :: s in b.trie.node && s >= nb ==> nb <= dvsize <= s
      ensures p != 0 ==> Valid() && Took(old(g), g, p, nb) && PayloadsKept(old(mem[..]), mem[..], old(g), p)
      ensures p != 0 ==> p in old(b).size && BestFit(old(b).trie, nb, old(b).size[p]) && FirstOfBin(old(b), p)
      ensures p != 0 ==> p in old(g) && Layout() == FromBin(old(Layout()), nb, p)
      ensures p != 0 ==> nb <= dvsize ==> old(b).size[p] < dvsize
    {
      hide BinsOk, HeapOk, AllFree, PayloadsKept, Took, SmallMapOk, TreeMapOk, BestFit;
      ghost var m := mem[..];
      var v, rsize;
      ghost var sv;
      v, rsize, sv := BestLarge(nb);
      DvSize(m, h, g, top, topsize, b, dv, dvsize);
      FitOrNone(m, h, b, nb, dvsize, sv, v);
      if v != 0 && rsize < SubWords(dvsize, nb) {
        FoundChunk(m, h, g, top, topsize, b, dv, sv, v);
        var r := v + nb;
        if OkAddress(v) && v < r {
          UnlinkChunk(v, rsize + nb);
          p := SplitToBin(v, rsize + nb, nb, m);
          return;
        } else {
          assert false;
        }
      }
      p := 0;
    }

    /** Take nb words of the chunk q, which is out of its bin; the remainder goes to a bin. */
    method SplitToBin(q: Addr, n: nat, nb: nat, ghost m: seq<Word>) returns (p: Addr)
      requires Heaped() && Links(q) && q in g && g[q] == Chunk(n, false) && q !in b.size && q != dv && q != 0
      requires NSMALLBINS <= nb <= n && PayloadsKept(m, mem[..], g, 0)
      modifies `smallmap, `treemap, `b, `g, mem
      ensures p == q && Valid() && Took(old(g), g, p, nb) && PayloadsKept(m, mem[..], old(g), p)
      ensures p in old(g)
      ensures var s := old(Layout()).(g := Used(old(g), p, nb)); Layout() == if n - nb < MIN_CHUNK then s else PutBinned(s, p + nb, n - nb)
    {
      hide BinsOk, HeapOk, AllFree, PayloadsKept, Took, SmallMapOk, TreeMapOk, PutBinned;
      ghost var m1 := mem[..];
      p := q;
      BinsBesideHeap(m1, h, g, top, topsize, b, p);
      var r := Take(p, n, nb);
      ghost var m2 := mem[..];
      PayloadsCompose(m, m1, m2, old(g), 0, p);
      if r != 0 {
        ghost var g1, b1 := g, b;
        InsertChunk(r, n - nb);
        LinksPut(g, b1, b, dv, dvsize, r, n - nb);
        LiveStays(old(g), g1, p, nb);
        PayloadsOfLater(m2, mem[..], old(g), g1, 0);
        PayloadsCompose(m, m2, mem[..], old(g), p, 0);
      }
    }

    /** The request is served from dv. */
    method MallocDv(nb: nat) returns (p: Addr)
      requires Valid() && MIN_CHUNK <= nb <= dvsize
      modifies `g, `dv, `dvsize, mem
      ensures Valid() && Took(old(g), g, p, nb) && PayloadsKept(old(mem[..]), mem[..], old(g), p)
      ensures p == old(dv) != 0
      ensures p in old(g) && Layout() == FromDv(old(Layout()), nb)
    {
      hide BinsOk, HeapOk, AllFree, PayloadsKept, Took, SmallMapOk, TreeMapOk;
      var rsize := dvsize - nb;
      p := dv;
      BinsBesideHeap(mem[..], h, g, top, topsize, b, p);
      if rsize >= MIN_CHUNK {
        TookFirst(g, p, nb) by {
          FirstPartFree(mem[..], First(h), g, top, topsize, p, nb);
        }
        dv := UseFirst(p, nb, rsize);
        dvsize := rsize;
        SplitIs(old(g), p, nb, true, false);
        hide Split;
      } else {
        var dvs := dvsize;
        dvsize := 0;
        dv := 0;
        TookWhole(g, p, nb);
        UseAll(p, dvs);
      }
    }

    /** Split top. */
    method SplitTop(nb: nat) returns (p: Addr)
      requires MIN_CHUNK <= nb < WORD_LIMIT && 8 * nb < topsize < TWO64 && top + nb + HEAD < mem.Length
      modifies `top, `topsize, mem
      ensures p == old(top) && top == p + nb && topsize == old(topsize) - 8 * nb
      ensures CutOffTop(old(mem[..]), mem[..], p, nb, topsize)
    {
      topsize := topsize - 8 * nb;
      var rsize := topsize;
      p := top;
      top := p + nb;
      mem[top + HEAD] := TopHead(rsize);
      mem[p + HEAD] := UsedHead(nb, true);
    }

    /** The request is cut off top. */
    method MallocTop(nb: nat) returns (p: Addr)
      requires Valid() && MIN_CHUNK <= nb && 8 * nb < topsize
      modifies `g, `top, `topsize, mem
      ensures Valid() && Took(old(g), g, p, nb) && PayloadsKept(old(mem[..]), mem[..], old(g), p)
      ensures top == old(top) + nb && topsize == old(topsize) - 8 * nb
      ensures p == old(top) != 0 && p !in old(g) && p !in old(b).size
      ensures Layout() == FromTop(old(Layout()), nb)
    {
      hide BinsOk, SizeOf, HeapOk, AllFree, PayloadsKept, Took, SmallMapOk, TreeMapOk, UsedHead, FreeHead, TopHead;
      ghost var m := mem[..];
      TopBounds(m, h, g, top, topsize, b);
      p := SplitTop(nb);
      UsedFromTop(m, mem[..], First(h), g, p, old(topsize), nb);
      KeepBins(m, mem[..], h, b, p, nb);
      TookNew(g, p, nb);
      AllFreeKept(g, g[p := Chunk(nb, true)], b.size, p);
      g := g[p := Chunk(nb, true)];
    }

    /** mspace_malloc: the payload of a new block, or null. */
    method Malloc(bytes: nat) returns (r: Addr)
      requires Valid() && bytes < TWO64
      modifies `smallmap, `treemap, `b, `g, `dv, `dvsize, `top, `topsize, mem
      ensures Valid()
      ensures r == 0 <==> bytes >= MAX_REQUEST || !CanServe(old(g), old(topsize), RequestWords(bytes))
      ensures r == 0 ==> unchanged(this, mem)
      ensures r != 0 ==> r > 2 && Took(old(g), g, r - 2, RequestWords(bytes))
      ensures r != 0 ==> PayloadsKept(old(mem[..]), mem[..], old(g), r - 2)
      ensures r != 0 && r - 2 !in old(g) ==> r - 2 == old(top) && NoneFits(old(g), RequestWords(bytes))
      ensures r != 0 && r - 2 in old(b).size && bytes <= MAX_SMALL_REQUEST ==>
                old(b).size[r - 2] <= RequestWords(bytes) + 1 || old(dvsize) < RequestWords(bytes)
      ensures r != 0 ==> Chosen(old(Layout()), RequestWords(bytes), r - 2) && Layout() == AfterMalloc(old(Layout()), RequestWords(bytes), r - 2)
      ensures r != 0 && r - 2 in old(b).size ==> FirstOfBin(old(b), r - 2) && TightestBinned(old(b).size, RequestWords(bytes), r - 2)
      ensures r != 0 && r - 2 in old(g) && bytes > MAX_SMALL_REQUEST ==> Tightest(old(g), RequestWords(bytes), r - 2)
    {
      hide BinsOk, SizeOf, HeapOk, PayloadsKept, Took, SmallMapOk, TreeMapOk, Marked, Index, ShiftDown, BitsAbove, FirstMarked, BestFit, RequestWords, Tightest, TightestBinned, CanServe, Chosen, AfterMalloc, FirstOfBin;
      var p;
      if bytes <= MAX_SMALL_REQUEST {
        p := MallocSmall(RequestWords(bytes));
      } else if bytes >= MAX_REQUEST {
        p := 0;    // too big for dv and top, and sys_alloc gets no memory
      } else {
        p := MallocLarge(RequestWords(bytes));
      }
      r := if p == 0 then 0 else p + 2;
    }

    /** A request of up to MAX_SMALL_REQUEST bytes. */
    method MallocSmall(nb: nat) returns (p: Addr)
      requires Valid() && MIN_CHUNK <= nb < NSMALLBINS
      modifies `smallmap, `treemap, `b, `g, `dv, `dvsize, `top, `topsize, mem
      ensures Valid()
      ensures p == 0 <==> !CanServe(old(g), old(topsize), nb)
      ensures p == 0 ==> unchanged(this, mem)
      ensures p != 0 ==> Took(old(g), g, p, nb) && PayloadsKept(old(mem[..]), mem[..], old(g), p)
      ensures p != 0 && p !in old(g) ==> p == old(top) && NoneFits(old(g), nb)
      ensures p != 0 && p in old(b).size ==> old(b).size[p] <= nb + 1 || old(dvsize) < nb
      ensures p != 0 && p in old(b).size ==> TightestBinned(old(b).size, nb, p) && FirstOfBin(old(b), p)
      ensures p != 0 ==> Chosen(old(Layout()), nb, p) && Layout() == AfterMalloc(old(Layout()), nb, p)
    {
      hide BinsOk, SizeOf, HeapOk, AllFree, PayloadsKept, Took, SmallMapOk, TreeMapOk, Marked, Index, ShiftDown, TightestBinned, LowTwo, CanServe, Links, ExactBin;
      hide FirstOfBin, FirstIn, Chosen, AfterMalloc, FromBin;
      var smallbits := ShiftDown(smallmap, Index(nb));
      if LowTwo(smallbits) {
        ExactBinMarked(smallmap, nb);
        p := MallocExact(ExactBin(smallmap, nb), nb);
        ExactIsTightest(old(mem[..]), h, old(b), old(smallmap), nb, p);
        BinnedServes(old(g), old(b), p, old(topsize), nb);
        FirstInList(old(b), p);
        ChosenSmall(old(Layout()), nb, p);
        return;
      } else if nb > dvsize {
        p := MallocFromBins(nb, smallbits);
        if p != 0 {
          BinnedServes(old(g), old(b), p, old(topsize), nb);
          FirstInList(old(b), p);
          ChosenSmall(old(Layout()), nb, p);
          return;
        }
      }
      NoExact(mem[..], h, b, smallmap, nb);
      p := MallocRest(nb);
      if p != 0 {
        ChosenRest(old(Layout()), nb, p);
      }
    }

    /** A chunk of the next nonempty small bin, or the least tree chunk. */
    method MallocFromBins(nb: nat, smallbits: bv32) returns (p: Addr)
      requires Valid() && MIN_CHUNK <= nb < NSMALLBINS && dvsize < nb
      requires smallbits == ShiftDown(smallmap, Index(nb)) && !LowTwo(smallbits)
      modifies `smallmap, `treemap, `b, `g, `dv, `dvsize, mem
      ensures Valid()
      ensures p == 0 ==> forall a :: a in b.size ==> b.size[a] < nb
      ensures p == 0 ==> unchanged(this, mem) && mem[..] == old(mem[..])
      ensures p != 0 ==> Took(old(g), g, p, nb) && PayloadsKept(old(mem[..]), mem[..], old(g), p)
      ensures p != 0 ==> TightestBinned(old(b).size, nb, p) && FirstOfBin(old(b), p)
      ensures p != 0 ==> p in old(g) && Layout() == FromBin(old(Layout()), nb, p)
    {
      hide FirstOfBin, FromBin;
      hide BinsOk, SizeOf, HeapOk, AllFree, PayloadsKept, Took, SmallMapOk, TreeMapOk, Marked, Index, ShiftDown, BinsAbove, FirstMarked, BestFit, TightestBinned, LowTwo, Links;
      ghost var m := mem[..];
      if smallbits != 0 {
        NextIsTightest(m, h, b, smallmap, nb);
        var leftbits := BinsAbove(smallbits, nb);
        p := MallocNext(nb, FirstMarked(leftbits));
      } else {
        NoSmallFit(m, h, b, smallmap, nb);
        if treemap != 0 {
          p := TmallocSmall(nb);
          TreeIsTightest(m, h, old(b), nb, p);
        } else {
          NoTreeFit(m, h, b);
          p := 0;
        }
      }
    }

    /** Neither bins nor trees served the request: dv, then top. */
    method MallocRest(nb: nat) returns (p: Addr)
      requires Valid() && MIN_CHUNK <= nb
      requires dvsize < nb ==> forall a :: a in b.size ==> b.size[a] < nb
      modifies `g, `dv, `dvsize, `top, `topsize, mem
      ensures Valid()
      ensures p == 0 <==> !CanServe(old(g), old(topsize), nb)
      ensures p == 0 ==> unchanged(this, mem)
      ensures p != 0 ==> Took(old(g), g, p, nb) && PayloadsKept(old(mem[..]), mem[..], old(g), p)
      ensures p != 0 && p !in old(g) ==> p == old(top) && NoneFits(old(g), nb)
      ensures p != 0 ==> p !in old(b).size && Layout() == AfterMalloc(old(Layout()), nb, p)
      ensures p != 0 ==> if nb <= old(dvsize) then p == old(dv) else p == old(top) && 8 * nb < old(topsize)
      ensures p != 0 && p in old(g) ==> old(g)[p] == Chunk(old(dvsize), false) && nb <= old(dvsize)
    {
      hide BinsOk, HeapOk, AllFree, PayloadsKept, Took, SmallMapOk, TreeMapOk;
      TopBounds(mem[..], h, g, top, topsize, b);
      if nb <= dvsize {
        p := MallocDv(nb);
      } else if 8 * nb < topsize {
        NothingFits(g, b, dv, dvsize, nb);
        p := MallocTop(nb);
      } else {
        NothingServes(g, b, dv, dvsize, topsize, nb);
        p := 0;    // sys_alloc gets no memory
      }
    }

    /** A larger request. */
    method MallocLarge(nb: nat) returns (p: Addr)
      requires Valid() && TreeSize(nb)
      modifies `smallmap, `treemap, `b, `g, `dv, `dvsize, `top, `topsize, mem
      ensures Valid()
      ensures p == 0 <==> !CanServe(old(g), old(topsize), nb)
      ensures p == 0 ==> unchanged(this, mem)
      ensures p != 0 ==> Took(old(g), g, p, nb) && PayloadsKept(old(mem[..]), mem[..], old(g), p)
      ensures p != 0 && p !in old(g) ==> p == old(top) && NoneFits(old(g), nb)
      ensures p != 0 && p in old(b).size ==> TightestBinned(old(b).size, nb, p) && FirstOfBin(old(b), p)
      ensures p != 0 ==> Chosen(old(Layout()), nb, p) && Layout() == AfterMalloc(old(Layout()), nb, p)
      ensures p != 0 && p in old(g) ==> Tightest(old(g), nb, p)
    {
      hide FirstOfBin, FirstIn, FromBin, Chosen, AfterMalloc;
      hide BinsOk, HeapOk, AllFree, PayloadsKept, Took, SmallMapOk, TreeMapOk, BestFit, TightestBinned, Tightest, CanServe, DvOk, FreeIsBinned;
      ghost var m := mem[..];
      SmallBelow(nb, b);
      TopBounds(m, h, g, top, topsize, b);
      if treemap != 0 {
        p := TmallocLarge(nb);
        if p != 0 {
          TreeIsTightest(m, h, old(b), nb, p);
          TightOverall(old(g), old(b), old(dv), old(dvsize), nb, p);
          FirstInList(old(b), p);
          ChosenLarge(old(Layout()), nb, p);
          BinnedServes(old(g), old(b), p, old(topsize), nb);
          return;
        }
      } else {
        NoTreeFit(m, h, b);
      }
      TreeSizes(m, h, b);
      p := MallocRest(nb);
      DvTight(old(g), old(b), old(dv), old(dvsize), nb, p);
      if p != 0 {
        ChosenRest(old(Layout()), nb, p);
      }
    }

    // -------------------------------------------------------------------------
    // free

    /** The n words at p, q among them, are to become one free chunk between chunks in use. */
    ghost predicate Mergeable(p: Addr, n: nat, q: Addr)
      reads this, mem
    {
      && Heaped() && 8 * top + topsize == hi && topsize > 0
      && Spans(g, p, n, q) && UsedUpTo(g, p) && Opened(g, b.size, dv, p, n)
    }

    /** set_size_and_pinuse_of_free_chunk */
    method SetFree(p: Addr, n: nat, ghost q: Addr)
      requires Mergeable(p, n, q) && p + n in g && g[p + n].used
      requires p + n + HEAD < mem.Length && !Pinuse(mem[p + n + HEAD])
      modifies `g, mem
      ensures Heaped() && g == Merged(old(g), p, n) && p in g && g[p] == Chunk(n, false) && p !in b.size
      ensures PayloadsKept(old(mem[..]), mem[..], old(g), q) && Live(g) == Live(old(g)) - {q}
    {
      hide BinsOk, SizeOf, HeapOk, AllFree, PayloadsKept, SmallMapOk, TreeMapOk, Merged, Live, Spans, UsedUpTo, Pinuse;
      ghost var m := mem[..];
      SpanWithin(m, h, g, top, topsize, p, n, q);
      mem[p + HEAD] := FreeHead(n);
      mem[p + n] := 8 * n;
      MergedHeap(m, mem[..], h, g, top, topsize, b, dv, p, n, q);
      g := Merged(g, p, n);
    }

    /** The n words at p, up to top, were made a free chunk although top reads as in use: top's PINUSE bit is clear. */
    ghost predicate Cut(p: Addr, n: nat)
      reads this, mem
    {
      && BinsValid() && Insertable(mem[..], h, b, p, n) && p !in b.size && p + n == top
      && OffBins(h, b.size[p := n], top + HEAD) && top + HEAD < mem.Length && !Pinuse(mem[top + HEAD])
    }

    /** A free chunk was left in front of top. */
    ghost predicate Stranded()
      reads this, mem
    {
      && BinsValid() && top + HEAD < mem.Length && !Pinuse(mem[top + HEAD])
      && ((exists p :: p in b.size && p + b.size[p] == top) || (dvsize > 0 && dv + dvsize == top))
    }

    /** The block ends where a top begins that reads as in use. */
    ghost predicate Strands(p: Addr)
      reads this
    {
      !TopReadsFree() && p in Live(g) && p + Live(g)[p] == top
    }

    /** set_free_with_pinuse */
    method SetFreeWithPinuse(p: Addr, n: nat, next: Addr, ghost q: Addr)
      requires Mergeable(p, n, q) && next == p + n && (next == top || (next in g && g[next].used))
      modifies `g, mem
      ensures g == Merged(old(g), p, n) && p in g && g[p] == Chunk(n, false) && p !in b.size
      ensures next == top ==> Cut(p, n)
      ensures next != top ==> Heaped()
      ensures next != top ==> PayloadsKept(old(mem[..]), mem[..], old(g), q) && Live(g) == Live(old(g)) - {q}
    {
      hide BinsOk, SizeOf, HeapOk, AllFree, PayloadsKept, SmallMapOk, TreeMapOk, Merged, Live, Spans, UsedUpTo, Pinuse, Insertable, OffBins;
      ghost var m := mem[..];
      SpanWithin(m, h, g, top, topsize, p, n, q);
      mem[next + HEAD] := AndNotPinuse(mem[next + HEAD]);
      mem[p + HEAD] := FreeHead(n);
      mem[p + n] := 8 * n;
      if next == top {
        StrandedBins(m, mem[..], h, g, top, topsize, b, dv, p, n, q);
      } else {
        MergedHeap(m, mem[..], h, g, top, topsize, b, dv, p, n, q);
      }
      g := Merged(g, p, n);
    }

    /** mspace_free */
    method Free(r: Addr)
      requires Valid() && (r != 0 ==> r >= 2 && r - 2 in Live(g))
      modifies `smallmap, `treemap, `b, `g, `dv, `dvsize, `top, `topsize, `trimCheck, `releaseChecks, mem
      ensures r == 0 ==> Valid() && unchanged(this, mem)
      ensures r != 0 && !old(Strands(r - 2)) ==> Valid()
      ensures r != 0 && !old(Strands(r - 2)) ==> Live(g) == Live(old(g)) - {r - 2} && PayloadsKept(old(mem[..]), mem[..], old(g), r - 2)
      ensures r != 0 && old(Strands(r - 2)) ==> Stranded() && top == old(top) && topsize == old(topsize)
      ensures r != 0 ==> Layout() == AfterFree(old(Layout()), r - 2, TopReadsFree())
    {
      hide Forward;
      hide BinsOk, SizeOf, HeapOk, AllFree, PayloadsKept, SmallMapOk, TreeMapOk, Spans, UsedUpTo, Pinuse, Cinuse, Opened, Stranded;
      if r != 0 {
        var p := r - 2;
        assert p in g && g[p].used;
        hide Live;
        ghost var m := mem[..];
        PayloadsSame(m, g, First(h), top, topsize);
        OpenedSelf(m, h, g, top, topsize, b, dv, p);
        if OkAddress(p) && Cinuse(mem[p + HEAD]) {
          var psize := SizeOf(mem[p + HEAD]);
          var next := p + psize;
          if !Pinuse(mem[p + HEAD]) {
            if mem[p] % 2 == 1 {
              ChunkBefore(m, h, g, top, topsize, p);
              assert false;    // not mmapped
            } else {
              FreeBackward(p, psize, next);
            }
          } else {
            NoMergeStart(g, p);
            UsedNotBinned(g, b, p) by {
              AllFreeNow();
            }
            NothingToUnbin(Layout(), p);
            FreeForward(p, psize, next, p, m);
          }
        } else {
          assert false;
        }
      }
    }

    /** Consolidate backward. */
    method FreeBackward(q: Addr, n: nat, next: Addr)
      requires Valid() && q in g && g[q] == Chunk(n, true) && next == q + n
      requires q + HEAD < mem.Length && !Pinuse(mem[q + HEAD]) && next + HEAD < mem.Length
      modifies `smallmap, `treemap, `b, `g, `dv, `dvsize, `top, `topsize, `trimCheck, `releaseChecks, mem
      ensures TopReadsFree() || next != old(top) ==> Valid()
      ensures TopReadsFree() || next != old(top) ==> Live(g) == Live(old(g)) - {q} && PayloadsKept(old(mem[..]), mem[..], old(g), q)
      ensures !TopReadsFree() && next == old(top) ==> Stranded() && top == old(top) && topsize == old(topsize)
      ensures Layout() == AfterFree(old(Layout()), q, TopReadsFree())
    {
      hide Unbinned;
      hide BinsOk, SizeOf, HeapOk, AllFree, PayloadsKept, SmallMapOk, TreeMapOk, Spans, UsedUpTo, Pinuse, Cinuse, Opened, Live, Merged, Insertable, OffBins, Forward, Gathered, AfterFree, MergeStart, Stranded, Cut;
      ghost var m := mem[..];
      ghost var s := Layout();
      SameLowBits(top, topsize);
      PayloadsSame(m, g, First(h), top, topsize);
      OpenedSelf(m, h, g, top, topsize, b, dv, q);
      ChunkBefore(m, h, g, top, topsize, q);
      var prevsize := mem[q] / 8;
      var p := q - prevsize;
      var psize := n + prevsize;
      NextHead(m, h, g, top, topsize, p, psize, q);
      OpenedMore(m, First(h), g, top, topsize, b.size, dv, q, n, p, p, psize);
      FreeStart(m, h, g, top, topsize, p, q);
      AfterFreeIs(s, q, p, TopReadsFree());
      if OkAddress(p) {
        if p != dv {
          BinnedSize(g, b, dv, p);
          UnlinkChunk(p, prevsize);
        } else {
          assert b.size - {p} == b.size;
          NothingToUnbin(s, p);
          if Pinuse(mem[next + HEAD]) && Cinuse(mem[next + HEAD]) {
            GrowDv(p, psize, next, q);
            return;
          }
        }
        FreeForward(p, psize, next, q, m);
      } else {
        assert false;
      }
    }

    /** The chunk in front is dv, and what is behind reads as in use: the merged chunk is dv. */
    method GrowDv(p: Addr, n: nat, next: Addr, ghost q: Addr)
      requires Mergeable(p, n, q) && DvOk(g, b, dv, dvsize) && p == dv != 0 && next == p + n && n > 0
      requires if next == top then !TopReadsFree() else next in g && g[next].used
      modifies `g, `dvsize, mem
      ensures next != top ==> Valid() && Live(g) == Live(old(g)) - {q} && PayloadsKept(old(mem[..]), mem[..], old(g), q)
      ensures next == top ==> Stranded()
      ensures Layout() == Forward(old(Layout()), p, n, TopReadsFree())
    {
      hide BinsOk, SizeOf, HeapOk, AllFree, PayloadsKept, SmallMapOk, TreeMapOk, Spans, UsedUpTo, Pinuse, Cinuse, Opened, Live, Merged, Insertable, OffBins, Forward, Gathered;
      SpanWithin(mem[..], h, g, top, topsize, p, n, q);
      TopBounds(mem[..], h, g, top, topsize, b);
      LinksMerged(g, b, dv, dvsize, p, n);
      GatheredDv(Layout(), p, n, TopReadsFree());
      dvsize := n;
      SetFreeWithPinuse(p, n, next, q);
    }

    /** Consolidate forward, and put the free chunk where it belongs. */
    method FreeForward(p: Addr, n: nat, next: Addr, ghost q: Addr, ghost m: seq<Word>)
      requires Mergeable(p, n, q) && DvOk(g, b, dv, dvsize)
      requires next == p + n && next == q + g[q].size && PayloadsKept(m, mem[..], g, 0) && 0 !in g
      requires p <= dv < next ==> dv == p && (next in g ==> !g[next].used) && (next == top ==> TopReadsFree())
      modifies `smallmap, `treemap, `b, `g, `dv, `dvsize, `top, `topsize, `trimCheck, `releaseChecks, mem
      ensures TopReadsFree() || next != old(top) ==> Valid()
      ensures TopReadsFree() || next != old(top) ==> Live(g) == Live(old(g)) - {q} && PayloadsKept(m, mem[..], old(g), q)
      ensures !TopReadsFree() && next == old(top) ==> Stranded() && top == old(top) && topsize == old(topsize)
      ensures Layout() == Forward(old(Layout()), p, n, TopReadsFree())
    {
      hide BinsOk, SizeOf, HeapOk, AllFree, PayloadsKept, SmallMapOk, TreeMapOk, Spans, UsedUpTo, Pinuse, Cinuse, Opened, Live, Merged, Insertable, OffBins;
      hide ToTop, Unbinned, PutBinned, Forward, Gathered;
      ghost var m1, s := mem[..], Layout();
      SameLowBits(top, topsize);
      NextHead(m1, h, g, top, topsize, p, n, q);
      if p < next && Pinuse(mem[next + HEAD]) {
        if !Cinuse(mem[next + HEAD]) {
          if next == top {
            ForwardTop(s, p, n);
            FreeIntoTop(p, n, q);
          } else if next == dv {
            ForwardNext(s, p, n, TopReadsFree());
            NothingToUnbin(s, next);
            FreeIntoDv(p, n, q);
          } else {
            ForwardNext(s, p, n, TopReadsFree());
            FreeWithNext(p, n, next, q);
          }
          PayloadsCompose(m, m1, mem[..], old(g), 0, q);
        } else {
          ForwardBin(s, p, n, TopReadsFree());
          GatheredIs(s, p, n);
          SetFreeWithPinuse(p, n, next, q);
          LinksMerged(old(g), b, dv, dvsize, p, n);
          ghost var m2 := mem[..];
          BinFreed(p, n, old(g), q, next == top);
          if next != top {
            PayloadsCompose(m, m1, m2, old(g), 0, q);
            PayloadsCompose(m, m2, mem[..], old(g), q, q);
          }
        }
      } else {
        assert false;
      }
    }

    /** The freed words become the bottom of top. */
    method FreeIntoTop(p: Addr, n: nat, ghost q: Addr)
      requires Mergeable(p, n, q) && DvOk(g, b, dv, dvsize) && p + n == top && (p <= dv < top ==> dv == p)
      modifies `g, `dv, `dvsize, `top, `topsize, `trimCheck, `releaseChecks, mem
      ensures Valid()
      ensures top == p && topsize == old(topsize) + 8 * n && (if old(dv) == p then dv == 0 else dv == old(dv))
      ensures Layout() == ToTop(old(Layout()), p, n)
      ensures topsize <= trimCheck && (trimCheck == old(trimCheck) || trimCheck == TWO64 - 1)
      ensures Live(g) == Live(old(g)) - {q} && PayloadsKept(old(mem[..]), mem[..], old(g), q)
    {
      hide BinsOk, SizeOf, HeapOk, AllFree, PayloadsKept, SmallMapOk, TreeMapOk, Spans, UsedUpTo, Opened, Live, Dropped, TopHead;
      ghost var m := mem[..];
      TopBounds(m, h, g, top, topsize, b);
      TopSpan(m, h, g, top, topsize, p, n, q);
      LinksDropped(g, b, dv, dvsize, p, n);
      topsize := topsize + 8 * n;
      var tsize := topsize;
      top := p;
      mem[p + HEAD] := TopHead(tsize);
      DroppedHeap(m, mem[..], h, g, old(top), old(topsize), b, dv, p, n, q);
      g := Dropped(g, p, n);
      if p == dv {
        dv := 0;
        dvsize := 0;
      }
      if tsize > trimCheck {
        SysTrim();
      }
    }

    /** sys_trim on the external segment releases nothing, and turns trimming off: no later size of top asks for it. */
    method SysTrim()
      requires topsize < TWO64
      modifies `trimCheck, `releaseChecks
      ensures trimCheck == if topsize > old(trimCheck) then TWO64 - 1 else old(trimCheck)
      ensures topsize <= trimCheck && releaseChecks == MAX_RELEASE_CHECK_RATE
    {
      releaseChecks := MAX_RELEASE_CHECK_RATE;
      if topsize > trimCheck {
        trimCheck := TWO64 - 1;
      }
    }

    /** The freed words and dv behind them become dv. */
    method FreeIntoDv(p: Addr, n: nat, ghost q: Addr)
      requires Mergeable(p, n, q) && DvOk(g, b, dv, dvsize) && p + n == dv && dv != 0
      modifies `g, `dv, `dvsize, mem
      ensures Valid() && dv == p && dvsize == old(dvsize) + n
      ensures Layout() == Gathered(old(Layout()), p, n + old(dvsize))
      ensures Live(g) == Live(old(g)) - {q} && PayloadsKept(old(mem[..]), mem[..], old(g), q)
    {
      hide BinsOk, SizeOf, HeapOk, AllFree, PayloadsKept, SmallMapOk, TreeMapOk, Spans, UsedUpTo, Opened, Live, Merged, Pinuse;
      ghost var m := mem[..];
      ghost var d := dv;
      SpanWithin(m, h, g, top, topsize, p, n, q);
      ChunkBehind(m, h, g, top, topsize, b.size, d, p, n, q);
      OpenedMore(m, First(h), g, top, topsize, b.size, d, p, n, d, p, n + dvsize);
      assert b.size - {d} == b.size;
      dvsize := dvsize + n;
      var dsize := dvsize;
      dv := p;
      OpenedDv(g, b.size, d, p, dsize);
      SetFree(p, dsize, q);
      LinksMerged(old(g), b, d, old(dvsize), p, dsize);
    }

    /** The free chunk behind is merged too. */
    method FreeWithNext(p: Addr, n: nat, next: Addr, ghost q: Addr)
      requires Mergeable(p, n, q) && DvOk(g, b, dv, dvsize) && next == p + n && next in g && !g[next].used && next != dv
      requires p <= dv < next ==> dv == p
      modifies `smallmap, `treemap, `b, `g, `dv, `dvsize, `trimCheck, `releaseChecks, mem
      ensures Valid() && dv == old(dv)
      ensures next in old(g) && dvsize == if old(dv) == p then n + old(g)[next].size else old(dvsize)
      ensures Layout() == Gathered(Unbinned(old(Layout()), next), p, n + old(g)[next].size)
      ensures Live(g) == Live(old(g)) - {q} && PayloadsKept(old(mem[..]), mem[..], old(g), q)
    {
      hide Gathered, Unbinned, PutBinned, DvOk, FreeIsBinned;
      hide BinsOk, SizeOf, HeapOk, AllFree, PayloadsKept, SmallMapOk, TreeMapOk, Spans, UsedUpTo, Opened, Live, Merged, Pinuse;
      ghost var m := mem[..];
      SpanWithin(m, h, g, top, topsize, p, n, q);
      SizeRead(m, First(h), g, top, topsize, next);
      var nsize := SizeOf(mem[next + HEAD]);
      var psize := n + nsize;
      ChunkBehind(m, h, g, top, topsize, b.size, dv, p, n, q);
      OpenedMore(m, First(h), g, top, topsize, b.size, dv, p, n, next, p, psize);
      UnlinkChunk(next, nsize);
      ghost var m1 := mem[..];
      GatheredIs(Layout(), p, psize);
      DvOfFewer(g, old(b), b, dv, dvsize);
      ChunkBehind(m1, h, g, top, topsize, old(b).size, dv, p, n, q);
      SetFree(p, psize, q);
      PayloadsCompose(m, m1, mem[..], old(g), 0, q);
      LinksMerged(old(g), b, dv, dvsize, p, psize);
      if p == dv {
        dvsize := psize;
      } else {
        ghost var m2 := mem[..];
        BinFreed(p, psize, old(g), q, false);
        PayloadsCompose(m, m2, mem[..], old(g), q, q);
      }
    }

    /** The merged chunk goes to its bin; every so often unused segments would be released. */
    method BinFreed(p: Addr, n: nat, ghost g0: Chunks, ghost q: Addr, ghost cut: bool)
      requires if cut then Cut(p, n) else Heaped() && Links(p) && p in g && g[p] == Chunk(n, false) && p !in b.size && p != dv && Live(g) == Live(g0) - {q}
      modifies `smallmap, `treemap, `b, `releaseChecks, mem
      ensures Layout() == PutBinned(old(Layout()), p, n).(checks := releaseChecks) && releaseChecks == if n < NSMALLBINS then old(releaseChecks) else Counted(old(releaseChecks))
      ensures if cut then Stranded() else Valid() && PayloadsKept(old(mem[..]), mem[..], g0, q)
    {
      hide BinsOk, SizeOf, HeapOk, AllFree, SmallMapOk, TreeMapOk, Insertable, OffBins, BinWrites, Pinuse, PayloadsKept, PutBinned, PutIn, DvOk, FreeIsBinned, Live;
      ghost var m, b0 := mem[..], b;
      if !cut {
        FreeInsertable(m, h, g, top, topsize, b, p);
      }
      InsertBinned(p, n);
      if cut {
        WordOffBins(m, mem[..], h, b.size, top + HEAD);
        assert p in b.size && p + b.size[p] == top;
      } else {
        AllFreeWith(g, b0.size, p);
        HeapFrame(m, mem[..], h, g, top, topsize, b.size);
        LinksPut(g, b0, b, dv, dvsize, p, n);
        BinsBesideHeap(m, h, g, top, topsize, b0, p);
        LiveLess(g, g0, q);
        PayloadsSeen(m, mem[..], g, 0, g0, q);
      }
      if n >= NSMALLBINS {
        releaseChecks := (releaseChecks + TWO64 - 1) % TWO64;
        if releaseChecks == 0 {
          releaseChecks := MAX_RELEASE_CHECK_RATE;    // no segment but the first
        }
      }
    }

    // -------------------------------------------------------------------------
    // realloc

    /** set_inuse */
    method SetInuse(p: Addr, n: nat)
      requires p + HEAD < mem.Length && p + n + HEAD < mem.Length && n < WORD_LIMIT && n > 0
      modifies mem
      ensures SameExcept(old(mem[..]), mem[..], {p + HEAD, p + n + HEAD})
      ensures mem[p + HEAD] == UsedHead(n, Pinuse(old(mem[p + HEAD])))
      ensures mem[p + n + HEAD] == OrPinuse(old(mem[p + n + HEAD]))
    {
      mem[p + HEAD] := UsedHead(n, Pinuse(mem[p + HEAD]));
      mem[p + n + HEAD] := OrPinuse(mem[p + n + HEAD]);
    }

    /** The first n words of a chunk in use stay with it, the k words behind them become a chunk in use. */
    method CutBack(p: Addr, n: nat, k: nat) returns (r: Addr)
      requires Valid() && p in g && g[p] == Chunk(n + k, true) && n >= MIN_CHUNK && k >= MIN_CHUNK
      modifies `g, mem
      ensures r == p + n && Valid() && CutLive(old(mem[..]), mem[..], old(g), g, p, n, k)
    {
      hide BinsOk, SizeOf, HeapOk, AllFree, SmallMapOk, TreeMapOk, UsedHead, OrPinuse, Pinuse, CutLive;
      ghost var m := mem[..];
      ChunkWithin(m, First(h), g, top, topsize, p);
      SetInuse(p, n);
      r := p + n;
      SetInuse(r, k);
      CutHeap(m, mem[..], h, g, top, topsize, b, dv, dvsize, p, n, k);
      g := Split(g, p, n, true, true);
    }

    /** The same cut; the chunk behind is marked first. */
    method CutFront(p: Addr, n: nat, k: nat) returns (r: Addr)
      requires Valid() && p in g && g[p] == Chunk(n + k, true) && n >= MIN_CHUNK && k >= MIN_CHUNK
      modifies `g, mem
      ensures r == p + n && Valid() && CutLive(old(mem[..]), mem[..], old(g), g, p, n, k)
    {
      hide BinsOk, SizeOf, HeapOk, AllFree, SmallMapOk, TreeMapOk, UsedHead, OrPinuse, Pinuse, CutLive;
      ghost var m := mem[..];
      ChunkWithin(m, First(h), g, top, topsize, p);
      r := p + n;
      SetInuse(r, k);
      SetInuse(p, n);
      MarkedTwice(m[r + HEAD], k);
      CutHeap(m, mem[..], h, g, top, topsize, b, dv, dvsize, p, n, k);
      g := Split(g, p, n, true, true);
    }

    /** Expand into top. */
    method GrowIntoTop(p: Addr, n: nat, nb: nat)
      requires Valid() && p in g && g[p] == Chunk(n, true) && p + n == top && n < nb && 8 * nb < 8 * n + topsize
      modifies `g, `top, `topsize, mem
      ensures Valid() && g == old(g)[p := Chunk(nb, true)] && Layout() == Grown(old(Layout()), p, nb)
      ensures PayloadsKept(old(mem[..]), mem[..], old(g), p)
      ensures forall w :: p + 2 <= w <= p + n ==> mem[w] == old(mem[w])
    {
      hide BinsOk, SizeOf, HeapOk, AllFree, PayloadsKept, SmallMapOk, TreeMapOk, UsedHead, FreeHead, TopHead, OrPinuse, Pinuse;
      ghost var m := mem[..];
      ChunkWithin(m, First(h), g, top, topsize, p);
      TopBounds(m, h, g, top, topsize, b);
      BinsBesideHeap(m, h, g, top, topsize, b, p) by {
        UsedNotBinned(g, b, p);
      }
      var newsize := 8 * n + topsize;
      var newtopsize := newsize - 8 * nb;
      var newtop := p + nb;
      SetInuse(p, nb);
      mem[newtop + HEAD] := TopHead(newtopsize);
      GrownUsed(m, mem[..], First(h), g, top, topsize, p, nb);
      KeepBins(m, mem[..], h, b, p, nb);
      UsedNotBinned(g, b, p);
      AllFreeKept(g, g[p := Chunk(nb, true)], b.size, p);
      top := newtop;
      topsize := newtopsize;
      g := g[p := Chunk(nb, true)];
    }

    /** A client writes word k of its block. */
    method Write(r: Addr, k: nat, w: Word)
      requires Valid() && r >= 2 && r - 2 in Live(g) && k + 1 < Live(g)[r - 2]
      modifies mem
      ensures Valid() && r + k < mem.Length && mem[..] == old(mem[..])[r + k := w]
      ensures PayloadsKept(old(mem[..]), mem[..], g, r - 2)
    {
      hide BinsOk, HeapOk, AllFree, PayloadsKept, SmallMapOk, TreeMapOk;
      ghost var m := mem[..];
      ChunkWithin(m, First(h), g, top, topsize, r - 2);
      mem[r + k] := w;
      PayloadWritten(m, mem[..], h, g, top, topsize, b, r - 2);
    }

    /** memcpy of n words into the block at p */
    method CopyWords(to: Addr, from: Addr, n: nat, ghost p: Addr)
      requires Valid() && p in g && g[p].used && to == p + 2 && n < g[p].size
      requires from + n <= mem.Length && (from + n <= to || to + n <= from)
      modifies mem
      ensures Valid() && to + n <= mem.Length
      ensures mem[to..to + n] == old(mem[from..from + n])
      ensures PayloadsKept(old(mem[..]), mem[..], g, p)
    {
      hide BinsOk, HeapOk, AllFree, PayloadsKept, SmallMapOk, TreeMapOk;
      ghost var m := mem[..];
      ChunkWithin(m, First(h), g, top, topsize, p);
      forall k | 0 <= k < n {
        mem[to + k] := mem[from + k];
      }
      PayloadWritten(m, mem[..], h, g, top, topsize, b, p);
    }

    /** The words of a chunk in use that a request does not need are freed. */
    method CutAndFree(p: Addr, n: nat, k: nat)
      requires Valid() && TopReadsFree() && p in g && g[p] == Chunk(n + k, true) && n >= MIN_CHUNK && k >= MIN_CHUNK
      modifies `smallmap, `treemap, `b, `g, `dv, `dvsize, `top, `topsize, `trimCheck, `releaseChecks, mem
      ensures Valid() && Live(g) == Live(old(g))[p := n]
      ensures Layout() == AfterFree(CutIn(old(Layout()), p, n), p + n, true)
      ensures PayloadsKept(old(mem[..]), mem[..], old(g), p)
      ensures p + n < mem.Length && forall w :: p + 2 <= w <= p + n ==> mem[w] == old(mem[w])
    {
      hide BinsOk, HeapOk, AllFree, SmallMapOk, TreeMapOk, PayloadsKept, CutLive, AfterFree;
      ghost var m, s := mem[..], Layout();
      HeadsRead(m, h, g, top, topsize, p);
      var extra := CutBack(p, n, k);
      CutSplits(m, mem[..], s.g, g, p, n, k);
      assert Layout() == CutIn(s, p, n);
      ghost var m1, g1 := mem[..], g;
      LiveCut(m, m1, old(g), g1, p, n, k);
      Free(extra + 2);
      CutThenFreed(m, m1, mem[..], old(g), g1, g, p, n, k);
    }

    /** memcpy of a whole block into a larger one */
    method CopyBlock(to: Addr, from: Addr, n: nat, bytes: nat)
      requires Valid() && from >= 2 && to >= 2 && from != to && bytes < MAX_REQUEST && n < RequestWords(bytes)
      requires from - 2 in g && g[from - 2] == Chunk(n, true) && to - 2 in g && g[to - 2].used && g[to - 2].size >= RequestWords(bytes)
      modifies mem
      ensures Valid() && n >= MIN_CHUNK && from + n - 1 <= mem.Length && to + n - 1 <= mem.Length
      ensures mem[to..to + n - 1] == old(mem[from..from + n - 1])
      ensures PayloadsKept(old(mem[..]), mem[..], g, to - 2)
    {
      hide BinsOk, HeapOk, AllFree, SmallMapOk, TreeMapOk, Links, PayloadsKept;
      BlocksApart(mem[..], h, g, top, topsize, from - 2, to - 2);
      var oc := 8 * n - 8;
      var kept := if oc < bytes then oc else bytes;
      CopyWords(to, from, kept / 8, to - 2);
    }

    /** internal_malloc, memcpy, internal_free */
    method MoveBlock(r: Addr, n: nat, bytes: nat) returns (r': Addr)
      requires Valid() && TopReadsFree() && r >= 2 && r - 2 in Live(g) && n == Live(g)[r - 2] < RequestWords(bytes) && bytes < MAX_REQUEST
      modifies `smallmap, `treemap, `b, `g, `dv, `dvsize, `top, `topsize, `trimCheck, `releaseChecks, mem
      ensures Valid()
      ensures r' == 0 <==> !CanServe(old(g), old(topsize), RequestWords(bytes))
      ensures r' == 0 ==> unchanged(this, mem)
      ensures r' != 0 ==> r' > 2 && r' != r && Resized(old(g), g, r - 2, r' - 2, bytes)
      ensures r' != 0 ==> PayloadsKept(old(mem[..]), mem[..], old(g), r - 2)
      ensures r' != 0 ==> ContentsKept(old(mem[..]), mem[..], r, r', n, bytes)
      ensures r' != 0 ==> Chosen(old(Layout()), RequestWords(bytes), r' - 2)
      ensures r' != 0 ==> Layout() == AfterFree(AfterMalloc(old(Layout()), RequestWords(bytes), r' - 2), r - 2, true)
    {
      hide Chosen, AfterMalloc, AfterFree;
      hide BinsOk, HeapOk, AllFree, SmallMapOk, TreeMapOk, Links, PayloadsKept, CanServe, RequestWords, Tightest, TightestBinned, Resized, ContentsKept, Took, Live;
      ghost var m := mem[..];
      HeadsRead(m, h, g, top, topsize, r - 2);
      r' := Malloc(bytes);
      if r' != 0 {
        ghost var m1, g1 := mem[..], g;
        StillLive(old(g), g1, r' - 2, RequestWords(bytes), r - 2);
        CopyBlock(r', r, n, bytes);
        ghost var m2 := mem[..];
        Free(r);
        BlockMoved(m, m1, m2, mem[..], old(g), g1, g, r - 2, n, r' - 2, bytes);
      }
    }

    /** internal_realloc */
    method InternalRealloc(r: Addr, bytes: nat) returns (r': Addr)
      requires Valid() && TopReadsFree() && r >= 2 && r - 2 in Live(g) && bytes < TWO64
      modifies `smallmap, `treemap, `b, `g, `dv, `dvsize, `top, `topsize, `trimCheck, `releaseChecks, mem
      ensures Valid()
      ensures r' == 0 <==> bytes >= MAX_REQUEST || !CanResize(old(g), old(top), old(topsize), r - 2, RequestWords(bytes))
      ensures r' == 0 ==> unchanged(this, mem)
      ensures r' != 0 ==> r' >= 2 && Resized(old(g), g, r - 2, r' - 2, bytes)
      ensures r' != 0 ==> (r' == r <==> FitsInPlace(old(g), old(top), old(topsize), r - 2, RequestWords(bytes)))
      ensures r' != 0 ==> PayloadsKept(old(mem[..]), mem[..], old(g), r - 2)
      ensures r' != 0 ==> ContentsKept(old(mem[..]), mem[..], r, r', Live(old(g))[r - 2], bytes)
      ensures r' != 0 ==> Reallocated(old(Layout()), r - 2, RequestWords(bytes), r' - 2, Layout())
    {
      hide Chosen, AfterMalloc, AfterFree, Grown, CutIn;
      hide BinsOk, HeapOk, AllFree, SmallMapOk, TreeMapOk, Links, PayloadsKept, CanServe, RequestWords, Pinuse, Cinuse, Resized, ContentsKept;
      if bytes >= MAX_REQUEST {
        return 0;
      }
      ghost var m := mem[..];
      var oldp := r - 2;
      HeadsRead(m, h, g, top, topsize, oldp);
      var oldsize := SizeOf(mem[oldp + HEAD]);
      var next := oldp + oldsize;
      if OkAddress(oldp) && Cinuse(mem[oldp + HEAD]) && oldp < next && Pinuse(mem[next + HEAD]) {
        var nb := RequestWords(bytes);
        if !Pinuse(mem[oldp + HEAD]) && mem[oldp] % 2 == 1 {
          assert false;    // not mmapped
        } else if oldsize >= nb {
          var rsize := oldsize - nb;
          if rsize >= MIN_CHUNK {
            CutAndFree(oldp, nb, rsize);
          } else {
            PayloadsSame(m, g, First(h), top, topsize);
          }
          StaysInPlace(m, mem[..], old(g), g, oldp, oldsize, if rsize >= MIN_CHUNK then nb else oldsize, bytes);
          r' := r;
        } else if next == top && 8 * oldsize + topsize > 8 * nb {
          GrowIntoTop(oldp, oldsize, nb);
          LiveSet(old(g), oldp, nb);
          StaysInPlace(m, mem[..], old(g), g, oldp, oldsize, nb, bytes);
          r' := r;
        } else {
          r' := MoveBlock(r, oldsize, bytes);
        }
      } else {
        assert false;
      }
    }

    /** mspace_realloc: of null, a malloc */
    method Realloc(r: Addr, bytes: nat) returns (r': Addr)
      requires Valid() && TopReadsFree() && bytes < TWO64 && (r != 0 ==> r >= 2 && r - 2 in Live(g))
      modifies `smallmap, `treemap, `b, `g, `dv, `dvsize, `top, `topsize, `trimCheck, `releaseChecks, mem
      ensures r' != 0 ==> r' >= 2
      ensures r == 0 ==> (r' == 0 <==> bytes >= MAX_REQUEST || !CanServe(old(g), old(topsize), RequestWords(bytes)))
      ensures r != 0 ==> (r' == 0 <==> bytes >= MAX_REQUEST || !CanResize(old(g), old(top), old(topsize), r - 2, RequestWords(bytes)))
      ensures r' == 0 ==> unchanged(this, mem)
      ensures r == 0 && r' != 0 ==> r' > 2 && Took(old(g), g, r' - 2, RequestWords(bytes))
      ensures r != 0 && r' != 0 ==> r' >= 2 && Resized(old(g), g, r - 2, r' - 2, bytes)
      ensures r != 0 && r' != 0 ==> ContentsKept(old(mem[..]), mem[..], r, r', Live(old(g))[r - 2], bytes)
      ensures r == 0 && r' != 0 ==> Chosen(old(Layout()), RequestWords(bytes), r' - 2) && Layout() == AfterMalloc(old(Layout()), RequestWords(bytes), r' - 2)
      ensures r != 0 && r' != 0 ==> Reallocated(old(Layout()), r - 2, RequestWords(bytes), r' - 2, Layout())
      ensures r != 0 && r' != 0 ==> (r' == r <==> FitsInPlace(old(g), old(top), old(topsize), r - 2, RequestWords(bytes)))
      ensures r' != 0 ==> PayloadsKept(old(mem[..]), mem[..], old(g), (if r != 0 then r else r') - 2)
      ensures Valid()
    {
      hide Heaped, Links, PayloadsKept, CanServe, RequestWords, Took, Resized, ContentsKept, Tightest, TightestBinned;
      hide Chosen, AfterMalloc, Reallocated;
      if r == 0 {
        r' := Malloc(bytes);
      } else {
        r' := InternalRealloc(r, bytes);
      }
    }

    // -------------------------------------------------------------------------
    // memalign

    /** is_mmapped: no block of this space is. */
    method IsMmapped(p: Addr) returns (y: bool)
      requires Valid() && p in Live(g)
      ensures !y
    {
      hide BinsOk, HeapOk, AllFree, SmallMapOk, TreeMapOk, Pinuse;
      HeadsRead(mem[..], h, g, top, topsize, p);
      y := !Pinuse(mem[p + HEAD]) && mem[p] % 2 == 1;
    }

    /** The part of the block at p0 whose payload is aligned to a; what is in front of it becomes a block of its own. */
    method AlignStart(p0: Addr, a: nat, ghost n: nat, ghost m: seq<Word>, ghost g0: Chunks) returns (p: Addr, leader: Addr)
      requires Valid() && p0 in Live(g) && n >= a / 8 + 8
      requires IsPower(a) && 32 <= a <= TWO63
      requires Holding(m, mem[..], g0, g, p0, n, {}) && 0 !in g0
      modifies `g, mem
      ensures Valid() && AlignedFrom(p0, a, p) && 8 * (p + 2) % a == 0 && p0 <= p <= p0 + a / 8 + 3
      ensures Layout() == Led(old(Layout()), p0, p)
      ensures leader == if p == p0 then 0 else p0 + 2
      ensures Holding(m, mem[..], g0, g, p, p0 + n - p, Taken(leader))
    {
      hide BinsOk, HeapOk, AllFree, SmallMapOk, TreeMapOk, Links, PayloadsKept, CutLive, AlignedChunk;
      HeadsRead(mem[..], h, g, top, topsize, p0);
      p, leader := p0, 0;
      if 8 * (p0 + 2) % a != 0 {
        AlignedChunkFits(p0, a);
        var newp := AlignedChunk(p0, a);
        var leadsize := newp - p0;
        var newsize := SizeOf(mem[p0 + HEAD]) - leadsize;
        var mmapped := IsMmapped(p0);
        if mmapped {
          assert false;
        } else {
          ghost var m1, g1 := mem[..], g;
          p := CutFront(p0, leadsize, newsize);
          leader := p0 + 2;
          CutSplits(m1, mem[..], g1, g, p0, leadsize, newsize);
          HoldingCut(m, m1, mem[..], g0, g1, g, p0, leadsize, newsize, {});
          assert {} + {p0} == {p0};
        }
      }
    }

    /** What a block has behind nb words, if it is more than a minimal chunk, becomes a block of its own. */
    method CutEnd(p: Addr, nb: nat, ghost n: nat, ghost m: seq<Word>, ghost g0: Chunks, ghost xs: set<Addr>) returns (trailer: Addr)
      requires Valid() && p in Live(g) && MIN_CHUNK <= nb <= n
      requires Holding(m, mem[..], g0, g, p, n, xs) && 0 !in g0
      modifies `g, mem
      ensures Valid() && trailer == if n > nb + MIN_CHUNK then p + nb + 2 else 0
      ensures Layout() == Trailed(old(Layout()), p, n, nb)
      ensures Holding(m, mem[..], g0, g, p, if trailer == 0 then n else nb, xs + Taken(trailer)) && xs !! Taken(trailer)
    {
      hide BinsOk, HeapOk, AllFree, SmallMapOk, TreeMapOk, Links, PayloadsKept, CutLive;
      HeadsRead(mem[..], h, g, top, topsize, p);
      trailer := 0;
      assert xs + {} == xs;
      var mmapped := IsMmapped(p);
      if !mmapped {
        var size := SizeOf(mem[p + HEAD]);
        if size > nb + MIN_CHUNK {
          ghost var m1, g1 := mem[..], g;
          var remainder := CutBack(p, nb, size - nb);
          CutSplits(m1, mem[..], g1, g, p, nb, size - nb);
          HoldingCut(m, m1, mem[..], g0, g1, g, p, nb, size - nb, xs);
          LiveCut(m1, mem[..], g1, g, p, nb, size - nb);
          trailer := remainder + 2;
        }
      }
    }

    /** A block still held, if any, is freed. */
    method GiveBack(x: Addr, ghost p: Addr, ghost n: nat, ghost m: seq<Word>, ghost g0: Chunks, ghost xs: set<Addr>)
      requires Valid() && TopReadsFree() && Holding(m, mem[..], g0, g, p, n, Taken(x) + xs) && 0 !in g0
      requires Taken(x) !! xs && x != 1
      modifies `smallmap, `treemap, `b, `g, `dv, `dvsize, `top, `topsize, `trimCheck, `releaseChecks, mem
      ensures Valid() && Holding(m, mem[..], g0, g, p, n, xs)
      ensures Layout() == if x == 0 then old(Layout()) else AfterFree(old(Layout()), x - 2, true)
    {
      hide Heaped, Links, PayloadsKept, AfterFree;
      if x != 0 {
        ghost var m1, g1 := mem[..], g;
        Free(x);
        HoldingFreed(m, m1, mem[..], g0, g1, g, p, n, {x - 2} + xs, x - 2);
        assert {x - 2} + xs - {x - 2} == xs;
      } else {
        assert {} + xs == xs;
      }
    }

    /** internal_memalign */
    method Memalign(alignment: nat, bytes: nat) returns (r: Addr, ghost a: nat)
      requires Valid() && TopReadsFree() && alignment <= TWO63 && bytes < TWO64
      modifies `smallmap, `treemap, `b, `g, `dv, `dvsize, `top, `topsize, `trimCheck, `releaseChecks, mem
      ensures Valid()
      ensures if alignment <= 8 then a == 8 else RoundedAlignment(alignment, a)
      ensures r == 0 <==> !CanAlign(old(g), old(topsize), alignment, a, bytes)
      ensures r == 0 ==> unchanged(this, mem)
      ensures r != 0 ==> r > 2 && 8 * r % a == 0 && r - 2 in Live(g)
      ensures r != 0 ==> RequestWords(bytes) <= Live(g)[r - 2] <= RequestWords(bytes) + MIN_CHUNK
      ensures r != 0 && alignment <= 8 ==>
                Chosen(old(Layout()), RequestWords(bytes), r - 2) && Layout() == AfterMalloc(old(Layout()), RequestWords(bytes), r - 2)
      ensures r != 0 && alignment > 8 ==>
                AlignedOut(old(Layout()), a, RequestWords(bytes), RequestWords(8 * RequestWords(bytes) + a + 24), r - 2, Layout())
      ensures r != 0 ==> Holding(old(mem[..]), mem[..], old(g), g, r - 2, Live(g)[r - 2], {})
    {
      hide BinsOk, HeapOk, AllFree, SmallMapOk, TreeMapOk, Links, PayloadsKept, CanServe, RequestWords, Took, Tightest, TightestBinned, Holding, Live, RoundedAlignment;
      hide Chosen, AfterMalloc, AlignedOut;
      ghost var m := mem[..];
      TopBounds(m, h, g, top, topsize, b);
      if alignment <= 8 {
        a := 8;
        r := Malloc(bytes);
        if r != 0 {
          HoldingTook(m, mem[..], old(g), g, r - 2, RequestWords(bytes));
        }
      } else {
        var al := RoundAlignment(alignment);
        a := al;
        if bytes >= MAX_REQUEST - al {
          r := 0;
        } else {
          r := AlignedBlock(al, RequestWords(bytes));
        }
      }
    }

    method AlignedBlock(a: nat, nb: nat) returns (r: Addr)
      requires Valid() && TopReadsFree() && IsPower(a) && 32 <= a <= TWO63 && MIN_CHUNK <= nb && 8 * nb + a + 24 < TWO64
      modifies `smallmap, `treemap, `b, `g, `dv, `dvsize, `top, `topsize, `trimCheck, `releaseChecks, mem
      ensures Valid()
      ensures r == 0 <==> 8 * nb + a + 24 >= MAX_REQUEST || !CanServe(old(g), old(topsize), RequestWords(8 * nb + a + 24))
      ensures r == 0 ==> unchanged(this, mem)
      ensures r != 0 ==> r > 2 && 8 * r % a == 0 && r - 2 in Live(g) && nb <= Live(g)[r - 2] <= nb + MIN_CHUNK
      ensures r != 0 ==> Holding(old(mem[..]), mem[..], old(g), g, r - 2, Live(g)[r - 2], {})
      ensures r != 0 ==> AlignedOut(old(Layout()), a, nb, RequestWords(8 * nb + a + 24), r - 2, Layout())
    {
      hide Chosen, AfterMalloc, AfterFree, Led, Trailed, AlignedFrom, AlignedOut, FirstOfBin, NoneFits;
      hide BinsOk, HeapOk, AllFree, SmallMapOk, TreeMapOk, Links, PayloadsKept, CanServe, RequestWords, Took, Tightest, TightestBinned, Holding, Live, IsPower;
      ghost var m := mem[..];
      TopBounds(m, h, g, top, topsize, b);
      var req := 8 * nb + a + 32 - 8;
      r := Malloc(req);
      if r != 0 {
        HoldingTook(m, mem[..], old(g), g, r - 2, RequestWords(req));
        ghost var n := Live(g)[r - 2];
        ghost var p0, s := r - 2, Layout();
        SizeOfLive(g, p0);
        var p, leader := AlignStart(r - 2, a, n, m, old(g));
        ghost var s1 := Layout();
        ghost var k := r - 2 + n - p;
        HeldBlock(m, mem[..], old(g), g, p, k, Taken(leader));
        var trailer := CutEnd(p, nb, k, m, old(g), Taken(leader));
        k := if trailer == 0 then k else nb;
        ghost var s2 := Layout();
        GiveBack(leader, p, k, m, old(g), Taken(trailer));
        ghost var s3 := Layout();
        assert Taken(trailer) + {} == Taken(trailer);
        GiveBack(trailer, p, k, m, old(g), {});
        HeldBlock(m, mem[..], old(g), g, p, k, {});
        r := p + 2;
        AlignedSteps(old(Layout()), a, nb, RequestWords(req), p0, p, s, s1, s2, s3, Layout());
      }
    }

    // -------------------------------------------------------------------------
    // Creation

    /**
     init_user_mstate: the state and its own chunk at the start of the segment, top behind them.
     The size of top wraps where the segment has no room for it.
     */
    constructor InitUserMstate(memory: array<Word>, base: nat, capacity: nat, trimThreshold: Word)
      requires base + capacity <= 8 * memory.Length <= 8 * WORD_LIMIT && capacity > 8 * (MSTATE_WORDS + TOP_FOOT)
      modifies memory
      ensures mem == memory && 8 * h == base + AlignOffset(base) && hi == base + capacity - 8 * TOP_FOOT && leastAddr == base
      ensures Fresh()
      ensures Valid() <==> capacity > 8 * (MSTATE_WORDS + TOP_FOOT) + AlignOffset(base)
      ensures EmptyLists(mem[..], h) && releaseChecks == MAX_RELEASE_CHECK_RATE && trimCheck == trimThreshold
      ensures forall w :: 0 <= w < mem.Length && (8 * w < base || base + capacity < 8 * w + 8) ==> mem[w] == old(memory[w])
    {
      mem := memory;
      h := (base + AlignOffset(base)) / 8;
      hi := base + capacity - 8 * TOP_FOOT;
      leastAddr := base;
      smallmap, treemap := 0, 0;
      dvsize, dv := 0, 0;
      var first := First((base + AlignOffset(base)) / 8);
      top, topsize := first, (base + capacity - 8 * TOP_FOOT + TWO64 - 8 * first) % TWO64;
      trimCheck, releaseChecks := trimThreshold, MAX_RELEASE_CHECK_RATE;
      g, b := map[], NoBins((base + AlignOffset(base)) / 8);
      new;
      hide Fresh, Valid, EmptyLists, AlignOffset, NoBins;
      WriteState();
    }

    /** The words of a new space: the state, its head, the bins and top's two heads. */
    method WriteState()
      requires First(h) == top && hi + 8 > 8 * top && hi + 16 < 8 * mem.Length <= 8 * WORD_LIMIT && hi < TWO64 && leastAddr <= 8 * h
      requires topsize == (hi + TWO64 - 8 * top) % TWO64 && dv == 0 && dvsize == 0 && smallmap == 0 && treemap == 0
      requires g == map[] && b == NoBins(h)
      modifies mem
      ensures Fresh() && EmptyLists(mem[..], h)
      ensures Valid() <==> hi > 8 * top
      ensures forall w :: 0 <= w < mem.Length && (w <= h || hi + 16 <= 8 * w) ==> mem[w] == old(mem[w])
    {
      hide BinsOk, HeapOk, SmallMapOk, TreeMapOk, UsedHead, FreeHead, TopHead, NoBins, EmptyLists, TopWords, Pinuse;
      WrappedSize(hi, First(h));
      forall w | h + 2 <= w < h + 2 + MSTATE_WORDS {
        mem[w] := 0;
      }
      mem[h + HEAD] := UsedHead(MSTATE_WORDS, true);
      InitBins();
      ghost var m := mem[..];
      InitTop();
      EmptyKept(m, mem[..], h);
      EmptyBinsOk(mem[..], h);
      NoTop(mem[..], First(h), g, top, topsize);
      if hi > 8 * top {
        EmptyHeapOk(mem[..], h, top, topsize);
      }
    }

    /** init_bins */
    method InitBins()
      requires First(h) <= mem.Length <= WORD_LIMIT && EmptyTrees(mem[..], h)
      modifies mem
      ensures EmptyLists(mem[..], h) && EmptyTrees(mem[..], h)
      ensures forall w :: 0 <= w < mem.Length && !(h + 13 <= w < h + 77) ==> mem[w] == old(mem[w])
    {
      for i := 0 to NSMALLBINS
        invariant forall j :: 0 <= j < i ==> EmptyList(mem[..], h, j)
        invariant forall w :: 0 <= w < mem.Length && !(h + 13 <= w < h + 77) ==> mem[w] == old(mem[w])
      {
        var bin := SmallBin(h, i);
        ghost var m := mem[..];
        mem[bin + FD] := bin;
        mem[bin + BK] := bin;
        forall j | 0 <= j < i + 1
          ensures EmptyList(mem[..], h, j)
        {
          assert j < i ==> EmptyList(m, h, j);
        }
      }
    }

    /** A new space: no block, nothing binned, and top, of a size that may have wrapped, behind the state. */
    ghost predicate Fresh()
      reads this, mem
    {
      && BinsValid() && g == map[] && b.size == map[] && smallmap == 0 && treemap == 0 && dv == 0 && dvsize == 0
      && top == First(h) && 8 * top < hi + 8 && hi < TWO64 && topsize == (hi + TWO64 - 8 * top) % TWO64
    }

    /** A store of a small number at byte address a, which need not be aligned. */
    method StoreSmall(a: nat, v: nat)
      requires v < 256 && a / 8 + 1 < mem.Length
      modifies mem
      ensures mem[..] == Stored(old(mem[..]), a, v)
    {
      var w, s := a / 8, a % 8;
      if s == 0 {
        mem[w] := v;
      } else {
        mem[w] := LowStored(mem[w], s, v);
        mem[w + 1] := HighStored(mem[w + 1], s);
      }
    }

    /** init_top of an aligned top */
    method InitTop()
      requires hi + 8 > 8 * top && hi < TWO64 && topsize == (hi + TWO64 - 8 * top) % TWO64
      requires hi + 16 < 8 * mem.Length <= 8 * WORD_LIMIT && top + HEAD < mem.Length
      modifies mem
      ensures forall w :: 0 <= w < mem.Length && w != top + HEAD && (8 * w + 8 <= hi + 8 || hi + 16 <= 8 * w) ==> mem[w] == old(mem[w])
      ensures hi <= 8 * top ==> !Pinuse(mem[top + HEAD])
      ensures hi > 8 * top ==> TopWords(mem[..], top, top, topsize)
    {
      hide Pinuse, Cinuse, TopHead, EndMarked, TopWords, Stored;
      WrappedSize(hi, top);
      ghost var m := mem[..];
      mem[top + HEAD] := TopHead(topsize);
      StoreSmall((8 * top + topsize) % TWO64 + 8, 8 * TOP_FOOT);
      TopWritten(m, mem[..], top, topsize, hi);
    }

    /** create_mspace_with_base */
    static method CreateWithBase(memory: array<Word>, base: nat, capacity: nat, pageSize: nat, trimThreshold: Word) returns (ms: Mspace?)
      requires base + capacity <= 8 * memory.Length <= 8 * WORD_LIMIT && pageSize < TWO63
      modifies memory
      ensures ms == null <==> capacity <= 8 * (MSTATE_WORDS + TOP_FOOT) || capacity >= TWO64 - 8 * (MSTATE_WORDS + TOP_FOOT) - pageSize
      ensures ms == null ==> memory[..] == old(memory[..])
      ensures ms != null ==> fresh(ms) && ms.mem == memory && 8 * ms.h == base + AlignOffset(base) && ms.hi == base + capacity - 8 * TOP_FOOT && ms.leastAddr == base
      ensures ms != null ==> ms.Fresh() && EmptyLists(memory[..], ms.h)
      ensures ms != null ==> (ms.Valid() <==> capacity > 8 * (MSTATE_WORDS + TOP_FOOT) + AlignOffset(base))
      ensures forall w :: 0 <= w < memory.Length && (8 * w < base || base + capacity < 8 * w + 8) ==> memory[w] == old(memory[w])
    {
      var least := 8 * (MSTATE_WORDS + TOP_FOOT);
      if capacity > least && capacity < TWO64 - least - pageSize {
        ms := new Mspace.InitUserMstate(memory, base, capacity, trimThreshold);
      } else {
        ms := null;
      }
    }

    // -------------------------------------------------------------------------
    // When all is freed

    /** All of the space is top again, and its head says so; nothing is binned. */
    ghost predicate AsCreated()
      reads this, mem
    {
      && top == First(h) && topsize == hi - 8 * First(h) && top + HEAD < mem.Length && Pinuse(mem[top + HEAD])
      && dv == 0 && dvsize == 0 && smallmap == 0 && treemap == 0
    }

    /** With no block in use the space is as it was created, whatever happened before. */
    lemma AllFreed()
      requires Valid() && Live(g) == map[]
      ensures g == map[] && b.size == map[] && AsCreated()
    {
      hide BinsOk, SmallMapOk, TreeMapOk, HeadsOk, Pinuse, Cinuse, EndMarked, TopHead;
      forall a | a in g
        ensures !g[a].used
      {
        assert a !in Live(g);
      }
      NothingUsed(g, First(h), top);
      NothingBinned(mem[..], h, b, smallmap, treemap) by {
        assert forall a :: a in b.size ==> a in g;
      }
    }

    /**
     The first block of an empty space is cut off top and freed again: all is as it was exactly if
     the end of the segment leaves top marked as free.
     */
    method MallocThenFree(bytes: nat) returns (r: Addr)
      requires Valid() && Live(g) == map[] && bytes < TWO64
      modifies `smallmap, `treemap, `b, `g, `dv, `dvsize, `top, `topsize, `trimCheck, `releaseChecks, mem
      ensures r == 0 <==> bytes >= MAX_REQUEST || old(topsize) <= 8 * RequestWords(bytes)
      ensures AsCreated() <==> r == 0 || hi % 4 < 2
      ensures r != 0 && hi % 4 >= 2 ==> Stranded() && top == First(h) + RequestWords(bytes)
    {
      hide Heaped, Links, CanServe, RequestWords, Tightest, TightestBinned, PayloadsKept, Stranded, NoneFits;
      AllFreed();
      EmptyServes(g, topsize, RequestWords(bytes));
      NullNotLive();
      r := Malloc(bytes);
      if r != 0 {
        assert r - 2 !in old(g);
        OnlyBlock(mem[..], First(h), g, top, topsize, RequestWords(bytes)) by {
          HeapNow();
        }
        Free(r);
        if hi % 4 < 2 {
          assert Live(g) == map[];
          AllFreed();
        }
      }
    }

    /** The same from the creation on: for which ends of the segment a block can be had and given back without a trace. */
    static method CreateMallocFree(memory: array<Word>, base: nat, capacity: nat, pageSize: nat, trimThreshold: Word, bytes: nat)
      returns (ms: Mspace?, r: Addr)
      requires base + capacity <= 8 * memory.Length <= 8 * WORD_LIMIT && pageSize < TWO63 && bytes < TWO64
      requires 8 * (MSTATE_WORDS + TOP_FOOT) + AlignOffset(base) < capacity < TWO64 - 8 * (MSTATE_WORDS + TOP_FOOT) - pageSize
      modifies memory
      ensures ms != null && fresh(ms)
      ensures r == 0 <==> bytes >= MAX_REQUEST || capacity <= 8 * (MSTATE_WORDS + TOP_FOOT + RequestWords(bytes)) + AlignOffset(base)
      ensures ms.AsCreated() <==> r == 0 || (base + capacity) % 4 < 2
    {
      hide Mspace.Valid, Mspace.AsCreated, Mspace.Stranded, RequestWords, AlignOffset, EmptyLists;
      ms := CreateWithBase(memory, base, capacity, pageSize, trimThreshold);
      SameEnd(base + capacity);
      assert Live(ms.g) == map[];
      r := ms.MallocThenFree(bytes);
    }

    /** With a free chunk left in front of top, no tiling agrees with heads and feet. */
    lemma StrandedIsBroken(g': Chunks)
      requires Stranded()
      ensures !HeapOk(mem[..], First(h), g', top, topsize)
    {
      NoTop(mem[..], First(h), g', top, topsize);
    }

    lemma AllFreeNow()
      requires Heaped()
      ensures AllFree(g, b.size)
    {
    }

    lemma HeapNow()
      requires Valid()
      ensures HeapOk(mem[..], First(h), g, top, topsize) && topsize > 0 && 8 * top + topsize == hi
    {
    }

    /**
     A first request in a space whose segment has no room for top, so that the size of top is
     0 or has wrapped: the bytes asked for need not lie in the segment.
     */
    method FirstMalloc(bytes: nat) returns (r: Addr)
      requires Fresh() && hi <= 8 * top && bytes < TWO64
      requires bytes < MAX_REQUEST ==> top + RequestWords(bytes) + HEAD < mem.Length
      modifies `top, `topsize, mem
      ensures r == 0 <==> bytes >= MAX_REQUEST || hi == 8 * First(h)
      ensures r == 0 ==> unchanged(this, mem)
      ensures r != 0 ==> r - 2 == First(h) && mem[r - 2 + HEAD] == UsedHead(RequestWords(bytes), true)
      ensures r != 0 ==> (8 * r + bytes <= hi + 8 * TOP_FOOT <==> 8 * First(h) + bytes <= hi + 56)
    {
      hide BinsOk, SmallMapOk, TreeMapOk, RequestWords, UsedHead, ShiftDown, LowTwo, Index;
      WrappedSize(hi, top);
      r := 0;
      if bytes < MAX_REQUEST {
        var nb := RequestWords(bytes);
        if bytes <= MAX_SMALL_REQUEST {
          var smallbits := ShiftDown(smallmap, Index(nb));
          NothingShifted(Index(nb));
          if LowTwo(smallbits) || (nb > dvsize && (smallbits != 0 || treemap != 0)) {
            assert false;
          }
        } else if treemap != 0 {
          assert false;
        }
        if nb <= dvsize {
          assert false;
        } else if 8 * nb < topsize {
          var p := SplitTop(nb);
          r := p + 2;
        }
      }
    }

    /** usable size, in bytes, of a block */
    method UsableSize(r: Addr) returns (n: nat)
      requires Valid() && (r != 0 ==> r >= 2 && r - 2 in Live(g))
      ensures r != 0 ==> n + 8 == 8 * Live(g)[r - 2]
      ensures r == 0 ==> n == 0
    {
      hide BinsOk, HeapOk, AllFree, SmallMapOk, TreeMapOk, Pinuse, Cinuse;
      n := 0;
      if r != 0 {
        HeadsRead(mem[..], h, g, top, topsize, r - 2);
        if Cinuse(mem[r - 2 + HEAD]) {
          n := 8 * SizeOf(mem[r - 2 + HEAD]) - 8;
        }
      }
    }

    lemma NullNotLive()
      requires Valid()
      ensures 0 !in g && 0 !in Live(g)
    {
      TopBounds(mem[..], h, g, top, topsize, b);
    }

    lemma BlockWithin(p: Addr)
      requires Valid() && p in Live(g)
      ensures p > 0 && p + Live(g)[p] + HEAD < mem.Length && Live(g)[p] >= MIN_CHUNK
    {
      HeadsRead(mem[..], h, g, top, topsize, p);
    }

    /** The payloads of two live blocks have no word in common, and lie between the mstate and top. */
    lemma PayloadsDisjoint(p: Addr, c: Addr)
      requires Valid() && p in Live(g) && c in Live(g) && p != c
      ensures p + Live(g)[p] < c + 2 || c + Live(g)[c] < p + 2
      ensures First(h) + 2 <= p + 2 && p + Live(g)[p] <= top
    {
      hide BinsOk, SmallMapOk, TreeMapOk;
      BlocksApart(mem[..], h, g, top, topsize, p, c);
      ChunkWithin(mem[..], First(h), g, top, topsize, p);
    }
  }
}
