/** The pointer changes of unlink_large_chunk that reach into the tries. */
module BinTrees {
  import opened Shift
  import opened TreeIndex
  import opened SizeTrie
  import opened Words
  import opened Rings
  import opened Bins

  /** The side of its parent on which the node of size s hangs. */
  function Side(t: Trie, s: nat): (bit: nat)
    requires s in t.node
    ensures bit < 2
  {
    Shr(s, t.node[s].level) % 2
  }

  /** The word that points to the tree node of size s. */
  function Hook(h: Addr, b: Bins, t: Trie, s: nat): Addr
    requires s in t.node && s < WORD_LIMIT
  {
    Slot(h, b, s, t.node[s].up, Side(t, s))
  }

  /** The tree nodes of trie t are among those of the bins. */
  ghost predicate PartOf(h: Addr, b: Bins, t: Trie)
  {
    && Shape(h, b)
    && TrieOk(t)
    && t.node.Keys <= b.trie.node.Keys
  }

  lemma NodeFacts(h: Addr, b: Bins, t: Trie, s: nat)
    requires PartOf(h, b, t) && s in t.node
    ensures s in b.ring && |b.ring[s]| > 0 && NodeOf(b, s) == b.ring[s][0] != 0
    ensures NodeOf(b, s) in b.size && b.size[NodeOf(b, s)] == s && MIN_LARGE <= s < WORD_LIMIT
    ensures First(h) <= NodeOf(b, s)
  {
    assert RingShape(h, b, s);
    Element(h, b, s, 0);
  }

  /** Only the hook of s points to s. */
  lemma OneHook(t: Trie, s: nat, x: nat)
    requires TrieOk(t) && s in t.node && x in t.node
    ensures s != 0
    ensures t.node[x].left == s <==> t.node[s].up == x && Side(t, s) == 0
    ensures t.node[x].right == s <==> t.node[s].up == x && Side(t, s) == 1
    ensures t.node[x].up == s <==> x != 0 && (t.node[s].left == x || t.node[s].right == x)
  {
    hide Bin, RootLevel, Shr;
    assert NodeOk(t, s) && UpOk(t, s) && ChildOk(t, s, 0) && ChildOk(t, s, 1);
    assert NodeOk(t, x) && UpOk(t, x) && ChildOk(t, x, 0) && ChildOk(t, x, 1);
  }

  lemma OneRoot(t: Trie, s: nat, i: nat)
    requires TrieOk(t) && s in t.node && i < NTREEBINS
    ensures TreeSize(s) && (t.root[i] == s <==> t.node[s].up == 0 && Bin(s) == i)
  {
    hide Bin, RootLevel, Shr;
    assert NodeOk(t, s) && UpOk(t, s) && RootOk(t, i);
  }

  lemma LinksInTrie(t: Trie, s: nat)
    requires TrieOk(t) && s in t.node
    ensures 0 !in t.node
    ensures t.node[s].left == 0 || t.node[s].left in t.node - {s}
    ensures t.node[s].right == 0 || t.node[s].right in t.node - {s}
    ensures t.node[s].up == 0 || t.node[s].up in t.node - {s}
  {
    hide Bin, RootLevel, Shr;
    assert NodeOk(t, s) && ChildOk(t, s, 0) && ChildOk(t, s, 1) && UpOk(t, s);
    assert 0 in t.node ==> NodeOk(t, 0);
  }

  // ---------------------------------------------------------------------------
  // *RP = 0: a leaf is cut off

  ghost predicate Unhooked(m: seq<Word>, m': seq<Word>, h: Addr, b: Bins, s: nat)
    requires s in b.trie.node && s < WORD_LIMIT
  {
    var w := Hook(h, b, b.trie, s);
    w < |m| && SameExcept(m, m', {w}) && m'[w] == 0
  }

  lemma UnhookedTrees(m: seq<Word>, m': seq<Word>, h: Addr, b: Bins, s: nat)
    requires PartOf(h, b, b.trie) && TreesLinked(m, h, b)
    requires s in b.trie.node && s < WORD_LIMIT && b.trie.node[s].IsLeaf() && Unhooked(m, m', h, b, s)
    ensures TreesLinked(m', h, b.(trie := Substitute(b.trie, s, 0)))
  {
    hide Bin, Substitute;
    NodeFacts(h, b, b.trie, s);
    Substituted(b.trie, s, 0);
    var b' := b.(trie := Substitute(b.trie, s, 0));
    assert forall x :: NodeOf(b', x) == NodeOf(b, x);
    forall x | x in b'.trie.node
      ensures NodeLinked(m', h, b', x)
    {
      UnhookedNode(m, m', h, b, s, x);
    }
    forall i | 0 <= i < NTREEBINS
      ensures RootLinked(m', h, b', i)
    {
      assert RootLinked(m, h, b, i);
      OneRoot(b.trie, s, i);
      if b.trie.node[s].up != 0 {
        assert NodeOk(b.trie, s) && UpOk(b.trie, s);
        NodeFacts(h, b, b.trie, b.trie.node[s].up);
      }
    }
  }

  /** The hook of s is the child word for s of its parent, and no other word of a tree node. */
  lemma HookWithin(h: Addr, b: Bins, s: nat, x: nat)
    requires PartOf(h, b, b.trie) && s in b.trie.node && s < WORD_LIMIT && x in b.trie.node && x != s
    ensures var w, a := Hook(h, b, b.trie, s), NodeOf(b, x);
      && (w == a + CHILD0 <==> b.trie.node[x].left == s) && (w == a + CHILD1 <==> b.trie.node[x].right == s)
      && w != a + PARENT && w != a + INDEX
  {
    hide Bin, Side;
    NodeFacts(h, b, b.trie, s);
    NodeFacts(h, b, b.trie, x);
    OneHook(b.trie, s, x);
    assert NodeOk(b.trie, s) && UpOk(b.trie, s);
    var q := b.trie.node[s].up;
    SlotClear(h, b, s, q, Side(b.trie, s), NodeOf(b, x));
    NodesDiffer(h, b, x, q);
  }

  lemma UnhookedNode(m: seq<Word>, m': seq<Word>, h: Addr, b: Bins, s: nat, x: nat)
    requires PartOf(h, b, b.trie) && TreesLinked(m, h, b)
    requires s in b.trie.node && s < WORD_LIMIT && b.trie.node[s].IsLeaf() && Unhooked(m, m', h, b, s)
    requires x in b.trie.node && x != s
    ensures x in Substitute(b.trie, s, 0).node
    ensures NodeLinked(m', h, b.(trie := Substitute(b.trie, s, 0)), x)
  {
    hide Bin, Substitute, Hook, Side;
    var b' := b.(trie := Substitute(b.trie, s, 0));
    HookWithin(h, b, s, x);
    NodeFacts(h, b, b.trie, s);
    Substituted(b.trie, s, 0);
    OneHook(b.trie, s, x);
    assert NodeLinked(m, h, b, x);
    hide PartOf, TreesLinked;
    assert forall y :: NodeOf(b', y) == NodeOf(b, y);
  }

  // ---------------------------------------------------------------------------
  // The chunk at r takes the place of the tree node of size n

  /** w is not one of the words that join child c to r. */
  predicate NotChildWord(b: Bins, c: nat, r: Addr, bit: nat, w: nat)
  {
    c != 0 ==> w != r + CHILD0 + bit && w != NodeOf(b, c) + PARENT
  }

  ghost predicate MovedChild(m': seq<Word>, b: Bins, c: nat, r: Addr, bit: nat)
  {
    c != 0 ==>
      && r + CHILD0 + bit < |m'| && NodeOf(b, c) + PARENT < |m'|
      && m'[r + CHILD0 + bit] == NodeOf(b, c)
      && m'[NodeOf(b, c) + PARENT] == r
  }

  ghost predicate Moved(m: seq<Word>, m': seq<Word>, h: Addr, b: Bins, t: Trie, n: nat, r: Addr)
    requires n in t.node && n < WORD_LIMIT
  {
    var nd := t.node[n];
    var w := Hook(h, b, t, n);
    && w < |m| && r + 8 <= |m|
    && |m'| == |m|
    && (forall x | 0 <= x < |m| && x != w && x != r + PARENT
                   && NotChildWord(b, nd.left, r, 0, x) && NotChildWord(b, nd.right, r, 1, x) :: m'[x] == m[x])
    && m'[w] == r
    && m'[r + PARENT] == (if nd.up == 0 then TreeBin(h, Bin(n)) else NodeOf(b, nd.up))
    && MovedChild(m', b, nd.left, r, 0)
    && MovedChild(m', b, nd.right, r, 1)
  }

  /** r is a binned chunk with empty child words, and no tree node of t other than perhaps n's. */
  ghost predicate Movable(m: seq<Word>, h: Addr, b: Bins, t: Trie, n: nat, r: Addr)
  {
    && PartOf(h, b, t)
    && TreesLinked(m, h, b.(trie := t))
    && n in t.node && n < WORD_LIMIT
    && r in b.size && b.size[r] >= MIN_LARGE && r + 8 <= |m|
    && (forall s {:trigger NodeOf(b, s)} :: s in t.node ==> NodeOf(b, s) != r)
    && m[r + CHILD0] == 0 && m[r + CHILD1] == 0 && m[r + INDEX] == Bin(n)
  }

  /** b' has size k in the place of size n, with its node at r. */
  ghost predicate Renaming(b: Bins, t: Trie, n: nat, r: Addr, b': Bins, k: nat)
    requires n in t.node && n < WORD_LIMIT
  {
    && k != 0 && k < WORD_LIMIT && Bin(k) == Bin(n)
    && b'.trie.node.Keys == t.node.Keys - {n} + {k}
    && (k == n || k !in t.node)
    && b'.trie.node[k] == t.node[n]
    && (forall s :: s in t.node && s != n ==> b'.trie.node[s] == Renamed(t.node[s], n, k))
    && |b'.trie.root| == |t.root|
    && (forall i :: 0 <= i < |t.root| ==> b'.trie.root[i] == if t.root[i] == n then k else t.root[i])
    && NodeOf(b', k) == r
    && (forall s :: s != n && s != k ==> NodeOf(b', s) == NodeOf(b, s))
  }

  /** The head and link words at y are as before. */
  ghost predicate SameFront(m: seq<Word>, m': seq<Word>, y: Addr)
  {
    && |m'| == |m|
    && y + 4 <= |m|
    && m'[y + HEAD] == m[y + HEAD] && m'[y + FD] == m[y + FD] && m'[y + BK] == m[y + BK]
  }

  /** Nothing but tree words and treebins was written, and in the chunk a only if it is a tree node or r. */
  ghost predicate TreeWritesOnly(m: seq<Word>, m': seq<Word>, h: Addr, b: Bins, t: Trie, r: Addr)
  {
    && |m'| == |m|
    && (forall i {:trigger SmallBin(h, i)} :: 0 <= i < NSMALLBINS ==> SameFront(m, m', SmallBin(h, i)))
    && (forall a {:trigger SameFront(m, m', a)} :: a in b.size ==> SameFront(m, m', a))
    && (forall a {:trigger SameTreeWords(m, m', a)} ::
          a in b.size && b.size[a] >= MIN_LARGE && a != r && (forall s :: s in t.node ==> NodeOf(b, s) != a) ==>
          SameTreeWords(m, m', a))
  }

  lemma MovedKeeps(m: seq<Word>, m': seq<Word>, h: Addr, b: Bins, t: Trie, n: nat, r: Addr, a: Addr)
    requires Movable(m, h, b, t, n, r) && Moved(m, m', h, b, t, n, r)
    requires a in b.size && a + b.size[a] <= |m|
    ensures SameFront(m, m', a)
  {
    hide Bin, Side;
    var nd := t.node[n];
    LinksInTrie(t, n);
    SlotClear(h, b, n, nd.up, Side(t, n), a);
    assert Apart(b, a, r) && Placed(h, b, a);
    if nd.left != 0 {
      ChildWordClear(h, b, t, nd.left, a);
    }
    if nd.right != 0 {
      ChildWordClear(h, b, t, nd.right, a);
    }
  }

  lemma MovedElsewhere(m: seq<Word>, m': seq<Word>, h: Addr, b: Bins, t: Trie, n: nat, r: Addr, a: Addr)
    requires Movable(m, h, b, t, n, r) && Moved(m, m', h, b, t, n, r)
    requires a in b.size && a + b.size[a] <= |m| && b.size[a] >= MIN_LARGE
    requires a != r && forall s :: s in t.node ==> NodeOf(b, s) != a
    ensures SameTreeWords(m, m', a)
  {
    hide Bin, Side;
    var nd := t.node[n];
    LinksInTrie(t, n);
    SlotClear(h, b, n, nd.up, Side(t, n), a);
    assert Apart(b, a, r) && Placed(h, b, a);
    if nd.left != 0 {
      ChildWordClear(h, b, t, nd.left, a);
    }
    if nd.right != 0 {
      ChildWordClear(h, b, t, nd.right, a);
    }
  }

  lemma MovedHeaders(m: seq<Word>, m': seq<Word>, h: Addr, b: Bins, t: Trie, n: nat, r: Addr, i: nat)
    requires Movable(m, h, b, t, n, r) && Moved(m, m', h, b, t, n, r) && i < NSMALLBINS
    ensures SameFront(m, m', SmallBin(h, i))
  {
    hide Bin, Side;
    var nd := t.node[n];
    LinksInTrie(t, n);
    assert Placed(h, b, r);
    if nd.up != 0 {
      NodeFacts(h, b, t, nd.up);
    }
    if nd.left != 0 {
      NodeFacts(h, b, t, nd.left);
    }
    if nd.right != 0 {
      NodeFacts(h, b, t, nd.right);
    }
  }

  lemma MovedWritesTrees(m: seq<Word>, m': seq<Word>, h: Addr, b: Bins, t: Trie, n: nat, r: Addr)
    requires Movable(m, h, b, t, n, r) && Moved(m, m', h, b, t, n, r)
    requires forall a :: a in b.size ==> a + b.size[a] <= |m|
    ensures TreeWritesOnly(m, m', h, b, t, r)
  {
    hide Bin, Side, Hook, TrieOk;
    forall i | 0 <= i < NSMALLBINS
      ensures SameFront(m, m', SmallBin(h, i))
    {
      MovedHeaders(m, m', h, b, t, n, r, i);
    }
    forall a | a in b.size
      ensures SameFront(m, m', a)
    {
      assert Placed(h, b, a);
      MovedKeeps(m, m', h, b, t, n, r, a);
    }
    forall a | a in b.size && b.size[a] >= MIN_LARGE && a != r && forall s :: s in t.node ==> NodeOf(b, s) != a
      ensures SameTreeWords(m, m', a)
    {
      MovedElsewhere(m, m', h, b, t, n, r, a);
    }
  }

  lemma UnhookedWritesTrees(m: seq<Word>, m': seq<Word>, h: Addr, b: Bins, s: nat)
    requires PartOf(h, b, b.trie) && s in b.trie.node && s < WORD_LIMIT && Unhooked(m, m', h, b, s)
    requires forall a :: a in b.size ==> a + b.size[a] <= |m|
    ensures TreeWritesOnly(m, m', h, b, b.trie, 0)
  {
    hide Bin, Side;
    var q := b.trie.node[s].up;
    LinksInTrie(b.trie, s);
    if q != 0 {
      NodeFacts(h, b, b.trie, q);
    }
    forall a | a in b.size
      ensures SameFront(m, m', a)
    {
      assert Placed(h, b, a);
      SlotClear(h, b, s, q, Side(b.trie, s), a);
    }
    forall a | a in b.size && b.size[a] >= MIN_LARGE && a != 0 && forall x :: x in b.trie.node ==> NodeOf(b, x) != a
      ensures SameTreeWords(m, m', a)
    {
      SlotClear(h, b, s, q, Side(b.trie, s), a);
    }
  }

  /** Such writes leave the rings and sizes alone. */
  lemma TreeWritesKeep(m: seq<Word>, m': seq<Word>, h: Addr, b: Bins, t: Trie, r: Addr, s: nat)
    requires TreeWritesOnly(m, m', h, b, t, r) && Shape(h, b) && s in b.ring && RingOk(m, b, s)
    ensures RingOk(m', b, s)
  {
    var q := b.ring[s];
    forall k | 0 <= k < |q| && q[k] + 4 <= |m|
      ensures m'[q[k] + FD] == m[q[k] + FD] && m'[q[k] + BK] == m[q[k] + BK]
    {
      Element(h, b, s, k);
      assert SameFront(m, m', q[k]);
    }
    if |q| > 1 || s >= NSMALLBINS {
      LinkedFrame(m, m', q);
    }
  }

  lemma MovedTrees(m: seq<Word>, m': seq<Word>, h: Addr, b: Bins, t: Trie, n: nat, r: Addr, b': Bins, k: nat)
    requires Movable(m, h, b, t, n, r) && Moved(m, m', h, b, t, n, r) && Renaming(b, t, n, r, b', k)
    ensures TreesLinked(m', h, b')
  {
    hide Bin, Side;
    forall s | s in b'.trie.node
      ensures NodeLinked(m', h, b', s)
    {
      if s == k {
        MovedPlaced(m, m', h, b, t, n, r, b', k);
      } else {
        MovedNode(m, m', h, b, t, n, r, b', k, s);
      }
    }
    forall i | 0 <= i < NTREEBINS
      ensures RootLinked(m', h, b', i)
    {
      MovedRoot(m, m', h, b, t, n, r, b', k, i);
    }
  }

  lemma MovedPlaced(m: seq<Word>, m': seq<Word>, h: Addr, b: Bins, t: Trie, n: nat, r: Addr, b': Bins, k: nat)
    requires Movable(m, h, b, t, n, r) && Moved(m, m', h, b, t, n, r) && Renaming(b, t, n, r, b', k)
    ensures NodeLinked(m', h, b', k)
  {
    hide Bin, Side;
    var nd := t.node[n];
    LinksInTrie(t, n);
    MovedOwnWords(m, m', h, b, t, n, r);
  }

  lemma MovedOwnWords(m: seq<Word>, m': seq<Word>, h: Addr, b: Bins, t: Trie, n: nat, r: Addr)
    requires Movable(m, h, b, t, n, r) && Moved(m, m', h, b, t, n, r)
    ensures m'[r + INDEX] == m[r + INDEX]
    ensures m'[r + CHILD0] == NodeOf(b, t.node[n].left)
    ensures m'[r + CHILD1] == NodeOf(b, t.node[n].right)
  {
    hide Bin, Side;
    var nd := t.node[n];
    LinksInTrie(t, n);
    assert Placed(h, b, r);
    SlotClear(h, b, n, nd.up, Side(t, n), r);
    if nd.left != 0 {
      ChildWordClear(h, b, t, nd.left, r);
    }
    if nd.right != 0 {
      ChildWordClear(h, b, t, nd.right, r);
    }
  }

  /** The parent word of a tree node is in no other chunk. */
  lemma ChildWordClear(h: Addr, b: Bins, t: Trie, c: nat, a: Addr)
    requires PartOf(h, b, t) && c in t.node && a in b.size
    ensures var x := NodeOf(b, c); x == a || x + 8 <= a || a + b.size[a] <= x
  {
    NodeFacts(h, b, t, c);
    assert Apart(b, a, NodeOf(b, c));
  }

  lemma MovedRoot(m: seq<Word>, m': seq<Word>, h: Addr, b: Bins, t: Trie, n: nat, r: Addr, b': Bins, k: nat, i: nat)
    requires Movable(m, h, b, t, n, r) && Moved(m, m', h, b, t, n, r) && Renaming(b, t, n, r, b', k) && i < NTREEBINS
    ensures RootLinked(m', h, b', i)
  {
    hide Bin, Side;
    var nd := t.node[n];
    assert RootLinked(m, h, b.(trie := t), i);
    OneRoot(t, n, i);
    LinksInTrie(t, n);
    assert RootOk(t, i);
    assert Placed(h, b, r);
    if nd.up != 0 {
      NodeFacts(h, b, t, nd.up);
    }
    if nd.left != 0 {
      NodeFacts(h, b, t, nd.left);
    }
    if nd.right != 0 {
      NodeFacts(h, b, t, nd.right);
    }
  }

  lemma MovedNode(m: seq<Word>, m': seq<Word>, h: Addr, b: Bins, t: Trie, n: nat, r: Addr, b': Bins, k: nat, s: nat)
    requires Movable(m, h, b, t, n, r) && Moved(m, m', h, b, t, n, r) && Renaming(b, t, n, r, b', k)
    requires s in t.node && s != n
    ensures NodeLinked(m', h, b', s)
  {
    hide Bin, Side, Hook, Moved, TrieOk;
    LinksInTrie(t, s);
    var nd := t.node[n];
    var a := NodeOf(b, s);
    assert NodeLinked(m, h, b.(trie := t), s);
    NodeFacts(h, b, t, s);
    assert Apart(b, a, r);
    OneHook(t, n, s);
    MovedHookWords(m, m', h, b, t, n, r, s);
  }

  /** How a move changes the tree words of another node: the child word that was n, the parent word that was n. */
  lemma MovedHookWords(m: seq<Word>, m': seq<Word>, h: Addr, b: Bins, t: Trie, n: nat, r: Addr, s: nat)
    requires Movable(m, h, b, t, n, r) && Moved(m, m', h, b, t, n, r) && s in t.node && s != n
    ensures var a := NodeOf(b, s);
      && a + 8 <= |m| == |m'|
      && m'[a + CHILD0] == (if t.node[s].left == n then r else m[a + CHILD0])
      && m'[a + CHILD1] == (if t.node[s].right == n then r else m[a + CHILD1])
      && m'[a + PARENT] == (if t.node[s].up == n then r else m[a + PARENT])
      && m'[a + INDEX] == m[a + INDEX]
  {
    hide Bin, Side;
    var a := NodeOf(b, s);
    assert NodeLinked(m, h, b.(trie := t), s);
    OneHook(t, n, s);
    OneHook(t, s, n);
    HookAt(h, b, t, n, s);
    MovedWord(m, m', h, b, t, n, r, s, CHILD0);
    MovedWord(m, m', h, b, t, n, r, s, CHILD1);
    MovedWord(m, m', h, b, t, n, r, s, PARENT);
    MovedWord(m, m', h, b, t, n, r, s, INDEX);
  }

  /** The hook of n is a word of the node of s only when n hangs from s. */
  lemma HookAt(h: Addr, b: Bins, t: Trie, n: nat, s: nat)
    requires PartOf(h, b, t) && n in t.node && n < WORD_LIMIT && s in t.node
    ensures var a := NodeOf(b, s);
      if t.node[n].up == s then Hook(h, b, t, n) == a + CHILD0 + Side(t, n)
      else Hook(h, b, t, n) <= a || a + 8 <= Hook(h, b, t, n)
  {
    hide Bin, Side;
    NodeFacts(h, b, t, s);
    LinksInTrie(t, n);
    SlotClear(h, b, n, t.node[n].up, Side(t, n), NodeOf(b, s));
    NodesDiffer(h, b, s, t.node[n].up);
    assert s != 0;
  }

  lemma MovedWord(m: seq<Word>, m': seq<Word>, h: Addr, b: Bins, t: Trie, n: nat, r: Addr, s: nat, o: nat)
    requires Movable(m, h, b, t, n, r) && Moved(m, m', h, b, t, n, r) && s in t.node && s != n && CHILD0 <= o <= INDEX
    ensures var w := NodeOf(b, s) + o;
      && w < |m|
      && m'[w] == if w == Hook(h, b, t, n) || (o == PARENT && (t.node[n].left == s || t.node[n].right == s)) then r else m[w]
  {
    hide Bin, Side, Slot;
    var nd := t.node[n];
    var a := NodeOf(b, s);
    assert a + 8 <= |m| by {
      assert NodeLinked(m, h, b.(trie := t), s);
    }
    NodeFacts(h, b, t, s);
    assert Apart(b, a, r);
    LinksInTrie(t, n);
    if nd.left != 0 {
      ChildWordClear(h, b, t, nd.left, a);
      NodesDiffer(h, b, s, nd.left);
    }
    if nd.right != 0 {
      ChildWordClear(h, b, t, nd.right, a);
      NodesDiffer(h, b, s, nd.right);
    }
  }

  // ---------------------------------------------------------------------------
  // Reading around a node

  /** Where the node of size n hangs, as its own words and its parent's tell. */
  lemma HookRead(m: seq<Word>, h: Addr, b: Bins, t: Trie, n: nat)
    requires PartOf(h, b, t) && TreesLinked(m, h, b.(trie := t)) && n in t.node
    ensures n < WORD_LIMIT && NodeOf(b, n) in b.size && b.size[NodeOf(b, n)] == n
    ensures var x := NodeOf(b, n);
      && First(h) <= x && x + 8 <= |m| && x != 0
      && m[x + INDEX] == Bin(n) && TreeBin(h, Bin(n)) < |m| && TreeBin(h, Bin(n)) < First(h)
      && (m[TreeBin(h, Bin(n))] == x <==> t.node[n].up == 0)
      && m[x + PARENT] == (if t.node[n].up == 0 then TreeBin(h, Bin(n)) else NodeOf(b, t.node[n].up))
      && m[x + CHILD0] == NodeOf(b, t.node[n].left) && m[x + CHILD1] == NodeOf(b, t.node[n].right)
      && (t.node[n].up == 0 ==> Hook(h, b, t, n) == TreeBin(h, Bin(n)))
    ensures t.node[n].up != 0 ==>
      var x := NodeOf(b, n);
      var u := NodeOf(b, t.node[n].up);
      && First(h) <= u && u + 8 <= |m|
      && (m[u + CHILD0] == x <==> Side(t, n) == 0)
      && Hook(h, b, t, n) == u + CHILD0 + Side(t, n)
  {
    hide Bin, Side;
    var b1 := b.(trie := t);
    NodeFacts(h, b, t, n);
    assert NodeLinked(m, h, b1, n) && RootLinked(m, h, b1, Bin(n));
    OneRoot(t, n, Bin(n));
    LinksInTrie(t, n);
    assert RootOk(t, Bin(n));
    NodesDiffer(h, b, n, t.root[Bin(n)]);
    var up := t.node[n].up;
    if up != 0 {
      NodeFacts(h, b, t, up);
      assert NodeLinked(m, h, b1, up);
      OneHook(t, n, up);
      LinksInTrie(t, up);
      NodesDiffer(h, b, n, t.node[up].left);
    }
  }

  /** The tree words at x and y do not overlap. */
  predicate Far(x: Addr, y: Addr)
  {
    x + 8 <= y || y + 8 <= x
  }

  /** Word w is not among the words after the first at x. */
  predicate Outside(w: nat, x: Addr)
  {
    w <= x || x + 8 <= w
  }

  /** The words of a node, of the chunk that takes its place, of its hook and of its children are apart. */
  lemma MoveApart(m: seq<Word>, h: Addr, b: Bins, t: Trie, n: nat, r: Addr)
    requires Movable(m, h, b, t, n, r)
    ensures var x := NodeOf(b, n); var w := Hook(h, b, t, n);
      && Far(x, r) && Outside(w, x) && Outside(w, r)
      && First(h) <= r && r + 8 <= |m| && w < |m|
    ensures ChildApart(m, h, b, t, n, r, t.node[n].left) && ChildApart(m, h, b, t, n, r, t.node[n].right)
  {
    hide Bin, Side;
    NodeFacts(h, b, t, n);
    LinksInTrie(t, n);
    assert Apart(b, NodeOf(b, n), r) && Placed(h, b, r);
    SlotClear(h, b, n, t.node[n].up, Side(t, n), r);
    HookAt(h, b, t, n, n);
    HookRead(m, h, b, t, n);
    ChildrenApart(m, h, b, t, n, r, t.node[n].left);
    ChildrenApart(m, h, b, t, n, r, t.node[n].right);
  }

  ghost predicate ChildApart(m: seq<Word>, h: Addr, b: Bins, t: Trie, n: nat, r: Addr, c: nat)
    requires n in t.node && n < WORD_LIMIT
  {
    var y := NodeOf(b, c);
    && (y == 0 <==> c == 0)
    && y + 8 <= |m|
    && (c != 0 ==> First(h) <= y && Far(NodeOf(b, n), y) && Far(y, r) && Outside(Hook(h, b, t, n), y))
  }

  lemma ChildrenApart(m: seq<Word>, h: Addr, b: Bins, t: Trie, n: nat, r: Addr, c: nat)
    requires Movable(m, h, b, t, n, r) && (c == t.node[n].left || c == t.node[n].right)
    ensures ChildApart(m, h, b, t, n, r, c)
  {
    hide Bin, Side;
    LinksInTrie(t, n);
    NodeFacts(h, b, t, n);
    if c != 0 {
      NodeFacts(h, b, t, c);
      assert Apart(b, NodeOf(b, c), r) && Apart(b, NodeOf(b, c), NodeOf(b, n));
      NodesDiffer(h, b, n, c);
      HookRead(m, h, b, t, c);
      HookAt(h, b, t, n, c);
      OneHook(t, n, c);
      OneHook(t, c, n);
      NoLoop(t, n, c);
    }
  }

  /** A parent is not its child's child. */
  lemma NoLoop(t: Trie, n: nat, c: nat)
    requires TrieOk(t) && n in t.node && c in t.node && (t.node[n].left == c || t.node[n].right == c) && c != 0
    ensures t.node[n].up != c
  {
    hide Bin, RootLevel, Shr;
    assert NodeOk(t, n) && ChildOk(t, n, 0) && ChildOk(t, n, 1) && UpOk(t, n);
  }

  // ---------------------------------------------------------------------------
  // Which words these changes write

  lemma MovedBinWrites(m: seq<Word>, m': seq<Word>, h: Addr, b: Bins, t: Trie, n: nat, r: Addr)
    requires Movable(m, h, b, t, n, r) && Moved(m, m', h, b, t, n, r)
    ensures BinWrites(m, m', h, b.size)
  {
    hide Bin, Side, Hook;
    LinksInTrie(t, n);
    HookNotOff(h, b, t, n);
    assert Placed(h, b, r);
    assert !OffBins(h, b.size, r + PARENT) && !OffBins(h, b.size, r + CHILD0) && !OffBins(h, b.size, r + CHILD1);
    forall c | c in t.node
      ensures !OffBins(h, b.size, NodeOf(b, c) + PARENT)
    {
      NodeFacts(h, b, t, c);
    }
  }

  lemma HookNotOff(h: Addr, b: Bins, t: Trie, n: nat)
    requires PartOf(h, b, t) && n in t.node && n < WORD_LIMIT
    ensures !OffBins(h, b.size, Hook(h, b, t, n))
  {
    hide Bin, Side;
    LinksInTrie(t, n);
    if t.node[n].up != 0 {
      NodeFacts(h, b, t, t.node[n].up);
    }
  }

  lemma UnhookedBinWrites(m: seq<Word>, m': seq<Word>, h: Addr, b: Bins, s: nat)
    requires PartOf(h, b, b.trie) && s in b.trie.node && s < WORD_LIMIT && Unhooked(m, m', h, b, s)
    ensures BinWrites(m, m', h, b.size)
  {
    hide Hook;
    HookNotOff(h, b, b.trie, s);
  }

  /** One child adopted. */
  ghost predicate Adopted(m: seq<Word>, m': seq<Word>, c: Addr, r: Addr, bit: nat)
    requires |m'| == |m| && r + CHILD0 + bit < |m| && c + PARENT < |m|
  {
    if c == 0 then m' == m
    else SameExcept(m, m', {r + CHILD0 + bit, c + PARENT}) && m'[r + CHILD0 + bit] == c && m'[c + PARENT] == r
  }

  /** A hook outside a node leaves the words of the node alone. */
  lemma HookClear(m: seq<Word>, m': seq<Word>, w: nat, x: Addr)
    requires SameExcept(m, m', {w}) && Outside(w, x) && x + 8 <= |m|
    ensures |m'| == |m| && m'[x + CHILD0] == m[x + CHILD0] && m'[x + CHILD1] == m[x + CHILD1]
  {
  }

  /** The four steps of a move. */
  lemma MovedInSteps(m: seq<Word>, m1: seq<Word>, m2: seq<Word>, m3: seq<Word>, m4: seq<Word>,
                     h: Addr, b: Bins, t: Trie, n: nat, r: Addr)
    requires Movable(m, h, b, t, n, r)
    requires |m| == |m1| == |m2| == |m3| == |m4|
    requires var w := Hook(h, b, t, n);
      && w < |m| && SameExcept(m, m1, {w}) && m1[w] == r
    requires r + 8 <= |m| && SameExcept(m1, m2, {r + PARENT})
    requires m2[r + PARENT] == (if t.node[n].up == 0 then TreeBin(h, Bin(n)) else NodeOf(b, t.node[n].up))
    requires NodeOf(b, t.node[n].left) + PARENT < |m| && Adopted(m2, m3, NodeOf(b, t.node[n].left), r, 0)
    requires NodeOf(b, t.node[n].right) + PARENT < |m| && Adopted(m3, m4, NodeOf(b, t.node[n].right), r, 1)
    ensures Moved(m, m4, h, b, t, n, r)
  {
    hide Bin, Side, Hook;
    MoveApart(m, h, b, t, n, r);
    hide Movable, NodeOf;
  }
}
