/** What the trie walks over tree chunks read from memory. */
module TreeWalks {
  import opened Shift
  import opened TreeIndex
  import opened SizeTrie
  import opened TrieSearch
  import opened Words
  import opened Bins
  import opened BinTrees

  /** Address t is the tree node of size q. */
  ghost predicate AtNode(b: Bins, q: nat, t: Addr)
  {
    q in b.trie.node && NodeOf(b, q) == t
  }

  /** A tree node's words: its chunk size and its children, null when it has none. */
  lemma ReadNode(m: seq<Word>, h: Addr, b: Bins, q: nat, t: Addr)
    requires BinsOk(m, h, b) && AtNode(b, q, t)
    ensures t + 8 <= |m| && t in b.size && b.size[t] == q && MIN_LARGE <= q < WORD_LIMIT && First(h) <= t && t != 0
    ensures t + q <= |m|
    ensures SizeOf(m[t + HEAD]) == q
    ensures m[t + CHILD0] == NodeOf(b, b.trie.node[q].left) && m[t + CHILD1] == NodeOf(b, b.trie.node[q].right)
    ensures m[t + PARENT] == ParentWord(h, b, q) && m[t + INDEX] == Bin(q)
    ensures forall c :: c == b.trie.node[q].left || c == b.trie.node[q].right ==>
      (c == 0 <==> NodeOf(b, c) == 0) && (c != 0 ==> AtNode(b, c, NodeOf(b, c)))
    ensures b.trie.node[q].level <= 61
  {
    hide Bin, Side, Shr;
    NodeFacts(h, b, b.trie, q);
    assert NodeLinked(m, h, b, q) && SizeWord(m, b, t);
    LinksInTrie(b.trie, q);
    if b.trie.node[q].left != 0 {
      NodeFacts(h, b, b.trie, b.trie.node[q].left);
    }
    if b.trie.node[q].right != 0 {
      NodeFacts(h, b, b.trie, b.trie.node[q].right);
    }
    assert NodeOk(b.trie, q);
  }

  /** A treebin's word: its root. */
  lemma ReadRoot(m: seq<Word>, h: Addr, b: Bins, i: nat)
    requires BinsOk(m, h, b) && i < NTREEBINS
    ensures |b.trie.root| == NTREEBINS && TreeBin(h, i) < |m|
    ensures m[TreeBin(h, i)] == NodeOf(b, b.trie.root[i])
    ensures b.trie.root[i] == 0 <==> m[TreeBin(h, i)] == 0
    ensures b.trie.root[i] != 0 ==> AtNode(b, b.trie.root[i], m[TreeBin(h, i)])
  {
    hide Bin;
    assert RootLinked(m, h, b, i) && RootOk(b.trie, i);
    if b.trie.root[i] != 0 {
      NodeFacts(h, b, b.trie, b.trie.root[i]);
    }
  }

  // ---------------------------------------------------------------------------
  // The walk for one size

  /** t is a node on the path of size n, kb the bits of n still to be used, and n is not above t. */
  ghost predicate WalkingTo(b: Bins, n: nat, q: nat, t: Addr, kb: nat)
  {
    && AtNode(b, q, t)
    && OnPath(b.trie, q, n)
    && b.trie.node[q].level <= 61
    && kb == Probe(n, b.trie.node[q].level)
    && (n in b.trie.node ==> b.trie.node[n].level <= b.trie.node[q].level)
  }

  lemma WalkStart(m: seq<Word>, h: Addr, b: Bins, n: nat)
    requires BinsOk(m, h, b) && TreeSize(n) && b.trie.root[Bin(n)] != 0
    ensures TreeBin(h, Bin(n)) < |m|
    ensures WalkingTo(b, n, b.trie.root[Bin(n)], m[TreeBin(h, Bin(n))], Shl64(8 * n, LeftShift(Bin(n))))
  {
    ReadRoot(m, h, b, Bin(n));
    RootOnPath(b.trie, n);
    ProbeStart(n);
    if n in b.trie.node {
      RootUnder(b.trie, n);
    }
  }

  /** One step: the sign bit of kb picks the child; when it is null, size n is not in the trees. */
  lemma WalkStep(m: seq<Word>, h: Addr, b: Bins, n: nat, q: nat, t: Addr, kb: nat)
    requires BinsOk(m, h, b) && WalkingTo(b, n, q, t, kb) && q != n
    ensures b.trie.node[q].level > 0
    ensures Shr(kb, 63) % 2 == Shr(n, b.trie.node[q].level - 1) % 2
    ensures var bit := Shr(kb, 63) % 2;
      var c := b.trie.node[q].Child(bit);
      && t + 8 <= |m| && m[t + CHILD0 + bit] == NodeOf(b, c)
      && (c != 0 <==> m[t + CHILD0 + bit] != 0)
      && (c != 0 ==> WalkingTo(b, n, c, m[t + CHILD0 + bit], kb * 2 % TWO64)
                     && b.trie.node[c].level == b.trie.node[q].level - 1)
      && (c == 0 ==> n !in b.trie.node)
  {
    hide Bin, Side;
    ReadNode(m, h, b, q, t);
    OtherSizeAbove(b.trie, q, n);
    var e := b.trie.node[q].level;
    ProbeSign(n, e);
    var bit := Shr(kb, 63) % 2;
    var c := b.trie.node[q].Child(bit);
    if n in b.trie.node {
      Descend(b.trie, q, n);
    }
    if c != 0 {
      ChildUnder(b.trie, q, bit);
      ChildOnPath(b.trie, q, n);
    }
  }

  // ---------------------------------------------------------------------------
  // The search for a leaf below a node

  /** A child hangs from the child word of its side. */
  lemma ChildHook(m: seq<Word>, h: Addr, b: Bins, q: nat, t: Addr, bit: nat)
    requires BinsOk(m, h, b) && AtNode(b, q, t) && bit < 2 && b.trie.node[q].Child(bit) != 0
    ensures var c := b.trie.node[q].Child(bit);
      && AtNode(b, c, NodeOf(b, c)) && c < WORD_LIMIT && c != q
      && Hook(h, b, b.trie, c) == t + CHILD0 + bit
      && Under(b.trie, q, c)
      && b.trie.node[c].level < b.trie.node[q].level
  {
    hide Bin;
    ReadNode(m, h, b, q, t);
    ChildUnder(b.trie, q, bit);
    var c := b.trie.node[q].Child(bit);
    ReadNode(m, h, b, c, NodeOf(b, c));
    assert NodeOk(b.trie, q) && ChildOk(b.trie, q, bit);
  }

  /** t is a node below n, hanging from the word rp. */
  ghost predicate Below(h: Addr, b: Bins, n: nat, q: nat, t: Addr, rp: Addr)
  {
    && AtNode(b, q, t) && q < WORD_LIMIT
    && q != n && Under(b.trie, n, q)
    && b.trie.node[q].level < b.trie.node[n].level
    && rp == Hook(h, b, b.trie, q)
  }

  lemma BelowStart(m: seq<Word>, h: Addr, b: Bins, n: nat, x: Addr, bit: nat)
    requires BinsOk(m, h, b) && AtNode(b, n, x) && bit < 2 && b.trie.node[n].Child(bit) != 0
    ensures Below(h, b, n, b.trie.node[n].Child(bit), NodeOf(b, b.trie.node[n].Child(bit)), x + CHILD0 + bit)
  {
    ChildHook(m, h, b, n, x, bit);
  }

  lemma BelowStep(m: seq<Word>, h: Addr, b: Bins, n: nat, q: nat, t: Addr, rp: Addr, bit: nat)
    requires BinsOk(m, h, b) && n in b.trie.node && Below(h, b, n, q, t, rp) && bit < 2 && b.trie.node[q].Child(bit) != 0
    ensures var c := b.trie.node[q].Child(bit);
      Below(h, b, n, c, NodeOf(b, c), t + CHILD0 + bit) && b.trie.node[c].level < b.trie.node[q].level
  {
    hide Bin, Side, Hook;
    var c := b.trie.node[q].Child(bit);
    ChildHook(m, h, b, q, t, bit);
    UnderTrans(b.trie, n, q, c);
  }

  // ---------------------------------------------------------------------------
  // The best-fit walks

  /** v is null or the node of the candidate sv, a size of bin i that is at least nb. */
  ghost predicate CandidateAt(b: Bins, nb: nat, i: nat, sv: nat, v: Addr)
  {
    if sv == 0 then v == 0 else AtNode(b, sv, v) && TreeSize(sv) && sv >= nb && Bin(sv) == i
  }

  ghost predicate SubtreeAt(b: Bins, s: nat, t: Addr)
  {
    if s == 0 then t == 0 else AtNode(b, s, t)
  }

  /** The node looked at, compared by wrapped remainders. */
  lemma CompareNode(m: seq<Word>, h: Addr, b: Bins, nb: nat, i: nat, q: nat, t: Addr, sv: nat, v: Addr)
    requires BinsOk(m, h, b) && AtNode(b, q, t) && TreeSize(q) && Bin(q) == i
    requires CandidateAt(b, nb, i, sv, v) && 0 < nb < WORD_LIMIT
    requires sv < WORD_LIMIT
    ensures t + HEAD < |m| && SizeOf(m[t + HEAD]) == q < WORD_LIMIT
    ensures var trem := SubWords(q, nb);
      var sv' := Better(nb, sv, q);
      var v' := if trem < Remainder(nb, sv) then t else v;
      && CandidateAt(b, nb, i, sv', v')
      && Remainder(nb, sv') == (if trem < Remainder(nb, sv) then trem else Remainder(nb, sv))
      && (Remainder(nb, sv') == 0 <==> sv' == nb)
      && (sv' != nb ==> q != nb)
      && sv' < WORD_LIMIT
  {
    hide Bin;
    ReadNode(m, h, b, q, t);
    Prefers(nb, q, sv);
  }

  lemma SearchStart(m: seq<Word>, h: Addr, b: Bins, nb: nat)
    requires BinsOk(m, h, b) && TreeSize(nb) && b.trie.root[Bin(nb)] != 0
    ensures TreeBin(h, Bin(nb)) < |m|
    ensures PathWalk(b.trie, nb, b.trie.root[Bin(nb)], 0, 0)
    ensures WalkingTo(b, nb, b.trie.root[Bin(nb)], m[TreeBin(h, Bin(nb))], Shl64(8 * nb, LeftShift(Bin(nb))))
  {
    hide Bin;
    WalkStart(m, h, b, nb);
    PathStart(b.trie, nb);
  }

  /** One step of the walk along the bits of nb, and the right subtree it leaves aside. */
  lemma SearchStep(m: seq<Word>, h: Addr, b: Bins, nb: nat, q: nat, t: Addr, kb: nat, sr: nat, rst: Addr, sv: nat)
    requires BinsOk(m, h, b) && WalkingTo(b, nb, q, t, kb) && PathWalk(b.trie, nb, q, sr, sv) && q != nb && SubtreeAt(b, sr, rst)
    ensures t + 8 <= |m| && b.trie.node[q].level > 0
    ensures var bit := Shr(kb, 63) % 2;
      var c := PathChild(b.trie, nb, q);
      var next := m[t + CHILD0 + bit];
      var rt := m[t + CHILD1];
      var sr' := NextUntaken(b.trie, q, c, sr);
      && SubtreeAt(b, sr', if rt != 0 && rt != next then rt else rst)
      && (c == 0 <==> next == 0)
      && (if c != 0 then
            && WalkingTo(b, nb, c, next, kb * 2 % TWO64)
            && PathWalk(b.trie, nb, c, sr', Better(nb, sv, q))
            && b.trie.node[c].level < b.trie.node[q].level
          else LeftmostWalk(b.trie, nb, Bin(nb), sr', Better(nb, sv, q)))
  {
    hide Bin, PathWalk, PathDone, LeftmostWalk, Better, Probe;
    WalkStep(m, h, b, nb, q, t, kb);
    PathStep(b.trie, nb, q, sr, sv);
    ReadNode(m, h, b, q, t);
    var c := PathChild(b.trie, nb, q);
    var rt := b.trie.node[q].right;
    NextAddress(m, h, b, q, t, c);
    if c == 0 {
      ContinueInUntaken(b.trie, nb, NextUntaken(b.trie, q, c, sr), Better(nb, sv, q));
    }
  }

  lemma NextAddress(m: seq<Word>, h: Addr, b: Bins, q: nat, t: Addr, c: nat)
    requires BinsOk(m, h, b) && AtNode(b, q, t) && (c == b.trie.node[q].left || c == b.trie.node[q].right)
    ensures NodeOf(b, b.trie.node[q].right) == NodeOf(b, c) <==> b.trie.node[q].right == c
  {
    hide Bin;
    LinksInTrie(b.trie, q);
    if b.trie.node[q].right != 0 {
      NodesDiffer(h, b, b.trie.node[q].right, c);
    } else if c != 0 {
      NodesDiffer(h, b, c, 0);
    }
  }

  /** One step of the leftmost walk. */
  lemma LeastStep(m: seq<Word>, h: Addr, b: Bins, nb: nat, i: nat, q: nat, t: Addr, sv: nat)
    requires BinsOk(m, h, b) && AtNode(b, q, t) && LeftmostWalk(b.trie, nb, i, q, sv)
    ensures t + 8 <= |m| && q != 0
    ensures var c := b.trie.node[q].Leftmost();
      var next := if m[t + CHILD0] != 0 then m[t + CHILD0] else m[t + CHILD1];
      && SubtreeAt(b, c, next)
      && LeftmostWalk(b.trie, nb, i, c, Better(nb, sv, q))
      && (c != 0 ==> b.trie.node[c].level < b.trie.node[q].level)
  {
    hide Bin, LeftmostWalk;
    ReadNode(m, h, b, q, t);
    LeftmostStep(b.trie, nb, i, q, sv);
  }
}
