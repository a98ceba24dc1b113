/**
 The bitwise tries of free chunk sizes, seen without memory: which sizes are in the
 trees, and how they hang together. Size 0 stands for a null link. The node of a size
 at level e has the bits of its size above bit e in common with its whole subtree, and
 the bit below that picks the child.
 */
module SizeTrie {
  import opened Shift
  import opened TreeIndex

  datatype Node = Node(left: nat, right: nat, up: nat, level: nat) {
    function Child(bit: nat): nat
    {
      if bit == 0 then left else right
    }

    function WithChild(bit: nat, c: nat): Node
    {
      if bit == 0 then this.(left := c) else this.(right := c)
    }

    /** leftmost_child */
    function Leftmost(): nat
    {
      if left != 0 then left else right
    }

    predicate IsLeaf()
    {
      left == 0 && right == 0
    }
  }

  /** All the trees: the node of each size, and the root size of each bin. */
  datatype Trie = Trie(node: map<nat, Node>, root: seq<nat>)

  predicate TreeSize(s: nat)
  {
    32 <= s < WORD_LIMIT
  }

  ghost predicate ChildOk(t: Trie, s: nat, bit: nat)
    requires s in t.node
  {
    var c := t.node[s].Child(bit);
    c != 0 ==>
      && c in t.node
      && t.node[c].up == s
      && t.node[c].level + 1 == t.node[s].level
      && Shr(c, t.node[c].level) % 2 == bit
  }

  ghost predicate UpOk(t: Trie, s: nat)
    requires s in t.node && TreeSize(s) && |t.root| == NTREEBINS
  {
    var n := t.node[s];
    if n.up == 0 then
      n.level == RootLevel(Bin(s)) && t.root[Bin(s)] == s
    else
      && n.up in t.node
      && TreeSize(n.up)
      && Bin(n.up) == Bin(s)
      && t.node[n.up].level == n.level + 1
      && Shr(n.up, n.level + 1) == Shr(s, n.level + 1)
      && t.node[n.up].Child(Shr(s, n.level) % 2) == s
  }

  ghost predicate NodeOk(t: Trie, s: nat)
    requires s in t.node && |t.root| == NTREEBINS
  {
    && TreeSize(s)
    && t.node[s].level <= RootLevel(Bin(s))
    && UpOk(t, s)
    && ChildOk(t, s, 0)
    && ChildOk(t, s, 1)
  }

  ghost predicate RootOk(t: Trie, i: nat)
    requires i < |t.root|
  {
    t.root[i] != 0 ==> t.root[i] in t.node && TreeSize(t.root[i]) && Bin(t.root[i]) == i && t.node[t.root[i]].up == 0
  }

  ghost predicate TrieOk(t: Trie)
  {
    && |t.root| == NTREEBINS
    && (forall s {:trigger NodeOk(t, s)} :: s in t.node ==> NodeOk(t, s))
    && (forall i :: 0 <= i < NTREEBINS ==> RootOk(t, i))
  }

  /** Size s, in the trees or not, belongs below the node of size q. */
  ghost predicate OnPath(t: Trie, q: nat, s: nat)
  {
    && q in t.node
    && TreeSize(q) && TreeSize(s)
    && Bin(q) == Bin(s)
    && Shr(q, t.node[q].level) == Shr(s, t.node[q].level)
  }

  /** The node of size s is in the subtree of the node of size q. */
  ghost predicate Under(t: Trie, q: nat, s: nat)
  {
    OnPath(t, q, s) && s in t.node && t.node[s].level <= t.node[q].level
  }

  // ---------------------------------------------------------------------------
  // Every size has one place

  lemma {:induction false} Unique(t: Trie, p: nat, q: nat)
    requires TrieOk(t) && p in t.node && OnPath(t, q, p)
    requires t.node[p].level == t.node[q].level
    ensures p == q
    decreases RootLevel(Bin(p)) - t.node[p].level
  {
    var e := t.node[p].level;
    var p', q' := t.node[p].up, t.node[q].up;
    assert NodeOk(t, p) && NodeOk(t, q);
    assert p' != 0 ==> NodeOk(t, p');
    assert q' != 0 ==> NodeOk(t, q');
    if e < RootLevel(Bin(p)) {
      Unique(t, p', q');
    }
  }

  lemma {:induction false} Ancestor(t: Trie, s: nat, e: nat) returns (q: nat)
    requires TrieOk(t) && s in t.node && TreeSize(s)
    requires t.node[s].level <= e <= RootLevel(Bin(s))
    ensures Under(t, q, s) && t.node[q].level == e
    decreases e - t.node[s].level
  {
    assert NodeOk(t, s);
    if t.node[s].level == e {
      q := s;
    } else {
      q := Ancestor(t, t.node[s].up, e);
      ShrAgree(s, t.node[s].up, t.node[s].level + 1, e);
    }
  }

  /** A size in the subtree of q is q itself or in the subtree of one child, the one its next bit picks. */
  lemma Descend(t: Trie, q: nat, s: nat)
    requires TrieOk(t) && Under(t, q, s) && s != q
    ensures t.node[q].level > 0
    ensures Under(t, t.node[q].Child(Shr(s, t.node[q].level - 1) % 2), s)
    ensures t.node[q].Child(Shr(s, t.node[q].level - 1) % 2) != 0
  {
    hide Bin, RootLevel;
    assert NodeOk(t, q) && NodeOk(t, s);
    if t.node[s].level == t.node[q].level {
      Unique(t, s, q);
    }
    var e := t.node[q].level - 1;
    var a := Ancestor(t, s, e);
    assert NodeOk(t, a);
    var b := t.node[a].up;
    assert NodeOk(t, b);
    assert Shr(b, e + 1) == Shr(s, e + 1);
    Unique(t, b, q);
  }

  lemma ChildUnder(t: Trie, q: nat, bit: nat)
    requires TrieOk(t) && q in t.node && bit < 2 && t.node[q].Child(bit) != 0
    ensures t.node[q].level > 0 && Under(t, q, t.node[q].Child(bit))
    ensures t.node[t.node[q].Child(bit)].level == t.node[q].level - 1
    ensures Shr(t.node[q].Child(bit), t.node[q].level - 1) == 2 * Shr(q, t.node[q].level) + bit
  {
    hide Bin, RootLevel;
    var c, e := t.node[q].Child(bit), t.node[q].level;
    assert NodeOk(t, q) && ChildOk(t, q, bit);
    assert NodeOk(t, c) && UpOk(t, c);
    assert Shr(c, e) == Shr(q, e);
    assert Shr(c, e) == Shr(c, e - 1) / 2;
  }

  lemma RootUnder(t: Trie, s: nat)
    requires TrieOk(t) && s in t.node
    ensures TreeSize(s) && t.root[Bin(s)] != 0 && Under(t, t.root[Bin(s)], s)
  {
    assert NodeOk(t, s);
    var q := Ancestor(t, s, RootLevel(Bin(s)));
    assert NodeOk(t, q);
    assert t.node[q].up != 0 ==> NodeOk(t, t.node[q].up);
  }

  /** A size belongs on the path from its bin's root. */
  lemma RootOnPath(t: Trie, s: nat)
    requires TrieOk(t) && TreeSize(s) && t.root[Bin(s)] != 0
    ensures OnPath(t, t.root[Bin(s)], s)
    ensures t.node[t.root[Bin(s)]].level == RootLevel(Bin(s))
  {
    assert RootOk(t, Bin(s));
    assert NodeOk(t, t.root[Bin(s)]);
    SameBinSameRoot(t.root[Bin(s)], s);
  }

  /** Following the next bit of s keeps s on the path. */
  lemma ChildOnPath(t: Trie, q: nat, s: nat)
    requires TrieOk(t) && OnPath(t, q, s) && t.node[q].level > 0
    requires t.node[q].Child(Shr(s, t.node[q].level - 1) % 2) != 0
    ensures OnPath(t, t.node[q].Child(Shr(s, t.node[q].level - 1) % 2), s)
  {
    hide Bin, RootLevel;
    var e := t.node[q].level;
    ChildUnder(t, q, Shr(s, e - 1) % 2);
    assert Shr(s, e) == Shr(s, e - 1) / 2;
  }

  /** Sizes that differ part above level 0. */
  lemma OtherSizeAbove(t: Trie, q: nat, s: nat)
    requires OnPath(t, q, s) && s != q
    ensures t.node[q].level > 0
  {
  }

  // ---------------------------------------------------------------------------
  // Adding and removing a size

  /** A new leaf of size s under q. */
  function AddLeaf(t: Trie, s: nat, q: nat): Trie
    requires q in t.node && t.node[q].level > 0
  {
    var e := t.node[q].level - 1;
    t.(node := t.node[q := t.node[q].WithChild(Shr(s, e) % 2, s)][s := Node(0, 0, q, e)])
  }

  /** A new tree with the one size s. */
  function AddRoot(t: Trie, s: nat): Trie
    requires TreeSize(s) && |t.root| == NTREEBINS
  {
    Trie(t.node[s := Node(0, 0, 0, RootLevel(Bin(s)))], t.root[Bin(s) := s])
  }

  lemma AddRootOk(t: Trie, s: nat)
    requires TrieOk(t) && TreeSize(s) && t.root[Bin(s)] == 0
    ensures s !in t.node
    ensures TrieOk(AddRoot(t, s))
  {
    if s in t.node {
      RootUnder(t, s);
    }
    var t' := AddRoot(t, s);
    forall x | x in t'.node
      ensures NodeOk(t', x)
    {
      AddRootNode(t, s, x);
    }
    forall i | 0 <= i < NTREEBINS
      ensures RootOk(t', i)
    {
      assert RootOk(t, i);
    }
  }

  lemma AddRootNode(t: Trie, s: nat, x: nat)
    requires TrieOk(t) && TreeSize(s) && t.root[Bin(s)] == 0 && s !in t.node
    requires x in AddRoot(t, s).node
    ensures NodeOk(AddRoot(t, s), x)
  {
    hide OfSize, Shr;
    var t' := AddRoot(t, s);
    if x != s {
      assert NodeOk(t, x);
      assert UpOk(t', x);
      assert ChildOk(t', x, 0) by {
        assert ChildOk(t, x, 0);
      }
      assert ChildOk(t', x, 1) by {
        assert ChildOk(t, x, 1);
      }
    }
  }

  lemma AddLeafOk(t: Trie, s: nat, q: nat)
    requires TrieOk(t) && OnPath(t, q, s) && s !in t.node && t.node[q].level > 0
    requires t.node[q].Child(Shr(s, t.node[q].level - 1) % 2) == 0
    ensures TrieOk(AddLeaf(t, s, q))
  {
    hide Bin, RootLevel;
    var t' := AddLeaf(t, s, q);
    forall x | x in t'.node
      ensures NodeOk(t', x)
    {
      AddLeafNode(t, s, q, x);
    }
    forall i | 0 <= i < NTREEBINS
      ensures RootOk(t', i)
    {
      assert RootOk(t, i);
    }
  }

  lemma AddLeafNode(t: Trie, s: nat, q: nat, x: nat)
    requires TrieOk(t) && OnPath(t, q, s) && s !in t.node && t.node[q].level > 0
    requires t.node[q].Child(Shr(s, t.node[q].level - 1) % 2) == 0
    requires x in AddLeaf(t, s, q).node
    ensures NodeOk(AddLeaf(t, s, q), x)
  {
    hide Bin, RootLevel;
    var t' := AddLeaf(t, s, q);
    var e := t.node[q].level - 1;
    assert NodeOk(t, q);
    if x == s {
      assert Shr(s, e + 1) == Shr(s, e) / 2;
    } else {
      hide Shr;
      assert NodeOk(t, x);
      assert UpOk(t', x) by {
        assert UpOk(t, x);
      }
      AddLeafChild(t, s, q, x, 0);
      AddLeafChild(t, s, q, x, 1);
    }
  }

  lemma AddLeafChild(t: Trie, s: nat, q: nat, x: nat, bit: nat)
    requires TrieOk(t) && OnPath(t, q, s) && s !in t.node && t.node[q].level > 0
    requires t.node[q].Child(Shr(s, t.node[q].level - 1) % 2) == 0
    requires x in t.node && bit < 2
    ensures ChildOk(AddLeaf(t, s, q), x, bit)
  {
    hide Bin, RootLevel, Shr;
    assert NodeOk(t, x) && ChildOk(t, x, bit);
  }

  /** Every link to size s made to point to r: s is removed, and r put in its place unless it is 0. */
  function Substitute(t: Trie, s: nat, r: nat): Trie
    requires s in t.node
  {
    Trie(map x | x in (t.node.Keys - {s}) + (if r == 0 then {} else {r}) ::
           if x == r then t.node[s]
           else if x in t.node then Renamed(t.node[x], s, r)
           else t.node[s],
         seq(|t.root|, i requires 0 <= i < |t.root| => if t.root[i] == s then r else t.root[i]))
  }

  lemma Substituted(t: Trie, s: nat, r: nat)
    requires s in t.node && s != 0 && s != r && (r != 0 ==> r !in t.node)
    ensures var t' := Substitute(t, s, r);
      && t'.node.Keys == (t.node.Keys - {s}) + (if r == 0 then {} else {r})
      && (forall x :: x in t.node && x != s && x != r ==> x in t'.node && t'.node[x] == Renamed(t.node[x], s, r))
      && (r != 0 ==> r in t'.node && t'.node[r] == t.node[s])
      && |t'.root| == |t.root|
      && (forall i :: 0 <= i < |t.root| ==> t'.root[i] == if t.root[i] == s then r else t.root[i])
  {
  }

  function Renamed(n: Node, s: nat, r: nat): Node
  {
    Node(if n.left == s then r else n.left, if n.right == s then r else n.right, if n.up == s then r else n.up, n.level)
  }

  /** r may take the place of s: it belongs there, and nothing is lost. */
  ghost predicate Fits(t: Trie, s: nat, r: nat)
    requires s in t.node && TreeSize(s)
  {
    if r == 0 then t.node[s].IsLeaf()
    else TreeSize(r) && r !in t.node && Bin(r) == Bin(s) && Shr(r, t.node[s].level) == Shr(s, t.node[s].level)
  }

  lemma SubstituteOk(t: Trie, s: nat, r: nat)
    requires TrieOk(t) && s in t.node && TreeSize(s) && Fits(t, s, r)
    ensures TrieOk(Substitute(t, s, r))
  {
    hide Bin, RootLevel, Substitute, Shr;
    Substituted(t, s, r);
    var t' := Substitute(t, s, r);
    assert NodeOk(t, s);
    assert 0 in t.node ==> NodeOk(t, 0);
    forall x | x in t'.node
      ensures NodeOk(t', x)
    {
      if x == r {
        SubstitutePlaced(t, s, r);
      } else {
        SubstituteOther(t, s, r, x);
      }
    }
    forall i | 0 <= i < NTREEBINS
      ensures RootOk(t', i)
    {
      assert RootOk(t, i);
    }
  }

  lemma SubstituteOther(t: Trie, s: nat, r: nat, x: nat)
    requires TrieOk(t) && s in t.node && TreeSize(s) && Fits(t, s, r)
    requires x in t.node && x != s && x != r
    ensures x in Substitute(t, s, r).node && NodeOk(Substitute(t, s, r), x)
  {
    hide Bin, RootLevel, Substitute, Shr;
    Substituted(t, s, r);
    assert NodeOk(t, x) && NodeOk(t, s);
    SubstituteUp(t, s, r, x);
    assert ChildOk(t, x, 0) && ChildOk(t, x, 1);
  }

  lemma SubstituteUp(t: Trie, s: nat, r: nat, x: nat)
    requires TrieOk(t) && s in t.node && TreeSize(s) && Fits(t, s, r)
    requires x in t.node && x != s && x != r && TreeSize(x)
    ensures x in Substitute(t, s, r).node && UpOk(Substitute(t, s, r), x)
  {
    hide Bin, RootLevel, Substitute, Shr;
    Substituted(t, s, r);
    assert NodeOk(t, x) && NodeOk(t, s);
    var u := t.node[x].up;
    assert u != 0 ==> NodeOk(t, u);
  }

  lemma SubstitutePlaced(t: Trie, s: nat, r: nat)
    requires TrieOk(t) && s in t.node && TreeSize(s) && Fits(t, s, r) && r != 0
    ensures r in Substitute(t, s, r).node && NodeOk(Substitute(t, s, r), r)
  {
    hide Bin, RootLevel, Substitute;
    Substituted(t, s, r);
    assert NodeOk(t, s);
    var e, u := t.node[s].level, t.node[s].up;
    assert Shr(s, e + 1) == Shr(s, e) / 2 && Shr(r, e + 1) == Shr(r, e) / 2;
    hide Shr;
    assert u != 0 ==> NodeOk(t, u);
    assert ChildOk(t, s, 0) && ChildOk(t, s, 1);
  }

  // ---------------------------------------------------------------------------
  // Paths are short

  /** The number of nodes from the root down to the node of size s. */
  ghost function PathLength(t: Trie, s: nat): nat
    requires TrieOk(t) && s in t.node
    decreases 61 - t.node[s].level
  {
    assert NodeOk(t, s) && UpOk(t, s);
    if t.node[s].up == 0 then
      1
    else
      assert NodeOk(t, t.node[s].up);
      1 + PathLength(t, t.node[s].up)
  }

  lemma {:induction false} PathBound(t: Trie, s: nat)
    requires TrieOk(t) && s in t.node
    ensures TreeSize(s) && PathLength(t, s) + t.node[s].level == RootLevel(Bin(s)) + 1
    ensures Bin(s) < NTREEBINS && PathLength(t, s) < BitForTreeIndex(Bin(s))
    decreases 61 - t.node[s].level
  {
    hide Bin;
    assert NodeOk(t, s) && UpOk(t, s);
    if t.node[s].up != 0 {
      assert NodeOk(t, t.node[s].up);
      PathBound(t, t.node[s].up);
    }
  }
}
