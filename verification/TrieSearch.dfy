/** Best-fit searches of the tries: what each step of the two tree walks leaves to be found. */
module TrieSearch {
  import opened Shift
  import opened TreeIndex
  import opened SizeTrie

  /** v is a size at least as good as s. */
  predicate Beats(v: nat, s: nat)
  {
    v != 0 && v <= s
  }

  /** v, if any, is a size in the trees that is big enough. */
  ghost predicate Candidate(t: Trie, nb: nat, v: nat)
  {
    v != 0 ==> v in t.node && v >= nb
  }

  /** The candidate after the node of size q was looked at. */
  function Better(nb: nat, v: nat, q: nat): nat
  {
    if q >= nb && (v == 0 || q < v) then q else v
  }

  /** v is a least size of the trees that is big enough, or 0 when there is none. */
  ghost predicate BestFit(t: Trie, nb: nat, v: nat)
  {
    && Candidate(t, nb, v)
    && forall s :: s in t.node && s >= nb ==> Beats(v, s)
  }

  /** Every size of bin i is beaten by v, below q, or above q. */
  ghost predicate LeftmostWalk(t: Trie, nb: nat, i: nat, q: nat, v: nat)
  {
    && Candidate(t, nb, v)
    && (q != 0 ==> q in t.node && TreeSize(q) && Bin(q) == i)
    && (v == nb || q == 0 || forall s: nat :: Under(t, q, s) ==> s >= nb)
    && forall s :: s in t.node && TreeSize(s) && Bin(s) == i && s >= nb ==>
         Beats(v, s) || (q != 0 && (Under(t, q, s) || q <= s))
  }

  /** Sizes in a right subtree exceed those in the left one. */
  lemma LeftBelowRight(t: Trie, q: nat, a: nat, b: nat)
    requires TrieOk(t) && q in t.node && t.node[q].left != 0 && t.node[q].right != 0
    requires Under(t, t.node[q].left, a) && Under(t, t.node[q].right, b)
    ensures a < b
  {
    hide Bin;
    ChildUnder(t, q, 0);
    ChildUnder(t, q, 1);
    if b <= a {
      ShrMonotone(b, a, t.node[q].level - 1);
    }
  }

  lemma SelfUnder(t: Trie, q: nat)
    requires TrieOk(t) && q in t.node
    ensures Under(t, q, q)
  {
    assert NodeOk(t, q);
  }

  lemma UnderTrans(t: Trie, p: nat, q: nat, s: nat)
    requires Under(t, p, q) && Under(t, q, s)
    ensures Under(t, p, s)
  {
    ShrAgree(q, s, t.node[q].level, t.node[p].level);
  }

  /** Under q a size is q, below the leftmost child, or above it. */
  lemma LeftmostStepOne(t: Trie, q: nat, s: nat)
    requires TrieOk(t) && Under(t, q, s) && s != q
    ensures t.node[q].Leftmost() != 0
    ensures Under(t, t.node[q].Leftmost(), s) || t.node[q].Leftmost() <= s
  {
    hide Bin;
    Descend(t, q, s);
    var n := t.node[q];
    if n.left != 0 && n.right != 0 && Under(t, n.right, s) {
      ChildUnder(t, q, 0);
      SelfUnder(t, n.left);
      LeftBelowRight(t, q, n.left, s);
    }
  }

  lemma LeftmostStep(t: Trie, nb: nat, i: nat, q: nat, v: nat)
    requires TrieOk(t) && q != 0 && LeftmostWalk(t, nb, i, q, v)
    ensures LeftmostWalk(t, nb, i, t.node[q].Leftmost(), Better(nb, v, q))
    ensures t.node[q].Leftmost() != 0 ==>
      t.node[q].Leftmost() in t.node && t.node[t.node[q].Leftmost()].level < t.node[q].level
  {
    hide Bin;
    var c, w := t.node[q].Leftmost(), Better(nb, v, q);
    SelfUnder(t, q);
    if c != 0 {
      ChildUnder(t, q, if t.node[q].left != 0 then 0 else 1);
      forall s: nat | Under(t, c, s)
        ensures Under(t, q, s)
      {
        UnderTrans(t, q, c, s);
      }
    }
    forall s | s in t.node && TreeSize(s) && Bin(s) == i && s >= nb
      ensures Beats(w, s) || (c != 0 && (Under(t, c, s) || c <= s))
    {
      if Under(t, q, s) && s != q {
        LeftmostStepOne(t, q, s);
      }
    }
  }

  // ---------------------------------------------------------------------------
  // The walk along the bits of the wanted size

  /** rst is a subtree of sizes above nb that branched off the path at or above level e. */
  ghost predicate Untaken(t: Trie, nb: nat, rst: nat, e: nat)
  {
    rst != 0 ==>
      && rst in t.node
      && TreeSize(rst) && TreeSize(nb)
      && Bin(rst) == Bin(nb)
      && e <= t.node[rst].level
      && Shr(nb, t.node[rst].level) < Shr(rst, t.node[rst].level)
  }

  /** Every size of nb's bin is beaten by v, or not left of the subtree rst. */
  ghost predicate Rest(t: Trie, nb: nat, rst: nat, v: nat, s: nat)
  {
    Beats(v, s) || (rst != 0 && (Under(t, rst, s) || rst <= s))
  }

  ghost predicate PathWalk(t: Trie, nb: nat, q: nat, rst: nat, v: nat)
  {
    && Candidate(t, nb, v)
    && OnPath(t, q, nb)
    && Untaken(t, nb, rst, t.node[q].level)
    && forall s :: s in t.node && TreeSize(s) && Bin(s) == Bin(nb) && s >= nb ==> Under(t, q, s) || Rest(t, nb, rst, v, s)
  }

  ghost predicate PathDone(t: Trie, nb: nat, rst: nat, v: nat)
  {
    && TreeSize(nb)
    && Candidate(t, nb, v)
    && Untaken(t, nb, rst, 0)
    && forall s :: s in t.node && TreeSize(s) && Bin(s) == Bin(nb) && s >= nb ==> Rest(t, nb, rst, v, s)
  }

  lemma PathStart(t: Trie, nb: nat)
    requires TrieOk(t) && TreeSize(nb) && t.root[Bin(nb)] != 0
    ensures PathWalk(t, nb, t.root[Bin(nb)], 0, 0)
  {
    hide Bin, RootLevel;
    var q := t.root[Bin(nb)];
    RootOnPath(t, nb);
    forall s | s in t.node && TreeSize(s) && Bin(s) == Bin(nb)
      ensures Under(t, q, s)
    {
      RootUnder(t, s);
    }
  }

  /** The right subtree not taken at q, or the one known before. */
  function NextUntaken(t: Trie, q: nat, c: nat, rst: nat): nat
    requires q in t.node
  {
    var rt := t.node[q].right;
    if rt != 0 && rt != c then rt else rst
  }

  function PathChild(t: Trie, nb: nat, q: nat): nat
    requires q in t.node && t.node[q].level > 0
  {
    t.node[q].Child(Shr(nb, t.node[q].level - 1) % 2)
  }

  /** The untaken subtree stays right of the path, and left of the one it replaces. */
  lemma UntakenStep(t: Trie, nb: nat, q: nat, rst: nat)
    requires TrieOk(t) && OnPath(t, q, nb) && t.node[q].level > 0 && Untaken(t, nb, rst, t.node[q].level)
    ensures var rst' := NextUntaken(t, q, PathChild(t, nb, q), rst);
      && Untaken(t, nb, rst', t.node[q].level - 1)
      && (rst != 0 ==> rst' != 0 && forall s: nat :: Under(t, rst, s) || rst <= s ==> Under(t, rst', s) || rst' <= s)
  {
    hide Bin;
    var e := t.node[q].level;
    var c, rt := PathChild(t, nb, q), t.node[q].right;
    if rt != 0 && rt != c {
      ChildUnder(t, q, 1);
      assert Shr(nb, e) == Shr(nb, e - 1) / 2;
      if rst != 0 {
        var l := t.node[rst].level;
        ShrAgree(rt, nb, e, l);
        forall s: nat | Under(t, rst, s) || rst <= s
          ensures rt <= s
        {
          if s < rt {
            ShrMonotone(s, rt, l);
          }
          if rst <= s {
            ShrMonotone(rst, s, l);
          }
        }
      }
    }
  }

  /** A big enough size below q is q, on the path further down, or in the right subtree not taken. */
  lemma PathStepOne(t: Trie, nb: nat, q: nat, rst: nat, s: nat)
    requires TrieOk(t) && OnPath(t, q, nb) && t.node[q].level > 0 && Under(t, q, s) && s != q && s >= nb
    ensures var c := PathChild(t, nb, q);
      var rst' := NextUntaken(t, q, c, rst);
      (c != 0 && Under(t, c, s)) || (rst' != 0 && Under(t, rst', s))
  {
    hide Bin;
    var e := t.node[q].level - 1;
    Descend(t, q, s);
    ShrMonotone(nb, s, e);
    assert Shr(nb, e) / 2 == Shr(nb, e + 1) == Shr(s, e + 1) == Shr(s, e) / 2;
    if Shr(s, e) != Shr(nb, e) {
      assert Shr(s, e) % 2 == 1 && Shr(nb, e) % 2 == 0;
      if t.node[q].left == t.node[q].right {
        ChildUnder(t, q, 0);
        ChildUnder(t, q, 1);
      }
    }
  }

  lemma PathStep(t: Trie, nb: nat, q: nat, rst: nat, v: nat)
    requires TrieOk(t) && q != nb && PathWalk(t, nb, q, rst, v)
    ensures t.node[q].level > 0
    ensures var c := PathChild(t, nb, q);
      var rst' := NextUntaken(t, q, c, rst);
      var w := Better(nb, v, q);
      if c != 0 then PathWalk(t, nb, c, rst', w) && t.node[c].level == t.node[q].level - 1
      else PathDone(t, nb, rst', w)
  {
    hide Bin;
    OtherSizeAbove(t, q, nb);
    var c := PathChild(t, nb, q);
    var rst' := NextUntaken(t, q, c, rst);
    var w := Better(nb, v, q);
    UntakenStep(t, nb, q, rst);
    if c != 0 {
      ChildOnPath(t, q, nb);
      ChildUnder(t, q, Shr(nb, t.node[q].level - 1) % 2);
    }
    forall s | s in t.node && TreeSize(s) && Bin(s) == Bin(nb) && s >= nb
      ensures (c != 0 && Under(t, c, s)) || Rest(t, nb, rst', w, s)
    {
      if Under(t, q, s) && s != q {
        PathStepOne(t, nb, q, rst, s);
      }
    }
  }

  /** An exact fit ends the search. */
  lemma ExactFit(t: Trie, nb: nat, q: nat)
    requires TrieOk(t) && nb in t.node && q in t.node && TreeSize(q)
    ensures LeftmostWalk(t, nb, Bin(q), q, nb)
  {
    assert NodeOk(t, nb);
  }

  /** After the path, the least big enough size is on the leftmost walk of the untaken subtree. */
  lemma ContinueInUntaken(t: Trie, nb: nat, rst: nat, v: nat)
    requires TrieOk(t) && PathDone(t, nb, rst, v)
    ensures LeftmostWalk(t, nb, Bin(nb), rst, v)
  {
    hide Bin;
    forall s: nat | rst != 0 && Under(t, rst, s)
      ensures s >= nb
    {
      if s < nb {
        ShrMonotone(s, nb, t.node[rst].level);
      }
    }
  }

  /** A later bin's root starts a leftmost walk. */
  lemma ContinueInBin(t: Trie, nb: nat, i: nat)
    requires TrieOk(t) && i < NTREEBINS && t.root[i] != 0
    requires nb < 32 || (TreeSize(nb) && Bin(nb) < i)
    ensures LeftmostWalk(t, nb, i, t.root[i], 0)
  {
    assert RootOk(t, i);
    forall s | s in t.node && TreeSize(s) && Bin(s) == i
      ensures Under(t, t.root[i], s) && s >= nb
    {
      RootUnder(t, s);
      if nb >= 32 {
        Monotone(8 * nb, 8 * s);
      }
    }
  }

  /** A walk that found something found the best fit, if the bins below hold nothing big enough. */
  lemma WalkDone(t: Trie, nb: nat, i: nat, v: nat)
    requires TrieOk(t) && i < NTREEBINS && LeftmostWalk(t, nb, i, 0, v) && v != 0 && TreeSize(v) && Bin(v) == i
    requires forall s :: s in t.node && TreeSize(s) && Bin(s) < i ==> s < nb
    ensures BestFit(t, nb, v)
  {
    forall s | s in t.node && s >= nb
      ensures Beats(v, s)
    {
      assert NodeOk(t, s);
      if Bin(s) > i {
        Monotone(8 * v, 8 * s);
      }
    }
  }

  // ---------------------------------------------------------------------------
  // Remainders, as wrapped differences

  /** x - y on a size_t, for multiples of 8. */
  function SubWords(x: nat, y: nat): (r: nat)
    requires x < WORD_LIMIT && y <= WORD_LIMIT
    ensures r < WORD_LIMIT
  {
    (x + WORD_LIMIT - y) % WORD_LIMIT
  }

  /** What rsize is for the candidate v: the remainder, or -nb when there is none. */
  function Remainder(nb: nat, v: nat): nat
    requires nb <= WORD_LIMIT && (v != 0 ==> v >= nb)
  {
    if v == 0 then WORD_LIMIT - nb else v - nb
  }

  /** The wrapped comparison prefers q exactly when q is big enough and smaller than the candidate. */
  lemma Prefers(nb: nat, q: nat, v: nat)
    requires 0 < nb < WORD_LIMIT && q < WORD_LIMIT && v < WORD_LIMIT && (v != 0 ==> v >= nb)
    ensures SubWords(q, nb) < Remainder(nb, v) <==> q >= nb && (v == 0 || q < v)
    ensures q >= nb ==> SubWords(q, nb) == q - nb
    ensures q != 0 ==> Better(nb, v, q) == if SubWords(q, nb) < Remainder(nb, v) then q else v
  {
  }

  /** A bin without a root holds nothing. */
  lemma EmptyBin(t: Trie, nb: nat, i: nat)
    requires TrieOk(t) && i < NTREEBINS && t.root[i] == 0
    ensures forall s :: s in t.node ==> TreeSize(s) && Bin(s) != i
    ensures LeftmostWalk(t, nb, i, 0, 0)
  {
    forall s | s in t.node
      ensures TreeSize(s) && Bin(s) != i
    {
      RootUnder(t, s);
    }
  }

  /** The best fit is in nb's own bin. */
  lemma FoundInOwnBin(t: Trie, nb: nat, v: nat)
    requires TrieOk(t) && TreeSize(nb) && LeftmostWalk(t, nb, Bin(nb), 0, v) && v != 0 && TreeSize(v) && Bin(v) == Bin(nb)
    ensures BestFit(t, nb, v)
  {
    forall s | s in t.node && TreeSize(s) && Bin(s) < Bin(nb)
      ensures s < nb
    {
      Monotone(8 * s, 8 * nb);
    }
    WalkDone(t, nb, Bin(nb), v);
  }

  /** The best fit is in the first non-empty bin above nb's own, which holds nothing big enough. */
  lemma FoundInLaterBin(t: Trie, nb: nat, i: nat, v: nat)
    requires TrieOk(t) && TreeSize(nb) && Bin(nb) < i < NTREEBINS
    requires LeftmostWalk(t, nb, Bin(nb), 0, 0)
    requires forall j :: Bin(nb) < j < i ==> t.root[j] == 0
    requires LeftmostWalk(t, nb, i, 0, v) && v != 0 && TreeSize(v) && Bin(v) == i
    ensures BestFit(t, nb, v)
  {
    forall s | s in t.node && TreeSize(s) && Bin(s) < i
      ensures s < nb
    {
      if Bin(s) < Bin(nb) {
        Monotone(8 * s, 8 * nb);
      } else if Bin(s) > Bin(nb) {
        EmptyBin(t, nb, Bin(s));
      }
    }
    WalkDone(t, nb, i, v);
  }

  /** Nothing in nb's bin and no non-empty bin above it: nothing is big enough. */
  lemma FoundNowhere(t: Trie, nb: nat)
    requires TrieOk(t) && TreeSize(nb) && LeftmostWalk(t, nb, Bin(nb), 0, 0)
    requires forall j :: Bin(nb) < j < NTREEBINS ==> t.root[j] == 0
    ensures BestFit(t, nb, 0)
  {
    forall s | s in t.node && s >= nb
      ensures Beats(0, s)
    {
      assert NodeOk(t, s);
      if Bin(s) < Bin(nb) {
        Monotone(8 * s, 8 * nb);
      } else if Bin(s) > Bin(nb) {
        EmptyBin(t, nb, Bin(s));
      }
    }
  }

  /** For a request below all tree sizes, the first non-empty bin holds the best fit. */
  lemma FoundInFirstBin(t: Trie, nb: nat, i: nat, v: nat)
    requires TrieOk(t) && nb < 32 && i < NTREEBINS
    requires forall j :: 0 <= j < i ==> t.root[j] == 0
    requires LeftmostWalk(t, nb, i, 0, v) && v != 0 && TreeSize(v) && Bin(v) == i
    ensures BestFit(t, nb, v)
  {
    forall s | s in t.node && TreeSize(s)
      ensures Bin(s) >= i
    {
      if Bin(s) < i {
        EmptyBin(t, nb, Bin(s));
      }
    }
    WalkDone(t, nb, i, v);
  }
}
