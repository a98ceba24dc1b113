/**
 Circular doubly-linked lists through the fd and bk words of chunks: the small bins, with
 their header in front, and the chains of equal tree chunks, with the tree node in front.
 */
module Rings {
  import opened Words

  function Next(n: nat, k: nat): (i: nat)
    requires k < n
    ensures i < n
  {
    if k + 1 < n then k + 1 else 0
  }

  function Prev(n: nat, k: nat): (i: nat)
    requires k < n
    ensures i < n
  {
    if k > 0 then k - 1 else n - 1
  }

  function Succ(r: seq<Addr>, k: nat): Addr
    requires k < |r|
  {
    r[Next(|r|, k)]
  }

  function Pred(r: seq<Addr>, k: nat): Addr
    requires k < |r|
  {
    r[Prev(|r|, k)]
  }

  /** The fd and bk words of the elements are in memory. */
  ghost predicate Within(m: seq<Word>, r: seq<Addr>)
  {
    forall k :: 0 <= k < |r| ==> r[k] + 4 <= |m|
  }

  ghost predicate Distinct(r: seq<Addr>)
  {
    forall j, k :: 0 <= j < k < |r| ==> r[j] != r[k]
  }

  ghost predicate LinkedAt(m: seq<Word>, r: seq<Addr>, k: nat)
    requires k < |r|
  {
    r[k] + 4 <= |m| && m[r[k] + FD] == Succ(r, k) && m[r[k] + BK] == Pred(r, k)
  }

  ghost predicate Linked(m: seq<Word>, r: seq<Addr>)
  {
    forall k {:trigger LinkedAt(m, r, k)} :: 0 <= k < |r| ==> LinkedAt(m, r, k)
  }

  function InsertSecond(r: seq<Addr>, p: Addr): (r': seq<Addr>)
    requires |r| > 0
  {
    [r[0], p] + r[1..]
  }

  /** The list without element k; when the front goes, the last element takes its place. */
  function Without(r: seq<Addr>, k: nat): (r': seq<Addr>)
    requires k < |r| && |r| > 1
  {
    if k > 0 then r[..k] + r[k + 1..] else [r[|r| - 1]] + r[1..|r| - 1]
  }

  /** The fd and bk words at x and y do not overlap. */
  predicate Clear(x: Addr, y: Addr)
  {
    x + 2 <= y || y + 2 <= x
  }

  ghost predicate Spaced(r: seq<Addr>)
  {
    forall j, k {:trigger Clear(r[j], r[k])} :: 0 <= j < |r| && 0 <= k < |r| && j != k ==> Clear(r[j], r[k])
  }

  ghost predicate ClearOf(r: seq<Addr>, p: Addr)
  {
    forall k :: 0 <= k < |r| ==> Clear(r[k], p)
  }

  /** m' is m with p linked in after the front element of r, as insert_small_chunk and insert_large_chunk do. */
  ghost predicate LinkedIn(m: seq<Word>, m': seq<Word>, r: seq<Addr>, p: Addr)
    requires |r| > 0
  {
    && |m'| == |m|
    && Within(m, r)
    && p + 4 <= |m|
    && SameExcept(m, m', {r[0] + FD, Succ(r, 0) + BK, p + FD, p + BK})
    && m'[r[0] + FD] == p
    && m'[Succ(r, 0) + BK] == p
    && m'[p + FD] == Succ(r, 0)
    && m'[p + BK] == r[0]
  }

  lemma LinkedInsert(m: seq<Word>, m': seq<Word>, r: seq<Addr>, p: Addr)
    requires |r| > 0 && (|r| > 1 ==> Linked(m, r)) && Spaced(r)
    requires ClearOf(r, p)
    requires LinkedIn(m, m', r, p)
    ensures Linked(m', InsertSecond(r, p))
  {
    var r' := InsertSecond(r, p);
    forall k | 0 <= k < |r'|
      ensures LinkedAt(m', r', k)
    {
      if k == 0 {
        LinkedInsertFront(m, m', r, p);
      } else if k > 1 {
        LinkedInsertRest(m, m', r, p, k - 1);
      }
    }
  }

  lemma LinkedInsertFront(m: seq<Word>, m': seq<Word>, r: seq<Addr>, p: Addr)
    requires |r| > 0 && (|r| > 1 ==> Linked(m, r)) && Spaced(r)
    requires ClearOf(r, p)
    requires LinkedIn(m, m', r, p)
    ensures m'[r[0] + FD] == p && m'[r[0] + BK] == if |r| == 1 then p else r[|r| - 1]
  {
    if |r| > 1 {
      assert LinkedAt(m, r, 0) && Clear(r[0], r[1]);
    }
  }

  lemma LinkedInsertRest(m: seq<Word>, m': seq<Word>, r: seq<Addr>, p: Addr, k: nat)
    requires 1 <= k < |r| && Linked(m, r) && Spaced(r)
    requires ClearOf(r, p)
    requires LinkedIn(m, m', r, p)
    ensures m'[r[k] + FD] == Succ(r, k) && m'[r[k] + BK] == if k == 1 then p else r[k - 1]
  {
    assert LinkedAt(m, r, k) && Clear(r[0], r[k]);
    if k > 1 {
      assert Clear(r[1], r[k]);
    }
  }

  /** m' is m with the neighbours of element k joined. */
  ghost predicate LinkedOut(m: seq<Word>, m': seq<Word>, r: seq<Addr>, k: nat)
    requires k < |r|
  {
    && Within(m, r)
    && SameExcept(m, m', {Pred(r, k) + FD, Succ(r, k) + BK})
    && m'[Pred(r, k) + FD] == Succ(r, k)
    && m'[Succ(r, k) + BK] == Pred(r, k)
  }

  lemma LinkedRemove(m: seq<Word>, m': seq<Word>, r: seq<Addr>, k: nat)
    requires k < |r| && |r| > 2 && Linked(m, r) && Spaced(r) && LinkedOut(m, m', r, k)
    ensures Linked(m', Without(r, k))
  {
    hide Spaced;
    var r' := Without(r, k);
    forall j | 0 <= j < |r'|
      ensures LinkedAt(m', r', j)
    {
      LinkedWithout(m, m', r, k, j);
    }
  }

  lemma LinkedWithout(m: seq<Word>, m': seq<Word>, r: seq<Addr>, k: nat, j: nat)
    requires k < |r| && |r| > 2 && Linked(m, r) && Spaced(r) && LinkedOut(m, m', r, k) && j < |Without(r, k)|
    ensures LinkedAt(m', Without(r, k), j)
  {
    hide Spaced;
    var r' := Without(r, k);
    var i := PlaceBefore(|r|, k, j);
    WithoutAt(r, k, j);
    WithoutAt(r, k, Next(|r'|, j));
    WithoutAt(r, k, Prev(|r'|, j));
    hide Without;
    LinkedRemoveAt(m, m', r, k, i);
    assert LinkedAt(m, r, i);
  }

  /** Where the element at j of Without was. */
  function PlaceBefore(n: nat, k: nat, j: nat): nat
    requires k < n && j < n - 1
  {
    if k > 0 then (if j < k then j else j + 1) else (if j == 0 then n - 1 else j)
  }

  lemma WithoutAt(r: seq<Addr>, k: nat, j: nat)
    requires k < |r| && |r| > 1 && j < |r| - 1
    ensures |Without(r, k)| == |r| - 1 && PlaceBefore(|r|, k, j) < |r| && Without(r, k)[j] == r[PlaceBefore(|r|, k, j)]
  {
    if k > 0 {
      assert j < k ==> Without(r, k)[j] == r[..k][j];
      assert j >= k ==> Without(r, k)[j] == r[k + 1..][j - k];
    } else {
      assert j > 0 ==> Without(r, k)[j] == r[1..|r| - 1][j - 1];
    }
  }

  lemma LinkedRemoveAt(m: seq<Word>, m': seq<Word>, r: seq<Addr>, k: nat, i: nat)
    requires k < |r| && |r| > 2 && Linked(m, r) && Spaced(r) && i < |r| && i != k && LinkedOut(m, m', r, k)
    ensures m'[r[i] + FD] == if i == Prev(|r|, k) then Succ(r, k) else Succ(r, i)
    ensures m'[r[i] + BK] == if i == Next(|r|, k) then Pred(r, k) else Pred(r, i)
  {
    assert LinkedAt(m, r, i);
    var a, c := Prev(|r|, k), Next(|r|, k);
    assert i != a ==> Clear(r[a], r[i]);
    assert i != c ==> Clear(r[c], r[i]);
  }

  /** Only the element next to itself is alone with the front. */
  lemma NeighboursEqual(r: seq<Addr>, k: nat)
    requires k < |r| && |r| > 1 && Distinct(r)
    ensures Succ(r, k) == Pred(r, k) <==> |r| == 2
  {
  }

  lemma LinkedFrame(m: seq<Word>, m': seq<Word>, r: seq<Addr>)
    requires Linked(m, r) && |m'| == |m|
    requires forall k :: 0 <= k < |r| && r[k] + 4 <= |m| ==> m'[r[k] + FD] == m[r[k] + FD] && m'[r[k] + BK] == m[r[k] + BK]
    ensures Linked(m', r)
  {
    forall k | 0 <= k < |r|
      ensures LinkedAt(m', r, k)
    {
      assert LinkedAt(m, r, k);
    }
  }
}
