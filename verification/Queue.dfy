/** The pooled queue: a list that ends in a sentinel, whose nodes are recycled through a growable pool. */
module PooledQueue {

  class Node<T> {
    var data: T
    var next: Node?<T>

    /** calloc */
    constructor (zero: T)
      ensures data == zero && next == null
    {
      data := zero;
      next := null;
    }
  }

  class Pool<T> {
    const zero: T
    var cnt: int
    var n: nat
    var max: nat
    var buf: array<Node?<T>>

    /** The pooled nodes, the last one freed at the end. */
    ghost function Pooled(): seq<Node?<T>>
      requires n <= buf.Length
      reads this, buf
    {
      buf[..n]
    }

    ghost predicate Valid()
      reads this, buf
    {
      && n <= max == buf.Length
      && (forall i :: 0 <= i < n ==> buf[i] != null)
      && Different(buf[..n])
    }

    /** kmp_init */
    constructor (zero: T)
      ensures Valid() && cnt == 0 && Pooled() == [] && this.zero == zero && fresh(buf)
    {
      this.zero := zero;
      cnt, n, max := 0, 0, 0;
      buf := new Node?<T>[0];
    }

    /** kmp_alloc: a pooled node if there is one, else a new one. */
    method Alloc() returns (p: Node<T>)
      requires Valid()
      modifies `cnt, `n
      ensures Valid() && cnt == old(cnt) + 1 && p !in Pooled()
      ensures if old(n) == 0 then fresh(p) && p.data == zero && p.next == null && Pooled() == []
              else p == old(buf[n - 1]) && Pooled() == old(Pooled())[..old(n) - 1]
    {
      cnt := cnt + 1;
      if n == 0 {
        p := new Node<T>(zero);
      } else {
        n := n - 1;
        p := buf[n];
        DifferentPrefix(old(buf[..n]), n);
        assert old(buf[..n])[..n] == buf[..n];
      }
    }

    /** kmp_free: the node is pooled; a full pool is doubled, an empty one gets room for 16. */
    method Free(p: Node<T>)
      requires Valid() && p !in Pooled()
      modifies this, buf
      ensures Valid() && cnt == old(cnt) - 1 && Pooled() == old(Pooled()) + [p]
      ensures max == if old(n == max) then (if old(max) != 0 then 2 * old(max) else 16) else old(max)
      ensures buf == old(buf) || fresh(buf)
    {
      cnt := cnt - 1;
      ghost var pooled := buf[..n];
      if n == max {
        max := if max != 0 then max * 2 else 16;
        var larger := new Node?<T>[max];
        forall i | 0 <= i < n {
          larger[i] := buf[i];
        }
        assert larger[..n] == pooled;
        buf := larger;
      }
      buf[n] := p;
      n := n + 1;
      assert buf[..n] == pooled + [p];
      DifferentMore(pooled, p);
    }

    /** kmp_destroy: the nodes passed to free, in this order. */
    method Destroy() returns (freed: seq<Node?<T>>)
      requires Valid()
      ensures freed == Pooled() && Different(freed)
    {
      freed := [];
      for k := 0 to n
        invariant freed == buf[..k]
      {
        freed := freed + [buf[k]];
      }
    }
  }

  ghost predicate Different<T>(s: seq<Node?<T>>)
  {
    forall i, j :: 0 <= i < j < |s| ==> s[i] != s[j]
  }

  lemma DifferentPrefix<T>(s: seq<Node?<T>>, k: nat)
    requires Different(s) && k <= |s|
    ensures Different(s[..k]) && forall i :: k <= i < |s| ==> s[i] !in s[..k]
  {
  }

  lemma DifferentMore<T>(s: seq<Node?<T>>, p: Node<T>)
    requires Different(s) && p !in s
    ensures Different(s + [p])
  {
  }

  ghost function SetOf<T>(s: seq<Node?<T>>): set<Node?<T>>
  {
    set x | x in s
  }

  /** The pool before and after it gave away p, a new node if it was empty. */
  lemma TakenFromPool<T>(pool: seq<Node?<T>>, pool': seq<Node?<T>>, p: Node<T>)
    requires if pool == [] then pool' == [] else pool' == pool[..|pool| - 1] && p == pool[|pool| - 1]
    ensures SetOf(pool) + {p} == SetOf(pool') + {p}
  {
    assert pool != [] ==> pool == pool' + [p];
  }

  lemma OnlyOnce<T>(s: seq<Node<T>>, k: nat)
    requires Different(s) && k < |s|
    ensures forall i :: 0 <= i < |s| && i != k ==> s[i] != s[k]
  {
  }

  lemma SetOfMore<T>(s: seq<Node?<T>>, p: Node<T>)
    ensures SetOf(s + [p]) == SetOf(s) + {p}
  {
  }

  lemma SetOfRest<T>(s: seq<Node?<T>>)
    requires s != []
    ensures SetOf(s[1..]) + {s[0]} == SetOf(s)
  {
    assert s == [s[0]] + s[1..];
  }

  /** The nodes of a list from head to tail: each one's next is the one behind it, the last one's is null. */
  ghost predicate Chained<T>(nodes: seq<Node<T>>)
    reads nodes
  {
    && |nodes| > 0
    && (forall i :: 0 <= i < |nodes| - 1 ==> nodes[i].next == nodes[i + 1])
    && nodes[|nodes| - 1].next == null
  }

  class Queue<T> {
    var head: Node<T>
    var tail: Node<T>
    const mp: Pool<T>
    var size: nat
    ghost var nodes: seq<Node<T>>

    /** The list itself, apart from the pool. */
    ghost predicate Listed()
      reads this, nodes
    {
      && Chained(nodes)
      && head == nodes[0] && tail == nodes[|nodes| - 1]
      && Different(nodes)
      && |nodes| == size + 1
    }

    ghost predicate Valid()
      reads this, mp, mp.buf, nodes
    {
      && mp.Valid() && Listed()
      && (forall i :: 0 <= i < |nodes| ==> nodes[i] !in mp.Pooled())
      && mp.cnt == size + 1
    }

    /** What is queued: the data of all nodes but the sentinel at the end. */
    ghost function Contents(): seq<T>
      requires Valid()
      reads this, mp, mp.buf, nodes
    {
      seq(size, i requires 0 <= i < size && Valid() reads this, mp, mp.buf, nodes => nodes[i].data)
    }

    /** All nodes of the queue, in use or pooled. */
    ghost function Owned(): set<Node?<T>>
      requires Valid()
      reads this, mp, mp.buf, nodes
    {
      SetOf(nodes) + SetOf(mp.Pooled())
    }

    /** kl_init */
    constructor (zero: T)
      ensures Valid() && Contents() == [] && fresh(mp) && fresh(mp.buf) && fresh(nodes) && mp.Pooled() == []
    {
      var pool := new Pool<T>(zero);
      var p := pool.Alloc();
      mp := pool;
      head, tail := p, p;
      size := 0;
      nodes := [p];
      new;
      head.next := null;
    }

    /** kl_pushp: the old sentinel becomes the last element, its data for the caller to write; the new sentinel comes from the pool. */
    method Push() returns (q: Node<T>)
      requires Valid()
      modifies this, mp`cnt, mp`n, nodes, mp.Pooled()
      ensures Valid() && q == old(tail) && q.data == old(tail.data)
      ensures Contents() == old(Contents()) + [q.data] && q == nodes[size - 1]
      ensures nodes[..size] == old(nodes) && (tail in old(mp.Pooled()) || fresh(tail))
      ensures Owned() == old(Owned()) + {tail}
    {
      hide SetOf, Different;
      ghost var pooled := mp.Pooled();
      var p := mp.Alloc();
      TakenFromPool(pooled, mp.Pooled(), p);
      SetOfMore(nodes, p);
      q := tail;
      Append(p);
    }

    /** The node p becomes the sentinel. */
    method Append(p: Node<T>)
      requires Listed() && p !in nodes
      modifies `tail, `size, `nodes, tail`next, p`next
      ensures Listed() && nodes == old(nodes) + [p] && size == old(size) + 1
    {
      hide Different;
      DifferentMore(nodes, p);
      p.next := null;
      tail.next := p;
      tail := p;
      size := size + 1;
      nodes := nodes + [p];
    }

    /** What a caller does with the result of kl_pushp. */
    method PushValue(v: T)
      requires Valid()
      modifies this, mp`cnt, mp`n, nodes, mp.Pooled()
      ensures Valid() && Contents() == old(Contents()) + [v]
      ensures tail in old(mp.Pooled()) || fresh(tail)
    {
      hide SetOf, Different;
      var q := Push();
      ghost var c := Contents();
      OnlyOnce(nodes, size - 1);
      q.data := v;
      assert Contents() == c[size - 1 := v];
    }

    /** kl_shift: the first element, or -1 and d left alone if there is none. */
    method Shift(d0: T) returns (ret: int, d: T)
      requires Valid()
      modifies this, mp, mp.buf
      ensures Valid()
      ensures old(size) == 0 ==> ret == -1 && d == d0 && Contents() == []
      ensures old(size) > 0 ==> ret == 0 && old(Contents()) == [d] + Contents()
      ensures Owned() == old(Owned())
      ensures mp.buf == old(mp.buf) || fresh(mp.buf)
    {
      hide SetOf;
      d := d0;
      assert size > 0 ==> nodes[0].next == nodes[1];
      if head.next == null {
        return -1, d;
      }
      size := size - 1;
      var p := head;
      head := head.next;
      d := p.data;
      SetOfMore(mp.Pooled(), p);
      SetOfRest(nodes);
      mp.Free(p);
      nodes := nodes[1..];
      ret := 0;
    }

    /** kl_destroy: every node of the queue, in use or pooled, is freed exactly once. */
    method Destroy() returns (freed: seq<Node?<T>>)
      requires Valid()
      modifies mp, mp.buf
      ensures Different(freed) && SetOf(freed) == old(Owned())
    {
      ghost var pooled := mp.Pooled();
      var p := head;
      ghost var k := 0;
      while p != tail
        invariant 0 <= k < |nodes| && p == nodes[k] && mp.Valid() && mp.Pooled() == pooled + nodes[..k]
        invariant mp.buf == old(mp.buf) || fresh(mp.buf)
        invariant Chained(nodes)
        decreases |nodes| - k
      {
        mp.Free(p);
        p := p.next;
        k := k + 1;
      }
      mp.Free(p);
      freed := mp.Destroy();
      assert freed == pooled + nodes;
    }
  }
}
