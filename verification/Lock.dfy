/**
 The distributed lock as a system of steps: each PE runs set_lock, test_lock and
 clear_lock, the claims meet in compare-and-swaps on one word, and puts are delivered in
 any order until a quiet.
 */
module DistributedLock {
  import Probing
  import Alignment

  type Short = x: int | -0x8000 <= x < 0x8000

  /** Conversion to int16_t. */
  function ToShort(x: int): Short
  {
    (x + 0x8000) % 0x1_0000 - 0x8000
  }

  /** shmem_lock_t: the two halves of a word that is swapped as one. */
  datatype LockWord = LockWord(locked: Short, next: Short)

  const FREE: Short := -1
  const RESET: Short := 0
  const ACQUIRED: Short := 1

  function Unsigned(x: Short): nat
  {
    if x >= 0 then x else x + 0x1_0000
  }

  /** The blob of the union, as an unsigned 32-bit number. */
  function Blob(l: LockWord): nat
  {
    Unsigned(l.locked) + 0x1_0000 * Unsigned(l.next)
  }

  /** The word is compared as a blob, which is as good as comparing its halves. */
  lemma BlobInjective(k: LockWord, l: LockWord)
    ensures Blob(k) == Blob(l) <==> k == l
    ensures Blob(k) == 0 <==> k == LockWord(RESET, RESET)
  {
    assert Blob(k) == Blob(l) ==> Unsigned(k.next) == Unsigned(l.next);
  }

  /** The claim of a PE: acquired, with the PE's number as far as 16 bits hold it. */
  function Claim(me: nat): LockWord
  {
    LockWord(ACQUIRED, ToShort(me))
  }

  /** A put on its way: to the protected data, or to a field of another PE's node. */
  datatype Put = DataPut(cell: nat, value: int) | NextPut(pe: int, next: Short) | LockedPut(pe: int, locked: Short)

  /** Where a PE is in the lock routines. */
  datatype Pc =
    | Idle
    | SetRequest
    | TestRequest
    | Execute(cmp: LockWord)          // before node->d.next = FREE
    | Tail(cmp: LockWord)             // before the test of cmp->d.locked
    | Spinning                        // until node->d.locked is changed
    | Held
    | Quieting                        // in shmemc_quiet
    | ClearRequest
    | ClearExecute(cmp: LockWord)
    | ClearWait                       // until a chainer appears

  /** One lock, the data it protects, and the PEs; written is what the holders' puts amount to. */
  datatype State = State(word: LockWord, node: seq<LockWord>, pc: seq<Pc>, result: seq<int>, pending: seq<seq<Put>>, data: seq<int>,
                         written: seq<int>)

  datatype Step =
    | CallSet(p: nat)
    | CallTest(p: nat)
    | CallClear(p: nat)
    | TrySet(p: nat)
    | TryTest(p: nat)
    | MarkTail(p: nat)
    | Branch(p: nat)
    | SpinEnds(p: nat)
    | QuietEnds(p: nat)
    | TryClear(p: nat, junk: LockWord)
    | ClearReturns(p: nat)
    | WaitEnds(p: nat)
    | PutData(p: nat, cell: nat, value: int)
    | Deliver(p: nat, i: nat)

  ghost predicate Shaped(s: State)
  {
    && |s.node| == |s.pc| == |s.result| == |s.pending|
    && |s.written| == |s.data|
  }

  /** The puts of the client that holds the lock: no cell twice before a quiet. */
  ghost predicate Unput(s: State, p: nat, cell: nat)
    requires p < |s.pending|
  {
    forall i :: 0 <= i < |s.pending[p]| && s.pending[p][i].DataPut? ==> s.pending[p][i].cell != cell
  }

  /** When a PE can make a step. */
  ghost predicate Enabled(s: State, t: Step)
  {
    Shaped(s) && t.p < |s.pc| &&
    match t
    case CallSet(p) => s.pc[p] == Idle
    case CallTest(p) => s.pc[p] == Idle
    case CallClear(p) => s.pc[p] == Held
    case TrySet(p) => s.pc[p] == SetRequest
    case TryTest(p) => s.pc[p] == TestRequest
    case MarkTail(p) => s.pc[p].Execute?
    case Branch(p) => s.pc[p].Tail?
    case SpinEnds(p) => s.pc[p] == Spinning && s.node[p].locked != ACQUIRED
    case QuietEnds(p) => s.pc[p] == Quieting && s.pending[p] == []
    case TryClear(p, _) => s.pc[p] == ClearRequest
    case ClearReturns(p) => s.pc[p].ClearExecute?
    case WaitEnds(p) => s.pc[p] == ClearWait && s.node[p].next != FREE
    case PutData(p, cell, _) => s.pc[p] == Held && cell < |s.data| && Unput(s, p, cell)
    case Deliver(p, i) => i < |s.pending[p]|
  }

  function At(s: State, p: nat, pc: Pc): State
    requires p < |s.pc|
  {
    s.(pc := s.pc[p := pc])
  }

  /** try_request_lock: the claim is swapped in if the word is reset. */
  function Requested(s: State, p: nat): State
  {
    if Blob(s.word) == 0 then s.(word := Claim(p)) else s
  }

  /** try_clear_lock */
  function Cleared(s: State, p: nat): State
  {
    if Blob(s.word) == Blob(Claim(p)) then s.(word := LockWord(RESET, RESET)) else s
  }

  /** A put arrives. */
  function Delivered(s: State, u: Put): State
  {
    match u
    case DataPut(cell, value) => if cell < |s.data| then s.(data := s.data[cell := value]) else s
    case NextPut(pe, next) => if 0 <= pe < |s.node| then s.(node := s.node[pe := s.node[pe].(next := next)]) else s
    case LockedPut(pe, locked) => if 0 <= pe < |s.node| then s.(node := s.node[pe := s.node[pe].(locked := locked)]) else s
  }

  /** What a step does. */
  ghost function Do(s: State, t: Step): (s': State)
    requires Enabled(s, t)
    ensures Shaped(s') && |s'.pc| == |s.pc|
  {
    match t
    case CallSet(p) => At(s, p, SetRequest)
    case CallTest(p) => At(s, p, TestRequest)
    case CallClear(p) => At(s, p, Quieting)
    case TrySet(p) =>
      if Blob(s.word) == 0 then At(Requested(s, p), p, Execute(s.word)) else Requested(s, p)
    case TryTest(p) =>
      if Blob(s.word) == 0 then
        At(Requested(s, p), p, Execute(s.word)).(result := s.result[p := 0])
      else
        At(Requested(s, p), p, Idle).(result := s.result[p := 1])
    case MarkTail(p) =>
      At(s, p, Tail(s.pc[p].cmp)).(node := s.node[p := s.node[p].(next := FREE)])
    case Branch(p) =>
      if s.pc[p].cmp.locked == ACQUIRED then
        At(s, p, Spinning).(node := s.node[p := s.node[p].(locked := ACQUIRED)],
                            pending := s.pending[p := s.pending[p] + [NextPut(s.pc[p].cmp.next, ToShort(p))]])
      else
        At(s, p, Held)
    case SpinEnds(p) => At(s, p, Held)
    case QuietEnds(p) => At(s, p, ClearRequest)
    case TryClear(p, junk) =>
      if s.node[p].next == FREE then At(Cleared(s, p), p, ClearExecute(s.word)) else At(s, p, ClearExecute(junk))
    case ClearReturns(p) =>
      if s.pc[p].cmp.next == p then At(s, p, Idle) else At(s, p, ClearWait)
    case WaitEnds(p) =>
      At(s, p, Idle).(pending := s.pending[p := s.pending[p] + [LockedPut(s.node[p].next, RESET)]])
    case PutData(p, cell, value) =>
      s.(pending := s.pending[p := s.pending[p] + [DataPut(cell, value)]], written := s.written[cell := value])
    case Deliver(p, i) =>
      Delivered(s, s.pending[p][i]).(pending := s.pending[p := s.pending[p][..i] + s.pending[p][i + 1..]])
  }

  ghost predicate Initial(s: State)
  {
    && Shaped(s)
    && s.word == LockWord(RESET, RESET)
    && s.written == s.data
    && forall p :: 0 <= p < |s.pc| ==> s.pc[p] == Idle && s.pending[p] == []
  }

  /** A run: states, and the steps between them. */
  ghost predicate IsRun(states: seq<State>, steps: seq<Step>)
  {
    && |states| == |steps| + 1
    && forall k {:trigger steps[k]} :: 0 <= k < |steps| ==> Enabled(states[k], steps[k]) && states[k + 1] == Do(states[k], steps[k])
  }

  // ---------------------------------------------------------------------------
  // The invariant

  /** Between the swap that took the lock and the one that gives it back. */
  predicate Owns(pc: Pc)
  {
    pc.Execute? || pc.Tail? || pc.Held? || pc.Quieting? || pc.ClearRequest?
  }

  /** What is known of one PE. */
  ghost predicate PeOk(s: State, p: nat)
    requires Shaped(s) && p < |s.pc|
  {
    && (Owns(s.pc[p]) ==> s.word == Claim(p))
    && (s.pc[p].Execute? || s.pc[p].Tail? ==> s.pc[p].cmp == LockWord(RESET, RESET))
    && !s.pc[p].Spinning?
    && (s.pc[p].Tail? || s.pc[p].Held? || s.pc[p].Quieting? || s.pc[p].ClearRequest? || s.pc[p].ClearExecute? || s.pc[p].ClearWait?
        ==> s.node[p].next == FREE)
    && (s.pc[p].ClearExecute? ==> s.pc[p].cmp == Claim(p))
    && (s.pc[p].ClearWait? ==> ToShort(p) != p)
    && (s.pending[p] != [] ==> s.pc[p].Held? || s.pc[p].Quieting?)
    && PutsOk(s, p)
  }

  /** The puts of one PE go to different cells of the data, and carry what was last written there. */
  ghost predicate PutsOk(s: State, p: nat)
    requires Shaped(s) && p < |s.pc|
  {
    && (forall i :: 0 <= i < |s.pending[p]| ==>
          s.pending[p][i].DataPut? && s.pending[p][i].cell < |s.data| && s.written[s.pending[p][i].cell] == s.pending[p][i].value)
    && (forall i, j :: 0 <= i < j < |s.pending[p]| ==> s.pending[p][i].cell != s.pending[p][j].cell)
  }

  /** A cell that no put is on its way to holds what was last written. */
  ghost predicate CellOk(s: State, cell: nat)
    requires Shaped(s) && cell < |s.data|
  {
    s.data[cell] == s.written[cell] || exists p :: 0 <= p < |s.pc| && !Unput(s, p, cell)
  }

  ghost predicate Inv(s: State)
  {
    && Shaped(s)
    && (forall p: nat {:trigger PeOk(s, p)} :: p < |s.pc| ==> PeOk(s, p))
    && (forall p, q :: 0 <= p < |s.pc| && 0 <= q < |s.pc| && Owns(s.pc[p]) && Owns(s.pc[q]) ==> p == q)
    && (s.word == LockWord(RESET, RESET) || exists p :: 0 <= p < |s.pc| && Owns(s.pc[p]))
    && (forall cell: nat {:trigger CellOk(s, cell)} :: cell < |s.data| ==> CellOk(s, cell))
  }

  lemma InvInitial(s: State)
    requires Initial(s)
    ensures Inv(s)
  {
    forall p: nat | p < |s.pc|
      ensures PeOk(s, p)
    {
      assert s.pc[p] == Idle;
    }
  }

  /** Steps that leave word, puts and data alone and do not change who owns the lock. */
  lemma InvQuietStep(s: State, s': State, p: nat)
    requires Inv(s) && Shaped(s') && p < |s.pc| == |s'.pc|
    requires s'.word == s.word && s'.pending == s.pending && s'.data == s.data && s'.written == s.written
    requires s'.pc == s.pc[p := s'.pc[p]] && s'.node == s.node[p := s'.node[p]]
    requires Owns(s'.pc[p]) == Owns(s.pc[p]) && PeOk(s', p)
    ensures Inv(s')
  {
    forall q: nat | q < |s.pc|
      ensures PeOk(s', q)
    {
      assert PeOk(s, q);
    }
    if s'.word != LockWord(RESET, RESET) {
      var q :| 0 <= q < |s.pc| && Owns(s.pc[q]);
      assert Owns(s'.pc[q]);
    }
    SameCells(s, s');
  }

  lemma SameCells(s: State, s': State)
    requires Inv(s) && Shaped(s') && |s'.pc| == |s.pc|
    requires s'.pending == s.pending && s'.data == s.data && s'.written == s.written
    ensures forall cell: nat :: cell < |s'.data| ==> CellOk(s', cell)
  {
    forall cell: nat | cell < |s'.data|
      ensures CellOk(s', cell)
    {
      assert CellOk(s, cell);
      if s.data[cell] != s.written[cell] {
        var q :| 0 <= q < |s.pc| && !Unput(s, q, cell);
        assert !Unput(s', q, cell);
      }
    }
  }

  /** A successful claim. */
  lemma InvAcquired(s: State, s': State, p: nat)
    requires Inv(s) && Shaped(s') && p < |s.pc| == |s'.pc| && Blob(s.word) == 0
    requires s'.word == Claim(p) && s'.pending == s.pending && s'.data == s.data && s'.written == s.written && s'.node == s.node
    requires s'.pc == s.pc[p := Execute(s.word)] && (s.pc[p] == SetRequest || s.pc[p] == TestRequest)
    ensures Inv(s')
  {
    BlobInjective(s.word, s.word);
    hide Blob, ToShort, PutsOk;
    NobodyOwns(s);
    forall q: nat | q < |s.pc|
      ensures PeOk(s', q)
    {
      assert PeOk(s, q);
      SamePuts(s, s', q);
    }
    assert Owns(s'.pc[p]);
    SameCells(s, s');
  }

  /** The word is reset only while no PE owns the lock. */
  lemma NobodyOwns(s: State)
    requires Inv(s)
    ensures s.word == LockWord(RESET, RESET) <==> forall q :: 0 <= q < |s.pc| ==> !Owns(s.pc[q])
  {
    hide ToShort, PutsOk;
    forall q | 0 <= q < |s.pc| && Owns(s.pc[q])
      ensures s.word != LockWord(RESET, RESET)
    {
      assert PeOk(s, q);
    }
  }

  lemma SamePuts(s: State, s': State, p: nat)
    requires Shaped(s) && Shaped(s') && p < |s.pc| == |s'.pc| && PutsOk(s, p)
    requires s'.pending[p] == s.pending[p] && |s'.data| == |s.data| && s'.written == s.written
    ensures PutsOk(s', p)
  {
  }

  /** A clear by the owner. */
  lemma InvReleased(s: State, s': State, p: nat)
    requires Inv(s) && Shaped(s') && p < |s.pc| == |s'.pc| && s.pc[p] == ClearRequest
    requires s'.word == LockWord(RESET, RESET) && s'.pending == s.pending && s'.data == s.data && s'.written == s.written && s'.node == s.node
    requires s'.pc == s.pc[p := ClearExecute(s.word)]
    ensures Inv(s')
  {
    assert PeOk(s, p);
    forall q: nat | q < |s.pc|
      ensures PeOk(s', q)
    {
      assert PeOk(s, q);
    }
    SameCells(s, s');
  }

  lemma InvPut(s: State, p: nat, cell: nat, value: int)
    requires Inv(s) && Enabled(s, PutData(p, cell, value))
    ensures Inv(Do(s, PutData(p, cell, value)))
  {
    var s' := Do(s, PutData(p, cell, value));
    assert PeOk(s, p);
    forall q: nat | q < |s.pc|
      ensures PeOk(s', q)
    {
      assert PeOk(s, q);
      if q != p {
        assert s.pending[q] == [];
      } else {
        PutMore(s, s', p, cell, value);
      }
    }
    forall c: nat | c < |s'.data|
      ensures CellOk(s', c)
    {
      assert CellOk(s, c);
      if c == cell {
        assert s'.pending[p][|s.pending[p]|] == DataPut(cell, value);
        assert !Unput(s', p, c);
      } else if s.data[c] != s.written[c] {
        var q :| 0 <= q < |s.pc| && !Unput(s, q, c);
        var i :| 0 <= i < |s.pending[q]| && s.pending[q][i].DataPut? && s.pending[q][i].cell == c;
        assert s'.pending[q][i] == s.pending[q][i];
        assert !Unput(s', q, c);
      }
    }
    assert s'.word == LockWord(RESET, RESET) || Owns(s'.pc[p]);
  }

  lemma PutMore(s: State, s': State, p: nat, cell: nat, value: int)
    requires Shaped(s) && p < |s.pc| && PutsOk(s, p) && cell < |s.data| && Unput(s, p, cell)
    requires s' == s.(pending := s.pending[p := s.pending[p] + [DataPut(cell, value)]], written := s.written[cell := value])
    ensures PutsOk(s', p)
  {
    var u, u' := s.pending[p], s'.pending[p];
    forall i | 0 <= i < |u'|
      ensures u'[i].DataPut? && u'[i].cell < |s.data| && s'.written[u'[i].cell] == u'[i].value
    {
      if i < |u| {
        assert u'[i] == u[i] && u[i].cell != cell;
      }
    }
    forall i, j | 0 <= i < j < |u'|
      ensures u'[i].cell != u'[j].cell
    {
      assert u'[i] == u[i];
      if j < |u| {
        assert u'[j] == u[j];
      }
    }
  }

  lemma InvDeliver(s: State, p: nat, i: nat)
    requires Inv(s) && Enabled(s, Deliver(p, i))
    ensures Inv(Do(s, Deliver(p, i)))
  {
    hide ToShort, PutsOk, CellOk, Unput;
    var s' := Do(s, Deliver(p, i));
    assert PeOk(s, p);
    PutFewer(s, s', p, i);
    forall q: nat | q < |s.pc|
      ensures PeOk(s', q)
    {
      assert PeOk(s, q);
      if q != p {
        SamePuts(s, s', q);
      }
    }
    forall c: nat | c < |s'.data|
      ensures CellOk(s', c)
    {
      CellDelivered(s, s', p, i, c);
    }
    if s.word != LockWord(RESET, RESET) {
      var q :| 0 <= q < |s.pc| && Owns(s.pc[q]);
      assert Owns(s'.pc[q]);
    }
  }

  lemma PutFewer(s: State, s': State, p: nat, i: nat)
    requires Shaped(s) && p < |s.pc| && PutsOk(s, p) && i < |s.pending[p]|
    requires s' == Delivered(s, s.pending[p][i]).(pending := s.pending[p := s.pending[p][..i] + s.pending[p][i + 1..]])
    ensures Shaped(s') && PutsOk(s', p) && s'.word == s.word && s'.node == s.node && s'.pc == s.pc && s'.written == s.written
    ensures |s'.data| == |s.data| && forall q :: 0 <= q < |s.pc| && q != p ==> s'.pending[q] == s.pending[q]
  {
    var u, u' := s.pending[p], s'.pending[p];
    assert u[i].DataPut?;
    forall j | 0 <= j < |u'|
      ensures u'[j] == u[if j < i then j else j + 1]
    {
    }
  }

  lemma CellDelivered(s: State, s': State, p: nat, i: nat, c: nat)
    requires Shaped(s) && p < |s.pc| && PutsOk(s, p) && i < |s.pending[p]| && c < |s.data| && CellOk(s, c)
    requires s' == Delivered(s, s.pending[p][i]).(pending := s.pending[p := s.pending[p][..i] + s.pending[p][i + 1..]])
    ensures Shaped(s') && |s'.data| == |s.data| && CellOk(s', c)
  {
    var u, u' := s.pending[p], s'.pending[p];
    assert u[i].DataPut?;
    if c != u[i].cell && s.data[c] != s.written[c] {
      var q :| 0 <= q < |s.pc| && !Unput(s, q, c);
      var j :| 0 <= j < |s.pending[q]| && s.pending[q][j].DataPut? && s.pending[q][j].cell == c;
      var k := if q != p || j < i then j else j - 1;
      assert s'.pending[q][k] == s.pending[q][j];
      assert !Unput(s', q, c);
    }
  }

  /** A PE's own progress, without a swap. */
  lemma InvLocal(s: State, t: Step)
    requires Inv(s) && Enabled(s, t)
    requires t.CallSet? || t.CallTest? || t.CallClear? || t.MarkTail? || t.Branch? || t.SpinEnds? || t.QuietEnds? || t.ClearReturns? || t.WaitEnds?
    ensures Inv(Do(s, t))
  {
    hide ToShort, PutsOk, Blob, CellOk, Unput;
    var s' := Do(s, t);
    assert PeOk(s, t.p);
    SamePuts(s, s', t.p);
    InvQuietStep(s, s', t.p);
  }

  lemma InvTry(s: State, t: Step)
    requires Inv(s) && Enabled(s, t) && (t.TrySet? || t.TryTest?)
    ensures Inv(Do(s, t))
  {
    hide ToShort, PutsOk, CellOk, Unput, Blob;
    var s' := Do(s, t);
    if Blob(s.word) == 0 {
      InvAcquired(s, s', t.p);
    } else {
      assert PeOk(s, t.p);
      SamePuts(s, s', t.p);
      InvQuietStep(s, s', t.p);
    }
  }

  lemma InvTryClear(s: State, t: Step)
    requires Inv(s) && Enabled(s, t) && t.TryClear?
    ensures Inv(Do(s, t))
  {
    hide ToShort, PutsOk, CellOk, Unput, Blob;
    assert PeOk(s, t.p);
    InvReleased(s, Do(s, t), t.p);
  }

  /** Every step keeps the invariant. */
  lemma InvKept(s: State, t: Step)
    requires Inv(s) && Enabled(s, t)
    ensures Inv(Do(s, t))
  {
    hide Inv, Do, Enabled;
    match t
    case TrySet(_) => InvTry(s, t);
    case TryTest(_) => InvTry(s, t);
    case TryClear(_, _) => InvTryClear(s, t);
    case PutData(p, cell, value) => InvPut(s, p, cell, value);
    case Deliver(p, i) => InvDeliver(s, p, i);
    case _ => InvLocal(s, t);
  }

  lemma {:induction false} InvReached(states: seq<State>, steps: seq<Step>, k: nat)
    requires IsRun(states, steps) && Inv(states[0]) && k < |states|
    ensures Inv(states[k])
  {
    hide Inv, Do, Enabled;
    if k > 0 {
      InvReached(states, steps, k - 1);
      assert steps[k - 1] == steps[k - 1];
      InvKept(states[k - 1], steps[k - 1]);
    }
  }

  // ---------------------------------------------------------------------------
  // What holds over every run

  /** At most one PE is between taking the lock and giving it back, and none ever waits in a queue. */
  lemma MutualExclusion(states: seq<State>, steps: seq<Step>, k: nat, p: nat, q: nat)
    requires IsRun(states, steps) && Initial(states[0]) && k < |states| && Shaped(states[k]) && p < |states[k].pc| && q < |states[k].pc|
    ensures Owns(states[k].pc[p]) && Owns(states[k].pc[q]) ==> p == q
    ensures states[k].pc[p] != Spinning
  {
    InvInitial(states[0]);
    InvReached(states, steps, k);
    assert PeOk(states[k], p);
  }

  /** While the word is reset no put is on its way: the data is what the holders wrote. */
  lemma QuietWhenFree(states: seq<State>, steps: seq<Step>, k: nat)
    requires IsRun(states, steps) && Initial(states[0]) && k < |states|
    ensures Shaped(states[k])
    ensures states[k].word == LockWord(RESET, RESET) ==>
              states[k].data == states[k].written && forall p :: 0 <= p < |states[k].pc| ==> states[k].pending[p] == []
  {
    InvInitial(states[0]);
    InvReached(states, steps, k);
    var s := states[k];
    if s.word == LockWord(RESET, RESET) {
      NobodyOwns(s);
      forall p | 0 <= p < |s.pc|
        ensures s.pending[p] == []
      {
        assert PeOk(s, p);
      }
      forall c: nat | c < |s.data|
        ensures s.data[c] == s.written[c]
      {
        assert CellOk(s, c);
      }
    }
  }

  /** A holder reads the latest write to every cell that it has no put of its own on the way to. */
  lemma HolderReadsLatest(states: seq<State>, steps: seq<Step>, k: nat, p: nat, cell: nat)
    requires IsRun(states, steps) && Initial(states[0]) && k < |states| && Shaped(states[k])
    requires p < |states[k].pc| && states[k].pc[p] == Held && cell < |states[k].data| && Unput(states[k], p, cell)
    ensures states[k].data[cell] == states[k].written[cell]
  {
    InvInitial(states[0]);
    InvReached(states, steps, k);
    var s := states[k];
    assert CellOk(s, cell) && PeOk(s, p);
    forall q | 0 <= q < |s.pc|
      ensures Unput(s, q, cell)
    {
      assert PeOk(s, q);
    }
  }

  /** A holder that has flushed its puts gives the lock back, and the call returns at once exactly if 16 bits hold its number. */
  lemma ClearFinishes(s: State, p: nat, junk: LockWord, s1: State)
    requires Inv(s) && p < |s.pc| && s.pc[p] == ClearRequest
    ensures Enabled(s, TryClear(p, junk))
    ensures s1 == Do(s, TryClear(p, junk)) ==>
              && s1.word == LockWord(RESET, RESET)
              && Enabled(s1, ClearReturns(p))
              && Do(s1, ClearReturns(p)).pc[p] == if p < 0x8000 then Idle else ClearWait
  {
    hide ToShort, PutsOk, CellOk, Unput, Blob;
    assert PeOk(s, p);
    ShortOfSmall(p);
  }

  /** A call that waits for a chainer waits for ever: nobody chains. */
  lemma {:induction false} WaitsForEver(states: seq<State>, steps: seq<Step>, k: nat, p: nat)
    requires IsRun(states, steps) && Inv(states[0]) && p < |states[0].pc| && states[0].pc[p] == ClearWait && k < |states|
    ensures Inv(states[k]) && p < |states[k].pc| && states[k].pc[p] == ClearWait
  {
    hide Inv, Do, Enabled;
    if k > 0 {
      WaitsForEver(states, steps, k - 1, p);
      InvReached(states, steps, k);
      assert Enabled(states[k - 1], steps[k - 1]);
      StaysWaiting(states[k - 1], steps[k - 1], p);
    }
  }

  lemma StaysWaiting(s: State, t: Step, p: nat)
    requires Inv(s) && Enabled(s, t) && p < |s.pc| && s.pc[p] == ClearWait
    ensures p < |Do(s, t).pc| && Do(s, t).pc[p] == ClearWait
  {
    hide Blob, ToShort, Unput, PutsOk;
    assert PeOk(s, p) && PeOk(s, t.p);
  }

  // ---------------------------------------------------------------------------
  // The lock is an atomic test-and-set lock

  datatype Abstract = Free | HeldBy(p: nat)

  datatype Event = Acquire(p: nat) | Refused(p: nat) | Release(p: nat) | Stutter

  /** The atomic lock. */
  ghost predicate Atomic(a: Abstract, e: Event, a': Abstract)
  {
    match e
    case Acquire(p) => a == Free && a' == HeldBy(p)
    case Refused(p) => a.HeldBy? && a' == a
    case Release(p) => a == HeldBy(p) && a' == Free
    case Stutter => a' == a
  }

  /** The state of the atomic lock: held by the PE that owns it. */
  ghost function Holder(s: State): Abstract
  {
    if exists p: nat :: p < |s.pc| && Owns(s.pc[p]) then
      var p: nat :| p < |s.pc| && Owns(s.pc[p]);
      HeldBy(p)
    else
      Free
  }

  /** What the lock word says: it names a holder. */
  ghost function Named(w: LockWord): Abstract
  {
    if w == LockWord(RESET, RESET) then Free else HeldBy(if w.next >= 0 then w.next else 0)
  }

  ghost function EventOf(s: State, t: Step): Event
    requires Enabled(s, t)
  {
    match t
    case TrySet(p) => if Blob(s.word) == 0 then Acquire(p) else Refused(p)
    case TryTest(p) => if Blob(s.word) == 0 then Acquire(p) else Refused(p)
    case TryClear(p, _) => Release(p)
    case _ => Stutter
  }

  lemma ShortOfSmall(p: nat)
    ensures ToShort(p) == p <==> p < 0x8000
  {
  }

  lemma HolderIs(s: State, p: nat)
    requires Inv(s) && p < |s.pc| && Owns(s.pc[p])
    ensures Holder(s) == HeldBy(p)
  {
    hide PutsOk, CellOk, Owns;
  }

  lemma HolderFree(s: State)
    requires Inv(s)
    ensures Holder(s) == Free <==> s.word == LockWord(RESET, RESET)
  {
    hide PutsOk, CellOk, Owns;
    NobodyOwns(s);
  }

  /** With at most 2^15 PEs the word itself names the holder; with more it cannot. */
  lemma WordNamesOwner(s: State)
    requires Inv(s)
    ensures |s.pc| <= 0x8000 ==> Named(s.word) == Holder(s)
    ensures forall p: nat :: 0x8000 <= p < |s.pc| && Owns(s.pc[p]) ==> Named(s.word) != Holder(s)
  {
    hide ToShort, PutsOk, CellOk, Unput, Owns, Holder;
    HolderFree(s);
    forall p: nat | p < |s.pc| && Owns(s.pc[p])
      ensures Named(s.word) == Holder(s) <==> p < 0x8000
    {
      assert PeOk(s, p);
      HolderIs(s, p);
      ShortOfSmall(p);
    }
  }

  /** With any number of PEs every step is one of the atomic lock, or invisible. */
  lemma RefinesTestAndSet(s: State, t: Step)
    requires Inv(s) && Enabled(s, t)
    ensures Atomic(Holder(s), EventOf(s, t), Holder(Do(s, t)))
  {
    hide ToShort, PutsOk, CellOk, Unput, Inv, Do, Owns, Blob, Claim, Enabled, Holder;
    var s' := Do(s, t);
    StepInRange(s, t);
    OwnersAfter(s, t);
    InvKept(s, t);
    HolderFree(s);
    HolderFree(s');
    if (t.TrySet? || t.TryTest?) && Blob(s.word) == 0 {
      HolderIs(s', t.p);
    } else if t.TryClear? {
      HolderIs(s, t.p);
    } else {
      HolderKept(s, t);
    }
  }

  lemma HolderKept(s: State, t: Step)
    requires Inv(s) && Enabled(s, t) && !t.TryClear? && (t.TrySet? || t.TryTest? ==> Blob(s.word) != 0)
    ensures Holder(Do(s, t)) == Holder(s)
  {
    hide Inv, Do, Owns, Blob, Enabled, Holder;
    var s' := Do(s, t);
    InvKept(s, t);
    StepInRange(s, t);
    HolderFree(s);
    HolderFree(s');
    OwnersAfter(s, t);
    forall p: nat | p < |s.pc| && Owns(s.pc[p])
      ensures Holder(s') == Holder(s)
    {
      HolderIs(s, p);
      StillOwns(s, t, p);
      HolderIs(s', p);
    }
    SomeHolder(s);
  }

  lemma StillOwns(s: State, t: Step, p: nat)
    requires Inv(s) && Enabled(s, t) && !t.TryClear? && p < |s.pc| && Owns(s.pc[p])
    ensures p < |Do(s, t).pc| && Owns(Do(s, t).pc[p])
  {
    hide ToShort, PutsOk, CellOk, Unput, Blob;
    assert PeOk(s, p);
  }

  lemma SomeHolder(s: State)
    ensures Holder(s) != Free ==> exists p: nat :: p < |s.pc| && Owns(s.pc[p])
  {
  }

  /** Every run is a run of the atomic lock. */
  lemma RunRefines(states: seq<State>, steps: seq<Step>, k: nat)
    requires IsRun(states, steps) && Initial(states[0]) && k < |steps|
    ensures Holder(states[0]) == Free
    ensures Enabled(states[k], steps[k]) && Atomic(Holder(states[k]), EventOf(states[k], steps[k]), Holder(states[k + 1]))
  {
    InvInitial(states[0]);
    HolderFree(states[0]);
    InvReached(states, steps, k);
    hide Inv, Do, EventOf, Atomic;
    assert Enabled(states[k], steps[k]);
    RefinesTestAndSet(states[k], steps[k]);
  }

  lemma StepInRange(s: State, t: Step)
    requires Enabled(s, t)
    ensures t.p < |s.pc|
  {
    hide Unput;
  }

  /** Who owns the lock after a step, and what became of the word. */
  lemma OwnersAfter(s: State, t: Step)
    requires Inv(s) && Enabled(s, t)
    ensures var s' := Do(s, t);
      if t.TrySet? || t.TryTest? then
        && (Blob(s.word) == 0 <==> s.word == LockWord(RESET, RESET))
        && (Blob(s.word) == 0 ==> Owns(s'.pc[t.p]))
        && (Blob(s.word) != 0 ==> s'.word == s.word)
      else if t.TryClear? then
        Owns(s.pc[t.p]) && s'.word == LockWord(RESET, RESET)
      else
        s'.word == s.word
  {
    hide ToShort, PutsOk, CellOk, Unput;
    BlobInjective(s.word, Claim(t.p));
    hide Blob;
    assert PeOk(s, t.p);
  }

  /** shmem_test_lock returns 0 exactly if it took the lock, and otherwise changes nothing but the caller's own state. */
  lemma TestLock(s: State, p: nat, s': State)
    requires Inv(s) && Enabled(s, TryTest(p)) && s' == Do(s, TryTest(p))
    ensures s'.result[p] == 0 <==> s.word == LockWord(RESET, RESET)
    ensures s'.result[p] == 0 <==> Owns(s'.pc[p])
    ensures s'.result[p] != 0 ==> s'.result[p] == 1 && s'.pc[p] == Idle && s' == s.(pc := s'.pc, result := s'.result)
  {
    hide ToShort, PutsOk, CellOk, Unput, Inv;
    BlobInjective(s.word, s.word);
    hide Blob;
  }

  /** Nothing but the next steps of the PE itself is between the swap and holding the lock: no wait for another PE. */
  lemma AcquireFinishes(s: State, p: nat, s1: State)
    requires Inv(s) && p < |s.pc| && s.pc[p].Execute?
    ensures Enabled(s, MarkTail(p))
    ensures s1 == Do(s, MarkTail(p)) ==> Enabled(s1, Branch(p)) && Do(s1, Branch(p)).pc[p] == Held
  {
    hide ToShort, PutsOk, CellOk, Unput, Blob;
    assert PeOk(s, p);
  }

  // ---------------------------------------------------------------------------
  // What a call has done when it returns

  /** In a call that has the lock to get: set_lock from its start, or test_lock after its swap. */
  predicate Acquiring(pc: Pc)
  {
    pc.SetRequest? || pc.Execute? || pc.Tail?
  }

  /** In a call of clear_lock that has not given the lock back yet. */
  predicate Clearing(pc: Pc)
  {
    pc.Quieting? || pc.ClearRequest?
  }

  /** At moment j the PE has the lock and is out of the call. */
  ghost predicate HoldsAt(states: seq<State>, j: nat, p: nat)
    requires j < |states|
  {
    p < |states[j].pc| && states[j].pc[p] == Held && Holder(states[j]) == HeldBy(p)
  }

  /** Step j gives the lock back: the PE held it, all its puts have arrived, and then nobody holds it. */
  ghost predicate GivesBackAt(states: seq<State>, steps: seq<Step>, j: nat, p: nat)
    requires j < |steps| && |states| == |steps| + 1
  {
    && steps[j].TryClear? && steps[j].p == p
    && Shaped(states[j]) && p < |states[j].pending| && states[j].pending[p] == []
    && Holder(states[j]) == HeldBy(p) && Holder(states[j + 1]) == Free
  }

  lemma StaysAcquiring(s: State, t: Step, p: nat)
    requires Inv(s) && Enabled(s, t) && p < |s.pc| && Acquiring(s.pc[p])
    ensures p < |Do(s, t).pc| && (Acquiring(Do(s, t).pc[p]) || Do(s, t).pc[p] == Held)
  {
    hide Blob, ToShort, Unput, PutsOk, CellOk;
    assert PeOk(s, p) && PeOk(s, t.p);
  }

  /** A call that has the lock to get is still at it, or the PE has held the lock since. */
  lemma {:induction false} AcquiringHolds(states: seq<State>, steps: seq<Step>, i: nat, k: nat, p: nat)
    requires IsRun(states, steps) && Inv(states[0]) && i <= k < |states| && p < |states[i].pc| && Acquiring(states[i].pc[p])
    ensures p < |states[k].pc|
    ensures Acquiring(states[k].pc[p]) || exists j :: i < j <= k && HoldsAt(states, j, p)
  {
    hide Inv, Do, Enabled, Holder, Acquiring;
    if k > i {
      AcquiringHolds(states, steps, i, k - 1, p);
      var s := states[k - 1];
      assert Enabled(s, steps[k - 1]);
      InvReached(states, steps, k - 1);
      InvReached(states, steps, k);
      if Acquiring(s.pc[p]) {
        StaysAcquiring(s, steps[k - 1], p);
        if states[k].pc[p] == Held {
          HolderIs(states[k], p);
          assert HoldsAt(states, k, p);
        }
      }
    }
  }

  /** shmem_set_lock returns only with the lock: a PE that called it and is idle again has held the lock in between. */
  lemma SetReturnsHeld(states: seq<State>, steps: seq<Step>, i: nat, k: nat, p: nat)
    requires IsRun(states, steps) && Initial(states[0]) && i < |steps| && steps[i] == CallSet(p)
    requires i < k < |states| && p < |states[k].pc| && states[k].pc[p] == Idle
    ensures exists j :: i < j < k && HoldsAt(states, j, p)
  {
    InvInitial(states[0]);
    hide Inv, Holder;
    assert Enabled(states[i], steps[i]);
    AcquiringHolds(states, steps, i + 1, k, p);
  }

  /** Neither a delivery nor a step of the PE p. */
  predicate NotOwnStep(t: Step, p: nat)
  {
    t.p != p || t.Deliver?
  }

  lemma StaysTesting(s: State, t: Step, p: nat)
    requires Enabled(s, t) && p < |s.pc| && NotOwnStep(t, p)
    ensures p < |Do(s, t).pc| && Do(s, t).pc[p] == s.pc[p]
  {
    hide Blob, ToShort, Unput;
  }

  lemma {:induction false} PcKept(states: seq<State>, steps: seq<Step>, i: nat, k: nat, p: nat)
    requires IsRun(states, steps) && i <= k < |states| && p < |states[i].pc|
    requires forall j :: i <= j < k ==> NotOwnStep(steps[j], p)
    ensures p < |states[k].pc| && states[k].pc[p] == states[i].pc[p]
  {
    hide Do, Enabled;
    if k > i {
      PcKept(states, steps, i, k - 1, p);
      assert Enabled(states[k - 1], steps[k - 1]);
      StaysTesting(states[k - 1], steps[k - 1], p);
    }
  }

  /**
   shmem_test_lock tries once: the first step of the PE after the call takes the lock if nobody holds it, and the
   PE then owns it; if somebody does, the call has returned 1 and nothing is taken.
   */
  lemma TestReturns(states: seq<State>, steps: seq<Step>, i: nat, k: nat, p: nat)
    requires IsRun(states, steps) && Initial(states[0]) && i < k < |steps| && steps[i] == CallTest(p)
    requires !NotOwnStep(steps[k], p) && forall j :: i < j < k ==> NotOwnStep(steps[j], p)
    ensures Shaped(states[k + 1]) && p < |states[k + 1].pc|
    ensures var s, s' := states[k], states[k + 1];
      if Holder(s) == Free then
        Acquiring(s'.pc[p]) && Holder(s') == HeldBy(p) && s'.result[p] == 0
      else
        s'.pc[p] == Idle && Holder(s') == Holder(s) && s'.result[p] == 1
  {
    InvInitial(states[0]);
    assert Enabled(states[i], steps[i]) && Enabled(states[k], steps[k]);
    PcKept(states, steps, i + 1, k, p);
    InvReached(states, steps, k);
    var s, t := states[k], steps[k];
    TestStep(s, t);
  }

  lemma TestStep(s: State, t: Step)
    requires Inv(s) && Enabled(s, t) && !t.Deliver? && s.pc[t.p] == TestRequest
    ensures var s' := Do(s, t);
      if Holder(s) == Free then
        Acquiring(s'.pc[t.p]) && Holder(s') == HeldBy(t.p) && s'.result[t.p] == 0
      else
        s'.pc[t.p] == Idle && Holder(s') == Holder(s) && s'.result[t.p] == 1
  {
    hide Inv, Holder, Do, Blob, Enabled, Acquiring;
    TestTries(s, t);
    RefinesTestAndSet(s, t);
  }

  /** The step after a call of test_lock is its one try. */
  lemma TestTries(s: State, t: Step)
    requires Enabled(s, t) && !t.Deliver? && s.pc[t.p] == TestRequest
    ensures t.TryTest? && t.p < |Do(s, t).pc|
    ensures var s' := Do(s, t);
      if Blob(s.word) == 0 then
        Acquiring(s'.pc[t.p]) && s'.result[t.p] == 0
      else
        s'.pc[t.p] == Idle && s'.result[t.p] == 1
  {
    hide Blob, ToShort, Unput;
  }

  lemma StaysClearing(s: State, t: Step, p: nat)
    requires Inv(s) && Enabled(s, t) && p < |s.pc| && Clearing(s.pc[p])
    ensures p < |Do(s, t).pc| && (s.pc[p] == ClearRequest ==> s.pending[p] == [])
    ensures !Clearing(Do(s, t).pc[p]) ==> t.TryClear? && t.p == p && s.pc[p] == ClearRequest
  {
    hide Blob, ToShort, Unput, PutsOk, CellOk;
    assert PeOk(s, p) && PeOk(s, t.p);
  }

  lemma {:induction false} ClearingGivesBack(states: seq<State>, steps: seq<Step>, i: nat, k: nat, p: nat)
    requires IsRun(states, steps) && Inv(states[0]) && i <= k < |states| && p < |states[i].pc| && Clearing(states[i].pc[p])
    ensures p < |states[k].pc|
    ensures Clearing(states[k].pc[p]) || exists j :: i <= j < k && GivesBackAt(states, steps, j, p)
  {
    hide Inv, Do, Enabled, Holder, Clearing;
    if k > i {
      ClearingGivesBack(states, steps, i, k - 1, p);
      var s, t := states[k - 1], steps[k - 1];
      assert Enabled(s, t);
      InvReached(states, steps, k - 1);
      if Clearing(s.pc[p]) {
        StaysClearing(s, t, p);
        if !Clearing(states[k].pc[p]) {
          GivenBack(s, t);
          assert GivesBackAt(states, steps, k - 1, p);
        }
      }
    }
  }

  lemma GivenBack(s: State, t: Step)
    requires Inv(s) && Enabled(s, t) && t.TryClear?
    ensures t.p < |s.pc| && Holder(s) == HeldBy(t.p) && Holder(Do(s, t)) == Free && Shaped(s)
  {
    hide Inv, Do, Holder;
    StepInRange(s, t);
    RefinesTestAndSet(s, t);
  }

  /** shmem_clear_lock returns only after it gave the lock back, with all puts of the PE arrived before. */
  lemma ClearReturnsFree(states: seq<State>, steps: seq<Step>, i: nat, k: nat, p: nat)
    requires IsRun(states, steps) && Initial(states[0]) && i < |steps| && steps[i] == CallClear(p)
    requires i < k < |states| && p < |states[k].pc| && states[k].pc[p] == Idle
    ensures exists j :: i < j < k && GivesBackAt(states, steps, j, p)
  {
    InvInitial(states[0]);
    hide Inv, Holder;
    assert Enabled(states[i], steps[i]);
    ClearingGivesBack(states, steps, i + 1, k, p);
  }

  /** get_owner_spread and lock_owner: every address has an owner among the PEs. */
  function LockOwner(addr: nat, nPes: nat, aligned: bool, global: bool): (owner: nat)
    requires nPes > 0
    ensures owner < nPes
  {
    if aligned || global then addr / 8 % nPes else nPes - 1
  }

  /** Where all PEs agree on addresses, ownership goes round the PEs from one long word to the next; else it is the last PE's. */
  lemma OwnersSpread(addr: nat, nPes: nat, aligned: bool, global: bool)
    requires nPes > 0
    ensures var o := LockOwner(addr, nPes, aligned, global);
      if aligned || global then
        LockOwner(addr + 8, nPes, aligned, global) == if o + 1 < nPes then o + 1 else 0
      else
        o == nPes - 1
    ensures addr < 8 && (aligned || global) ==> LockOwner(addr, nPes, aligned, global) == 0
  {
    assert (addr + 8) / 8 == addr / 8 + 1;
    NextRemainder(addr / 8, nPes);
  }

  lemma NextRemainder(w: nat, n: nat)
    requires n > 0
    ensures (w + 1) % n == if w % n + 1 < n then w % n + 1 else 0
    ensures w == 0 ==> w % n == 0
  {
    var q, r := w / n, w % n;
    Probing.Divided(w, n);
    if r + 1 < n {
      Alignment.RemainderIs(w + 1, n, q, r + 1);
    } else {
      Probing.SumOfMultiples(q, 1, n);
      Alignment.RemainderIs(w + 1, n, q + 1, 0);
    }
  }
}
