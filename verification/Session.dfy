/** Runs: a client that keeps its blocks in pointer variables and makes any requests in any order. */
module Sessions {
  import opened Words
  import opened Outcomes
  import opened Tiling
  import opened Heap
  import opened Shift
  import opened Alignment
  import opened BinFacts
  import opened HeapFacts
  import opened Mspaces

  /** What a client may ask for, for its variable v. */
  datatype Request =
    | Malloc(v: nat, bytes: nat)
    | Free(v: nat)
    | Realloc(v: nat, bytes: nat)
    | Memalign(v: nat, alignment: nat, bytes: nat)
    | Write(v: nat, k: nat, w: Word)

  /** The variable is null, or points to a live block whose words are d. */
  ghost predicate Holds(m: seq<Word>, g: Chunks, r: Addr, d: seq<Word>)
  {
    if r == 0 then
      d == []
    else
      && r >= 2 && r - 2 in Live(g) && |d| + 1 == Live(g)[r - 2]
      && r + |d| <= |m| && m[r..r + |d|] == d
  }

  ghost predicate AllHold(m: seq<Word>, g: Chunks, vars: seq<Addr>, data: seq<seq<Word>>)
  {
    && |data| == |vars|
    && (forall v {:trigger Holds(m, g, vars[v], data[v])} :: 0 <= v < |vars| ==> Holds(m, g, vars[v], data[v]))
    && Different(vars)
    && (forall a {:trigger Known(vars, a)} :: a in Live(g) ==> Known(vars, a))
  }

  /** No two variables point to the same block. */
  ghost predicate Different(vars: seq<Addr>)
  {
    forall u, v :: 0 <= u < v < |vars| && vars[u] != 0 ==> vars[u] != vars[v]
  }

  /** Some variable points to the block at a. */
  ghost predicate Known(vars: seq<Addr>, a: Addr)
  {
    exists v :: 0 <= v < |vars| && vars[v] == a + 2
  }

  /** What a run passes through: the client's variables and the words of their blocks, and the space without its memory. */
  datatype Moment = Moment(vars: seq<Addr>, data: seq<seq<Word>>, space: Space)

  /** The live blocks are those of the variables, and as long as their data. */
  ghost predicate Accounted(s: Moment)
  {
    && |s.data| == |s.vars| && Different(s.vars)
    && (forall v {:trigger s.vars[v]} :: 0 <= v < |s.vars| && s.vars[v] != 0 ==>
          s.vars[v] >= 2 && s.vars[v] - 2 in Live(s.space.g) && Live(s.space.g)[s.vars[v] - 2] == |s.data[v]| + 1)
    && (forall v {:trigger s.data[v]} :: 0 <= v < |s.vars| && s.vars[v] == 0 ==> s.data[v] == [])
    && (forall a {:trigger Known(s.vars, a)} :: a in Live(s.space.g) ==> Known(s.vars, a))
  }

  lemma HeldAccounted(m: seq<Word>, s: Moment)
    requires AllHold(m, s.space.g, s.vars, s.data)
    ensures Accounted(s)
  {
    hide Live;
    forall v {:trigger s.vars[v]} {:trigger s.data[v]} | 0 <= v < |s.vars|
      ensures s.vars[v] != 0 ==> s.vars[v] >= 2 && s.vars[v] - 2 in Live(s.space.g) && Live(s.space.g)[s.vars[v] - 2] == |s.data[v]| + 1
      ensures s.vars[v] == 0 ==> s.data[v] == []
    {
      assert Holds(m, s.space.g, s.vars[v], s.data[v]);
    }
  }

  /** Only variable v and its block may have changed. */
  ghost predicate OnlyAt(s: Moment, s': Moment, v: nat)
    requires v < |s.vars| == |s.data|
  {
    && |s'.vars| == |s'.data| == |s.vars|
    && s'.vars == s.vars[v := s'.vars[v]] && s'.data == s.data[v := s'.data[v]]
  }

  /** Variable v was given a block for so many bytes, and nobody else's block was touched. */
  ghost predicate GotBlock(s: Moment, s': Moment, v: nat, bytes: nat)
    requires v < |s.vars| == |s.data|
  {
    && OnlyAt(s, s', v) && s'.vars[v] >= 2 && 8 * |s'.data[v]| >= bytes
    && RequestWords(bytes) <= |s'.data[v]| + 1 <= RequestWords(bytes) + MIN_CHUNK
    && Live(s'.space.g) == (Live(s.space.g) - Taken(s.vars[v]))[s'.vars[v] - 2 := |s'.data[v]| + 1]
  }

  /** A block keeps its words, as far as both the old block and the new request reach. */
  ghost predicate KeptPrefix(d: seq<Word>, d': seq<Word>, bytes: nat)
  {
    forall k: nat :: k < |d| && 8 * k < bytes ==> k < |d'| && d'[k] == d[k]
  }

  /** The alignment the code uses for the one asked for. */
  ghost predicate AlignmentUsed(alignment: nat, a: nat)
  {
    if alignment <= 8 then a == 8 else RoundedAlignment(alignment, a)
  }

  /** The space can give the block that the request is for. */
  ghost predicate Grants(q: Request, s: Moment)
    requires q.v < |s.vars|
  {
    match q
    case Malloc(v, bytes) => bytes < MAX_REQUEST && CanServe(s.space.g, s.space.topsize, RequestWords(bytes))
    case Memalign(v, alignment, bytes) =>
      exists a: nat {:trigger AlignmentUsed(alignment, a)} :: AlignmentUsed(alignment, a) && CanAlign(s.space.g, s.space.topsize, alignment, a, bytes)
    case Realloc(v, bytes) =>
      && bytes < MAX_REQUEST
      && if s.vars[v] == 0 then
           CanServe(s.space.g, s.space.topsize, RequestWords(bytes))
         else
           s.vars[v] >= 2 && s.vars[v] - 2 in s.space.g && CanResize(s.space.g, s.space.top, s.space.topsize, s.vars[v] - 2, RequestWords(bytes))
    case _ => true
  }

  /** The block r of nb words comes from where malloc takes it. */
  ghost predicate ByMalloc(s: Space, nb: nat, r: Addr, s': Space)
  {
    r >= 2 && Chosen(s, nb, r - 2) && s' == AfterMalloc(s, nb, r - 2)
  }

  ghost predicate ByMemalign(s: Space, alignment: nat, nb: nat, r: Addr, s': Space)
  {
    if alignment <= 8 then
      ByMalloc(s, nb, r, s')
    else
      r >= 2 && exists a: nat {:trigger AlignmentUsed(alignment, a)} ::
        AlignmentUsed(alignment, a) && a > 0 && AlignedOut(s, a, nb, RequestWords(8 * nb + a + 24), r - 2, s')
  }

  /** What a request does; a block is given exactly if the space can give it, and where it is not nothing happens at all. */
  ghost predicate Served(q: Request, s: Moment, s': Moment)
    requires q.v < |s.vars| == |s.data|
  {
    match q
    case Malloc(v, bytes) =>
      if s.vars[v] == 0 && Grants(q, s) then
        GotBlock(s, s', v, bytes) && ByMalloc(s.space, RequestWords(bytes), s'.vars[v], s'.space)
      else
        s' == s
    case Memalign(v, alignment, bytes) =>
      if s.vars[v] == 0 && Grants(q, s) then
        && GotBlock(s, s', v, bytes) && (IsPower(alignment) ==> 8 * s'.vars[v] % alignment == 0)
        && ByMemalign(s.space, alignment, RequestWords(bytes), s'.vars[v], s'.space)
      else
        s' == s
    case Realloc(v, bytes) =>
      if Grants(q, s) then
        && GotBlock(s, s', v, bytes) && KeptPrefix(s.data[v], s'.data[v], bytes)
        && (s.vars[v] == 0 ==> ByMalloc(s.space, RequestWords(bytes), s'.vars[v], s'.space))
        && (s.vars[v] != 0 ==> Reallocated(s.space, s.vars[v] - 2, RequestWords(bytes), s'.vars[v] - 2, s'.space))
        && (s.vars[v] != 0 ==>
              (s'.vars[v] == s.vars[v] <==> FitsInPlace(s.space.g, s.space.top, s.space.topsize, s.vars[v] - 2, RequestWords(bytes))))
      else
        s' == s
    case Free(v) =>
      s'.vars == s.vars[v := 0] && s'.data == s.data[v := []] && Live(s'.space.g) == Live(s.space.g) - Taken(s.vars[v])
      && s'.space == if s.vars[v] < 2 then s.space else AfterFree(s.space, s.vars[v] - 2, true)
    case Write(v, k, w) =>
      if s.vars[v] != 0 && k < |s.data[v]| then
        var d: seq<Word> := s.data[v][k := w];
        s' == s.(data := s.data[v := d])
      else
        s' == s
  }

  lemma Got(s: Moment, s': Moment, v: nat, r: Addr, d: seq<Word>, bytes: nat)
    requires v < |s.vars| == |s.data| && s'.vars == s.vars[v := r] && s'.data == s.data[v := d] && r >= 2
    requires RequestWords(bytes) <= |d| + 1 <= RequestWords(bytes) + MIN_CHUNK
    requires Live(s'.space.g) == (Live(s.space.g) - Taken(s.vars[v]))[r - 2 := |d| + 1]
    ensures GotBlock(s, s', v, bytes)
  {
    hide Live, Taken;
  }

  lemma OneAlignment(alignment: nat, a: nat, a': nat)
    requires AlignmentUsed(alignment, a) && AlignmentUsed(alignment, a')
    ensures a == a'
  {
  }

  lemma OthersHold(m: seq<Word>, m': seq<Word>, g: Chunks, g': Chunks, p: Addr, vars: seq<Addr>, data: seq<seq<Word>>, v: nat)
    requires AllHold(m, g, vars, data) && v < |vars| && PayloadsKept(m, m', g, p)
    requires vars[v] == p + 2 || p !in Live(g)
    requires forall a :: a in Live(g) && a + 2 != vars[v] ==> a in Live(g') && Live(g')[a] == Live(g)[a]
    ensures forall u :: 0 <= u < |vars| && u != v ==> Holds(m', g', vars[u], data[u])
  {
    forall u | 0 <= u < |vars| && u != v
      ensures Holds(m', g', vars[u], data[u])
    {
      assert Holds(m, g, vars[u], data[u]);
      if vars[u] != 0 {
        var a := vars[u] - 2;
        assert a in Live(g) && a + 2 != vars[v] && a != p;
        assert SamePayload(m, m', a, g[a].size);
        assert m'[vars[u]..vars[u] + |data[u]|] == data[u] by {
          forall k | 0 <= k < |data[u]|
            ensures m'[vars[u] + k] == data[u][k]
          {
            assert m[vars[u]..vars[u] + |data[u]|][k] == m[vars[u] + k];
          }
        }
      }
    }
  }

  lemma KnownAfter(vars: seq<Addr>, v: nat, r: Addr, a: Addr)
    requires v < |vars| && (a + 2 == r || (Known(vars, a) && a + 2 != vars[v]))
    ensures Known(vars[v := r], a)
  {
    if a + 2 == r {
      assert vars[v := r][v] == a + 2;
    } else {
      var i :| 0 <= i < |vars| && vars[i] == a + 2;
      assert vars[v := r][i] == a + 2;
    }
  }

  lemma DifferentAfter(vars: seq<Addr>, v: nat, r: Addr)
    requires v < |vars| && Different(vars) && forall u :: 0 <= u < |vars| && u != v && r != 0 ==> vars[u] != r
    ensures Different(vars[v := r])
  {
  }

  /** Variable v gave up its block and was given the block r, or null; nothing else changed. */
  lemma Changed(m: seq<Word>, m': seq<Word>, g: Chunks, g': Chunks, p: Addr, vars: seq<Addr>, data: seq<seq<Word>>, v: nat,
        r: Addr, d: seq<Word>)
    requires AllHold(m, g, vars, data) && v < |vars| && PayloadsKept(m, m', g, p)
    requires vars[v] == p + 2 || p !in Live(g)
    requires forall a :: a in Live(g) && a + 2 != vars[v] ==> a in Live(g') && Live(g')[a] == Live(g)[a]
    requires forall a :: a in Live(g') ==> a + 2 == r || (a in Live(g) && a + 2 != vars[v])
    requires r == vars[v] || r < 2 || r - 2 !in Live(g)
    requires Holds(m', g', r, d)
    ensures AllHold(m', g', vars[v := r], data[v := d])
  {
    OthersHold(m, m', g, g', p, vars, data, v);
    hide PayloadsKept, Live, Holds;
    forall u | 0 <= u < |vars| && u != v && r != 0
      ensures vars[u] != r
    {
      assert Holds(m, g, vars[u], data[u]);
      assert vars[v] != 0 ==> vars[u] != vars[v];
    }
    DifferentAfter(vars, v, r);
    forall a | a in Live(g')
      ensures Known(vars[v := r], a)
    {
      assert a in Live(g) ==> Known(vars, a);
      KnownAfter(vars, v, r, a);
    }
    forall u {:trigger Holds(m', g', vars[v := r][u], data[v := d][u])} | 0 <= u < |vars|
      ensures Holds(m', g', vars[v := r][u], data[v := d][u])
    {
      assert u != v ==> Holds(m', g', vars[u], data[u]);
    }
  }

  predicate WellFormed(q: Request)
  {
    match q
    case Malloc(_, bytes) => bytes < TWO64
    case Realloc(_, bytes) => bytes < TWO64
    case Memalign(_, alignment, bytes) => alignment <= TWO63 && bytes < TWO64
    case _ => true
  }

  /** Each moment follows from the one before by the request between them, and in each the live blocks are the client's. */
  ghost predicate IsTrace(qs: seq<Request>, trace: seq<Moment>)
    requires |trace| == |qs| + 1
  {
    && (forall i {:trigger trace[i]} :: 0 <= i < |trace| ==> Accounted(trace[i]))
    && (forall i {:trigger qs[i]} :: 0 <= i < |qs| ==>
          qs[i].v < |trace[i].vars| == |trace[i].data| && Served(qs[i], trace[i], trace[i + 1]))
  }

  lemma LongerTrace(qs: seq<Request>, trace: seq<Moment>, i: nat, s: Moment)
    requires i < |qs| && |trace| == i + 1 && IsTrace(qs[..i], trace)
    requires qs[i].v < |trace[i].vars| == |trace[i].data| && Served(qs[i], trace[i], s) && Accounted(s)
    ensures IsTrace(qs[..i + 1], trace + [s])
  {
    hide Served, Accounted;
    var qs', trace' := qs[..i + 1], trace + [s];
    forall j | 0 <= j < |qs'|
      ensures qs'[j].v < |trace'[j].vars| == |trace'[j].data| && Served(qs'[j], trace'[j], trace'[j + 1])
    {
      if j < i {
        assert qs[..i][j] == qs'[j];
      }
    }
  }

  /** A block aligned to the alignment used is aligned as the client asked. */
  lemma AlignedAsAsked(x: nat, alignment: nat, a: nat)
    requires AlignmentUsed(alignment, a) && x % a == 0
    ensures IsPower(alignment) ==> x % alignment == 0
  {
    if IsPower(alignment) {
      var k: nat :| alignment == Pow2(k);
      if alignment >= 32 {
        assert a == alignment;
      } else {
        SmallPower(k);
        assert alignment == 16 ==> a == 32 by {
          assert Pow2(5) == 32 by { PowersOfTwo(); }
        }
        DividesMore(x, alignment);
      }
    }
  }

  lemma SmallPower(k: nat)
    requires Pow2(k) < 32
    ensures Pow2(k) in {1, 2, 4, 8, 16}
  {
    PowersOfTwo();
    Pow2Order(k, 5);
    assert k == 0 || k == 1 || k == 2 || k == 3 || k == 4;
  }

  lemma DividesMore(x: nat, a: nat)
    requires a in {1, 2, 4, 8, 16} && (if a == 16 then x % 32 == 0 else x % 8 == 0)
    ensures x % a == 0
  {
    if a == 16 {
      assert x == 32 * (x / 32);
      RemainderIs(x, 16, 2 * (x / 32), 0);
    } else {
      var q := x / 8;
      assert x == 8 * q;
      assert a == 4 ==> x == 4 * (2 * q);
      assert a == 2 ==> x == 2 * (4 * q);
    }
  }

  lemma Prefix(m: seq<Word>, m': seq<Word>, r: Addr, r': Addr, d: seq<Word>, d': seq<Word>, bytes: nat)
    requires ContentsKept(m, m', r, r', |d| + 1, bytes) && r + |d| <= |m| && d == m[r..r + |d|]
    requires r' + |d'| <= |m'| && d' == m'[r'..r' + |d'|] && 8 * |d'| >= bytes
    ensures KeptPrefix(d, d', bytes)
  {
    forall k: nat | k < |d| && 8 * k < bytes
      ensures k < |d'| && d'[k] == d[k]
    {
      assert WordKept(m, m', r, r', k);
    }
  }

  lemma TookChanged(m: seq<Word>, m': seq<Word>, g: Chunks, g': Chunks, nb: nat, vars: seq<Addr>, data: seq<seq<Word>>, v: nat,
        r: Addr, d: seq<Word>)
    requires AllHold(m, g, vars, data) && v < |vars| && vars[v] == 0 && r > 2
    requires Took(g, g', r - 2, nb) && PayloadsKept(m, m', g, r - 2) && Holds(m', g', r, d)
    ensures AllHold(m', g', vars[v := r], data[v := d]) && nb <= |d| + 1 < nb + MIN_CHUNK
    ensures Live(g') == (Live(g) - Taken(vars[v]))[r - 2 := |d| + 1]
  {
    assert Live(g) - {} == Live(g);
    hide PayloadsKept;
    Changed(m, m', g, g', r - 2, vars, data, v, r, d);
  }

  lemma ResizedChanged(m: seq<Word>, m': seq<Word>, g: Chunks, g': Chunks, bytes: nat, vars: seq<Addr>, data: seq<seq<Word>>, v: nat,
        r: Addr, d: seq<Word>)
    requires AllHold(m, g, vars, data) && v < |vars| && vars[v] >= 2 && r >= 2
    requires Resized(g, g', vars[v] - 2, r - 2, bytes) && PayloadsKept(m, m', g, vars[v] - 2) && Holds(m', g', r, d)
    ensures AllHold(m', g', vars[v := r], data[v := d]) && RequestWords(bytes) <= |d| + 1 < RequestWords(bytes) + MIN_CHUNK
    ensures Live(g') == (Live(g) - Taken(vars[v]))[r - 2 := |d| + 1]
  {
    hide PayloadsKept;
    Changed(m, m', g, g', vars[v] - 2, vars, data, v, r, d);
  }

  lemma HoldingChanged(m: seq<Word>, m': seq<Word>, g: Chunks, g': Chunks, vars: seq<Addr>, data: seq<seq<Word>>, v: nat, r: Addr, d: seq<Word>)
    requires AllHold(m, g, vars, data) && v < |vars| && vars[v] == 0 && r > 2 && 0 !in Live(g)
    requires Holding(m, m', g, g', r - 2, |d| + 1, {}) && Holds(m', g', r, d)
    ensures AllHold(m', g', vars[v := r], data[v := d])
    ensures Live(g') == (Live(g) - Taken(vars[v]))[r - 2 := |d| + 1]
  {
    hide PayloadsKept;
    assert Live(g') - {} == Live(g') && Live(g) - {} == Live(g);
    Changed(m, m', g, g', 0, vars, data, v, r, d);
  }

  lemma UsedIs(alignment: nat, a: nat)
    requires if alignment <= 8 then a == 8 else RoundedAlignment(alignment, a)
    ensures AlignmentUsed(alignment, a) && a > 0
  {
  }

  /** The alignment used is the only one to ask about. */
  lemma GrantsAligned(s: Moment, v: nat, alignment: nat, a: nat, bytes: nat)
    requires v < |s.vars| && AlignmentUsed(alignment, a)
    ensures Grants(Request.Memalign(v, alignment, bytes), s) <==> CanAlign(s.space.g, s.space.topsize, alignment, a, bytes)
  {
    hide CanAlign, AlignmentUsed;
    forall a': nat | AlignmentUsed(alignment, a')
      ensures a' == a
    {
      OneAlignment(alignment, a, a');
    }
  }

  lemma FromMemalign(s: Space, alignment: nat, a: nat, nb: nat, r: Addr, s': Space)
    requires AlignmentUsed(alignment, a) && a > 0 && r > 2
    requires alignment <= 8 ==> Chosen(s, nb, r - 2) && s' == AfterMalloc(s, nb, r - 2)
    requires alignment > 8 ==> AlignedOut(s, a, nb, RequestWords(8 * nb + a + 24), r - 2, s')
    ensures ByMemalign(s, alignment, nb, r, s')
  {
    hide AlignmentUsed, Chosen, AfterMalloc, AlignedOut, RequestWords;
  }

  lemma EmptyPrefix(d: seq<Word>, bytes: nat)
    ensures KeptPrefix([], d, bytes)
  {
  }

  lemma NewHolds(m: seq<Word>, g: Chunks, r: Addr)
    requires r > 2 && r - 2 in Live(g) && Live(g)[r - 2] >= 1 && r + Live(g)[r - 2] <= |m| + 1
    ensures Holds(m, g, r, m[r..r + Live(g)[r - 2] - 1])
  {
  }

  lemma LiveNow(g: Chunks, g': Chunks, p: Addr, nb: nat)
    requires Took(g, g', p, nb)
    ensures p in Live(g')
  {
  }

  lemma LiveThen(g: Chunks, g': Chunks, p: Addr, p': Addr, bytes: nat)
    requires Resized(g, g', p, p', bytes)
    ensures p' in Live(g')
  {
  }

  class Session {
    const ms: Mspace
    var vars: seq<Addr>
    ghost var data: seq<seq<Word>>

    constructor (space: Mspace, n: nat)
      requires space.Valid() && space.TopReadsFree() && Live(space.g) == map[]
      ensures ms == space && Ok() && |vars| == n
    {
      ms := space;
      vars := seq(n, _ => 0);
      data := seq(n, _ => []);
    }

    /** The space is valid and every variable holds what the client put there. */
    ghost predicate Ok()
      reads this, ms, ms.mem
    {
      ms.Valid() && ms.TopReadsFree() && AllHold(ms.mem[..], ms.g, vars, data)
    }

    ghost function Now(): Moment
      reads this, ms
    {
      Moment(vars, data, ms.Layout())
    }

    method DoMalloc(v: nat, bytes: nat)
      requires Ok() && v < |vars| && bytes < TWO64
      modifies this, ms, ms.mem
      ensures Ok() && |vars| == |old(vars)|
      ensures Served(Request.Malloc(v, bytes), old(Now()), Now())
    {
      hide Chosen, AfterMalloc;
      hide PayloadsKept, Tightest, TightestBinned, CanServe, RequestWords, Took, GotBlock, Mspace.Valid, Holds, Taken;
      if vars[v] == 0 {
        ghost var s := Now();
        ghost var m, g := ms.mem[..], ms.g;
        assert |data| == |vars|;
        hide AllHold;
        var r := ms.Malloc(bytes);
        if r != 0 {
          LiveNow(g, ms.g, r - 2, RequestWords(bytes));
          ms.BlockWithin(r - 2);
          ghost var d := ms.mem[r..r + Live(ms.g)[r - 2] - 1];
          assert Holds(ms.mem[..], ms.g, r, d) by {
            NewHolds(ms.mem[..], ms.g, r);
          }
          hide Live;
          TookChanged(m, ms.mem[..], g, ms.g, RequestWords(bytes), vars, data, v, r, d);
          data := data[v := d];
          vars := vars[v := r];
          Got(s, Now(), v, r, d, bytes);
        }
      }
    }

    method DoMemalign(v: nat, alignment: nat, bytes: nat)
      requires Ok() && v < |vars| && bytes < TWO64 && alignment <= TWO63
      modifies this, ms, ms.mem
      ensures Ok() && |vars| == |old(vars)|
      ensures Served(Request.Memalign(v, alignment, bytes), old(Now()), Now())
    {
      hide Chosen, AfterMalloc, AlignedOut, RoundedAlignment;
      hide PayloadsKept, RequestWords, Mspace.Valid, CanAlign, AlignmentUsed, IsPower, ByMemalign, GotBlock, Grants, Holding, Taken;
      if vars[v] == 0 {
        ghost var s := Now();
        ghost var m, g := ms.mem[..], ms.g;
        assert |data| == |vars|;
        hide AllHold;
        ms.NullNotLive();
        var r;
        ghost var a;
        r, a := ms.Memalign(alignment, bytes);
        UsedIs(alignment, a);
        GrantsAligned(s, v, alignment, a, bytes);
        if r != 0 {
          AlignedAsAsked(8 * r, alignment, a);
          FromMemalign(s.space, alignment, a, RequestWords(bytes), r, ms.Layout());
          ms.BlockWithin(r - 2);
          ghost var d := ms.mem[r..r + Live(ms.g)[r - 2] - 1];
          NewHolds(ms.mem[..], ms.g, r);
          hide Holds, Live;
          HoldingChanged(m, ms.mem[..], g, ms.g, vars, data, v, r, d);
          data := data[v := d];
          vars := vars[v := r];
          Got(s, Now(), v, r, d, bytes);
        }
      }
    }

    method DoFree(v: nat)
      requires Ok() && v < |vars|
      modifies this, ms, ms.mem
      ensures Ok() && |vars| == |old(vars)| && vars[v] == 0 && (forall u :: 0 <= u < |vars| && u != v ==> vars[u] == old(vars[u]))
      ensures Served(Request.Free(v), old(Now()), Now())
    {
      hide AfterFree;
      hide PayloadsKept, Mspace.Valid;
      ghost var m, g := ms.mem[..], ms.g;
      assert Holds(m, g, vars[v], data[v]);
      ms.Free(vars[v]);
      if vars[v] != 0 {
        Changed(m, ms.mem[..], g, ms.g, vars[v] - 2, vars, data, v, 0, []);
      } else {
        assert vars[v := 0] == vars && data[v := []] == data;
      }
      vars := vars[v := 0];
      data := data[v := []];
    }

    method DoRealloc(v: nat, bytes: nat)
      requires Ok() && v < |vars| && bytes < TWO64
      modifies this, ms, ms.mem
      ensures Ok() && |vars| == |old(vars)|
      ensures Served(Request.Realloc(v, bytes), old(Now()), Now())
    {
      if vars[v] == 0 {
        ReallocNull(v, bytes);
      } else {
        ReallocBlock(v, bytes);
      }
    }

    method ReallocNull(v: nat, bytes: nat)
      requires Ok() && v < |vars| && bytes < TWO64 && vars[v] == 0
      modifies this, ms, ms.mem
      ensures Ok() && |vars| == |old(vars)|
      ensures Served(Request.Realloc(v, bytes), old(Now()), Now())
    {
      hide Chosen, AfterMalloc;
      hide PayloadsKept, RequestWords, Took, KeptPrefix, Mspace.Valid, Mspace.Heaped, CanServe, CanResize, GotBlock, Taken;
      ghost var s := Now();
      ghost var m, g := ms.mem[..], ms.g;
      assert Holds(m, g, vars[v], data[v]);
      assert |data| == |vars|;
      hide AllHold;
      var r := ms.Realloc(vars[v], bytes);
      if r != 0 {
        LiveNow(g, ms.g, r - 2, RequestWords(bytes));
        ms.BlockWithin(r - 2);
        ghost var d := ms.mem[r..r + Live(ms.g)[r - 2] - 1];
        NewHolds(ms.mem[..], ms.g, r);
        hide Holds, Live;
        TookChanged(m, ms.mem[..], g, ms.g, RequestWords(bytes), vars, data, v, r, d);
        EmptyPrefix(d, bytes);
        data := data[v := d];
        vars := vars[v := r];
        Got(s, Now(), v, r, d, bytes);
      }
    }

    method ReallocBlock(v: nat, bytes: nat)
      requires Ok() && v < |vars| && bytes < TWO64 && vars[v] != 0
      modifies this, ms, ms.mem
      ensures Ok() && |vars| == |old(vars)|
      ensures Served(Request.Realloc(v, bytes), old(Now()), Now())
    {
      hide Reallocated;
      hide PayloadsKept, RequestWords, Resized, ContentsKept, KeptPrefix, Mspace.Valid, Mspace.Heaped, CanServe, CanResize, FitsInPlace, GotBlock, Taken;
      ghost var s := Now();
      ghost var m, g := ms.mem[..], ms.g;
      assert Holds(m, g, vars[v], data[v]);
      assert |data| == |vars| && vars[v] - 2 in g;
      hide AllHold;
      var r := ms.Realloc(vars[v], bytes);
      if r != 0 {
        LiveThen(g, ms.g, vars[v] - 2, r - 2, bytes);
        ms.BlockWithin(r - 2);
        ghost var d := ms.mem[r..r + Live(ms.g)[r - 2] - 1];
        assert Holds(ms.mem[..], ms.g, r, d);
        hide Holds, Live;
        ResizedChanged(m, ms.mem[..], g, ms.g, bytes, vars, data, v, r, d);
        Prefix(m, ms.mem[..], vars[v], r, data[v], d, bytes);
        data := data[v := d];
        vars := vars[v := r];
        Got(s, Now(), v, r, d, bytes);
      }
    }

    method DoWrite(v: nat, k: nat, w: Word)
      requires Ok() && v < |vars|
      modifies ms.mem, `data
      ensures Ok() && |vars| == |old(vars)|
      ensures Served(Request.Write(v, k, w), old(Now()), Now())
    {
      hide PayloadsKept, Mspace.Valid;
      ghost var m, g := ms.mem[..], ms.g;
      assert Holds(m, g, vars[v], data[v]);
      var n := 0;
      if vars[v] != 0 {
        n := ms.UsableSize(vars[v]);
      }
      if 8 * k < n {
        ms.Write(vars[v], k, w);
        ghost var d: seq<Word> := data[v][k := w];
        Changed(m, ms.mem[..], g, g, vars[v] - 2, vars, data, v, vars[v], d);
        assert vars[v := vars[v]] == vars;
        data := data[v := d];
      }
    }

    /** Any one request of the client. */
    method Serve(q: Request)
      requires Ok() && q.v < |vars| && WellFormed(q)
      modifies this, ms, ms.mem
      ensures Ok() && |vars| == |old(vars)|
      ensures Served(q, old(Now()), Now())
    {
      match q
      case Malloc(v, bytes) => DoMalloc(v, bytes);
      case Free(v) => DoFree(v);
      case Realloc(v, bytes) => DoRealloc(v, bytes);
      case Memalign(v, alignment, bytes) => DoMemalign(v, alignment, bytes);
      case Write(v, k, w) => DoWrite(v, k, w);
    }

    /**
     Every run: the requests are served as they would be by blocks of memory that have
     nothing to do with each other, and after freeing every variable the space is empty again.
     */
    method Run(qs: seq<Request>) returns (ghost trace: seq<Moment>)
      requires Ok() && forall i :: 0 <= i < |qs| ==> qs[i].v < |vars| && WellFormed(qs[i])
      modifies this, ms, ms.mem
      ensures Ok() && |vars| == |old(vars)|
      ensures |trace| == |qs| + 1 && trace[0] == old(Now()) && trace[|qs|] == Now()
      ensures IsTrace(qs, trace)
    {
      hide Served, Mspace.Valid;
      HeldAccounted(ms.mem[..], Now());
      trace := [Now()];
      for i := 0 to |qs|
        invariant Ok() && |vars| == |old(vars)|
        invariant |trace| == i + 1 && trace[0] == old(Now()) && trace[i] == Now()
        invariant IsTrace(qs[..i], trace)
      {
        ghost var t := trace;
        Serve(qs[i]);
        HeldAccounted(ms.mem[..], Now());
        trace := trace + [Now()];
        LongerTrace(qs, t, i, Now());
      }
      assert qs[..|qs|] == qs;
    }

    method FreeAll()
      requires Ok()
      modifies this, ms, ms.mem
      ensures Ok() && Live(ms.g) == map[] && ms.g == map[]
      ensures ms.top == First(ms.h) && ms.topsize == ms.hi - 8 * First(ms.h) && ms.dv == 0 && ms.smallmap == 0 && ms.treemap == 0
    {
      for i := 0 to |vars|
        invariant Ok() && |vars| == |old(vars)| && forall j :: 0 <= j < i ==> vars[j] == 0
      {
        DoFree(i);
      }
      forall a
        ensures a !in Live(ms.g)
      {
        assert a in Live(ms.g) ==> Known(vars, a);
      }
      assert Live(ms.g) == map[];
      ms.AllFreed();
    }
  }
}
