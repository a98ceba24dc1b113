/**
 The memory of a malloc space and the words of a chunk. Memory is an array of 64-bit
 words indexed by address / 8; addresses and chunk sizes are counted in words. A head
 word is 8 * size plus the in-use bits.
 */
module Words {
  import opened Shift
  import opened TreeIndex

  type Word = w: nat | w < TWO64
  type Addr = nat

  // Words of a chunk at address p
  const HEAD: nat := 1
  const FD: nat := 2
  const BK: nat := 3
  const CHILD0: nat := 4
  const CHILD1: nat := 5
  const PARENT: nat := 6
  const INDEX: nat := 7

  /** chunksize */
  function SizeOf(head: Word): nat
  {
    head / 8
  }

  predicate Pinuse(head: Word)
  {
    head % 2 == 1
  }

  predicate Cinuse(head: Word)
  {
    head / 2 % 2 == 1
  }

  /** size | CINUSE_BIT, with the given PINUSE bit */
  function UsedHead(n: nat, pinuse: bool): (r: Word)
    requires n < WORD_LIMIT
    ensures SizeOf(r) == n && Cinuse(r) && Pinuse(r) == pinuse
  {
    var r := if pinuse then 8 * n + 3 else 8 * n + 2;
    HeadDigits(r);
    r
  }

  /** size | PINUSE_BIT */
  function FreeHead(n: nat): (r: Word)
    requires n < WORD_LIMIT
    ensures SizeOf(r) == n && !Cinuse(r) && Pinuse(r)
  {
    HeadDigits(8 * n + 1);
    8 * n + 1
  }

  /** head | PINUSE_BIT */
  function OrPinuse(w: Word): (r: Word)
    ensures SizeOf(r) == SizeOf(w) && Cinuse(r) == Cinuse(w) && Pinuse(r)
    ensures Pinuse(w) ==> r == w
  {
    HeadDigits(w);
    var r := if w % 2 == 1 then w else w + 1;
    HeadDigits(r);
    r
  }

  /** head & ~PINUSE_BIT */
  function AndNotPinuse(w: Word): (r: Word)
    ensures SizeOf(r) == SizeOf(w) && Cinuse(r) == Cinuse(w) && !Pinuse(r)
    ensures !Pinuse(w) ==> r == w
  {
    HeadDigits(w);
    var r := w - w % 2;
    HeadDigits(r);
    r
  }

  lemma HeadDigits(w: nat)
    ensures w == 8 * (w / 8) + 4 * (w / 4 % 2) + 2 * (w / 2 % 2) + w % 2
  {
    assert w == 2 * (w / 2) + w % 2;
    assert w / 2 == 2 * (w / 4) + w / 2 % 2;
    assert w / 4 == 2 * (w / 8) + w / 4 % 2;
  }

  const MIN_CHUNK: nat := 4          // MIN_CHUNK_SIZE, 32 bytes
  const MIN_LARGE: nat := 32         // MIN_LARGE_SIZE, 256 bytes
  const NSMALLBINS: nat := 32

  const MAX_RELEASE_CHECK_RATE: nat := 255

  // The mstate of the space starts two words above the first chunk, h.
  const MSTATE_WORDS: nat := 117     // pad_request(sizeof(struct malloc_state)), 936 bytes
  const TOP_FOOT: nat := 9           // TOP_FOOT_SIZE, 72 bytes

  /** smallbin_at: the header acts as a chunk whose fd and bk are two words of smallbins. */
  function SmallBin(h: Addr, i: nat): Addr
  {
    h + 11 + 2 * i
  }

  /** treebin_at */
  function TreeBin(h: Addr, i: nat): Addr
  {
    h + 77 + i
  }

  /** The first chunk after the mstate. */
  function First(h: Addr): Addr
  {
    h + MSTATE_WORDS
  }

  /** The words of the bin headers. */
  predicate InHeaders(h: Addr, w: nat)
  {
    h + 11 <= w < First(h)
  }

  ghost predicate SameExcept(m: seq<Word>, m': seq<Word>, ws: set<nat>)
  {
    |m'| == |m| && forall w :: 0 <= w < |m| && w !in ws ==> m'[w] == m[w]
  }

  // ---------------------------------------------------------------------------
  // The end of the segment, in bytes: it need not be aligned, and top takes what is left of it

  /** align_offset of a chunk at address a */
  function AlignOffset(a: nat): (o: nat)
    ensures o < 8 && (a + o) % 8 == 0
  {
    var r := (a + 16) % 8;
    if r == 0 then 0 else 8 - r
  }

  /** The size of a top that begins at word top and ends at byte hi, as it wraps. */
  lemma WrappedSize(hi: nat, top: Addr)
    requires hi < TWO64 && hi + 8 > 8 * top
    ensures var size := (hi + TWO64 - 8 * top) % TWO64;
      && (8 * top + size) % TWO64 == hi
      && (hi >= 8 * top ==> size == hi - 8 * top)
      && (hi < 8 * top ==> size == hi + TWO64 - 8 * top)
  {
  }

  lemma SameEnd(end: nat)
    requires end >= 8 * TOP_FOOT
    ensures (end - 8 * TOP_FOOT) % 4 == end % 4
  {
    assert end == 4 * (end / 4) + end % 4;
    Quarters(end - 8 * TOP_FOOT, end / 4 - 2 * TOP_FOOT, end % 4);
  }

  lemma SameLowBits(top: Addr, topsize: nat)
    ensures (8 * top + topsize) % 4 == topsize % 4
  {
    assert topsize == 4 * (topsize / 4) + topsize % 4;
    assert 8 * top + topsize == 4 * (2 * top + topsize / 4) + topsize % 4;
  }

  /** n | PINUSE_BIT, the head of a top of n bytes: the second bit of n is read as CINUSE. */
  function TopHead(n: nat): (r: Word)
    requires n < TWO64
    ensures Pinuse(r) && (Cinuse(r) <==> n % 4 >= 2) && SizeOf(r) == n / 8 && r <= n + 1
  {
    var r := if n % 2 == 1 then n else n + 1;
    var q, s := n / 8, n % 8;
    Octet(n, q, s);
    Octet(r, q, if s % 2 == 1 then s else s + 1);
    r
  }

  lemma Octet(w: nat, q: nat, s: nat)
    requires w == 8 * q + s && s < 8
    ensures w / 8 == q && w % 2 == s % 2 && w / 2 % 2 == s / 2 % 2 && w % 4 == s % 4
  {
    var a := if s >= 4 then 1 else 0;
    var b := if s - 4 * a >= 2 then 1 else 0;
    var c := s - 4 * a - 2 * b;
    Bits(w, q, a, b, c);
    Bits(s, 0, a, b, c);
  }

  /** A number by its three low bits. */
  lemma Bits(w: nat, q: nat, a: nat, b: nat, c: nat)
    requires w == 8 * q + 4 * a + 2 * b + c && a < 2 && b < 2 && c < 2
    ensures w / 8 == q && w % 2 == c && w / 2 % 2 == b && w % 4 == 2 * b + c
  {
    Halves(w, 4 * q + 2 * a + b, c);
    Halves(4 * q + 2 * a + b, 2 * q + a, b);
    Quarters(w, 2 * q + a, 2 * b + c);
    Eighths(w, q, 4 * a + 2 * b + c);
  }

  lemma Halves(w: nat, k: nat, r: nat)
    requires w == 2 * k + r && r < 2
    ensures w / 2 == k && w % 2 == r
  {
  }

  lemma Quarters(w: nat, k: nat, r: nat)
    requires w == 4 * k + r && r < 4
    ensures w % 4 == r
  {
  }

  lemma Eighths(w: nat, k: nat, r: nat)
    requires w == 8 * k + r && r < 8
    ensures w / 8 == k
  {
  }

  /** 256^s */
  function Pow256(s: nat): (p: nat)
    requires s < 8
    ensures 1 <= p && 256 * p <= TWO64 && (s > 0 ==> p >= 256 && p % 4 == 0)
  {
    if s == 0 then 1
    else if s == 1 then 0x100
    else if s == 2 then 0x1_0000
    else if s == 3 then 0x100_0000
    else if s == 4 then 0x1_0000_0000
    else if s == 5 then 0x100_0000_0000
    else if s == 6 then 0x1_0000_0000_0000
    else 0x100_0000_0000_0000
  }

  /** The word x after the first bytes of a store of v, from byte s of it on. */
  function LowStored(x: Word, s: nat, v: nat): (r: Word)
    requires 0 < s < 8 && v < 256
    ensures r / Pow256(s) == v && Pinuse(r) == Pinuse(x) && Cinuse(r) == Cinuse(x)
  {
    LowStoredIs(x, s, v);
    x % Pow256(s) + v * Pow256(s)
  }

  /** The word x after the last s bytes of such a store, which are zero. */
  function HighStored(x: Word, s: nat): (r: Word)
    requires 0 < s < 8
    ensures !Pinuse(r)
  {
    HighStoredIs(x, s);
    x - x % Pow256(s)
  }

  /** The words after a store of a small number at byte address a, which need not be aligned. */
  function Stored(m: seq<Word>, a: nat, v: nat): seq<Word>
    requires v < 256 && a / 8 + 1 < |m|
  {
    var w, s := a / 8, a % 8;
    if s == 0 then m[w := v] else m[w := LowStored(m[w], s, v)][w + 1 := HighStored(m[w + 1], s)]
  }

  lemma LowStoredIs(x: Word, s: nat, v: nat)
    requires 0 < s < 8 && v < 256
    ensures var r := x % Pow256(s) + v * Pow256(s);
      && 0 <= r < TWO64 && r / Pow256(s) == v && Pinuse(r) == Pinuse(x) && Cinuse(r) == Cinuse(x)
  {
    hide Pow256;
    var p := Pow256(s);
    var y, t := x % p, v * p;
    DivMod(x, p);
    Product(v, 255, p);
    QuotientIs(y + t, v, p);
    FourfoldProduct(x / p, p);
    FourfoldProduct(v, p);
    SameBits(x, y, (x / p) * p);
    SameBits(y + t, y, t);
  }

  lemma HighStoredIs(x: Word, s: nat)
    requires 0 < s < 8
    ensures 0 <= x - x % Pow256(s) < TWO64 && !Pinuse(x - x % Pow256(s))
  {
    hide Pow256;
    var p := Pow256(s);
    DivMod(x, p);
    FourfoldProduct(x / p, p);
    SameBits(x - x % p, 0, (x / p) * p);
  }

  lemma DivMod(x: nat, p: nat)
    requires p > 0
    ensures x == (x / p) * p + x % p && 0 <= x % p < p && x / p >= 0
  {
  }

  lemma Product(v: nat, w: nat, p: nat)
    requires v <= w
    ensures 0 <= v * p <= w * p
  {
  }

  lemma FourfoldProduct(k: nat, p: nat)
    requires p % 4 == 0
    ensures (k * p) % 4 == 0 && k * p >= 0
  {
    var q := p / 4;
    assert p == 4 * q;
    assert k * p == 4 * (k * q);
  }

  /** Multiples of four leave the two low bits alone. */
  lemma SameBits(x: nat, y: nat, t: nat)
    requires x == y + t && t % 4 == 0
    ensures x % 2 == y % 2 && x / 2 % 2 == y / 2 % 2
  {
    var j := t / 4;
    assert x == y + 4 * j;
    assert x / 2 == y / 2 + 2 * j;
  }

  /**
   The fake head behind top starts s bytes into the word x: a whole word is TOP_FOOT_SIZE; of
   another, which top's own head may overlap, the PINUSE bit is clear.
   */
  ghost predicate EndMarked(x: Word, s: nat)
    requires s < 8
  {
    if s == 0 then x == 8 * TOP_FOOT else !Pinuse(x / Pow256(s))
  }

  /** The head of a top of less than 8 bytes leaves the bits behind it clear. */
  lemma ShortHead(s: nat)
    requires 0 < s < 8
    ensures EndMarked(TopHead(s), s)
  {
    DivBelow(TopHead(s), Pow256(s));
  }

  lemma DivBelow(x: nat, d: nat)
    requires x < d
    ensures x / d == 0
  {
  }

  // ---------------------------------------------------------------------------
  // Requests, in bytes

  const MAX_REQUEST: nat := TWO64 - 128
  const MIN_REQUEST: nat := 23
  const MAX_SMALL_REQUEST: nat := 240

  /** request2size, in words: the bytes and one word of overhead, rounded up, at least a minimal chunk */
  function RequestWords(bytes: nat): (n: nat)
    ensures n >= MIN_CHUNK
    ensures 8 * n >= bytes + 8
    ensures n > MIN_CHUNK ==> 8 * n < bytes + 16
    ensures bytes < MAX_REQUEST ==> n < WORD_LIMIT
    ensures bytes <= MAX_SMALL_REQUEST <==> n < NSMALLBINS
  {
    if bytes < MIN_REQUEST then MIN_CHUNK else (bytes + 15) / 8
  }
}
