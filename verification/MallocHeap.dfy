/**
 The chunks of one dlmalloc segment (src/lib/libc/malloc.c): boundary tags in
 the chunk heads and feet, and what splitting and coalescing do to them.

 head[a] is the head word of the chunk at address a, foot[a] the prev_foot word
 there.  chunks is the set of addresses at which a chunk starts; the words at
 other addresses are left-overs of earlier chunks.
 */
module MallocHeap {

  const MIN_CHUNK_SIZE: nat := 16

  datatype Head = Head(size: nat, pinuse: bool, cinuse: bool)

  datatype Heap = Heap(
    base: nat,
    head: map<nat, Head>,
    foot: map<nat, nat>,
    chunks: set<nat>,
    top: nat,
    topsize: nat)

  predicate IsBoundary(h: Heap, a: nat) {
    a in h.chunks || a == h.top
  }

  function Size(h: Heap, a: nat): nat {
    if a in h.head then h.head[a].size else 0
  }

  predicate Inuse(h: Heap, a: nat) {
    a in h.head && h.head[a].cinuse
  }

  /**
   The chunk at a: its size is aligned and leads to the next boundary, whose
   pinuse bit tells the truth about it; if it is free, its size is in its foot
   and an inuse chunk follows, so that neither two free chunks nor a free chunk
   and the top chunk are neighbours.
   */
  ghost predicate ChunkOk(h: Heap, a: nat) {
    var n := a + Size(h, a);
    && a in h.head && h.base <= a && n <= h.top && a % 8 == 0
    && Size(h, a) >= MIN_CHUNK_SIZE && Size(h, a) % 8 == 0
    && IsBoundary(h, n) && n in h.head && h.head[n].pinuse == Inuse(h, a)
    && (!Inuse(h, a) ==> n in h.foot && h.foot[n] == Size(h, a) && n in h.chunks && Inuse(h, n))
  }

  ghost predicate EndsOk(h: Heap) {
    && h.base <= h.top && h.top !in h.chunks && h.top % 8 == 0
    && h.top in h.head && h.head[h.top] == Head(h.topsize, true, false)
    && h.base in h.head && h.head[h.base].pinuse
  }

  /** Boundary b does not lie inside chunk a. */
  predicate Outside(h: Heap, a: nat, b: nat) {
    a < b ==> a + Size(h, a) <= b
  }

  predicate CoveredBy(h: Heap, a: nat, x: nat) {
    a in h.chunks && a <= x < a + Size(h, a)
  }

  ghost predicate IsCovered(h: Heap, x: nat) {
    exists a: nat :: CoveredBy(h, a, x)
  }

  ghost predicate ChunksOk(h: Heap) {
    forall a: nat {:trigger ChunkOk(h, a)} :: a in h.chunks ==> ChunkOk(h, a)
  }

  /** Chunks do not overlap. */
  ghost predicate Apart(h: Heap) {
    forall a: nat, b: nat {:trigger Outside(h, a, b)} :: a in h.chunks && IsBoundary(h, b) ==> Outside(h, a, b)
  }

  /** Chunks leave no gap between base and top. */
  ghost predicate Covered(h: Heap) {
    forall x: nat {:trigger IsCovered(h, x)} :: h.base <= x < h.top ==> IsCovered(h, x)
  }

  ghost predicate HeapOk(h: Heap) {
    EndsOk(h) && ChunksOk(h) && Apart(h) && Covered(h)
  }

  predicate FreeChunk(h: Heap, a: nat, s: nat) {
    a in h.chunks && !Inuse(h, a) && Size(h, a) == s
  }

  predicate LiveChunk(h: Heap, a: nat, s: nat) {
    a in h.chunks && Inuse(h, a) && Size(h, a) == s
  }

  // ----- Neighbours ------------------------------------------------------

  /** Every boundary but the first has a chunk that ends there. */
  lemma Predecessor(h: Heap, b: nat) returns (a: nat)
    requires HeapOk(h) && IsBoundary(h, b) && b != h.base
    ensures a in h.chunks && a + Size(h, a) == b
  {
    if b in h.chunks { assert ChunkOk(h, b); }
    assert IsCovered(h, b - 1);
    a :| CoveredBy(h, a, b - 1);
    assert Outside(h, a, b);
  }

  /** No two free chunks are neighbours. */
  lemma FreeHasPinuse(h: Heap, a: nat)
    requires HeapOk(h) && a in h.chunks && !Inuse(h, a)
    ensures a in h.head && h.head[a].pinuse
  {
    assert ChunkOk(h, a);
    if a != h.base {
      var b := Predecessor(h, a);
      assert ChunkOk(h, b);
    }
  }

  /** prev_chunk: a clear pinuse bit means the foot leads to a free chunk that ends here. */
  lemma PrevIsFree(h: Heap, p: nat)
    requires HeapOk(h) && p in h.chunks && p in h.head && !h.head[p].pinuse
    ensures p in h.foot && h.foot[p] <= p
    ensures FreeChunk(h, p - h.foot[p], h.foot[p])
  {
    var a := Predecessor(h, p);
    assert ChunkOk(h, a);
  }

  /** The user areas of live chunks, size - 4 bytes from mem on, are disjoint and inside the segment. */
  lemma LiveDisjoint(h: Heap, a: nat, s: nat, b: nat, t: nat)
    requires HeapOk(h) && LiveChunk(h, a, s) && LiveChunk(h, b, t) && a < b
    ensures (a + 8) + (s - 4) <= b + 8
    ensures h.base <= a && b + t <= h.top
  {
    assert ChunkOk(h, a) && ChunkOk(h, b) && Outside(h, a, b);
  }

  // ----- Allocation ------------------------------------------------------

  /** set_inuse_and_pinuse: hand out the whole free chunk p. */
  function UseWhole(h: Heap, p: nat): Heap
    requires p in h.head && p + h.head[p].size in h.head
  {
    var n := p + h.head[p].size;
    h.(head := h.head[p := Head(h.head[p].size, true, true)][n := h.head[n].(pinuse := true)])
  }

  /** Hand out the first nb bytes of the free chunk p; the rest stays free. */
  function UseFront(h: Heap, p: nat, nb: nat): Heap
    requires p in h.head && nb <= h.head[p].size
  {
    var r, rsize := p + nb, h.head[p].size - nb;
    h.(head := h.head[p := Head(nb, true, true)][r := Head(rsize, true, false)],
       foot := h.foot[r + rsize := rsize],
       chunks := h.chunks + {r})
  }

  /** Hand out the first nb bytes of the top chunk. */
  function UseTop(h: Heap, nb: nat): Heap
    requires nb <= h.topsize
  {
    var r := h.top + nb;
    h.(head := h.head[h.top := Head(nb, true, true)][r := Head(h.topsize - nb, true, false)],
       chunks := h.chunks + {h.top}, top := r, topsize := h.topsize - nb)
  }

  /** Chunk p is now in use, and nothing else about the chunks changed. */
  ghost predicate Allocated(h: Heap, h': Heap, p: nat, s: nat) {
    && (forall a: nat, z: nat :: LiveChunk(h', a, z) <==> LiveChunk(h, a, z) || (a == p && z == s))
    && !LiveChunk(h, p, s)
  }

  /** Same chunks, same sizes: still apart and without gaps. */
  lemma SameShape(h: Heap, h': Heap)
    requires Apart(h) && Covered(h)
    requires h'.chunks == h.chunks && h'.base == h.base && h'.top == h.top
    requires forall a: nat :: a in h.chunks ==> Size(h', a) == Size(h, a)
    ensures Apart(h') && Covered(h')
  {
    forall a: nat, b: nat {:trigger Outside(h', a, b)} | a in h'.chunks && IsBoundary(h', b) ensures Outside(h', a, b) {
      assert Outside(h, a, b);
    }
    forall x: nat {:trigger IsCovered(h', x)} | h'.base <= x < h'.top ensures IsCovered(h', x) {
      assert IsCovered(h, x);
      var a: nat :| CoveredBy(h, a, x);
      assert CoveredBy(h', a, x);
    }
  }

  lemma UseWholeChunk(h: Heap, p: nat, a: nat)
    requires HeapOk(h) && p in h.chunks && !Inuse(h, p) && ChunkOk(h, p) && a in h.chunks
    ensures ChunkOk(UseWhole(h, p), a)
  {
    assert ChunkOk(h, a);
    assert Outside(h, a, p) && Outside(h, p, a);
    if a != p { assert Outside(h, a, p + Size(h, p)); }
    FreeHasPinuse(h, p);
  }

  lemma UseWholeStatus(h: Heap, p: nat)
    requires p in h.chunks && !Inuse(h, p) && ChunkOk(h, p)
    ensures Allocated(h, UseWhole(h, p), p, Size(h, p))
    ensures forall a: nat, s: nat :: FreeChunk(UseWhole(h, p), a, s) <==> FreeChunk(h, a, s) && a != p
  {
    var h' := UseWhole(h, p);
    assert forall a: nat :: a in h.chunks ==> Size(h', a) == Size(h, a) && (Inuse(h', a) <==> Inuse(h, a) || a == p);
  }

  lemma UseWholeOk(h: Heap, p: nat)
    requires HeapOk(h) && p in h.chunks && !Inuse(h, p)
    ensures ChunkOk(h, p) && HeapOk(UseWhole(h, p))
  {
    assert ChunkOk(h, p);
    FreeHasPinuse(h, p);
    var h' := UseWhole(h, p);
    forall a: nat {:trigger ChunkOk(h', a)} | a in h'.chunks ensures ChunkOk(h', a) { UseWholeChunk(h, p, a); }
    SameShape(h, h');
  }

  // ----- Splitting -------------------------------------------------------

  predicate CanSplit(h: Heap, p: nat, nb: nat) {
    && p in h.chunks && !Inuse(h, p)
    && nb >= MIN_CHUNK_SIZE && nb % 8 == 0 && nb + MIN_CHUNK_SIZE <= Size(h, p)
  }

  /** An address strictly inside a chunk is no boundary. */
  lemma InsideIsFresh(h: Heap, p: nat, x: nat)
    requires HeapOk(h) && p in h.chunks && p < x < p + Size(h, p)
    ensures !IsBoundary(h, x)
  {
    assert IsBoundary(h, x) ==> Outside(h, p, x);
  }

  /** Two chunks that end at the same place are the same chunk. */
  lemma SameEnd(h: Heap, a: nat, b: nat)
    requires HeapOk(h) && a in h.chunks && b in h.chunks && a + Size(h, a) == b + Size(h, b)
    ensures a == b
  {
    assert ChunkOk(h, a) && ChunkOk(h, b) && Outside(h, a, b) && Outside(h, b, a);
  }

  lemma UseFrontChunk(h: Heap, p: nat, nb: nat, a: nat)
    requires HeapOk(h) && CanSplit(h, p, nb) && ChunkOk(h, p) && (a in h.chunks || a == p + nb)
    ensures ChunkOk(UseFront(h, p, nb), a)
  {
    FreeHasPinuse(h, p);
    InsideIsFresh(h, p, p + nb);
    if a in h.chunks && a != p {
      assert ChunkOk(h, a) && Outside(h, a, p) && Outside(h, p, a);
      if a + Size(h, a) == p + Size(h, p) { SameEnd(h, a, p); }
    }
  }

  lemma UseFrontApart(h: Heap, p: nat, nb: nat, a: nat, b: nat)
    requires HeapOk(h) && CanSplit(h, p, nb) && ChunkOk(h, p)
    requires a in UseFront(h, p, nb).chunks && IsBoundary(UseFront(h, p, nb), b)
    ensures Outside(UseFront(h, p, nb), a, b)
  {
    InsideIsFresh(h, p, p + nb);
    if IsBoundary(h, b) { assert Outside(h, p, b); }
    if a in h.chunks {
      assert Outside(h, a, p) && Outside(h, p, a);
      if IsBoundary(h, b) { assert Outside(h, a, b); }
    }
  }

  lemma UseFrontCover(h: Heap, p: nat, nb: nat, x: nat)
    requires HeapOk(h) && CanSplit(h, p, nb) && ChunkOk(h, p) && h.base <= x < h.top
    ensures IsCovered(UseFront(h, p, nb), x)
  {
    InsideIsFresh(h, p, p + nb);
    assert IsCovered(h, x);
    var a: nat :| CoveredBy(h, a, x);
    var h' := UseFront(h, p, nb);
    assert CoveredBy(h', if a == p && x >= p + nb then p + nb else a, x);
  }

  lemma UseFrontOk(h: Heap, p: nat, nb: nat)
    requires HeapOk(h) && CanSplit(h, p, nb)
    ensures ChunkOk(h, p) && HeapOk(UseFront(h, p, nb))
  {
    assert ChunkOk(h, p);
    FreeHasPinuse(h, p);
    InsideIsFresh(h, p, p + nb);
    var h' := UseFront(h, p, nb);
    forall a: nat {:trigger ChunkOk(h', a)} | a in h'.chunks ensures ChunkOk(h', a) { UseFrontChunk(h, p, nb, a); }
    forall a: nat, b: nat {:trigger Outside(h', a, b)} | a in h'.chunks && IsBoundary(h', b) ensures Outside(h', a, b) {
      UseFrontApart(h, p, nb, a, b);
    }
    forall x: nat {:trigger IsCovered(h', x)} | h'.base <= x < h'.top ensures IsCovered(h', x) {
      UseFrontCover(h, p, nb, x);
    }
  }

  lemma UseFrontStatus(h: Heap, p: nat, nb: nat)
    requires HeapOk(h) && CanSplit(h, p, nb) && ChunkOk(h, p)
    ensures Allocated(h, UseFront(h, p, nb), p, nb)
    ensures forall a: nat, s: nat :: FreeChunk(UseFront(h, p, nb), a, s) <==>
              (FreeChunk(h, a, s) && a != p) || (a == p + nb && s == Size(h, p) - nb)
  {
    InsideIsFresh(h, p, p + nb);
  }

  // ----- Allocating from the top chunk -----------------------------------

  predicate CanCutTop(h: Heap, nb: nat) {
    nb >= MIN_CHUNK_SIZE && nb % 8 == 0 && nb < h.topsize
  }

  lemma UseTopChunk(h: Heap, nb: nat, a: nat)
    requires HeapOk(h) && CanCutTop(h, nb) && (a in h.chunks || a == h.top)
    ensures ChunkOk(UseTop(h, nb), a)
  {
    if a in h.chunks { assert ChunkOk(h, a); }
  }

  lemma UseTopApart(h: Heap, nb: nat, a: nat, b: nat)
    requires HeapOk(h) && CanCutTop(h, nb)
    requires a in UseTop(h, nb).chunks && IsBoundary(UseTop(h, nb), b)
    ensures Outside(UseTop(h, nb), a, b)
  {
    if a in h.chunks { assert ChunkOk(h, a) && Outside(h, a, b); }
    if b in h.chunks { assert ChunkOk(h, b); }
  }

  lemma UseTopCover(h: Heap, nb: nat, x: nat)
    requires HeapOk(h) && CanCutTop(h, nb) && h.base <= x < h.top + nb
    ensures IsCovered(UseTop(h, nb), x)
  {
    if x < h.top {
      assert IsCovered(h, x);
      var a: nat :| CoveredBy(h, a, x);
      assert ChunkOk(h, a);
      assert CoveredBy(UseTop(h, nb), a, x);
    } else {
      assert CoveredBy(UseTop(h, nb), h.top, x);
    }
  }

  lemma UseTopOk(h: Heap, nb: nat)
    requires HeapOk(h) && CanCutTop(h, nb)
    ensures HeapOk(UseTop(h, nb))
  {
    var h' := UseTop(h, nb);
    assert h'.top in h.chunks ==> ChunkOk(h, h'.top);
    forall a: nat {:trigger ChunkOk(h', a)} | a in h'.chunks ensures ChunkOk(h', a) { UseTopChunk(h, nb, a); }
    forall a: nat, b: nat {:trigger Outside(h', a, b)} | a in h'.chunks && IsBoundary(h', b) ensures Outside(h', a, b) {
      UseTopApart(h, nb, a, b);
    }
    forall x: nat {:trigger IsCovered(h', x)} | h'.base <= x < h'.top ensures IsCovered(h', x) {
      UseTopCover(h, nb, x);
    }
  }

  lemma UseTopStatus(h: Heap, nb: nat)
    requires HeapOk(h) && CanCutTop(h, nb)
    ensures Allocated(h, UseTop(h, nb), h.top, nb)
    ensures forall a: nat, s: nat :: FreeChunk(UseTop(h, nb), a, s) <==> FreeChunk(h, a, s)
  {
    var h' := UseTop(h, nb);
    forall a: nat | a in h.chunks ensures a != h.top && a != h'.top {
      assert ChunkOk(h, a);
    }
  }

  // ----- Coalescing ------------------------------------------------------

  /** The stretch from chunk lo to boundary n holds, after lo, exactly the chunks in gone. */
  ghost predicate Stretch(h: Heap, lo: nat, n: nat, gone: set<nat>) {
    && lo in h.chunks && lo in h.head && h.head[lo].pinuse && lo < n && IsBoundary(h, n) && n in h.head
    && (forall a: nat :: a in gone <==> a in h.chunks && lo < a < n)
  }

  /** The stretch becomes one free chunk. */
  function Release(h: Heap, lo: nat, n: nat, gone: set<nat>): Heap
    requires lo <= n && n in h.head
  {
    h.(head := h.head[lo := Head(n - lo, true, false)][n := h.head[n].(pinuse := false)],
       foot := h.foot[n := n - lo],
       chunks := h.chunks - gone)
  }

  /** The stretch from lo up to the top chunk joins the top chunk. */
  function ReleaseTop(h: Heap, lo: nat, gone: set<nat>): Heap
    requires lo <= h.top
  {
    var size := h.topsize + (h.top - lo);
    h.(head := h.head[lo := Head(size, true, false)], chunks := h.chunks - gone - {lo}, top := lo, topsize := size)
  }

  /** What lies before the stretch ends at lo or earlier, and is in use if it ends at lo. */
  lemma BeforeStretch(h: Heap, lo: nat, a: nat)
    requires HeapOk(h) && lo in h.chunks && lo in h.head && h.head[lo].pinuse && a in h.chunks && a < lo
    ensures ChunkOk(h, a) && a + Size(h, a) <= lo && (a + Size(h, a) == lo ==> Inuse(h, a))
  {
    assert ChunkOk(h, a) && Outside(h, a, lo);
  }

  lemma ReleaseChunk(h: Heap, lo: nat, n: nat, gone: set<nat>, a: nat)
    requires HeapOk(h) && Stretch(h, lo, n, gone) && n in h.chunks && Inuse(h, n)
    requires n - lo >= MIN_CHUNK_SIZE && (n - lo) % 8 == 0
    requires a in h.chunks && a !in gone
    ensures ChunkOk(Release(h, lo, n, gone), a)
  {
    assert ChunkOk(h, n) && ChunkOk(h, lo);
    if a < lo {
      BeforeStretch(h, lo, a);
    } else if a > lo {
      assert ChunkOk(h, a);
    }
  }

  lemma ReleaseApart(h: Heap, lo: nat, n: nat, gone: set<nat>, a: nat, b: nat)
    requires HeapOk(h) && Stretch(h, lo, n, gone)
    requires a in Release(h, lo, n, gone).chunks && IsBoundary(Release(h, lo, n, gone), b)
    ensures Outside(Release(h, lo, n, gone), a, b)
  {
    assert Outside(h, a, b);
    assert EndsOk(h);
    if n in h.chunks { assert ChunkOk(h, n); }
  }

  lemma ReleaseCover(h: Heap, lo: nat, n: nat, gone: set<nat>, x: nat)
    requires HeapOk(h) && Stretch(h, lo, n, gone) && h.base <= x < h.top
    ensures IsCovered(Release(h, lo, n, gone), x)
  {
    var h' := Release(h, lo, n, gone);
    if lo <= x < n {
      assert CoveredBy(h', lo, x);
    } else {
      assert IsCovered(h, x);
      var a: nat :| CoveredBy(h, a, x);
      assert Outside(h, a, n) && Outside(h, a, lo);
      assert CoveredBy(h', a, x);
    }
  }

  lemma ReleaseOk(h: Heap, lo: nat, n: nat, gone: set<nat>)
    requires HeapOk(h) && Stretch(h, lo, n, gone) && n in h.chunks && Inuse(h, n)
    requires n - lo >= MIN_CHUNK_SIZE && (n - lo) % 8 == 0
    ensures HeapOk(Release(h, lo, n, gone))
  {
    var h' := Release(h, lo, n, gone);
    assert ChunkOk(h, n) && ChunkOk(h, lo);
    forall a: nat {:trigger ChunkOk(h', a)} | a in h'.chunks ensures ChunkOk(h', a) { ReleaseChunk(h, lo, n, gone, a); }
    forall a: nat, b: nat {:trigger Outside(h', a, b)} | a in h'.chunks && IsBoundary(h', b) ensures Outside(h', a, b) {
      ReleaseApart(h, lo, n, gone, a, b);
    }
    forall x: nat {:trigger IsCovered(h', x)} | h'.base <= x < h'.top ensures IsCovered(h', x) {
      ReleaseCover(h, lo, n, gone, x);
    }
  }

  lemma ReleaseStatus(h: Heap, lo: nat, n: nat, gone: set<nat>)
    requires HeapOk(h) && Stretch(h, lo, n, gone) && n in h.chunks && Inuse(h, n)
    ensures forall a: nat, s: nat :: FreeChunk(Release(h, lo, n, gone), a, s) <==>
              (FreeChunk(h, a, s) && a !in gone && a != lo) || (a == lo && s == n - lo)
    ensures forall a: nat, s: nat :: LiveChunk(Release(h, lo, n, gone), a, s) <==>
              LiveChunk(h, a, s) && a !in gone && a != lo
  {
    var h' := Release(h, lo, n, gone);
    assert n !in gone;
    assert forall a: nat :: a in h'.chunks && a != lo ==> Size(h', a) == Size(h, a) && Inuse(h', a) == Inuse(h, a);
  }

  lemma ReleaseTopChunk(h: Heap, lo: nat, gone: set<nat>, a: nat)
    requires HeapOk(h) && Stretch(h, lo, h.top, gone) && a in h.chunks && a !in gone && a != lo
    ensures ChunkOk(ReleaseTop(h, lo, gone), a)
  {
    assert ChunkOk(h, a);
    BeforeStretch(h, lo, a);
    var n := a + Size(h, a);
    assert n < lo ==> n !in gone;
  }

  lemma ReleaseTopOk(h: Heap, lo: nat, gone: set<nat>)
    requires HeapOk(h) && Stretch(h, lo, h.top, gone)
    ensures HeapOk(ReleaseTop(h, lo, gone))
  {
    var h' := ReleaseTop(h, lo, gone);
    assert ChunkOk(h, lo);
    forall a: nat {:trigger ChunkOk(h', a)} | a in h'.chunks ensures ChunkOk(h', a) { ReleaseTopChunk(h, lo, gone, a); }
    forall a: nat, b: nat {:trigger Outside(h', a, b)} | a in h'.chunks && IsBoundary(h', b) ensures Outside(h', a, b) {
      assert Outside(h, a, b);
    }
    forall x: nat {:trigger IsCovered(h', x)} | h'.base <= x < h'.top ensures IsCovered(h', x) {
      assert IsCovered(h, x);
      var a: nat :| CoveredBy(h, a, x);
      assert ChunkOk(h, a) && Outside(h, lo, a);
      assert CoveredBy(h', a, x);
    }
  }

  lemma ReleaseTopStatus(h: Heap, lo: nat, gone: set<nat>)
    requires HeapOk(h) && Stretch(h, lo, h.top, gone)
    ensures forall a: nat, s: nat :: FreeChunk(ReleaseTop(h, lo, gone), a, s) <==> FreeChunk(h, a, s) && a !in gone && a != lo
    ensures forall a: nat, s: nat :: LiveChunk(ReleaseTop(h, lo, gone), a, s) <==> LiveChunk(h, a, s) && a !in gone && a != lo
  {
  }

  // ----- Freeing a chunk -------------------------------------------------

  /** Where the free stretch around chunk p starts. */
  function Lo(h: Heap, p: nat): nat {
    if p in h.head && !h.head[p].pinuse && p in h.foot && h.foot[p] <= p then p - h.foot[p] else p
  }

  function Next(h: Heap, p: nat): nat {
    p + Size(h, p)
  }

  /** Where the free stretch around chunk p ends. */
  function Hi(h: Heap, p: nat): nat {
    var n := Next(h, p);
    if n in h.chunks && !Inuse(h, n) then n + Size(h, n) else n
  }

  /** The chunks that disappear in the merged one. */
  function Gone(h: Heap, p: nat): set<nat> {
    (if Lo(h, p) == p then {} else {p}) + (if Hi(h, p) == Next(h, p) then {} else {Next(h, p)})
  }

  /** What dlfree makes of the heap: chunk p and its free neighbours become one free chunk, or part of top. */
  function Freed(h: Heap, p: nat): Heap
    requires Lo(h, p) <= Hi(h, p) <= h.top && Hi(h, p) in h.head
  {
    if Hi(h, p) == h.top then ReleaseTop(h, Lo(h, p), Gone(h, p)) else Release(h, Lo(h, p), Hi(h, p), Gone(h, p))
  }

  lemma LoFacts(h: Heap, p: nat)
    requires HeapOk(h) && p in h.chunks
    ensures p in h.head && Lo(h, p) in h.chunks && Lo(h, p) in h.head && h.head[Lo(h, p)].pinuse
    ensures h.head[p].pinuse ==> Lo(h, p) == p
    ensures !h.head[p].pinuse ==> p in h.foot && Lo(h, p) < p && FreeChunk(h, Lo(h, p), h.foot[p]) && Lo(h, p) == p - h.foot[p]
  {
    assert ChunkOk(h, p);
    if !h.head[p].pinuse {
      PrevIsFree(h, p);
      var l := Lo(h, p);
      assert ChunkOk(h, l);
      FreeHasPinuse(h, l);
    }
  }

  lemma HiFacts(h: Heap, p: nat)
    requires HeapOk(h) && p in h.chunks && Inuse(h, p)
    ensures p < Next(h, p) <= Hi(h, p) <= h.top && Next(h, p) in h.head && Hi(h, p) in h.head
    ensures IsBoundary(h, Next(h, p)) && h.head[Next(h, p)].pinuse
    ensures Hi(h, p) == h.top <==> Next(h, p) == h.top
    ensures Hi(h, p) != h.top ==> Hi(h, p) in h.chunks && Inuse(h, Hi(h, p))
    ensures Hi(h, p) != Next(h, p) ==>
      Next(h, p) in h.chunks && FreeChunk(h, Next(h, p), Hi(h, p) - Next(h, p)) && !h.head[Hi(h, p)].pinuse
    ensures Next(h, p) in h.chunks && !Inuse(h, Next(h, p)) ==> Hi(h, p) != Next(h, p)
    ensures p % 8 == 0 && Next(h, p) % 8 == 0 && Hi(h, p) % 8 == 0
    ensures Inuse(h, Next(h, p)) <==> Next(h, p) != h.top && Hi(h, p) == Next(h, p)
  {
    assert ChunkOk(h, p);
    var n := Next(h, p);
    if n in h.chunks { assert ChunkOk(h, n); }
  }

  /** Between Lo and Hi lie exactly the chunks of Gone. */
  lemma SpanIsStretch(h: Heap, p: nat)
    requires HeapOk(h) && p in h.chunks && Inuse(h, p)
    ensures Lo(h, p) <= p < Hi(h, p) <= h.top && Stretch(h, Lo(h, p), Hi(h, p), Gone(h, p))
    ensures Hi(h, p) - Lo(h, p) >= MIN_CHUNK_SIZE && (Hi(h, p) - Lo(h, p)) % 8 == 0
  {
    LoFacts(h, p);
    HiFacts(h, p);
    var lo, n, hi := Lo(h, p), Next(h, p), Hi(h, p);
    assert ChunkOk(h, p) && ChunkOk(h, lo);
    forall a: nat ensures a in Gone(h, p) <==> a in h.chunks && lo < a < hi {
      if a in h.chunks {
        assert Outside(h, lo, a) && Outside(h, p, a);
        if n in h.chunks { assert Outside(h, n, a); }
      }
    }
  }

  /** Freeing keeps the heap well-formed, and takes exactly p out of use. */
  lemma FreedOk(h: Heap, p: nat)
    requires HeapOk(h) && p in h.chunks && Inuse(h, p)
    ensures Lo(h, p) <= Hi(h, p) <= h.top && Hi(h, p) in h.head
    ensures HeapOk(Freed(h, p))
    ensures Freed(h, p).top + Freed(h, p).topsize == h.top + h.topsize && Freed(h, p).base == h.base
  {
    SpanIsStretch(h, p);
    HiFacts(h, p);
    if Hi(h, p) == h.top {
      ReleaseTopOk(h, Lo(h, p), Gone(h, p));
    } else {
      ReleaseOk(h, Lo(h, p), Hi(h, p), Gone(h, p));
    }
  }

  lemma FreedStatus(h: Heap, p: nat)
    requires HeapOk(h) && p in h.chunks && Inuse(h, p)
    ensures Lo(h, p) <= Hi(h, p) <= h.top && Hi(h, p) in h.head
    ensures forall a: nat, s: nat :: LiveChunk(Freed(h, p), a, s) <==> LiveChunk(h, a, s) && a != p
    ensures forall a: nat, s: nat :: FreeChunk(Freed(h, p), a, s) <==>
              (FreeChunk(h, a, s) && a != Lo(h, p) && a != Next(h, p)) ||
              (Hi(h, p) != h.top && a == Lo(h, p) && s == Hi(h, p) - Lo(h, p))
  {
    SpanIsStretch(h, p);
    LoFacts(h, p);
    HiFacts(h, p);
    if Hi(h, p) == h.top {
      ReleaseTopStatus(h, Lo(h, p), Gone(h, p));
    } else {
      ReleaseStatus(h, Lo(h, p), Hi(h, p), Gone(h, p));
    }
  }

  /** Once nothing is in use, coalescing has left a single top chunk over the whole segment. */
  lemma AllFreedIsOneTop(h: Heap)
    requires HeapOk(h) && forall a: nat, s: nat :: !LiveChunk(h, a, s)
    ensures h.chunks == {} && h.top == h.base
  {
    forall a: nat ensures a !in h.chunks {
      var n := a + Size(h, a);
      assert !LiveChunk(h, a, Size(h, a)) && !LiveChunk(h, n, Size(h, n));
      assert a in h.chunks ==> ChunkOk(h, a);
    }
    assert h.base < h.top ==> IsCovered(h, h.base);
  }
}
