/**
 Calls of dlmalloc and dlfree (src/lib/libc/malloc.c) as functions of the malloc
 state, down to the bins and the designated victim.
 */
module MallocSteps {
  import opened TreeBins
  import opened MallocHeap
  import opened MallocBins
  import opened MallocArena

  /** The malloc state: the segment, the bins and the designated victim. */
  datatype MallocState = MallocState(h: Heap, b: Bins, dv: nat, dvsize: nat)

  ghost predicate StateOk(a: MallocState) {
    ArenaOk(a.h, a.b, a.dv, a.dvsize)
  }

  lemma DvIsFree(h: Heap, b: Bins, dv: nat, dvsize: nat)
    requires ArenaOk(h, b, dv, dvsize)
    ensures dvsize > 0 ==> FreeChunk(h, dv, dvsize) && dvsize < SIZE_LIMIT - 1 && dv > 0
  {
    if dvsize > 0 {
      assert FreeChunk(h, dv, dvsize) by { assert Kept(b, dv, dvsize, dv, dvsize); }
      FreeFacts(h, dv, dvsize);
    }
  }

  // ----- What merging does to the bins -------------------------------------

  ghost predicate BackMerged(b: Bins, b': Bins, lo: nat) {
    BinsInv(b') && forall a: nat, s: nat :: Holds(b', a, s) <==> Holds(b, a, s) && a != lo
  }

  ghost predicate BothMerged(b: Bins, b': Bins, lo: nat, next: nat) {
    BinsInv(b') && forall a: nat, s: nat :: Holds(b', a, s) <==> Holds(b, a, s) && a != lo && a != next
  }

  /** Freeing p took exactly p out of use, and merged it with its free neighbours. */
  ghost predicate Released(h: Heap, h': Heap, p: nat) {
    && Lo(h, p) <= Hi(h, p) <= h.top && Hi(h, p) in h.head && h' == Freed(h, p)
    && (forall a: nat, s: nat :: LiveChunk(h', a, s) <==> LiveChunk(h, a, s) && a != p)
    && (forall a: nat, s: nat :: FreeChunk(h', a, s) <==>
          (FreeChunk(h, a, s) && a != Lo(h, p) && a != Next(h, p)) ||
          (Hi(h, p) != h.top && a == Lo(h, p) && s == Hi(h, p) - Lo(h, p)))
    && h'.base == h.base && h'.top + h'.topsize == h.top + h.topsize
    && h'.top == if Hi(h, p) == h.top then Lo(h, p) else h.top
  }

  /** What is not free is not kept. */
  lemma FreeNotLive(h: Heap, b: Bins, dv: nat, dvsize: nat, a: nat)
    requires ArenaOk(h, b, dv, dvsize) && a > 0 && (a !in h.chunks || Inuse(h, a))
    ensures a != dv && forall s: nat :: !Holds(b, a, s)
  {
    forall s: nat ensures !Holds(b, a, s) {
      assert !FreeChunk(h, a, s);
    }
    DvIsFree(h, b, dv, dvsize);
  }

  lemma InuseIsNotDv(h: Heap, b: Bins, dv: nat, dvsize: nat, a: nat)
    requires ArenaOk(h, b, dv, dvsize) && Inuse(h, a) && a > 0
    ensures a != dv
  {
    DvIsFree(h, b, dv, dvsize);
  }

  /** Where dlfree finds its chunks, and what the result means. */
  lemma FreedArenaShape(h: Heap, p: nat)
    requires HeapOk(h) && p in h.chunks && Inuse(h, p)
    ensures p in h.head && Next(h, p) == p + h.head[p].size && p < Next(h, p) && Next(h, p) in h.head
    ensures Lo(h, p) < Hi(h, p) <= h.top && Hi(h, p) in h.head && Lo(h, p) <= p
    ensures Inuse(h, Next(h, p)) <==> Next(h, p) != h.top && Hi(h, p) == Next(h, p)
    ensures !Inuse(h, Next(h, p)) && Next(h, p) != h.top ==>
      Next(h, p) in h.chunks && Hi(h, p) == Next(h, p) + h.head[Next(h, p)].size
    ensures Hi(h, p) == h.top <==> Next(h, p) == h.top
    ensures Released(h, Freed(h, p), p)
  {
    SpanIsStretch(h, p);
    LoFacts(h, p);
    HiFacts(h, p);
    FreedOk(h, p);
    FreedStatus(h, p);
  }

  /** A free chunk is the designated victim or in a bin, under its size only. */
  lemma FreeIsKept(h: Heap, b: Bins, dv: nat, dvsize: nat, a: nat, z: nat)
    requires ArenaOk(h, b, dv, dvsize) && FreeChunk(h, a, z)
    ensures a > 0 && z < SIZE_LIMIT
    ensures a == dv ==> dvsize == z && forall s: nat :: !Holds(b, a, s)
    ensures a != dv ==> Holds(b, a, z) && forall s: nat :: Holds(b, a, s) ==> s == z
  {
    FreeFacts(h, a, z);
    assert Kept(b, dv, dvsize, a, z);
    DvIsFree(h, b, dv, dvsize);
    forall s: nat | Holds(b, a, s) ensures s == z && a != dv {
      assert FreeChunk(h, a, s);
    }
  }

  /** If what follows p is not in a bin, nothing but the backward merge is due there. */
  lemma MergedIfNotBinned(h: Heap, b: Bins, dv: nat, dvsize: nat, b': Bins, p: nat)
    requires ArenaOk(h, b, dv, dvsize) && p in h.chunks && Inuse(h, p) && BackMerged(b, b', Lo(h, p))
    ensures Inuse(h, Next(h, p)) || Next(h, p) == h.top || Next(h, p) == dv ==> BothMerged(b, b', Lo(h, p), Next(h, p))
  {
    HiFacts(h, p);
    var next := Next(h, p);
    if Inuse(h, next) || next == h.top {
      FreeNotLive(h, b, dv, dvsize, next);
    } else if next == dv {
      FreeIsKept(h, b, dv, dvsize, next, Hi(h, p) - next);
    }
  }

  lemma KeptMergedDv(h: Heap, b: Bins, dv: nat, dvsize: nat, b': Bins, p: nat)
    requires ArenaOk(h, b, dv, dvsize) && p in h.chunks && Inuse(h, p) && Hi(h, p) != h.top
    requires BothMerged(b, b', Lo(h, p), Next(h, p)) && (dv == Lo(h, p) || dv == Next(h, p))
    ensures Lo(h, p) < Hi(h, p) && FreeKept(h, b, dv, dvsize, b', Lo(h, p), Hi(h, p) - Lo(h, p), p)
    ensures dv == Next(h, p) ==> dvsize == Hi(h, p) - Next(h, p)
  {
    SpanIsStretch(h, p);
    LoFacts(h, p);
    HiFacts(h, p);
    DvIsFree(h, b, dv, dvsize);
    assert ChunkOk(h, p);
    FreeNotLive(h, b, dv, dvsize, p);
    var lo, size := Lo(h, p), Hi(h, p) - Lo(h, p);
    forall a: nat, s: nat ensures FreeKeptAt(h, b, dv, dvsize, b', lo, size, p, a, s) {
      assert Holds(b', a, s) <==> Holds(b, a, s) && a != lo && a != Next(h, p);
    }
  }

  /** Binning the merged chunk, seen from the bins before the merge. */
  lemma InsertMerged(b: Bins, b': Bins, lo: nat, next: nat, size: nat)
    requires BothMerged(b, b', lo, next) && size < SIZE_LIMIT && size % 8 == 0
    ensures BinsInv(InsertChunk(b', lo, size))
    ensures forall a: nat, s: nat :: Holds(InsertChunk(b', lo, size), a, s) <==>
              (Holds(b, a, s) && a != lo && a != next) || (a == lo && s == size)
  {
    InsertChunkAdds(b', lo, size);
    var b2 := InsertChunk(b', lo, size);
    forall a: nat, s: nat
      ensures Holds(b2, a, s) <==> (Holds(b, a, s) && a != lo && a != next) || (a == lo && s == size)
    {
      assert Holds(b2, a, s) <==> Holds(b', a, s) || (a == lo && s == size);
    }
  }

  lemma KeptMergedBin(h: Heap, b: Bins, dv: nat, dvsize: nat, b': Bins, p: nat)
    requires ArenaOk(h, b, dv, dvsize) && p in h.chunks && Inuse(h, p) && Hi(h, p) != h.top
    requires BothMerged(b, b', Lo(h, p), Next(h, p)) && dv != Lo(h, p) && dv != Next(h, p)
    ensures 0 <= Hi(h, p) - Lo(h, p) < SIZE_LIMIT
    ensures FreeKept(h, b, dv, dvsize, InsertChunk(b', Lo(h, p), Hi(h, p) - Lo(h, p)), dv, dvsize, p)
  {
    SpanIsStretch(h, p);
    var lo, size := Lo(h, p), Hi(h, p) - Lo(h, p);
    InsertMerged(b, b', lo, Next(h, p), size);
    var b2 := InsertChunk(b', lo, size);
    forall a: nat, s: nat ensures FreeKeptAt(h, b, dv, dvsize, b2, dv, dvsize, p, a, s) {
      assert Holds(b2, a, s) <==> (Holds(b, a, s) && a != lo && a != Next(h, p)) || (a == lo && s == size);
    }
    assert FreeKept(h, b, dv, dvsize, b2, dv, dvsize, p);
  }

  lemma KeptMergedTop(h: Heap, b: Bins, dv: nat, dvsize: nat, b': Bins, dv': nat, dvsize': nat, p: nat)
    requires ArenaOk(h, b, dv, dvsize) && p in h.chunks && Inuse(h, p) && Hi(h, p) == h.top
    requires BothMerged(b, b', Lo(h, p), Next(h, p))
    requires if dv == Lo(h, p) then dv' == 0 && dvsize' == 0 else dv' == dv && dvsize' == dvsize
    ensures FreeKept(h, b, dv, dvsize, b', dv', dvsize', p)
  {
    LoFacts(h, p);
    HiFacts(h, p);
    FreeNotLive(h, b, dv, dvsize, h.top);
    forall a: nat, s: nat ensures FreeKeptAt(h, b, dv, dvsize, b', dv', dvsize', p, a, s) {
      assert Holds(b', a, s) <==> Holds(b, a, s) && a != Lo(h, p) && a != Next(h, p);
    }
  }

  // ----- malloc ------------------------------------------------------------

  /** Free chunk p, of size cs, can be used for nb bytes. */
  ghost predicate CanTake(a: MallocState, p: nat, cs: nat, nb: nat) {
    && StateOk(a) && FreeChunk(a.h, p, cs) && RequestOk(nb) && nb <= cs
    // a small request splits a binned chunk only if the designated victim is too small
    && (p != a.dv && nb < MIN_LARGE_SIZE && nb + MIN_CHUNK_SIZE <= cs ==> a.dvsize < nb)
  }

  /** The state after free chunk p was used for nb bytes. */
  ghost function Taken(a: MallocState, p: nat, cs: nat, nb: nat): MallocState
    requires CanTake(a, p, cs, nb)
  {
    CarveOk(a.h, p, cs, nb);
    FreeIsKept(a.h, a.b, a.dv, a.dvsize, p, cs);
    var h := Carve(a.h, p, cs, nb);
    if p == a.dv then
      if cs - nb < MIN_CHUNK_SIZE then MallocState(h, a.b, 0, 0) else MallocState(h, a.b, p + nb, cs - nb)
    else
      Unbinned(a.h, a.b, a.dv, a.dvsize, p, cs);
      var b := UnlinkChunk(a.b, p, cs);
      if cs - nb < MIN_CHUNK_SIZE then a.(h := h, b := b)
      else if nb < MIN_LARGE_SIZE then MallocState(h, ReplacedBins(b, a.dv, a.dvsize), p + nb, cs - nb)
      else a.(h := h, b := InsertChunk(b, p + nb, cs - nb))
  }

  lemma IsBinned(a: MallocState, p: nat, cs: nat)
    requires StateOk(a) && FreeChunk(a.h, p, cs) && p != a.dv
    ensures Holds(a.b, p, cs)
  {
    FreeIsKept(a.h, a.b, a.dv, a.dvsize, p, cs);
  }

  lemma TakenFromDv(a: MallocState, p: nat, cs: nat, nb: nat)
    requires CanTake(a, p, cs, nb) && p == a.dv
    ensures var a' := Taken(a, p, cs, nb); CarveKept(a.b, a.dv, a.dvsize, a'.b, a'.dv, a'.dvsize, p, cs, nb)
  {
    FreeIsKept(a.h, a.b, a.dv, a.dvsize, p, cs);
    KeptFromDv(a.h, a.b, a.dv, a.dvsize, nb);
  }

  lemma TakenWhole(a: MallocState, p: nat, cs: nat, nb: nat)
    requires CanTake(a, p, cs, nb) && p != a.dv && cs < nb + MIN_CHUNK_SIZE
    ensures var a' := Taken(a, p, cs, nb); CarveKept(a.b, a.dv, a.dvsize, a'.b, a'.dv, a'.dvsize, p, cs, nb)
  {
    FreeIsKept(a.h, a.b, a.dv, a.dvsize, p, cs);
    KeptWhole(a.h, a.b, a.dv, a.dvsize, p, cs, nb);
  }

  /** What is done for a small request that splits a binned chunk. */
  lemma FrontSmall(a: MallocState, p: nat, cs: nat, nb: nat)
    requires CanTake(a, p, cs, nb) && p != a.dv && nb + MIN_CHUNK_SIZE <= cs && nb < MIN_LARGE_SIZE
    ensures p in a.h.head && a.h.head[p].size == cs < SIZE_LIMIT && BinsInv(UnlinkChunk(a.b, p, cs))
    ensures Taken(a, p, cs, nb) ==
            MallocState(UseFront(a.h, p, nb), ReplacedBins(UnlinkChunk(a.b, p, cs), a.dv, a.dvsize), p + nb, cs - nb)
  {
    FreeIsKept(a.h, a.b, a.dv, a.dvsize, p, cs);
    Unbinned(a.h, a.b, a.dv, a.dvsize, p, cs);
    FreeFacts(a.h, p, cs);
  }

  /** What is done for a large one. */
  lemma FrontLarge(a: MallocState, p: nat, cs: nat, nb: nat)
    requires CanTake(a, p, cs, nb) && p != a.dv && nb + MIN_CHUNK_SIZE <= cs && nb >= MIN_LARGE_SIZE
    ensures p in a.h.head && a.h.head[p].size == cs < SIZE_LIMIT && BinsInv(UnlinkChunk(a.b, p, cs))
    ensures Taken(a, p, cs, nb) == a.(h := UseFront(a.h, p, nb), b := InsertChunk(UnlinkChunk(a.b, p, cs), p + nb, cs - nb))
  {
    FreeIsKept(a.h, a.b, a.dv, a.dvsize, p, cs);
    Unbinned(a.h, a.b, a.dv, a.dvsize, p, cs);
    FreeFacts(a.h, p, cs);
  }

  lemma TakenFrontSmall(a: MallocState, p: nat, cs: nat, nb: nat)
    requires CanTake(a, p, cs, nb) && p != a.dv && nb + MIN_CHUNK_SIZE <= cs && nb < MIN_LARGE_SIZE
    ensures var a' := Taken(a, p, cs, nb); CarveKept(a.b, a.dv, a.dvsize, a'.b, a'.dv, a'.dvsize, p, cs, nb)
  {
    IsBinned(a, p, cs);
    FrontSmall(a, p, cs, nb);
    KeptAsDv(a.h, a.b, a.dv, a.dvsize, p, cs, nb);
  }

  lemma TakenFrontLarge(a: MallocState, p: nat, cs: nat, nb: nat)
    requires CanTake(a, p, cs, nb) && p != a.dv && nb + MIN_CHUNK_SIZE <= cs && nb >= MIN_LARGE_SIZE
    ensures var a' := Taken(a, p, cs, nb); CarveKept(a.b, a.dv, a.dvsize, a'.b, a'.dv, a'.dvsize, p, cs, nb)
  {
    IsBinned(a, p, cs);
    FrontLarge(a, p, cs, nb);
    KeptInBin(a.h, a.b, a.dv, a.dvsize, p, cs, nb);
  }

  lemma TakenOk(a: MallocState, p: nat, cs: nat, nb: nat)
    requires CanTake(a, p, cs, nb)
    ensures StateOk(Taken(a, p, cs, nb)) && Carved(a.h, Taken(a, p, cs, nb).h, p, cs, nb)
  {
    if p == a.dv {
      TakenFromDv(a, p, cs, nb);
    } else if cs < nb + MIN_CHUNK_SIZE {
      TakenWhole(a, p, cs, nb);
    } else if nb < MIN_LARGE_SIZE {
      TakenFrontSmall(a, p, cs, nb);
    } else {
      TakenFrontLarge(a, p, cs, nb);
    }
    var a' := Taken(a, p, cs, nb);
    CarvedArena(a.h, a.b, a.dv, a.dvsize, p, cs, nb, a'.b, a'.dv, a'.dvsize);
  }

  // ----- free --------------------------------------------------------------

  ghost predicate CanFree(a: MallocState, p: nat) {
    StateOk(a) && p in a.h.chunks && Inuse(a.h, p)
  }

  /** The bins after the chunk before p, if it is free, was taken out of them. */
  ghost function BackBins(a: MallocState, p: nat): Bins
    requires CanFree(a, p)
  {
    LoFacts(a.h, p);
    if Lo(a.h, p) == p || Lo(a.h, p) == a.dv then a.b
    else FreeFacts(a.h, Lo(a.h, p), p - Lo(a.h, p)); UnlinkChunk(a.b, Lo(a.h, p), p - Lo(a.h, p))
  }

  lemma BackBinsOk(a: MallocState, p: nat)
    requires CanFree(a, p)
    ensures BackMerged(a.b, BackBins(a, p), Lo(a.h, p))
  {
    LoFacts(a.h, p);
    var lo := Lo(a.h, p);
    if lo == p {
      assert ChunkOk(a.h, p);
      FreeNotLive(a.h, a.b, a.dv, a.dvsize, p);
    } else {
      FreeIsKept(a.h, a.b, a.dv, a.dvsize, lo, p - lo);
      if lo != a.dv { Unbinned(a.h, a.b, a.dv, a.dvsize, lo, p - lo); }
    }
  }

  /** The bins after the chunk behind p, if it is free, was taken out of them too. */
  ghost function MergedBins(a: MallocState, p: nat): Bins
    requires CanFree(a, p)
  {
    BackBinsOk(a, p);
    HiFacts(a.h, p);
    if Hi(a.h, p) == Next(a.h, p) || Next(a.h, p) == a.dv then BackBins(a, p)
    else
      FreeFacts(a.h, Next(a.h, p), Hi(a.h, p) - Next(a.h, p));
      UnlinkChunk(BackBins(a, p), Next(a.h, p), Hi(a.h, p) - Next(a.h, p))
  }

  lemma MergedBinsOk(a: MallocState, p: nat)
    requires CanFree(a, p)
    ensures BothMerged(a.b, MergedBins(a, p), Lo(a.h, p), Next(a.h, p))
  {
    BackBinsOk(a, p);
    HiFacts(a.h, p);
    LoFacts(a.h, p);
    var lo, next, end := Lo(a.h, p), Next(a.h, p), Hi(a.h, p);
    if end == next || next == a.dv {
      MergedIfNotBinned(a.h, a.b, a.dv, a.dvsize, BackBins(a, p), p);
    } else {
      FreeIsKept(a.h, a.b, a.dv, a.dvsize, next, end - next);
      ForwardMerged(a.b, BackBins(a, p), lo, next, end - next);
    }
  }

  /** The chunk behind p, if it is free and not the designated victim, is in a bin. */
  lemma NextBinned(a: MallocState, p: nat)
    requires CanFree(a, p) && Next(a.h, p) in a.h.chunks && !Inuse(a.h, Next(a.h, p)) && Next(a.h, p) != a.dv
    ensures var next, size := Next(a.h, p), Size(a.h, Next(a.h, p));
            && next in a.h.head && size < SIZE_LIMIT && BinsInv(BackBins(a, p))
            && MergedBins(a, p) == UnlinkChunk(BackBins(a, p), next, size)
  {
    HiFacts(a.h, p);
    BackBinsOk(a, p);
    FreeFacts(a.h, Next(a.h, p), Hi(a.h, p) - Next(a.h, p));
  }

  lemma ForwardMerged(b: Bins, b1: Bins, lo: nat, next: nat, size: nat)
    requires BackMerged(b, b1, lo) && lo != next && Holds(b, next, size) && size < SIZE_LIMIT
    requires forall s: nat :: Holds(b, next, s) ==> s == size
    ensures BothMerged(b, UnlinkChunk(b1, next, size), lo, next)
  {
    UnlinkChunkRemoves(b1, next, size);
    var b2 := UnlinkChunk(b1, next, size);
    forall a: nat, s: nat ensures Holds(b2, a, s) <==> Holds(b, a, s) && a != lo && a != next {
      assert Holds(b1, a, s) <==> Holds(b, a, s) && a != lo;
      assert Holds(b, next, s) ==> s == size;
    }
  }

  /** The state after chunk p was freed. */
  ghost function Given(a: MallocState, p: nat): MallocState
    requires CanFree(a, p)
  {
    FreedArenaShape(a.h, p);
    MergedBinsOk(a, p);
    var h, b, lo, size := Freed(a.h, p), MergedBins(a, p), Lo(a.h, p), Hi(a.h, p) - Lo(a.h, p);
    if Hi(a.h, p) == a.h.top then
      if lo == a.dv then MallocState(h, b, 0, 0) else a.(h := h, b := b)
    else if lo == a.dv || Next(a.h, p) == a.dv then MallocState(h, b, lo, size)
    else a.(h := h, b := InsertChunk(b, lo, size))
  }

  lemma GivenTop(a: MallocState, p: nat)
    requires CanFree(a, p) && Hi(a.h, p) == a.h.top
    ensures var a' := Given(a, p); FreeKept(a.h, a.b, a.dv, a.dvsize, a'.b, a'.dv, a'.dvsize, p)
  {
    MergedBinsOk(a, p);
    var a' := Given(a, p);
    KeptMergedTop(a.h, a.b, a.dv, a.dvsize, MergedBins(a, p), a'.dv, a'.dvsize, p);
  }

  lemma GivenDv(a: MallocState, p: nat)
    requires CanFree(a, p) && Hi(a.h, p) != a.h.top && (a.dv == Lo(a.h, p) || a.dv == Next(a.h, p))
    ensures var a' := Given(a, p); FreeKept(a.h, a.b, a.dv, a.dvsize, a'.b, a'.dv, a'.dvsize, p)
  {
    MergedBinsOk(a, p);
    KeptMergedDv(a.h, a.b, a.dv, a.dvsize, MergedBins(a, p), p);
  }

  /** What is done if the merged chunk goes into a bin. */
  lemma IntoBin(a: MallocState, p: nat)
    requires CanFree(a, p) && Hi(a.h, p) != a.h.top && a.dv != Lo(a.h, p) && a.dv != Next(a.h, p)
    ensures Lo(a.h, p) < Hi(a.h, p) < a.h.top && Hi(a.h, p) in a.h.head && Hi(a.h, p) - Lo(a.h, p) < SIZE_LIMIT
    ensures BinsInv(MergedBins(a, p))
    ensures Given(a, p) == a.(h := Freed(a.h, p), b := InsertChunk(MergedBins(a, p), Lo(a.h, p), Hi(a.h, p) - Lo(a.h, p)))
  {
    FreedArenaShape(a.h, p);
    MergedBinsOk(a, p);
  }

  lemma GivenBin(a: MallocState, p: nat)
    requires CanFree(a, p) && Hi(a.h, p) != a.h.top && a.dv != Lo(a.h, p) && a.dv != Next(a.h, p)
    ensures var a' := Given(a, p); FreeKept(a.h, a.b, a.dv, a.dvsize, a'.b, a'.dv, a'.dvsize, p)
  {
    IntoBin(a, p);
    var b := InsertChunk(MergedBins(a, p), Lo(a.h, p), Hi(a.h, p) - Lo(a.h, p));
    assert FreeKept(a.h, a.b, a.dv, a.dvsize, b, a.dv, a.dvsize, p) by {
      MergedBinsOk(a, p);
      KeptMergedBin(a.h, a.b, a.dv, a.dvsize, MergedBins(a, p), p);
    }
  }

  lemma GivenOk(a: MallocState, p: nat)
    requires CanFree(a, p)
    ensures StateOk(Given(a, p))
  {
    if Hi(a.h, p) == a.h.top {
      GivenTop(a, p);
    } else if a.dv == Lo(a.h, p) || a.dv == Next(a.h, p) {
      GivenDv(a, p);
    } else {
      GivenBin(a, p);
    }
    var a' := Given(a, p);
    FreedArena(a.h, a.b, a.dv, a.dvsize, p, a'.b, a'.dv, a'.dvsize);
  }

  // ----- Calls as steps ----------------------------------------------------

  /** What one call of malloc or free did. */
  datatype Event =
    | Took(p: nat, cs: nat, nb: nat)   // malloc used free chunk p, of size cs
    | Cut(p: nat, nb: nat)             // malloc used the top chunk
    | Gave(p: nat)                     // free
    | Refused                          // malloc returned null, or free was given null

  ghost predicate Step(a: MallocState, a': MallocState, e: Event) {
    match e
    case Took(p, cs, nb) => CanTake(a, p, cs, nb) && a' == Taken(a, p, cs, nb)
    case Cut(p, nb) => p == a.h.top && CanCutTop(a.h, nb) && a' == a.(h := UseTop(a.h, nb))
    case Gave(p) => CanFree(a, p) && a' == Given(a, p)
    case Refused => a' == a
  }

  /** Every call keeps the whole state well-formed: chunks, tags, bins and designated victim. */
  lemma StepKeeps(a: MallocState, a': MallocState, e: Event)
    requires StateOk(a) && Step(a, a', e)
    ensures StateOk(a') && a'.h.base == a.h.base && a'.h.top + a'.h.topsize == a.h.top + a.h.topsize
  {
    match e
    case Took(p, cs, nb) => TakenOk(a, p, cs, nb);
    case Cut(_, nb) => TopArena(a.h, a.b, a.dv, a.dvsize, nb);
    case Gave(p) =>
      GivenOk(a, p);
      FreedOk(a.h, p);
    case Refused =>
  }
}
