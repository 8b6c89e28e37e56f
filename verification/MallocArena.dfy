/**
 The whole state of dlmalloc (src/lib/libc/malloc.c): the chunks of the heap,
 the bins, and the designated victim, the free chunk that is in no bin.
 */
module MallocArena {
  import opened TreeBins
  import opened MallocHeap
  import opened MallocBins

  ghost predicate DvIs(dv: nat, dvsize: nat, a: nat, s: nat) {
    dvsize != 0 && a == dv && s == dvsize
  }

  /** Chunk a, of size s, can be found through the bins or the designated victim. */
  ghost predicate Kept(b: Bins, dv: nat, dvsize: nat, a: nat, s: nat) {
    Holds(b, a, s) || DvIs(dv, dvsize, a, s)
  }

  /** The designated victim is null or a chunk outside the bins. */
  ghost predicate DvOk(b: Bins, dv: nat, dvsize: nat) {
    if dvsize == 0 then dv == 0 else !Holds(b, dv, dvsize)
  }

  /** Exactly the free chunks are kept, each under its size and in one place. */
  ghost predicate Listed(h: Heap, b: Bins, dv: nat, dvsize: nat) {
    && (forall a: nat, s: nat {:trigger FreeChunk(h, a, s)} {:trigger Holds(b, a, s)} ::
          FreeChunk(h, a, s) <==> Kept(b, dv, dvsize, a, s))
    && DvOk(b, dv, dvsize)
  }

  ghost predicate ArenaOk(h: Heap, b: Bins, dv: nat, dvsize: nat) {
    && HeapOk(h) && BinsInv(b) && Listed(h, b, dv, dvsize)
    && h.base > 0 && h.top + h.topsize < SIZE_LIMIT
  }

  lemma FreeFacts(h: Heap, a: nat, s: nat)
    requires HeapOk(h) && FreeChunk(h, a, s) && h.top < SIZE_LIMIT
    ensures ChunkOk(h, a) && MIN_CHUNK_SIZE <= s < SIZE_LIMIT && s % 8 == 0
    ensures a in h.head && h.head[a] == Head(s, true, false)
  {
    assert ChunkOk(h, a);
    FreeHasPinuse(h, a);
  }

  // ----- Taking a free chunk ---------------------------------------------

  /** Hand out the first nb bytes of free chunk p, or all of it if too little would be left for a chunk. */
  function Carve(h: Heap, p: nat, cs: nat, nb: nat): Heap
    requires p in h.head && h.head[p].size == cs && p + cs in h.head && nb <= cs
  {
    if cs - nb < MIN_CHUNK_SIZE then UseWhole(h, p) else UseFront(h, p, nb)
  }

  function CarvedSize(cs: nat, nb: nat): nat {
    if cs < nb + MIN_CHUNK_SIZE then cs else nb
  }

  /** Free chunk p, of size cs, was used for a request of nb bytes. */
  ghost predicate Carved(h: Heap, h': Heap, p: nat, cs: nat, nb: nat) {
    && FreeChunk(h, p, cs) && nb <= cs && p in h.head && p + cs in h.head && h' == Carve(h, p, cs, nb)
    && Allocated(h, h', p, CarvedSize(cs, nb))
    && (forall a: nat, s: nat :: FreeChunk(h', a, s) <==>
          (FreeChunk(h, a, s) && a != p) || (cs >= nb + MIN_CHUNK_SIZE && a == p + nb && s == cs - nb))
    && h'.base == h.base && h'.top == h.top && h'.topsize == h.topsize
  }

  ghost predicate RequestOk(nb: nat) {
    nb >= MIN_CHUNK_SIZE && nb % 8 == 0
  }

  lemma CarveOk(h: Heap, p: nat, cs: nat, nb: nat)
    requires HeapOk(h) && FreeChunk(h, p, cs) && RequestOk(nb) && nb <= cs
    ensures ChunkOk(h, p) && HeapOk(Carve(h, p, cs, nb)) && Carved(h, Carve(h, p, cs, nb), p, cs, nb)
  {
    assert ChunkOk(h, p);
    if cs - nb < MIN_CHUNK_SIZE {
      UseWholeOk(h, p);
      UseWholeStatus(h, p);
    } else {
      UseFrontOk(h, p, nb);
      UseFrontStatus(h, p, nb);
    }
  }

  /** Chunk a, of size s, is kept afterwards iff it was kept and is not p, or is what is left of p. */
  ghost predicate CarveKeptAt(b: Bins, dv: nat, dvsize: nat, b': Bins, dv': nat, dvsize': nat,
                              p: nat, cs: nat, nb: nat, a: nat, s: nat)
  {
    Kept(b', dv', dvsize', a, s) <==>
      (Kept(b, dv, dvsize, a, s) && a != p) || (cs >= nb + MIN_CHUNK_SIZE && a == p + nb && s == cs - nb)
  }

  /** The bins and the designated victim follow the chunks: p is no longer kept, what is left of it is. */
  ghost predicate CarveKept(b: Bins, dv: nat, dvsize: nat, b': Bins, dv': nat, dvsize': nat, p: nat, cs: nat, nb: nat) {
    && BinsInv(b') && DvOk(b', dv', dvsize')
    && (forall a: nat, s: nat {:trigger CarveKeptAt(b, dv, dvsize, b', dv', dvsize', p, cs, nb, a, s)} ::
          CarveKeptAt(b, dv, dvsize, b', dv', dvsize', p, cs, nb, a, s))
  }

  lemma CarvedArena(h: Heap, b: Bins, dv: nat, dvsize: nat, p: nat, cs: nat, nb: nat, b': Bins, dv': nat, dvsize': nat)
    requires ArenaOk(h, b, dv, dvsize) && FreeChunk(h, p, cs) && RequestOk(nb) && nb <= cs
    requires CarveKept(b, dv, dvsize, b', dv', dvsize', p, cs, nb)
    ensures ChunkOk(h, p) && ArenaOk(Carve(h, p, cs, nb), b', dv', dvsize')
    ensures Carved(h, Carve(h, p, cs, nb), p, cs, nb)
  {
    CarveOk(h, p, cs, nb);
    var h' := Carve(h, p, cs, nb);
    forall a: nat, s: nat {:trigger FreeChunk(h', a, s)} {:trigger Holds(b', a, s)}
      ensures FreeChunk(h', a, s) <==> Kept(b', dv', dvsize', a, s)
    {
      assert CarveKeptAt(b, dv, dvsize, b', dv', dvsize', p, cs, nb, a, s);
      assert FreeChunk(h, a, s) <==> Kept(b, dv, dvsize, a, s);
    }
  }

  /** The rest of p, if any, is not kept yet. */
  lemma RestIsNew(h: Heap, b: Bins, dv: nat, dvsize: nat, p: nat, cs: nat, nb: nat)
    requires ArenaOk(h, b, dv, dvsize) && FreeChunk(h, p, cs) && 0 < nb < cs
    ensures !Kept(b, dv, dvsize, p + nb, cs - nb)
  {
    InsideIsFresh(h, p, p + nb);
    assert !FreeChunk(h, p + nb, cs - nb);
  }

  /** A binned chunk is kept under one size only, and is not the designated victim. */
  lemma BinnedOnce(h: Heap, b: Bins, dv: nat, dvsize: nat, p: nat, cs: nat)
    requires ArenaOk(h, b, dv, dvsize) && Holds(b, p, cs)
    ensures FreeChunk(h, p, cs) && cs < SIZE_LIMIT && (dvsize != 0 ==> dv != p)
    ensures forall s: nat :: Holds(b, p, s) ==> s == cs
  {
    assert FreeChunk(h, p, cs);
    FreeFacts(h, p, cs);
    forall s: nat | Holds(b, p, s) ensures s == cs {
      assert FreeChunk(h, p, s);
    }
    if dvsize != 0 { assert FreeChunk(h, dv, dvsize) by { assert Kept(b, dv, dvsize, dv, dvsize); } }
  }

  lemma Unbinned(h: Heap, b: Bins, dv: nat, dvsize: nat, p: nat, cs: nat)
    requires ArenaOk(h, b, dv, dvsize) && Holds(b, p, cs)
    ensures FreeChunk(h, p, cs) && cs < SIZE_LIMIT && (dvsize != 0 ==> dv != p) && BinsInv(UnlinkChunk(b, p, cs))
    ensures forall a: nat, s: nat :: Holds(UnlinkChunk(b, p, cs), a, s) <==> Holds(b, a, s) && a != p
  {
    BinnedOnce(h, b, dv, dvsize, p, cs);
    UnlinkChunkRemoves(b, p, cs);
    var b' := UnlinkChunk(b, p, cs);
    forall a: nat, s: nat ensures Holds(b', a, s) <==> Holds(b, a, s) && a != p {
      assert Holds(b, p, s) ==> s == cs;
    }
  }

  lemma KeptWhole(h: Heap, b: Bins, dv: nat, dvsize: nat, p: nat, cs: nat, nb: nat)
    requires ArenaOk(h, b, dv, dvsize) && Holds(b, p, cs) && nb <= cs < nb + MIN_CHUNK_SIZE
    ensures cs < SIZE_LIMIT && CarveKept(b, dv, dvsize, UnlinkChunk(b, p, cs), dv, dvsize, p, cs, nb)
  {
    Unbinned(h, b, dv, dvsize, p, cs);
    var b1 := UnlinkChunk(b, p, cs);
    forall a: nat, s: nat ensures CarveKeptAt(b, dv, dvsize, b1, dv, dvsize, p, cs, nb, a, s) {
      assert Holds(b1, a, s) <==> Holds(b, a, s) && a != p;
    }
  }

  lemma KeptInBin(h: Heap, b: Bins, dv: nat, dvsize: nat, p: nat, cs: nat, nb: nat)
    requires ArenaOk(h, b, dv, dvsize) && Holds(b, p, cs) && RequestOk(nb) && nb + MIN_CHUNK_SIZE <= cs
    ensures cs < SIZE_LIMIT && BinsInv(UnlinkChunk(b, p, cs))
    ensures CarveKept(b, dv, dvsize, InsertChunk(UnlinkChunk(b, p, cs), p + nb, cs - nb), dv, dvsize, p, cs, nb)
  {
    Unbinned(h, b, dv, dvsize, p, cs);
    FreeFacts(h, p, cs);
    RestIsNew(h, b, dv, dvsize, p, cs, nb);
    var b1 := UnlinkChunk(b, p, cs);
    var b2 := InsertChunk(b1, p + nb, cs - nb);
    InsertChunkAdds(b1, p + nb, cs - nb);
    forall a: nat, s: nat ensures CarveKeptAt(b, dv, dvsize, b2, dv, dvsize, p, cs, nb, a, s) {
      assert Holds(b2, a, s) <==> Holds(b1, a, s) || (a == p + nb && s == cs - nb);
      assert Holds(b1, a, s) <==> Holds(b, a, s) && a != p;
    }
    assert CarveKept(b, dv, dvsize, b2, dv, dvsize, p, cs, nb);
  }

  /** replace_dv */
  function ReplacedBins(b: Bins, dv: nat, dvsize: nat): Bins
    requires BinsInv(b) && dvsize < MIN_LARGE_SIZE
  {
    if dvsize != 0 then InsertSmall(b, dv, dvsize) else b
  }

  lemma ReplacedKeeps(h: Heap, b: Bins, dv: nat, dvsize: nat, b': Bins)
    requires ArenaOk(h, b, dv, dvsize) && dvsize < MIN_LARGE_SIZE && BinsInv(b')
    requires dvsize != 0 ==> !Holds(b', dv, dvsize)
    ensures BinsInv(ReplacedBins(b', dv, dvsize))
    ensures forall a: nat, s: nat :: Holds(ReplacedBins(b', dv, dvsize), a, s) <==> Kept(b', dv, dvsize, a, s)
  {
    if dvsize != 0 {
      assert FreeChunk(h, dv, dvsize) by { assert Kept(b, dv, dvsize, dv, dvsize); }
      FreeFacts(h, dv, dvsize);
      InsertSmallAdds(b', dv, dvsize);
    }
  }

  lemma KeptAsDv(h: Heap, b: Bins, dv: nat, dvsize: nat, p: nat, cs: nat, nb: nat)
    requires ArenaOk(h, b, dv, dvsize) && Holds(b, p, cs) && RequestOk(nb) && nb + MIN_CHUNK_SIZE <= cs
    requires dvsize < MIN_LARGE_SIZE
    ensures cs < SIZE_LIMIT && BinsInv(UnlinkChunk(b, p, cs))
    ensures CarveKept(b, dv, dvsize, ReplacedBins(UnlinkChunk(b, p, cs), dv, dvsize), p + nb, cs - nb, p, cs, nb)
  {
    Unbinned(h, b, dv, dvsize, p, cs);
    RestIsNew(h, b, dv, dvsize, p, cs, nb);
    var b1 := UnlinkChunk(b, p, cs);
    ReplacedKeeps(h, b, dv, dvsize, b1);
    var b2 := ReplacedBins(b1, dv, dvsize);
    var r, rsize := p + nb, cs - nb;
    forall a: nat, s: nat ensures CarveKeptAt(b, dv, dvsize, b2, r, rsize, p, cs, nb, a, s) {
      assert Holds(b2, a, s) <==> Kept(b1, dv, dvsize, a, s);
      assert Holds(b1, a, s) <==> Holds(b, a, s) && a != p;
    }
  }

  lemma KeptFromDv(h: Heap, b: Bins, dv: nat, dvsize: nat, nb: nat)
    requires ArenaOk(h, b, dv, dvsize) && RequestOk(nb) && nb <= dvsize
    ensures FreeChunk(h, dv, dvsize)
    ensures dvsize - nb < MIN_CHUNK_SIZE ==> CarveKept(b, dv, dvsize, b, 0, 0, dv, dvsize, nb)
    ensures dvsize - nb >= MIN_CHUNK_SIZE ==> CarveKept(b, dv, dvsize, b, dv + nb, dvsize - nb, dv, dvsize, nb)
  {
    assert FreeChunk(h, dv, dvsize) by { assert Kept(b, dv, dvsize, dv, dvsize); }
    forall s: nat ensures !Holds(b, dv, s) {
      assert FreeChunk(h, dv, s) <==> Kept(b, dv, dvsize, dv, s);
    }
    var dv' := if dvsize - nb < MIN_CHUNK_SIZE then 0 else dv + nb;
    var dvsize' := if dvsize - nb < MIN_CHUNK_SIZE then 0 else dvsize - nb;
    if dvsize - nb >= MIN_CHUNK_SIZE {
      RestIsNew(h, b, dv, dvsize, dv, dvsize, nb);
    }
    forall a: nat, s: nat ensures CarveKeptAt(b, dv, dvsize, b, dv', dvsize', dv, dvsize, nb, a, s) {
      assert Holds(b, a, s) ==> a != dv;
    }
  }

  // ----- Taking from top -------------------------------------------------

  lemma TopArena(h: Heap, b: Bins, dv: nat, dvsize: nat, nb: nat)
    requires ArenaOk(h, b, dv, dvsize) && RequestOk(nb) && nb < h.topsize
    ensures ArenaOk(UseTop(h, nb), b, dv, dvsize)
    ensures Allocated(h, UseTop(h, nb), h.top, nb)
    ensures forall a: nat, s: nat :: FreeChunk(UseTop(h, nb), a, s) <==> FreeChunk(h, a, s)
  {
    UseTopOk(h, nb);
    UseTopStatus(h, nb);
  }

  // ----- Freeing ---------------------------------------------------------

  /** Chunk a, of size s, is kept afterwards iff it was kept and did not merge, or is the merged chunk. */
  ghost predicate FreeKeptAt(h: Heap, b: Bins, dv: nat, dvsize: nat, b': Bins, dv': nat, dvsize': nat,
                             p: nat, a: nat, s: nat)
  {
    Kept(b', dv', dvsize', a, s) <==>
      (Kept(b, dv, dvsize, a, s) && a != Lo(h, p) && a != Next(h, p)) ||
      (Hi(h, p) != h.top && a == Lo(h, p) && s == Hi(h, p) - Lo(h, p))
  }

  /** The bins and the designated victim follow the chunks when p and its free neighbours merge. */
  ghost predicate FreeKept(h: Heap, b: Bins, dv: nat, dvsize: nat, b': Bins, dv': nat, dvsize': nat, p: nat) {
    && BinsInv(b') && DvOk(b', dv', dvsize')
    && (forall a: nat, s: nat {:trigger FreeKeptAt(h, b, dv, dvsize, b', dv', dvsize', p, a, s)} ::
          FreeKeptAt(h, b, dv, dvsize, b', dv', dvsize', p, a, s))
  }

  lemma FreedArena(h: Heap, b: Bins, dv: nat, dvsize: nat, p: nat, b': Bins, dv': nat, dvsize': nat)
    requires ArenaOk(h, b, dv, dvsize) && p in h.chunks && Inuse(h, p)
    requires FreeKept(h, b, dv, dvsize, b', dv', dvsize', p)
    ensures Lo(h, p) <= Hi(h, p) <= h.top && Hi(h, p) in h.head
    ensures ArenaOk(Freed(h, p), b', dv', dvsize')
  {
    FreedOk(h, p);
    FreedStatus(h, p);
    var h' := Freed(h, p);
    forall a: nat, s: nat {:trigger FreeChunk(h', a, s)} {:trigger Holds(b', a, s)}
      ensures FreeChunk(h', a, s) <==> Kept(b', dv', dvsize', a, s)
    {
      assert FreeKeptAt(h, b, dv, dvsize, b', dv', dvsize', p, a, s);
      assert FreeChunk(h, a, s) <==> Kept(b, dv, dvsize, a, s);
    }
  }
}
