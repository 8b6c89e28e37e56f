/**
 dlmalloc and dlfree (src/lib/libc/malloc.c) on one segment, with 4-byte sizes.

 The fields are those of the malloc state and the head and prev_foot words of
 the segment.  base and chunks are specification only: no code reads them.
 Getting more memory from the system is outside this model, so where the code
 would call sys_alloc, Malloc returns null.
 */
module Malloc {
  import opened TreeBins
  import opened Trie
  import opened TreeSearch
  import opened MallocHeap
  import opened MallocBins
  import opened MallocArena
  import opened MallocSteps

  const MIN_REQUEST: nat := 11
  const MAX_SMALL_REQUEST: nat := 244
  const MAX_REQUEST: nat := SIZE_LIMIT - 64

  /** The chunk size for a request: pad_request, MIN_CHUNK_SIZE, or MAX_SIZE_T for what can never be met. */
  function ChunkSize(bytes: nat): (nb: nat)
    ensures bytes < MAX_REQUEST ==> RequestOk(nb) && nb < SIZE_LIMIT && bytes + 4 <= nb
    ensures bytes < MAX_REQUEST && nb > MIN_CHUNK_SIZE ==> nb <= bytes + 11
    ensures bytes >= MAX_REQUEST ==> nb == SIZE_LIMIT - 1
    ensures bytes <= MAX_SMALL_REQUEST <==> nb < MIN_LARGE_SIZE
  {
    if bytes < MIN_REQUEST then MIN_CHUNK_SIZE
    else if bytes >= MAX_REQUEST then SIZE_LIMIT - 1
    else (bytes + 11) / 8 * 8
  }

  /** No free chunk is big enough. */
  ghost predicate NothingFits(h: Heap, nb: nat) {
    forall a: nat, s: nat :: FreeChunk(h, a, s) ==> s < nb
  }

  /** No free chunk that is big enough is smaller than cs. */
  ghost predicate Smallest(h: Heap, cs: nat, nb: nat) {
    forall a: nat, s: nat :: FreeChunk(h, a, s) && s >= nb ==> cs <= s
  }

  /** A request of nb was met from the top chunk, because nothing else fits. */
  ghost predicate FromTop(h: Heap, h': Heap, p: nat, nb: nat) {
    && NothingFits(h, nb) && p == h.top && nb < h.topsize && h' == UseTop(h, nb)
    && Allocated(h, h', p, nb)
    && (forall a: nat, s: nat :: FreeChunk(h', a, s) <==> FreeChunk(h, a, s))
    && h'.base == h.base && h'.top == h.top + nb && h'.topsize == h.topsize - nb
  }

  /** What a successful request of nb bytes did: mem is the user area of a new live chunk. */
  ghost predicate Met(h: Heap, h': Heap, mem: nat, cs: nat, nb: nat) {
    && mem >= 8 && mem % 8 == 0 && RequestOk(nb)
    && (if cs == 0 then FromTop(h, h', mem - 8, nb) else Carved(h, h', mem - 8, cs, nb))
    && (cs > 0 && nb >= MIN_LARGE_SIZE ==> Smallest(h, cs, nb))
  }

  lemma MetAt(h: Heap, h': Heap, p: nat, cs: nat, nb: nat)
    requires HeapOk(h') && RequestOk(nb)
    requires if cs == 0 then FromTop(h, h', p, nb) else Carved(h, h', p, cs, nb)
    requires cs > 0 && nb >= MIN_LARGE_SIZE ==> Smallest(h, cs, nb)
    ensures Met(h, h', p + 8, cs, nb)
  {
    assert LiveChunk(h', p, if cs == 0 then nb else CarvedSize(cs, nb));
    assert ChunkOk(h', p);
  }

  /** A free chunk other than the designated victim has exactly this size. */
  ghost predicate ExactFit(a: MallocState, s: nat) {
    exists x: nat :: x != a.dv && FreeChunk(a.h, x, s)
  }

  /**
   Which free chunk a request of nb bytes gets.  A small one: a chunk of exactly
   that size, else one of 8 bytes more if that is a small size too, else the
   designated victim if it is big enough, else a smallest chunk that is; among
   small chunks of equal size, the one binned last.  A large one: a smallest
   chunk that is big enough, the designated victim if that is one.
   */
  ghost predicate Chosen(a: MallocState, p: nat, cs: nat, nb: nat) {
    && (if nb >= MIN_LARGE_SIZE then Smallest(a.h, cs, nb) && (a.dvsize == cs ==> p == a.dv)
        else if ExactFit(a, nb) then cs == nb && p != a.dv
        else if nb + 8 < MIN_LARGE_SIZE && ExactFit(a, nb + 8) then cs == nb + 8 && p != a.dv
        else if a.dvsize >= nb then cs == a.dvsize && p == a.dv
        else Smallest(a.h, cs, nb))
    && (cs < MIN_LARGE_SIZE && p != a.dv ==> IsFirst(a.b, p, cs))
  }

  /** p is at the head of the small bin for s. */
  predicate IsFirst(b: Bins, p: nat, s: nat) {
    s / 8 < |b.small| && b.small[s / 8] != [] && b.small[s / 8][0] == p
  }

  /** A small size has an exact fit exactly if its bin is marked. */
  lemma MarkedIffExact(a: MallocState, s: nat)
    requires StateOk(a) && 0 < s < MIN_LARGE_SIZE && s % 8 == 0
    ensures ExactFit(a, s) <==> s / 8 in a.b.smallmap
  {
    if s / 8 in a.b.smallmap {
      var x := a.b.small[s / 8][0];
      assert Holds(a.b, x, s);
      BinnedOnce(a.h, a.b, a.dv, a.dvsize, x, s);
      FreeIsKept(a.h, a.b, a.dv, a.dvsize, x, s);
    }
    if ExactFit(a, s) {
      var x: nat :| x != a.dv && FreeChunk(a.h, x, s);
      FreeIsKept(a.h, a.b, a.dv, a.dvsize, x, s);
    }
  }

  /** The first small bin that is not empty has a smallest fit. */
  lemma FirstBinIsSmallest(a: MallocState, i: nat, nb: nat)
    requires StateOk(a) && a.dvsize < nb && nb / 8 <= i < NSMALLBINS && forall j :: nb / 8 <= j < i ==> a.b.small[j] == []
    ensures Smallest(a.h, i * 8, nb)
  {
    forall x: nat, s: nat | FreeChunk(a.h, x, s) && s >= nb ensures i * 8 <= s {
      assert Kept(a.b, a.dv, a.dvsize, x, s);
      if s < MIN_LARGE_SIZE { assert a.b.small[s / 8] != []; }
    }
  }

  /** Without small bins that fit, a smallest chunk of the trees is a smallest fit. */
  lemma TreeIsSmallest(a: MallocState, cs: nat, nb: nat)
    requires StateOk(a) && a.dvsize < nb && forall j :: nb / 8 <= j < NSMALLBINS ==> a.b.small[j] == []
    requires forall x: nat, s: nat :: Holds(a.b, x, s) && s >= nb && s >= MIN_LARGE_SIZE ==> cs <= s
    ensures Smallest(a.h, cs, nb)
  {
    forall x: nat, s: nat | FreeChunk(a.h, x, s) && s >= nb ensures cs <= s {
      assert Kept(a.b, a.dv, a.dvsize, x, s);
    }
  }

  /** The head of a marked bin is a free chunk, and not the designated victim. */
  lemma HeadOfBin(a: MallocState, i: nat)
    requires StateOk(a) && i in a.b.smallmap
    ensures i < NSMALLBINS && a.b.small[i] != [] && Holds(a.b, a.b.small[i][0], i * 8)
    ensures i > 0 && a.b.small[i][0] > 0 && a.b.small[i][0] != a.dv
  {
    var p := a.b.small[i][0];
    assert i * 8 / 8 == i;
    BinnedOnce(a.h, a.b, a.dv, a.dvsize, p, i * 8);
    FreeFacts(a.h, p, i * 8);
    FreeIsKept(a.h, a.b, a.dv, a.dvsize, p, i * 8);
  }

  lemma ChoseExact(a: MallocState, i: nat, nb: nat)
    requires StateOk(a) && RequestOk(nb) && nb < MIN_LARGE_SIZE && i in a.b.smallmap
    requires i == nb / 8 || (i == nb / 8 + 1 && nb / 8 !in a.b.smallmap)
    ensures i < NSMALLBINS && a.b.small[i] != [] && Chosen(a, a.b.small[i][0], i * 8, nb)
  {
    HeadOfBin(a, i);
    MarkedIffExact(a, nb);
    if i != nb / 8 { MarkedIffExact(a, nb + 8); }
  }

  /** Neither of the two bins that fit without a remainder has a chunk. */
  lemma NoExactFit(a: MallocState, nb: nat)
    requires StateOk(a) && RequestOk(nb) && nb < MIN_LARGE_SIZE && nb / 8 !in a.b.smallmap && nb / 8 + 1 !in a.b.smallmap
    ensures !ExactFit(a, nb) && (nb + 8 < MIN_LARGE_SIZE ==> !ExactFit(a, nb + 8))
  {
    MarkedIffExact(a, nb);
    if nb + 8 < MIN_LARGE_SIZE { MarkedIffExact(a, nb + 8); }
  }

  /**
   Where the rest of chunk p goes: what is left of the designated victim stays
   the designated victim; what is left of another chunk becomes it if the
   request was small, and goes into a bin if it was large.
   */
  ghost predicate RestKept(a: MallocState, a': MallocState, p: nat, cs: nat, nb: nat) {
    if cs >= nb + 16 && (p == a.dv || nb < MIN_LARGE_SIZE) then a'.dv == p + nb && a'.dvsize == cs - nb
    else if p == a.dv then a'.dv == 0 && a'.dvsize == 0
    else a'.dv == a.dv && a'.dvsize == a.dvsize
  }

  lemma TakenRest(a: MallocState, p: nat, cs: nat, nb: nat)
    requires CanTake(a, p, cs, nb)
    ensures RestKept(a, Taken(a, p, cs, nb), p, cs, nb)
  {
  }

  /**
   Where a freed chunk goes once it is merged: into the top chunk, or it is the
   designated victim if that was one of its neighbours, or it is the first of
   its bin.
   */
  ghost predicate FreedKept(a: MallocState, a': MallocState, p: nat) {
    var lo, size := Lo(a.h, p), Hi(a.h, p) - Lo(a.h, p);
    if Hi(a.h, p) == a.h.top then
      if lo == a.dv then a'.dv == 0 && a'.dvsize == 0 else a'.dv == a.dv && a'.dvsize == a.dvsize
    else if lo == a.dv || Next(a.h, p) == a.dv then a'.dv == lo && a'.dvsize == size
    else a'.dv == a.dv && a'.dvsize == a.dvsize && (0 <= size < MIN_LARGE_SIZE ==> IsFirst(a'.b, lo, size))
  }

  lemma GivenRest(a: MallocState, p: nat)
    requires CanFree(a, p)
    ensures FreedKept(a, Given(a, p), p)
  {
    FreedArenaShape(a.h, p);
    MergedBinsOk(a, p);
  }

  /** The event that the results of a request stand for. */
  ghost function EventOf(mem: nat, cs: nat, nb: nat): Event {
    if mem < 8 then Refused else if cs == 0 then Cut(mem - 8, nb) else Took(mem - 8, cs, nb)
  }

  /** Free chunk p, of size cs, was used for nb bytes, in the segment and in the bins. */
  ghost predicate Used(a: MallocState, a': MallocState, p: nat, cs: nat, nb: nat) {
    Carved(a.h, a'.h, p, cs, nb) && Step(a, a', Took(p, cs, nb))
  }

  lemma CanTakeBinned(a: MallocState, p: nat, cs: nat, nb: nat)
    requires StateOk(a) && Holds(a.b, p, cs) && RequestOk(nb) && nb <= cs
    requires nb < MIN_LARGE_SIZE && nb + MIN_CHUNK_SIZE <= cs ==> a.dvsize < nb
    ensures CanTake(a, p, cs, nb) && p != a.dv && cs < SIZE_LIMIT && BinsInv(UnlinkChunk(a.b, p, cs))
    ensures p in a.h.head && a.h.head[p].size == cs && p + cs in a.h.head
  {
    Unbinned(a.h, a.b, a.dv, a.dvsize, p, cs);
    FreeIsKept(a.h, a.b, a.dv, a.dvsize, p, cs);
    FreeFacts(a.h, p, cs);
  }

  class Arena {
    var head: map<nat, Head>
    var foot: map<nat, nat>
    var top: nat
    var topsize: nat
    var bins: Bins
    var dv: nat
    var dvsize: nat
    ghost const base: nat
    ghost var chunks: set<nat>

    ghost function View(): Heap
      reads this
    {
      Heap(base, head, foot, chunks, top, topsize)
    }

    ghost function Now(): MallocState
      reads this
    {
      MallocState(View(), bins, dv, dvsize)
    }

    ghost predicate Valid()
      reads this
    {
      ArenaOk(View(), bins, dv, dvsize)
    }

    /** A fresh segment: one top chunk. */
    constructor (start: nat, size: nat)
      requires start > 0 && start % 8 == 0 && start + size < SIZE_LIMIT
      ensures Valid() && View().base == start && View().top == start && View().topsize == size
      ensures forall a: nat, s: nat :: !LiveChunk(View(), a, s)
    {
      head := map[start := Head(size, true, false)];
      foot := map[];
      top, topsize := start, size;
      bins := EmptyBins();
      dv, dvsize := 0, 0;
      base := start;
      chunks := {};
      new;
      EmptyBinsOk();
    }

    // ----- Steps of malloc -----------------------------------------------

    /** set_inuse_and_pinuse */
    method SetInuseAndPinuse(p: nat, s: nat)
      requires p in head && head[p].size == s > 0 && p + s in head
      modifies `head
      ensures View() == UseWhole(old(View()), p)
    {
      head := head[p := Head(s, true, true)];
      head := head[p + s := head[p + s].(pinuse := true)];
    }

    /** set_size_and_pinuse_of_inuse_chunk on the front, set_size_and_pinuse_of_free_chunk on the rest. */
    method SplitChunk(p: nat, nb: nat, rsize: nat)
      requires p in head && head[p].size == nb + rsize
      modifies `head, `foot, `chunks
      ensures View() == UseFront(old(View()), p, nb)
    {
      var r := p + nb;
      head := head[p := Head(nb, true, true)];
      head := head[r := Head(rsize, true, false)];
      foot := foot[r + rsize := rsize];
      chunks := chunks + {r};
    }

    /** Use binned chunk p without a remainder. */
    method TakeWhole(p: nat, cs: nat, nb: nat)
      requires Valid() && Holds(bins, p, cs) && RequestOk(nb) && nb <= cs < nb + MIN_CHUNK_SIZE
      modifies this
      ensures Valid() && Used(old(Now()), Now(), p, cs, nb)
    {
      ghost var a := Now();
      CanTakeBinned(a, p, cs, nb);
      TakenOk(a, p, cs, nb);
      bins := UnlinkChunk(bins, p, cs);
      SetInuseAndPinuse(p, cs);
    }

    /** Use the front of binned chunk p for a small request; the rest replaces the designated victim. */
    method TakeFrontKeepDv(p: nat, cs: nat, nb: nat)
      requires Valid() && Holds(bins, p, cs) && RequestOk(nb) && nb + MIN_CHUNK_SIZE <= cs && dvsize < nb < MIN_LARGE_SIZE
      modifies this
      ensures Valid() && Used(old(Now()), Now(), p, cs, nb)
    {
      ghost var a := Now();
      CanTakeBinned(a, p, cs, nb);
      TakenOk(a, p, cs, nb);
      FrontSmall(a, p, cs, nb);
      SplitIntoDv(p, cs, nb);
    }

    method SplitIntoDv(p: nat, cs: nat, nb: nat)
      requires BinsInv(bins) && nb <= cs < SIZE_LIMIT && BinsInv(UnlinkChunk(bins, p, cs)) && dvsize < MIN_LARGE_SIZE
      requires p in head && head[p].size == cs
      modifies this
      ensures Now() == MallocState(UseFront(old(View()), p, nb),
                                   ReplacedBins(UnlinkChunk(old(bins), p, cs), old(dv), old(dvsize)), p + nb, cs - nb)
    {
      bins := UnlinkChunk(bins, p, cs);
      if dvsize != 0 {
        bins := InsertSmall(bins, dv, dvsize);
      }
      dv, dvsize := p + nb, cs - nb;
      SplitChunk(p, nb, cs - nb);
    }

    /** Use the front of binned chunk p for a large request; the rest goes into a bin. */
    method TakeFrontBinRest(p: nat, cs: nat, nb: nat)
      requires Valid() && Holds(bins, p, cs) && RequestOk(nb) && MIN_LARGE_SIZE <= nb && nb + MIN_CHUNK_SIZE <= cs
      modifies this
      ensures Valid() && Used(old(Now()), Now(), p, cs, nb)
    {
      ghost var a := Now();
      CanTakeBinned(a, p, cs, nb);
      TakenOk(a, p, cs, nb);
      FrontLarge(a, p, cs, nb);
      SplitIntoBin(p, cs, nb);
    }

    method SplitIntoBin(p: nat, cs: nat, nb: nat)
      requires BinsInv(bins) && nb <= cs < SIZE_LIMIT && BinsInv(UnlinkChunk(bins, p, cs))
      requires p in head && head[p].size == cs
      modifies this
      ensures Now() == old(Now()).(h := UseFront(old(View()), p, nb),
                                   b := InsertChunk(UnlinkChunk(old(bins), p, cs), p + nb, cs - nb))
    {
      bins := UnlinkChunk(bins, p, cs);
      bins := InsertChunk(bins, p + nb, cs - nb);
      SplitChunk(p, nb, cs - nb);
    }

    /** Use the designated victim. */
    method TakeDv(nb: nat) returns (p: nat)
      requires Valid() && RequestOk(nb) && nb <= dvsize
      modifies this
      ensures Valid() && p == old(dv) && Used(old(Now()), Now(), p, old(dvsize), nb)
    {
      ghost var a := Now();
      DvIsFree(View(), bins, dv, dvsize);
      FreeFacts(View(), dv, dvsize);
      TakenOk(a, dv, dvsize, nb);
      p := dv;
      var rsize := dvsize - nb;
      if rsize >= MIN_CHUNK_SIZE {
        dv, dvsize := p + nb, rsize;
        SplitChunk(p, nb, rsize);
      } else {
        var dvs := dvsize;
        dv, dvsize := 0, 0;
        SetInuseAndPinuse(p, dvs);
      }
    }

    /** Use the front of the top chunk. */
    method TakeTop(nb: nat) returns (p: nat)
      requires Valid() && RequestOk(nb) && nb < topsize && NothingFits(View(), nb)
      modifies this
      ensures Valid() && FromTop(old(View()), View(), p, nb) && Now() == old(Now()).(h := View())
    {
      TopArena(View(), bins, dv, dvsize, nb);
      p := top;
      topsize := topsize - nb;
      top := p + nb;
      head := head[top := Head(topsize, true, false)];
      head := head[p := Head(nb, true, true)];
      chunks := chunks + {p};
      assert View() == UseTop(old(View()), nb);
    }

    // ----- malloc --------------------------------------------------------

    /** tmalloc_small: split the smallest chunk of the trees. */
    method TmallocSmall(nb: nat) returns (p: nat, ghost cs: nat)
      requires Valid() && RequestOk(nb) && dvsize < nb < MIN_LARGE_SIZE && bins.treemap != {}
      requires forall j :: nb / 8 <= j < NSMALLBINS ==> bins.small[j] == []
      modifies this
      ensures Valid() && p > 0 && cs > 0 && Used(old(Now()), Now(), p, cs, nb)
      ensures cs >= MIN_LARGE_SIZE && Smallest(old(View()), cs, nb)
    {
      var v, rsize := SearchSmall(bins.tree, bins.treemap, nb);
      BestIsSmallest(bins, nb, v);
      p, cs := v.ring[0], v.size;
      TreeIsSmallest(Now(), cs, nb);
      BinnedPositive(View(), bins, dv, dvsize, p, cs);
      if rsize < MIN_CHUNK_SIZE {
        TakeWhole(p, rsize + nb, nb);
      } else {
        TakeFrontKeepDv(p, rsize + nb, nb);
      }
    }

    /** tmalloc_large: the best fit of the trees, unless the designated victim fits at least as well. */
    method TmallocLarge(nb: nat) returns (p: nat, ghost cs: nat)
      requires Valid() && RequestOk(nb) && MIN_LARGE_SIZE <= nb < SIZE_LIMIT
      modifies this
      ensures Valid()
      ensures p == 0 ==> View() == old(View()) && bins == old(bins) && dv == old(dv) && dvsize == old(dvsize)
      ensures p == 0 ==> (if dvsize < nb then NothingFits(View(), nb) else Smallest(View(), dvsize, nb))
      ensures p != 0 ==> cs > 0 && Used(old(Now()), Now(), p, cs, nb) && Chosen(old(Now()), p, cs, nb)
    {
      var v, rsize := SearchLarge(bins.tree, bins.treemap, nb);
      BestIsSmallest(bins, nb, v);
      LargeChoice(View(), bins, dv, dvsize, nb, v);
      if v != Nil && rsize < Remainder(dvsize, nb) {
        p, cs := v.ring[0], v.size;
        BinnedPositive(View(), bins, dv, dvsize, p, cs);
        if rsize < MIN_CHUNK_SIZE {
          TakeWhole(p, rsize + nb, nb);
        } else {
          TakeFrontBinRest(p, rsize + nb, nb);
        }
      } else {
        p, cs := 0, 0;
      }
    }

    /** A small bin whose chunks fit without a remainder. */
    method MallocExact(idx: nat, nb: nat) returns (p: nat, ghost cs: nat)
      requires Valid() && RequestOk(nb) && nb < MIN_LARGE_SIZE && idx in bins.smallmap
      requires idx == nb / 8 || (idx == nb / 8 + 1 && nb / 8 !in bins.smallmap)
      modifies this
      ensures Valid() && p != 0 && cs > 0 && Used(old(Now()), Now(), p, cs, nb) && Chosen(old(Now()), p, cs, nb)
    {
      HeadOfBin(Now(), idx);
      ChoseExact(Now(), idx, nb);
      p, cs := bins.small[idx][0], idx * 8;
      TakeWhole(p, idx * 8, nb);
    }

    /** The next small bin, or else the trees. */
    method MallocSplit(nb: nat) returns (p: nat, ghost cs: nat)
      requires Valid() && RequestOk(nb) && dvsize < nb < MIN_LARGE_SIZE
      requires nb / 8 !in bins.smallmap && nb / 8 + 1 !in bins.smallmap
      modifies this
      ensures Valid()
      ensures p == 0 ==> Now() == old(Now()) && NothingFits(View(), nb)
      ensures p != 0 ==> cs > 0 && Used(old(Now()), Now(), p, cs, nb) && Chosen(old(Now()), p, cs, nb)
    {
      NoExactFit(Now(), nb);
      p, cs := 0, 0;
      var i := NextSmallBin(bins, nb / 8);
      if i < NSMALLBINS {
        HeadOfBin(Now(), i);
        FirstBinIsSmallest(Now(), i, nb);
        p, cs := bins.small[i][0], i * 8;
        TakeFrontKeepDv(p, i * 8, nb);
      } else if bins.treemap != {} {
        p, cs := TmallocSmall(nb);
      } else {
        EmptyBinsNothingFits(View(), bins, dv, dvsize, nb);
      }
    }

    /** The small-request part of dlmalloc that looks beyond the designated victim. */
    method MallocSmall(nb: nat) returns (p: nat, ghost cs: nat)
      requires Valid() && RequestOk(nb) && nb < MIN_LARGE_SIZE
      modifies this
      ensures Valid()
      ensures p == 0 ==> Now() == old(Now())
      ensures p == 0 ==> if dvsize < nb then NothingFits(View(), nb) else Chosen(Now(), dv, dvsize, nb)
      ensures p != 0 ==> cs > 0 && Used(old(Now()), Now(), p, cs, nb) && Chosen(old(Now()), p, cs, nb)
    {
      var idx := nb / 8;
      p, cs := 0, 0;
      if idx in bins.smallmap || idx + 1 in bins.smallmap {
        if idx !in bins.smallmap {
          idx := idx + 1;
        }
        p, cs := MallocExact(idx, nb);
      } else if nb > dvsize {
        p, cs := MallocSplit(nb);
      } else {
        NoExactFit(Now(), nb);
      }
    }

    /** The end of dlmalloc: the designated victim, or else the top chunk, or else nothing. */
    method MallocDvOrTop(nb: nat) returns (p: nat, ghost cs: nat)
      requires Valid() && (RequestOk(nb) || nb == SIZE_LIMIT - 1)
      requires dvsize < nb ==> NothingFits(View(), nb)
      modifies this
      ensures Valid()
      ensures p == 0 ==> View() == old(View()) && bins == old(bins) && dv == old(dv) && dvsize == old(dvsize)
      ensures p == 0 ==> NothingFits(View(), nb) && topsize <= nb
      ensures p != 0 ==> RequestOk(nb)
      ensures p != 0 && cs == 0 ==> FromTop(old(View()), View(), p, nb) && Now() == old(Now()).(h := View())
      ensures p != 0 && cs > 0 ==> cs == old(dvsize) >= nb && p == old(dv) && Used(old(Now()), Now(), p, cs, nb)
    {
      DvIsFree(View(), bins, dv, dvsize);
      p, cs := 0, 0;
      if nb <= dvsize {
        cs := dvsize;
        p := TakeDv(nb);
      } else if nb < topsize {
        p := TakeTop(nb);
      }
    }

    /**
     dlmalloc.  A request is met from a free chunk, of size cs, or from the top
     chunk, and fails only if neither can hold it; a large request gets the
     smallest free chunk that fits.
     */
    method Malloc(bytes: nat) returns (mem: nat, ghost cs: nat)
      requires Valid()
      modifies this
      ensures Valid()
      ensures mem == 0 ==> View() == old(View()) && bins == old(bins) && dv == old(dv) && dvsize == old(dvsize)
      ensures mem == 0 ==> NothingFits(View(), ChunkSize(bytes)) && topsize <= ChunkSize(bytes)
      ensures mem != 0 ==> Met(old(View()), View(), mem, cs, ChunkSize(bytes))
      ensures mem != 0 && cs > 0 ==> Chosen(old(Now()), mem - 8, cs, ChunkSize(bytes))
      ensures mem != 0 && cs > 0 ==> RestKept(old(Now()), Now(), mem - 8, cs, ChunkSize(bytes))
      ensures mem != 0 && cs == 0 ==> bins == old(bins) && dv == old(dv) && dvsize == old(dvsize)
      ensures Step(old(Now()), Now(), EventOf(mem, cs, ChunkSize(bytes)))
    {
      var nb := ChunkSize(bytes);
      ghost var a := Now();
      var p;
      p, cs := MallocChunk(bytes, nb);
      mem := 0;
      if p != 0 {
        MetAt(a.h, View(), p, cs, nb);
        if cs > 0 { TakenRest(a, p, cs, nb); }
        mem := p + 8;
      }
    }

    /** dlmalloc, as far as the chunk: bins and trees by size of the request, then the designated victim or the top chunk. */
    method MallocChunk(bytes: nat, nb: nat) returns (p: nat, ghost cs: nat)
      requires Valid() && nb == ChunkSize(bytes)
      modifies this
      ensures Valid()
      ensures p == 0 ==> Now() == old(Now()) && NothingFits(View(), nb) && topsize <= nb
      ensures p != 0 ==> RequestOk(nb)
      ensures p != 0 && cs == 0 ==> FromTop(old(View()), View(), p, nb) && Now() == old(Now()).(h := View())
      ensures p != 0 && cs > 0 ==> Used(old(Now()), Now(), p, cs, nb) && Chosen(old(Now()), p, cs, nb)
    {
      p, cs := 0, 0;
      if bytes <= MAX_SMALL_REQUEST {
        p, cs := MallocSmall(nb);
      } else if bytes < MAX_REQUEST {
        p, cs := TmallocLarge(nb);
      } else {
        NothingIsThatBig(View(), nb);
      }
      if p == 0 {
        p, cs := MallocDvOrTop(nb);
      }
    }

    // ----- free ----------------------------------------------------------

    /** Consolidate backward: where the merged chunk starts, with the chunk there out of the bins. */
    method MergeBack(p: nat) returns (lo: nat)
      requires CanFree(Now(), p)
      modifies `bins
      ensures lo == Lo(View(), p) && bins == BackBins(old(Now()), p)
    {
      LoFacts(View(), p);
      lo := p;
      if !head[p].pinuse {
        var prevsize := foot[p];
        lo := p - prevsize;
        if lo != dv {
          FreeFacts(View(), lo, prevsize);
          bins := UnlinkChunk(bins, lo, prevsize);
        }
      }
    }

    /** set_free_with_pinuse, or set_size_and_pinuse_of_free_chunk where the bit is already clear. */
    method SetFree(p: nat, lo: nat, n: nat)
      requires lo == Lo(View(), p) < n == Hi(View(), p) < top && n in head
      modifies `head, `foot, `chunks
      ensures View() == Freed(old(View()), p)
    {
      chunks := chunks - Gone(View(), p);
      head := head[lo := Head(n - lo, true, false)];
      if head[n].pinuse {
        head := head[n := head[n].(pinuse := false)];
      }
      foot := foot[n := n - lo];
    }

    /** The merged chunk joins the top chunk. */
    method MergeIntoTop(ghost a: MallocState, p: nat, lo: nat)
      requires CanFree(a, p) && Now() == a.(b := MergedBins(a, p))
      requires lo == Lo(a.h, p) < Hi(a.h, p) == top && top in head
      modifies `head, `top, `topsize, `chunks, `dv, `dvsize
      ensures Now() == Given(a, p)
    {
      chunks := chunks - Gone(View(), p) - {lo};
      topsize := topsize + (top - lo);
      top := lo;
      head := head[lo := Head(topsize, true, false)];
      if lo == dv {
        dv, dvsize := 0, 0;
      }
    }

    /** The merged chunk is the designated victim. */
    method MergeIntoDv(ghost a: MallocState, p: nat, lo: nat, end: nat)
      requires CanFree(a, p) && Now() == a.(b := MergedBins(a, p))
      requires lo == Lo(a.h, p) < end == Hi(a.h, p) < top && end in head && (dv == lo || dv == Next(a.h, p))
      modifies `head, `foot, `chunks, `dv, `dvsize
      ensures Now() == Given(a, p)
    {
      dv, dvsize := lo, end - lo;
      SetFree(p, lo, end);
    }

    /** The merged chunk goes into a bin. */
    method MergeIntoBin(ghost a: MallocState, p: nat, lo: nat, end: nat)
      requires CanFree(a, p) && Now() == a.(b := MergedBins(a, p))
      requires lo == Lo(a.h, p) < end == Hi(a.h, p) < top && end in head && dv != lo && dv != Next(a.h, p)
      modifies `head, `foot, `chunks, `bins
      ensures Now() == Given(a, p)
    {
      IntoBin(a, p);
      SetFree(p, lo, end);
      bins := InsertChunk(bins, lo, end - lo);
    }

    /** Consolidate forward with a binned chunk: take it out of its bin. */
    method UnlinkNext(ghost a: MallocState, p: nat, next: nat)
      requires CanFree(a, p) && Now() == a.(b := BackBins(a, p))
      requires next == Next(a.h, p) && next in a.h.chunks && !Inuse(a.h, next) && next != dv
      modifies `bins
      ensures bins == MergedBins(a, p)
    {
      NextBinned(a, p);
      var nsize := head[next].size;
      bins := UnlinkChunk(bins, next, nsize);
    }

    /**
     dlfree: the chunk and the free chunks around it become one free chunk, or
     join the top chunk; nothing else changes.
     */
    method Free(mem: nat)
      requires Valid() && (mem != 0 ==> mem >= 8 && mem - 8 in chunks && Inuse(View(), mem - 8))
      modifies this
      ensures Valid()
      ensures mem == 0 ==> View() == old(View()) && bins == old(bins) && dv == old(dv) && dvsize == old(dvsize)
      ensures mem != 0 ==> Released(old(View()), View(), mem - 8)
      ensures mem != 0 ==> FreedKept(old(Now()), Now(), mem - 8)
      ensures Step(old(Now()), Now(), if mem == 0 then Refused else Gave(mem - 8))
    {
      if mem != 0 {
        ghost var a := Now();
        FreeChunkAt(mem - 8);
        GivenRest(a, mem - 8);
      }
    }

    method FreeChunkAt(p: nat)
      requires CanFree(Now(), p)
      modifies this
      ensures Valid() && Released(old(View()), View(), p) && Step(old(Now()), Now(), Gave(p))
    {
      ghost var a := Now();
      FreedArenaShape(a.h, p);
      GivenOk(a, p);
      var next := p + head[p].size;
      var lo := MergeBack(p);
      if lo == dv && head[next].cinuse {
        MergeIntoDv(a, p, lo, next);
      } else if !head[next].cinuse {
        if next == top {
          MergeIntoTop(a, p, lo);
        } else if next == dv {
          MergeIntoDv(a, p, lo, next + head[next].size);
        } else {
          var end := next + head[next].size;
          UnlinkNext(a, p, next);
          if lo == dv {
            MergeIntoDv(a, p, lo, end);
          } else {
            MergeIntoBin(a, p, lo, end);
          }
        }
      } else {
        InuseIsNotDv(a.h, a.b, a.dv, a.dvsize, next);
        MergeIntoBin(a, p, lo, next);
      }
    }
  }

  // ----- What the searches leave out --------------------------------------

  /** A binned chunk is not at address 0. */
  lemma BinnedPositive(h: Heap, b: Bins, dv: nat, dvsize: nat, p: nat, s: nat)
    requires ArenaOk(h, b, dv, dvsize) && Holds(b, p, s)
    ensures p > 0 && s > 0
  {
    BinnedOnce(h, b, dv, dvsize, p, s);
    FreeFacts(h, p, s);
  }

  /** MAX_SIZE_T exceeds every free chunk. */
  lemma NothingIsThatBig(h: Heap, nb: nat)
    requires HeapOk(h) && h.top < SIZE_LIMIT && nb == SIZE_LIMIT - 1
    ensures NothingFits(h, nb)
  {
    forall a: nat, s: nat | FreeChunk(h, a, s) ensures s < nb { FreeFacts(h, a, s); }
  }

  /** If nothing in the bins is big enough and the designated victim is not either, nothing fits. */
  lemma NotKeptNotFree(h: Heap, b: Bins, dv: nat, dvsize: nat, nb: nat)
    requires ArenaOk(h, b, dv, dvsize) && dvsize < nb
    requires forall a: nat, s: nat :: Holds(b, a, s) ==> s < nb
    ensures NothingFits(h, nb)
  {
    forall a: nat, s: nat | FreeChunk(h, a, s) ensures s < nb {
      assert Kept(b, dv, dvsize, a, s);
    }
  }

  lemma EmptyBinsNothingFits(h: Heap, b: Bins, dv: nat, dvsize: nat, nb: nat)
    requires ArenaOk(h, b, dv, dvsize) && dvsize < nb < MIN_LARGE_SIZE && nb % 8 == 0
    requires b.treemap == {} && forall j :: nb / 8 <= j < NSMALLBINS ==> b.small[j] == []
    ensures NothingFits(h, nb)
  {
    assert forall i :: 0 <= i < NTREEBINS ==> b.tree[i] == Nil;
    NotKeptNotFree(h, b, dv, dvsize, nb);
  }

  /** Preferring the better of the trees' best fit and the designated victim is a best fit overall. */
  lemma LargeChoice(h: Heap, b: Bins, dv: nat, dvsize: nat, nb: nat, v: Tree)
    requires ArenaOk(h, b, dv, dvsize) && MIN_LARGE_SIZE <= nb < SIZE_LIMIT
    requires v.Node? ==> v.ring != [] && Holds(b, v.ring[0], v.size) && v.size >= nb
    requires forall a: nat, s: nat :: Holds(b, a, s) && s >= nb && s >= MIN_LARGE_SIZE ==> v.Node? && v.size <= s
    ensures v.Node? && v.size - nb < Remainder(dvsize, nb) ==> Smallest(h, v.size, nb)
    ensures !(v.Node? && v.size - nb < Remainder(dvsize, nb)) && dvsize < nb ==> NothingFits(h, nb)
    ensures !(v.Node? && v.size - nb < Remainder(dvsize, nb)) && dvsize >= nb ==> Smallest(h, dvsize, nb)
  {
    forall a: nat, s: nat | FreeChunk(h, a, s) && s >= nb
      ensures (v.Node? && v.size <= s) || (dvsize >= nb && dvsize == s)
    {
      assert Kept(b, dv, dvsize, a, s);
    }
  }
}
