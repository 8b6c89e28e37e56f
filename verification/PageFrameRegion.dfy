/**
 page_frame_region_c: one buddy allocator over 1024 frames, in the form the
 source has it, with one bitmap per block order.
 */
module PageFrameRegion {
  import opened Arith
  import opened Bitmap32
  import opened Bitmap
  import opened Buddy

  const PAGE_SIZE: nat := 4096
  const REGION_SIZE: nat := 4096 * 1024
  const INVALID_FRAME: nat := 0

  /** calculate_order: the smallest order whose blocks hold frameCount frames. */
  function OrderFor(frameCount: nat): (k: nat)
    requires 0 < frameCount <= 64
    ensures k < ORDERS && frameCount <= Pow2(k) && (k > 0 ==> Pow2(k - 1) < frameCount)
  {
    Powers();
    if frameCount <= 1 then 0 else if frameCount <= 2 then 1 else if frameCount <= 4 then 2
    else if frameCount <= 8 then 3 else if frameCount <= 16 then 4 else if frameCount <= 32 then 5 else 6
  }

  function ClearBits(child: seq<bv32>): set<nat> {
    set f: nat | f < FRAMES && !SetIn(child, f)
  }

  /** One free block of the largest order every 64 frames, below n. */
  ghost function LargestBlocks(n: nat): Pools {
    seq(ORDERS, i => if i == 6 then set f: nat | f < n && f % 64 == 0 else {})
  }

  lemma NoBlocks(P: Pools)
    requires |P| == ORDERS && forall k :: 0 <= k < ORDERS ==> P[k] == {}
    ensures P == LargestBlocks(0)
  {
    assert LargestBlocks(0)[6] == {};
  }

  lemma LargestBlocksNext(n: nat)
    requires n % 64 == 0
    ensures LargestBlocks(n + 64) == Add(LargestBlocks(n), 6, n)
  {
    assert LargestBlocks(n + 64)[6] == LargestBlocks(n)[6] + {n};
  }

  class Region {
    const base: nat
    const pool: seq<Bitmap1024>

    ghost predicate Shaped()
      reads pool
    {
      && |pool| == ORDERS
      && (forall i, j :: 0 <= i < j < ORDERS ==> pool[i] != pool[j])
      && (forall i :: 0 <= i < ORDERS ==> pool[i].size == FRAMES && pool[i].Valid())
      && base > 0
    }

    /** The clear bits of each pool. */
    ghost function Free(): Pools
      reads pool
    {
      seq(|pool|, i requires 0 <= i < |pool| reads pool => ClearBits(pool[i].child))
    }

    ghost predicate Valid()
      reads pool
    {
      Shaped() && PoolsOk(Free()) && Coalesced(Free())
    }

    // ----- One bit of one pool -------------------------------------------

    method ClearBit(k: nat, f: nat)
      requires Shaped() && k < ORDERS && f < FRAMES
      modifies pool
      ensures Shaped() && Free() == Add(old(Free()), k, f)
    {
      pool[k].Free(f);
      assert Free()[k] == old(Free()[k]) + {f};
    }

    method SetBit(k: nat, f: nat)
      requires Shaped() && k < ORDERS && f < FRAMES
      modifies pool
      ensures Shaped() && Free() == Drop(old(Free()), k, f)
    {
      pool[k].Set(f);
      assert Free()[k] == old(Free()[k]) - {f};
    }

    method TakeBit(k: nat) returns (f: nat)
      requires Shaped() && k < ORDERS
      modifies pool
      ensures Shaped()
      ensures old(Free())[k] == {} ==> f == NONE && Free() == old(Free())
      ensures old(Free())[k] != {} ==> f < FRAMES && f in old(Free())[k] && Free() == Drop(old(Free()), k, f)
      ensures old(Free())[k] != {} ==> forall g :: g in old(Free())[k] ==> f <= g
    {
      ghost var before := ClearBits(pool[k].child);
      if before != {} {
        ghost var g :| g in before;
        assert !SetIn(pool[k].child, g);
      } else {
        assert forall i: nat :: i < FRAMES && !SetIn(pool[k].child, i) ==> i in before;
      }
      f := pool[k].Allocate();
      if before != {} {
        assert Free()[k] == before - {f};
      } else {
        assert forall i: nat :: i < FRAMES ==> i !in before;
      }
    }

    // ----- The allocator -------------------------------------------------

    constructor (regionBase: nat)
      requires regionBase > 0
      ensures Valid() && base == regionBase && fresh(pool)
      ensures Free() == LargestBlocks(FRAMES) && forall g: nat :: g < FRAMES ==> FreeIn(Free(), g)
    {
      base := regionBase;
      var bitmaps := NewBitmaps();
      pool := bitmaps;
      new;
      FillPools();
      FreeLargestBlocks();
    }

    /** The member array of bitmaps, as it is before the constructor body runs. */
    static method NewBitmaps() returns (bitmaps: seq<Bitmap1024>)
      ensures |bitmaps| == ORDERS && fresh(bitmaps)
      ensures forall i, j :: 0 <= i < j < ORDERS ==> bitmaps[i] != bitmaps[j]
      ensures forall i :: 0 <= i < ORDERS ==> bitmaps[i].size == FRAMES && bitmaps[i].Valid()
    {
      bitmaps := [];
      while |bitmaps| < ORDERS
        invariant |bitmaps| <= ORDERS && fresh(bitmaps)
        invariant forall i, j :: 0 <= i < j < |bitmaps| ==> bitmaps[i] != bitmaps[j]
        invariant forall i :: 0 <= i < |bitmaps| ==> bitmaps[i].size == FRAMES && bitmaps[i].Valid()
      {
        var b := new Bitmap1024(FRAMES);
        bitmaps := bitmaps + [b];
      }
    }

    /** The first loop of the constructor: every bit of every pool is set. */
    method FillPools()
      requires Shaped()
      modifies pool
      ensures Shaped() && forall k :: 0 <= k < ORDERS ==> Free()[k] == {}
    {
      var i := 0;
      while i < ORDERS
        invariant i <= ORDERS && Shaped()
        invariant forall k :: 0 <= k < i ==> Free()[k] == {}
      {
        ghost var before := Free();
        pool[i].SetRange(0, FRAMES);
        assert forall k :: 0 <= k < ORDERS && k != i ==> Free()[k] == before[k];
        i := i + 1;
      }
    }

    /** The second loop: one free block of the largest order every 64 frames. */
    method FreeLargestBlocks()
      requires Shaped() && forall k :: 0 <= k < ORDERS ==> Free()[k] == {}
      modifies pool
      ensures Valid() && Free() == LargestBlocks(FRAMES) && forall g: nat :: g < FRAMES ==> FreeIn(Free(), g)
    {
      Powers();
      assert PoolsOk(Free());
      NoBlocks(Free());
      var i := 0;
      while i < FRAMES
        invariant i <= FRAMES && i % 64 == 0 && Valid() && Free() == LargestBlocks(i)
        invariant forall g: nat :: FreeIn(Free(), g) <==> g < i
        decreases FRAMES - i
      {
        AddBlock(Free(), 6, i);
        ClearBit(6, i);
        LargestBlocksNext(i);
        i := i + 64;
      }
    }

    /**
     A block of the order the request rounds up to, or INVALID_FRAME when no
     block of that order or a larger one is free.
     */
    method AllocateBlock(frameCount: nat) returns (frame: nat)
      requires Valid() && 0 < frameCount <= 64
      modifies pool
      ensures Valid()
      ensures Answers(old(Free()), Free(), base, frameCount, frame)
    {
      frame := INVALID_FRAME;
      var order := OrderFor(frameCount);
      var i := order;
      while i < ORDERS
        invariant order <= i <= ORDERS && Valid() && Free() == old(Free())
        invariant forall k :: order <= k < i ==> Free()[k] == {}
      {
        var f := TakeBit(i);
        if f < FRAMES {
          if i > order {
            Split(f, order, i);
          }
          TakenBySplit(old(Free()), Free(), f, order, i);
          SplitKeepsCoalesced(old(Free()), Free(), order, i, f);
          frame := base + f * PAGE_SIZE;
          return;
        }
        i := i + 1;
      }
    }

    method Split(f: nat, requested: nat, actual: nat)
      requires Shaped() && f < FRAMES && requested < actual < ORDERS
      modifies pool
      ensures Shaped() && Free() == SplitSpec(old(Free()), f, requested, actual)
    {
      var order := actual - 1;
      while order >= requested
        invariant requested - 1 <= order < actual && Shaped()
        invariant SplitSpec(Free(), f, requested, order + 1) == SplitSpec(old(Free()), f, requested, actual)
      {
        BuddyBounds(f, order);
        var buddy := BuddyIndex(f, order);
        ClearBit(order, buddy);
        order := order - 1;
      }
    }

    /** Give back a block that is held as a whole. */
    method FreeBlock(frame: nat, frameCount: nat)
      requires Valid() && 0 < frameCount <= 64
      requires base <= frame < base + REGION_SIZE && (frame - base) % PAGE_SIZE == 0
      requires BlockHeld(Free(), OrderFor(frameCount), (frame - base) / PAGE_SIZE)
      modifies pool
      ensures Valid()
      ensures var k, f := OrderFor(frameCount), (frame - base) / PAGE_SIZE;
              && (exists j: nat :: Merges(old(Free()), Free(), f, k, j))
              && Free() == JoinSpec(Add(old(Free()), k, f), f, k)
              && forall g :: FreeIn(Free(), g) <==> FreeIn(old(Free()), g) || SameBlock(k, f, g)
    {
      var f := (frame - base) / PAGE_SIZE;
      var order := OrderFor(frameCount);
      ghost var P := Free();
      AddBlock(P, order, f);
      ClearBit(order, f);
      JoinKeepsFrames(Free(), f, order);
      Join(f, order);
      HeldIsNowhere(P, order, f);
      ghost var j := JoinMerges(P, f, order);
      MergesKeepsCoalesced(P, Free(), f, order, j);
    }

    method Join(f: nat, from: nat)
      requires Shaped() && f < FRAMES && from < ORDERS
      modifies pool
      ensures Shaped() && Free() == JoinSpec(old(Free()), f, from)
    {
      var order := from;
      while order < ORDERS - 1
        invariant from <= order < ORDERS && Shaped()
        invariant JoinSpec(Free(), f, order) == JoinSpec(old(Free()), f, from)
      {
        BuddyBounds(f, order);
        var buddy := BuddyIndex(f, order);
        assert buddy in Free()[order] <==> !pool[order].IsSet(buddy);
        if !pool[order].IsSet(buddy) {
          SetBit(order, f);
          SetBit(order, buddy);
          ClearBit(order + 1, f);
        } else {
          break;
        }
        order := order + 1;
      }
    }
  }

  lemma HeldIsNowhere(P: Pools, k: nat, f: nat)
    requires BlockHeld(P, k, f)
    ensures forall i :: 0 <= i < |P| ==> f !in P[i]
  {
    assert SameBlock(k, f, f);
    forall i | 0 <= i < |P| ensures f !in P[i] {
      assert f in P[i] ==> InFree(P, i, f, f);
    }
  }

  /** A request for some frames, and their release if there were any, leave the region as it was. */
  method AllocateAndFree(region: Region, frameCount: nat) returns (frame: nat)
    requires region.Valid() && 0 < frameCount <= 64
    modifies region.pool
    ensures region.Valid() && region.Free() == old(region.Free())
  {
    ghost var P := region.Free();
    frame := region.AllocateBlock(frameCount);
    if frame != INVALID_FRAME {
      ghost var P', k := region.Free(), OrderFor(frameCount);
      ghost var f: nat, i: nat :| f < FRAMES && frame == region.base + f * PAGE_SIZE && TakesAt(P, P', k, i, f);
      assert (frame - region.base) / PAGE_SIZE == f && (frame - region.base) % PAGE_SIZE == 0;
      region.FreeBlock(frame, frameCount);
      ghost var j: nat :| Merges(P', region.Free(), f, k, j);
      SplitThenMerge(P, P', region.Free(), k, i, f, j);
    }
  }

  /**
   What a request does: it takes exactly the block around the index that is
   picked, or changes nothing because no pool of a sufficient order has a block.
   */
  ghost predicate Answers(P: Pools, P': Pools, base: nat, frameCount: nat, frame: nat)
    requires 0 < frameCount <= 64
  {
    var k := OrderFor(frameCount);
    if frame == INVALID_FRAME then P' == P && forall j :: k <= j < |P| ==> P[j] == {}
    else exists f: nat, i: nat :: f < FRAMES && frame == base + f * PAGE_SIZE && TakesAt(P, P', k, i, f)
  }

  /** The index f of pool i is picked, and its block cut down to order k. */
  ghost predicate TakesAt(P: Pools, P': Pools, k: nat, i: nat, f: nat) {
    Picks(P, k, i, f) && P' == SplitSpec(Drop(P, i, f), f, k, i) && Removed(P, P', k, f)
  }

  /**
   The caller of a contiguous request uses the frameCount frames from the one it
   is given.  The request has taken all of them exactly if its index, the least
   clear one of the first non-empty pool before the call, leaves room for them
   up to the end of its block.
   */
  lemma AnswerIsContiguousIff(P: Pools, P': Pools, base: nat, frameCount: nat, frame: nat) returns (i: nat, f: nat)
    requires 0 < frameCount <= 64 && frame != INVALID_FRAME && Answers(P, P', base, frameCount, frame)
    ensures frame == base + f * PAGE_SIZE && Picks(P, OrderFor(frameCount), i, f)
    ensures (forall g: nat :: f <= g < f + frameCount ==> FreeIn(P, g) && !FreeIn(P', g)) <==>
            f % Pow2(OrderFor(frameCount)) + frameCount <= Pow2(OrderFor(frameCount))
  {
    var k := OrderFor(frameCount);
    f, i :| f < FRAMES && frame == base + f * PAGE_SIZE && TakesAt(P, P', k, i, f);
    ServesIff(f, frameCount, k);
    forall g: nat ensures FreeIn(P, g) && !FreeIn(P', g) <==> SameBlock(k, f, g) {
      assert FreeIn(P', g) <==> FreeIn(P, g) && !SameBlock(k, f, g);
    }
  }

  /** Exactly the block of order k around f, free before, is gone. */
  ghost predicate Removed(P: Pools, P': Pools, k: nat, f: nat) {
    && (forall g :: SameBlock(k, f, g) ==> FreeIn(P, g))
    && (forall g :: FreeIn(P', g) <==> FreeIn(P, g) && !SameBlock(k, f, g))
  }

  lemma TakenBySplit(P: Pools, P': Pools, f: nat, lo: nat, hi: nat)
    requires PoolsOk(P) && Picks(P, lo, hi, f) && P' == SplitSpec(Drop(P, hi, f), f, lo, hi)
    ensures PoolsOk(P') && TakesAt(P, P', lo, hi, f)
  {
    DropBlock(P, hi, f);
    assert forall g :: SameBlock(hi, f, g) ==> InFree(P, hi, f, g);
    SplitFrees(Drop(P, hi, f), f, lo, hi);
    forall g ensures SameBlock(lo, f, g) ==> SameBlock(hi, f, g) {
      if SameBlock(lo, f, g) { Nested(lo, hi, f, g); }
    }
  }

  /** The pools before a request determine its answer. */
  lemma AnswerIs(P: Pools, P': Pools, base: nat, frameCount: nat, frame: nat, i: nat, f: nat)
    requires 0 < frameCount <= 64 && base > 0 && Answers(P, P', base, frameCount, frame)
    requires Picks(P, OrderFor(frameCount), i, f)
    ensures frame == base + f * PAGE_SIZE && TakesAt(P, P', OrderFor(frameCount), i, f)
  {
    var k := OrderFor(frameCount);
    var h: nat, j: nat :| h < FRAMES && frame == base + h * PAGE_SIZE && TakesAt(P, P', k, j, h);
    assert i == j && f == h;
  }
}
