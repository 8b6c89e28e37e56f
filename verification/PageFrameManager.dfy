/**
 page_frame_manager_c (src/kernel/memory_manager/page_frame_manager.cpp): the
 regions of physical memory, a bitmap of regions worth searching, and the
 allocation and release of lists of single frames.
 */
module PageFrameManager {
  import opened Arith
  import opened Bitmap
  import opened Buddy
  import opened PageFrameRegion

  const REGION_COUNT_MAX: nat := 1024

  /** The clear bits of every pool of every region; a missing region has no pools. */
  type FreeMap = seq<Pools>

  function RegionOf(a: nat): nat { a / REGION_SIZE }
  function FrameOf(a: nat): nat { (a % REGION_SIZE) / PAGE_SIZE }

  ghost predicate IsFree(F: FreeMap, a: nat) {
    a % PAGE_SIZE == 0 && RegionOf(a) < |F| && FreeIn(F[RegionOf(a)], FrameOf(a))
  }

  ghost predicate Takes(F: FreeMap, F': FreeMap, frame: nat) {
    && IsFree(F, frame)
    && forall a :: IsFree(F', a) <==> IsFree(F, a) && a != frame
  }

  /** The regions before r have nothing free. */
  ghost predicate NoneBelow(F: FreeMap, r: nat) {
    forall a: nat :: IsFree(F, a) ==> r <= RegionOf(a)
  }

  /** If everything crossed out is exhausted, the least region that is offered comes before all free frames. */
  lemma LeastOffered(F: FreeMap, crossed: seq<bv32>, r: nat)
    requires forall s, g :: 0 <= s < |F| && SetIn(crossed, s) ==> !FreeIn(F[s], g)
    requires forall s: nat :: s < r ==> SetIn(crossed, s)
    ensures NoneBelow(F, r)
  {
    forall a: nat | IsFree(F, a) ensures r <= RegionOf(a) {
      assert FreeIn(F[RegionOf(a)], FrameOf(a));
    }
  }

  lemma AddressSplit(a: nat, r: nat, f: nat)
    requires f < FRAMES && a == r * REGION_SIZE + f * PAGE_SIZE
    ensures RegionOf(a) == r && FrameOf(a) == f && a % PAGE_SIZE == 0
  {
  }

  lemma AddressJoin(a: nat)
    requires a % PAGE_SIZE == 0
    ensures a == RegionOf(a) * REGION_SIZE + FrameOf(a) * PAGE_SIZE && FrameOf(a) < FRAMES
  {
  }

  lemma SingleBlock(f: nat, g: nat)
    ensures SameBlock(0, f, g) <==> f == g
  {
    Powers();
  }

  /** Taking frame f out of region r takes its address out of the free map. */
  lemma TakesOne(F: FreeMap, F': FreeMap, r: nat, f: nat)
    requires r < |F| && |F'| == |F| && f < FRAMES
    requires F' == F[r := F'[r]] && Removed(F[r], F'[r], 0, f)
    ensures Takes(F, F', r * REGION_SIZE + f * PAGE_SIZE)
  {
    var frame := r * REGION_SIZE + f * PAGE_SIZE;
    AddressSplit(frame, r, f);
    SingleBlock(f, f);
    forall a: nat ensures IsFree(F', a) <==> IsFree(F, a) && a != frame {
      SingleBlock(f, FrameOf(a));
      if a % PAGE_SIZE == 0 { AddressJoin(a); }
    }
  }

  lemma GivesOne(F: FreeMap, F': FreeMap, r: nat, f: nat)
    requires r < |F| && |F'| == |F| && f < FRAMES
    requires F' == F[r := F'[r]]
    requires forall g :: FreeIn(F'[r], g) <==> FreeIn(F[r], g) || SameBlock(0, f, g)
    ensures forall a :: IsFree(F', a) <==> IsFree(F, a) || a == r * REGION_SIZE + f * PAGE_SIZE
  {
    var frame := r * REGION_SIZE + f * PAGE_SIZE;
    AddressSplit(frame, r, f);
    SingleBlock(f, f);
    forall a: nat ensures IsFree(F', a) <==> IsFree(F, a) || a == frame {
      SingleBlock(f, FrameOf(a));
      if a % PAGE_SIZE == 0 { AddressJoin(a); }
    }
  }

  lemma NoneFreeInRegion(P: Pools)
    requires forall k :: 0 <= k < |P| ==> P[k] == {}
    ensures forall g :: !FreeIn(P, g)
  {
  }

  /** What a region answers to a request for one frame, seen from all regions. */
  lemma TakesAnswer(F: FreeMap, F': FreeMap, r: nat, block: nat)
    requires r < |F| && |F'| == |F| && F' == F[r := F'[r]] && Answers(F[r], F'[r], r * REGION_SIZE, 1, block)
    ensures block == INVALID_FRAME ==> F' == F && forall g :: !FreeIn(F[r], g)
    ensures block != INVALID_FRAME ==> Takes(F, F', block) && RegionOf(block) == r
  {
    if block == INVALID_FRAME {
      NoneFreeInRegion(F[r]);
    } else {
      var f: nat, i: nat :| f < FRAMES && block == r * REGION_SIZE + f * PAGE_SIZE &&
        Picks(F[r], 0, i, f) && Removed(F[r], F'[r], 0, f);
      TakesOne(F, F', r, f);
      AddressSplit(block, r, f);
    }
  }

  /** No two regions share a bitmap. */
  ghost predicate Separate(region: seq<Region?>) {
    forall r, s, i ::
      (0 <= r < |region| && 0 <= s < |region| && r != s && region[r] != null && region[s] != null && 0 <= i < |region[s].pool|)
      ==> region[s].pool[i] !in region[r].pool
  }

  predicate Managed(region: seq<Region?>, a: nat) {
    a % PAGE_SIZE == 0 && RegionOf(a) < |region| && region[RegionOf(a)] != null
  }

  /** Every managed frame is either free or held, and never both. */
  ghost predicate Accounts(region: seq<Region?>, F: FreeMap, held: set<nat>) {
    && (forall a: nat :: Managed(region, a) <==> IsFree(F, a) || a in held)
    && (forall a: nat :: a in held ==> !IsFree(F, a))
  }

  lemma AccountsTake(region: seq<Region?>, F: FreeMap, F': FreeMap, held: set<nat>, frame: nat)
    requires Accounts(region, F, held) && Takes(F, F', frame)
    ensures frame !in held && Accounts(region, F', held + {frame})
  {
  }

  lemma AccountsGive(region: seq<Region?>, F: FreeMap, F': FreeMap, held: set<nat>, frame: nat)
    requires Accounts(region, F, held) && frame in held
    requires forall a :: IsFree(F', a) <==> IsFree(F, a) || a == frame
    ensures Accounts(region, F', held - {frame})
  {
  }

  lemma AllFree(region: seq<Region?>, F: FreeMap, first: nat, last: nat)
    requires |region| == |F| == REGION_COUNT_MAX
    requires forall r :: 0 <= r < |region| ==> (region[r] != null <==> first <= r < last)
    requires forall r, g: nat :: 0 <= r < |region| && region[r] != null && g < FRAMES ==> FreeIn(F[r], g)
    requires forall r :: 0 <= r < |region| && region[r] == null ==> F[r] == []
    ensures Accounts(region, F, {})
    ensures forall a: nat :: Managed(region, a) ==> IsFree(F, a)
  {
    forall a: nat ensures Managed(region, a) <==> IsFree(F, a) {
      if a % PAGE_SIZE == 0 { AddressJoin(a); }
    }
  }

  /** Region number r, with all of its frames free. */
  ghost predicate Carved(region: Region, r: nat)
    reads region.pool
  {
    region.base == r * REGION_SIZE && region.Valid() && forall g: nat :: g < FRAMES ==> FreeIn(region.Free(), g)
  }

  class Manager {
    const region: seq<Region?>
    const regionMap: Bitmap1024
    ghost const Repr: set<object>

    /** Frames handed out and not given back. */
    ghost var held: set<nat>

    ghost predicate Owns(r: nat)
      requires r < |region| && region[r] != null
      reads Repr
    {
      && region[r].base == r * REGION_SIZE
      && (forall b :: b in region[r].pool ==> b in Repr && b != regionMap)
      && region[r].Valid()
    }

    ghost predicate Shaped()
      reads Repr
    {
      && |region| == REGION_COUNT_MAX && Separate(region)
      && regionMap in Repr && this !in Repr
      && regionMap.size == REGION_COUNT_MAX && regionMap.Valid()
      && (forall r :: 0 <= r < |region| && region[r] != null ==> Owns(r))
    }

    ghost function FreeAt(r: nat): Pools
      requires Shaped() && r < |region|
      reads Repr
    {
      if region[r] == null then [] else assert Owns(r); region[r].Free()
    }

    ghost function Free(): FreeMap
      requires Shaped()
      reads Repr
    {
      seq(|region|, r requires 0 <= r < |region| && Shaped() reads Repr => FreeAt(r))
    }

    /** A region offered by the map exists; one crossed out has nothing free, except perhaps region x. */
    ghost predicate MapOk(x: nat)
      requires Shaped()
      reads Repr
    {
      && (forall r :: 0 <= r < |region| && !SetIn(regionMap.child, r) ==> region[r] != null)
      && (forall r, g :: 0 <= r < |region| && r != x && SetIn(regionMap.child, r) ==> !FreeIn(Free()[r], g))
    }

    ghost predicate Valid()
      reads this, Repr
    {
      && Shaped() && MapOk(REGION_COUNT_MAX)
      && Accounts(region, Free(), held)
    }

    constructor (first: nat, last: nat)
      requires 0 < first <= last <= REGION_COUNT_MAX
      ensures Valid() && held == {} && fresh(Repr)
      ensures forall a: nat :: Managed(region, a) <==> a % PAGE_SIZE == 0 && first <= RegionOf(a) < last
      ensures forall a: nat :: Managed(region, a) ==> IsFree(Free(), a)
    {
      var marks := new Bitmap1024(REGION_COUNT_MAX);
      var regions, parts := NewRegions(first, last);
      region, regionMap, Repr, held := regions, marks, parts + {marks}, {};
      new;
      forall r | 0 <= r < |region| && region[r] != null ensures Owns(r) {
        assert Carved(region[r], r);
      }
      AllFree(region, Free(), first, last);
      MarkRegions(first, last);
    }

    /** Mask off the ranges of the map that have no region. */
    method MarkRegions(first: nat, last: nat)
      requires Shaped() && first <= last <= REGION_COUNT_MAX
      requires forall r: nat :: r < REGION_COUNT_MAX ==> !SetIn(regionMap.child, r)
      requires forall r :: 0 <= r < |region| ==> (region[r] != null <==> first <= r < last)
      modifies regionMap
      ensures Shaped() && Free() == old(Free()) && MapOk(REGION_COUNT_MAX)
    {
      ghost var F := Free();
      ghost var c0 := regionMap.child;
      regionMap.SetRange(0, first);
      ghost var c1 := regionMap.child;
      regionMap.SetRange(last, REGION_COUNT_MAX - last);
      assert forall r: nat :: r < REGION_COUNT_MAX ==> (SetIn(regionMap.child, r) <==> r < first || last <= r) by {
        assert Changes(c0, c1, 0, first, true) && Changes(c1, regionMap.child, last, REGION_COUNT_MAX - last, true);
      }
      forall r | 0 <= r < |region| && region[r] != null ensures Owns(r) && region[r].Free() == F[r] {
      }
      assert Free() == F;
    }

    /** The loop of the constructor that carves memory into regions. */
    static method NewRegions(first: nat, last: nat) returns (regions: seq<Region?>, ghost parts: set<object>)
      requires 0 < first <= last <= REGION_COUNT_MAX
      ensures |regions| == REGION_COUNT_MAX && Separate(regions) && fresh(parts)
      ensures forall r :: 0 <= r < |regions| ==> (regions[r] != null <==> first <= r < last)
      ensures forall r :: first <= r < last ==> Carved(regions[r], r)
      ensures forall r, i :: first <= r < last && 0 <= i < |regions[r].pool| ==> regions[r].pool[i] in parts
    {
      regions := seq(REGION_COUNT_MAX, _ => null);
      parts := {};
      var base := first * REGION_SIZE;
      for n := first to last
        invariant |regions| == REGION_COUNT_MAX && base == n * REGION_SIZE && Separate(regions) && fresh(parts)
        invariant forall r :: 0 <= r < |regions| ==> (regions[r] != null <==> first <= r < n)
        invariant forall r :: first <= r < n ==> Carved(regions[r], r)
        invariant forall r, i :: first <= r < n && 0 <= i < |regions[r].pool| ==> regions[r].pool[i] in parts
      {
        var next := new Region(base);
        regions := regions[n := next];
        parts := parts + set b | b in next.pool;
        base := base + REGION_SIZE;
      }
    }

    // ----- One bitmap, one region ----------------------------------------

    /** region_map.allocate() */
    method NextRegion() returns (r: nat)
      requires Shaped() && MapOk(REGION_COUNT_MAX)
      modifies regionMap
      ensures Shaped() && Free() == old(Free()) && MapOk(r)
      ensures r < REGION_COUNT_MAX ==> region[r] != null && SetIn(regionMap.child, r)
      ensures r < REGION_COUNT_MAX ==> ClearBits(regionMap.child) < old(ClearBits(regionMap.child))
      ensures r < REGION_COUNT_MAX ==> NoneBelow(Free(), r)
      ensures r >= REGION_COUNT_MAX ==> MapOk(REGION_COUNT_MAX) && forall a :: !IsFree(Free(), a)
    {
      ghost var before, F := regionMap.child, Free();
      r := regionMap.Allocate();
      if exists i: nat :: i < REGION_COUNT_MAX && !SetIn(before, i) {
        assert r in ClearBits(before) && r !in ClearBits(regionMap.child);
        LeastOffered(F, before, r);
      }
    }

    /** region_map.free() */
    method OfferRegion(r: nat)
      requires Shaped() && r < |region| && region[r] != null && MapOk(r)
      modifies regionMap
      ensures Shaped() && Free() == old(Free()) && MapOk(REGION_COUNT_MAX)
    {
      regionMap.Free(r);
    }

    /** A change inside region r alone shows in no other region. */
    twostate lemma OnlyRegion(r: nat)
      requires old(Shaped()) && r < |region| && region[r] != null && region[r].Valid()
      requires forall b :: b in Repr && b !in region[r].pool ==> unchanged(b)
      ensures Shaped() && Free() == old(Free())[r := region[r].Free()] && regionMap.child == old(regionMap.child)
    {
      assert old(Owns(r));
      assert unchanged(regionMap);
      forall s | 0 <= s < |region| && region[s] != null
        ensures Owns(s) && (s != r ==> region[s].Free() == old(region[s].Free()))
      {
        assert old(Owns(s));
        if s != r {
          assert forall i :: 0 <= i < |region[s].pool| ==> region[s].pool[i] !in region[r].pool;
        }
      }
    }

    method AllocateInRegion(r: nat) returns (block: nat)
      requires Shaped() && r < |region| && region[r] != null && MapOk(r)
      modifies region[r].pool
      ensures Shaped() && MapOk(r) && regionMap.child == old(regionMap.child)
      ensures block == INVALID_FRAME ==> Free() == old(Free()) && MapOk(REGION_COUNT_MAX)
      ensures block != INVALID_FRAME ==> Takes(old(Free()), Free(), block) && RegionOf(block) == r
    {
      assert Owns(r);
      ghost var F := Free();
      block := region[r].AllocateBlock(1);
      OnlyRegion(r);
      TakesAnswer(F, Free(), r, block);
    }

    method FreeInRegion(frame: nat)
      requires Shaped() && MapOk(REGION_COUNT_MAX) && Managed(region, frame) && !IsFree(Free(), frame)
      modifies region[RegionOf(frame)].pool
      ensures Shaped() && MapOk(RegionOf(frame)) && regionMap.child == old(regionMap.child)
      ensures forall a :: IsFree(Free(), a) <==> IsFree(old(Free()), a) || a == frame
    {
      var r := RegionOf(frame);
      assert Owns(r);
      ghost var F := Free();
      AddressJoin(frame);
      ghost var f := FrameOf(frame);
      forall g ensures SameBlock(0, f, g) <==> f == g { SingleBlock(f, g); }
      region[r].FreeBlock(frame, 1);
      OnlyRegion(r);
      GivesOne(F, Free(), r, f);
    }

    // ----- Allocation and release of single frames -----------------------

    /** allocate_block(1): search the regions the map offers, crossing out the exhausted ones. */
    method AllocateBlock() returns (block: nat)
      requires Shaped() && MapOk(REGION_COUNT_MAX)
      modifies Repr
      ensures Shaped() && MapOk(REGION_COUNT_MAX)
      ensures block == INVALID_FRAME ==> Free() == old(Free()) && forall a :: !IsFree(Free(), a)
      ensures block != INVALID_FRAME ==> Takes(old(Free()), Free(), block) && NoneBelow(old(Free()), RegionOf(block))
    {
      block := INVALID_FRAME;
      while true
        invariant Shaped() && MapOk(REGION_COUNT_MAX) && Free() == old(Free()) && block == INVALID_FRAME
        decreases ClearBits(regionMap.child)
      {
        var r := NextRegion();
        if r < REGION_COUNT_MAX {
          assert Owns(r);
          block := AllocateInRegion(r);
          if block != INVALID_FRAME {
            OfferRegion(r);
            break;
          }
        } else {
          break;
        }
      }
    }

    /** allocate_block(1), with the frame now held by the caller. */
    method AllocateFrame() returns (block: nat)
      requires Valid()
      modifies this`held, Repr
      ensures Valid()
      ensures block == INVALID_FRAME ==> Free() == old(Free()) && held == old(held) && forall a :: !IsFree(Free(), a)
      ensures block != INVALID_FRAME ==>
                && Takes(old(Free()), Free(), block) && NoneBelow(old(Free()), RegionOf(block))
                && block !in old(held) && held == old(held) + {block}
    {
      ghost var F := Free();
      block := AllocateBlock();
      if block != INVALID_FRAME {
        AccountsTake(region, F, Free(), held, block);
        held := held + {block};
      }
    }

    /** Give the frame back to its region and offer that region again. */
    method ReturnFrame(frame: nat)
      requires Shaped() && MapOk(REGION_COUNT_MAX) && Managed(region, frame) && !IsFree(Free(), frame)
      modifies Repr
      ensures Shaped() && MapOk(REGION_COUNT_MAX)
      ensures forall a :: IsFree(Free(), a) <==> IsFree(old(Free()), a) || a == frame
    {
      assert Owns(RegionOf(frame));
      FreeInRegion(frame);
      OfferRegion(RegionOf(frame));
    }

    method FreeFrame(frame: nat)
      requires Valid() && frame in held
      modifies this`held, Repr
      ensures Valid() && held == old(held) - {frame}
    {
      assert Managed(region, frame);
      ghost var F := Free();
      ReturnFrame(frame);
      AccountsGive(region, F, Free(), held, frame);
      held := held - {frame};
    }

    /** free_frames: entries that were never allocated are skipped. */
    method FreeFrames(frame: array<nat>, frameCount: nat)
      requires Valid() && frameCount <= frame.Length && frame !in Repr
      requires Returnable(frame[..frameCount], held)
      modifies this`held, Repr
      ensures Valid() && held == old(held) - Listed(frame[..frameCount])
    {
      for i := 0 to frameCount
        invariant Valid() && held == old(held) - Listed(frame[..i])
      {
        assert frame[..i + 1] == frame[..i] + [frame[i]];
        if frame[i] == INVALID_FRAME { continue; }
        assert frame[i] == frame[..frameCount][i];
        assert forall j :: 0 <= j < i ==> frame[..i][j] == frame[..frameCount][j];
        FreeFrame(frame[i]);
      }
    }

    /** allocate_discontiguous_frames: the first n entries are allocated, the rest are untouched. */
    method AllocateDiscontiguousFrames(frame: array<nat>, frameCount: nat) returns (ok: bool, ghost n: nat)
      requires Valid() && frameCount <= frame.Length && frame !in Repr
      requires forall j :: 0 <= j < frameCount ==> frame[j] == INVALID_FRAME
      modifies this`held, Repr, frame
      ensures Valid() && n <= frameCount && (ok <==> n == frameCount)
      ensures Handed(old(held), frame[..n], held)
      ensures forall i :: n <= i < frameCount ==> frame[i] == INVALID_FRAME
      ensures !ok ==> forall a :: !IsFree(Free(), a)
    {
      ok := true;
      n := 0;
      var i := 0;
      while i < frameCount
        invariant i <= frameCount && n == i && ok && Valid()
        invariant Handed(old(held), frame[..i], held)
        invariant forall j :: i <= j < frameCount ==> frame[j] == INVALID_FRAME
      {
        ghost var given, before := frame[..i], held;
        var block := AllocateFrame();
        if block == INVALID_FRAME {
          ok := false;
          break;
        }
        HandedOneMore(old(held), given, before, block);
        frame[i] := block;
        assert frame[..i + 1] == given + [block];
        i := i + 1;
        n := n + 1;
      }
    }

    method Invalidate(frame: array<nat>, frameCount: nat)
      requires frameCount <= frame.Length
      modifies frame
      ensures forall j :: 0 <= j < frameCount ==> frame[j] == INVALID_FRAME
    {
      for i := 0 to frameCount
        invariant forall j :: 0 <= j < i ==> frame[j] == INVALID_FRAME
      {
        frame[i] := INVALID_FRAME;
      }
    }

    /**
     allocate_frames without a DMA flag.  It fails only when fewer frames are
     free than were asked for, and then takes none.
     */
    method AllocateFrames(frame: array<nat>, frameCount: nat) returns (ok: bool)
      requires Valid() && frameCount <= frame.Length && frame !in Repr
      modifies this`held, Repr, frame
      ensures Valid()
      ensures ok ==> frameCount > 0 && Handed(old(held), frame[..frameCount], held)
      ensures !ok ==> held == old(held)
      ensures !ok && frameCount > 0 ==> exists all: seq<nat> :: |all| < frameCount && HasAllFree(all, old(Free()))
    {
      ok := false;
      if frameCount > 0 {
        Invalidate(frame, frameCount);
        ok := AllocateAll(frame, frameCount);
      }
    }

    method AllocateAll(frame: array<nat>, frameCount: nat) returns (ok: bool)
      requires Valid() && frameCount <= frame.Length && frame !in Repr
      requires forall j :: 0 <= j < frameCount ==> frame[j] == INVALID_FRAME
      modifies this`held, Repr, frame
      ensures Valid()
      ensures ok ==> Handed(old(held), frame[..frameCount], held)
      ensures !ok ==> held == old(held)
      ensures !ok ==> exists all: seq<nat> :: |all| < frameCount && HasAllFree(all, old(Free()))
    {
      ghost var F := Free();
      ghost var n;
      ok, n := AllocateDiscontiguousFrames(frame, frameCount);
      if !ok {
        ghost var given := frame[..n];
        assert HasAllFree(given, F) by { AllWereHanded(region, F, old(held), given, Free(), held); }
        GiveAllBack(frame, frameCount, old(held), n);
      }
    }

    /** After a failure: free_frames on the n frames that were allocated and the rest, which was not. */
    method GiveAllBack(frame: array<nat>, frameCount: nat, ghost before: set<nat>, ghost n: nat)
      requires Valid() && n <= frameCount <= frame.Length && frame !in Repr
      requires Handed(before, frame[..n], held) && forall i :: n <= i < frameCount ==> frame[i] == INVALID_FRAME
      modifies this`held, Repr
      ensures Valid() && held == before
    {
      assert frame[..frameCount][..n] == frame[..n];
      HandedReturnable(before, frame[..frameCount], n, held);
      FreeFrames(frame, frameCount);
    }
  }

  /** The list has every frame that is free. */
  ghost predicate HasAllFree(frames: seq<nat>, F: FreeMap) {
    forall a :: IsFree(F, a) ==> a in frames
  }

  /** The valid frames of a list. */
  ghost function Listed(frames: seq<nat>): set<nat> {
    set x: nat | x in frames && x != INVALID_FRAME
  }

  /** The caller got these frames: distinct, none of them held by anyone before. */
  ghost predicate Handed(before: set<nat>, frames: seq<nat>, after: set<nat>) {
    && (forall x: nat :: x in after <==> x in before || x in frames)
    && (forall x: nat :: x in frames ==> x !in before && x != INVALID_FRAME)
    && (forall i, j :: 0 <= i < j < |frames| ==> frames[i] != frames[j])
  }

  /** The frames a caller may give back: held, and each listed once. */
  ghost predicate Returnable(frames: seq<nat>, held: set<nat>) {
    && (forall i :: 0 <= i < |frames| && frames[i] != INVALID_FRAME ==> frames[i] in held)
    && (forall i, j :: 0 <= i < j < |frames| && frames[i] != INVALID_FRAME ==> frames[i] != frames[j])
  }

  lemma HandedOneMore(before: set<nat>, frames: seq<nat>, after: set<nat>, block: nat)
    requires Handed(before, frames, after) && block !in after && block != INVALID_FRAME
    ensures Handed(before, frames + [block], after + {block})
  {
  }

  /** What a failed request got so far can be given back, and then nothing is held that was not before. */
  lemma HandedReturnable(before: set<nat>, frames: seq<nat>, n: nat, after: set<nat>)
    requires n <= |frames| && Handed(before, frames[..n], after)
    requires forall i :: n <= i < |frames| ==> frames[i] == INVALID_FRAME
    ensures Returnable(frames, after) && after - Listed(frames) == before
  {
    var given := frames[..n];
    assert forall i :: 0 <= i < n ==> given[i] == frames[i] && given[i] in given;
    forall x: nat ensures x in Listed(frames) <==> x in given {
      if x in given {
        var i :| 0 <= i < n && given[i] == x;
        assert frames[i] == x;
      }
    }
    forall x: nat ensures x in after - Listed(frames) <==> x in before {
    }
  }

  /** When nothing is left, everything that was free went to the caller. */
  lemma AllWereHanded(region: seq<Region?>, F: FreeMap, before: set<nat>, frames: seq<nat>, F': FreeMap, after: set<nat>)
    requires Accounts(region, F, before) && Accounts(region, F', after)
    requires Handed(before, frames, after) && forall a :: !IsFree(F', a)
    ensures forall a :: IsFree(F, a) ==> a in frames
  {
  }
}
