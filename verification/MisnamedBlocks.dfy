/**
 A run of page_frame_region_c (src/kernel/memory_manager/page_frame_region.cpp)
 on a new region that ends with a contiguous request answered with a frame that
 is still free.
 */
module MisnamedBlocks {
  import opened Arith
  import opened Buddy
  import opened PageFrameRegion

  /** The pools of a new region of whose first four frames only some are free. */
  ghost function Pools4(ones: set<nat>, twos: set<nat>): Pools {
    [ones, twos, {4}, {8}, {16}, {32}, LargestBlocks(FRAMES)[6] - {0}]
  }

  // ----- Splitting block 0 down to one frame -----------------------------

  lemma SplitOnce(P: Pools, k: nat)
    requires |P| == ORDERS && k < ORDERS && P[k] == {}
    ensures SplitSpec(P, 0, 0, k + 1) == SplitSpec(P[k := {Pow2(k)}], 0, 0, k)
  {
    BuddyValue(0, k);
    assert P[k] + {Pow2(k)} == {Pow2(k)};
  }

  lemma SplitTwice(P: Pools, k: nat)
    requires |P| == ORDERS && k + 1 < ORDERS && P[k] == {} && P[k + 1] == {}
    ensures SplitSpec(P, 0, 0, k + 2) == SplitSpec(P[k + 1 := {Pow2(k + 1)}][k := {Pow2(k)}], 0, 0, k)
  {
    SplitOnce(P, k + 1);
    SplitOnce(P[k + 1 := {Pow2(k + 1)}], k);
  }

  lemma FirstSplit(P: Pools)
    requires P == LargestBlocks(FRAMES)
    ensures SplitSpec(Drop(P, 6, 0), 0, 0, 6) == Pools4({1}, {2})
  {
    Powers();
    var P6 := Drop(P, 6, 0);
    SplitTwice(P6, 4);
    var P4 := P6[5 := {32}][4 := {16}];
    SplitTwice(P4, 2);
    var P2 := P4[3 := {8}][2 := {4}];
    SplitTwice(P2, 0);
    assert P2[1 := {2}][0 := {1}] == Pools4({1}, {2});
  }

  // ----- The five calls --------------------------------------------------

  lemma FirstTaken(P: Pools, P': Pools, base: nat, frame: nat)
    requires P == LargestBlocks(FRAMES) && base > 0 && Answers(P, P', base, 1, frame)
    ensures frame == base && P' == Pools4({1}, {2}) && !FreeIn(P', 0)
  {
    assert 0 in P[6];
    assert Picks(P, 0, 6, 0);
    AnswerIs(P, P', base, 1, frame, 6, 0);
    FirstSplit(P);
    assert SameBlock(0, 0, 0);
  }

  lemma SecondTaken(P: Pools, P': Pools, base: nat, frame: nat)
    requires P == Pools4({1}, {2}) && !FreeIn(P, 0) && base > 0 && Answers(P, P', base, 1, frame)
    ensures frame == base + PAGE_SIZE && P' == Pools4({}, {2}) && !FreeIn(P', 0) && !FreeIn(P', 1)
  {
    assert Picks(P, 0, 0, 1);
    AnswerIs(P, P', base, 1, frame, 0, 1);
    assert P[0] - {1} == {};
    assert Drop(P, 0, 1) == Pools4({}, {2});
    assert SameBlock(0, 1, 1);
  }

  lemma FrameHeld(P: Pools, f: nat)
    requires !FreeIn(P, f)
    ensures BlockHeld(P, 0, f)
  {
  }

  /** Frame 0 comes back alone. */
  lemma FirstFreed(P: Pools)
    requires P == Pools4({}, {2})
    ensures JoinSpec(Add(P, 0, 0), 0, 0) == Pools4({0}, {2})
  {
    BuddyValue(0, 0);
    assert P[0] + {0} == {0};
    assert Add(P, 0, 0) == Pools4({0}, {2});
  }

  /** Frame 1 merges with it, and gives the pair its name. */
  lemma SecondFreed(P: Pools)
    requires P == Pools4({0}, {2})
    ensures JoinSpec(Add(P, 0, 1), 1, 0) == Pools4({}, {1, 2})
  {
    Powers();
    BuddyValue(1, 0);
    BuddyValue(1, 1);
    var P1 := Add(P, 0, 1);
    var P2 := Add(Drop(Drop(P1, 0, 1), 0, 0), 1, 1);
    assert P2[0] == {} && P2[1] == {1, 2};
    assert P2 == Pools4({}, {1, 2});
    assert JoinSpec(P2, 1, 1) == P2;
  }

  lemma PairTaken(P: Pools, P': Pools, base: nat, frame: nat)
    requires P == Pools4({}, {1, 2}) && base > 0 && Answers(P, P', base, 2, frame)
    ensures frame == base + PAGE_SIZE && FreeIn(P', 2) && !FreeIn(P', 0)
  {
    assert Picks(P, 1, 1, 1);
    AnswerIs(P, P', base, 2, frame, 1, 1);
    assert SameBlock(1, 1, 0);
    assert InFree(P', 1, 2, 2);
  }

  /**
   Two frames of a new region are allocated one by one and freed again.  A
   request for two frames is then answered with frames 1 and 2, although 2 is
   still free; what it takes is 0 and 1.
   */
  method MergedPairIsMisnamed(base: nat) returns (region: Region, frame: nat)
    requires base > 0
    ensures region.Valid() && region.base == base && frame == base + PAGE_SIZE
    ensures FreeIn(region.Free(), 2) && !FreeIn(region.Free(), 0)
  {
    region := new Region(base);
    ghost var P := region.Free();
    var a := region.AllocateBlock(1);
    FirstTaken(P, region.Free(), base, a);
    P := region.Free();
    var b := region.AllocateBlock(1);
    SecondTaken(P, region.Free(), base, b);
    frame := GiveBackAndAsk(region, a, b);
  }

  method GiveBackAndAsk(region: Region, a: nat, b: nat) returns (frame: nat)
    requires region.Valid() && a == region.base && b == region.base + PAGE_SIZE
    requires region.Free() == Pools4({}, {2}) && !FreeIn(region.Free(), 0) && !FreeIn(region.Free(), 1)
    modifies region.pool
    ensures region.Valid() && frame == region.base + PAGE_SIZE
    ensures FreeIn(region.Free(), 2) && !FreeIn(region.Free(), 0)
  {
    ghost var P := region.Free();
    FrameHeld(P, 0);
    region.FreeBlock(a, 1);
    FirstFreed(P);
    P := region.Free();
    assert !SameBlock(0, 0, 1);
    FrameHeld(P, 1);
    region.FreeBlock(b, 1);
    SecondFreed(P);
    P := region.Free();
    frame := region.AllocateBlock(2);
    PairTaken(P, region.Free(), region.base, frame);
  }
}
