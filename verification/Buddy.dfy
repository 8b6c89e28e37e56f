/**
 The buddy scheme of page_frame_region_c (src/kernel/memory_manager/
 page_frame_region.cpp) on values: for each order k, the set of indices whose
 bit is clear in pool[k].

 join() names a merged block by the index of the frame that was freed, which
 need not be its lowest frame.  A clear bit f at order k therefore stands for
 the 2^k frames { f xor m : m < 2^k }, the aligned block that f lies in.
 */
module Buddy {
  import opened Arith

  const ORDERS: nat := 7
  const FRAMES: nat := 1024

  /** Exclusive or of two unsigned numbers, bit by bit. */
  function Xor(a: nat, b: nat): nat {
    if a == 0 && b == 0 then 0
    else 2 * Xor(a / 2, b / 2) + (if a % 2 == b % 2 then 0 else 1)
  }

  /** calculate_buddy_index */
  function BuddyIndex(f: nat, k: nat): nat {
    Xor(f, Pow2(k))
  }

  /** f and g lie in the same aligned block of 2^k frames. */
  predicate SameBlock(k: nat, f: nat, g: nat) {
    f / Pow2(k) == g / Pow2(k)
  }

  // ----- Exclusive or and aligned blocks ---------------------------------

  lemma {:induction false} XorZero(a: nat)
    ensures Xor(a, 0) == a
  {
    if a != 0 { XorZero(a / 2); }
  }

  /** The reading of a clear bit: f xor g below 2^k means the same aligned block. */
  lemma {:induction false} XorBlock(f: nat, g: nat, k: nat)
    ensures Xor(f, g) < Pow2(k) <==> SameBlock(k, f, g)
    decreases k
  {
    if k == 0 {
      XorSame(f, g);
    } else {
      XorBlock(f / 2, g / 2, k - 1);
      HalfDiv(f, Pow2(k - 1));
      HalfDiv(g, Pow2(k - 1));
    }
  }

  lemma {:induction false} XorSame(f: nat, g: nat)
    ensures Xor(f, g) == 0 <==> f == g
    decreases f + g
  {
    if f != 0 || g != 0 { XorSame(f / 2, g / 2); }
  }

  /** The buddy differs from f in bit k only. */
  lemma {:induction false} BuddyValue(f: nat, k: nat)
    ensures BuddyIndex(f, k) == if (f / Pow2(k)) % 2 == 0 then f + Pow2(k) else f - Pow2(k)
    decreases k
  {
    if k == 0 {
      XorZero(f / 2);
    } else {
      BuddyValue(f / 2, k - 1);
      HalfDiv(f, Pow2(k - 1));
      assert Pow2(k) / 2 == Pow2(k - 1) && Pow2(k) % 2 == 0;
    }
  }

  lemma BuddyBlock(f: nat, k: nat)
    ensures BuddyIndex(f, k) / Pow2(k) == if (f / Pow2(k)) % 2 == 0 then f / Pow2(k) + 1 else f / Pow2(k) - 1
  {
    BuddyValue(f, k);
    if (f / Pow2(k)) % 2 == 0 {
      NextBlock(f, Pow2(k));
    } else {
      assert f >= Pow2(k) by { BelowBlock(f, Pow2(k)); }
      NextBlock(f - Pow2(k), Pow2(k));
    }
  }

  /** A block of order k + 1 is the disjoint union of f's half and its buddy's half. */
  lemma Halves(f: nat, g: nat, k: nat)
    ensures SameBlock(k + 1, f, g) <==> SameBlock(k, f, g) || SameBlock(k, BuddyIndex(f, k), g)
    ensures !(SameBlock(k, f, g) && SameBlock(k, BuddyIndex(f, k), g))
  {
    BuddyBlock(f, k);
    DivPow(f, k);
    DivPow(g, k);
  }

  lemma BuddyBounds(f: nat, k: nat)
    requires k + 1 < ORDERS && f < FRAMES
    ensures BuddyIndex(f, k) < FRAMES && BuddyIndex(f, k) != f
  {
    Powers();
    BuddyValue(f, k);
    if k == 0 { } else if k == 1 { } else if k == 2 { } else if k == 3 { } else if k == 4 { } else { }
  }

  // ----- The pools -------------------------------------------------------

  type Pools = seq<set<nat>>

  /** Frame g belongs to the free block f of order k. */
  predicate InFree(P: Pools, k: nat, f: nat, g: nat) {
    k < |P| && f in P[k] && SameBlock(k, f, g)
  }

  ghost predicate FreeIn(P: Pools, g: nat) {
    exists k, f :: InFree(P, k, f, g)
  }

  ghost predicate Disjoint(P: Pools) {
    forall k, f, j, h, g :: InFree(P, k, f, g) && InFree(P, j, h, g) ==> k == j && f == h
  }

  ghost predicate PoolsOk(P: Pools) {
    && |P| == ORDERS
    && (forall k, f :: 0 <= k < ORDERS && f in P[k] ==> f < FRAMES)
    && Disjoint(P)
  }

  /** No frame of the block of order k around f is free. */
  ghost predicate BlockHeld(P: Pools, k: nat, f: nat) {
    forall g :: SameBlock(k, f, g) ==> !FreeIn(P, g)
  }

  function Add(P: Pools, k: nat, f: nat): Pools
    requires k < |P|
  {
    P[k := P[k] + {f}]
  }

  function Drop(P: Pools, k: nat, f: nat): Pools
    requires k < |P|
  {
    P[k := P[k] - {f}]
  }

  /** Adding a block none of whose frames was free frees exactly that block. */
  lemma AddBlock(P: Pools, k: nat, f: nat)
    requires PoolsOk(P) && k < ORDERS && f < FRAMES && BlockHeld(P, k, f)
    ensures PoolsOk(Add(P, k, f))
    ensures forall g :: FreeIn(Add(P, k, f), g) <==> FreeIn(P, g) || SameBlock(k, f, g)
  {
    var P' := Add(P, k, f);
    forall j, h, g ensures InFree(P', j, h, g) <==> InFree(P, j, h, g) || (j == k && h == f && SameBlock(k, f, g)) {
    }
    forall g ensures FreeIn(P', g) <==> FreeIn(P, g) || SameBlock(k, f, g) {
      if FreeIn(P, g) {
        var j, h :| InFree(P, j, h, g);
        assert InFree(P', j, h, g);
      }
      if SameBlock(k, f, g) {
        assert InFree(P', k, f, g);
      }
    }
  }

  lemma DropBlock(P: Pools, k: nat, f: nat)
    requires PoolsOk(P) && k < ORDERS && f in P[k]
    ensures PoolsOk(Drop(P, k, f))
    ensures forall g :: FreeIn(Drop(P, k, f), g) <==> FreeIn(P, g) && !SameBlock(k, f, g)
  {
    var P' := Drop(P, k, f);
    forall j, h, g ensures InFree(P', j, h, g) <==> InFree(P, j, h, g) && !(j == k && h == f) {
    }
    forall g ensures FreeIn(P', g) <==> FreeIn(P, g) && !SameBlock(k, f, g) {
      if FreeIn(P', g) {
        var j, h :| InFree(P', j, h, g);
        assert InFree(P, j, h, g);
        assert SameBlock(k, f, g) ==> InFree(P, k, f, g);
      }
      if FreeIn(P, g) && !SameBlock(k, f, g) {
        var j, h :| InFree(P, j, h, g);
        assert InFree(P', j, h, g);
      }
    }
  }

  // ----- split and join --------------------------------------------------

  /** The pools after split() has released the unused halves of the orders lo .. hi - 1. */
  function SplitSpec(P: Pools, f: nat, lo: nat, hi: nat): Pools
    requires lo <= hi <= |P|
    ensures |SplitSpec(P, f, lo, hi)| == |P|
    decreases hi - lo
  {
    if lo == hi then P else SplitSpec(Add(P, hi - 1, BuddyIndex(f, hi - 1)), f, lo, hi - 1)
  }

  /** The pools after join() has merged upwards from order k. */
  function JoinSpec(P: Pools, f: nat, k: nat): Pools
    requires k < |P|
    ensures |JoinSpec(P, f, k)| == |P|
    decreases |P| - k
  {
    if k + 1 < |P| && BuddyIndex(f, k) in P[k] then
      JoinSpec(Add(Drop(Drop(P, k, f), k, BuddyIndex(f, k)), k + 1, f), f, k + 1)
    else P
  }

  /** split() gives back everything of the block of order hi but the block of order lo around f. */
  lemma {:induction false} SplitFrees(P: Pools, f: nat, lo: nat, hi: nat)
    requires PoolsOk(P) && lo <= hi < ORDERS && f < FRAMES && BlockHeld(P, hi, f)
    ensures PoolsOk(SplitSpec(P, f, lo, hi))
    ensures forall g :: FreeIn(SplitSpec(P, f, lo, hi), g) <==>
              FreeIn(P, g) || (SameBlock(hi, f, g) && !SameBlock(lo, f, g))
    decreases hi - lo
  {
    if lo < hi {
      var o := hi - 1;
      var b := BuddyIndex(f, o);
      forall g ensures SameBlock(hi, f, g) <==> SameBlock(o, f, g) || SameBlock(o, b, g)
               ensures !(SameBlock(o, f, g) && SameBlock(o, b, g))
      {
        Halves(f, g, o);
      }
      BuddyBounds(f, o);
      AddBlock(P, o, b);
      SplitFrees(Add(P, o, b), f, lo, o);
      forall g ensures SameBlock(lo, f, g) ==> SameBlock(o, f, g) {
        if SameBlock(lo, f, g) { Nested(lo, o, f, g); }
      }
    }
  }

  lemma {:induction false} Nested(lo: nat, hi: nat, f: nat, g: nat)
    requires lo <= hi && SameBlock(lo, f, g)
    ensures SameBlock(hi, f, g)
    decreases hi - lo
  {
    if lo < hi {
      Nested(lo, hi - 1, f, g);
      DivPow(f, hi - 1);
      DivPow(g, hi - 1);
    }
  }

  /** join() changes how the free frames are grouped, never which frames are free. */
  lemma {:induction false} JoinKeepsFrames(P: Pools, f: nat, k: nat)
    requires PoolsOk(P) && k < ORDERS && f in P[k]
    ensures PoolsOk(JoinSpec(P, f, k))
    ensures forall g :: FreeIn(JoinSpec(P, f, k), g) <==> FreeIn(P, g)
    decreases ORDERS - k
  {
    var b := BuddyIndex(f, k);
    if k + 1 < ORDERS && b in P[k] {
      BuddyBounds(f, k);
      DropBlock(P, k, f);
      var P1 := Drop(P, k, f);
      DropBlock(P1, k, b);
      var P2 := Drop(P1, k, b);
      forall g ensures SameBlock(k + 1, f, g) <==> SameBlock(k, f, g) || SameBlock(k, b, g)
               ensures SameBlock(k, f, g) || SameBlock(k, b, g) ==> FreeIn(P, g)
      {
        Halves(f, g, k);
        if SameBlock(k, f, g) { assert InFree(P, k, f, g); }
        if SameBlock(k, b, g) { assert InFree(P, k, b, g); }
      }
      AddBlock(P2, k + 1, f);
      JoinKeepsFrames(Add(P2, k + 1, f), f, k + 1);
    }
  }

  // ----- Contiguity ------------------------------------------------------

  /** allocate_block takes f: the least clear index of the first non-empty pool, of order i, from order k on. */
  ghost predicate Picks(P: Pools, k: nat, i: nat, f: nat) {
    && k <= i < |P| && f in P[i]
    && (forall j :: k <= j < i ==> P[j] == {})
    && (forall g :: g in P[i] ==> f <= g)
  }

  /** The n frames from f on, which the caller will use, lie in the block of order k that it is given. */
  ghost predicate Serves(f: nat, n: nat, k: nat) {
    forall g: nat :: f <= g < f + n ==> SameBlock(k, f, g)
  }

  lemma QuotientOf(f: nat, p: nat)
    requires p > 0
    ensures f == p * (f / p) + f % p
  {
  }

  lemma WithinBlock(f: nat, g: nat, p: nat)
    requires p > 0 && f <= g && f % p + (g - f) < p
    ensures f / p == g / p
  {
    QuotientOf(f, p);
    DivUnique(g, p, f / p, f % p + (g - f));
  }

  lemma BeyondBlock(f: nat, g: nat, p: nat)
    requires p > 0 && f <= g && f / p == g / p
    ensures f % p + (g - f) < p
  {
    QuotientOf(f, p);
    QuotientOf(g, p);
  }

  /** A block named f serves n frames exactly if they do not run over its end. */
  lemma ServesIff(f: nat, n: nat, k: nat)
    requires n > 0
    ensures Serves(f, n, k) <==> f % Pow2(k) + n <= Pow2(k)
  {
    if f % Pow2(k) + n <= Pow2(k) {
      forall g: nat | f <= g < f + n ensures SameBlock(k, f, g) { WithinBlock(f, g, Pow2(k)); }
    }
    if Serves(f, n, k) {
      assert SameBlock(k, f, f + n - 1);
      BeyondBlock(f, f + n - 1, Pow2(k));
    }
  }

  /** A merge keeps the name of the block that was freed, be it the upper half. */
  lemma {:induction false} JoinKeepsName(P: Pools, f: nat, k: nat) returns (j: nat)
    requires k < |P| && f in P[k]
    ensures k <= j < |P| && f in JoinSpec(P, f, k)[j]
    ensures k + 1 < |P| && BuddyIndex(f, k) in P[k] ==> j > k
    decreases |P| - k
  {
    j := k;
    if k + 1 < |P| && BuddyIndex(f, k) in P[k] {
      j := JoinKeepsName(Add(Drop(Drop(P, k, f), k, BuddyIndex(f, k)), k + 1, f), f, k + 1);
    }
  }

  // ----- How far split and join go ---------------------------------------

  lemma BuddyTwice(f: nat, k: nat)
    ensures BuddyIndex(BuddyIndex(f, k), k) == f
  {
    BuddyValue(f, k);
    BuddyBlock(f, k);
    BuddyValue(BuddyIndex(f, k), k);
  }

  /** No free block has a free buddy. */
  ghost predicate Coalesced(P: Pools) {
    forall k: nat, f: nat {:trigger f in P[k]} :: k + 1 < |P| && f in P[k] ==> Xor(f, Pow2(k)) !in P[k]
  }

  /**
   What freeing block f of order k does: it merges with its free buddy at every
   order from k on, up to the first order j at which the buddy is not free or
   there is nothing larger, and is then free under its own name.
   */
  ghost predicate Merges(P: Pools, P': Pools, f: nat, k: nat, j: nat) {
    && k <= j < |P| && |P'| == |P|
    && (forall i: nat :: k <= i < j ==> Xor(f, Pow2(i)) in P[i] && P'[i] == P[i] - {Xor(f, Pow2(i))})
    && P'[j] == P[j] + {f} && (j + 1 == |P| || Xor(f, Pow2(j)) !in P[j])
    && (forall i: nat :: i < |P| && !(k <= i <= j) ==> P'[i] == P[i])
  }

  /** join() goes on until it cannot. */
  lemma {:induction false} JoinMerges(P: Pools, f: nat, k: nat) returns (j: nat)
    requires k < |P| && forall i :: k <= i < |P| ==> f !in P[i]
    ensures Merges(P, JoinSpec(Add(P, k, f), f, k), f, k, j)
    decreases |P| - k
  {
    var b := BuddyIndex(f, k);
    BuddyDiffers(f, k);
    j := k;
    if k + 1 < |P| && b in P[k] {
      var P1 := P[k := P[k] - {b}];
      var P2 := Add(Drop(Drop(Add(P, k, f), k, f), k, b), k + 1, f);
      assert P2[k] == P1[k];
      assert P2 == Add(P1, k + 1, f);
      j := JoinMerges(P1, f, k + 1);
    }
  }

  lemma BuddyDiffers(f: nat, k: nat)
    ensures BuddyIndex(f, k) != f
  {
    BuddyValue(f, k);
  }

  /** split() leaves one buddy of f free at each order that it passes. */
  lemma {:induction false} SplitAt(P: Pools, f: nat, lo: nat, hi: nat, i: nat)
    requires lo <= hi <= |P| && i < |P|
    ensures SplitSpec(P, f, lo, hi)[i] == if lo <= i < hi then P[i] + {Xor(f, Pow2(i))} else P[i]
    decreases hi - lo
  {
    if lo < hi { SplitAt(Add(P, hi - 1, BuddyIndex(f, hi - 1)), f, lo, hi - 1, i); }
  }

  lemma MergesKeepsCoalesced(P: Pools, P': Pools, f: nat, k: nat, j: nat)
    requires Coalesced(P) && Merges(P, P', f, k, j)
    ensures Coalesced(P')
  {
    forall i: nat, g: nat {:trigger g in P'[i]} | i + 1 < |P'| && g in P'[i] ensures Xor(g, Pow2(i)) !in P'[i] {
      if i == j {
        BuddyDiffers(f, j);
        BuddyTwice(g, j);
        assert g in P[j] ==> Xor(g, Pow2(j)) !in P[j];
      } else {
        assert g in P[i];
      }
    }
  }

  lemma SplitKeepsCoalesced(P: Pools, P': Pools, k: nat, i: nat, f: nat)
    requires Coalesced(P) && Picks(P, k, i, f) && P' == SplitSpec(Drop(P, i, f), f, k, i)
    ensures Coalesced(P')
  {
    forall o: nat, g: nat {:trigger g in P'[o]} | o + 1 < |P'| && g in P'[o] ensures Xor(g, Pow2(o)) !in P'[o] {
      SplitAt(Drop(P, i, f), f, k, i, o);
      if k <= o < i {
        BuddyDiffers(g, o);
      } else {
        assert g in P[o];
      }
    }
  }

  /** Giving back the block that a request took restores the pools. */
  lemma SplitThenMerge(P: Pools, P': Pools, P'': Pools, k: nat, i: nat, f: nat, j: nat)
    requires Coalesced(P) && Picks(P, k, i, f) && P' == SplitSpec(Drop(P, i, f), f, k, i) && Merges(P', P'', f, k, j)
    ensures P'' == P
  {
    forall o: nat | o < |P| ensures P'[o] == if k <= o < i then {Xor(f, Pow2(o))} else if o == i then P[i] - {f} else P[o] {
      SplitAt(Drop(P, i, f), f, k, i, o);
    }
    assert j >= i;
    assert i + 1 < |P| ==> Xor(f, Pow2(i)) !in P[i];
    forall o: nat | o < |P| ensures P''[o] == P[o] { }
  }
}
