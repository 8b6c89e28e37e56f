/**
 The best-fit searches of dlmalloc (tmalloc_large and tmalloc_small,
 src/lib/libc/malloc.c): find a smallest chunk of at least nb bytes among all
 treebins.  A tree value stands for a pointer to its root chunk, Nil for null.
 */
module TreeSearch {
  import opened Arith
  import opened TreeBins
  import opened Trie

  /** Bin i is a trie over exactly the sizes that belong there. */
  ghost predicate BinOk(t: Tree, i: nat) {
    && i < NTREEBINS
    && Valid(t, BinPrefix(i), BinBits(i))
    && forall s: nat :: HasSize(t, s) ==> MIN_LARGE_SIZE <= s < SIZE_LIMIT && TreeIndex(s) == i
  }

  ghost predicate BinsOk(bins: seq<Tree>) {
    |bins| == NTREEBINS && forall i :: 0 <= i < NTREEBINS ==> BinOk(bins[i], i)
  }

  /** treemap has the bit of exactly the non-empty bins. */
  ghost predicate MapOk(bins: seq<Tree>, treemap: set<nat>) {
    |bins| == NTREEBINS && forall i: nat :: i in treemap <==> i < NTREEBINS && bins[i].Node?
  }

  ghost predicate AnySize(bins: seq<Tree>, s: nat) {
    exists i :: 0 <= i < |bins| && HasSize(bins[i], s)
  }

  /** t is part of root. */
  ghost predicate PartOf(t: Tree, root: Tree) {
    && (forall s: nat :: HasSize(t, s) ==> HasSize(root, s))
    && (forall a: nat, s: nat :: Has(t, a, s) ==> Has(root, a, s))
  }

  /** size - nb in unsigned 32-bit arithmetic: too small a chunk leaves a huge remainder. */
  function Remainder(size: nat, nb: nat): nat
    requires nb <= SIZE_LIMIT
  {
    if size >= nb then size - nb else size + SIZE_LIMIT - nb
  }

  /** v is the best chunk seen so far and rsize what it would leave; null leaves -nb. */
  ghost predicate Tracks(v: Tree, rsize: nat, nb: nat)
    requires nb <= SIZE_LIMIT
  {
    if v.Node? then v.size >= nb && v.ring != [] && rsize == v.size - nb else rsize == SIZE_LIMIT - nb
  }

  ghost predicate Beats(v: Tree, s: nat) {
    v.Node? && v.size <= s
  }

  /** Every fitting size of root is still to come in t, beaten by v, or beaten by everything in t. */
  ghost predicate Covers(root: Tree, t: Tree, v: Tree, nb: nat) {
    forall s: nat :: HasSize(root, s) && s >= nb ==>
      HasSize(t, s) || Beats(v, s) || (t.Node? && forall r: nat :: HasSize(t, r) ==> r <= s)
  }

  /** Nothing in t is too small, or an exact fit is already known. */
  ghost predicate Fits(t: Tree, v: Tree, nb: nat) {
    (v.Node? && v.size == nb) || forall r: nat :: HasSize(t, r) ==> r >= nb
  }

  /** leftmost_child */
  function LeftmostChild(t: Tree): Tree
    requires t.Node?
  {
    if t.left.Node? then t.left else t.right
  }

  ghost function LeftmostPrefix(t: Tree, q: nat): nat {
    if t.Node? && t.left.Node? then 2 * q else 2 * q + 1
  }

  // ----- The leftmost walk -----------------------------------------------

  lemma LeftmostStep(t: Tree, q: nat, b: nat, v: Tree, nb: nat)
    requires t.Node? && Valid(t, q, b) && Fits(t, v, nb)
    requires Beats(v, t.size) || (v.Node? && v.size == nb)
    ensures Covers(t, LeftmostChild(t), v, nb)
    ensures LeftmostChild(t).Node? ==> b > 0 && Valid(LeftmostChild(t), LeftmostPrefix(t, q), b - 1)
    ensures PartOf(LeftmostChild(t), t)
  {
    var c := LeftmostChild(t);
    forall s: nat | HasSize(t, s) && s >= nb
      ensures HasSize(c, s) || Beats(v, s) || (c.Node? && forall r: nat :: HasSize(c, r) ==> r <= s)
    {
      if s == t.size {
        assert Beats(v, s);
      } else if HasSize(t.left, s) {
        assert c == t.left;
      } else {
        assert HasSize(t.right, s);
        if t.left.Node? {
          assert c == t.left;
          forall r: nat | HasSize(c, r) ensures r <= s { LeftBelowRight(t, q, b, r, s); }
        } else {
          assert c == t.right;
        }
      }
    }
  }

  lemma CoversTrans(root: Tree, t: Tree, c: Tree, v: Tree, v': Tree, nb: nat)
    requires Covers(root, t, v, nb) && Covers(t, c, v', nb) && PartOf(c, t)
    requires t.Node? && Fits(t, v', nb) && (Beats(v', t.size) || (v'.Node? && v'.size == nb))
    requires v.Node? ==> Beats(v', v.size)
    ensures Covers(root, c, v', nb)
  {
    forall s: nat | HasSize(root, s) && s >= nb
      ensures HasSize(c, s) || Beats(v', s) || (c.Node? && forall r: nat :: HasSize(c, r) ==> r <= s)
    {
      if !HasSize(t, s) && !Beats(v, s) {
        assert HasSize(t, t.size);
      }
    }
  }

  /** The state of the leftmost walk over root, now at t. */
  ghost predicate Walking(root: Tree, t: Tree, v: Tree, rsize: nat, nb: nat, q: nat, b: nat) {
    && nb <= SIZE_LIMIT
    && (forall s: nat :: HasSize(root, s) ==> s < SIZE_LIMIT)
    && Valid(t, q, b) && PartOf(t, root) && PartOf(v, root)
    && Tracks(v, rsize, nb) && Fits(t, v, nb) && Covers(root, t, v, nb)
  }

  function Better(t: Tree, v: Tree, rsize: nat, nb: nat): (Tree, nat)
    requires t.Node? && nb <= SIZE_LIMIT
  {
    if Remainder(t.size, nb) < rsize then (t, Remainder(t.size, nb)) else (v, rsize)
  }

  lemma BetterFacts(root: Tree, t: Tree, v: Tree, rsize: nat, nb: nat)
    requires t.Node? && nb <= SIZE_LIMIT && t.size < SIZE_LIMIT && (v.Node? ==> v.size < SIZE_LIMIT)
    requires Tracks(v, rsize, nb) && PartOf(t, root) && PartOf(v, root) && t.ring != []
    ensures var (v', rsize') := Better(t, v, rsize, nb);
            && Tracks(v', rsize', nb) && PartOf(v', root)
            && (t.size >= nb ==> Beats(v', t.size))
            && (v.Node? ==> Beats(v', v.size))
            && (t.size < nb ==> v' == v)
  {
  }

  lemma WalkStep(root: Tree, t: Tree, v: Tree, rsize: nat, nb: nat, q: nat, b: nat)
    requires t.Node? && Walking(root, t, v, rsize, nb, q, b)
    ensures var (v', rsize') := Better(t, v, rsize, nb);
            Walking(root, LeftmostChild(t), v', rsize', nb, LeftmostPrefix(t, q), if b > 0 then b - 1 else 0)
  {
    var (v', rsize') := Better(t, v, rsize, nb);
    assert HasSize(t, t.size);
    assert v.Node? ==> HasSize(v, v.size);
    BetterFacts(root, t, v, rsize, nb);
    LeftmostStep(t, q, b, v', nb);
    CoversTrans(root, t, LeftmostChild(t), v, v', nb);
  }

  /** The last loop of tmalloc_large: follow leftmost children, keeping the best fit. */
  method LeftmostWalk(ghost root: Tree, start: Tree, v0: Tree, rsize0: nat, nb: nat, ghost q: nat, ghost b: nat)
    returns (v: Tree, rsize: nat)
    requires Walking(root, start, v0, rsize0, nb, q, b)
    ensures Tracks(v, rsize, nb) && PartOf(v, root)
    ensures forall s: nat :: HasSize(root, s) && s >= nb ==> Beats(v, s)
  {
    var t := start;
    v, rsize := v0, rsize0;
    ghost var p, n := q, b;
    while t.Node?
      invariant Walking(root, t, v, rsize, nb, p, n)
      decreases t
    {
      WalkStep(root, t, v, rsize, nb, p, n);
      var trem := Remainder(t.size, nb);
      if trem < rsize {
        rsize := trem;
        v := t;
      }
      p, n := LeftmostPrefix(t, p), if n > 0 then n - 1 else 0;
      t := LeftmostChild(t);
    }
  }

  // ----- The bit-guided descent ------------------------------------------

  /** Every size of rst lies above the range that t, with prefix q over b bits, is about. */
  ghost predicate Beyond(rst: Tree, q: nat, b: nat) {
    forall r: nat :: HasSize(rst, r) ==> r / Pow2(b) > q
  }

  /** Like Covers, with the deepest untaken right subtree rst held in reserve. */
  ghost predicate CoversWith(root: Tree, t: Tree, rst: Tree, v: Tree, nb: nat) {
    forall s: nat :: HasSize(root, s) && s >= nb ==>
      HasSize(t, s) || HasSize(rst, s) || Beats(v, s) || (rst.Node? && forall r: nat :: HasSize(rst, r) ==> r <= s)
  }

  ghost predicate SizesBounded(root: Tree) {
    forall s: nat :: HasSize(root, s) ==> s < SIZE_LIMIT
  }

  /** Somewhere in the trie rst is a valid subtree. */
  ghost predicate ValidSomewhere(rst: Tree) {
    exists q, b :: Valid(rst, q, b)
  }

  ghost predicate Descending(root: Tree, t: Tree, rst: Tree, v: Tree, rsize: nat, nb: nat, q: nat, b: nat) {
    && nb <= SIZE_LIMIT && SizesBounded(root)
    && t.Node? && Valid(t, q, b) && nb / Pow2(b) == q && ValidSomewhere(rst)
    && PartOf(t, root) && PartOf(rst, root) && PartOf(v, root)
    && Tracks(v, rsize, nb) && Beyond(rst, q, b) && CoversWith(root, t, rst, v, nb)
  }

  /** What the descent leaves for the leftmost walk. */
  ghost predicate Handover(root: Tree, t: Tree, v: Tree, rsize: nat, nb: nat) {
    && nb <= SIZE_LIMIT && SizesBounded(root) && ValidSomewhere(t)
    && PartOf(t, root) && PartOf(v, root)
    && Tracks(v, rsize, nb) && Covers(root, t, v, nb) && Fits(t, v, nb)
  }

  function NextTree(t: Tree, nb: nat, b: nat): Tree
    requires t.Node? && b > 0
  {
    if GoRight(nb, b) then t.right else t.left
  }

  function NextReserve(t: Tree, rst: Tree, nb: nat, b: nat): Tree
    requires t.Node? && b > 0
  {
    if t.right.Node? && !GoRight(nb, b) then t.right else rst
  }

  lemma BeyondAbove(rst: Tree, q: nat, b: nat, r: nat, s: nat)
    requires Beyond(rst, q, b) && HasSize(rst, r) && s / Pow2(b) == q
    ensures s < r
  {
    QuotientLess(s, r, Pow2(b));
  }

  lemma BeyondNext(rst: Tree, q: nat, b: nat, q': nat)
    requires Beyond(rst, q, b) && b > 0 && q' <= 2 * q + 1
    ensures Beyond(rst, q', b - 1)
  {
    forall r: nat | HasSize(rst, r) ensures r / Pow2(b - 1) > q' {
      DivPow(r, b - 1);
    }
  }

  /** Going right passes over nothing that fits; going left keeps the right subtree in reserve. */
  lemma DescendCovers(root: Tree, t: Tree, rst: Tree, v: Tree, v': Tree, nb: nat, q: nat, b: nat)
    requires t.Node? && b > 0 && Valid(t, q, b) && nb / Pow2(b) == q
    requires Beyond(rst, q, b) && CoversWith(root, t, rst, v, nb)
    requires (t.size >= nb ==> Beats(v', t.size)) && (v.Node? ==> Beats(v', v.size))
    ensures CoversWith(root, NextTree(t, nb, b), NextReserve(t, rst, nb, b), v', nb)
  {
    var t', rst' := NextTree(t, nb, b), NextReserve(t, rst, nb, b);
    NextPrefix(nb, q, b);
    forall s: nat | HasSize(root, s) && s >= nb
      ensures HasSize(t', s) || HasSize(rst', s) || Beats(v', s) || (rst'.Node? && forall r: nat :: HasSize(rst', r) ==> r <= s)
    {
      if HasSize(t, s) {
        if s == t.size {
          assert Beats(v', s);
        } else if HasSize(t.left, s) && GoRight(nb, b) {
          SizesHavePrefix(t.left, 2 * q, b - 1, s);
          QuotientLess(s, nb, Pow2(b - 1));
        } else {
          assert HasSize(t.left, s) || HasSize(t.right, s);
        }
      } else if !Beats(v, s) && rst' == t.right && rst'.Node? {
        forall r: nat | HasSize(rst', r) ensures r <= s {
          assert HasSize(t, r);
          SizesHavePrefix(t, q, b, r);
          var r0 := if HasSize(rst, s) then s else rst.size;
          assert HasSize(rst, r0);
          BeyondAbove(rst, q, b, r0, r);
        }
      }
    }
  }

  lemma ReserveBeyond(t: Tree, rst: Tree, nb: nat, q: nat, b: nat)
    requires t.Node? && b > 0 && Valid(t, q, b) && nb / Pow2(b) == q && Beyond(rst, q, b)
    ensures Beyond(NextReserve(t, rst, nb, b), nb / Pow2(b - 1), b - 1)
  {
    NextPrefix(nb, q, b);
    if t.right.Node? && !GoRight(nb, b) {
      forall r: nat | HasSize(t.right, r) ensures r / Pow2(b - 1) > nb / Pow2(b - 1) {
        SizesHavePrefix(t.right, 2 * q + 1, b - 1, r);
      }
    } else {
      BeyondNext(rst, q, b, nb / Pow2(b - 1));
    }
  }

  lemma DescendStep(root: Tree, t: Tree, rst: Tree, v: Tree, rsize: nat, nb: nat, q: nat, b: nat) returns (q': nat)
    requires Descending(root, t, rst, v, rsize, nb, q, b) && t.size != nb
    ensures b > 0
    ensures var (v', rsize') := Better(t, v, rsize, nb);
            var t', rst' := NextTree(t, nb, b), NextReserve(t, rst, nb, b);
            if t'.Node? then Descending(root, t', rst', v', rsize', nb, q', b - 1)
            else Handover(root, rst', v', rsize', nb)
  {
    var (v', rsize') := Better(t, v, rsize, nb);
    assert HasSize(t, t.size);
    assert v.Node? ==> HasSize(v, v.size);
    BetterFacts(root, t, v, rsize, nb);
    FollowBits(t, q, b, nb);
    NextPrefix(nb, q, b);
    q' := nb / Pow2(b - 1);
    assert Valid(t.right, 2 * q + 1, b - 1);
    DescendCovers(root, t, rst, v, v', nb, q, b);
    ReserveBeyond(t, rst, nb, q, b);
    var t', rst' := NextTree(t, nb, b), NextReserve(t, rst, nb, b);
    if t' == Nil {
      forall r: nat | HasSize(rst', r) ensures r >= nb {
        QuotientLess(nb, r, Pow2(b - 1));
      }
    }
  }

  /** Follow the next bit of nb; remember the right subtree if it is not the one taken. */
  method NextSubtree(t: Tree, rst: Tree, nb: nat, ghost q: nat, b: nat) returns (next: Tree, reserve: Tree)
    requires t.Node? && b > 0 && Valid(t, q, b)
    ensures next == NextTree(t, nb, b) && reserve == NextReserve(t, rst, nb, b)
    ensures next == t.left || next == t.right
  {
    ChildrenDiffer(t, q, b);
    var rt := t.right;
    next := if GoRight(nb, b) then t.right else t.left;
    reserve := if rt != Nil && rt != next then rt else rst;
  }

  /** One round of the descent at a node that is not an exact fit. */
  method DescendOnce(ghost root: Tree, t0: Tree, rst0: Tree, v0: Tree, rsize0: nat, nb: nat, ghost q0: nat, b: nat)
    returns (t: Tree, rst: Tree, v: Tree, rsize: nat, ghost q: nat)
    requires Descending(root, t0, rst0, v0, rsize0, nb, q0, b) && t0.size != nb
    ensures b > 0 && (t == t0.left || t == t0.right)
    ensures if t.Node? then Descending(root, t, rst, v, rsize, nb, q, b - 1)
            else Handover(root, rst, v, rsize, nb)
  {
    q := DescendStep(root, t0, rst0, v0, rsize0, nb, q0, b);
    var trem := Remainder(t0.size, nb);
    v, rsize := v0, rsize0;
    if trem < rsize {
      v, rsize := t0, trem;
    }
    t, rst := NextSubtree(t0, rst0, nb, q0, b);
  }

  /** The first loop of tmalloc_large, on the bin of nb itself. */
  method Descend(root: Tree, nb: nat, ghost q: nat, bits: nat) returns (t: Tree, v: Tree, rsize: nat)
    requires root.Node? && nb <= SIZE_LIMIT && SizesBounded(root)
    requires Valid(root, q, bits) && nb / Pow2(bits) == q
    ensures Handover(root, t, v, rsize, nb)
  {
    t, v, rsize := root, Nil, SIZE_LIMIT - nb;
    var rst, b: nat := Nil, bits;
    DescendStart(root, nb, q, bits);
    ghost var p := q;
    while t.Node? && t.size != nb
      invariant t.Node? ==> Descending(root, t, rst, v, rsize, nb, p, b)
      invariant t == Nil ==> Handover(root, rst, v, rsize, nb)
      decreases t
    {
      t, rst, v, rsize, p := DescendOnce(root, t, rst, v, rsize, nb, p, b);
      b := b - 1;
    }
    if t == Nil {
      t := rst;
    } else {
      ExactStops(root, t, rst, v, rsize, nb, p, b);
      v, rsize := t, 0;
    }
  }

  lemma DescendStart(root: Tree, nb: nat, q: nat, bits: nat)
    requires root.Node? && nb <= SIZE_LIMIT && SizesBounded(root)
    requires Valid(root, q, bits) && nb / Pow2(bits) == q
    ensures Descending(root, root, Nil, Nil, SIZE_LIMIT - nb, nb, q, bits)
  {
    assert Valid(Nil, 0, 0);
  }

  lemma ExactStops(root: Tree, t: Tree, rst: Tree, v: Tree, rsize: nat, nb: nat, q: nat, b: nat)
    requires Descending(root, t, rst, v, rsize, nb, q, b) && t.size == nb
    ensures Handover(root, t, t, 0, nb)
  {
  }

  /** Comparing the children by address is comparing them by value: they never hold the same sizes. */
  lemma ChildrenDiffer(t: Tree, q: nat, b: nat)
    requires t.Node? && Valid(t, q, b)
    ensures t.right.Node? ==> t.left != t.right
  {
    if t.right.Node? && t.left == t.right {
      LeftBelowRight(t, q, b, t.left.size, t.right.size);
    }
  }

  // ----- All the bins ----------------------------------------------------

  lemma OtherBin(bins: seq<Tree>, i: nat, s: nat)
    requires BinsOk(bins) && i < NTREEBINS && HasSize(bins[i], s)
    ensures MIN_LARGE_SIZE <= s < SIZE_LIMIT && TreeIndex(s) == i
  {
    assert BinOk(bins[i], i);
  }

  /** compute_bit2idx(least_bit(left_bits(idx2bit(idx)) & treemap)), or 32 if there is no such bit. */
  method NextBin(treemap: set<nat>, from: nat) returns (i: nat)
    requires from <= NTREEBINS
    ensures from <= i <= NTREEBINS && (i < NTREEBINS ==> i in treemap)
    ensures forall j: nat :: from <= j < i ==> j !in treemap
  {
    i := from;
    while i < NTREEBINS && i !in treemap
      invariant from <= i <= NTREEBINS && forall j: nat :: from <= j < i ==> j !in treemap
    {
      i := i + 1;
    }
  }

  /** The chunk at a is binned under its size. */
  predicate InBins(bins: seq<Tree>, a: nat, s: nat) {
    TreeIndex(s) < |bins| && Has(bins[TreeIndex(s)], a, s)
  }

  /** v is the root of a node whose size is the smallest fitting one, or Nil if nothing fits. */
  ghost predicate BestFit(bins: seq<Tree>, nb: nat, v: Tree) {
    && (v.Node? ==> v.size >= nb && v.ring != [] && InBins(bins, v.ring[0], v.size))
    && (forall s: nat :: AnySize(bins, s) && s >= nb ==> Beats(v, s))
  }

  /** A best fit within the first non-empty bin from `from` on is a best fit overall, if earlier bins have none. */
  lemma BinBest(bins: seq<Tree>, nb: nat, i: nat, v: Tree)
    requires BinsOk(bins) && i < NTREEBINS && v.Node? && v.size >= nb
    requires PartOf(v, bins[i]) && v.ring != []
    requires forall s: nat :: HasSize(bins[i], s) && s >= nb ==> Beats(v, s)
    requires forall j, s: nat :: 0 <= j < i && HasSize(bins[j], s) ==> s < nb
    ensures BestFit(bins, nb, v)
  {
    assert HasSize(v, v.size) && Has(v, v.ring[0], v.size);
    OtherBin(bins, i, v.size);
    forall s: nat | AnySize(bins, s) && s >= nb ensures Beats(v, s) {
      var j :| 0 <= j < |bins| && HasSize(bins[j], s);
      OtherBin(bins, j, s);
      if j > i { BinOrder(v.size, s); }
    }
  }

  lemma NoneFits(bins: seq<Tree>, nb: nat)
    requires forall j, s: nat :: 0 <= j < |bins| && HasSize(bins[j], s) ==> s < nb
    ensures BestFit(bins, nb, Nil)
  {
  }

  /** Sizes in earlier bins are smaller than a request that belongs in bin i. */
  lemma EarlierTooSmall(bins: seq<Tree>, nb: nat, j: nat, s: nat)
    requires BinsOk(bins) && MIN_LARGE_SIZE <= nb < SIZE_LIMIT
    requires j < TreeIndex(nb) && j < NTREEBINS && HasSize(bins[j], s)
    ensures s < nb
  {
    OtherBin(bins, j, s);
    BinOrder(s, nb);
  }

  lemma LaterFits(bins: seq<Tree>, nb: nat, j: nat, s: nat)
    requires BinsOk(bins) && MIN_LARGE_SIZE <= nb < SIZE_LIMIT
    requires TreeIndex(nb) < j < NTREEBINS && HasSize(bins[j], s)
    ensures s > nb
  {
    OtherBin(bins, j, s);
    BinOrder(nb, s);
  }

  /**
   The search of tmalloc_large over all treebins: the bin of nb, then, if
   nothing in it fits, the next non-empty bin.
   */
  method SearchLarge(bins: seq<Tree>, treemap: set<nat>, nb: nat) returns (v: Tree, rsize: nat)
    requires BinsOk(bins) && MapOk(bins, treemap) && MIN_LARGE_SIZE <= nb < SIZE_LIMIT
    ensures BestFit(bins, nb, v)
    ensures v.Node? ==> rsize == v.size - nb
  {
    var idx := TreeIndex(nb);
    BinRange(nb);
    BinPrefixOk(nb);
    assert BinOk(bins[idx], idx);
    forall j, s: nat | 0 <= j < idx && HasSize(bins[j], s) ensures s < nb { EarlierTooSmall(bins, nb, j, s); }
    v, rsize := Nil, SIZE_LIMIT - nb;
    if bins[idx].Node? {
      v, rsize := SearchBin(bins[idx], nb, BinPrefix(idx), BinBits(idx));
    }
    if v.Node? {
      BinBest(bins, nb, idx, v);
    } else {
      v, rsize := SearchLater(bins, treemap, nb, idx);
    }
  }

  /** Nothing up to bin idx fits: try the next non-empty bin. */
  method SearchLater(bins: seq<Tree>, treemap: set<nat>, nb: nat, idx: nat) returns (v: Tree, rsize: nat)
    requires BinsOk(bins) && MapOk(bins, treemap) && MIN_LARGE_SIZE <= nb < SIZE_LIMIT
    requires idx == TreeIndex(nb) < NTREEBINS
    requires forall j, s: nat :: 0 <= j <= idx && HasSize(bins[j], s) ==> s < nb
    ensures BestFit(bins, nb, v)
    ensures v.Node? ==> rsize == v.size - nb
  {
    v, rsize := Nil, SIZE_LIMIT - nb;
    var i := NextBin(treemap, idx + 1);
    assert forall j :: idx < j < i ==> bins[j] == Nil;
    assert forall j, s: nat :: 0 <= j < i && HasSize(bins[j], s) ==> j <= idx;
    if i < NTREEBINS {
      forall s: nat | HasSize(bins[i], s) ensures s >= nb { LaterFits(bins, nb, i, s); }
      v, rsize := SmallestIn(bins, i, nb);
      BinBest(bins, nb, i, v);
    } else {
      NoneFits(bins, nb);
    }
  }

  /** Both loops on one bin. */
  method SearchBin(root: Tree, nb: nat, ghost q: nat, bits: nat) returns (v: Tree, rsize: nat)
    requires root.Node? && nb <= SIZE_LIMIT && SizesBounded(root)
    requires Valid(root, q, bits) && nb / Pow2(bits) == q
    ensures Tracks(v, rsize, nb) && PartOf(v, root)
    ensures forall s: nat :: HasSize(root, s) && s >= nb ==> Beats(v, s)
  {
    var t;
    t, v, rsize := Descend(root, nb, q, bits);
    ghost var p, n :| Valid(t, p, n);
    v, rsize := LeftmostWalk(root, t, v, rsize, nb, p, n);
  }

  /** The smallest chunk of a bin all of whose sizes exceed the request. */
  method SmallestIn(bins: seq<Tree>, i: nat, nb: nat) returns (v: Tree, rsize: nat)
    requires BinsOk(bins) && i < NTREEBINS && bins[i].Node? && nb < SIZE_LIMIT
    requires forall s: nat :: HasSize(bins[i], s) ==> s >= nb
    ensures v.Node? && v.size >= nb && v.ring != [] && rsize == v.size - nb && PartOf(v, bins[i])
    ensures forall s: nat :: HasSize(bins[i], s) && s >= nb ==> Beats(v, s)
  {
    assert BinOk(bins[i], i);
    assert HasSize(bins[i], bins[i].size);
    v, rsize := LeftmostWalk(bins[i], bins[i], Nil, SIZE_LIMIT - nb, nb, BinPrefix(i), BinBits(i));
  }

  /** The search of tmalloc_small: the smallest chunk of the first non-empty bin. */
  method SearchSmall(bins: seq<Tree>, treemap: set<nat>, nb: nat) returns (v: Tree, rsize: nat)
    requires BinsOk(bins) && MapOk(bins, treemap) && treemap != {} && nb < MIN_LARGE_SIZE
    ensures v.Node? && BestFit(bins, nb, v) && rsize == v.size - nb
  {
    var i := NextBin(treemap, 0);
    assert i < NTREEBINS by {
      var j :| j in treemap;
      assert j < NTREEBINS;
    }
    assert BinOk(bins[i], i);
    v, rsize := SmallestIn(bins, i, nb);
    assert forall j :: 0 <= j < i ==> bins[j] == Nil;
    BinBest(bins, nb, i, v);
  }
}
