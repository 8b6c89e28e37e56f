/**
 bitmap1024_c (src/kernel/inc/bitmap.hpp): a parent word over 32 child words.
 The parent bit of a child is set exactly when the child is full.
 */
module Bitmap {
  import opened Bits
  import opened Bitmap32

  function Min(a: nat, b: nat): nat { if a < b then a else b }

  predicate SetIn(child: seq<bv32>, index: nat) {
    index / 32 < |child| && On(child[index / 32], index % 32)
  }

  /** A parent bit is set exactly when its child word is full. */
  ghost predicate Tracks(child: seq<bv32>, parent: bv32) {
    |child| == 32 && forall p: nat {:trigger On(parent, p)} :: p < 32 ==> (On(parent, p) <==> child[p] == ALL)
  }

  /** The bits in [index, index + count) have the given value; the others are as before. */
  ghost predicate Changes(before: seq<bv32>, after: seq<bv32>, index: nat, count: nat, value: bool) {
    forall i: nat {:trigger SetIn(after, i)} :: i < 1024 ==>
      SetIn(after, i) == if index <= i < index + count then value else SetIn(before, i)
  }

  /** Changing some bits of one child changes those bits of the whole. */
  lemma ChildChanges(child: seq<bv32>, p: nat, w: bv32, bit: nat, n: nat, value: bool)
    requires |child| == 32 && p < 32 && bit + n <= 32
    requires forall j: nat {:trigger On(w, j)} :: j < 32 ==> (On(w, j) <==> if bit <= j < bit + n then value else On(child[p], j))
    ensures Changes(child, child[p := w], 32 * p + bit, n, value)
  {
    forall i: nat {:trigger SetIn(child[p := w], i)} | i < 1024
      ensures SetIn(child[p := w], i) == if 32 * p + bit <= i < 32 * p + bit + n then value else SetIn(child, i)
    {
      assert i == 32 * (i / 32) + i % 32;
    }
  }

  class Bitmap1024 {
    const size: nat
    var child: seq<bv32>
    var parent: bv32

    predicate IsSet(index: nat)
      reads this
    {
      SetIn(child, index)
    }

    /** Bits beyond the size are set, so that they are never allocated. */
    ghost predicate Valid()
      reads this
    {
      Tracks(child, parent) && size <= 1024 && forall i: nat :: size <= i < 1024 ==> SetIn(child, i)
    }

    constructor (maxBits: nat)
      requires maxBits <= 1024
      ensures Valid() && size == maxBits
      ensures forall i: nat :: i < maxBits ==> !SetIn(child, i)
    {
      size := maxBits;
      child := seq(32, _ => 0);
      parent := 0;
      new;
      forall i: nat ensures !On(0, i) { EmptyOn(i); }
      if maxBits < 1024 {
        SetRange(maxBits, 1024 - maxBits);
      }
    }

    /** Put w in the place of child p, and note in the parent whether it is full. */
    method MarkIfFull(p: nat, w: bv32)
      requires Tracks(child, parent) && p < 32 && (child[p] == ALL ==> w == ALL)
      modifies this
      ensures Tracks(child, parent) && child == old(child)[p := w]
    {
      child := child[p := w];
      if w == ALL {
        parent := SetBit(parent, p);
      }
    }

    method Allocate() returns (index: nat)
      requires Valid()
      modifies this
      ensures Valid()
      ensures (forall i: nat :: i < size ==> SetIn(old(child), i)) ==> index == NONE && child == old(child)
      ensures (exists i: nat :: i < size && !SetIn(old(child), i)) ==>
                && index < size && !SetIn(old(child), index) && (forall j: nat :: j < index ==> SetIn(old(child), j))
                && Changes(old(child), child, index, 1, true)
    {
      index := NONE;
      var p := FindZero(parent);
      if p < 32 {
        var c := FindZero(child[p]);
        index := 32 * p + c;
        assert !SetIn(child, index);
        forall j: nat | j < index ensures SetIn(child, j) { BeforeFirst(child, parent, p, c, j); }
        var w := SetBit(child[p], c);
        ChildChanges(child, p, w, c, 1, true);
        MarkIfFull(p, w);
      } else {
        forall j: nat | j < 1024 ensures SetIn(child, j) { AllFull(child, parent, j); }
      }
    }

    method Free(index: nat)
      requires Tracks(child, parent) && index < 1024
      modifies this
      ensures Tracks(child, parent) && Changes(old(child), child, index, 1, false)
      ensures old(Valid()) && index < size ==> Valid()
    {
      var p, c := index / 32, index % 32;
      var w := FreeBit(child[p], c);
      assert !On(w, c);
      FullOn(w);
      ChildChanges(child, p, w, c, 1, false);
      child := child[p := w];
      parent := FreeBit(parent, p);
    }

    method Set(index: nat)
      requires Valid() && index < 1024
      modifies this
      ensures Valid() && Changes(old(child), child, index, 1, true)
    {
      var p, c := index / 32, index % 32;
      var w := SetBit(child[p], c);
      FullOn(child[p]);
      FullOn(w);
      ChildChanges(child, p, w, c, 1, true);
      MarkIfFull(p, w);
    }

    /** Set part of one child word and mark the child full if it now is. */
    method FillChild(p: nat, bit: nat, n: nat)
      requires Tracks(child, parent) && p < 32 && bit < 32 && bit + n <= 32
      modifies this
      ensures Tracks(child, parent) && Changes(old(child), child, 32 * p + bit, n, true)
    {
      var w := FillBits(child[p], bit, n);
      FullOn(child[p]);
      FullOn(w);
      ChildChanges(child, p, w, bit, n, true);
      MarkIfFull(p, w);
    }

    method SetRange(index: nat, count: nat)
      requires Tracks(child, parent) && index + count <= 1024
      modifies this
      ensures Tracks(child, parent)
      ensures Changes(old(child), child, index, count, true)
    {
      var p, c, left := index / 32, index % 32, count;
      if c != 0 {
        var partial := Min(left, 32 - c);
        FillChild(p, c, partial);
        p := p + 1;
        left := left - partial;
      }
      while left >= 32 && p < 32
        invariant p <= 32 && 0 <= left <= count && (left > 0 ==> 32 * p + left == index + count)
        invariant Tracks(child, parent)
        invariant Changes(old(child), child, index, count - left, true)
      {
        ghost var before := child;
        FillChild(p, 0, 32);
        ChangesJoin(old(child), before, child, index, count - left, 32, true);
        p := p + 1;
        left := left - 32;
      }
      if left != 0 && p < 32 {
        ghost var before := child;
        FillChild(p, 0, left);
        ChangesJoin(old(child), before, child, index, count - left, left, true);
      }
    }

    /** Clear part of one child word; the parent bit is cleared without looking at the child. */
    method DrainChild(p: nat, bit: nat, n: nat)
      requires |child| == 32 && p < 32 && bit < 32 && bit + n <= 32
      modifies this
      ensures |child| == 32 && Changes(old(child), child, 32 * p + bit, n, false)
      ensures forall q: nat :: On(parent, q) <==> On(old(parent), q) && q != p
      ensures child == old(child)[p := child[p]] && (n > 0 ==> child[p] != ALL)
      ensures n == 0 ==> (child[p] == ALL <==> old(child)[p] == ALL)
    {
      var w := DrainBits(child[p], bit, n);
      FullOn(child[p]);
      FullOn(w);
      assert n > 0 ==> !On(w, bit);
      ChildChanges(child, p, w, bit, n, false);
      child := child[p := w];
      parent := FreeBit(parent, p);
    }

    /**
     Clears exactly the range.  The tree stays consistent except when an empty
     range starts inside a full child: then the parent forgets that the child is full.
     */
    method ClearRange(index: nat, count: nat)
      requires Tracks(child, parent) && index < 1024 && index + count <= 1024
      modifies this
      ensures Changes(old(child), child, index, count, false)
      ensures Tracks(child, parent) <==> !(count == 0 && index % 32 != 0 && old(child)[index / 32] == ALL)
    {
      var p, c, left := index / 32, index % 32, count;
      if c != 0 {
        var partial := Min(left, 32 - c);
        DrainChild(p, c, partial);
        if count == 0 {
          assert On(parent, p) <==> false;
          return;
        }
        p := p + 1;
        left := left - partial;
      }
      while left >= 32 && p < 32
        invariant p <= 32 && 0 <= left <= count && (left > 0 ==> 32 * p + left == index + count)
        invariant Tracks(child, parent)
        invariant Changes(old(child), child, index, count - left, false)
      {
        ghost var before := child;
        DrainChild(p, 0, 32);
        ChangesJoin(old(child), before, child, index, count - left, 32, false);
        p := p + 1;
        left := left - 32;
      }
      if left != 0 && p < 32 {
        ghost var before := child;
        DrainChild(p, 0, left);
        ChangesJoin(old(child), before, child, index, count - left, left, false);
      }
    }
  }

  /** Everything before the first clear bit of the first child that is not full is set. */
  lemma BeforeFirst(child: seq<bv32>, parent: bv32, p: nat, c: nat, j: nat)
    requires Tracks(child, parent) && p < 32 && c < 32 && j < 32 * p + c
    requires forall q: nat :: q < p ==> On(parent, q)
    requires forall i: nat :: i < c ==> On(child[p], i)
    ensures SetIn(child, j)
  {
    if j / 32 < p {
      assert On(parent, j / 32);
      FullOn(child[j / 32]);
    }
  }

  lemma AllFull(child: seq<bv32>, parent: bv32, j: nat)
    requires Tracks(child, parent) && parent == ALL && j < 1024
    ensures SetIn(child, j)
  {
    FullOn(parent);
    assert On(parent, j / 32);
    FullOn(child[j / 32]);
  }

  lemma ChangesJoin(a: seq<bv32>, b: seq<bv32>, c: seq<bv32>, index: nat, n1: nat, n2: nat, value: bool)
    requires Changes(a, b, index, n1, value) && Changes(b, c, index + n1, n2, value)
    ensures Changes(a, c, index, n1 + n2, value)
  {
    forall i: nat {:trigger SetIn(c, i)} | i < 1024
      ensures SetIn(c, i) == if index <= i < index + n1 + n2 then value else SetIn(a, i)
    {
      assert SetIn(b, i) == if index <= i < index + n1 then value else SetIn(a, i);
    }
  }

  /** Clearing nothing at index 5 of a bitmap whose first 32 bits are set spoils it. */
  method EmptyClearSpoils() returns (b: Bitmap1024)
    ensures b.size == 1024 && !Tracks(b.child, b.parent)
  {
    b := new Bitmap1024(1024);
    b.SetRange(0, 32);
    assert b.child[0] == ALL by {
      forall j: nat | j < 32 ensures On(b.child[0], j) { assert SetIn(b.child, j); }
      FullOn(b.child[0]);
    }
    b.ClearRange(5, 0);
  }
}
