/**
 bitmap32_c (src/kernel/inc/bitmap.hpp): one 32-bit word as a set of indices.
 Each operation is the machine operation of the source; the lemma beside it
 says which indices are set afterwards.
 */
module Bitmap32 {
  import opened Bits

  /** What allocate() returns when there is no clear bit. */
  const NONE: nat := 0xFFFF_FFFF

  /** is_set */
  predicate On(w: bv32, i: nat) {
    i < 32 && (PosBelow32(i); Bit(w, Pos(i)))
  }

  lemma PosEqual(i: nat, j: nat)
    requires i <= 64 && j <= 64
    ensures Pos(i) == Pos(j) <==> i == j
    ensures Pos(i) <= Pos(j) <==> i <= j
  {
    if i < j { PosOrder(i, j); } else if j < i { PosOrder(j, i); }
  }

  // ----- Single bits -----------------------------------------------------

  /** set */
  method SetBit(w: bv32, i: nat) returns (r: bv32)
    requires i < 32
    ensures forall j: nat :: On(r, j) <==> On(w, j) || j == i
  {
    PosBelow32(i);
    r := WithBit(w, Pos(i));
    forall j: nat ensures On(r, j) <==> On(w, j) || j == i { SetOn(w, i, j); }
  }

  lemma SetOn(w: bv32, i: nat, j: nat)
    requires i < 32
    ensures Pos(i) < 32 && (On(WithBit(w, Pos(i)), j) <==> On(w, j) || j == i)
  {
    PosBelow32(i);
    if j < 32 {
      PosBelow32(j);
      PosEqual(i, j);
      WithBitBits(w, Pos(i), Pos(j));
    }
  }

  /** free */
  method FreeBit(w: bv32, i: nat) returns (r: bv32)
    requires i < 32
    ensures forall j: nat :: On(r, j) <==> On(w, j) && j != i
  {
    PosBelow32(i);
    r := WithoutBit(w, Pos(i));
    forall j: nat ensures On(r, j) <==> On(w, j) && j != i { FreeOn(w, i, j); }
  }

  lemma FreeOn(w: bv32, i: nat, j: nat)
    requires i < 32
    ensures Pos(i) < 32 && (On(WithoutBit(w, Pos(i)), j) <==> On(w, j) && j != i)
  {
    PosBelow32(i);
    if j < 32 {
      PosBelow32(j);
      PosEqual(i, j);
      WithoutBitBits(w, Pos(i), Pos(j));
    }
  }

  // ----- Ranges ----------------------------------------------------------

  /** make_mask32 */
  method MakeMask(i: nat, n: nat) returns (mask: bv32)
    requires i < 32 && i + n <= 32
    ensures forall j: nat :: On(mask, j) <==> i <= j < i + n
  {
    var shift := i + n;
    RangeBounds(i, shift);
    mask := MakeMask32(Pos(i), Pos(shift));
    MaskCovers(Pos(i), Pos(shift));
    forall j: nat ensures On(mask, j) <==> i <= j < shift { MaskOn(mask, i, shift, j); }
  }

  ghost predicate Covers(mask: bv32, lo: bv8, hi: bv8) {
    forall c: bv8 :: c < 32 ==> (Bit(mask, c) <==> lo <= c < hi)
  }

  lemma MaskCovers(lo: bv8, hi: bv8)
    requires lo < 32 && lo <= hi <= 32
    ensures Covers(MakeMask32(lo, hi), lo, hi)
  {
    forall c: bv8 | c < 32 ensures Bit(MakeMask32(lo, hi), c) <==> lo <= c < hi { MaskBits(lo, hi, c); }
  }

  lemma MaskOn(mask: bv32, i: nat, shift: nat, j: nat)
    requires i <= shift <= 32 && Covers(mask, Pos(i), Pos(shift))
    ensures On(mask, j) <==> i <= j < shift
  {
    if j < 32 {
      InWord(j);
      RangeOrder(i, shift, j);
      OnCovered(mask, j, Pos(i), Pos(shift), i <= j < shift);
    }
  }

  lemma OnCovered(mask: bv32, j: nat, lo: bv8, hi: bv8, inside: bool)
    requires j < 32 && Pos(j) < 32 && Covers(mask, lo, hi) && (lo <= Pos(j) < hi <==> inside)
    ensures On(mask, j) <==> inside
  {
  }

  lemma InWord(i: nat)
    requires i < 32
    ensures Pos(i) < 32
  {
    PosBelow32(i);
  }

  lemma AtMostWord(i: nat)
    requires i <= 32
    ensures Pos(i) <= 32
  {
    PosBelow32(i);
  }

  lemma RangeBounds(i: nat, shift: nat)
    requires i < 32 && i <= shift <= 32
    ensures Pos(i) < 32 && Pos(i) <= Pos(shift) <= 32
  {
    InWord(i);
    AtMostWord(shift);
    if i < shift { PosOrder(i, shift); }
  }

  /** The order of positions as bit vectors is their order as numbers. */
  lemma RangeOrder(i: nat, shift: nat, j: nat)
    requires i <= shift <= 32 && j < 32
    ensures Pos(i) <= Pos(j) < Pos(shift) <==> i <= j < shift
  {
    if j < i { PosOrder(j, i); } else if i < j { PosOrder(i, j); }
    if j < shift { PosOrder(j, shift); } else if shift < j { PosOrder(shift, j); }
  }

  /** set, a range */
  method FillBits(w: bv32, i: nat, n: nat) returns (r: bv32)
    requires i < 32 && i + n <= 32
    ensures forall j: nat :: On(r, j) <==> On(w, j) || i <= j < i + n
  {
    var mask := MakeMask(i, n);
    r := w | mask;
    forall j: nat ensures On(r, j) <==> On(w, j) || On(mask, j) { OrOn(w, mask, j); }
  }

  lemma OrOn(w: bv32, mask: bv32, j: nat)
    ensures On(w | mask, j) <==> On(w, j) || On(mask, j)
  {
    if j < 32 {
      PosBelow32(j);
      OrBits(w, mask, Pos(j));
    }
  }

  /** clear */
  method DrainBits(w: bv32, i: nat, n: nat) returns (r: bv32)
    requires i < 32 && i + n <= 32
    ensures forall j: nat :: On(r, j) <==> On(w, j) && !(i <= j < i + n)
  {
    var mask := MakeMask(i, n);
    r := w & !mask;
    forall j: nat ensures On(r, j) <==> On(w, j) && !On(mask, j) { AndNotOn(w, mask, j); }
  }

  lemma AndNotOn(w: bv32, mask: bv32, j: nat)
    ensures On(w & !mask, j) <==> On(w, j) && !On(mask, j)
  {
    if j < 32 {
      PosBelow32(j);
      AndNotBits(w, mask, Pos(j));
    }
  }

  // ----- Full words ------------------------------------------------------

  lemma {:induction false} PosOnto(k: bv8, n: nat) returns (i: nat)
    requires n <= 32 && k < Pos(n)
    ensures i < n && Pos(i) == k
  {
    PosBelow32(n);
    PosBelow32(n - 1);
    if k == Pos(n - 1) {
      i := n - 1;
    } else {
      i := PosOnto(k, n - 1);
    }
  }

  /** is_full */
  lemma FullOn(w: bv32)
    ensures w == ALL <==> forall j: nat :: j < 32 ==> On(w, j)
  {
    PosBelow32(32);
    if w == ALL {
      FullWord(w);
      forall j: nat | j < 32 ensures On(w, j) { PosBelow32(j); }
    }
    if forall j: nat :: j < 32 ==> On(w, j) {
      forall k: bv8 | k < 32 ensures Bit(w, k) {
        var i := PosOnto(k, 32);
        assert On(w, i);
      }
      FullWord(w);
    }
  }

  lemma EmptyOn(j: nat)
    ensures !On(0, j)
  {
    if j < 32 { PosBelow32(j); }
  }

  /** find_zero_bit32 */
  method FindZero(w: bv32) returns (index: nat)
    ensures w == ALL ==> index == NONE
    ensures w != ALL ==> index < 32 && !On(w, index) && forall j: nat :: j < index ==> On(w, j)
  {
    FullOn(w);
    index := 0;
    while index < 32 && On(w, index)
      invariant index <= 32 && forall j: nat :: j < index ==> On(w, j)
    {
      index := index + 1;
    }
    if index == 32 { index := NONE; }
  }
}
