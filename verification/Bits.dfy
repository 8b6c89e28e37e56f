/**
 Single 32-bit words as the kernel uses them (src/kernel/inc/bits.hpp and the
 word operations of bitmap32_c in src/kernel/inc/bitmap.hpp).  Each lemma says
 what a machine operation does to every bit, which is what lets Bitmap treat a
 word as the set of its set bit positions.  Positions are at most 32, so eight
 bits hold them.
 */
module Bits {

  const ALL: bv32 := 0xFFFF_FFFF

  predicate Bit(v: bv32, i: bv8)
    requires i < 32
  {
    (v >> i) & 1 == 1
  }

  function WithBit(v: bv32, i: bv8): bv32
    requires i < 32
  {
    v | (1 << i)
  }

  function WithoutBit(v: bv32, i: bv8): bv32
    requires i < 32
  {
    v & !(1 << i)
  }

  /** make_mask32: the bits from bit up to shift = bit + count; the cases avoid a shift by 32. */
  function MakeMask32(bit: bv8, shift: bv8): bv32
    requires bit <= 32
  {
    if shift < 32 then (ALL << bit) & !(ALL << shift)
    else if bit < 32 then ALL << bit
    else 0
  }

  lemma WithBitBits(v: bv32, k: bv8, i: bv8)
    requires k < 32 && i < 32
    ensures Bit(WithBit(v, k), i) <==> Bit(v, i) || i == k
  {
  }

  lemma WithoutBitBits(v: bv32, k: bv8, i: bv8)
    requires k < 32 && i < 32
    ensures Bit(WithoutBit(v, k), i) <==> Bit(v, i) && i != k
  {
  }

  lemma ShiftBits(lo: bv8, i: bv8)
    requires lo < 32 && i < 32
    ensures Bit(ALL << lo, i) <==> lo <= i
  {
  }

  lemma RangeBits(lo: bv8, hi: bv8, i: bv8)
    requires lo <= hi < 32 && i < 32
    ensures Bit((ALL << lo) & !(ALL << hi), i) <==> lo <= i < hi
  {
  }

  /** The mask covers exactly [bit, shift), up to and including a range that ends at bit 31. */
  lemma MaskBits(bit: bv8, shift: bv8, i: bv8)
    requires bit < 32 && bit <= shift <= 32 && i < 32
    ensures Bit(MakeMask32(bit, shift), i) <==> bit <= i < shift
  {
    if shift < 32 {
      RangeBits(bit, shift, i);
    } else {
      ShiftBits(bit, i);
    }
  }

  lemma OrBits(v: bv32, w: bv32, i: bv8)
    requires i < 32
    ensures Bit(v | w, i) <==> Bit(v, i) || Bit(w, i)
  {
  }

  lemma AndNotBits(v: bv32, w: bv32, i: bv8)
    requires i < 32
    ensures Bit(v & !w, i) <==> Bit(v, i) && !Bit(w, i)
  {
  }

  /** is_full */
  lemma FullWord(v: bv32)
    ensures v == ALL <==> forall i: bv8 :: i < 32 ==> Bit(v, i)
  {
    if forall i: bv8 :: i < 32 ==> Bit(v, i) {
      assert Bit(v, 0) && Bit(v, 1) && Bit(v, 2) && Bit(v, 3) && Bit(v, 4) && Bit(v, 5) && Bit(v, 6) && Bit(v, 7);
      assert Bit(v, 8) && Bit(v, 9) && Bit(v, 10) && Bit(v, 11) && Bit(v, 12) && Bit(v, 13) && Bit(v, 14) && Bit(v, 15);
      assert Bit(v, 16) && Bit(v, 17) && Bit(v, 18) && Bit(v, 19) && Bit(v, 20) && Bit(v, 21) && Bit(v, 22) && Bit(v, 23);
      assert Bit(v, 24) && Bit(v, 25) && Bit(v, 26) && Bit(v, 27) && Bit(v, 28) && Bit(v, 29) && Bit(v, 30) && Bit(v, 31);
    }
  }

  // ----- Positions as numbers --------------------------------------------

  /** A small number as a bit position. */
  function Pos(i: nat): bv8 {
    if i == 0 then 0 else Pos(i - 1) + 1
  }

  lemma {:induction false} PosAdd(i: nat, n: nat)
    ensures Pos(i + n) == Pos(i) + Pos(n)
  {
    if n > 0 { PosAdd(i, n - 1); }
  }

  lemma PosDouble(i: nat)
    ensures Pos(i) == Pos(i / 2) + Pos(i / 2) + (if i % 2 == 0 then 0 else 1)
  {
    PosAdd(i / 2, i / 2);
    if i % 2 == 1 { assert i == i / 2 + i / 2 + 1; } else { assert i == i / 2 + i / 2; }
  }

  lemma PosBelow8(i: nat)
    requires i < 8
    ensures Pos(i) < 8
  {
    PosDouble(i);
    PosDouble(i / 2);
    PosDouble(i / 4);
  }

  /** Up to 64 there is no wrap-around. */
  lemma PosBelow64(i: nat)
    requires i < 64
    ensures Pos(i) < 64
  {
    PosBelow8(i / 8);
    PosDouble(i);
    PosDouble(i / 2);
    PosDouble(i / 4);
    assert i / 2 / 2 == i / 4 && i / 4 / 2 == i / 8;
  }

  lemma {:induction false} PosOrder(i: nat, j: nat)
    requires i < j <= 64
    ensures Pos(i) < Pos(j)
    decreases j - i
  {
    PosBelow64(j - 1);
    if i < j - 1 { PosOrder(i, j - 1); }
  }

  lemma PosBelow32(i: nat)
    requires i <= 32
    ensures Pos(32) == 32 && Pos(i) <= 32 && (i < 32 ==> Pos(i) < 32)
  {
    PosDouble(32);
    PosDouble(16);
    PosDouble(8);
    PosDouble(4);
    PosDouble(2);
    if i < 32 { PosOrder(i, 32); }
  }
}
