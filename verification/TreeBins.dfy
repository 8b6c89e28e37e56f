/**
 The treebins of dlmalloc (src/lib/libc/malloc.c): which bin a size belongs
 to, and the bitwise trie inside each bin.

 Sizes are 32-bit unsigned numbers of at least 256 bytes.
 */
module TreeBins {
  import opened Arith

  const NTREEBINS: nat := 32
  const MIN_LARGE_SIZE: nat := 256
  const SIZE_LIMIT: nat := 0x1_0000_0000

  // ----- Bin indices -----------------------------------------------------

  /** Position of the highest set bit: 31 - clz(x). */
  function Log2(x: nat): nat
    requires x > 0
  {
    if x == 1 then 0 else 1 + Log2(x / 2)
  }

  /** compute_tree_index */
  function TreeIndex(s: nat): nat {
    var x := s / 256;
    if x == 0 then 0
    else if x > 0xFFFF then NTREEBINS - 1
    else
      var k := Log2(x);
      2 * k + (s / Pow2(k + 7)) % 2
  }

  /** minsize_for_tree_index */
  function MinSize(i: nat): nat {
    Pow2(i / 2 + 8) + (i % 2) * Pow2(i / 2 + 7)
  }

  /** Number of size bits the trie of bin i still has to tell apart (bit_for_tree_index plus one). */
  function BinBits(i: nat): nat {
    if i == NTREEBINS - 1 then 32 else i / 2 + 7
  }

  /** What the sizes of bin i have above those bits. */
  function BinPrefix(i: nat): nat {
    if i == NTREEBINS - 1 then 0 else 2 + i % 2
  }

  lemma {:induction false} Log2Bounds(x: nat)
    requires x > 0
    ensures Pow2(Log2(x)) <= x < Pow2(Log2(x) + 1)
  {
    if x > 1 { Log2Bounds(x / 2); }
  }

  lemma {:induction false} Pow2Mono(a: nat, b: nat)
    requires a <= b
    ensures Pow2(a) <= Pow2(b)
  {
    if a < b { Pow2Mono(a, b - 1); }
  }

  lemma {:induction false} Pow2Add(a: nat, b: nat)
    ensures Pow2(a + b) == Pow2(a) * Pow2(b)
  {
    if b > 0 { Pow2Add(a, b - 1); }
  }

  lemma Log2Small(x: nat)
    requires 0 < x <= 0xFFFF
    ensures Log2(x) <= 15
  {
    Log2Bounds(x);
    if Log2(x) > 15 {
      Pow2Mono(16, Log2(x));
      PowersBig();
    }
  }

  lemma PowersBig()
    ensures Pow2(8) == 256 && Pow2(16) == 0x1_0000 && Pow2(22) == 0x40_0000
    ensures Pow2(23) == 0x80_0000 && Pow2(24) == 0x100_0000 && Pow2(32) == SIZE_LIMIT
  {
    assert Pow2(8) == 256;
    Pow2Add(8, 8);
    Pow2Add(16, 8);
    Pow2Add(16, 6);
    Pow2Add(16, 16);
  }

  lemma QuotientBounds(s: nat, p: nat, n: nat)
    requires p > 0 && n * p <= s < (n + 1) * p
    ensures s / p == n
  {
    assert s == p * n + (s - n * p);
    DivUnique(s, p, n, s - n * p);
  }

  lemma QuotientRange(s: nat, p: nat)
    requires p > 0
    ensures (s / p) * p <= s < (s / p + 1) * p
  {
  }

  lemma QuotientLess(a: nat, c: nat, p: nat)
    requires p > 0 && a / p < c / p
    ensures a < c
  {
    QuotientRange(a, p);
    QuotientRange(c, p);
    var x, y := a / p, c / p;
    assert (x + 1) * p <= y * p by { MulLe(x + 1, y, p); }
  }

  lemma {:induction false} MulLe(x: nat, y: nat, p: nat)
    requires x <= y
    ensures x * p <= y * p
  {
    if x < y {
      MulLe(x, y - 1, p);
      assert y * p == (y - 1) * p + p;
    }
  }

  /** A size with highest bit k + 8 lies in the second or third quarter of the next power of two. */
  lemma Quarter(s: nat, k: nat) returns (bit: nat)
    requires MIN_LARGE_SIZE <= s && k == Log2(s / 256)
    ensures bit <= 1 && bit == (s / Pow2(k + 7)) % 2 && s / Pow2(k + 7) == 2 + bit
    ensures (2 + bit) * Pow2(k + 7) <= s < (3 + bit) * Pow2(k + 7)
  {
    Log2Bounds(s / 256);
    var p := Pow2(k + 7);
    QuarterBounds(s, k);
    if s < 3 * p {
      QuotientBounds(s, p, 2);
      bit := 0;
    } else {
      QuotientBounds(s, p, 3);
      bit := 1;
    }
  }

  lemma QuarterBounds(s: nat, k: nat)
    requires Pow2(k) <= s / 256 < Pow2(k + 1)
    ensures 2 * Pow2(k + 7) <= s < 4 * Pow2(k + 7)
  {
    Pow2Add(k, 7);
    Powers();
    var q := Pow2(k);
    assert Pow2(k + 7) == q * 128;
    assert Pow2(k + 1) == 2 * q;
  }

  /** MinSize of an even index and of the odd index after it. */
  lemma MinSizeParity(k: nat)
    ensures MinSize(2 * k) == 2 * Pow2(k + 7) && MinSize(2 * k + 1) == 3 * Pow2(k + 7)
  {
    assert Pow2(k + 8) == 2 * Pow2(k + 7);
    assert (2 * k) / 2 == k && (2 * k) % 2 == 0;
    assert (2 * k + 1) / 2 == k && (2 * k + 1) % 2 == 1;
  }

  /** The index of a size below 2^24, and the range it names. */
  lemma InnerBin(s: nat, k: nat, bit: nat)
    requires MIN_LARGE_SIZE <= s && s / 256 <= 0xFFFF && k == Log2(s / 256)
    requires bit <= 1 && bit == (s / Pow2(k + 7)) % 2
    ensures TreeIndex(s) == 2 * k + bit && k <= 15
    ensures MinSize(TreeIndex(s)) == (2 + bit) * Pow2(k + 7)
    ensures MinSize(TreeIndex(s) + 1) == (3 + bit) * Pow2(k + 7)
  {
    Log2Small(s / 256);
    MinSizeParity(k);
    MinSizeParity(k + 1);
    assert Pow2(k + 1 + 7) == 2 * Pow2(k + 7);
  }

  /** The bins split the sizes into consecutive ranges. */
  lemma BinRange(s: nat)
    requires MIN_LARGE_SIZE <= s < SIZE_LIMIT
    ensures TreeIndex(s) < NTREEBINS
    ensures MinSize(TreeIndex(s)) <= s
    ensures TreeIndex(s) < NTREEBINS - 1 ==> s < MinSize(TreeIndex(s) + 1)
  {
    PowersBig();
    if s / 256 <= 0xFFFF {
      var k := Log2(s / 256);
      var bit := Quarter(s, k);
      InnerBin(s, k, bit);
    }
  }

  lemma InnerPrefix(s: nat)
    requires MIN_LARGE_SIZE <= s && TreeIndex(s) < NTREEBINS - 1
    ensures s / Pow2(TreeIndex(s) / 2 + 7) == 2 + TreeIndex(s) % 2
  {
    var k := Log2(s / 256);
    var bit := Quarter(s, k);
    var i := TreeIndex(s);
    assert i == 2 * k + bit;
    assert i / 2 == k && i % 2 == bit;
  }

  /** Inside a bin only the low bits differ. */
  lemma BinPrefixOk(s: nat)
    requires MIN_LARGE_SIZE <= s < SIZE_LIMIT
    ensures s / Pow2(BinBits(TreeIndex(s))) == BinPrefix(TreeIndex(s))
  {
    BinRange(s);
    if TreeIndex(s) < NTREEBINS - 1 {
      InnerPrefix(s);
    } else {
      PowersBig();
      BelowBlock(s, Pow2(32));
    }
  }

  /** Larger bins hold larger sizes. */
  lemma BinOrder(s: nat, s': nat)
    requires MIN_LARGE_SIZE <= s < SIZE_LIMIT && MIN_LARGE_SIZE <= s' < SIZE_LIMIT
    requires TreeIndex(s) < TreeIndex(s')
    ensures s < s'
  {
    BinRange(s);
    BinRange(s');
    MinSizeMono(TreeIndex(s) + 1, TreeIndex(s'));
  }

  lemma {:induction false} MinSizeMono(i: nat, j: nat)
    requires i <= j
    ensures MinSize(i) <= MinSize(j)
  {
    if i < j {
      MinSizeMono(i, j - 1);
      assert (j - 1) % 2 == 0 ==> (j - 1) / 2 == j / 2;
      assert (j - 1) % 2 == 1 ==> j / 2 == (j - 1) / 2 + 1;
    }
  }
}
