/**
 The free-chunk bins of dlmalloc (src/lib/libc/malloc.c): 32 lists for the
 small sizes, 32 tries for the large ones, and one bitmap for each group.
 */
module MallocBins {
  import opened TreeBins
  import opened Trie
  import opened TreeSearch

  const NSMALLBINS: nat := 32

  datatype Bins = Bins(small: seq<seq<nat>>, smallmap: set<nat>, tree: seq<Tree>, treemap: set<nat>)

  /** The chunk at a, of size s, is in the bin for s. */
  predicate Holds(b: Bins, a: nat, s: nat) {
    if s < MIN_LARGE_SIZE then s % 8 == 0 && s / 8 < |b.small| && a in b.small[s / 8]
    else s < SIZE_LIMIT && InBins(b.tree, a, s)
  }

  ghost predicate SmallOk(b: Bins) {
    && |b.small| == NSMALLBINS
    && (forall i :: 0 <= i < NSMALLBINS ==> NoDup(b.small[i]))
    && (forall i: nat :: i in b.smallmap <==> i < NSMALLBINS && b.small[i] != [])
  }

  ghost predicate BinsInv(b: Bins) {
    SmallOk(b) && BinsOk(b.tree) && MapOk(b.tree, b.treemap)
  }

  function EmptyBins(): Bins {
    Bins(seq(NSMALLBINS, _ => []), {}, seq(NTREEBINS, _ => Nil), {})
  }

  lemma EmptyBinsOk()
    ensures BinsInv(EmptyBins())
    ensures forall a: nat, s: nat :: !Holds(EmptyBins(), a, s)
  {
    forall i | 0 <= i < NTREEBINS ensures BinOk(EmptyBins().tree[i], i) { }
  }

  // ----- Small bins ------------------------------------------------------

  /** insert_small_chunk */
  function InsertSmall(b: Bins, a: nat, s: nat): Bins
    requires s / 8 < |b.small|
  {
    var i := s / 8;
    b.(small := b.small[i := [a] + b.small[i]], smallmap := b.smallmap + {i})
  }

  /** unlink_small_chunk */
  function UnlinkSmall(b: Bins, a: nat, s: nat): Bins
    requires s / 8 < |b.small|
  {
    var i := s / 8;
    var rest := Without(b.small[i], a);
    b.(small := b.small[i := rest], smallmap := if rest == [] then b.smallmap - {i} else b.smallmap)
  }

  lemma InsertSmallAdds(b: Bins, a: nat, s: nat)
    requires BinsInv(b) && s < MIN_LARGE_SIZE && s % 8 == 0 && !Holds(b, a, s)
    ensures BinsInv(InsertSmall(b, a, s))
    ensures forall x: nat, z: nat :: Holds(InsertSmall(b, a, s), x, z) <==> Holds(b, x, z) || (x == a && z == s)
  {
    var i := s / 8;
    assert forall j :: 0 <= j < |b.small[i]| ==> b.small[i][j] in b.small[i];
  }

  lemma UnlinkSmallRemoves(b: Bins, a: nat, s: nat)
    requires BinsInv(b) && s < MIN_LARGE_SIZE && Holds(b, a, s)
    ensures BinsInv(UnlinkSmall(b, a, s))
    ensures forall x: nat, z: nat :: Holds(UnlinkSmall(b, a, s), x, z) <==> Holds(b, x, z) && !(x == a && z == s)
  {
    WithoutRemoves(b.small[s / 8], a);
  }

  // ----- Tree bins -------------------------------------------------------

  /** insert_large_chunk */
  function InsertLarge(b: Bins, a: nat, s: nat): Bins
    requires TreeIndex(s) < |b.tree|
  {
    var i := TreeIndex(s);
    b.(tree := b.tree[i := Insert(b.tree[i], a, s, BinBits(i))], treemap := b.treemap + {i})
  }

  /** unlink_large_chunk */
  function UnlinkLarge(b: Bins, a: nat, s: nat): Bins
    requires TreeIndex(s) < |b.tree|
  {
    var i := TreeIndex(s);
    var t := Unlink(b.tree[i], a, s, BinBits(i));
    b.(tree := b.tree[i := t], treemap := if t == Nil then b.treemap - {i} else b.treemap)
  }

  /** One bin changed, and still holds only sizes of its own. */
  lemma BinReplaced(bins: seq<Tree>, i: nat, t: Tree)
    requires BinsOk(bins) && i < NTREEBINS && BinOk(t, i)
    ensures BinsOk(bins[i := t])
  {
  }

  /** The bin of s with the new chunk is a bin of the same index. */
  lemma InsertedBin(t: Tree, a: nat, s: nat, i: nat)
    requires MIN_LARGE_SIZE <= s < SIZE_LIMIT && i == TreeIndex(s) && BinOk(t, i) && !Has(t, a, s)
    ensures BinOk(Insert(t, a, s, BinBits(i)), i) && Insert(t, a, s, BinBits(i)).Node?
    ensures forall x, z :: Has(Insert(t, a, s, BinBits(i)), x, z) <==> Has(t, x, z) || (x == a && z == s)
  {
    BinPrefixOk(s);
    InsertAdds(t, a, s, BinPrefix(i), BinBits(i));
    assert HasSize(Insert(t, a, s, BinBits(i)), s);
  }

  lemma InsertLargeAdds(b: Bins, a: nat, s: nat)
    requires BinsInv(b) && MIN_LARGE_SIZE <= s < SIZE_LIMIT && !Holds(b, a, s)
    ensures TreeIndex(s) < NTREEBINS && BinsInv(InsertLarge(b, a, s))
    ensures forall x: nat, z: nat :: Holds(InsertLarge(b, a, s), x, z) <==> Holds(b, x, z) || (x == a && z == s)
  {
    var i := TreeIndex(s);
    BinRange(s);
    assert BinOk(b.tree[i], i);
    InsertedBin(b.tree[i], a, s, i);
    BinReplaced(b.tree, i, Insert(b.tree[i], a, s, BinBits(i)));
  }

  lemma UnlinkLargeRemoves(b: Bins, a: nat, s: nat)
    requires BinsInv(b) && MIN_LARGE_SIZE <= s < SIZE_LIMIT && Holds(b, a, s)
    ensures TreeIndex(s) < NTREEBINS && BinsInv(UnlinkLarge(b, a, s))
    ensures forall x: nat, z: nat :: Holds(UnlinkLarge(b, a, s), x, z) <==> Holds(b, x, z) && !(x == a && z == s)
  {
    var i := TreeIndex(s);
    assert BinOk(b.tree[i], i);
    UnlinkRemoves(b.tree[i], a, s, BinPrefix(i), BinBits(i));
    BinReplaced(b.tree, i, Unlink(b.tree[i], a, s, BinBits(i)));
  }

  // ----- Any size --------------------------------------------------------

  /** insert_chunk */
  function InsertChunk(b: Bins, a: nat, s: nat): Bins
    requires BinsInv(b) && s < SIZE_LIMIT
  {
    if s < MIN_LARGE_SIZE then InsertSmall(b, a, s)
    else BinRange(s); InsertLarge(b, a, s)
  }

  /** unlink_chunk */
  function UnlinkChunk(b: Bins, a: nat, s: nat): Bins
    requires BinsInv(b) && s < SIZE_LIMIT
  {
    if s < MIN_LARGE_SIZE then UnlinkSmall(b, a, s)
    else BinRange(s); UnlinkLarge(b, a, s)
  }

  /** Insertion adds exactly the one chunk. */
  lemma InsertChunkAdds(b: Bins, a: nat, s: nat)
    requires BinsInv(b) && s < SIZE_LIMIT && s % 8 == 0 && !Holds(b, a, s)
    ensures BinsInv(InsertChunk(b, a, s))
    ensures forall x: nat, z: nat :: Holds(InsertChunk(b, a, s), x, z) <==> Holds(b, x, z) || (x == a && z == s)
  {
    if s < MIN_LARGE_SIZE { InsertSmallAdds(b, a, s); } else { InsertLargeAdds(b, a, s); }
  }

  /** Unlinking removes exactly the one chunk. */
  lemma UnlinkChunkRemoves(b: Bins, a: nat, s: nat)
    requires BinsInv(b) && s < SIZE_LIMIT && Holds(b, a, s)
    ensures BinsInv(UnlinkChunk(b, a, s))
    ensures forall x: nat, z: nat :: Holds(UnlinkChunk(b, a, s), x, z) <==> Holds(b, x, z) && !(x == a && z == s)
  {
    if s < MIN_LARGE_SIZE { UnlinkSmallRemoves(b, a, s); } else { UnlinkLargeRemoves(b, a, s); }
  }

  // ----- Searching -------------------------------------------------------

  /** A binned chunk of size s has its size in some trie. */
  lemma LargeHasSize(b: Bins, a: nat, s: nat)
    requires BinsInv(b) && Holds(b, a, s) && s >= MIN_LARGE_SIZE
    ensures AnySize(b.tree, s)
  {
    HasImpliesSize(b.tree[TreeIndex(s)], a, s);
  }

  /** What the tree searches return is a smallest fit among all large chunks. */
  lemma BestIsSmallest(b: Bins, nb: nat, v: Tree)
    requires BinsInv(b) && BestFit(b.tree, nb, v)
    ensures v.Node? ==> Holds(b, v.ring[0], v.size) && v.size >= nb && v.size >= MIN_LARGE_SIZE
    ensures forall a: nat, s: nat :: Holds(b, a, s) && s >= nb && s >= MIN_LARGE_SIZE ==> v.Node? && v.size <= s
  {
    forall a: nat, s: nat | Holds(b, a, s) && s >= nb && s >= MIN_LARGE_SIZE ensures v.Node? && v.size <= s {
      LargeHasSize(b, a, s);
    }
    if v.Node? {
      var i := TreeIndex(v.size);
      assert BinOk(b.tree[i], i);
      HasImpliesSize(b.tree[i], v.ring[0], v.size);
    }
  }

  /**
   compute_bit2idx(least_bit(bits)) for the small bins from idx on, or 32 if
   none of those bits is set.
   */
  method NextSmallBin(b: Bins, idx: nat) returns (i: nat)
    requires SmallOk(b) && idx <= NSMALLBINS
    ensures idx <= i <= NSMALLBINS && (i < NSMALLBINS ==> b.small[i] != [])
    ensures forall j :: idx <= j < i ==> b.small[j] == []
  {
    i := idx;
    while i < NSMALLBINS && i !in b.smallmap
      invariant idx <= i <= NSMALLBINS && forall j :: idx <= j < i ==> b.small[j] == []
    {
      i := i + 1;
    }
  }
}
