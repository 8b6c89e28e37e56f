/**
 One treebin: a bitwise trie of chunk sizes, each size once, with the chunks
 of equal size in a ring (insert_large_chunk and unlink_large_chunk,
 src/lib/libc/malloc.c).

 A subtree that still has b bits to tell apart holds only sizes s whose higher
 bits are a given prefix q, that is s / 2^b == q.
 */
module Trie {
  import opened Arith
  import TreeBins

  /** ring[0] is the chunk linked into the tree; the others follow along fd. */
  datatype Tree = Nil | Node(size: nat, ring: seq<nat>, left: Tree, right: Tree)

  ghost predicate NoDup(s: seq<nat>) {
    forall i, j :: 0 <= i < j < |s| ==> s[i] != s[j]
  }

  predicate HasSize(t: Tree, s: nat) {
    t.Node? && (t.size == s || HasSize(t.left, s) || HasSize(t.right, s))
  }

  /** The chunk at address a, of size s, is in the trie. */
  predicate Has(t: Tree, a: nat, s: nat) {
    t.Node? && ((t.size == s && a in t.ring) || Has(t.left, a, s) || Has(t.right, a, s))
  }

  ghost predicate Valid(t: Tree, q: nat, b: nat)
    decreases t
  {
    t.Node? ==>
      && t.size / Pow2(b) == q
      && t.ring != [] && NoDup(t.ring)
      && !HasSize(t.left, t.size) && !HasSize(t.right, t.size)
      && if b == 0 then t.left == Nil && t.right == Nil
         else Valid(t.left, 2 * q, b - 1) && Valid(t.right, 2 * q + 1, b - 1)
  }

  /** The bit that picks the child, when b bits are left: the top bit of the shifted size. */
  predicate GoRight(s: nat, b: nat)
    requires b > 0
  {
    (s / Pow2(b - 1)) % 2 == 1
  }

  // ----- Basic facts -----------------------------------------------------

  /** A size with prefix q goes on with prefix 2q or 2q + 1, as its next bit says. */
  lemma NextPrefix(s: nat, q: nat, b: nat)
    requires b > 0 && s / Pow2(b) == q
    ensures s / Pow2(b - 1) == if GoRight(s, b) then 2 * q + 1 else 2 * q
  {
    DivPow(s, b - 1);
  }

  lemma {:induction false} SizesHavePrefix(t: Tree, q: nat, b: nat, s: nat)
    requires Valid(t, q, b) && HasSize(t, s)
    ensures s / Pow2(b) == q
    decreases t
  {
    if t.size != s {
      if HasSize(t.left, s) {
        SizesHavePrefix(t.left, 2 * q, b - 1, s);
      } else {
        SizesHavePrefix(t.right, 2 * q + 1, b - 1, s);
      }
      DivPow(s, b - 1);
    }
  }

  lemma {:induction false} HasImpliesSize(t: Tree, a: nat, s: nat)
    requires Has(t, a, s)
    ensures HasSize(t, s)
  {
    if !(t.size == s && a in t.ring) {
      if Has(t.left, a, s) { HasImpliesSize(t.left, a, s); } else { HasImpliesSize(t.right, a, s); }
    }
  }

  /** Everything on the left is smaller than everything on the right. */
  lemma LeftBelowRight(t: Tree, q: nat, b: nat, x: nat, y: nat)
    requires t.Node? && Valid(t, q, b) && HasSize(t.left, x) && HasSize(t.right, y)
    ensures x < y
  {
    SizesHavePrefix(t.left, 2 * q, b - 1, x);
    SizesHavePrefix(t.right, 2 * q + 1, b - 1, y);
    TreeBins.QuotientLess(x, y, Pow2(b - 1));
  }

  /** A chunk of size s can only be found by following the bits of s. */
  lemma FollowBits(t: Tree, q: nat, b: nat, s: nat)
    requires t.Node? && Valid(t, q, b) && t.size != s && s / Pow2(b) == q
    ensures b > 0
    ensures GoRight(s, b) ==> !HasSize(t.left, s)
    ensures !GoRight(s, b) ==> !HasSize(t.right, s)
  {
    if b > 0 {
      NextPrefix(s, q, b);
      if HasSize(t.left, s) { SizesHavePrefix(t.left, 2 * q, b - 1, s); }
      if HasSize(t.right, s) { SizesHavePrefix(t.right, 2 * q + 1, b - 1, s); }
    }
  }

  // ----- insert_large_chunk ----------------------------------------------

  function Insert(t: Tree, x: nat, s: nat, b: nat): Tree
    decreases t
  {
    match t
    case Nil => Node(s, [x], Nil, Nil)
    case Node(size, ring, left, right) =>
      if size == s then
        if ring == [] then t else Node(size, [ring[0], x] + ring[1..], left, right)
      else if b == 0 then t
      else if GoRight(s, b) then Node(size, ring, left, Insert(right, x, s, b - 1))
      else Node(size, ring, Insert(left, x, s, b - 1), right)
  }

  /** Insertion adds exactly the new chunk and keeps the trie a trie. */
  lemma {:induction false} InsertAdds(t: Tree, x: nat, s: nat, q: nat, b: nat)
    requires Valid(t, q, b) && s / Pow2(b) == q && !Has(t, x, s)
    ensures Valid(Insert(t, x, s, b), q, b)
    ensures forall z :: HasSize(Insert(t, x, s, b), z) <==> HasSize(t, z) || z == s
    ensures forall a, z :: Has(Insert(t, x, s, b), a, z) <==> Has(t, a, z) || (a == x && z == s)
    decreases t
  {
    var t' := Insert(t, x, s, b);
    if t.Node? {
      if t.size == s {
        RingInsert(t.ring, x);
      } else {
        FollowBits(t, q, b, s);
        NextPrefix(s, q, b);
        if GoRight(s, b) {
          InsertAdds(t.right, x, s, 2 * q + 1, b - 1);
        } else {
          InsertAdds(t.left, x, s, 2 * q, b - 1);
        }
      }
    }
  }

  lemma RingInsert(ring: seq<nat>, x: nat)
    requires ring != [] && NoDup(ring) && x !in ring
    ensures NoDup([ring[0], x] + ring[1..])
    ensures forall a :: a in [ring[0], x] + ring[1..] <==> a in ring || a == x
  {
    assert ring == [ring[0]] + ring[1..];
  }

  // ----- unlink_large_chunk ----------------------------------------------

  /** The rightmost leaf below t, and t without it. */
  function TakeLeaf(t: Tree): (Tree, Tree)
    requires t.Node?
    ensures TakeLeaf(t).0.Node?
    decreases t
  {
    if t.right.Node? then
      var (leaf, rest) := TakeLeaf(t.right);
      (leaf, t.(right := rest))
    else if t.left.Node? then
      var (leaf, rest) := TakeLeaf(t.left);
      (leaf, t.(left := rest))
    else (t, Nil)
  }

  /** Unlink the only chunk of a node: a leaf below takes its place. */
  function ReplaceRoot(t: Tree): Tree
    requires t.Node?
  {
    if t.right.Node? then
      var (leaf, rest) := TakeLeaf(t.right);
      Node(leaf.size, leaf.ring, t.left, rest)
    else if t.left.Node? then
      var (leaf, rest) := TakeLeaf(t.left);
      Node(leaf.size, leaf.ring, rest, t.right)
    else Nil
  }

  function Without(ring: seq<nat>, x: nat): seq<nat> {
    if ring == [] then []
    else if ring[0] == x then ring[1..]
    else [ring[0]] + Without(ring[1..], x)
  }

  /** Unlink x from its ring; if it was the tree member, its bk neighbour takes over. */
  function RingRemove(ring: seq<nat>, x: nat): seq<nat>
    requires |ring| > 1
  {
    if ring[0] == x then [ring[|ring| - 1]] + ring[1..|ring| - 1] else Without(ring, x)
  }

  function Unlink(t: Tree, x: nat, s: nat, b: nat): Tree
    decreases t
  {
    match t
    case Nil => Nil
    case Node(size, ring, left, right) =>
      if size == s then
        if |ring| > 1 then Node(size, RingRemove(ring, x), left, right) else ReplaceRoot(t)
      else if b == 0 then t
      else if GoRight(s, b) then Node(size, ring, left, Unlink(right, x, s, b - 1))
      else Node(size, ring, Unlink(left, x, s, b - 1), right)
  }

  lemma {:induction false} WithoutRemoves(ring: seq<nat>, x: nat)
    requires NoDup(ring) && x in ring
    ensures NoDup(Without(ring, x)) && |Without(ring, x)| == |ring| - 1
    ensures forall a :: a in Without(ring, x) <==> a in ring && a != x
  {
    assert ring == [ring[0]] + ring[1..];
    if ring[0] != x {
      WithoutRemoves(ring[1..], x);
      var w := Without(ring[1..], x);
      assert forall j :: 0 <= j < |w| ==> w[j] in w;
      assert ring[0] !in w;
    }
  }

  lemma RingRemoves(ring: seq<nat>, x: nat)
    requires |ring| > 1 && NoDup(ring) && x in ring
    ensures RingRemove(ring, x) != [] && NoDup(RingRemove(ring, x))
    ensures forall a :: a in RingRemove(ring, x) <==> a in ring && a != x
  {
    if ring[0] == x {
      var n := |ring| - 1;
      assert ring == [ring[0]] + ring[1..n] + [ring[n]];
    } else {
      WithoutRemoves(ring, x);
    }
  }

  /** Taking the rightmost leaf splits the trie into that leaf's chunks and the rest. */
  lemma {:induction false} TakeLeafSplits(t: Tree, q: nat, b: nat)
    requires t.Node? && Valid(t, q, b)
    ensures var (leaf, rest) := TakeLeaf(t);
            && Valid(rest, q, b)
            && leaf.size / Pow2(b) == q && leaf.ring != [] && NoDup(leaf.ring)
            && (forall z :: HasSize(rest, z) <==> HasSize(t, z) && z != leaf.size)
            && (forall a, z :: Has(t, a, z) <==> Has(rest, a, z) || (z == leaf.size && a in leaf.ring))
    ensures HasSize(t, TakeLeaf(t).0.size)
    decreases t
  {
    var (leaf, rest) := TakeLeaf(t);
    if t.right.Node? {
      TakeLeafSplits(t.right, 2 * q + 1, b - 1);
      DivPow(leaf.size, b - 1);
      LeftLacks(t, q, b, leaf.size);
    } else if t.left.Node? {
      TakeLeafSplits(t.left, 2 * q, b - 1);
      DivPow(leaf.size, b - 1);
      RightLacks(t, q, b, leaf.size);
    }
  }

  lemma LeftLacks(t: Tree, q: nat, b: nat, z: nat)
    requires t.Node? && Valid(t, q, b) && b > 0 && HasSize(t.right, z)
    ensures !HasSize(t.left, z) && t.size != z
  {
    if HasSize(t.left, z) { LeftBelowRight(t, q, b, z, z); }
  }

  lemma RightLacks(t: Tree, q: nat, b: nat, z: nat)
    requires t.Node? && Valid(t, q, b) && b > 0 && HasSize(t.left, z)
    ensures !HasSize(t.right, z) && t.size != z
  {
    if HasSize(t.right, z) { LeftBelowRight(t, q, b, z, z); }
  }

  lemma {:induction false} NoSizeNoChunk(t: Tree, s: nat)
    requires !HasSize(t, s)
    ensures forall a :: !Has(t, a, s)
  {
    forall a ensures !Has(t, a, s) {
      if Has(t, a, s) { HasImpliesSize(t, a, s); }
    }
  }

  /** Replacing an interior node by a leaf below it removes exactly that node's size. */
  lemma ReplaceRootRemoves(t: Tree, q: nat, b: nat)
    requires t.Node? && Valid(t, q, b)
    ensures Valid(ReplaceRoot(t), q, b)
    ensures forall z :: HasSize(ReplaceRoot(t), z) <==> HasSize(t, z) && z != t.size
    ensures forall a, z :: Has(ReplaceRoot(t), a, z) <==> Has(t, a, z) && z != t.size
  {
    NoSizeNoChunk(t.left, t.size);
    NoSizeNoChunk(t.right, t.size);
    if t.right.Node? {
      var (leaf, rest) := TakeLeaf(t.right);
      TakeLeafSplits(t.right, 2 * q + 1, b - 1);
      DivPow(leaf.size, b - 1);
      LeftLacks(t, q, b, leaf.size);
    } else if t.left.Node? {
      var (leaf, rest) := TakeLeaf(t.left);
      TakeLeafSplits(t.left, 2 * q, b - 1);
      DivPow(leaf.size, b - 1);
      RightLacks(t, q, b, leaf.size);
    }
  }

  /** Unlinking removes exactly the one chunk and keeps the trie a trie. */
  lemma {:induction false} UnlinkRemoves(t: Tree, x: nat, s: nat, q: nat, b: nat)
    requires Valid(t, q, b) && Has(t, x, s)
    ensures Valid(Unlink(t, x, s, b), q, b)
    ensures forall z :: HasSize(Unlink(t, x, s, b), z) ==> HasSize(t, z)
    ensures forall a, z :: Has(Unlink(t, x, s, b), a, z) <==> Has(t, a, z) && !(a == x && z == s)
    decreases t
  {
    HasImpliesSize(t, x, s);
    SizesHavePrefix(t, q, b, s);
    if t.size == s {
      NoSizeNoChunk(t.left, s);
      NoSizeNoChunk(t.right, s);
      if |t.ring| > 1 {
        RingRemoves(t.ring, x);
      } else {
        ReplaceRootRemoves(t, q, b);
      }
    } else {
      FollowBits(t, q, b, s);
      NoSizeNoChunk(if GoRight(s, b) then t.left else t.right, s);
      if GoRight(s, b) {
        UnlinkRemoves(t.right, x, s, 2 * q + 1, b - 1);
      } else {
        UnlinkRemoves(t.left, x, s, 2 * q, b - 1);
      }
    }
  }
}
