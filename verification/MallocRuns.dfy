/**
 Whole runs of dlmalloc and dlfree (src/lib/libc/malloc.c): any sequence of
 requests and frees, starting from a fresh segment.  A step of a run is what
 the contracts of Malloc and Free say one call did.
 */
module MallocRuns {
  import opened MallocHeap
  import opened MallocBins
  import opened MallocArena
  import opened MallocSteps
  import opened Malloc

  ghost predicate IsRun(states: seq<MallocState>, es: seq<Event>) {
    |states| == |es| + 1 && forall i :: 0 <= i < |es| ==> Step(states[i], states[i + 1], es[i])
  }

  /** A segment that has only its top chunk. */
  ghost predicate Fresh(a: MallocState) {
    StateOk(a) && a.h.chunks == {}
  }

  /** The client's own books: which blocks it was given and has not returned, with their sizes. */
  function Books(es: seq<Event>): map<nat, nat> {
    if es == [] then map[] else
      var m := Books(es[..|es| - 1]);
      match es[|es| - 1]
      case Took(p, cs, nb) => m[p := CarvedSize(cs, nb)]
      case Cut(p, nb) => m[p := nb]
      case Gave(p) => m - {p}
      case Refused => m
  }

  ghost predicate LiveIs(h: Heap, m: map<nat, nat>) {
    forall a: nat, s: nat {:trigger LiveChunk(h, a, s)} :: LiveChunk(h, a, s) <==> a in m && m[a] == s
  }

  lemma StepLive(a: MallocState, a': MallocState, es: seq<Event>, e: Event)
    requires StateOk(a) && Step(a, a', e) && LiveIs(a.h, Books(es))
    ensures LiveIs(a'.h, Books(es + [e]))
    ensures e.Took? || e.Cut? ==> e.p !in Books(es)
    ensures e.Gave? ==> e.p in Books(es)
  {
    assert (es + [e])[..|es|] == es;
    var m := Books(es);
    var s := if !e.Refused? && e.p in m then m[e.p] else 0;
    match e
    case Took(p, cs, nb) =>
      CarveOk(a.h, p, cs, nb);
      assert !LiveChunk(a.h, p, s);
    case Cut(p, nb) =>
      UseTopStatus(a.h, nb);
      assert !LiveChunk(a.h, p, s);
    case Gave(p) =>
      FreedStatus(a.h, p);
      assert LiveChunk(a.h, p, Size(a.h, p));
    case Refused =>
  }

  /**
   At every point of every run the chunks tile the segment, the tags and bins
   are right, every free chunk is in exactly one bin or the designated victim,
   and the live chunks are those of the client's books.
   */
  lemma {:induction false} RunIsRight(states: seq<MallocState>, es: seq<Event>)
    requires IsRun(states, es) && Fresh(states[0])
    ensures StateOk(states[|es|]) && LiveIs(states[|es|].h, Books(es))
    ensures states[|es|].h.base == states[0].h.base
    ensures states[|es|].h.top + states[|es|].h.topsize == states[0].h.top + states[0].h.topsize
  {
    if es != [] {
      var n := |es| - 1;
      RunIsRight(states[..n + 1], es[..n]);
      assert Step(states[n], states[n + 1], es[n]);
      StepKeeps(states[n], states[n + 1], es[n]);
      StepLive(states[n], states[n + 1], es[..n], es[n]);
      assert es[..n] + [es[n]] == es;
    }
  }

  /** Over every run a free chunk is kept once: in the bin for its size, or as the designated victim. */
  lemma FreeChunksAreKept(states: seq<MallocState>, es: seq<Event>, a: nat, s: nat)
    requires IsRun(states, es) && Fresh(states[0])
    ensures var t := states[|es|];
            && (FreeChunk(t.h, a, s) <==> Holds(t.b, a, s) || DvIs(t.dv, t.dvsize, a, s))
            && !(Holds(t.b, a, s) && DvIs(t.dv, t.dvsize, a, s))
            && (forall z: nat :: Holds(t.b, a, s) && Holds(t.b, a, z) ==> z == s)
  {
    RunIsRight(states, es);
    var t := states[|es|];
    assert FreeChunk(t.h, a, s) <==> Kept(t.b, t.dv, t.dvsize, a, s);
    if Holds(t.b, a, s) { BinnedOnce(t.h, t.b, t.dv, t.dvsize, a, s); }
  }

  /**
   Blocks in the client's hands never overlap and never leave the segment: the
   user area of a block of chunk size s at a is the bytes from a + 8 to a + s + 4.
   */
  lemma BlocksNeverOverlap(states: seq<MallocState>, es: seq<Event>, a: nat, b: nat)
    requires IsRun(states, es) && Fresh(states[0]) && a in Books(es) && b in Books(es) && a < b
    ensures a + Books(es)[a] + 4 <= b + 8
    ensures states[0].h.base <= a && b + Books(es)[b] <= states[0].h.top + states[0].h.topsize
  {
    RunIsRight(states, es);
    var h := states[|es|].h;
    assert LiveChunk(h, a, Books(es)[a]) && LiveChunk(h, b, Books(es)[b]);
    LiveDisjoint(h, a, Books(es)[a], b, Books(es)[b]);
  }

  /** A run that returns everything it was given ends with the segment it started from: one top chunk. */
  lemma NothingLeaks(states: seq<MallocState>, es: seq<Event>)
    requires IsRun(states, es) && Fresh(states[0]) && Books(es) == map[]
    ensures var first, last := states[0].h, states[|es|].h;
            last.chunks == {} && last.top == first.top && last.topsize == first.topsize
  {
    RunIsRight(states, es);
    AllFreedIsOneTop(states[0].h);
    AllFreedIsOneTop(states[|es|].h);
  }

  /**
   A small chunk that was freed last is used first: the next request of its size
   gets it, if it went into a bin.
   */
  method FreeThenMalloc(arena: Arena, mem: nat, bytes: nat) returns (again: nat)
    requires arena.Valid() && mem >= 8 && CanFree(arena.Now(), mem - 8)
    requires var a, p := arena.Now(), mem - 8;
             && Hi(a.h, p) != a.h.top && Lo(a.h, p) != a.dv && Next(a.h, p) != a.dv
             && Hi(a.h, p) - Lo(a.h, p) == ChunkSize(bytes) < 256
    modifies arena
    ensures arena.Valid() && again == old(Lo(arena.View(), mem - 8)) + 8
  {
    ghost var a := arena.Now();
    arena.Free(mem);
    FreedFitsExactly(a, arena.Now(), mem - 8, ChunkSize(bytes));
    ghost var cs;
    again, cs := arena.Malloc(bytes);
  }

  lemma FreedFitsExactly(a: MallocState, a': MallocState, p: nat, nb: nat)
    requires CanFree(a, p) && StateOk(a') && Released(a.h, a'.h, p) && FreedKept(a, a', p)
    requires Hi(a.h, p) != a.h.top && Lo(a.h, p) != a.dv && Next(a.h, p) != a.dv && Hi(a.h, p) - Lo(a.h, p) == nb < 256
    ensures ExactFit(a', nb) && !NothingFits(a'.h, nb) && IsFirst(a'.b, Lo(a.h, p), nb)
  {
    var lo := Lo(a.h, p);
    assert FreeChunk(a'.h, lo, nb);
    assert lo != a'.dv;
  }

  /** Two calls on a fresh arena are such a run, and leave nothing behind. */
  method AllocateAndFree(arena: Arena, bytes: nat) returns (mem: nat)
    requires arena.Valid() && arena.chunks == {}
    modifies arena
    ensures arena.Valid() && arena.chunks == {} && arena.top == old(arena.top) && arena.topsize == old(arena.topsize)
  {
    ghost var a0 := arena.Now();
    ghost var cs;
    mem, cs := arena.Malloc(bytes);
    ghost var a1, e1 := arena.Now(), EventOf(mem, cs, ChunkSize(bytes));
    StepLive(a0, a1, [], e1);
    if mem != 0 { assert LiveChunk(a1.h, mem - 8, Books([] + [e1])[mem - 8]); }
    arena.Free(mem);
    ghost var a2, e2 := arena.Now(), if mem == 0 then Refused else Gave(mem - 8);
    assert IsRun([a0, a1, a2], [e1, e2]);
    BooksOfTwo(mem, e1, e2);
    NothingLeaks([a0, a1, a2], [e1, e2]);
  }

  lemma BooksOfTwo(mem: nat, e1: Event, e2: Event)
    requires if mem == 0 then e1 == Refused && e2 == Refused else mem >= 8 && (e1.Took? || e1.Cut?) && e1.p == mem - 8 && e2 == Gave(mem - 8)
    ensures Books([e1, e2]) == map[]
  {
    assert [e1, e2][..1] == [e1] && [e1][..0] == [];
    assert Books([]) == map[];
  }
}
