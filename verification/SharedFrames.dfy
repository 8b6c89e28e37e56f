/**
 Shared page frames: the state that page tables, shared-frame tables, large
 messages and the frame allocator have in common (src/kernel/memory_manager/
 address_space.cpp, shared_frame.cpp, src/kernel/libk/large_message.cpp,
 src/kernel/inc/counted_object.hpp), and the elementary steps on it.
 */
module SharedFrames {
  import opened Options

  /** A page of an address space. */
  datatype Place = Place(space: nat, page: nat)

  /** A page table entry that is present. */
  datatype Pte = Pte(frame: nat, writable: bool, isShared: bool, copyOnWrite: bool)

  /** shared_frame_c: a counted frame. */
  datatype SharedFrame = SharedFrame(address: nat, count: int)

  /** large_message_c: its frame list, and how many of the references its destructor has released. */
  datatype Payload = Payload(frames: seq<nat>, released: nat)

  /** Who can hold a reference to a shared frame. */
  datatype Holder =
    | InTable(place: Place)             // the shared-frame table entry of a page
    | InMessage(message: nat, i: nat)   // an element of a message's frame list
    | Caller                            // share_frame's caller, before it stores the reference

  /**
   shared maps a descriptor to its frame and count, table a page to the
   descriptor shared there.  Holders is specification only: who holds a
   reference to each descriptor.
   */
  datatype State = State(
    entry: map<Place, Pte>,
    table: map<Place, nat>,
    shared: map<nat, SharedFrame>,
    message: map<nat, Payload>,
    inHand: Option<nat>,
    free: set<nat>,
    bytes: map<nat, seq<bv8>>,
    holders: map<nat, set<Holder>>)

  /** The descriptor that holder x refers to. */
  function Target(s: State, x: Holder): Option<nat> {
    match x
    case InTable(p) => if p in s.table then Some(s.table[p]) else None
    case InMessage(m, i) =>
      if m in s.message && s.message[m].released <= i < |s.message[m].frames| then Some(s.message[m].frames[i]) else None
    case Caller => s.inHand
  }

  /** What a thread of that address space reads there. */
  function Visible(s: State, p: Place): seq<bv8>
    requires p in s.entry
  {
    Contents(s, s.entry[p].frame)
  }

  function Contents(s: State, f: nat): seq<bv8> {
    if f in s.bytes then s.bytes[f] else []
  }

  // ----- The invariant ---------------------------------------------------

  /** The count of r is the number of its holders, and its frame is not free. */
  ghost predicate CountOk(s: State, r: nat) {
    && r in s.shared && r in s.holders && s.shared[r].count == |s.holders[r]| && s.holders[r] != {}
    && s.shared[r].address !in s.free && s.shared[r].address != 0
  }

  ghost predicate HolderOk(s: State, r: nat, x: Holder) {
    r in s.holders && (x in s.holders[r] <==> Target(s, x) == Some(r))
  }

  /** A shared page is read-only, and maps the frame of its descriptor. */
  ghost predicate TableOk(s: State, p: Place) {
    && p in s.table && s.table[p] in s.shared && p in s.entry
    && s.entry[p] == Pte(s.shared[s.table[p]].address, false, true, true)
  }

  ghost predicate EntryOk(s: State, p: Place) {
    && p in s.entry && s.entry[p].frame !in s.free && s.entry[p].frame != 0
    && (p !in s.table ==> !s.entry[p].isShared && !s.entry[p].copyOnWrite)
  }

  /** A private page shares its frame with no other page and no descriptor. */
  ghost predicate Alone(s: State, p: Place, q: Place) {
    p in s.entry && q in s.entry && p !in s.table && p != q ==> s.entry[p].frame != s.entry[q].frame
  }

  ghost predicate NotShared(s: State, p: Place, r: nat) {
    p in s.entry && r in s.shared && p !in s.table ==> s.entry[p].frame != s.shared[r].address
  }

  ghost predicate Different(s: State, r: nat, t: nat) {
    r in s.shared && t in s.shared && r != t ==> s.shared[r].address != s.shared[t].address
  }

  ghost predicate CountsOk(s: State) {
    && s.shared.Keys == s.holders.Keys && 0 !in s.free
    && (forall r: nat {:trigger CountOk(s, r)} :: r in s.shared ==> CountOk(s, r))
    && (forall r: nat, t: nat {:trigger Different(s, r, t)} :: Different(s, r, t))
  }

  ghost predicate HoldersOk(s: State) {
    && (forall r: nat, x: Holder {:trigger HolderOk(s, r, x)} :: r in s.shared ==> HolderOk(s, r, x))
    && (forall x: Holder {:trigger Target(s, x)} :: Target(s, x).Some? ==> Target(s, x).value in s.shared)
  }

  ghost predicate PagesOk(s: State) {
    && (forall p: Place {:trigger TableOk(s, p)} :: p in s.table ==> TableOk(s, p))
    && (forall p: Place {:trigger EntryOk(s, p)} :: p in s.entry ==> EntryOk(s, p))
    && (forall p: Place, q: Place {:trigger Alone(s, p, q)} :: Alone(s, p, q))
    && (forall p: Place, r: nat {:trigger NotShared(s, p, r)} :: NotShared(s, p, r))
  }

  ghost predicate Inv(s: State) {
    CountsOk(s) && HoldersOk(s) && PagesOk(s)
  }

  // ----- Consequences ----------------------------------------------------

  /** A page that can be written maps a frame that no other page maps. */
  lemma WritableIsExclusive(s: State, p: Place, q: Place)
    requires Inv(s) && p in s.entry && q in s.entry && p != q && s.entry[p].writable
    ensures s.entry[p].frame != s.entry[q].frame
  {
    assert p in s.table ==> TableOk(s, p);
    assert Alone(s, p, q);
  }

  /** The reference count of every descriptor is exactly the number of references to it. */
  lemma CountIsHolders(s: State, r: nat)
    requires Inv(s) && r in s.shared
    ensures r in s.holders && s.shared[r].count == |s.holders[r]| > 0
    ensures forall x: Holder :: x in s.holders[r] <==> Target(s, x) == Some(r)
  {
    assert CountOk(s, r);
    forall x: Holder ensures x in s.holders[r] <==> Target(s, x) == Some(r) {
      assert HolderOk(s, r, x);
    }
    assert |s.holders[r]| > 0;
  }

  // ----- Elementary steps ------------------------------------------------

  /** add_reference */
  function AddRef(s: State, r: nat, x: Holder): State
    requires r in s.shared && r in s.holders
  {
    s.(shared := s.shared[r := s.shared[r].(count := s.shared[r].count + 1)],
       holders := s.holders[r := s.holders[r] + {x}])
  }

  /** remove_reference: the last one destroys the descriptor, which returns the frame to the allocator. */
  function DropRef(s: State, r: nat, x: Holder): State
    requires r in s.shared && r in s.holders
  {
    if s.shared[r].count == 1 then
      s.(shared := s.shared - {r}, holders := s.holders - {r}, free := s.free + {s.shared[r].address})
    else
      s.(shared := s.shared[r := s.shared[r].(count := s.shared[r].count - 1)],
         holders := s.holders[r := s.holders[r] - {x}])
  }

  /** Share a page that is already shared. */
  function ShareOld(s: State, p: Place): State
    requires p in s.table && s.table[p] in s.shared && s.table[p] in s.holders
  {
    AddRef(s, s.table[p], Caller).(inHand := Some(s.table[p]))
  }

  /** Share a private page through a new descriptor r. */
  function ShareNew(s: State, p: Place, r: nat): State
    requires p in s.entry
  {
    var f := s.entry[p].frame;
    s.(entry := s.entry[p := Pte(f, false, true, true)],
       table := s.table[p := r],
       shared := s.shared[r := SharedFrame(f, 2)],
       inHand := Some(r),
       holders := s.holders[r := {InTable(p), Caller}])
  }

  /** The caller stores its reference at the end of message m's frame list. */
  function Stash(s: State, m: nat): State
    requires m in s.message && s.inHand.Some? && s.inHand.value in s.holders
  {
    var r := s.inHand.value;
    var frames := s.message[m].frames;
    s.(message := s.message[m := s.message[m].(frames := frames + [r])],
       inHand := None,
       holders := s.holders[r := s.holders[r] - {Caller} + {InMessage(m, |frames|)}])
  }

  /** Map the frame of r at page p, copy-on-write. */
  function Bind(s: State, p: Place, r: nat): State
    requires r in s.shared && r in s.holders
  {
    AddRef(s, r, InTable(p)).(
      entry := s.entry[p := Pte(s.shared[r].address, false, true, true)], table := s.table[p := r])
  }

  /** Unmap a shared page and drop its table entry's reference. */
  function Unbind(s: State, p: Place): State
    requires p in s.table && s.table[p] in s.shared && s.table[p] in s.holders
  {
    DropRef(s, s.table[p], InTable(p)).(entry := s.entry - {p}, table := s.table - {p})
  }

  /** One round of the message destructor. */
  function ReleaseNext(s: State, m: nat): State
    requires m in s.message && s.message[m].released < |s.message[m].frames|
    requires var r := s.message[m].frames[s.message[m].released]; r in s.shared && r in s.holders
  {
    var i := s.message[m].released;
    DropRef(s, s.message[m].frames[i], InMessage(m, i)).(message := s.message[m := s.message[m].(released := i + 1)])
  }

  /** Unmap a private page and free its frame. */
  function Discard(s: State, p: Place): State
    requires p in s.entry
  {
    s.(entry := s.entry - {p}, free := s.free + {s.entry[p].frame})
  }

  /** Frame f is allocated, but neither mapped nor shared. */
  ghost predicate Unused(s: State, f: nat) {
    && f != 0 && f !in s.free
    && (forall p: Place :: p in s.entry ==> s.entry[p].frame != f)
    && (forall r: nat :: r in s.shared ==> s.shared[r].address != f)
  }

  // ----- Every step keeps the invariant ----------------------------------

  lemma AddCounts(s: State, r: nat, x: Holder)
    requires CountsOk(s) && r in s.shared && x !in s.holders[r]
    ensures CountsOk(AddRef(s, r, x))
  {
    var s' := AddRef(s, r, x);
    assert CountOk(s, r);
    forall t: nat {:trigger CountOk(s', t)} | t in s'.shared ensures CountOk(s', t) { assert CountOk(s, t); }
    forall t: nat, u: nat {:trigger Different(s', t, u)} ensures Different(s', t, u) { assert Different(s, t, u); }
  }

  lemma DropCounts(s: State, r: nat, x: Holder)
    requires CountsOk(s) && r in s.shared && x in s.holders[r]
    ensures CountsOk(DropRef(s, r, x))
    ensures r in DropRef(s, r, x).shared <==> s.holders[r] != {x}
  {
    var s' := DropRef(s, r, x);
    assert CountOk(s, r);
    assert |s.holders[r] - {x}| == |s.holders[r]| - 1;
    assert s.shared[r].count == 1 <==> s.holders[r] - {x} == {};
    assert s.holders[r] - {x} == {} <==> s.holders[r] == {x};
    forall t: nat {:trigger CountOk(s', t)} | t in s'.shared ensures CountOk(s', t) {
      assert CountOk(s, t) && Different(s, t, r);
    }
    forall t: nat, u: nat {:trigger Different(s', t, u)} ensures Different(s', t, u) { assert Different(s, t, u); }
  }

  /** Sharing a shared page once more. */
  lemma ShareOldOk(s: State, p: Place)
    requires Inv(s) && p in s.table && s.inHand == None
    ensures TableOk(s, p) && Inv(ShareOld(s, p))
  {
    assert TableOk(s, p);
    var r, s' := s.table[p], ShareOld(s, p);
    assert HolderOk(s, r, Caller);
    AddCounts(s, r, Caller);
    SameCounts(AddRef(s, r, Caller), s');
    forall t: nat, x: Holder {:trigger HolderOk(s', t, x)} | t in s'.shared ensures HolderOk(s', t, x) {
      assert HolderOk(s, t, x) && (x != Caller ==> Target(s', x) == Target(s, x));
    }
    forall x: Holder {:trigger Target(s', x)} | Target(s', x).Some? ensures Target(s', x).value in s'.shared {
      assert x != Caller ==> Target(s', x) == Target(s, x);
    }
    SamePages(s, s');
  }

  /** Counts do not depend on the pages, the messages or what is in hand. */
  lemma SameCounts(s: State, s': State)
    requires CountsOk(s) && s'.shared == s.shared && s'.holders == s.holders && s'.free == s.free
    ensures CountsOk(s')
  {
    forall t: nat {:trigger CountOk(s', t)} | t in s'.shared ensures CountOk(s', t) { assert CountOk(s, t); }
    forall t: nat, u: nat {:trigger Different(s', t, u)} ensures Different(s', t, u) { assert Different(s, t, u); }
  }

  /** Pages do not depend on the counts. */
  lemma SamePages(s: State, s': State)
    requires PagesOk(s) && s'.entry == s.entry && s'.table == s.table && s'.free == s.free
    requires forall r: nat :: r in s'.shared <==> r in s.shared
    requires forall r: nat :: r in s.shared ==> s'.shared[r].address == s.shared[r].address
    ensures PagesOk(s')
  {
    forall p: Place {:trigger TableOk(s', p)} | p in s'.table ensures TableOk(s', p) { assert TableOk(s, p); }
    forall p: Place {:trigger EntryOk(s', p)} | p in s'.entry ensures EntryOk(s', p) { assert EntryOk(s, p); }
    forall p: Place, q: Place {:trigger Alone(s', p, q)} ensures Alone(s', p, q) { assert Alone(s, p, q); }
    forall p: Place, r: nat {:trigger NotShared(s', p, r)} ensures NotShared(s', p, r) { assert NotShared(s, p, r); }
  }

  /** Turning a private page into a shared one. */
  lemma ShareNewOk(s: State, p: Place, r: nat)
    requires Inv(s) && p in s.entry && p !in s.table && r !in s.shared && s.inHand == None
    ensures Inv(ShareNew(s, p, r))
  {
    var s' := ShareNew(s, p, r);
    assert EntryOk(s, p);
    forall t: nat {:trigger CountOk(s', t)} | t in s'.shared ensures CountOk(s', t) {
      if t != r { assert CountOk(s, t); }
    }
    forall t: nat, u: nat {:trigger Different(s', t, u)} ensures Different(s', t, u) {
      assert Different(s, t, u) && NotShared(s, p, t) && NotShared(s, p, u);
    }
    ShareNewHolders(s, p, r);
    ShareNewPages(s, p, r);
  }

  lemma ShareNewHolders(s: State, p: Place, r: nat)
    requires Inv(s) && p in s.entry && p !in s.table && r !in s.shared && s.inHand == None
    ensures HoldersOk(ShareNew(s, p, r))
  {
    var s' := ShareNew(s, p, r);
    forall t: nat, x: Holder {:trigger HolderOk(s', t, x)} | t in s'.shared ensures HolderOk(s', t, x) {
      assert x != Caller && x != InTable(p) ==> Target(s', x) == Target(s, x);
      assert Target(s, x).Some? ==> Target(s, x).value in s.shared;
      if t != r { assert HolderOk(s, t, x); }
    }
    forall x: Holder {:trigger Target(s', x)} | Target(s', x).Some? ensures Target(s', x).value in s'.shared {
      assert x != Caller && x != InTable(p) ==> Target(s', x) == Target(s, x);
    }
  }

  lemma ShareNewPages(s: State, p: Place, r: nat)
    requires Inv(s) && p in s.entry && p !in s.table && r !in s.shared
    ensures PagesOk(ShareNew(s, p, r))
  {
    var s' := ShareNew(s, p, r);
    assert EntryOk(s, p);
    forall q: Place {:trigger TableOk(s', q)} | q in s'.table ensures TableOk(s', q) { if q != p { assert TableOk(s, q); } }
    forall q: Place {:trigger EntryOk(s', q)} | q in s'.entry ensures EntryOk(s', q) { if q != p { assert EntryOk(s, q); } }
    forall q: Place, q': Place {:trigger Alone(s', q, q')} ensures Alone(s', q, q') { assert Alone(s, q, q'); }
    forall q: Place, t: nat {:trigger NotShared(s', q, t)} ensures NotShared(s', q, t) {
      assert NotShared(s, q, t) && Alone(s, q, p);
    }
  }

  /** Storing the reference in a message moves it from one holder to another. */
  lemma StashOk(s: State, m: nat)
    requires Inv(s) && m in s.message && s.message[m].released == 0 && s.inHand.Some?
    ensures s.inHand.value in s.shared && s.inHand.value in s.holders && Inv(Stash(s, m))
  {
    assert Target(s, Caller) == s.inHand;
    var r := s.inHand.value;
    assert CountOk(s, r);
    var s', slot := Stash(s, m), InMessage(m, |s.message[m].frames|);
    assert HolderOk(s, r, Caller) && HolderOk(s, r, slot);
    assert |s.holders[r] - {Caller} + {slot}| == |s.holders[r]|;
    forall t: nat {:trigger CountOk(s', t)} | t in s'.shared ensures CountOk(s', t) { assert CountOk(s, t); }
    forall t: nat, u: nat {:trigger Different(s', t, u)} ensures Different(s', t, u) { assert Different(s, t, u); }
    forall t: nat, x: Holder {:trigger HolderOk(s', t, x)} | t in s'.shared ensures HolderOk(s', t, x) {
      assert HolderOk(s, t, x) && (x != Caller && x != slot ==> Target(s', x) == Target(s, x));
    }
    forall x: Holder {:trigger Target(s', x)} | Target(s', x).Some? ensures Target(s', x).value in s'.shared {
      assert x != Caller && x != slot ==> Target(s', x) == Target(s, x);
    }
    SamePages(s, s');
  }

  /** Mapping a shared frame at a page where nothing is mapped. */
  lemma BindOk(s: State, p: Place, r: nat)
    requires Inv(s) && p !in s.entry && r in s.shared
    ensures Inv(Bind(s, p, r))
  {
    var s' := Bind(s, p, r);
    assert p in s.table ==> TableOk(s, p);
    assert CountOk(s, r) && HolderOk(s, r, InTable(p));
    AddCounts(s, r, InTable(p));
    SameCounts(AddRef(s, r, InTable(p)), s');
    forall t: nat, x: Holder {:trigger HolderOk(s', t, x)} | t in s'.shared ensures HolderOk(s', t, x) {
      assert HolderOk(s, t, x) && (x != InTable(p) ==> Target(s', x) == Target(s, x));
    }
    forall x: Holder {:trigger Target(s', x)} | Target(s', x).Some? ensures Target(s', x).value in s'.shared {
      assert x != InTable(p) ==> Target(s', x) == Target(s, x);
    }
    BindPages(s, p, r);
  }

  lemma BindPages(s: State, p: Place, r: nat)
    requires Inv(s) && p !in s.entry && r in s.shared
    ensures PagesOk(Bind(s, p, r))
  {
    var s' := Bind(s, p, r);
    assert CountOk(s, r);
    forall q: Place {:trigger TableOk(s', q)} | q in s'.table ensures TableOk(s', q) { if q != p { assert TableOk(s, q); } }
    forall q: Place {:trigger EntryOk(s', q)} | q in s'.entry ensures EntryOk(s', q) { if q != p { assert EntryOk(s, q); } }
    forall q: Place, q': Place {:trigger Alone(s', q, q')} ensures Alone(s', q, q') {
      assert Alone(s, q, q') && NotShared(s, q, r);
    }
    forall q: Place, t: nat {:trigger NotShared(s', q, t)} ensures NotShared(s', q, t) { assert NotShared(s, q, t); }
  }

  /** Dropping holder x, once x no longer names r. */
  lemma DropHolders(s: State, s': State, r: nat, x: Holder)
    requires CountsOk(s) && HoldersOk(s) && Target(s, x) == Some(r) && r in s.shared && x in s.holders[r]
    requires s'.shared == DropRef(s, r, x).shared && s'.holders == DropRef(s, r, x).holders
    requires Target(s', x) == None && forall y: Holder :: y != x ==> Target(s', y) == Target(s, y)
    ensures HoldersOk(s')
  {
    DropCounts(s, r, x);
    forall t: nat, y: Holder {:trigger HolderOk(s', t, y)} | t in s'.shared ensures HolderOk(s', t, y) {
      assert HolderOk(s, t, y);
    }
    forall y: Holder {:trigger Target(s', y)} | Target(s', y).Some? ensures Target(s', y).value in s'.shared {
      assert HolderOk(s, r, y);
    }
  }

  /** Unmapping a shared page; the frame becomes free exactly if this was the last reference to it. */
  lemma UnbindOk(s: State, p: Place)
    requires Inv(s) && p in s.table
    ensures TableOk(s, p) && s.table[p] in s.holders && Inv(Unbind(s, p))
    ensures s.table[p] in Unbind(s, p).shared <==> s.holders[s.table[p]] != {InTable(p)}
  {
    assert TableOk(s, p);
    var r, s' := s.table[p], Unbind(s, p);
    assert CountOk(s, r);
    assert HolderOk(s, r, InTable(p));
    DropCounts(s, r, InTable(p));
    SameCounts(DropRef(s, r, InTable(p)), s');
    forall y: Holder ensures y != InTable(p) ==> Target(s', y) == Target(s, y) { }
    DropHolders(s, s', r, InTable(p));
    UnbindPages(s, p);
  }

  /** A page that still maps the frame of r is still a holder of r. */
  lemma MapperHolds(s: State, q: Place, r: nat)
    requires Inv(s) && q in s.entry && r in s.shared && s.entry[q].frame == s.shared[r].address
    ensures q in s.table && s.table[q] == r && InTable(q) in s.holders[r]
  {
    assert NotShared(s, q, r);
    assert TableOk(s, q) && Different(s, s.table[q], r);
    assert CountOk(s, r) && HolderOk(s, r, InTable(q));
  }

  lemma UnbindPages(s: State, p: Place)
    requires Inv(s) && p in s.table && TableOk(s, p) && CountOk(s, s.table[p])
    requires s.table[p] in Unbind(s, p).shared <==> s.holders[s.table[p]] != {InTable(p)}
    ensures PagesOk(Unbind(s, p))
  {
    var r, s' := s.table[p], Unbind(s, p);
    forall q: Place {:trigger TableOk(s', q)} | q in s'.table ensures TableOk(s', q) {
      assert TableOk(s, q);
      MapperHolds(s, q, s.table[q]);
    }
    forall q: Place {:trigger EntryOk(s', q)} | q in s'.entry ensures EntryOk(s', q) {
      assert EntryOk(s, q);
      if s.entry[q].frame == s.shared[r].address { MapperHolds(s, q, r); }
    }
    forall q: Place, q': Place {:trigger Alone(s', q, q')} ensures Alone(s', q, q') { assert Alone(s, q, q'); }
    forall q: Place, t: nat {:trigger NotShared(s', q, t)} ensures NotShared(s', q, t) { assert NotShared(s, q, t); }
  }

  /** The destructor's next reference. */
  lemma ReleaseNextOk(s: State, m: nat)
    requires Inv(s) && m in s.message && s.message[m].released < |s.message[m].frames|
    ensures var r := s.message[m].frames[s.message[m].released];
            r in s.shared && r in s.holders && Inv(ReleaseNext(s, m)) &&
            (r in ReleaseNext(s, m).shared <==> s.holders[r] != {InMessage(m, s.message[m].released)})
  {
    var i := s.message[m].released;
    var r, x := s.message[m].frames[i], InMessage(m, i);
    assert Target(s, x) == Some(r);
    assert CountOk(s, r) && HolderOk(s, r, x);
    var s' := ReleaseNext(s, m);
    DropCounts(s, r, x);
    SameCounts(DropRef(s, r, x), s');
    forall y: Holder ensures y != x ==> Target(s', y) == Target(s, y) { }
    DropHolders(s, s', r, x);
    ReleaseNextPages(s, m, r);
  }

  lemma ReleaseNextPages(s: State, m: nat, r: nat)
    requires Inv(s) && m in s.message && s.message[m].released < |s.message[m].frames|
    requires r == s.message[m].frames[s.message[m].released] && CountOk(s, r)
    requires InMessage(m, s.message[m].released) in s.holders[r]
    requires r in ReleaseNext(s, m).shared <==> s.holders[r] != {InMessage(m, s.message[m].released)}
    ensures PagesOk(ReleaseNext(s, m))
  {
    var s' := ReleaseNext(s, m);
    forall q: Place {:trigger TableOk(s', q)} | q in s'.table ensures TableOk(s', q) {
      assert TableOk(s, q);
      MapperHolds(s, q, s.table[q]);
    }
    forall q: Place {:trigger EntryOk(s', q)} | q in s'.entry ensures EntryOk(s', q) {
      assert EntryOk(s, q);
      if s.entry[q].frame == s.shared[r].address { MapperHolds(s, q, r); }
    }
    forall q: Place, q': Place {:trigger Alone(s', q, q')} ensures Alone(s', q, q') { assert Alone(s, q, q'); }
    forall q: Place, t: nat {:trigger NotShared(s', q, t)} ensures NotShared(s', q, t) { assert NotShared(s, q, t); }
  }

  /** A free frame is neither mapped nor shared. */
  lemma FreeIsUnused(s: State, f: nat)
    requires Inv(s) && f in s.free
    ensures Unused(s.(free := s.free - {f}), f)
  {
    forall p: Place | p in s.entry ensures s.entry[p].frame != f { assert EntryOk(s, p); }
    forall r: nat | r in s.shared ensures s.shared[r].address != f { assert CountOk(s, r); }
  }

  /** Contents of frames, and fewer free frames, do not matter to the invariant. */
  lemma Irrelevant(s: State, s': State)
    requires Inv(s) && s'.free <= s.free && s'.holders == s.holders && s'.shared == s.shared
    requires s'.entry == s.entry && s'.table == s.table && s'.message == s.message && s'.inHand == s.inHand
    ensures Inv(s')
  {
    forall t: nat {:trigger CountOk(s', t)} | t in s'.shared ensures CountOk(s', t) { assert CountOk(s, t); }
    forall t: nat, u: nat {:trigger Different(s', t, u)} ensures Different(s', t, u) { assert Different(s, t, u); }
    SameHolders(s, s');
    forall p: Place {:trigger TableOk(s', p)} | p in s'.table ensures TableOk(s', p) { assert TableOk(s, p); }
    forall p: Place {:trigger EntryOk(s', p)} | p in s'.entry ensures EntryOk(s', p) { assert EntryOk(s, p); }
    forall p: Place, q: Place {:trigger Alone(s', p, q)} ensures Alone(s', p, q) { assert Alone(s, p, q); }
    forall p: Place, r: nat {:trigger NotShared(s', p, r)} ensures NotShared(s', p, r) { assert NotShared(s, p, r); }
  }

  lemma SameHolders(s: State, s': State)
    requires HoldersOk(s) && s'.holders == s.holders && s'.shared == s.shared
    requires s'.table == s.table && s'.message == s.message && s'.inHand == s.inHand
    ensures HoldersOk(s')
  {
    forall t: nat, x: Holder {:trigger HolderOk(s', t, x)} | t in s'.shared ensures HolderOk(s', t, x) {
      assert HolderOk(s, t, x) && Target(s', x) == Target(s, x);
    }
    forall x: Holder {:trigger Target(s', x)} | Target(s', x).Some? ensures Target(s', x).value in s'.shared {
      assert Target(s', x) == Target(s, x);
    }
  }

  /** Removing a private page leaves its frame unused. */
  lemma UnmapOk(s: State, p: Place)
    requires Inv(s) && p in s.entry && p !in s.table
    ensures Inv(s.(entry := s.entry - {p})) && Unused(s.(entry := s.entry - {p}), s.entry[p].frame)
  {
    var s', f := s.(entry := s.entry - {p}), s.entry[p].frame;
    assert EntryOk(s, p);
    SameCounts(s, s');
    SameHolders(s, s');
    forall q: Place {:trigger TableOk(s', q)} | q in s'.table ensures TableOk(s', q) { assert TableOk(s, q); }
    forall q: Place {:trigger EntryOk(s', q)} | q in s'.entry ensures EntryOk(s', q) { assert EntryOk(s, q); }
    forall q: Place, q': Place {:trigger Alone(s', q, q')} ensures Alone(s', q, q') { assert Alone(s, q, q'); }
    forall q: Place, r: nat {:trigger NotShared(s', q, r)} ensures NotShared(s', q, r) { assert NotShared(s, q, r); }
    forall q: Place | q in s'.entry ensures s'.entry[q].frame != f { assert Alone(s, p, q); }
    forall r: nat | r in s'.shared ensures s'.shared[r].address != f { assert NotShared(s, p, r); }
  }

  /** Unmapping a private page and freeing its frame. */
  lemma DiscardOk(s: State, p: Place)
    requires Inv(s) && p in s.entry && p !in s.table
    ensures Inv(Discard(s, p))
  {
    UnmapOk(s, p);
    var s0, s', f := s.(entry := s.entry - {p}), Discard(s, p), s.entry[p].frame;
    forall t: nat {:trigger CountOk(s', t)} | t in s'.shared ensures CountOk(s', t) { assert CountOk(s0, t); }
    forall t: nat, u: nat {:trigger Different(s', t, u)} ensures Different(s', t, u) { assert Different(s0, t, u); }
    SameHolders(s0, s');
    forall q: Place {:trigger TableOk(s', q)} | q in s'.table ensures TableOk(s', q) { assert TableOk(s0, q); }
    forall q: Place {:trigger EntryOk(s', q)} | q in s'.entry ensures EntryOk(s', q) { assert EntryOk(s0, q); }
    forall q: Place, q': Place {:trigger Alone(s', q, q')} ensures Alone(s', q, q') { assert Alone(s0, q, q'); }
    forall q: Place, r: nat {:trigger NotShared(s', q, r)} ensures NotShared(s', q, r) { assert NotShared(s0, q, r); }
  }

  /** Mapping an unused frame privately. */
  lemma MapPrivateOk(s: State, p: Place, f: nat)
    requires Inv(s) && p !in s.entry && Unused(s, f)
    ensures Inv(s.(entry := s.entry[p := Pte(f, true, false, false)]))
  {
    var s' := s.(entry := s.entry[p := Pte(f, true, false, false)]);
    assert p in s.table ==> TableOk(s, p);
    SameCounts(s, s');
    SameHolders(s, s');
    forall q: Place {:trigger TableOk(s', q)} | q in s'.table ensures TableOk(s', q) { assert TableOk(s, q); }
    forall q: Place {:trigger EntryOk(s', q)} | q in s'.entry ensures EntryOk(s', q) { if q != p { assert EntryOk(s, q); } }
    forall q: Place, q': Place {:trigger Alone(s', q, q')} ensures Alone(s', q, q') { assert Alone(s, q, q'); }
    forall q: Place, r: nat {:trigger NotShared(s', q, r)} ensures NotShared(s', q, r) { assert NotShared(s, q, r); }
  }
}
