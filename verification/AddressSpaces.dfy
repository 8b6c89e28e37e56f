/**
 Sharing payload pages between address spaces, and copy-on-write
 (src/kernel/memory_manager/address_space.cpp, src/kernel/libk/large_message.cpp).

 Pages are numbered; an address space has at most one present entry per page.
 The model has no kernel superpages.  Allocation of descriptors and of page
 tables can fail at any time.
 */
module AddressSpaces {
  import opened Options
  import opened SharedFrames
  import opened SharedSteps

  lemma {:induction false} FreshNumber(s: set<nat>) returns (n: nat)
    ensures forall x: nat :: x in s ==> x < n
  {
    if s == {} {
      n := 0;
    } else {
      var y :| y in s;
      var m := FreshNumber(s - {y});
      n := if y < m then m else y + 1;
      forall x: nat | x in s ensures x < n { assert x == y || x in s - {y}; }
    }
  }

  class Memory {
    var entry: map<Place, Pte>
    var table: map<Place, nat>
    var shared: map<nat, SharedFrame>
    var message: map<nat, Payload>
    var free: set<nat>
    var bytes: map<nat, seq<bv8>>
    ghost var inHand: Option<nat>
    ghost var holders: map<nat, set<Holder>>

    ghost function View(): State
      reads this
    {
      State(entry, table, shared, message, inHand, free, bytes, holders)
    }

    ghost predicate Valid()
      reads this
    {
      Inv(View()) && inHand == None
    }

    /** Nothing mapped, nothing shared; frames are those the allocator manages (0 is INVALID_FRAME). */
    constructor (frames: set<nat>)
      requires 0 !in frames
      ensures Valid() && entry == map[] && message == map[] && free == frames
    {
      entry, table, shared, message := map[], map[], map[], map[];
      free, bytes := frames, map[];
      inHand, holders := None, map[];
    }

    /** A new large message, with no frames yet. */
    method NewMessage(m: nat)
      requires Valid() && m !in message
      modifies `message
      ensures Valid() && message == old(message)[m := Payload([], 0)]
      ensures Snapshots(old(View()), View()) && Reaches(old(View()), View())
    {
      message := message[m := Payload([], 0)];
      ReachStep(old(View()), StartMessage(m), View());
      EmptyMessage(old(View()), m);
    }

    // ----- Counted references --------------------------------------------

    method AddReference(r: nat, ghost x: Holder)
      requires r in shared && r in holders
      modifies `shared, `holders
      ensures View() == AddRef(old(View()), r, x)
    {
      shared := shared[r := shared[r].(count := shared[r].count + 1)];
      holders := holders[r := holders[r] + {x}];
    }

    method RemoveReference(r: nat, ghost x: Holder)
      requires r in shared && r in holders
      modifies `shared, `holders, `free
      ensures View() == DropRef(old(View()), r, x)
    {
      var left := shared[r].count - 1;
      if left == 0 {
        free := free + {shared[r].address};
        shared := shared - {r};
        holders := holders - {r};
      } else {
        shared := shared[r := shared[r].(count := left)];
        holders := holders[r := holders[r] - {x}];
      }
    }

    /** new shared_frame_c, which may fail. */
    method NewDescriptor() returns (r: Option<nat>)
      ensures r.Some? ==> r.value !in shared
    {
      if * {
        r := None;
      } else {
        ghost var n := FreshNumber(shared.Keys);
        assert n !in shared;
        var d: nat :| d !in shared;
        r := Some(d);
      }
    }

    /** The frame allocator, for one frame. */
    method AllocateFrame() returns (f: Option<nat>)
      modifies `free
      ensures f == None <==> old(free) == {}
      ensures f.Some? ==> f.value in old(free) && free == old(free) - {f.value}
      ensures f == None ==> free == old(free)
    {
      if free == {} {
        f := None;
      } else {
        var x :| x in free;
        free := free - {x};
        f := Some(x);
      }
    }

    // ----- Sharing -------------------------------------------------------

    /** share_frame on a page that is present and not shared yet. */
    method SharePrivate(p: Place) returns (r: Option<nat>)
      requires p in entry && p !in table && inHand == None
      modifies `entry, `table, `shared, `holders, `inHand
      ensures inHand == r
      ensures r.Some? ==> r.value !in old(shared) && View() == ShareNew(old(View()), p, r.value)
      ensures r == None ==> View() == old(View()).(entry := old(entry) - {p})
    {
      entry := entry[p := entry[p].(writable := false, isShared := true, copyOnWrite := true)];
      r := NewDescriptor();
      if r == None {
        entry := entry - {p};
        assert entry == old(entry) - {p};
      } else {
        shared := shared[r.value := SharedFrame(entry[p].frame, 1)];
        holders := holders[r.value := {InTable(p)}];
        table := table[p := r.value];
        AddReference(r.value, Caller);
        inHand := r;
        assert {InTable(p)} + {Caller} == {InTable(p), Caller};
        assert shared == old(shared)[r.value := SharedFrame(old(entry)[p].frame, 2)];
        assert holders == old(holders)[r.value := {InTable(p), Caller}];
      }
    }

    /**
     share_frame on one page.  On success the caller holds one more reference
     to the page's descriptor.  If there is no memory for a descriptor the page
     is lost: it is unmapped and its frame is not freed.
     */
    method ShareFrame(p: Place) returns (r: Option<nat>)
      requires Valid()
      modifies `entry, `table, `shared, `holders, `inHand
      ensures Inv(View()) && inHand == r
      ensures r.Some? ==> SharedAs(old(View()), View(), p, r.value)
      ensures r == None ==> p !in old(table) && View() == old(View()).(entry := old(entry) - {p})
      ensures Reaches(old(View()), View())
    {
      if p in table {
        ShareOldOk(View(), p);
        CountIsHolders(View(), table[p]);
        ShareOldShares(View(), p);
        r := Some(table[p]);
        AddReference(table[p], Caller);
        inHand := r;
        ReachStep(old(View()), ShareAgain(p), View());
      } else if p !in entry {
        r := None;
        assert entry - {p} == entry;
        ReachSelf(View());
      } else {
        UnmapOk(View(), p);
        r := SharePrivate(p);
        if r.Some? {
          ShareNewOk(old(View()), p, r.value);
          ShareNewShares(old(View()), p, r.value);
          ReachStep(old(View()), ShareFirst(p, r.value), View());
        } else {
          ReachStep(old(View()), Lose(p), View());
        }
      }
    }

    /** Share one page of a payload and keep the reference in the message. */
    method CollectPage(m: nat, p: Place) returns (ok: bool)
      requires Valid() && m in message && message[m].released == 0
      modifies `entry, `table, `shared, `holders, `inHand, `message
      ensures Valid()
      ensures ok ==> Collected(old(View()), View(), m, p)
      ensures !ok ==> p !in old(table) && View() == old(View()).(entry := old(entry) - {p})
      ensures Reaches(old(View()), View())
    {
      var r := ShareFrame(p);
      ok := r.Some?;
      if ok {
        StashOk(View(), m);
        ghost var s := View();
        message := message[m := message[m].(frames := message[m].frames + [r.value])];
        holders := holders[r.value := holders[r.value] - {Caller} + {InMessage(m, |message[m].frames| - 1)}];
        inHand := None;
        assert View() == Stash(s, m);
        ReachOn(old(View()), s, Keep(m), View());
      }
    }

    /**
     collect_payload, the part that shares the payload's pages.  On success the
     message holds, in order, a reference to the descriptor of each page.
     */
    method CollectPayload(m: nat, space: nat, first: nat, count: nat)
      returns (ok: bool, ghost n: nat)
      requires Valid() && m in message && message[m] == Payload([], 0)
      modifies `entry, `table, `shared, `holders, `inHand, `message
      ensures Valid() && Gathered(old(View()), View(), m, space, first, n)
      ensures Snapshots(old(View()), View()) && Reaches(old(View()), View())
      ensures if ok then n == count && SameView(old(View()), View()) else n < count
    {
      var i := 0;
      ok := true;
      ReachSelf(View());
      while i < count && ok
        invariant Reaches(old(View()), View())
        invariant Valid() && i <= count && Gathered(old(View()), View(), m, space, first, i)
        invariant if ok then SameView(old(View()), View()) else i < count
        decreases count - i, ok
      {
        ghost var s := View();
        ok := CollectPage(m, Place(space, first + i));
        ReachTrans(old(View()), s, View());
        if ok {
          GatherOne(old(View()), s, View(), m, space, first, i);
          i := i + 1;
        } else {
          GatherFailed(old(View()), s, View(), m, space, first, i);
        }
      }
      n := i;
    }

    // ----- Delivering ----------------------------------------------------

    /** Bind page p, which is not present, to the frame of descriptor r. */
    method CommitShared(p: Place, r: nat)
      requires r in shared && r in holders
      modifies `entry, `table, `shared, `holders
      ensures View() == Bind(old(View()), p, r)
    {
      entry := entry[p := Pte(shared[r].address, false, true, true)];
      AddReference(r, InTable(p));
      table := table[p := r];
    }

    /**
     commit_frame for shared frames, as deliver_payload uses it: map the
     message's frames at consecutive pages.  Stops where a page is present
     already or a page table cannot be had.
     */
    method DeliverPayload(m: nat, space: nat, first: nat) returns (ok: bool, ghost n: nat)
      requires Valid() && m in message && message[m].released == 0
      modifies `entry, `table, `shared, `holders
      ensures Valid() && Delivered(old(View()), View(), m, space, first, n)
      ensures Snapshots(old(View()), View()) && Reaches(old(View()), View())
      ensures if ok then n == |message[m].frames| else n < |message[m].frames|
    {
      var i := 0;
      ok := true;
      ReachSelf(View());
      while i < |message[m].frames| && ok
        invariant Reaches(old(View()), View())
        invariant Valid() && message == old(message) && Delivered(old(View()), View(), m, space, first, i)
        invariant if ok then i <= |message[m].frames| else i < |message[m].frames|
        decreases |message[m].frames| - i, ok
      {
        var p := Place(space, first + i);
        var r := message[m].frames[i];
        ghost var s := View();
        assert Target(s, InMessage(m, i)) == Some(r);
        if * {
          ok := false;
        } else if p in entry {
          ok := false;
        } else {
          BindOk(s, p, r);
          CommitShared(p, r);
          ReachOn(old(View()), s, Deliver(p, r), View());
          DeliverOne(old(View()), s, View(), m, space, first, i);
          i := i + 1;
        }
      }
      n := i;
    }

    method ReleaseOne(m: nat)
      requires m in message && message[m].released < |message[m].frames|
      requires message[m].frames[message[m].released] in shared && message[m].frames[message[m].released] in holders
      modifies `message, `shared, `holders, `free
      ensures View() == ReleaseNext(old(View()), m)
    {
      var i := message[m].released;
      RemoveReference(message[m].frames[i], InMessage(m, i));
      message := message[m := message[m].(released := i + 1)];
    }

    /** The loop of the destructor. */
    method ReleaseAll(m: nat)
      requires Valid() && m in message && message[m].released == 0
      modifies `message, `shared, `holders, `free
      ensures Valid() && m in message && message == old(message)[m := message[m]]
      ensures message[m].released == |message[m].frames|
      ensures Dropped(old(View()), View()) && Reaches(old(View()), View())
    {
      ReachSelf(View());
      while message[m].released < |message[m].frames|
        invariant Valid() && m in message && message == old(message)[m := message[m]]
        invariant message[m].released <= |message[m].frames|
        invariant Dropped(old(View()), View()) && Reaches(old(View()), View())
        decreases |message[m].frames| - message[m].released
      {
        ghost var s := View();
        ReleaseNextOk(s, m);
        ReleaseOne(m);
        ReachOn(old(View()), s, ReleaseRef(m), View());
        DropDropped(old(View()), s, View(), s.message[m].frames[s.message[m].released], InMessage(m, s.message[m].released));
      }
    }

    /** ~large_message_c: release every reference the message holds. */
    method DestroyMessage(m: nat)
      requires Valid() && m in message && message[m].released == 0
      modifies `message, `shared, `holders, `free
      ensures Valid() && message == old(message) - {m}
      ensures Dropped(old(View()), View())
      ensures Snapshots(old(View()), View()) && Reaches(old(View()), View())
    {
      ReleaseAll(m);
      ghost var s := View();
      message := message - {m};
      ReachOn(old(View()), s, EndMessage(m), View());
      ForgetMessage(s, m);
      assert message == old(message) - {m};
    }

    // ----- Unsharing -----------------------------------------------------

    /** unshare_frame: unmap a page, whether shared or private. */
    method UnshareFrame(p: Place)
      requires Valid()
      modifies `entry, `table, `shared, `holders, `free
      ensures Valid() && Unmapped(old(View()), View(), p)
      ensures Snapshots(old(View()), View()) && Reaches(old(View()), View())
    {
      if p in table {
        UnbindOk(View(), p);
        CountIsHolders(View(), table[p]);
        UnbindUnmaps(View(), p);
        Revoke(p);
        ReachStep(old(View()), UnmapShared(p), View());
      } else if p in entry {
        DiscardOk(View(), p);
        assert EntryOk(View(), p);
        free := free + {entry[p].frame};
        entry := entry - {p};
        assert table - {p} == table;
        ReachStep(old(View()), UnmapPrivate(p), View());
      } else {
        assert entry - {p} == entry && table - {p} == table;
        ReachSelf(View());
      }
    }

    /** Remove the page from the shared-frame table and drop that reference. */
    method Revoke(p: Place)
      requires p in table && table[p] in shared && table[p] in holders
      modifies `entry, `table, `shared, `holders, `free
      ensures View() == Unbind(old(View()), p)
    {
      var r := table[p];
      table := table - {p};
      entry := entry - {p};
      RemoveReference(r, InTable(p));
    }

    /** unshare_frame on a range of pages. */
    method UnshareFrames(space: nat, first: nat, count: nat)
      requires Valid()
      modifies `entry, `table, `shared, `holders, `free
      ensures Valid() && RangeUnmapped(old(View()), View(), space, first, count)
      ensures Snapshots(old(View()), View()) && Reaches(old(View()), View())
    {
      var i := 0;
      ReachSelf(View());
      RangeEmpty(View(), space, first);
      while i < count
        invariant i <= count && Valid() && Reaches(old(View()), View())
        invariant RangeUnmapped(old(View()), View(), space, first, i)
      {
        ghost var s := View();
        UnshareFrame(Place(space, first + i));
        ReachTrans(old(View()), s, View());
        RangeNext(old(View()), s, View(), space, first, i);
        i := i + 1;
      }
    }

    // ----- Copy-on-write -------------------------------------------------

    /**
     copy_on_write: give the faulting page a private copy of its frame.  copy
     is the thread's page for mapping the new frame while it is filled.
     */
    method CopyOnWrite(p: Place, copy: Place) returns (success: bool)
      requires Valid() && p in entry && copy !in entry
      modifies `entry, `table, `shared, `holders, `free, `bytes
      ensures Valid()
      ensures !success ==> View() == old(View())
      ensures success ==> old(entry)[p].copyOnWrite && Copied(old(View()), View(), p)
      ensures Snapshots(old(View()), View()) && Reaches(old(View()), View())
    {
      success := false;
      ReachSelf(View());
      assert EntryOk(View(), p);
      if !entry[p].copyOnWrite {
        return;
      }
      if * {
        return;
      }
      var f := AllocateFrame();
      if f == None {
        return;
      }
      CowOk(old(View()), p, f.value);
      CowCopies(old(View()), p, f.value);
      CopyInto(p, copy, f.value);
      ReachStep(old(View()), CopyFrame(p, f.value), View());
      success := true;
    }

    /** Fill frame f through the page copy, drop the shared frame, and rebind page p to f. */
    method CopyInto(p: Place, copy: Place, f: nat)
      requires p in table && p in entry && table[p] in shared && table[p] in holders && copy !in entry
      modifies `entry, `table, `shared, `holders, `free, `bytes
      ensures View() == Rebind(old(View()), p, f)
    {
      var source := entry[p].frame;
      entry := entry[copy := Pte(f, true, false, false)];
      bytes := bytes[f := if source in bytes then bytes[source] else []];
      entry := entry - {copy};
      assert entry == old(entry);
      Revoke(p);
      entry := entry[p := Pte(f, true, false, false)];
    }

    /** A store by a thread: directly, or after a copy-on-write fault. */
    method Write(p: Place, copy: Place, data: seq<bv8>) returns (ok: bool)
      requires Valid() && copy !in entry
      modifies `entry, `table, `shared, `holders, `free, `bytes
      ensures Valid() && Snapshots(old(View()), View()) && Reaches(old(View()), View())
      ensures ok ==> entry.Keys == old(entry).Keys && p in entry && Visible(View(), p) == data
      ensures ok ==> forall q: Place :: q in entry && q != p ==> Visible(View(), q) == Visible(old(View()), q)
      ensures !ok ==> View() == old(View())
    {
      ok := false;
      ReachSelf(View());
      if p in entry {
        ok := entry[p].writable;
        if !ok {
          ok := CopyOnWrite(p, copy);
        }
        if ok {
          StoreOk(View(), p, data);
          ghost var s := View();
          bytes := bytes[entry[p].frame := data];
          ReachOn(old(View()), s, Store(p, data), View());
        }
      }
    }

    // ----- Expansion -----------------------------------------------------

    /** find_present_entry: is any page of the range present? */
    method AnyPresent(space: nat, first: nat, count: nat) returns (present: bool)
      ensures present <==> exists q: Place :: q in entry && InRange(q, space, first, count)
    {
      var i := 0;
      present := false;
      while i < count && !present
        invariant i <= count
        invariant present <==> exists q: Place :: q in entry && InRange(q, space, first, i)
        decreases count - i
      {
        var p := Place(space, first + i);
        present := p in entry;
        assert forall q: Place :: InRange(q, space, first, i + 1) <==> InRange(q, space, first, i) || q == p;
        if present { assert InRange(p, space, first, i + 1); }
        i := i + 1;
      }
      assert present ==> exists q: Place :: q in entry && InRange(q, space, first, count);
    }

    /** allocate_frames: all or nothing. */
    method AllocateFrames(count: nat) returns (frames: seq<nat>, ok: bool)
      modifies `free
      ensures ok <==> count <= |old(free)|
      ensures if ok then |frames| == count && Taken(old(free), free, frames) else free == old(free)
    {
      frames := [];
      while |frames| < count && free != {}
        invariant |frames| <= count && |free| + |frames| == |old(free)| && Taken(old(free), free, frames)
        decreases count - |frames|
      {
        ghost var before := free;
        var f := AllocateFrame();
        TakeAnother(old(free), before, frames, f.value);
        frames := frames + [f.value];
      }
      ok := |frames| == count;
      if !ok { free := free + Elements(frames); }
    }

    /**
     commit_frame on a range of empty pages.  Page tables can be had for the
     first `tables` pages; n pages are bound.
     */
    method CommitFrames(space: nat, first: nat, frames: seq<nat>, tables: nat) returns (n: nat)
      modifies `entry
      ensures n == if |frames| <= tables then |frames| else tables
      ensures entry == MapFrames(old(entry), space, first, frames[..n])
    {
      n := 0;
      while n < |frames| && n < tables
        invariant n <= |frames| && n <= tables && entry == MapFrames(old(entry), space, first, frames[..n])
      {
        entry := entry[Place(space, first + n) := Pte(frames[n], true, false, false)];
        assert frames[..n + 1][..n] == frames[..n];
        n := n + 1;
      }
    }

    /** decommit_frame on a range: what each page was bound to, INVALID_FRAME where it was not. */
    method DecommitFrames(space: nat, first: nat, count: nat) returns (found: seq<nat>)
      modifies `entry
      ensures |found| == count
      ensures forall i :: 0 <= i < count ==> found[i] == FrameAt(old(entry), Place(space, first + i))
      ensures forall q: Place {:trigger q in entry} :: q in entry <==> q in old(entry) && !InRange(q, space, first, count)
      ensures forall q: Place {:trigger entry[q]} :: q in entry ==> entry[q] == old(entry)[q]
    {
      found := [];
      while |found| < count
        invariant |found| <= count
        invariant forall i :: 0 <= i < |found| ==> found[i] == FrameAt(old(entry), Place(space, first + i))
        invariant forall q: Place {:trigger q in entry} :: q in entry <==> q in old(entry) && !InRange(q, space, first, |found|)
        invariant forall q: Place {:trigger entry[q]} :: q in entry ==> entry[q] == old(entry)[q]
      {
        var page := Place(space, first + |found|);
        found := found + [FrameAt(entry, page)];
        entry := entry - {page};
      }
    }

    /** free_frames: give back what is in the list, but for INVALID_FRAME. */
    method FreeFrames(frames: seq<nat>)
      modifies `free
      ensures free == old(free) + (Elements(frames) - {0})
    {
      var i := 0;
      while i < |frames|
        invariant i <= |frames| && free == old(free) + (Elements(frames[..i]) - {0})
      {
        if frames[i] != 0 { free := free + {frames[i]}; }
        assert Elements(frames[..i + 1]) == Elements(frames[..i]) + {frames[i]};
        i := i + 1;
      }
      assert frames[..i] == frames;
    }

    /**
     expand: new pages on free frames.  Page tables can be had for the first
     `tables` pages of the range.  If they run out on the way, decommit_frame
     overwrites the list of allocated frames with what the pages were bound to,
     so that free_frames does not see the frames that were not bound yet: they
     are lost.
     */
    method Expand(capable: bool, space: nat, address: nat, size: nat, tables: nat)
      returns (status: Status, ghost lost: set<nat>)
      requires Valid() && address < WORD && size < WORD
      modifies `entry, `free
      ensures Valid() && Reaches(old(View()), View())
      ensures status == AccessDenied <==> !capable
      ensures status == InvalidData <==> capable && CountFits(size) && !RangeFits(address, size)
      ensures status == Conflict <==>
                capable && CountFits(size) && RangeFits(address, size) && AnyTaken(old(View()), space, address, size)
      ensures status == Success <==> MayExpand(old(View()), capable, space, address, size) && PageCount(size) <= tables
      ensures status == Success ==> lost == {} && Expanded(old(View()), View(), space, address / PAGE, PageCount(size))
      ensures status != Success ==> lost <= old(free) && View() == old(View()).(free := old(free) - lost)
      ensures |lost| == if MayExpand(old(View()), capable, space, address, size) && tables < PageCount(size)
                        then PageCount(size) - tables else 0
    {
      lost := {};
      ReachSelf(View());
      if !capable {
        return AccessDenied, lost;
      }
      var count := PageCount(size);
      if count == 0 || count > MAX_EXPANSION {
        return InsufficientMemory, lost;
      }
      var last := (address + (count - 1) * PAGE) % WORD;
      LastPage(address, size);
      if address % PAGE != 0 || address < USER_BASE || address > last {
        return InvalidData, lost;
      }
      var first := address / PAGE;
      var present := AnyPresent(space, first, count);
      if present {
        return Conflict, lost;
      }
      status, lost := ExpandEmpty(space, first, count, tables);
    }

    /** expand, once it has found the range empty. */
    method ExpandEmpty(space: nat, first: nat, count: nat, tables: nat) returns (status: Status, ghost lost: set<nat>)
      requires Valid() && forall q: Place :: InRange(q, space, first, count) ==> q !in entry
      modifies `entry, `free
      ensures Valid() && Reaches(old(View()), View())
      ensures status == if count <= |old(free)| && count <= tables then Success else InsufficientMemory
      ensures status == Success ==> lost == {} && Expanded(old(View()), View(), space, first, count)
      ensures status != Success ==> lost <= old(free) && View() == old(View()).(free := old(free) - lost)
      ensures |lost| == if tables < count <= |old(free)| then count - tables else 0
    {
      lost := {};
      ghost var s := View();
      var frames, ok := AllocateFrames(count);
      if !ok {
        ReachSelf(View());
        return InsufficientMemory, lost;
      }
      var n := CommitFrames(space, first, frames, tables);
      if n == count {
        assert frames[..n] == frames;
        MapFramesRun(s, View(), space, first, frames);
        status := Success;
      } else {
        ghost var bound := entry;
        var found := DecommitFrames(space, first, count);
        FreeFrames(found);
        lost := Elements(frames[n..]);
        CommitUndone(s.entry, bound, entry, space, first, frames, n, found);
        RolledBack(s.free, free, frames, n, found);
        LoseFrames(s, View(), frames[n..]);
        status := InsufficientMemory;
      }
    }
  }

  // ----- What sharing means ------------------------------------------------

  /** Page p is now shared as descriptor r, and nobody can tell the difference. */
  ghost predicate SharedAs(s: State, s': State, p: Place, r: nat) {
    && p in s'.table && s'.table[p] == r && r in s'.shared && p in s.entry
    && (if p in s.table then s.table[p] == r else r !in s.shared)
    && s'.table == s.table[p := r] && s'.message == s.message && s'.free == s.free && s'.bytes == s.bytes
    && s.shared.Keys <= s'.shared.Keys && s'.entry.Keys == s.entry.Keys
    && (forall q: Place {:trigger s'.entry[q]} :: q in s.entry ==> s'.entry[q].frame == s.entry[q].frame)
    && (forall t: nat {:trigger s'.shared[t]} :: t in s.shared ==> s'.shared[t].address == s.shared[t].address)
  }

  lemma ShareOldShares(s: State, p: Place)
    requires p in s.table && p in s.entry && s.table[p] in s.shared && s.table[p] in s.holders
    ensures SharedAs(s, ShareOld(s, p), p, s.table[p])
  {
    assert s.table == s.table[p := s.table[p]];
  }

  lemma ShareNewShares(s: State, p: Place, r: nat)
    requires p in s.entry && p !in s.table && r !in s.shared
    ensures SharedAs(s, ShareNew(s, p, r), p, r)
  {
  }

  /** Page p is shared, and message m has one more element, the descriptor of p. */
  ghost predicate Collected(s: State, s': State, m: nat, p: Place) {
    && m in s.message && p in s'.table
    && s'.message == s.message[m := s.message[m].(frames := s.message[m].frames + [s'.table[p]])]
    && SharedAs(s, s'.(message := s.message), p, s'.table[p])
  }

  /** Message m has the descriptors of the first n pages from `first` on, in order, and nothing is lost by that. */
  ghost predicate Gathered(s: State, s': State, m: nat, space: nat, first: nat, n: nat) {
    && m in s.message && m in s'.message && s'.message == s.message[m := s'.message[m]]
    && s'.message[m].released == 0 && |s'.message[m].frames| == n
    && s'.free == s.free && s'.bytes == s.bytes
    && s.shared.Keys <= s'.shared.Keys
    && (forall t: nat {:trigger s'.shared[t]} :: t in s.shared ==> s'.shared[t].address == s.shared[t].address)
    && (forall i {:trigger s'.message[m].frames[i]} :: 0 <= i < n ==>
          TableIs(s', Place(space, first + i), s'.message[m].frames[i]))
  }

  ghost predicate TableIs(s: State, p: Place, r: nat) {
    p in s.table && s.table[p] == r
  }

  lemma GatherOne(s0: State, s: State, s': State, m: nat, space: nat, first: nat, n: nat)
    requires Gathered(s0, s, m, space, first, n) && Collected(s, s', m, Place(space, first + n))
    ensures Gathered(s0, s', m, space, first, n + 1)
    ensures SameView(s0, s) ==> SameView(s0, s')
  {
    var p := Place(space, first + n);
    assert s'.message[m].frames[n] == s'.table[p];
    forall i {:trigger s'.message[m].frames[i]} | 0 <= i < n + 1
      ensures TableIs(s', Place(space, first + i), s'.message[m].frames[i])
    {
      if i < n {
        assert s'.message[m].frames[i] == s.message[m].frames[i];
        assert TableIs(s, Place(space, first + i), s.message[m].frames[i]);
      }
    }
  }

  lemma GatherFailed(s0: State, s: State, s': State, m: nat, space: nat, first: nat, n: nat)
    requires Gathered(s0, s, m, space, first, n)
    requires s' == s.(entry := s'.entry)
    ensures Gathered(s0, s', m, space, first, n)
  {
    forall i {:trigger s'.message[m].frames[i]} | 0 <= i < n
      ensures TableIs(s', Place(space, first + i), s'.message[m].frames[i])
    {
      assert TableIs(s, Place(space, first + i), s.message[m].frames[i]);
    }
  }

  // ----- What delivery and destruction mean --------------------------------

  /** The first n frames of message m are mapped from page `first` on; nothing else changed. */
  ghost predicate Delivered(s: State, s': State, m: nat, space: nat, first: nat, n: nat) {
    && m in s.message && n <= |s.message[m].frames|
    && s'.message == s.message && s'.free == s.free && s'.bytes == s.bytes
    && s'.shared.Keys == s.shared.Keys
    && (forall t: nat {:trigger s'.shared[t]} :: t in s.shared ==> s'.shared[t].address == s.shared[t].address)
    && (forall p: Place {:trigger s'.entry[p]} :: p in s.entry ==> p in s'.entry && s'.entry[p] == s.entry[p])
    && (forall p: Place {:trigger p in s'.entry} :: p in s'.entry && p !in s.entry ==>
          p.space == space && first <= p.page < first + n)
    && (forall i {:trigger s.message[m].frames[i]} :: 0 <= i < n ==>
          MapsFrame(s, s', Place(space, first + i), s.message[m].frames[i]))
  }

  /** Page p shows the frame of descriptor r, read-only. */
  ghost predicate MapsFrame(s: State, s': State, p: Place, r: nat) {
    && r in s.shared && p in s'.entry && !s'.entry[p].writable && TableIs(s', p, r)
    && s'.entry[p].frame == s.shared[r].address
  }

  lemma DeliverOne(s0: State, s: State, s': State, m: nat, space: nat, first: nat, n: nat)
    requires Delivered(s0, s, m, space, first, n) && n < |s0.message[m].frames|
    requires var r, p := s0.message[m].frames[n], Place(space, first + n);
             r in s.shared && r in s.holders && p !in s.entry && s' == Bind(s, p, r)
    ensures Delivered(s0, s', m, space, first, n + 1)
  {
    forall i {:trigger s0.message[m].frames[i]} | 0 <= i < n + 1
      ensures MapsFrame(s0, s', Place(space, first + i), s0.message[m].frames[i])
    {
      if i < n { assert MapsFrame(s0, s, Place(space, first + i), s0.message[m].frames[i]); }
    }
  }

  /** References were dropped: a descriptor is gone exactly if it has no holder left, and its frame is then free. */
  ghost predicate Dropped(s: State, s': State) {
    && s'.entry == s.entry && s'.table == s.table && s'.bytes == s.bytes
    && s'.shared.Keys <= s.shared.Keys
    && (forall t: nat {:trigger s'.shared[t]} :: t in s'.shared ==> s'.shared[t].address == s.shared[t].address)
    && (forall f: nat {:trigger f in s'.free} :: f in s'.free <==> f in s.free || IsGone(s, s', f))
  }

  /** f is the frame of a descriptor that no longer exists. */
  ghost predicate IsGone(s: State, s': State, f: nat) {
    exists t: nat :: t in s.shared && t !in s'.shared && s.shared[t].address == f
  }

  lemma DropDropped(s0: State, s: State, s': State, r: nat, x: Holder)
    requires Dropped(s0, s) && r in s.shared && r in s.holders
    requires s'.shared == DropRef(s, r, x).shared && s'.free == DropRef(s, r, x).free
    requires s'.entry == s.entry && s'.table == s.table && s'.bytes == s.bytes
    ensures Dropped(s0, s')
  {
    forall f: nat {:trigger f in s'.free} ensures f in s'.free <==> f in s0.free || IsGone(s0, s', f) {
      if IsGone(s0, s, f) {
        var t: nat :| t in s0.shared && t !in s.shared && s0.shared[t].address == f;
        assert t !in s'.shared;
      }
      if IsGone(s0, s', f) && !IsGone(s0, s, f) {
        var t: nat :| t in s0.shared && t !in s'.shared && s0.shared[t].address == f;
        assert t == r;
      }
      if f == s.shared[r].address && r !in s'.shared { assert r in s0.shared && s0.shared[r].address == f; }
    }
  }

  // ----- What unmapping and copying mean -----------------------------------

  predicate InRange(q: Place, space: nat, first: nat, n: nat) {
    q.space == space && first <= q.page < first + n
  }

  /** Page p is gone.  Its frame is free afterwards, and was not before, unless something else still refers to it. */
  ghost predicate Unmapped(s: State, s': State, p: Place) {
    && s'.entry == s.entry - {p} && s'.table == s.table - {p}
    && s'.message == s.message && s'.bytes == s.bytes && s'.inHand == s.inHand
    && (if p in s.table then SharedUnmapped(s, s', p)
        else s'.shared == s.shared && s'.holders == s.holders &&
             if p in s.entry then s.entry[p].frame !in s.free && s'.free == s.free + {s.entry[p].frame} else s'.free == s.free)
  }

  /** The descriptor of p loses one reference, and is gone with its frame if that was the last. */
  ghost predicate SharedUnmapped(s: State, s': State, p: Place)
    requires p in s.table
  {
    var r := s.table[p];
    && r in s.shared && r in s.holders && s.shared[r].address !in s.free
    && (r in s'.shared <==> s.holders[r] != {InTable(p)})
    && s'.shared.Keys == s.shared.Keys - (if r in s'.shared then {} else {r})
    && s'.free == s.free + (if r in s'.shared then {} else {s.shared[r].address})
    && (forall t: nat {:trigger s'.shared[t]} :: t in s'.shared ==> s'.shared[t].address == s.shared[t].address)
  }

  lemma UnbindUnmaps(s: State, p: Place)
    requires p in s.table && TableOk(s, p) && CountOk(s, s.table[p]) && s.shared.Keys == s.holders.Keys
    requires s.table[p] in Unbind(s, p).shared <==> s.holders[s.table[p]] != {InTable(p)}
    ensures Unmapped(s, Unbind(s, p), p)
  {
    UnbindShared(s, p);
  }

  lemma UnbindShared(s: State, p: Place)
    requires p in s.table && s.table[p] in s.shared && s.table[p] in s.holders && s.shared[s.table[p]].address !in s.free
    requires s.table[p] in Unbind(s, p).shared <==> s.holders[s.table[p]] != {InTable(p)}
    ensures SharedUnmapped(s, Unbind(s, p), p)
  {
    var s', r := Unbind(s, p), s.table[p];
    if r in s'.shared {
      assert s'.shared.Keys == s.shared.Keys;
    } else {
      assert s'.shared.Keys == s.shared.Keys - {r};
    }
  }

  ghost predicate WasMapped(s: State, f: nat, space: nat, first: nat, n: nat) {
    exists q: Place :: q in s.entry && InRange(q, space, first, n) && s.entry[q].frame == f
  }

  /**
   Exactly the pages of the range are gone.  Exactly those of their frames that
   no descriptor stands for any more are free.
   */
  ghost predicate RangeUnmapped(s: State, s': State, space: nat, first: nat, n: nat) {
    && s'.message == s.message && s'.bytes == s.bytes && s'.inHand == s.inHand
    && (forall q: Place {:trigger q in s'.entry} :: q in s'.entry <==> q in s.entry && !InRange(q, space, first, n))
    && (forall q: Place {:trigger s'.entry[q]} :: q in s'.entry ==> s'.entry[q] == s.entry[q])
    && (forall q: Place {:trigger q in s'.table} :: q in s'.table <==> q in s.table && !InRange(q, space, first, n))
    && (forall q: Place {:trigger s'.table[q]} :: q in s'.table ==> s'.table[q] == s.table[q])
    && s'.shared.Keys <= s.shared.Keys
    && (forall t: nat {:trigger s'.shared[t]} :: t in s'.shared ==> s'.shared[t].address == s.shared[t].address)
    && (forall f: nat {:trigger f in s'.free} :: f in s'.free <==>
          f in s.free || (WasMapped(s, f, space, first, n) && !HasDescriptor(s', f)))
    && ((forall q: Place :: InRange(q, space, first, n) ==> q !in s.table) ==> s'.shared == s.shared && s'.holders == s.holders)
  }

  lemma RangeEmpty(s: State, space: nat, first: nat)
    ensures RangeUnmapped(s, s, space, first, 0)
  {
  }

  lemma RangeNext(s0: State, s: State, s': State, space: nat, first: nat, n: nat)
    requires Inv(s) && Inv(s') && RangeUnmapped(s0, s, space, first, n) && Unmapped(s, s', Place(space, first + n))
    ensures RangeUnmapped(s0, s', space, first, n + 1)
  {
    var p := Place(space, first + n);
    forall q: Place ensures InRange(q, space, first, n + 1) <==> InRange(q, space, first, n) || q == p { }
    forall f: nat {:trigger f in s'.free}
      ensures f in s'.free <==> f in s0.free || (WasMapped(s0, f, space, first, n + 1) && !HasDescriptor(s', f))
    {
      RangeFrees(s0, s, s', space, first, n, f);
    }
    assert p in s.table ==> p in s0.table;
    assert InRange(p, space, first, n + 1);
  }

  lemma RangeFrees(s0: State, s: State, s': State, space: nat, first: nat, n: nat, f: nat)
    requires Inv(s) && Inv(s') && RangeUnmapped(s0, s, space, first, n) && Unmapped(s, s', Place(space, first + n))
    ensures f in s'.free <==> f in s0.free || (WasMapped(s0, f, space, first, n + 1) && !HasDescriptor(s', f))
  {
    var p := Place(space, first + n);
    assert f in s.free <==> f in s0.free || (WasMapped(s0, f, space, first, n) && !HasDescriptor(s, f));
    WasMappedNext(s0, f, space, first, n);
    FreeHasNoDescriptor(s', f);
    if p in s.table {
      var r := s.table[p];
      assert TableOk(s, p);
      assert p in s0.entry && s0.entry[p] == s.entry[p];
      LosesDescriptor(s, s', p, f);
    } else if p in s.entry {
      assert p in s0.entry && s0.entry[p] == s.entry[p];
      PrivateHasNoDescriptor(s, p);
      assert HasDescriptor(s', f) <==> HasDescriptor(s, f);
    } else {
      assert HasDescriptor(s', f) <==> HasDescriptor(s, f);
      assert p !in s0.entry;
    }
  }

  lemma WasMappedNext(s: State, f: nat, space: nat, first: nat, n: nat)
    ensures var p := Place(space, first + n);
            WasMapped(s, f, space, first, n + 1) <==> WasMapped(s, f, space, first, n) || (p in s.entry && s.entry[p].frame == f)
  {
    var p := Place(space, first + n);
    if WasMapped(s, f, space, first, n) {
      var q: Place :| q in s.entry && InRange(q, space, first, n) && s.entry[q].frame == f;
      assert InRange(q, space, first, n + 1);
    }
    if p in s.entry && s.entry[p].frame == f { assert InRange(p, space, first, n + 1); }
    if WasMapped(s, f, space, first, n + 1) {
      var q: Place :| q in s.entry && InRange(q, space, first, n + 1) && s.entry[q].frame == f;
      assert q == p || InRange(q, space, first, n);
    }
  }

  lemma FreeHasNoDescriptor(s: State, f: nat)
    requires Inv(s)
    ensures f in s.free ==> !HasDescriptor(s, f)
  {
    forall r: nat | r in s.shared ensures s.shared[r].address !in s.free { assert CountOk(s, r); }
  }

  lemma PrivateHasNoDescriptor(s: State, p: Place)
    requires Inv(s) && p in s.entry && p !in s.table
    ensures !HasDescriptor(s, s.entry[p].frame)
  {
    forall r: nat | r in s.shared ensures s.shared[r].address != s.entry[p].frame { assert NotShared(s, p, r); }
  }

  /** A frame without a descriptor had none before, or has just become free. */
  lemma LosesDescriptor(s: State, s': State, p: Place, f: nat)
    requires Inv(s) && p in s.table && SharedUnmapped(s, s', p)
    ensures HasDescriptor(s', f) ==> HasDescriptor(s, f)
    ensures HasDescriptor(s, f) && !HasDescriptor(s', f) <==> f == s.shared[s.table[p]].address && s.table[p] !in s'.shared
  {
    var r := s.table[p];
    if HasDescriptor(s', f) {
      var t: nat :| t in s'.shared && s'.shared[t].address == f;
      assert t in s.shared && s.shared[t].address == f;
      assert Different(s, t, r);
    }
    if HasDescriptor(s, f) {
      var t: nat :| t in s.shared && s.shared[t].address == f;
      if t in s'.shared { assert s'.shared[t].address == f; }
    }
  }

  // ----- What expansion means ----------------------------------------------

  const MAX_EXPANSION: nat := 96

  /** The first n pages of the range are new, each writable on a frame of its own that was free; all else is as before. */
  ghost predicate Expanded(s: State, s': State, space: nat, first: nat, n: nat) {
    && s' == s.(entry := s'.entry, free := s'.free) && s'.free <= s.free
    && (forall q: Place {:trigger q in s'.entry} :: q in s'.entry <==> q in s.entry || InRange(q, space, first, n))
    && (forall q: Place {:trigger InRange(q, space, first, n)} :: InRange(q, space, first, n) ==>
          q !in s.entry && q in s'.entry && s'.entry[q] == Pte(s'.entry[q].frame, true, false, false))
    && (forall q: Place {:trigger s'.entry[q]} :: q in s.entry && q in s'.entry ==> s'.entry[q] == s.entry[q])
    && (forall f: nat {:trigger f in s'.free} :: f in s.free <==> f in s'.free || WasMapped(s', f, space, first, n))
    && (forall f: nat {:trigger f in s'.free} :: !(f in s'.free && WasMapped(s', f, space, first, n)))
  }

  lemma ExpandedNone(s: State, space: nat, first: nat)
    ensures Expanded(s, s, space, first, 0)
  {
  }

  lemma ExpandedNext(s0: State, s: State, s': State, space: nat, first: nat, n: nat)
    requires Expanded(s0, s, space, first, n)
    requires var p := Place(space, first + n);
             && p !in s.entry && p in s'.entry && s'.entry[p].frame in s.free
             && s' == s.(entry := s.entry[p := Pte(s'.entry[p].frame, true, false, false)], free := s.free - {s'.entry[p].frame})
    ensures Expanded(s0, s', space, first, n + 1)
  {
    var p := Place(space, first + n);
    forall q: Place ensures InRange(q, space, first, n + 1) <==> InRange(q, space, first, n) || q == p { }
    forall f: nat {:trigger f in s'.free}
      ensures f in s0.free <==> f in s'.free || WasMapped(s', f, space, first, n + 1)
      ensures !(f in s'.free && WasMapped(s', f, space, first, n + 1))
    {
      WasMappedNext(s', f, space, first, n);
      SameMapped(s, s', f, space, first, n);
      assert f in s0.free <==> f in s.free || WasMapped(s, f, space, first, n);
      assert !(f in s.free && WasMapped(s, f, space, first, n));
    }
    forall q: Place {:trigger InRange(q, space, first, n + 1)} | InRange(q, space, first, n + 1)
      ensures q !in s0.entry && q in s'.entry && s'.entry[q] == Pte(s'.entry[q].frame, true, false, false)
    {
      if q != p { assert InRange(q, space, first, n); }
    }
  }

  lemma SameMapped(s: State, s': State, f: nat, space: nat, first: nat, n: nat)
    requires forall q: Place :: InRange(q, space, first, n) ==>
               (q in s.entry <==> q in s'.entry) && (q in s.entry ==> s'.entry[q].frame == s.entry[q].frame)
    ensures WasMapped(s, f, space, first, n) <==> WasMapped(s', f, space, first, n)
  {
    if WasMapped(s, f, space, first, n) {
      var q: Place :| q in s.entry && InRange(q, space, first, n) && s.entry[q].frame == f;
      assert q in s'.entry && s'.entry[q].frame == f;
    }
    if WasMapped(s', f, space, first, n) {
      var q: Place :| q in s'.entry && InRange(q, space, first, n) && s'.entry[q].frame == f;
      assert q in s.entry && s.entry[q].frame == f;
    }
  }

  const WORD: nat := 0x1_0000_0000
  const PAGE: nat := 4096
  const USER_BASE: nat := 0x2000_0000   // PAYLOAD_AREA_BASE

  datatype Status = Success | AccessDenied | InsufficientMemory | InvalidData | Conflict

  /** PAGE_COUNT(0, size) in 32 bits. */
  function PageCount(size: nat): nat {
    (size + PAGE - 1) % WORD / PAGE
  }

  /** The pages that size bytes take, rounded up; none if rounding up overflows. */
  lemma PageCountIs(size: nat)
    requires size < WORD
    ensures size + PAGE <= WORD ==> (size == 0 <==> PageCount(size) == 0)
    ensures 0 < size && size + PAGE <= WORD ==> (PageCount(size) - 1) * PAGE < size <= PageCount(size) * PAGE
    ensures size + PAGE > WORD ==> PageCount(size) == 0
  {
  }

  predicate CountFits(size: nat) {
    0 < PageCount(size) <= MAX_EXPANSION
  }

  /** The pages asked for are aligned user pages below 4 GB. */
  predicate RangeFits(address: nat, size: nat) {
    address % PAGE == 0 && USER_BASE <= address && address + PageCount(size) * PAGE <= WORD
  }

  /** Comparing the first page with the last, in 32 bits, finds a range that wraps around. */
  lemma LastPage(address: nat, size: nat)
    requires address < WORD && CountFits(size)
    ensures var last := (address + (PageCount(size) - 1) * PAGE) % WORD;
            RangeFits(address, size) <==> address % PAGE == 0 && USER_BASE <= address && address <= last
  {
    var bytes := (PageCount(size) - 1) * PAGE;
    assert bytes <= 95 * PAGE;
    if address + bytes < WORD { assert (address + bytes) % WORD == address + bytes; }
    else { assert (address + bytes) % WORD == address + bytes - WORD; }
  }

  ghost predicate AnyTaken(s: State, space: nat, address: nat, size: nat) {
    exists q: Place :: q in s.entry && InRange(q, space, address / PAGE, PageCount(size))
  }

  /** Nothing but a page table can be missing. */
  ghost predicate MayExpand(s: State, capable: bool, space: nat, address: nat, size: nat) {
    && capable && CountFits(size) && RangeFits(address, size) && !AnyTaken(s, space, address, size)
    && PageCount(size) <= |s.free|
  }

  function Elements(frames: seq<nat>): set<nat> {
    set f | f in frames
  }

  /** The frames of the list are different ones, and have been taken off the free ones. */
  ghost predicate Taken(free: set<nat>, free': set<nat>, frames: seq<nat>) {
    && (forall i, j :: 0 <= i < j < |frames| ==> frames[i] != frames[j])
    && Elements(frames) <= free && free' == free - Elements(frames)
  }

  lemma TakeAnother(free: set<nat>, free': set<nat>, frames: seq<nat>, f: nat)
    requires Taken(free, free', frames) && f in free'
    ensures Taken(free, free' - {f}, frames + [f])
  {
    assert Elements(frames + [f]) == Elements(frames) + {f};
    assert forall i :: 0 <= i < |frames| ==> frames[i] in Elements(frames);
  }

  /** The frames at consecutive pages. */
  function MapFrames(entry: map<Place, Pte>, space: nat, first: nat, frames: seq<nat>): map<Place, Pte> {
    if frames == [] then entry else
      var n := |frames| - 1;
      MapFrames(entry, space, first, frames[..n])[Place(space, first + n) := Pte(frames[n], true, false, false)]
  }

  /** What decommit_frame returns: the frame, or 0 for an entry that is not present. */
  function FrameAt(entry: map<Place, Pte>, p: Place): nat {
    if p in entry then entry[p].frame else 0
  }

  lemma {:induction false} MapFramesAt(entry: map<Place, Pte>, space: nat, first: nat, frames: seq<nat>, q: Place)
    ensures var e := MapFrames(entry, space, first, frames);
            && (q in e <==> q in entry || InRange(q, space, first, |frames|))
            && (q in e ==> e[q] == if InRange(q, space, first, |frames|) then Pte(frames[q.page - first], true, false, false)
                                   else entry[q])
  {
    if frames != [] { MapFramesAt(entry, space, first, frames[..|frames| - 1], q); }
  }

  /** Mapping free frames one by one is a run of steps, and expands the address space. */
  lemma {:induction false} MapFramesRun(s: State, s': State, space: nat, first: nat, frames: seq<nat>)
    requires Inv(s) && forall q: Place :: InRange(q, space, first, |frames|) ==> q !in s.entry
    requires Taken(s.free, s'.free, frames)
    requires s' == s.(entry := MapFrames(s.entry, space, first, frames), free := s'.free)
    ensures Inv(s') && Reaches(s, s') && Expanded(s, s', space, first, |frames|)
    decreases |frames|
  {
    if frames == [] {
      assert s' == s;
      ReachSelf(s);
      ExpandedNone(s, space, first);
    } else {
      var n := |frames| - 1;
      var f, p, less := frames[n], Place(space, first + n), frames[..n];
      var t := s.(entry := MapFrames(s.entry, space, first, less), free := s.free - Elements(less));
      assert forall q: Place :: InRange(q, space, first, n) ==> InRange(q, space, first, n + 1);
      MapFramesRun(s, t, space, first, less);
      MapFramesAt(s.entry, space, first, less, p);
      assert InRange(p, space, first, n + 1);
      assert f in Elements(frames) && f !in Elements(less);
      assert s'.free == t.free - {f};
      assert Step(t, MapNew(p, f), s');
      StepKeeps(t, MapNew(p, f), s');
      ReachOn(s, t, MapNew(p, f), s');
      ExpandedNext(s, t, s', space, first, n);
    }
  }

  /** Unbinding the whole range finds the frames that were bound, and nothing after them. */
  lemma CommitUndone(before: map<Place, Pte>, bound: map<Place, Pte>, after: map<Place, Pte>,
                     space: nat, first: nat, frames: seq<nat>, n: nat, found: seq<nat>)
    requires n <= |frames| == |found| && bound == MapFrames(before, space, first, frames[..n])
    requires forall q: Place :: InRange(q, space, first, |frames|) ==> q !in before
    requires forall i :: 0 <= i < |found| ==> found[i] == FrameAt(bound, Place(space, first + i))
    requires forall q: Place {:trigger q in after} :: q in after <==> q in bound && !InRange(q, space, first, |frames|)
    requires forall q: Place {:trigger after[q]} :: q in after ==> after[q] == bound[q]
    ensures after == before
    ensures forall i :: 0 <= i < |found| ==> found[i] == if i < n then frames[i] else 0
  {
    forall q: Place ensures q in after <==> q in before
                    ensures q in after ==> after[q] == before[q]
    {
      MapFramesAt(before, space, first, frames[..n], q);
    }
    forall i | 0 <= i < |found| ensures found[i] == if i < n then frames[i] else 0 {
      var q := Place(space, first + i);
      assert InRange(q, space, first, |frames|);
      MapFramesAt(before, space, first, frames[..n], q);
    }
  }

  /** Of the frames that were taken exactly those from n on are missing afterwards. */
  lemma RolledBack(free: set<nat>, free': set<nat>, frames: seq<nat>, n: nat, found: seq<nat>)
    requires 0 !in free && n <= |frames| == |found| && Taken(free, free - Elements(frames), frames)
    requires forall i :: 0 <= i < |found| ==> found[i] == if i < n then frames[i] else 0
    requires free' == free - Elements(frames) + (Elements(found) - {0})
    ensures free' == free - Elements(frames[n..]) && Elements(frames[n..]) <= free && |Elements(frames[n..])| == |frames| - n
  {
    forall f ensures f in free' <==> f in free && f !in frames[n..] {
      if f in frames[..n] {
        var i :| 0 <= i < n && frames[i] == f;
        assert found[i] == f && f in free;
      }
      assert f in frames <==> f in frames[..n] || f in frames[n..] by { assert frames == frames[..n] + frames[n..]; }
      if f in found && f != 0 {
        var i :| 0 <= i < |found| && found[i] == f;
        assert f == frames[..n][i];
      }
    }
    assert forall f :: f in frames[n..] ==> f in Elements(frames);
    ElementCount(frames[n..]);
  }

  lemma {:induction false} ElementCount(frames: seq<nat>)
    requires forall i, j :: 0 <= i < j < |frames| ==> frames[i] != frames[j]
    ensures |Elements(frames)| == |frames|
  {
    if frames != [] {
      var n := |frames| - 1;
      ElementCount(frames[..n]);
      assert Elements(frames) == Elements(frames[..n]) + {frames[n]};
    }
  }

  /** Forgetting free frames one by one is a run of steps. */
  lemma {:induction false} LoseFrames(s: State, s': State, frames: seq<nat>)
    requires Inv(s) && Taken(s.free, s'.free, frames) && s' == s.(free := s'.free)
    ensures Inv(s') && Reaches(s, s')
    decreases |frames|
  {
    if frames == [] {
      assert s' == s;
      ReachSelf(s);
    } else {
      var n := |frames| - 1;
      var f, less := frames[n], frames[..n];
      var t := s.(free := s.free - Elements(less));
      LoseFrames(s, t, less);
      assert f in Elements(frames) && f !in Elements(less);
      assert s'.free == t.free - {f};
      assert Step(t, LoseFree(f), s');
      StepKeeps(t, LoseFree(f), s');
      ReachOn(s, t, LoseFree(f), s');
    }
  }

  // ----- Payloads arrive -----------------------------------------------------

  /**
   The receiver reads, page by page, what the sender's pages held when the
   payload was collected, whatever steps were taken since, as long as they are
   not about the message itself.
   */
  lemma PayloadArrives(s: State, run: seq<State>, ops: seq<Op>, s': State, m: nat,
                       space: nat, first: nat, count: nat, to: nat, at: nat, i: nat)
    requires IsRun(run, ops) && Inv(run[0]) && (forall j :: 0 <= j < |ops| ==> !Touches(ops[j], m))
    requires Gathered(s, run[0], m, space, first, count) && SameView(s, run[0]) && i < count
    requires Delivered(run[|ops|], s', m, to, at, count)
    ensures Place(space, first + i) in s.entry && Place(to, at + i) in s'.entry
    ensures Visible(s', Place(to, at + i)) == Visible(s, Place(space, first + i))
  {
    var last, p := run[|ops|], Place(space, first + i);
    PayloadFrozen(run, ops, m, i);
    assert TableIs(run[0], p, run[0].message[m].frames[i]);
    assert TableOk(run[0], p);
    assert MapsFrame(last, s', Place(to, at + i), last.message[m].frames[i]);
  }
}
