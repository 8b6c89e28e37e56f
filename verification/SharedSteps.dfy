/**
 The operations on shared frames as steps of one state machine, and what holds
 over all of its runs.  The methods of AddressSpaces are proved to be such runs.
 */
module SharedSteps {
  import opened Options
  import opened SharedFrames

  /** Every page that was mapped still is, and shows the same bytes. */
  ghost predicate SameView(s: State, s': State) {
    && s'.entry.Keys == s.entry.Keys
    && forall p: Place :: p in s.entry ==> Visible(s', p) == Visible(s, p)
  }

  /** What a descriptor stands for does not change while it exists. */
  ghost predicate Snapshots(s: State, s': State) {
    forall r: nat :: r in s.shared && r in s'.shared ==>
      s'.shared[r].address == s.shared[r].address && Contents(s', s.shared[r].address) == Contents(s, s.shared[r].address)
  }

  /** A message without references is nobody's holder. */
  lemma EmptyMessage(s: State, m: nat)
    requires Inv(s) && m !in s.message
    ensures Inv(s.(message := s.message[m := Payload([], 0)]))
  {
    var s' := s.(message := s.message[m := Payload([], 0)]);
    SameCounts(s, s');
    SamePages(s, s');
    forall t: nat, x: Holder {:trigger HolderOk(s', t, x)} | t in s'.shared ensures HolderOk(s', t, x) {
      assert HolderOk(s, t, x) && Target(s', x) == Target(s, x);
    }
    forall x: Holder {:trigger Target(s', x)} | Target(s', x).Some? ensures Target(s', x).value in s'.shared {
      assert Target(s', x) == Target(s, x);
    }
  }

  /** A message without references can go. */
  lemma ForgetMessage(s: State, m: nat)
    requires Inv(s) && m in s.message && s.message[m].released == |s.message[m].frames|
    ensures Inv(s.(message := s.message - {m}))
  {
    var s' := s.(message := s.message - {m});
    SameCounts(s, s');
    SamePages(s, s');
    forall t: nat, x: Holder {:trigger HolderOk(s', t, x)} | t in s'.shared ensures HolderOk(s', t, x) {
      assert HolderOk(s, t, x) && Target(s', x) == Target(s, x);
    }
    forall x: Holder {:trigger Target(s', x)} | Target(s', x).Some? ensures Target(s', x).value in s'.shared {
      assert Target(s', x) == Target(s, x);
    }
  }

  ghost predicate HasDescriptor(s: State, f: nat) {
    exists r: nat :: r in s.shared && s.shared[r].address == f
  }

  // ----- Copy-on-write and stores ------------------------------------------

  /** A filled private frame f in the place of the shared one. */
  function Rebind(s: State, p: Place, f: nat): State
    requires p in s.table && p in s.entry && s.table[p] in s.shared && s.table[p] in s.holders
  {
    var s' := Unbind(s.(bytes := s.bytes[f := Contents(s, s.entry[p].frame)]), p);
    s'.(entry := s'.entry[p := Pte(f, true, false, false)])
  }

  /** The copy-on-write step, with f fresh from the allocator. */
  function Cow(s: State, p: Place, f: nat): State
    requires p in s.table && p in s.entry && s.table[p] in s.shared && s.table[p] in s.holders
  {
    Rebind(s.(free := s.free - {f}), p, f)
  }

  lemma CowOk(s: State, p: Place, f: nat)
    requires Inv(s) && p in s.entry && s.entry[p].copyOnWrite && f in s.free
    ensures p in s.table && s.table[p] in s.shared && s.table[p] in s.holders && Inv(Cow(s, p, f))
  {
    assert EntryOk(s, p) && TableOk(s, p) && CountOk(s, s.table[p]);
    var s1 := s.(free := s.free - {f}, bytes := s.bytes[f := Contents(s, s.entry[p].frame)]);
    Irrelevant(s, s1);
    FreeIsUnused(s, f);
    UnbindOk(s1, p);
    var s2 := Unbind(s1, p);
    assert Unused(s2, f);
    MapPrivateOk(s2, p, f);
  }

  /** Every page shows what it showed before; page p can now be written, on a frame of its own. */
  ghost predicate Copied(s: State, s': State, p: Place) {
    && SameView(s, s') && p in s'.entry
    && s'.entry[p].writable && !s'.entry[p].copyOnWrite && s'.entry[p].frame in s.free
    && (forall q: Place {:trigger s'.entry[q]} :: q in s.entry && q != p ==>
          s'.entry[q] == s.entry[q] && s'.entry[q].frame != s'.entry[p].frame)
    && p in s.table && s.table[p] in s.shared && s.table[p] in s.holders
    && (s.table[p] in s'.shared <==> s.holders[s.table[p]] != {InTable(p)})
    && (s.table[p] !in s'.shared <==> s.shared[s.table[p]].address in s'.free)
  }

  lemma CowCopies(s: State, p: Place, f: nat)
    requires Inv(s) && p in s.entry && s.entry[p].copyOnWrite && f in s.free
    requires p in s.table && s.table[p] in s.shared && s.table[p] in s.holders
    ensures Copied(s, Cow(s, p, f), p) && Snapshots(s, Cow(s, p, f))
  {
    var r := s.table[p];
    assert CountOk(s, r) && TableOk(s, p) && HolderOk(s, r, InTable(p));
    DropCounts(s, r, InTable(p));
    FreeIsUnused(s, f);
    CowSameView(s, p, f);
  }

  lemma CowSameView(s: State, p: Place, f: nat)
    requires p in s.entry && Unused(s.(free := s.free - {f}), f)
    requires p in s.table && s.table[p] in s.shared && s.table[p] in s.holders
    ensures SameView(s, Cow(s, p, f)) && Snapshots(s, Cow(s, p, f))
    ensures Cow(s, p, f).entry == s.entry[p := Pte(f, true, false, false)]
  {
    var s' := Cow(s, p, f);
    assert s'.entry == s.entry[p := Pte(f, true, false, false)];
    assert s'.bytes == s.bytes[f := Contents(s, s.entry[p].frame)];
  }

  /** A store through a writable page is seen by that page only. */
  lemma StoreOk(s: State, p: Place, data: seq<bv8>)
    requires Inv(s) && p in s.entry && s.entry[p].writable
    ensures var s' := s.(bytes := s.bytes[s.entry[p].frame := data]);
            && Inv(s') && Snapshots(s, s') && Visible(s', p) == data
            && forall q: Place :: q in s.entry && q != p ==> Visible(s', q) == Visible(s, q)
  {
    var s' := s.(bytes := s.bytes[s.entry[p].frame := data]);
    Irrelevant(s, s');
    assert p in s.table ==> TableOk(s, p);
    forall q: Place | q in s.entry && q != p ensures Visible(s', q) == Visible(s, q) { WritableIsExclusive(s, p, q); }
    forall r: nat | r in s.shared ensures s.shared[r].address != s.entry[p].frame { assert NotShared(s, p, r); }
  }

  // ----- Steps ---------------------------------------------------------------

  datatype Op =
    | MapNew(p: Place, f: nat)             // expand: a free frame at an empty page
    | ShareAgain(p: Place)                 // share_frame on a shared page
    | ShareFirst(p: Place, r: nat)         // share_frame on a private page
    | Lose(p: Place)                       // share_frame without memory for a descriptor
    | LoseFree(f: nat)                     // expand fails after it has allocated frame f, and before it maps it
    | StartMessage(m: nat)
    | Keep(m: nat)                         // collect_payload stores the reference
    | Deliver(p: Place, r: nat)            // commit_frame of a shared frame
    | ReleaseRef(m: nat)                   // one round of the message destructor
    | EndMessage(m: nat)
    | UnmapShared(p: Place)                // unshare_frame on a shared page
    | UnmapPrivate(p: Place)               // unshare_frame on a private page
    | CopyFrame(p: Place, f: nat)          // copy_on_write
    | Store(p: Place, data: seq<bv8>)      // a store by a thread

  ghost predicate Step(s: State, op: Op, s': State) {
    match op
    case MapNew(p, f) =>
      p !in s.entry && f in s.free && s' == s.(entry := s.entry[p := Pte(f, true, false, false)], free := s.free - {f})
    case ShareAgain(p) =>
      p in s.table && s.table[p] in s.shared && s.table[p] in s.holders && s.inHand == None && s' == ShareOld(s, p)
    case ShareFirst(p, r) =>
      p in s.entry && p !in s.table && r !in s.shared && s.inHand == None && s' == ShareNew(s, p, r)
    case Lose(p) => p in s.entry && p !in s.table && s' == s.(entry := s.entry - {p})
    case LoseFree(f) => f in s.free && s' == s.(free := s.free - {f})
    case StartMessage(m) => m !in s.message && s' == s.(message := s.message[m := Payload([], 0)])
    case Keep(m) =>
      && m in s.message && s.message[m].released == 0
      && s.inHand.Some? && s.inHand.value in s.holders && s' == Stash(s, m)
    case Deliver(p, r) => p !in s.entry && r in s.shared && r in s.holders && s' == Bind(s, p, r)
    case ReleaseRef(m) =>
      && m in s.message && s.message[m].released < |s.message[m].frames|
      && s.message[m].frames[s.message[m].released] in s.shared && s.message[m].frames[s.message[m].released] in s.holders
      && s' == ReleaseNext(s, m)
    case EndMessage(m) =>
      m in s.message && s.message[m].released == |s.message[m].frames| && s' == s.(message := s.message - {m})
    case UnmapShared(p) => p in s.table && s.table[p] in s.shared && s.table[p] in s.holders && s' == Unbind(s, p)
    case UnmapPrivate(p) => p in s.entry && p !in s.table && s' == Discard(s, p)
    case CopyFrame(p, f) =>
      && p in s.entry && s.entry[p].copyOnWrite && f in s.free
      && p in s.table && s.table[p] in s.shared && s.table[p] in s.holders && s' == Cow(s, p, f)
    case Store(p, data) =>
      p in s.entry && s.entry[p].writable && s' == s.(bytes := s.bytes[s.entry[p].frame := data])
  }

  lemma StepInv(s: State, op: Op, s': State)
    requires Inv(s) && Step(s, op, s')
    ensures Inv(s')
  {
    match op
    case MapNew(p, f) => MapNewOk(s, p, f);
    case ShareAgain(p) => ShareOldOk(s, p);
    case ShareFirst(p, r) => ShareNewOk(s, p, r);
    case Lose(p) => UnmapOk(s, p);
    case LoseFree(f) => Irrelevant(s, s');
    case StartMessage(m) => EmptyMessage(s, m);
    case Keep(m) => StashOk(s, m);
    case Deliver(p, r) => BindOk(s, p, r);
    case ReleaseRef(m) => ReleaseNextOk(s, m);
    case EndMessage(m) => ForgetMessage(s, m);
    case UnmapShared(p) => UnbindOk(s, p);
    case UnmapPrivate(p) => DiscardOk(s, p);
    case CopyFrame(p, f) => CowOk(s, p, f);
    case Store(p, data) => StoreOk(s, p, data);
  }

  /** Only copy-on-write and stores write to frames, and never to a shared one. */
  lemma StepSnapshots(s: State, op: Op, s': State)
    requires Inv(s) && Step(s, op, s')
    ensures Snapshots(s, s')
  {
    if op.CopyFrame? {
      CowCopies(s, op.p, op.f);
    } else if op.Store? {
      StoreOk(s, op.p, op.data);
    } else {
      SameBytes(s, op, s');
      forall r: nat | r in s.shared && r in s'.shared ensures s'.shared[r].address == s.shared[r].address {
        StepDescriptors(s, op, s', r);
      }
    }
  }

  /** A descriptor keeps its frame, leaves it free when it goes, and is made for a mapped frame. */
  lemma StepDescriptors(s: State, op: Op, s': State, r: nat)
    requires Step(s, op, s')
    ensures r in s.shared && r in s'.shared ==> s'.shared[r].address == s.shared[r].address
    ensures r in s.shared && r !in s'.shared ==> s.shared[r].address in s'.free
    ensures r !in s.shared && r in s'.shared ==>
      op.ShareFirst? && op.p in s.entry && s'.shared[r].address == s.entry[op.p].frame
  {
    if Drops(op) { DropDescriptors(s, op, s', r); } else { OtherDescriptors(s, op, s', r); }
  }

  /** The step drops a reference. */
  predicate Drops(op: Op) {
    op.ReleaseRef? || op.UnmapShared? || op.CopyFrame?
  }

  lemma DropDescriptors(s: State, op: Op, s': State, r: nat)
    requires Step(s, op, s') && Drops(op)
    ensures r in s'.shared ==> r in s.shared && s'.shared[r].address == s.shared[r].address
    ensures r in s.shared && r !in s'.shared ==> s.shared[r].address in s'.free
  {
    match op
    case ReleaseRef(m) => DropDescriptor(s, s.message[m].frames[s.message[m].released], InMessage(m, s.message[m].released), r);
    case UnmapShared(p) => DropDescriptor(s, s.table[p], InTable(p), r);
    case CopyFrame(p, f) => CowDescriptors(s, p, f, r);
  }

  lemma DropDescriptor(s: State, t: nat, x: Holder, r: nat)
    requires t in s.shared && t in s.holders
    ensures var s' := DropRef(s, t, x);
            && (r in s'.shared ==> r in s.shared && s'.shared[r].address == s.shared[r].address)
            && (r in s.shared && r !in s'.shared ==> s.shared[r].address in s'.free)
  {
  }

  lemma CowDescriptors(s: State, p: Place, f: nat, r: nat)
    requires p in s.table && p in s.entry && s.table[p] in s.shared && s.table[p] in s.holders
    ensures var s' := Cow(s, p, f);
            && (r in s'.shared ==> r in s.shared && s'.shared[r].address == s.shared[r].address)
            && (r in s.shared && r !in s'.shared ==> s.shared[r].address in s'.free)
  {
    DropDescriptor(s.(free := s.free - {f}, bytes := s.bytes[f := Contents(s, s.entry[p].frame)]), s.table[p], InTable(p), r);
  }

  lemma OtherDescriptors(s: State, op: Op, s': State, r: nat)
    requires Step(s, op, s') && !Drops(op)
    ensures r in s.shared ==> r in s'.shared && s'.shared[r].address == s.shared[r].address
    ensures r !in s.shared && r in s'.shared ==>
      op.ShareFirst? && op.p in s.entry && s'.shared[r].address == s.entry[op.p].frame
  {
  }

  lemma SameBytes(s: State, op: Op, s': State)
    requires Step(s, op, s') && !op.CopyFrame? && !op.Store?
    ensures s'.bytes == s.bytes
  {
  }

  /** Every step keeps the invariant, and no step changes what a descriptor stands for. */
  lemma StepKeeps(s: State, op: Op, s': State)
    requires Inv(s) && Step(s, op, s')
    ensures Inv(s') && Snapshots(s, s')
  {
    StepInv(s, op, s');
    StepSnapshots(s, op, s');
  }

  lemma MapNewOk(s: State, p: Place, f: nat)
    requires Inv(s) && p !in s.entry && f in s.free
    ensures Inv(s.(entry := s.entry[p := Pte(f, true, false, false)], free := s.free - {f}))
  {
    var s1 := s.(free := s.free - {f});
    Irrelevant(s, s1);
    FreeIsUnused(s, f);
    MapPrivateOk(s1, p, f);
  }

  // ----- Runs ----------------------------------------------------------------

  ghost predicate IsRun(run: seq<State>, ops: seq<Op>) {
    |run| == |ops| + 1 && forall i :: 0 <= i < |ops| ==> Step(run[i], ops[i], run[i + 1])
  }

  ghost predicate RunFromTo(run: seq<State>, ops: seq<Op>, s: State, s': State) {
    IsRun(run, ops) && run[0] == s && run[|ops|] == s'
  }

  /** Some run of steps leads from s to s'. */
  ghost predicate Reaches(s: State, s': State) {
    exists run, ops :: RunFromTo(run, ops, s, s')
  }

  lemma ReachSelf(s: State)
    ensures Reaches(s, s)
  {
    assert RunFromTo([s], [], s, s);
  }

  lemma ReachStep(s: State, op: Op, s': State)
    requires Step(s, op, s')
    ensures Reaches(s, s')
  {
    assert RunFromTo([s, s'], [op], s, s');
  }

  lemma ReachOn(s: State, t: State, op: Op, s': State)
    requires Reaches(s, t) && Step(t, op, s')
    ensures Reaches(s, s')
  {
    var run, ops :| RunFromTo(run, ops, s, t);
    assert RunFromTo(run + [s'], ops + [op], s, s');
  }

  lemma {:induction false} ReachTrans(s: State, t: State, u: State)
    requires Reaches(s, t) && Reaches(t, u)
    ensures Reaches(s, u)
  {
    var run, ops :| RunFromTo(run, ops, t, u);
    ReachAll(s, run, ops, |ops|);
  }

  lemma {:induction false} ReachAll(s: State, run: seq<State>, ops: seq<Op>, n: nat)
    requires IsRun(run, ops) && n <= |ops| && Reaches(s, run[0])
    ensures Reaches(s, run[n])
  {
    if n > 0 {
      ReachAll(s, run, ops, n - 1);
      assert Step(run[n - 1], ops[n - 1], run[n - 1 + 1]);
      ReachOn(s, run[n - 1], ops[n - 1], run[n]);
    }
  }

  /** The invariant holds in every state of every run. */
  lemma {:induction false} RunKeeps(run: seq<State>, ops: seq<Op>, n: nat)
    requires IsRun(run, ops) && n <= |ops| && Inv(run[0])
    ensures Inv(run[n])
  {
    if n > 0 {
      RunKeeps(run, ops, n - 1);
      assert Step(run[n - 1], ops[n - 1], run[n - 1 + 1]);
      StepKeeps(run[n - 1], ops[n - 1], run[n]);
    }
  }

  // ----- Payloads are snapshots ------------------------------------------------

  /** The step is about message m itself. */
  predicate Touches(op: Op, m: nat) {
    match op
    case StartMessage(x) => x == m
    case Keep(x) => x == m
    case ReleaseRef(x) => x == m
    case EndMessage(x) => x == m
    case _ => false
  }

  lemma StepLeavesMessage(s: State, op: Op, s': State, m: nat)
    requires Step(s, op, s') && !Touches(op, m) && m in s.message
    ensures m in s'.message && s'.message[m] == s.message[m]
  {
  }

  lemma HeldExists(s: State, m: nat, i: nat)
    requires Inv(s) && m in s.message && s.message[m].released <= i < |s.message[m].frames|
    ensures s.message[m].frames[i] in s.shared
  {
    assert Target(s, InMessage(m, i)) == Some(s.message[m].frames[i]);
  }

  /**
   While a message is under way, whatever any thread does to any page, the
   message keeps its frame list and none of those frames changes.
   */
  lemma {:induction false} PayloadFrozen(run: seq<State>, ops: seq<Op>, m: nat, i: nat)
    requires IsRun(run, ops) && Inv(run[0]) && (forall j :: 0 <= j < |ops| ==> !Touches(ops[j], m))
    requires m in run[0].message && run[0].message[m].released <= i < |run[0].message[m].frames|
    ensures var r, last := run[0].message[m].frames[i], run[|ops|];
            && m in last.message && last.message[m] == run[0].message[m]
            && r in run[0].shared && r in last.shared && last.shared[r].address == run[0].shared[r].address
            && Contents(last, run[0].shared[r].address) == Contents(run[0], run[0].shared[r].address)
    decreases |ops|
  {
    HeldExists(run[0], m, i);
    if |ops| > 0 {
      var n := |ops| - 1;
      PayloadFrozen(run[..n + 1], ops[..n], m, i);
      RunKeeps(run, ops, n);
      assert Step(run[n], ops[n], run[n + 1]);
      StepLeavesMessage(run[n], ops[n], run[n + 1], m);
      StepKeeps(run[n], ops[n], run[n + 1]);
      HeldExists(run[n + 1], m, i);
    }
  }
}
