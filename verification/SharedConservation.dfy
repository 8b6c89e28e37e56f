/**
 Conservation of page frames: over every run of the operations on shared frames
 a frame stays free, mapped or described, except where the code forgets it.
 */
module SharedConservation {
  import opened Options
  import opened SharedFrames
  import opened SharedSteps

  ghost predicate Mapped(s: State, f: nat) {
    exists p: Place :: p in s.entry && s.entry[p].frame == f
  }

  /** Somebody can still find frame f: the allocator, a page table or a descriptor. */
  ghost predicate Owned(s: State, f: nat) {
    f in s.free || Mapped(s, f) || HasDescriptor(s, f)
  }

  /** The frame that a step forgets, if it does. */
  function LostBy(s: State, op: Op): set<nat> {
    match op
    case Lose(p) => if p in s.entry then {s.entry[p].frame} else {}
    case LoseFree(f) => {f}
    case _ => {}
  }

  predicate Loses(op: Op) {
    op.Lose? || op.LoseFree?
  }

  // ----- Steps -----------------------------------------------------------

  lemma FreeStaysOwned(s: State, op: Op, s': State, f: nat)
    requires Step(s, op, s') && f in s.free && f !in LostBy(s, op)
    ensures Owned(s', f)
  {
    if f !in s'.free { assert s'.entry[op.p].frame == f; }
  }

  lemma DescribedStaysOwned(s: State, op: Op, s': State, f: nat)
    requires Step(s, op, s') && HasDescriptor(s, f)
    ensures f in s'.free || HasDescriptor(s', f)
  {
    var r: nat :| r in s.shared && s.shared[r].address == f;
    StepDescriptors(s, op, s', r);
  }

  lemma MappedStaysOwned(s: State, op: Op, s': State, f: nat)
    requires Inv(s) && Step(s, op, s') && Mapped(s, f) && f !in LostBy(s, op)
    ensures Owned(s', f)
  {
    var p: Place :| p in s.entry && s.entry[p].frame == f;
    if p in s.table {
      assert TableOk(s, p);
      assert HasDescriptor(s, f);
      DescribedStaysOwned(s, op, s', f);
    } else {
      assert f in s'.free || (p in s'.entry && s'.entry[p].frame == f);
    }
  }

  lemma FreeWasOwned(s: State, op: Op, s': State, f: nat)
    requires Step(s, op, s') && f in s'.free
    ensures Owned(s, f)
  {
    if f !in s.free {
      if op.UnmapPrivate? { assert s.entry[op.p].frame == f; }
      else if op.ReleaseRef? { assert s.shared[s.message[op.m].frames[s.message[op.m].released]].address == f; }
      else { assert s.shared[s.table[op.p]].address == f; }
    }
  }

  lemma DescribedWasOwned(s: State, op: Op, s': State, f: nat)
    requires Step(s, op, s') && HasDescriptor(s', f)
    ensures Owned(s, f)
  {
    var r: nat :| r in s'.shared && s'.shared[r].address == f;
    StepDescriptors(s, op, s', r);
  }

  lemma MappedWasOwned(s: State, op: Op, s': State, f: nat)
    requires Step(s, op, s') && Mapped(s', f)
    ensures Owned(s, f)
  {
    var p: Place :| p in s'.entry && s'.entry[p].frame == f;
    if !(p in s.entry && s.entry[p].frame == f) && f !in s.free { assert s.shared[op.r].address == f; }
  }

  /** A forgotten frame was found before, and is found nowhere afterwards. */
  lemma LostIsLost(s: State, op: Op, s': State, f: nat)
    requires Inv(s) && Step(s, op, s') && f in LostBy(s, op)
    ensures Owned(s, f) && !Owned(s', f)
  {
    if op.Lose? {
      assert EntryOk(s, op.p);
      forall q: Place | q in s'.entry ensures s'.entry[q].frame != f { assert Alone(s, op.p, q); }
      forall r: nat | r in s'.shared ensures s'.shared[r].address != f { assert NotShared(s, op.p, r); }
    } else {
      FreeIsUnused(s, f);
      assert Unused(s.(free := s.free - {f}), f);
    }
  }

  /** A step keeps every frame, but the one it forgets. */
  lemma StepConserves(s: State, op: Op, s': State, f: nat)
    requires Inv(s) && Step(s, op, s')
    ensures Owned(s', f) <==> Owned(s, f) && f !in LostBy(s, op)
    ensures f in LostBy(s, op) ==> Owned(s, f)
  {
    if f in LostBy(s, op) {
      LostIsLost(s, op, s', f);
    } else {
      if f in s.free { FreeStaysOwned(s, op, s', f); }
      if Mapped(s, f) { MappedStaysOwned(s, op, s', f); }
      if HasDescriptor(s, f) { DescribedStaysOwned(s, op, s', f); }
      if f in s'.free { FreeWasOwned(s, op, s', f); }
      if Mapped(s', f) { MappedWasOwned(s, op, s', f); }
      if HasDescriptor(s', f) { DescribedWasOwned(s, op, s', f); }
    }
  }

  // ----- Runs ------------------------------------------------------------

  /** The frames forgotten over a run. */
  ghost function Lost(run: seq<State>, ops: seq<Op>): set<nat>
    requires |run| == |ops| + 1
  {
    if ops == [] then {} else
      var n := |ops| - 1;
      Lost(run[..n + 1], ops[..n]) + LostBy(run[n], ops[n])
  }

  /** How many steps forget a frame. */
  function Losses(ops: seq<Op>): nat {
    if ops == [] then 0 else Losses(ops[..|ops| - 1]) + if Loses(ops[|ops| - 1]) then 1 else 0
  }

  /** Over every run exactly the forgotten frames are gone, a different one at each step that forgets one. */
  lemma {:induction false} RunConserves(run: seq<State>, ops: seq<Op>)
    requires IsRun(run, ops) && Inv(run[0])
    ensures forall f: nat :: Owned(run[|ops|], f) <==> Owned(run[0], f) && f !in Lost(run, ops)
    ensures forall f: nat :: f in Lost(run, ops) ==> Owned(run[0], f)
    ensures |Lost(run, ops)| == Losses(ops)
  {
    if ops != [] {
      var n := |ops| - 1;
      RunConserves(run[..n + 1], ops[..n]);
      RunKeeps(run, ops, n);
      assert Step(run[n], ops[n], run[n + 1]);
      var before, now := Lost(run[..n + 1], ops[..n]), LostBy(run[n], ops[n]);
      forall f: nat
        ensures Owned(run[n + 1], f) <==> Owned(run[n], f) && f !in now
        ensures f in now ==> Owned(run[n], f)
      {
        StepConserves(run[n], ops[n], run[n + 1], f);
      }
      assert before !! now;
      assert |now| == if Loses(ops[n]) then 1 else 0;
    }
  }

  /** All frames are still owned after a run if and only if no step of it forgets one. */
  lemma NothingLostIff(run: seq<State>, ops: seq<Op>)
    requires IsRun(run, ops) && Inv(run[0])
    ensures (forall f: nat :: Owned(run[0], f) ==> Owned(run[|ops|], f)) <==> Losses(ops) == 0
  {
    RunConserves(run, ops);
    if Losses(ops) > 0 {
      var f :| f in Lost(run, ops);
      assert Owned(run[0], f) && !Owned(run[|ops|], f);
    }
  }
}
