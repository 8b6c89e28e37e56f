/**
 Deleting a thread, over whole runs: what holds from the moment its mailbox is
 disabled, whatever other threads do between and during the three phases of
 delete_messages (src/kernel/io_manager/io_manager.cpp).
 */
module SchedulerDeletion {
  import opened Options
  import opened SchedulerState
  import opened SchedulerChains
  import opened SchedulerTickets
  import opened SchedulerInvariant
  import opened SchedulerTheorems

  predicate IsDisabled(k: Kernel, v: Tid) {
    v in k.threads && !k.threads[v].enabled
  }

  /** u is blocked on v, waiting for a reply with this id. */
  predicate WaitsFor(k: Kernel, u: Tid, v: Tid, id: nat) {
    && u in k.threads && k.threads[u].state == Blocked
    && k.threads[u].blockingThread == Some(v) && k.threads[u].blockingId == id
  }

  predicate IsEnabled(k: Kernel, u: Tid) {
    u in k.threads && k.threads[u].enabled
  }

  // ----- One step --------------------------------------------------------

  /** t and t' differ at most in their bonus ticket and in the ticks left. */
  predicate SameButBonus(t: Thread, t': Thread) {
    t' == t.(bonus := t'.bonus, ticks := t'.ticks)
  }

  lemma SelectSame(k: Kernel, ticket: nat, next: Tid, k': Kernel, t: Tid)
    requires Selects(k, ticket, next, k')
    ensures t in k'.threads <==> t in k.threads
    ensures t in k.threads ==> SameButBonus(k.threads[t], k'.threads[t])
  {
    if t in k.threads { BonusGoesToOwner(k, ticket, next, k', t); }
  }

  lemma TickSame(k: Kernel, m: Ref, ticket: nat, next: Tid, k': Kernel, t: Tid)
    requires TickStep(k, m, ticket, next, k')
    ensures t in k'.threads <==> t in k.threads
    ensures t in k.threads ==> SameButBonus(k.threads[t], k'.threads[t])
  {
    if Expires(k) { SelectSame(Consoled(Charge(k), m), ticket, next, k', t); }
  }

  /** A disabled mailbox stays disabled. */
  lemma StepStaysDisabled(k: Kernel, a: Action, k': Kernel, v: Tid)
    requires Inv(k) && Next(k, a, k') && IsDisabled(k, v)
    ensures IsDisabled(k', v)
  {
    match a
    case DoTick(m, ticket, next) => TickSame(k, m, ticket, next, k', v);
    case DoYield(ticket, next) => SelectSame(k, ticket, next, k', v);
    case DoFlush => FlushRemoves(k, k');
    case _ =>
  }

  lemma PutNoNewWaiter(k: Kernel, m: Ref, msg: Message, u: Tid, v: Tid, id: nat)
    requires k.current in k.threads && msg.destination in k.threads && k.threads[msg.destination].enabled
    requires IsDisabled(k, v) && WaitsFor(Put(k, m, msg), u, v, id)
    ensures WaitsFor(k, u, v, id) && (IsEnabled(Put(k, m, msg), u) ==> IsEnabled(k, u))
  {
  }

  /** Nobody starts to wait for a disabled thread. */
  lemma StepNoNewWaiter(k: Kernel, a: Action, k': Kernel, u: Tid, v: Tid, id: nat)
    requires Inv(k) && Next(k, a, k') && IsDisabled(k, v) && WaitsFor(k', u, v, id)
    ensures WaitsFor(k, u, v, id) && (IsEnabled(k', u) ==> IsEnabled(k, u))
  {
    match a
    case DoPut(m, msg) => if PutStatus(k, msg) == Success { PutNoNewWaiter(k, m, msg, u, v, id); }
    case DoTick(m, ticket, next) => TickSame(k, m, ticket, next, k', u);
    case DoYield(ticket, next) => SelectSame(k, ticket, next, k', u);
    case DoFlush => FlushRemoves(k, k');
    case _ =>
  }

  // ----- Runs ------------------------------------------------------------

  lemma {:induction false} StaysDisabled(states: seq<Kernel>, actions: seq<Action>, i: nat, j: nat, v: Tid)
    requires IsRun(states, actions) && i <= j < |states| && IsDisabled(states[i], v)
    ensures IsDisabled(states[j], v)
    decreases j
  {
    if i < j {
      StaysDisabled(states, actions, i, j - 1, v);
      RunKeeps(states, actions, j - 1);
      assert Next(states[j - 1], actions[j - 1], states[j - 1 + 1]);
      StepStaysDisabled(states[j - 1], actions[j - 1], states[j], v);
    }
  }

  /** Whoever waits for a disabled thread has waited for it, for the same reply, ever since it was disabled. */
  lemma {:induction false} WaitedSince(states: seq<Kernel>, actions: seq<Action>, i: nat, j: nat, u: Tid, v: Tid, id: nat)
    requires IsRun(states, actions) && i <= j < |states| && IsDisabled(states[i], v) && WaitsFor(states[j], u, v, id)
    ensures WaitsFor(states[i], u, v, id) && (IsEnabled(states[j], u) ==> IsEnabled(states[i], u))
    decreases j
  {
    if i < j {
      StaysDisabled(states, actions, i, j - 1, v);
      RunKeeps(states, actions, j - 1);
      assert Next(states[j - 1], actions[j - 1], states[j - 1 + 1]);
      StepNoNewWaiter(states[j - 1], actions[j - 1], states[j], u, v, id);
      WaitedSince(states, actions, i, j - 1, u, v, id);
    }
  }

  /** The put that put_response makes for an aborted request. */
  predicate IsAbortOf(a: Action, request: Message) {
    a.DoPut? && a.msg == Response(request, TYPE_ABORT)
  }

  /** msg tells u, which waits for v under this id, that v is gone. */
  predicate IsAbort(msg: Message, v: Tid, u: Tid, id: nat) {
    msg.kind == 0x8000_0001 && msg.source == v && msg.destination == u && msg.id == id && !msg.blocking
  }

  /**
   Whenever the abort of a request is put, an enabled sender that still waits
   for that request becomes ready, and the abort is the next message it gets.
   */
  lemma AbortWakes(states: seq<Kernel>, actions: seq<Action>, j: nat, request: Message)
    requires IsRun(states, actions) && j < |actions| && IsAbortOf(actions[j], request)
    requires WaitsFor(states[j], request.source, request.destination, request.id) && IsEnabled(states[j], request.source)
    ensures var u, k' := request.source, states[j + 1];
            && u in k'.threads && k'.threads[u].state == Ready && k'.threads[u].blockingThread == None
            && k'.threads[u].queue == [actions[j].m] + states[j].threads[u].queue
            && actions[j].m in k'.messages && IsAbort(k'.messages[actions[j].m], request.destination, u, request.id)
  {
    assert Next(states[j], actions[j], states[j + 1]);
  }

  /** Once its abort has been put, no enabled sender waits for that request again. */
  lemma NeverWaitsAgain(states: seq<Kernel>, actions: seq<Action>, j: nat, l: nat, request: Message)
    requires IsRun(states, actions) && j < l < |states| && IsAbortOf(actions[j], request)
    requires IsDisabled(states[j], request.destination) && IsEnabled(states[l], request.source)
    ensures !WaitsFor(states[l], request.source, request.destination, request.id)
  {
    var u, v, id := request.source, request.destination, request.id;
    if WaitsFor(states[l], u, v, id) {
      StaysDisabled(states, actions, j, j + 1, v);
      WaitedSince(states, actions, j + 1, l, u, v, id);
      WaitedSince(states, actions, j, l, u, v, id);
      AbortWakes(states, actions, j, request);
      assert false;
    }
  }

  // ----- The latest request of a sender ----------------------------------

  predicate IsRequestFrom(messages: map<Ref, Message>, m: Ref, u: Tid) {
    m in messages && messages[m].blocking && messages[m].source == u
  }

  /** The id of the last blocking request from u in a mailbox. */
  function LatestId(messages: map<Ref, Message>, queue: seq<Ref>, u: Tid): Option<nat> {
    if queue == [] then None
    else
      var m := queue[|queue| - 1];
      if IsRequestFrom(messages, m, u) then Some(messages[m].id) else LatestId(messages, queue[..|queue| - 1], u)
  }

  lemma LatestPush(messages: map<Ref, Message>, queue: seq<Ref>, m: Ref, u: Tid)
    ensures LatestId(messages, queue + [m], u) ==
            if IsRequestFrom(messages, m, u) then Some(messages[m].id) else LatestId(messages, queue, u)
  {
    assert (queue + [m])[..|queue|] == queue;
  }

  lemma {:induction false} LatestPushHead(messages: map<Ref, Message>, queue: seq<Ref>, m: Ref, u: Tid)
    requires !IsRequestFrom(messages, m, u)
    ensures LatestId(messages, [m] + queue, u) == LatestId(messages, queue, u)
  {
    if queue != [] {
      var n := |queue| - 1;
      LatestPushHead(messages, queue[..n], m, u);
      assert ([m] + queue)[..n + 1] == [m] + queue[..n];
    }
  }

  lemma {:induction false} LatestPop(messages: map<Ref, Message>, queue: seq<Ref>, u: Tid)
    requires queue != []
    ensures LatestId(messages, queue[1..], u) == None || LatestId(messages, queue[1..], u) == LatestId(messages, queue, u)
  {
    if |queue| > 1 {
      var n := |queue| - 1;
      LatestPop(messages, queue[..n], u);
      assert queue[1..][..n - 1] == queue[..n][1..];
    }
  }

  lemma {:induction false} LatestFrame(messages: map<Ref, Message>, m: Ref, msg: Message, queue: seq<Ref>, u: Tid)
    requires m !in queue
    ensures LatestId(messages[m := msg], queue, u) == LatestId(messages, queue, u)
  {
    if queue != [] { LatestFrame(messages, m, msg, queue[..|queue| - 1], u); }
  }

  /** If a mailbox has a request from u, the latest one is in it. */
  lemma {:induction false} LatestIsThere(messages: map<Ref, Message>, queue: seq<Ref>, m: Ref, u: Tid) returns (m': Ref)
    requires m in queue && IsRequestFrom(messages, m, u)
    ensures m' in queue && IsRequestFrom(messages, m', u) && LatestId(messages, queue, u) == Some(messages[m'].id)
  {
    var n := |queue| - 1;
    m' := queue[n];
    if !IsRequestFrom(messages, queue[n], u) {
      assert m in queue[..n];
      m' := LatestIsThere(messages, queue[..n], m, u);
    }
  }

  /** If u is blocked on v, the latest request of u in the mailbox of v is the one it waits for. */
  predicate AwaitsLatest(k: Kernel, u: Tid, v: Tid) {
    u in k.threads && v in k.threads && k.threads[u].blockingThread == Some(v) ==>
      var latest := LatestId(k.messages, k.threads[v].queue, u);
      latest == None || latest == Some(k.threads[u].blockingId)
  }

  /** A blocking message never wakes its receiver: the two would wait for each other. */
  lemma BlockingNeverWakes(k: Kernel, msg: Message)
    requires Inv(k) && msg.blocking && msg.source == k.current && k.threads[k.current].state == Ready
    requires msg.destination in k.threads && Wakes(k.threads[msg.destination], msg)
    ensures CausesLoop(k, msg)
  {
    var d, c := msg.destination, k.current;
    assert ThreadOk(k.messages, k.threads[c]);
    assert LinkAt(k.threads, [d, c], 0);
    assert ChainFromTo(k.threads, [d, c], d, c);
  }

  lemma PutAwaits(k: Kernel, m: Ref, msg: Message, u: Tid, v: Tid)
    requires Inv(k) && msg.destination in k.threads && k.threads[k.current].state == Ready && m !in k.pool
    requires (msg.blocking ==> msg.source == k.current) && PutStatus(k, msg) == Success && AwaitsLatest(k, u, v)
    ensures AwaitsLatest(Put(k, m, msg), u, v)
  {
    var k', d := Put(k, m, msg), msg.destination;
    FreshNotHeld(k, m);
    if u in k'.threads && v in k'.threads {
      LatestFrame(k.messages, m, msg, k.threads[v].queue, u);
      if v == d {
        if msg.blocking && Wakes(k.threads[d], msg) { BlockingNeverWakes(k, msg); }
        if Wakes(k.threads[d], msg) {
          LatestPushHead(k'.messages, k.threads[d].queue, m, u);
        } else {
          LatestPush(k'.messages, k.threads[d].queue, m, u);
        }
      }
    }
  }

  lemma StepAwaits(k: Kernel, a: Action, k': Kernel, u: Tid, v: Tid)
    requires Inv(k) && Next(k, a, k') && AwaitsLatest(k, u, v)
    ensures AwaitsLatest(k', u, v)
  {
    match a
    case DoPut(m, msg) => if PutStatus(k, msg) == Success { PutAwaits(k, m, msg, u, v); }
    case DoPop => if v == k.current && k.threads[v].queue != [] { LatestPop(k.messages, k.threads[v].queue, u); }
    case DoTick(m, ticket, next) => TickAwaits(k, m, ticket, next, k', u, v);
    case DoYield(ticket, next) => SelectAwaits(k, ticket, next, k', u, v);
    case DoFlush => FlushRemoves(k, k');
    case _ =>
  }

  lemma SelectAwaits(k: Kernel, ticket: nat, next: Tid, k': Kernel, u: Tid, v: Tid)
    requires Selects(k, ticket, next, k') && AwaitsLatest(k, u, v)
    ensures AwaitsLatest(k', u, v)
  {
    SelectSame(k, ticket, next, k', u);
    SelectSame(k, ticket, next, k', v);
    assert k'.messages == k.messages;
  }

  lemma TickAwaits(k: Kernel, m: Ref, ticket: nat, next: Tid, k': Kernel, u: Tid, v: Tid)
    requires PoolMatches(k) && TickStep(k, m, ticket, next, k') && AwaitsLatest(k, u, v)
    ensures AwaitsLatest(k', u, v)
  {
    TickSame(k, m, ticket, next, k', u);
    TickSame(k, m, ticket, next, k', v);
    var bonus := Message(k.nullThread, k.current, ID_ATOMIC, TYPE_NULL, false);
    assert k'.messages == k.messages || k'.messages == k.messages[m := bonus];
    if v in k.threads {
      FreshNotHeld(k, m);
      LatestFrame(k.messages, m, bonus, k.threads[v].queue, u);
    }
  }

  lemma {:induction false} RunAwaits(states: seq<Kernel>, actions: seq<Action>, i: nat, u: Tid, v: Tid)
    requires IsRun(states, actions) && i < |states|
    ensures AwaitsLatest(states[i], u, v)
  {
    if i > 0 {
      RunAwaits(states, actions, i - 1, u, v);
      RunKeeps(states, actions, i - 1);
      assert Next(states[i - 1], actions[i - 1], states[i - 1 + 1]);
      StepAwaits(states[i - 1], actions[i - 1], states[i], u, v);
    }
  }

  // ----- Deletion --------------------------------------------------------

  /** Thread v is marked for deletion at step i. */
  ghost predicate MarkedAt(states: seq<Kernel>, actions: seq<Action>, i: nat, v: Tid) {
    IsRun(states, actions) && i < |actions| && actions[i] == DoMark(v) && v in states[i].threads
  }

  /** The request m, which was in the mailbox of v at step i, has been answered with an abort before step l. */
  ghost predicate AbortedBy(states: seq<Kernel>, actions: seq<Action>, i: nat, l: nat, m: Ref)
    requires i < |states| && l <= |actions|
  {
    m in states[i].messages && exists j: nat :: i < j < l && IsAbortOf(actions[j], states[i].messages[m])
  }

  /**
   After v was marked at step i, with any steps of any threads in between: once
   every blocking request that was in its mailbox has been answered with an
   abort, no enabled sender of such a request is blocked on v, then or later.
   */
  lemma DeletedSendersWake(states: seq<Kernel>, actions: seq<Action>, i: nat, l: nat, v: Tid, m: Ref)
    requires MarkedAt(states, actions, i, v) && i < l < |states|
    requires m in states[i].threads[v].queue && m in states[i].messages && states[i].messages[m].blocking
    requires forall x :: x in states[i].threads[v].queue && x in states[i].messages && states[i].messages[x].blocking ==>
               AbortedBy(states, actions, i, l, x)
    requires IsEnabled(states[l], states[i].messages[m].source)
    ensures states[l].threads[states[i].messages[m].source].blockingThread != Some(v)
  {
    var k, u := states[i], states[i].messages[m].source;
    RunKeeps(states, actions, i);
    RunKeeps(states, actions, l);
    assert Next(states[i], actions[i], states[i + 1]);
    assert IsDisabled(states[i + 1], v);
    if states[l].threads[u].blockingThread == Some(v) {
      var id := states[l].threads[u].blockingId;
      assert ThreadOk(states[l].messages, states[l].threads[u]);
      WaitedSince(states, actions, i + 1, l, u, v, id);
      WaitedAtMark(k, states[i + 1], u, v, id);
      RunAwaits(states, actions, i, u, v);
      var x := LatestIsThere(k.messages, k.threads[v].queue, m, u);
      LeftoversKnown(k, v);
      assert k.messages[x].id == id && k.messages[x].destination == v;
      assert AbortedBy(states, actions, i, l, x);
      var j: nat :| i < j < l && IsAbortOf(actions[j], k.messages[x]);
      StaysDisabled(states, actions, i + 1, j, v);
      NeverWaitsAgain(states, actions, j, l, k.messages[x]);
      assert false;
    }
  }

  /** Marking v changes nothing about who waits. */
  lemma WaitedAtMark(k: Kernel, k': Kernel, u: Tid, v: Tid, id: nat)
    requires Inv(k) && MarkStep(k, v, k') && WaitsFor(k', u, v, id)
    ensures WaitsFor(k, u, v, id)
  {
  }

  /**
   In every reachable state, a thread that has been marked has an empty mailbox
   and no bonus ticket, and every ticket it still owns is for a message that it
   is itself retrieving, or that a deleter of it is just taking out of the pool.
   */
  lemma DeletedHasNoTickets(states: seq<Kernel>, actions: seq<Action>, i: nat, v: Tid)
    requires IsRun(states, actions) && i < |states| && IsDisabled(states[i], v)
    ensures states[i].threads[v].queue == [] && states[i].threads[v].bonus == None
    ensures forall m :: m in states[i].pool && m in states[i].messages && states[i].messages[m].destination == v ==>
              exists p :: At(states[i].threads, m, p) && p.slot.CallAt? && (p.t == v || Flushes(states[i].threads[p.t], v))
  {
    RunKeeps(states, actions, i);
    var k := states[i];
    assert ThreadOk(k.messages, k.threads[v]);
    forall m | m in k.pool && m in k.messages && k.messages[m].destination == v
      ensures exists p :: At(k.threads, m, p) && p.slot.CallAt? && (p.t == v || Flushes(k.threads[p.t], v))
    {
      assert Held(k.threads, m);
      var p :| At(k.threads, m, p);
      if p.t != v {
        assert k.threads[p.t].calls[p.slot.i] in k.threads[p.t].calls;
      }
    }
  }
}
