/**
 What holds in every state of every run of the messaging and scheduling
 protocol, whatever the threads do and however their steps interleave.
 */
module SchedulerTheorems {
  import opened Options
  import opened SchedulerState
  import opened SchedulerChains
  import opened SchedulerTickets
  import opened SchedulerInvariant

  lemma {:induction false} RunKeeps(states: seq<Kernel>, actions: seq<Action>, i: nat)
    requires IsRun(states, actions) && i < |states|
    ensures Inv(states[i])
  {
    if i == 0 {
      InitHolds(states[0]);
    } else {
      RunKeeps(states, actions, i - 1);
      assert Next(states[i - 1], actions[i - 1], states[i - 1 + 1]);
      StepKeeps(states[i - 1], actions[i - 1], states[i]);
    }
  }

  // ----- No deadlock cycles ----------------------------------------------

  /**
   In every reachable state no thread waits for itself, directly or through
   others, and the walk of find_blocking_thread stops at a ready thread.
   */
  lemma NoDeadlock(states: seq<Kernel>, actions: seq<Action>, i: nat)
    requires IsRun(states, actions) && i < |states|
    ensures Acyclic(states[i].threads)
    ensures forall t :: t in states[i].threads ==>
              exists e :: EndsAt(states[i].threads, t, e) && e in states[i].threads && states[i].threads[e].state == Ready
  {
    RunKeeps(states, actions, i);
    var k := states[i];
    ChainsRuleOutCycles(k.threads);
    forall t | t in k.threads
      ensures exists e :: EndsAt(k.threads, t, e) && e in k.threads && k.threads[e].state == Ready
    {
      var e := ReadyEnd(k, t);
    }
  }

  lemma ReadyEnd(k: Kernel, t: Tid) returns (e: Tid)
    requires ThreadInv(k) && t in k.threads
    ensures EndsAt(k.threads, t, e) && e in k.threads && k.threads[e].state == Ready
  {
    assert HasChain(k.threads, t);
    e :| EndsAt(k.threads, t, e);
    EndFacts(k.threads, t, e);
    assert ThreadOk(k.messages, k.threads[e]);
  }

  // ----- Selection -------------------------------------------------------

  lemma TicketOwner(k: Kernel, i: nat)
    requires Inv(k) && i < |k.pool|
    ensures k.pool[i] in k.messages && k.messages[k.pool[i]].destination in k.threads
  {
    assert k.pool[i] in k.pool;
    assert Held(k.threads, k.pool[i]);
    var p :| At(k.threads, k.pool[i], p);
    if Addressee(k.threads, p) != p.t {
      assert Flushes(k.threads[p.t], Addressee(k.threads, p)) by {
        assert k.threads[p.t].calls[p.slot.i] in k.threads[p.t].calls;
      }
    }
  }

  /**
   From every reachable state and for every draw, select_next_thread finds a
   thread, it is ready, and no other answer is possible.
   */
  lemma SelectionIsReady(states: seq<Kernel>, actions: seq<Action>, i: nat, ticket: nat)
    returns (next: Tid, k': Kernel)
    requires IsRun(states, actions) && i < |states|
    requires states[i].pool != [] ==> ticket < |states[i].pool|
    ensures Selects(states[i], ticket, next, k')
    ensures k'.current == next && next in k'.threads && k'.threads[next].state == Ready
    ensures forall next2, k2 :: Selects(states[i], ticket, next2, k2) ==> next2 == next && k2 == k'
  {
    RunKeeps(states, actions, i);
    next, k' := SelectReady(states[i], ticket);
  }

  lemma SelectReady(k: Kernel, ticket: nat) returns (next: Tid, k': Kernel)
    requires Inv(k)
    requires k.pool != [] ==> ticket < |k.pool|
    ensures Selects(k, ticket, next, k')
    ensures k'.current == next && next in k'.threads && k'.threads[next].state == Ready
    ensures forall next2, k2 :: Selects(k, ticket, next2, k2) ==> next2 == next && k2 == k'
  {
    var origin :=
      if k.threads[k.current].blockingThread.Some? then k.current
      else if k.pool == [] then k.nullThread
      else (TicketOwner(k, ticket); Winner(k, ticket));
    if k.threads[k.current].blockingThread.None? && k.pool != [] {
      TicketOwner(k, ticket);
      BonusIndexed(k, origin);
    }
    next := ReadyEnd(k, origin);
    var k1 := if k.threads[k.current].blockingThread.None? && k.pool != [] then DropBonus(k, origin) else k;
    k' := Dispatch(k1, next);
    forall next2, k2 | Selects(k, ticket, next2, k2) ensures next2 == next && k2 == k' {
      EndsAtUnique(k.threads, origin, next, next2);
    }
  }

  // ----- Tickets of preempted threads ------------------------------------

  /** t lost the CPU while still wanting it. */
  predicate Waiting(k: Kernel, t: Tid) {
    && t in k.threads && t != k.current
    && k.threads[t].enabled && k.threads[t].state == Ready
    && (k.threads[t].queue != [] || k.threads[t].bonus.Some?)
  }

  lemma ExpiryWaits(k: Kernel, m: Ref, ticket: nat, next: Tid, k': Kernel)
    requires Inv(k) && TickStep(k, m, ticket, next, k') && Expires(k)
    requires k.current != k.nullThread && k.threads[k.current].enabled
    requires k'.current != k.current
    ensures Waiting(k', k.current)
  {
    var t := k.current;
    var k1 := Consoled(Charge(k), m);
    ConsoledKeeps(k, m);
    assert k1.threads[t].queue != [] || k1.threads[t].bonus.Some?;
    assert ThreadOk(k1.messages, k1.threads[t]);
    SelectSparesLosers(k1, ticket, next, k', t);
  }

  /** A ticket is drawn: the running thread is not blocked, and there are tickets. */
  predicate HoldsLottery(k: Kernel) {
    k.current in k.threads && k.threads[k.current].blockingThread.None? && k.pool != []
  }

  /**
   Exactly the owner of a drawn ticket loses its bonus, whether it gets the CPU
   or, being blocked, the end of its chain does; nothing else about any thread
   changes, except that the selected one gets a new quantum.
   */
  lemma BonusGoesToOwner(k: Kernel, ticket: nat, next: Tid, k': Kernel, t: Tid)
    requires Selects(k, ticket, next, k') && t in k.threads
    ensures HoldsLottery(k) ==> ticket < |k.pool| && k.pool[ticket] in k.messages
    ensures t in k'.threads
    ensures k'.threads[t].bonus ==
            if HoldsLottery(k) && t == k.messages[k.pool[ticket]].destination then None else k.threads[t].bonus
    ensures k'.threads[t] == k.threads[t].(bonus := k'.threads[t].bonus, ticks := if t == next then QUANTUM else k.threads[t].ticks)
  {
  }

  /** An unblocked thread that is not selected keeps its bonus ticket. */
  lemma SelectSparesLosers(k: Kernel, ticket: nat, next: Tid, k': Kernel, t: Tid)
    requires Inv(k) && Selects(k, ticket, next, k')
    requires t in k.threads && t != next && k.threads[t].blockingThread == None
    ensures t in k'.threads && k'.threads[t] == k.threads[t]
  {
    if k.threads[k.current].blockingThread.None? && k.pool != [] {
      var w := Winner(k, ticket);
      EndFacts(k.threads, w, next);
    }
  }

  lemma StepWaits(k: Kernel, a: Action, k': Kernel, t: Tid)
    requires Inv(k) && Next(k, a, k') && Waiting(k, t)
    requires k'.current != t && a != DoMark(t)
    ensures Waiting(k', t)
  {
    assert ThreadOk(k.messages, k.threads[t]);
    match a
    case DoPut(m, msg) =>
    case DoPop =>
    case DoUnpool =>
    case DoTick(m, ticket, next) =>
      if Expires(k) {
        ConsoledKeeps(k, m);
        SelectSparesLosers(Consoled(Charge(k), m), ticket, next, k', t);
      }
    case DoYield(ticket, next) => SelectSparesLosers(k, ticket, next, k', t);
    case DoMark(v) =>
    case DoFlush => FlushRemoves(k, k');
    case DoCreate(u) =>
  }

  lemma WaitingHasTicket(k: Kernel, t: Tid)
    requires TicketInv(k) && Waiting(k, t)
    ensures exists m :: m in k.pool && m in k.messages && k.messages[m].destination == t
  {
    var p := if k.threads[t].queue != [] then Place(t, Mailbox) else Place(t, Bonus);
    var m := if k.threads[t].queue != [] then k.threads[t].queue[0] else k.threads[t].bonus.value;
    assert At(k.threads, m, p);
  }

  /** The clock takes the CPU from thread t at step i. */
  ghost predicate PreemptedAt(states: seq<Kernel>, actions: seq<Action>, i: nat, t: Tid) {
    && IsRun(states, actions) && i < |actions|
    && actions[i].DoTick? && states[i].current == t && t in states[i].threads
    && Expires(states[i])
    && t != states[i].nullThread && states[i].threads[t].enabled
  }

  lemma {:induction false} WaitsUntilNext(states: seq<Kernel>, actions: seq<Action>, i: nat, j: nat, t: Tid)
    requires PreemptedAt(states, actions, i, t) && i < j < |states|
    requires forall l :: i < l <= j ==> states[l].current != t
    requires forall l :: i < l < j ==> actions[l] != DoMark(t)
    ensures Waiting(states[j], t)
  {
    RunKeeps(states, actions, j - 1);
    assert Next(states[j - 1], actions[j - 1], states[j - 1 + 1]);
    if j == i + 1 {
      ExpiryWaits(states[i], actions[i].spare, actions[i].ticket, actions[i].next, states[j]);
    } else {
      WaitsUntilNext(states, actions, i, j - 1, t);
      StepWaits(states[j - 1], actions[j - 1], states[j], t);
    }
  }

  /**
   An enabled thread, other than the idle thread, that loses the CPU because
   its quantum ran out owns a ticket until it gets the CPU again or is deleted.
   */
  lemma PreemptedOwnsTicket(states: seq<Kernel>, actions: seq<Action>, i: nat, j: nat, t: Tid)
    requires PreemptedAt(states, actions, i, t) && i < j < |states|
    requires forall l :: i < l <= j ==> states[l].current != t
    requires forall l :: i < l < j ==> actions[l] != DoMark(t)
    ensures exists m :: m in states[j].pool && m in states[j].messages && states[j].messages[m].destination == t
  {
    WaitsUntilNext(states, actions, i, j, t);
    RunKeeps(states, actions, j);
    WaitingHasTicket(states[j], t);
  }

  // ----- Tickets and mailboxes -------------------------------------------

  /**
   In every reachable state the pool holds exactly the messages that are in a
   mailbox, in a bonus slot, or between the two halves of a retrieval or a
   flush; each is in one such place and in one pool slot, the one it has cached.
   */
  lemma PoolIsExact(states: seq<Kernel>, actions: seq<Action>, i: nat)
    requires IsRun(states, actions) && i < |states|
    ensures forall m :: m in states[i].pool <==> Held(states[i].threads, m)
    ensures OnePlace(states[i].threads)
    ensures forall t :: t in states[i].threads ==> NoDup(states[i].threads[t].queue)
    ensures NoDup(states[i].pool) && IndexOk(states[i])
    ensures forall m, p :: At(states[i].threads, m, p) ==>
              m in states[i].messages && states[i].messages[m].destination == Addressee(states[i].threads, p)
  {
    RunKeeps(states, actions, i);
    var k := states[i];
    forall t | t in k.threads ensures NoDup(k.threads[t].queue) {
      assert ThreadOk(k.messages, k.threads[t]);
    }
  }

  // ----- Replies ---------------------------------------------------------

  /**
   Whenever an enabled thread inside send_message is ready again, the message
   it will retrieve next is one from the thread it waited for, with the id it
   waited for, whatever else was queued and whatever it sent in between.
   */
  lemma RetrievesTheReply(states: seq<Kernel>, actions: seq<Action>, i: nat, t: Tid)
    requires IsRun(states, actions) && i < |states|
    requires t in states[i].threads && states[i].threads[t].enabled
    requires states[i].threads[t].state == Ready && InSend(states[i].threads[t])
    ensures states[i].threads[t].queue != []
    ensures Answers(states[i].messages, states[i].threads[t].queue[0], TopCall(states[i].threads[t]).value)
  {
    RunKeeps(states, actions, i);
    var k := states[i];
    var th := k.threads[t];
    assert ThreadOk(k.messages, th);
    assert Answered(th)[0] == th.calls[|th.calls| - 1];
    assert Answers(k.messages, th.queue[0], Answered(th)[0]);
  }

  /** A blocked thread is waiting for the innermost send it is inside of. */
  lemma BlockedOnInnermostSend(states: seq<Kernel>, actions: seq<Action>, i: nat, t: Tid)
    requires IsRun(states, actions) && i < |states|
    requires t in states[i].threads && states[i].threads[t].state == Blocked
    ensures states[i].threads[t].blockingThread.Some?
    ensures TopCall(states[i].threads[t]) ==
            Some(Send(states[i].threads[t].blockingThread.value, states[i].threads[t].blockingId))
  {
    RunKeeps(states, actions, i);
    assert ThreadOk(states[i].messages, states[i].threads[t]);
  }

  // ----- Deletion --------------------------------------------------------

  /** message_c's reply constructor: back to the sender, under the same id. */
  function Response(request: Message, kind: nat): Message {
    Message(request.destination, request.source, request.id, kind, false)
  }

  ghost function AfterPut(k: Kernel, m: Ref, msg: Message): Kernel
    requires msg.destination in k.threads && k.current in k.threads
  {
    if PutStatus(k, msg) == Success then Put(k, m, msg) else k
  }

  /** The last loop of delete_messages: answer every blocking leftover with an abort. */
  ghost predicate Aborts(k: Kernel, requests: seq<Message>, refs: seq<Ref>, k': Kernel)
    decreases |requests|
  {
    if requests == [] then refs == [] && k' == k
    else if !requests[0].blocking then Aborts(k, requests[1..], refs, k')
    else
      && refs != []
      && PutStep(k, refs[0], Response(requests[0], TYPE_ABORT), AfterAbort(k, refs[0], requests[0]))
      && Aborts(AfterAbort(k, refs[0], requests[0]), requests[1..], refs[1..], k')
  }

  ghost function AfterAbort(k: Kernel, m: Ref, request: Message): Kernel {
    var msg := Response(request, TYPE_ABORT);
    if msg.destination in k.threads && k.current in k.threads then AfterPut(k, m, msg) else k
  }

  function Contents(k: Kernel, ms: seq<Ref>): seq<Message>
    requires forall m :: m in ms ==> m in k.messages
  {
    seq(|ms|, i requires 0 <= i < |ms| => assert ms[i] in ms; k.messages[ms[i]])
  }

  lemma LeftoversKnown(k: Kernel, v: Tid)
    requires TicketInv(k) && v in k.threads
    ensures forall m :: m in Leftovers(k.threads[v]) ==>
              m in k.messages && k.messages[m].source in k.threads && k.messages[m].destination == v
  {
    forall m | m in Leftovers(k.threads[v])
      ensures m in k.messages && k.messages[m].source in k.threads && k.messages[m].destination == v
    {
      var p := if m in k.threads[v].queue then Place(v, Mailbox) else Place(v, Bonus);
      assert At(k.threads, m, p);
    }
  }

  /**
   The whole of delete_messages, run by the current thread against victim v:
   mark, flush the pool, abort.
   */
  ghost predicate Deletes(k: Kernel, v: Tid, k1: Kernel, k2: Kernel, refs: seq<Ref>, k': Kernel) {
    && MarkStep(k, v, k1)
    && FlushStep(k1, k2)
    && (forall m :: m in Leftovers(k.threads[v]) ==> m in k.messages)
    && Aborts(k2, Contents(k, Leftovers(k.threads[v])), refs, k')
  }
}
