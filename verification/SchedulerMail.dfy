/**
 What happens to a message: when a put is refused and with which status, where
 an accepted message goes, in which order messages are retrieved, and how the
 requests of a deleted thread are answered (src/kernel/thread_manager/
 thread.cpp, src/kernel/io_manager/io_manager.cpp).
 */
module SchedulerMail {
  import opened Options
  import opened SchedulerState
  import opened SchedulerChains
  import opened SchedulerTickets
  import opened SchedulerInvariant
  import opened SchedulerTheorems
  import opened SchedulerDeletion

  /** A thread that takes messages, waits for nobody, and has neither mail nor a bonus. */
  predicate IsIdle(t: Thread) {
    t.enabled && t.state == Ready && t.blockingThread == None && t.queue == [] && t.bonus == None && t.calls == []
  }

  /** A new thread changes nothing about the others, and takes messages from the start. */
  lemma CreatedIsIdle(k: Kernel, t: Tid, k': Kernel)
    requires Next(k, DoCreate(t), k')
    ensures t !in k.threads && t in k'.threads && IsIdle(k'.threads[t]) && k' == k.(threads := k.threads[t := k'.threads[t]])
  {
  }

  // ----- One put ---------------------------------------------------------

  /** The recipient is blocked on the sender of msg, under its id. */
  predicate IsAwaited(k: Kernel, msg: Message)
    requires msg.destination in k.threads
  {
    var d := k.threads[msg.destination];
    d.state == Blocked && d.blockingThread == Some(msg.source) && d.blockingId == msg.id
  }

  /** Each status has its cause, in this order. */
  lemma PutStatusIs(k: Kernel, msg: Message)
    requires msg.destination in k.threads
    ensures var d := k.threads[msg.destination];
            var loops := msg.blocking && EndsAt(k.threads, msg.destination, k.current);
            var full := !IsAwaited(k, msg) && |d.queue| >= 64;
            && (PutStatus(k, msg) == MailboxDisabled <==> !d.enabled)
            && (PutStatus(k, msg) == MessageDeadlock <==> d.enabled && loops)
            && (PutStatus(k, msg) == MailboxOverflow <==> d.enabled && !loops && full)
            && (PutStatus(k, msg) == Success <==> d.enabled && !loops && !full)
  {
  }

  /**
   A put is refused exactly if the mailbox is disabled, or the sender would wait
   for itself, or the mailbox is full and nobody waits for the message; it then
   changes nothing.  An awaited message wakes the recipient and is its next one;
   any other goes to the end of the mailbox.  The sender of a blocking message
   is blocked on the recipient.
   */
  lemma PutOutcome(k: Kernel, m: Ref, msg: Message, k': Kernel)
    requires Inv(k) && Next(k, DoPut(m, msg), k')
    ensures var d, c := k.threads[msg.destination], k.current;
            if !d.enabled || (msg.blocking && EndsAt(k.threads, msg.destination, c)) || (!IsAwaited(k, msg) && |d.queue| >= 64)
            then k' == k
            else
              && k'.current == c && k'.threads.Keys == k.threads.Keys && k'.messages == k.messages[m := msg]
              && (forall x :: x in k'.pool <==> x in k.pool || x == m)
              && k'.threads[msg.destination].queue == (if IsAwaited(k, msg) then [m] + d.queue else d.queue + [m])
              && (IsAwaited(k, msg) ==> k'.threads[msg.destination].state == Ready && k'.threads[msg.destination].blockingThread == None)
              && (msg.blocking ==>
                    && msg.destination != c && k'.threads[c].state == Blocked && k'.threads[c].queue == k.threads[c].queue
                    && k'.threads[c].blockingThread == Some(msg.destination) && k'.threads[c].blockingId == msg.id)
              && (forall t :: t in k.threads && t != msg.destination && (t != c || !msg.blocking) ==> k'.threads[t] == k.threads[t])
  {
    assert ThreadOk(k.messages, k.threads[k.current]);
    if msg.blocking && msg.destination == k.current { SelfEnd(k.threads, k.current); }
  }

  // ----- Order of retrieval ----------------------------------------------

  /** m1 is before m2 in the queue. */
  predicate Before(queue: seq<Ref>, m1: Ref, m2: Ref) {
    exists p, q :: 0 <= p < q < |queue| && queue[p] == m1 && queue[q] == m2
  }

  /** A message put at step i goes into the mailbox of d without being awaited there. */
  ghost predicate QueuedAt(states: seq<Kernel>, actions: seq<Action>, i: nat, d: Tid, m: Ref) {
    && IsRun(states, actions) && i < |actions| && actions[i].DoPut? && actions[i].m == m
    && actions[i].msg.destination == d && d in states[i].threads && !IsAwaited(states[i], actions[i].msg)
    && d in states[i + 1].threads && m !in states[i].threads[d].queue && m in states[i + 1].threads[d].queue
  }

  /** Thread d takes m out of its mailbox at step i. */
  ghost predicate RetrievedAt(states: seq<Kernel>, actions: seq<Action>, i: nat, d: Tid, m: Ref) {
    && IsRun(states, actions) && i < |actions| && actions[i] == DoPop && states[i].current == d
    && d in states[i].threads && m in states[i].threads[d].queue
    && d in states[i + 1].threads && m !in states[i + 1].threads[d].queue
  }

  /** What a step can do to a mailbox: add at one end, take the head, or, for the victim of a deletion, take all. */
  lemma StepQueue(k: Kernel, a: Action, k': Kernel, d: Tid)
    requires Inv(k) && Next(k, a, k') && d in k.threads && a != DoMark(d)
    ensures d in k'.threads
    ensures var q, q' := k.threads[d].queue, k'.threads[d].queue;
            || q' == q
            || (a.DoPut? && a.msg.destination == d && a.m !in q && (q' == q + [a.m] || q' == [a.m] + q))
            || (a == DoPop && k.current == d && q != [] && q' == q[1..])
  {
    match a
    case DoPut(m, msg) => FreshNotHeld(k, m);
    case DoTick(m, ticket, next) => TickSame(k, m, ticket, next, k', d);
    case DoYield(ticket, next) => SelectSame(k, ticket, next, k', d);
    case DoFlush => FlushRemoves(k, k');
    case _ =>
  }

  lemma BeforePush(queue: seq<Ref>, m: Ref, m1: Ref, m2: Ref)
    requires Before(queue, m1, m2)
    ensures Before(queue + [m], m1, m2) && Before([m] + queue, m1, m2)
  {
    var p, q :| 0 <= p < q < |queue| && queue[p] == m1 && queue[q] == m2;
    assert (queue + [m])[p] == m1 && (queue + [m])[q] == m2;
    assert ([m] + queue)[p + 1] == m1 && ([m] + queue)[q + 1] == m2;
  }

  lemma BeforePop(queue: seq<Ref>, m1: Ref, m2: Ref)
    requires NoDup(queue) && queue != [] && Before(queue, m1, m2)
    ensures queue[0] != m2 && (queue[0] == m1 <==> m1 !in queue[1..])
    ensures queue[0] != m1 ==> Before(queue[1..], m1, m2)
  {
    var p, q :| 0 <= p < q < |queue| && queue[p] == m1 && queue[q] == m2;
    if p > 0 { assert queue[1..][p - 1] == m1 && queue[1..][q - 1] == m2; }
  }

  /** Two messages keep their order until the first of them is retrieved. */
  lemma StepKeepsOrder(k: Kernel, a: Action, k': Kernel, d: Tid, m1: Ref, m2: Ref)
    requires Inv(k) && Next(k, a, k') && d in k.threads && a != DoMark(d) && Before(k.threads[d].queue, m1, m2)
    ensures d in k'.threads
    ensures if a == DoPop && k.current == d && m1 !in k'.threads[d].queue then m1 in k.threads[d].queue
            else Before(k'.threads[d].queue, m1, m2)
  {
    StepQueue(k, a, k', d);
    assert ThreadOk(k.messages, k.threads[d]);
    var q, q' := k.threads[d].queue, k'.threads[d].queue;
    if q' != q && a.DoPut? {
      BeforePush(q, a.m, m1, m2);
    } else if q' != q {
      BeforePop(q, m1, m2);
    }
  }

  /** The order of m1 and m2 holds from the put of m2 on, as long as m1 has not been retrieved. */
  lemma {:induction false} OrderKept(states: seq<Kernel>, actions: seq<Action>, i: nat, j: nat, l: nat, d: Tid, m1: Ref, m2: Ref)
    requires QueuedAt(states, actions, i, d, m1) && QueuedAt(states, actions, j, d, m2) && i < j < l < |states|
    requires forall x :: i < x < l ==> actions[x] != DoMark(d)
    requires forall x: nat :: i < x < l ==> !RetrievedAt(states, actions, x, d, m1)
    ensures d in states[l].threads && Before(states[l].threads[d].queue, m1, m2)
  {
    RunKeeps(states, actions, l - 1);
    assert Next(states[l - 1], actions[l - 1], states[l - 1 + 1]);
    if l == j + 1 {
      StaysQueued(states, actions, i, j, d, m1);
      var q := states[j].threads[d].queue;
      PutOutcome(states[j], m2, actions[j].msg, states[l]);
      var p :| 0 <= p < |q| && q[p] == m1;
      assert (q + [m2])[p] == m1 && (q + [m2])[|q|] == m2;
    } else {
      OrderKept(states, actions, i, j, l - 1, d, m1, m2);
      StepKeepsOrder(states[l - 1], actions[l - 1], states[l], d, m1, m2);
      assert !RetrievedAt(states, actions, l - 1, d, m1);
    }
  }

  lemma {:induction false} StaysQueued(states: seq<Kernel>, actions: seq<Action>, i: nat, j: nat, d: Tid, m: Ref)
    requires QueuedAt(states, actions, i, d, m) && i < j < |states|
    requires forall x :: i < x < j ==> actions[x] != DoMark(d)
    requires forall x: nat :: i < x < j ==> !RetrievedAt(states, actions, x, d, m)
    ensures d in states[j].threads && m in states[j].threads[d].queue
  {
    if j > i + 1 {
      StaysQueued(states, actions, i, j - 1, d, m);
      RunKeeps(states, actions, j - 1);
      assert Next(states[j - 1], actions[j - 1], states[j - 1 + 1]);
      StepQueue(states[j - 1], actions[j - 1], states[j], d);
      assert !RetrievedAt(states, actions, j - 1, d, m);
    }
  }

  /** The later of two messages is not retrieved. */
  lemma LaterStays(states: seq<Kernel>, actions: seq<Action>, l: nat, d: Tid, m1: Ref, m2: Ref)
    requires IsRun(states, actions) && l < |actions|
    requires d in states[l].threads && Before(states[l].threads[d].queue, m1, m2)
    ensures !RetrievedAt(states, actions, l, d, m2)
  {
    RunKeeps(states, actions, l);
    var k, k' := states[l], states[l + 1];
    assert Next(k, actions[l], states[l + 1]);
    assert ThreadOk(k.messages, k.threads[d]);
    if actions[l] == DoPop {
      StepQueue(k, actions[l], k', d);
      var q := k.threads[d].queue;
      BeforePop(q, m1, m2);
      var p :| 0 <= p < |q| && q[p] == m2;
      assert q[1..][p - 1] == m2;
    }
  }

  /**
   Messages that nobody was waiting for are retrieved in the order they were
   put: when the later one is retrieved, the earlier one has been.
   */
  lemma FirstInFirstOut(states: seq<Kernel>, actions: seq<Action>, i: nat, j: nat, l: nat, d: Tid, m1: Ref, m2: Ref)
    requires QueuedAt(states, actions, i, d, m1) && QueuedAt(states, actions, j, d, m2) && i < j < l
    requires RetrievedAt(states, actions, l, d, m2)
    requires forall x :: i < x < l ==> actions[x] != DoMark(d)
    ensures exists x: nat :: i < x < l && RetrievedAt(states, actions, x, d, m1)
  {
    if forall x: nat :: i < x < l ==> !RetrievedAt(states, actions, x, d, m1) {
      OrderKept(states, actions, i, j, l, d, m1, m2);
      LaterStays(states, actions, l, d, m1, m2);
    }
  }

  // ----- All requests of a deleted thread --------------------------------

  /** u is ready, and the next message it gets is the abort from v under this id. */
  predicate Woken(k: Kernel, u: Tid, v: Tid, id: nat) {
    && u in k.threads && k.threads[u].state == Ready && k.threads[u].blockingThread == None
    && k.threads[u].queue != [] && k.threads[u].queue[0] in k.messages
    && IsAbort(k.messages[k.threads[u].queue[0]], v, u, id)
  }

  /** The sender of the blocking request m, another thread than v that takes messages, waits for v to answer it. */
  predicate WaitsOnRequest(k: Kernel, v: Tid, m: Ref)
    requires m in k.messages
  {
    var q := k.messages[m];
    q.blocking && q.source != v && IsEnabled(k, q.source) && WaitsFor(k, q.source, v, q.id)
  }

  lemma AbortPut(k: Kernel, m: Ref, request: Message, u: Tid, v: Tid, id: nat)
    requires Inv(k) && PutStep(k, m, Response(request, TYPE_ABORT), AfterAbort(k, m, request)) && IsEnabled(k, u)
    ensures var k' := AfterAbort(k, m, request);
            && Inv(k') && IsEnabled(k', u)
            && (Woken(k, u, v, id) ==> Woken(k', u, v, id))
            && (WaitsFor(k, u, v, id) ==>
                  if request.source == u && request.destination == v && request.id == id then Woken(k', u, v, id)
                  else WaitsFor(k', u, v, id))
  {
    var msg, k' := Response(request, TYPE_ABORT), AfterAbort(k, m, request);
    StepKeeps(k, DoPut(m, msg), k');
    PutOutcome(k, m, msg, k');
    FreshNotHeld(k, m);
    assert ThreadOk(k.messages, k.threads[u]);
    assert k.threads[u].queue != [] ==> k.threads[u].queue[0] in k.threads[u].queue;
  }

  lemma {:induction false} AbortsKeepWoken(k: Kernel, requests: seq<Message>, refs: seq<Ref>, k': Kernel, u: Tid, v: Tid, id: nat)
    requires Inv(k) && Aborts(k, requests, refs, k') && IsEnabled(k, u) && Woken(k, u, v, id)
    ensures Woken(k', u, v, id)
    decreases |requests|
  {
    if requests != [] {
      if requests[0].blocking {
        AbortPut(k, refs[0], requests[0], u, v, id);
        AbortsKeepWoken(AfterAbort(k, refs[0], requests[0]), requests[1..], refs[1..], k', u, v, id);
      } else {
        AbortsKeepWoken(k, requests[1..], refs, k', u, v, id);
      }
    }
  }

  /** Every enabled sender that waits for one of the requests is woken with its abort. */
  lemma {:induction false} AbortsWakeAll(k: Kernel, requests: seq<Message>, refs: seq<Ref>, k': Kernel, q: Message)
    requires Inv(k) && Aborts(k, requests, refs, k') && q in requests && q.blocking
    requires WaitsFor(k, q.source, q.destination, q.id) && IsEnabled(k, q.source)
    ensures Woken(k', q.source, q.destination, q.id)
    decreases |requests|
  {
    var u, v, id := q.source, q.destination, q.id;
    if requests[0].blocking {
      AbortPut(k, refs[0], requests[0], u, v, id);
      var k1 := AfterAbort(k, refs[0], requests[0]);
      if Woken(k1, u, v, id) {
        AbortsKeepWoken(k1, requests[1..], refs[1..], k', u, v, id);
      } else {
        assert q in requests[1..];
        AbortsWakeAll(k1, requests[1..], refs[1..], k', q);
      }
    } else {
      assert q in requests[1..];
      AbortsWakeAll(k, requests[1..], refs, k', q);
    }
  }

  /**
   delete_messages: every enabled thread that waits for a reply to a request in
   the mailbox of v is ready afterwards, and the next message it gets says that
   v is gone.
   */
  lemma DeletesWakeAll(k: Kernel, v: Tid, k1: Kernel, k2: Kernel, refs: seq<Ref>, k': Kernel, m: Ref)
    requires Inv(k) && Deletes(k, v, k1, k2, refs, k') && m in k.threads[v].queue && m in k.messages && WaitsOnRequest(k, v, m)
    ensures Woken(k', k.messages[m].source, v, k.messages[m].id)
  {
    var q, left := k.messages[m], Leftovers(k.threads[v]);
    LeftoversKnown(k, v);
    assert m in left;
    MarkKeeps(k, k1, v);
    FlushKeeps(k1, k2);
    FlushRemoves(k1, k2);
    var i :| 0 <= i < |left| && left[i] == m;
    assert Contents(k, left)[i] == q;
    AbortsWakeAll(k2, Contents(k, left), refs, k', q);
  }
}
