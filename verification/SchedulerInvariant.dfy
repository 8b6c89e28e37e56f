/**
 The invariant of the messaging and scheduling state, kept by every step.
 */
module SchedulerInvariant {
  import opened Options
  import opened SchedulerState
  import opened SchedulerChains
  import opened SchedulerTickets

  // ----- One thread ------------------------------------------------------

  /** A thread is blocked exactly when it points at the thread it waits for. */
  ghost predicate StateOk(t: Thread) {
    && (t.state == Blocked <==> t.blockingThread.Some?)
    && (t.state == Blocked ==> TopCall(t) == Some(Send(t.blockingThread.value, t.blockingId)))
    && (!t.enabled ==> t.queue == [] && t.bonus == None)
  }

  ghost predicate OnceOk(t: Thread) {
    && NoDup(t.queue)
    && forall c :: c in t.calls && c.Flush? ==> NoDup(c.msgs)
  }

  /** The sends in a call stack, innermost first. */
  function Sends(calls: seq<Call>): seq<Call> {
    if calls == [] then []
    else
      var n := |calls| - 1;
      (if calls[n].Send? then [calls[n]] else []) + Sends(calls[..n])
  }

  /** The sends of t whose reply has arrived and is not retrieved yet. */
  function Answered(t: Thread): seq<Call> {
    if t.state == Blocked && t.calls != [] then Sends(t.calls[..|t.calls| - 1]) else Sends(t.calls)
  }

  predicate Answers(messages: map<Ref, Message>, m: Ref, c: Call) {
    c.Send? && m in messages && messages[m].source == c.recipient && messages[m].id == c.id
  }

  ghost predicate AnsweredBy(messages: map<Ref, Message>, queue: seq<Ref>, sends: seq<Call>) {
    && |sends| <= |queue|
    && forall i :: 0 <= i < |sends| ==> Answers(messages, queue[i], sends[i])
  }

  /** The replies an enabled thread has not retrieved yet lead its mailbox, innermost first. */
  ghost predicate RepliesLead(messages: map<Ref, Message>, t: Thread) {
    t.enabled ==> AnsweredBy(messages, t.queue, Answered(t))
  }

  ghost predicate ThreadOk(messages: map<Ref, Message>, t: Thread) {
    StateOk(t) && OnceOk(t) && RepliesLead(messages, t)
  }

  predicate Flushes(t: Thread, v: Tid) {
    exists c :: c in t.calls && c.Flush? && c.victim == v
  }

  // ----- The invariant ---------------------------------------------------

  ghost predicate ThreadsOk(k: Kernel) {
    forall t {:trigger ThreadOk(k.messages, k.threads[t])} :: t in k.threads ==> ThreadOk(k.messages, k.threads[t])
  }

  /** Only disabled threads are flushed. */
  ghost predicate FlushedDisabled(threads: map<Tid, Thread>) {
    forall t, v {:trigger Flushes(threads[t], v)} :: t in threads && Flushes(threads[t], v) ==> v in threads && !threads[v].enabled
  }

  ghost predicate Anchored(k: Kernel) {
    k.current in k.threads && k.nullThread in k.threads
  }

  ghost predicate ThreadInv(k: Kernel) {
    Anchored(k) && ThreadsOk(k) && AllChains(k.threads) && FlushedDisabled(k.threads)
  }

  ghost predicate Inv(k: Kernel) {
    ThreadInv(k) && TicketInv(k)
  }

  // ----- What a step does to one thread ----------------------------------

  lemma SendsPush(calls: seq<Call>, c: Call)
    ensures Sends(calls + [c]) == (if c.Send? then [c] else []) + Sends(calls)
  {
    assert (calls + [c])[..|calls|] == calls;
  }

  lemma {:induction false} SendsAreSends(calls: seq<Call>)
    ensures forall c :: c in Sends(calls) ==> c.Send? && c in calls
  {
    if calls != [] {
      SendsAreSends(calls[..|calls| - 1]);
    }
  }

  /** A message outside the mailbox of t may be created or reused freely. */
  lemma ThreadFrame(messages: map<Ref, Message>, m: Ref, msg: Message, t: Thread)
    requires ThreadOk(messages, t) && m !in t.queue
    ensures ThreadOk(messages[m := msg], t)
  {
  }

  lemma EnqueuedOk(messages: map<Ref, Message>, d: Thread, m: Ref, msg: Message)
    requires ThreadOk(messages, d) && d.enabled && m !in d.queue
    ensures ThreadOk(messages[m := msg], Enqueued(d, m, msg))
  {
    var d' := Enqueued(d, m, msg);
    var messages' := messages[m := msg];
    assert AnsweredBy(messages', d.queue, Answered(d));
    if Wakes(d, msg) {
      assert Answered(d') == [Send(msg.source, msg.id)] + Answered(d);
      PushAnswer(messages', m, Send(msg.source, msg.id), d.queue, Answered(d));
    }
  }

  lemma PushAnswer(messages: map<Ref, Message>, m: Ref, c: Call, queue: seq<Ref>, sends: seq<Call>)
    requires AnsweredBy(messages, queue, sends) && Answers(messages, m, c)
    ensures AnsweredBy(messages, [m] + queue, [c] + sends)
  {
  }

  lemma BlockedOnOk(messages: map<Ref, Message>, t: Thread, msg: Message)
    requires ThreadOk(messages, t) && t.state == Ready
    ensures ThreadOk(messages, BlockedOn(t, msg))
  {
    var t' := BlockedOn(t, msg);
    assert t'.calls[..|t'.calls| - 1] == t.calls;
  }

  lemma PoppedOk(messages: map<Ref, Message>, t: Thread)
    requires ThreadOk(messages, t) && t.state == Ready && (InSend(t) || NoSends(t))
    ensures ThreadOk(messages, Popped(t))
  {
    var rest := if InSend(t) then t.calls[..|t.calls| - 1] else t.calls;
    SendsAreSends(t.calls);
    if t.queue == [] {
      assert Popped(t).calls == rest;
    } else {
      SendsPush(rest, Retrieve(t.queue[0]));
    }
    assert Sends(Popped(t).calls) == Sends(rest);
    if InSend(t) {
      assert Sends(t.calls) == [t.calls[|t.calls| - 1]] + Sends(rest);
      if t.enabled { PopAnswer(messages, t.queue, t.calls[|t.calls| - 1], Sends(rest)); }
    } else if Sends(rest) != [] {
      assert Sends(rest)[0] in Sends(rest);
    }
  }

  lemma PopAnswer(messages: map<Ref, Message>, queue: seq<Ref>, c: Call, sends: seq<Call>)
    requires AnsweredBy(messages, queue, [c] + sends)
    ensures queue != [] && AnsweredBy(messages, queue[1..], sends)
  {
    var all := [c] + sends;
    forall i | 0 <= i < |sends| ensures Answers(messages, queue[1..][i], sends[i]) {
      assert Answers(messages, queue[i + 1], all[i + 1]);
    }
  }

  lemma DropCallOk(messages: map<Ref, Message>, t: Thread)
    requires ThreadOk(messages, t) && t.state == Ready && t.calls != [] && !InSend(t)
    ensures ThreadOk(messages, DropCall(t))
  {
    var t' := DropCall(t);
    assert t.calls == t'.calls + [t.calls[|t.calls| - 1]];
    assert Sends(t'.calls) == Sends(t.calls);
    assert forall i :: 0 <= i < |t'.calls| ==> t'.calls[i] == t.calls[i];
  }

  lemma FlushCallOk(messages: map<Ref, Message>, t: Thread, v: Tid, ms: seq<Ref>)
    requires ThreadOk(messages, t) && t.state == Ready && NoDup(ms)
    ensures ThreadOk(messages, t.(calls := t.calls + [Flush(v, ms)]))
  {
    SendsPush(t.calls, Flush(v, ms));
  }

  // ----- Put -------------------------------------------------------------

  lemma FreshNotHeld(k: Kernel, m: Ref)
    requires PoolMatches(k) && m !in k.pool
    ensures forall p :: !At(k.threads, m, p)
    ensures forall t :: t in k.threads ==> m !in k.threads[t].queue
  {
    assert !Held(k.threads, m);
    forall t | t in k.threads ensures m !in k.threads[t].queue {
      assert !At(k.threads, m, Place(t, Mailbox));
    }
  }

  lemma PutThreadsOk(k: Kernel, m: Ref, msg: Message)
    requires Anchored(k) && ThreadsOk(k) && PoolMatches(k) && m !in k.pool
    requires k.threads[k.current].state == Ready
    requires msg.destination in k.threads && k.threads[msg.destination].enabled
    requires msg.blocking ==> msg.destination != k.current
    ensures ThreadsOk(Put(k, m, msg))
  {
    var c, d := k.current, msg.destination;
    var k' := Put(k, m, msg);
    FreshNotHeld(k, m);
    forall t | t in k'.threads ensures ThreadOk(k'.messages, k'.threads[t]) {
      ThreadFrame(k.messages, m, msg, k.threads[t]);
      if t == d {
        EnqueuedOk(k.messages, k.threads[d], m, msg);
      } else if t == c {
        BlockedOnOk(k'.messages, k.threads[c], msg);
      }
    }
  }

  lemma PutChains(k: Kernel, m: Ref, msg: Message)
    requires Anchored(k) && AllChains(k.threads)
    requires StateOk(k.threads[k.current]) && k.threads[k.current].state == Ready
    requires msg.destination in k.threads
    requires !CausesLoop(k, msg)
    ensures AllChains(Put(k, m, msg).threads)
  {
    var c, d := k.current, msg.destination;
    var t1 := Enqueue(k, m, msg).threads;
    EnqueueChains(k, m, msg);
    if msg.blocking {
      if EndsAt(t1, d, c) {
        EnqueueEnds(k, m, msg);
      }
      AddLink(t1, Put(k, m, msg).threads, c, d);
    }
  }

  lemma EnqueueChains(k: Kernel, m: Ref, msg: Message)
    requires AllChains(k.threads) && msg.destination in k.threads
    ensures AllChains(Enqueue(k, m, msg).threads)
  {
    var t0, t1 := k.threads, Enqueue(k, m, msg).threads;
    if Wakes(t0[msg.destination], msg) {
      CutLink(t0, t1, msg.destination);
    } else {
      SameLinksKeepChains(t0, t1);
    }
  }

  /** Delivering the message does not bring the recipient's chain to the sender. */
  lemma EnqueueEnds(k: Kernel, m: Ref, msg: Message)
    requires Anchored(k) && msg.destination in k.threads
    requires k.threads[k.current].blockingThread == None
    requires EndsAt(Enqueue(k, m, msg).threads, msg.destination, k.current)
    ensures EndsAt(k.threads, msg.destination, k.current)
  {
    var c, d := k.current, msg.destination;
    var t0, t1 := k.threads, Enqueue(k, m, msg).threads;
    if Wakes(t0[d], msg) {
      SelfEnd(t1, d);
      EndsAtUnique(t1, d, c, d);
    } else {
      SameLinksSameEnds(t1, t0, d, c);
    }
  }

  lemma PutFlushed(k: Kernel, m: Ref, msg: Message)
    requires Anchored(k) && FlushedDisabled(k.threads) && msg.destination in k.threads
    ensures FlushedDisabled(Put(k, m, msg).threads)
  {
    var threads' := Put(k, m, msg).threads;
    forall t, v | t in threads' && Flushes(threads'[t], v) ensures v in threads' && !threads'[v].enabled {
      var c :| c in threads'[t].calls && c.Flush? && c.victim == v;
      assert c in k.threads[t].calls;
      assert Flushes(k.threads[t], v);
    }
  }

  lemma PutPlaces(k: Kernel, m: Ref, msg: Message)
    requires Anchored(k) && msg.destination in k.threads
    ensures forall x, p :: At(Put(k, m, msg).threads, x, p) <==>
              At(k.threads, x, p) || (x == m && p == Place(msg.destination, Mailbox))
    ensures forall x, p :: At(k.threads, x, p) ==> Addressee(Put(k, m, msg).threads, p) == Addressee(k.threads, p)
  {
  }

  lemma PutTickets(k: Kernel, m: Ref, msg: Message)
    requires Anchored(k) && TicketInv(k) && m !in k.pool
    requires msg.source in k.threads && msg.destination in k.threads
    ensures TicketInv(Put(k, m, msg))
  {
    FreshNotHeld(k, m);
    PutPlaces(k, m, msg);
    OneMore(k, Put(k, m, msg), m, Place(msg.destination, Mailbox));
  }

  lemma PutThreads(k: Kernel, m: Ref, msg: Message)
    requires ThreadInv(k) && PoolMatches(k) && m !in k.pool
    requires k.threads[k.current].state == Ready
    requires msg.destination in k.threads && PutStatus(k, msg) == Success
    ensures ThreadInv(Put(k, m, msg))
  {
    assert ThreadOk(k.messages, k.threads[k.current]);
    if msg.blocking && msg.destination == k.current {
      SelfEnd(k.threads, k.current);
    }
    PutThreadsOk(k, m, msg);
    PutChains(k, m, msg);
    PutFlushed(k, m, msg);
  }

  lemma PutKeeps(k: Kernel, m: Ref, msg: Message)
    requires Inv(k) && k.threads[k.current].state == Ready
    requires msg.source in k.threads && msg.destination in k.threads && PutStatus(k, msg) == Success
    requires m !in k.pool
    ensures Inv(Put(k, m, msg))
  {
    PutThreads(k, m, msg);
    PutTickets(k, m, msg);
  }

  // ----- Steps that change one thread and no link ------------------------

  /** Only thread c changes, and not its link. */
  ghost predicate Replaces(k: Kernel, k': Kernel, c: Tid, t': Thread) {
    && c in k.threads
    && k'.threads == k.threads[c := t']
    && t'.blockingThread == k.threads[c].blockingThread
    && (!k.threads[c].enabled ==> !t'.enabled)
  }

  lemma ReplacesChains(k: Kernel, k': Kernel, c: Tid, t': Thread)
    requires AllChains(k.threads) && Replaces(k, k', c, t')
    ensures AllChains(k'.threads)
  {
    SameLinksKeepChains(k.threads, k'.threads);
  }

  lemma ReplacesFlushed(k: Kernel, k': Kernel, c: Tid, t': Thread)
    requires FlushedDisabled(k.threads) && Replaces(k, k', c, t')
    requires forall x :: x in t'.calls && x.Flush? ==> x in k.threads[c].calls
    ensures FlushedDisabled(k'.threads)
  {
    forall t, v | t in k'.threads && Flushes(k'.threads[t], v) ensures v in k'.threads && !k'.threads[v].enabled {
      var x :| x in k'.threads[t].calls && x.Flush? && x.victim == v;
      assert x in k.threads[t].calls;
      assert Flushes(k.threads[t], v);
    }
  }

  lemma ReplacesThreadsOk(k: Kernel, k': Kernel, c: Tid, t': Thread)
    requires ThreadsOk(k) && Replaces(k, k', c, t') && k'.messages == k.messages
    requires ThreadOk(k.messages, t')
    ensures ThreadsOk(k')
  {
  }

  lemma ReplacesKeeps(k: Kernel, k': Kernel, c: Tid, t': Thread)
    requires ThreadInv(k) && Replaces(k, k', c, t') && k'.messages == k.messages
    requires k'.current in k.threads && k'.nullThread == k.nullThread
    requires ThreadOk(k.messages, t')
    requires forall x :: x in t'.calls && x.Flush? ==> x in k.threads[c].calls
    ensures ThreadInv(k')
  {
    ReplacesThreadsOk(k, k', c, t');
    ReplacesChains(k, k', c, t');
    ReplacesFlushed(k, k', c, t');
  }

  // ----- Retrieve --------------------------------------------------------

  lemma PopPlaces(k: Kernel, k': Kernel)
    requires PopStep(k, k')
    ensures k.threads[k.current].queue == [] ==> forall x, p :: At(k'.threads, x, p) <==> At(k.threads, x, p)
    ensures forall x, p :: At(k'.threads, x, p) && At(k.threads, x, p) ==> Addressee(k'.threads, p) == Addressee(k.threads, p)
  {
  }

  lemma PopMoves(k: Kernel, k': Kernel, m: Ref, n: nat)
    requires PopStep(k, k') && k.threads[k.current].queue != [] && m == k.threads[k.current].queue[0]
    requires n == if InSend(k.threads[k.current]) then |k.threads[k.current].calls| - 1 else |k.threads[k.current].calls|
    requires NoDup(k.threads[k.current].queue)
    requires forall p :: At(k.threads, m, p) ==> p == Place(k.current, Mailbox)
    ensures forall x, p :: At(k'.threads, x, p) <==> if x == m then p == Place(k.current, CallAt(n)) else At(k.threads, x, p)
    ensures Addressee(k'.threads, Place(k.current, CallAt(n))) == k.current
  {
    var c := k.current;
    var t0, t1 := k.threads[c], k'.threads[c];
    assert t1.calls[n] == Retrieve(m);
    assert t1.queue == t0.queue[1..];
    assert forall x :: x in t0.queue <==> x == m || x in t1.queue;
    assert m !in t1.queue;
    forall x, slot ensures HoldsIn(t1, x, slot) <==> if x == m then slot == CallAt(n) else HoldsIn(t0, x, slot) {
      if x == m && HoldsIn(t0, x, slot) { assert At(k.threads, m, Place(c, slot)); }
      if slot.CallAt? && slot.i < n { assert t1.calls[slot.i] == t0.calls[slot.i]; }
    }
    forall x, p ensures At(k'.threads, x, p) <==> if x == m then p == Place(c, CallAt(n)) else At(k.threads, x, p) {
      if p.t == c {
        assert p == Place(c, p.slot);
        assert HoldsIn(t1, x, p.slot) <==> if x == m then p.slot == CallAt(n) else HoldsIn(t0, x, p.slot);
      } else if At(k'.threads, x, p) {
        assert At(k.threads, x, p);
      }
    }
  }

  lemma PopTickets(k: Kernel, k': Kernel)
    requires TicketInv(k) && PopStep(k, k') && NoDup(k.threads[k.current].queue)
    ensures TicketInv(k')
  {
    var c := k.current;
    var t0 := k.threads[c];
    PopPlaces(k, k');
    if t0.queue == [] {
      SamePlaces(k, k');
    } else {
      var m := t0.queue[0];
      var n := if InSend(t0) then |t0.calls| - 1 else |t0.calls|;
      assert At(k.threads, m, Place(c, Mailbox));
      PopMoves(k, k', m, n);
      var ms := [m];
      assert forall x :: x in ms <==> x == m;
      Relocated(k, k', ms, Place(c, CallAt(n)));
    }
  }

  lemma PopThreads(k: Kernel, k': Kernel)
    requires ThreadInv(k) && PopStep(k, k')
    ensures ThreadInv(k')
  {
    var c := k.current;
    assert ThreadOk(k.messages, k.threads[c]);
    PoppedOk(k.messages, k.threads[c]);
    ReplacesKeeps(k, k', c, Popped(k.threads[c]));
  }

  lemma PopKeeps(k: Kernel, k': Kernel)
    requires Inv(k) && PopStep(k, k')
    ensures Inv(k')
  {
    assert ThreadOk(k.messages, k.threads[k.current]);
    PopThreads(k, k');
    PopTickets(k, k');
  }

  // ----- Dropping the top call -------------------------------------------

  /** The top call of the running thread ends, and the messages it held leave the pool. */
  ghost predicate EndsTopCall(k: Kernel, k': Kernel, ms: seq<Ref>) {
    && k.current in k.threads && k.threads[k.current].state == Ready
    && k.threads[k.current].calls != [] && !InSend(k.threads[k.current])
    && k' == DropTop(k).(pool := k'.pool, index := k'.index)
    && (forall x :: x in ms <==> CallHolds(TopCall(k.threads[k.current]).value, x))
    && IndexOk(k')
    && (forall x :: x in k'.pool <==> x in k.pool && x !in ms)
  }

  lemma EndsTopCallPlaces(k: Kernel, k': Kernel, ms: seq<Ref>)
    requires OnePlace(k.threads) && EndsTopCall(k, k', ms)
    ensures forall x, p :: At(k'.threads, x, p) <==> At(k.threads, x, p) && x !in ms
    ensures forall x, p :: At(k'.threads, x, p) ==> Addressee(k'.threads, p) == Addressee(k.threads, p)
  {
    var c := k.current;
    var n := |k.threads[c].calls| - 1;
    var t0, t1 := k.threads[c], k'.threads[c];
    forall x, p ensures At(k'.threads, x, p) <==> At(k.threads, x, p) && x !in ms {
      if x in ms {
        assert At(k.threads, x, Place(c, CallAt(n)));
        if At(k'.threads, x, p) { assert At(k.threads, x, p); }
      }
      if p.t == c && p.slot.CallAt? && p.slot.i < n { assert t1.calls[p.slot.i] == t0.calls[p.slot.i]; }
    }
  }

  lemma EndsTopCallThreads(k: Kernel, k': Kernel, ms: seq<Ref>)
    requires ThreadInv(k) && EndsTopCall(k, k', ms)
    ensures ThreadInv(k')
  {
    var c := k.current;
    assert ThreadOk(k.messages, k.threads[c]);
    DropCallOk(k.messages, k.threads[c]);
    ReplacesKeeps(k, k', c, DropCall(k.threads[c]));
  }

  lemma EndsTopCallTickets(k: Kernel, k': Kernel, ms: seq<Ref>)
    requires TicketInv(k) && EndsTopCall(k, k', ms)
    ensures TicketInv(k')
  {
    EndsTopCallPlaces(k, k', ms);
    Fewer(k, k', ms);
  }

  lemma EndsTopCallKeeps(k: Kernel, k': Kernel, ms: seq<Ref>)
    requires Inv(k) && EndsTopCall(k, k', ms)
    ensures Inv(k')
  {
    EndsTopCallThreads(k, k', ms);
    EndsTopCallTickets(k, k', ms);
  }

  lemma TopCallInPool(k: Kernel, m: Ref)
    requires PoolMatches(k) && k.current in k.threads && TopCall(k.threads[k.current]).Some?
    requires CallHolds(TopCall(k.threads[k.current]).value, m)
    ensures m in k.pool
  {
    assert At(k.threads, m, Place(k.current, CallAt(|k.threads[k.current].calls| - 1)));
  }

  lemma UnpoolKeeps(k: Kernel, k': Kernel)
    requires Inv(k) && UnpoolStep(k, k')
    ensures Inv(k')
  {
    var m := TopCall(k.threads[k.current]).value.msg;
    TopCallInPool(k, m);
    PoolRemoveFacts(k, m);
    var ms := [m];
    assert forall x :: x in ms <==> x == m;
    EndsTopCallKeeps(k, k', ms);
  }

  lemma FlushRemoves(k: Kernel, k': Kernel)
    requires TicketInv(k) && ThreadsOk(k) && FlushStep(k, k')
    ensures EndsTopCall(k, k', TopCall(k.threads[k.current]).value.msgs)
  {
    var top := TopCall(k.threads[k.current]).value;
    forall x | x in top.msgs ensures x in k.pool {
      TopCallInPool(k, x);
    }
    assert ThreadOk(k.messages, k.threads[k.current]);
    var k1 := RemoveAllFacts(DropTop(k), top.msgs);
    RemovesAllUnique(DropTop(k), top.msgs, k1, k');
  }

  lemma FlushKeeps(k: Kernel, k': Kernel)
    requires Inv(k) && FlushStep(k, k')
    ensures Inv(k')
  {
    FlushRemoves(k, k');
    EndsTopCallKeeps(k, k', TopCall(k.threads[k.current]).value.msgs);
  }

  // ----- Mark ------------------------------------------------------------

  lemma LeftoversOnce(k: Kernel, v: Tid)
    requires OnePlace(k.threads) && v in k.threads && NoDup(k.threads[v].queue)
    ensures NoDup(Leftovers(k.threads[v]))
    ensures forall x :: x in Leftovers(k.threads[v]) <==>
              At(k.threads, x, Place(v, Mailbox)) || At(k.threads, x, Place(v, Bonus))
  {
    var t := k.threads[v];
    if t.bonus.Some? {
      assert At(k.threads, t.bonus.value, Place(v, Bonus));
      assert !At(k.threads, t.bonus.value, Place(v, Mailbox));
    }
  }

  lemma MarkPlaces(k: Kernel, k': Kernel, v: Tid)
    requires OnePlace(k.threads) && MarkStep(k, v, k') && NoDup(k.threads[v].queue)
    ensures forall x, p :: At(k'.threads, x, p) <==>
              if x in Leftovers(k.threads[v]) then p == Place(k.current, CallAt(|k.threads[k.current].calls|))
              else At(k.threads, x, p)
    ensures Addressee(k'.threads, Place(k.current, CallAt(|k.threads[k.current].calls|))) == v
    ensures forall x, p :: At(k'.threads, x, p) && x !in Leftovers(k.threads[v]) ==>
              Addressee(k'.threads, p) == Addressee(k.threads, p)
  {
    var c, left := k.current, Leftovers(k.threads[v]);
    var n := |k.threads[c].calls|;
    LeftoversOnce(k, v);
    assert k'.threads[c].calls[n] == Flush(v, left);
    forall x, p ensures At(k'.threads, x, p) <==> if x in left then p == Place(c, CallAt(n)) else At(k.threads, x, p) {
      if x in left && At(k.threads, x, p) {
        assert p == Place(v, Mailbox) || p == Place(v, Bonus);
      }
    }
  }

  lemma MarkTickets(k: Kernel, k': Kernel, v: Tid)
    requires TicketInv(k) && MarkStep(k, v, k') && NoDup(k.threads[v].queue)
    ensures TicketInv(k')
  {
    LeftoversOnce(k, v);
    MarkPlaces(k, k', v);
    var left := Leftovers(k.threads[v]);
    forall x | x in left ensures Held(k.threads, x) && x in k.messages && k.messages[x].destination == v {
      var p := if x in k.threads[v].queue then Place(v, Mailbox) else Place(v, Bonus);
      assert At(k.threads, x, p);
    }
    Relocated(k, k', left, Place(k.current, CallAt(|k.threads[k.current].calls|)));
  }

  lemma MarkFlushed(k: Kernel, k': Kernel, v: Tid)
    requires FlushedDisabled(k.threads) && MarkStep(k, v, k')
    ensures FlushedDisabled(k'.threads)
  {
    forall t, u | t in k'.threads && Flushes(k'.threads[t], u) ensures u in k'.threads && !k'.threads[u].enabled {
      var x :| x in k'.threads[t].calls && x.Flush? && x.victim == u;
      if x in k.threads[t].calls {
        assert Flushes(k.threads[t], u);
      }
    }
  }

  lemma MarkThreads(k: Kernel, k': Kernel, v: Tid)
    requires ThreadInv(k) && MarkStep(k, v, k') && NoDup(Leftovers(k.threads[v]))
    ensures ThreadInv(k')
  {
    var c := k.current;
    assert ThreadOk(k.messages, k.threads[c]) && ThreadOk(k.messages, k.threads[v]);
    FlushCallOk(k.messages, k.threads[c], v, Leftovers(k.threads[v]));
    assert ThreadOk(k.messages, k'.threads[v]);
    SameLinksKeepChains(k.threads, k'.threads);
    MarkFlushed(k, k', v);
  }

  lemma MarkKeeps(k: Kernel, k': Kernel, v: Tid)
    requires Inv(k) && MarkStep(k, v, k')
    ensures Inv(k')
  {
    assert ThreadOk(k.messages, k.threads[v]);
    LeftoversOnce(k, v);
    MarkThreads(k, k', v);
    MarkTickets(k, k', v);
  }

  // ----- Clock ticks and selection ---------------------------------------

  /** Only the tick count of t changes; the CPU may pass to another thread. */
  ghost predicate OnlyTicks(k: Kernel, k': Kernel, t: Tid) {
    && t in k.threads && t in k'.threads && k'.current in k.threads
    && k' == k.(threads := k.threads[t := k.threads[t].(ticks := k'.threads[t].ticks)], current := k'.current)
  }

  lemma TicksThreads(k: Kernel, k': Kernel, t: Tid)
    requires ThreadInv(k) && OnlyTicks(k, k', t)
    ensures ThreadInv(k')
  {
    assert ThreadOk(k.messages, k.threads[t]);
    assert ThreadOk(k.messages, k'.threads[t]);
    ReplacesKeeps(k, k', t, k'.threads[t]);
  }

  lemma TicksTickets(k: Kernel, k': Kernel, t: Tid)
    requires TicketInv(k) && OnlyTicks(k, k', t)
    ensures TicketInv(k')
  {
    SamePlaces(k, k');
  }

  lemma TicksKeep(k: Kernel, k': Kernel, t: Tid)
    requires Inv(k) && OnlyTicks(k, k', t)
    ensures Inv(k')
  {
    TicksThreads(k, k', t);
    TicksTickets(k, k', t);
  }

  lemma GiveBonusPlaces(k: Kernel, m: Ref)
    requires Anchored(k) && NeedsBonus(k)
    ensures forall x, p :: At(GiveBonus(k, m).threads, x, p) <==>
              At(k.threads, x, p) || (x == m && p == Place(k.current, Bonus))
    ensures forall x, p :: At(k.threads, x, p) ==> Addressee(GiveBonus(k, m).threads, p) == Addressee(k.threads, p)
  {
  }

  lemma GiveBonusThreads(k: Kernel, m: Ref)
    requires ThreadInv(k) && NeedsBonus(k) && forall t :: t in k.threads ==> m !in k.threads[t].queue
    ensures ThreadInv(GiveBonus(k, m))
  {
    var k' := GiveBonus(k, m);
    var c := k.current;
    forall t | t in k.threads ensures ThreadOk(k'.messages, k'.threads[t]) {
      ThreadFrame(k.messages, m, k'.messages[m], k.threads[t]);
    }
    ReplacesChains(k, k', c, k'.threads[c]);
    ReplacesFlushed(k, k', c, k'.threads[c]);
  }

  lemma GiveBonusTickets(k: Kernel, m: Ref)
    requires Anchored(k) && TicketInv(k) && NeedsBonus(k) && m !in k.pool
    ensures TicketInv(GiveBonus(k, m))
  {
    FreshNotHeld(k, m);
    GiveBonusPlaces(k, m);
    OneMore(k, GiveBonus(k, m), m, Place(k.current, Bonus));
  }

  lemma GiveBonusKeeps(k: Kernel, m: Ref)
    requires Inv(k) && NeedsBonus(k) && m !in k.pool
    ensures Inv(GiveBonus(k, m))
  {
    FreshNotHeld(k, m);
    GiveBonusThreads(k, m);
    GiveBonusTickets(k, m);
  }

  lemma BonusIndexed(k: Kernel, w: Tid)
    requires TicketInv(k) && w in k.threads
    ensures HasBonusIndexed(k, w)
    ensures k.threads[w].bonus.Some? ==> k.threads[w].bonus.value in k.pool
  {
    if k.threads[w].bonus.Some? {
      assert At(k.threads, k.threads[w].bonus.value, Place(w, Bonus));
      InPoolIndexed(k, k.threads[w].bonus.value);
    }
  }

  lemma DropBonusPlaces(k: Kernel, w: Tid)
    requires OnePlace(k.threads) && HasBonusIndexed(k, w) && k.threads[w].bonus.Some?
    ensures forall x, p :: At(DropBonus(k, w).threads, x, p) <==> At(k.threads, x, p) && x != k.threads[w].bonus.value
    ensures forall x, p :: At(k.threads, x, p) ==> Addressee(DropBonus(k, w).threads, p) == Addressee(k.threads, p)
  {
    var b, threads' := k.threads[w].bonus.value, DropBonus(k, w).threads;
    assert At(k.threads, b, Place(w, Bonus));
    forall x, p ensures At(threads', x, p) <==> At(k.threads, x, p) && x != b {
      if x == b && At(k.threads, x, p) { assert p == Place(w, Bonus); }
      if p.t == w && p.slot == Bonus { assert p == Place(w, Bonus); }
    }
  }

  lemma DropBonusThreads(k: Kernel, w: Tid)
    requires ThreadInv(k) && HasBonusIndexed(k, w)
    ensures ThreadInv(DropBonus(k, w))
  {
    if k.threads[w].bonus.Some? {
      var k' := DropBonus(k, w);
      assert ThreadOk(k.messages, k.threads[w]);
      assert ThreadOk(k.messages, k'.threads[w]);
      ReplacesKeeps(k, k', w, k'.threads[w]);
    }
  }

  lemma DropBonusTickets(k: Kernel, w: Tid)
    requires TicketInv(k) && HasBonusIndexed(k, w)
    ensures TicketInv(DropBonus(k, w))
  {
    if k.threads[w].bonus.Some? {
      var b := k.threads[w].bonus.value;
      BonusIndexed(k, w);
      PoolRemoveFacts(k, b);
      DropBonusPlaces(k, w);
      var ms := [b];
      assert forall x :: x in ms <==> x == b;
      Fewer(k, DropBonus(k, w), ms);
    }
  }

  lemma DropBonusKeeps(k: Kernel, w: Tid)
    requires Inv(k) && HasBonusIndexed(k, w)
    ensures Inv(DropBonus(k, w))
  {
    DropBonusThreads(k, w);
    DropBonusTickets(k, w);
  }

  lemma SelectsKeeps(k: Kernel, ticket: nat, next: Tid, k': Kernel)
    requires Inv(k) && Selects(k, ticket, next, k')
    ensures Inv(k')
  {
    if k.threads[k.current].blockingThread.None? && k.pool != [] {
      var w := Winner(k, ticket);
      DropBonusKeeps(k, w);
      TicksKeep(DropBonus(k, w), k', next);
    } else {
      TicksKeep(k, k', next);
    }
  }

  lemma ConsoledKeeps(k: Kernel, m: Ref)
    requires Inv(k) && m !in k.pool
    ensures Inv(Consoled(Charge(k), m))
  {
    TicksKeep(k, Charge(k), k.current);
    if NeedsBonus(Charge(k)) {
      GiveBonusKeeps(Charge(k), m);
    }
  }

  lemma TickKeeps(k: Kernel, m: Ref, ticket: nat, next: Tid, k': Kernel)
    requires Inv(k) && TickStep(k, m, ticket, next, k')
    ensures Inv(k')
  {
    if Expires(k) {
      ConsoledKeeps(k, m);
      SelectsKeeps(Consoled(Charge(k), m), ticket, next, k');
    } else {
      TicksKeep(k, k', k.current);
    }
  }

  lemma CreateFlushed(k: Kernel, k': Kernel, t: Tid)
    requires FlushedDisabled(k.threads) && Next(k, DoCreate(t), k')
    ensures FlushedDisabled(k'.threads)
  {
    forall u, v | u in k'.threads && Flushes(k'.threads[u], v) ensures v in k'.threads && !k'.threads[v].enabled {
      assert Flushes(k.threads[u], v);
    }
  }

  lemma CreateThreads(k: Kernel, k': Kernel, t: Tid)
    requires ThreadInv(k) && Next(k, DoCreate(t), k')
    ensures ThreadInv(k')
  {
    AddThread(k.threads, t);
    CreateFlushed(k, k', t);
  }

  lemma CreateTickets(k: Kernel, k': Kernel, t: Tid)
    requires TicketInv(k) && Next(k, DoCreate(t), k')
    ensures TicketInv(k')
  {
    SamePlaces(k, k');
  }

  /** Every step keeps the invariant. */
  lemma StepKeeps(k: Kernel, a: Action, k': Kernel)
    requires Inv(k) && Next(k, a, k')
    ensures Inv(k')
  {
    match a
    case DoPut(m, msg) => if PutStatus(k, msg) == Success { PutKeeps(k, m, msg); }
    case DoPop => PopKeeps(k, k');
    case DoUnpool => UnpoolKeeps(k, k');
    case DoTick(m, ticket, next) => TickKeeps(k, m, ticket, next, k');
    case DoYield(ticket, next) => SelectsKeeps(k, ticket, next, k');
    case DoMark(v) => MarkKeeps(k, k', v);
    case DoFlush => FlushKeeps(k, k');
    case DoCreate(t) => CreateThreads(k, k', t); CreateTickets(k, k', t);
  }

  lemma InitHolds(k: Kernel)
    requires Init(k)
    ensures Inv(k)
  {
    forall t | t in k.threads ensures HasChain(k.threads, t) {
      SelfEnd(k.threads, t);
    }
    forall t, v | t in k.threads ensures !Flushes(k.threads[t], v) {
    }
    forall m, p ensures !At(k.threads, m, p) {
    }
  }
}
