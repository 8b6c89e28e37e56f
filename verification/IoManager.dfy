/**
 The I/O manager as it is written: fields updated in place, loops that walk
 chains, mailboxes and flushed messages.  Every method is proved to perform
 exactly one step of the protocol of SchedulerState (delete_messages: its
 whole sequence of steps), so the theorems about runs are about this code.

 threads holds the mutable fields of each thread_c object, messages those of
 each message_c object.
 */
module IoManager {
  import opened Options
  import opened SchedulerState
  import opened SchedulerChains
  import opened SchedulerTickets
  import opened SchedulerInvariant
  import opened SchedulerTheorems
  import opened SchedulerLottery
  import opened SchedulerDeletion
  import opened SchedulerMail

  class IoManager {
    var threads: map<Tid, Thread>
    var messages: map<Ref, Message>
    var slots: seq<Ref>           // the dynamic array behind the ticket pool
    var count: nat                // tickets in use, packed at the front
    var index: map<Ref, nat>      // pool_index of each message
    var current: Tid
    const nullThread: Tid

    ghost function View(): Kernel
      requires count <= |slots|
      reads this
    {
      Kernel(threads, messages, slots[..count], index, current, nullThread)
    }

    ghost predicate Valid()
      reads this
    {
      count <= |slots| && Inv(View())
    }

    constructor (nullThread: Tid, others: set<Tid>)
      ensures Valid() && Init(View())
      ensures threads.Keys == {nullThread} + others && current == nullThread && this.nullThread == nullThread
      ensures forall t :: t in threads ==> IsIdle(threads[t])
    {
      this.nullThread := nullThread;
      threads := map t | t in {nullThread} + others :: NewThread();
      messages, slots, count, index := map[], [], 0, map[];
      current := nullThread;
      new;
      InitHolds(View());
    }

    // ----- message_pool_c ------------------------------------------------

    method PoolInsert(m: Ref)
      requires count <= |slots|
      modifies this`slots, this`count, this`index
      ensures count <= |slots| && View() == PoolAdd(old(View()), m)
    {
      index := index[m := count];
      if count < |slots| {
        slots := slots[count := m];
      } else {
        slots := slots + [m];
      }
      count := count + 1;
      assert slots[..count] == old(slots[..count]) + [m];
    }

    method PoolErase(m: Ref)
      requires count <= |slots| && IndexOk(View()) && Indexed(View(), m)
      modifies this`slots, this`count, this`index
      ensures count <= |slots| && View() == PoolRemove(old(View()), m)
    {
      var i := index[m];
      slots := slots[i := slots[count - 1]][count - 1 := slots[i]];
      count := count - 1;
      if count > 0 {
        index := index[slots[i] := i];
      } else {
        assert old(slots[..count])[0] == old(slots)[0];
      }
      assert slots[..count] == old(slots[..count])[i := old(slots)[old(count) - 1]][..count];
    }

    // ----- thread_c: chains ----------------------------------------------

    /** Terminates although nothing in the loop looks for cycles. */
    method FindBlockingThread(t: Tid) returns (r: Option<Tid>)
      requires Valid() && t in threads
      ensures r.None? <==> threads[t].blockingThread.None?
      ensures r.Some? ==> EndsAt(threads, t, r.value) && r.value in threads && threads[r.value].state == Ready
      ensures r.None? ==> EndsAt(threads, t, t)
    {
      r := threads[t].blockingThread;
      ghost var e := ReadyEnd(View(), t);
      ghost var p: seq<Tid> :| ChainFromTo(threads, p, t, e);
      EndFacts(threads, t, e);
      if r.Some? {
        assert LinkAt(threads, p, 0);
        var thread := r.value;
        ghost var i: nat := 1;
        assert |p| > 2 ==> LinkAt(threads, p, 1);
        while threads[thread].blockingThread.Some?
          invariant i < |p| && p[i] == thread && thread in threads
          decreases |p| - i
        {
          assert LinkAt(threads, p, i);
          assert i + 2 < |p| ==> LinkAt(threads, p, i + 1);
          thread := threads[thread].blockingThread.value;
          i := i + 1;
        }
        assert i + 1 < |p| ==> LinkAt(threads, p, i);
        r := Some(thread);
      }
    }

    method CausesSchedulingLoop(msg: Message) returns (loop: bool)
      requires Valid() && msg.destination in threads && threads[current].state == Ready
      ensures loop <==> CausesLoop(View(), msg)
    {
      loop := false;
      if msg.blocking {
        if current == msg.destination {
          assert ThreadOk(messages, View().threads[current]);
          SelfEnd(threads, current);
          loop := true;
        } else {
          var end := FindBlockingThread(msg.destination);
          loop := end == Some(current);
          ghost var e := if end.Some? then end.value else msg.destination;
          if EndsAt(threads, msg.destination, current) {
            EndsAtUnique(threads, msg.destination, current, e);
          }
        }
      }
    }

    // ----- Sending -------------------------------------------------------

    /** unblock_on, then queue at the head or at the tail. */
    method Deliver(m: Ref, msg: Message) returns (delivered: bool)
      requires count <= |slots| && msg.destination in threads
      requires StateOk(threads[msg.destination])
      modifies this`threads, this`messages
      ensures delivered <==> Wakes(old(threads)[msg.destination], msg) || |old(threads)[msg.destination].queue| < MAILBOX_LIMIT
      ensures View() == if delivered then Enqueue(old(View()), m, msg) else old(View())
    {
      var d := threads[msg.destination];
      delivered := true;
      if d.state == Blocked && d.blockingThread.value == msg.source && d.blockingId == msg.id {
        d := d.(state := Ready);
        d := d.(blockingThread := None);
        d := d.(queue := [m] + d.queue);
      } else if |d.queue| < MAILBOX_LIMIT {
        d := d.(queue := d.queue + [m]);
      } else {
        delivered := false;
      }
      if delivered {
        threads := threads[msg.destination := d];
        messages := messages[m := msg];
      }
    }

    method BlockOn(msg: Message)
      requires count <= |slots| && current in threads
      modifies this`threads
      ensures View() == Block(old(View()), msg)
    {
      if msg.blocking {
        var t := threads[current];
        t := t.(state := Blocked, blockingId := msg.id);
        t := t.(blockingThread := Some(msg.destination));
        t := t.(calls := t.calls + [Send(msg.destination, msg.id)]);
        threads := threads[current := t];
      }
    }

    /** The locked section of io_manager_c::put_message, with thread_c::put_message inside. */
    method PutMessage(m: Ref, msg: Message) returns (status: Status)
      requires Valid() && threads[current].state == Ready
      requires msg.source in threads && msg.destination in threads
      requires msg.blocking ==> msg.source == current
      requires m !in View().pool
      modifies this
      ensures Valid() && current == old(current)
      ensures PutStep(old(View()), m, msg, View())
      ensures var d := old(threads)[msg.destination];
              var loops := msg.blocking && EndsAt(old(threads), msg.destination, current);
              var full := !IsAwaited(old(View()), msg) && |d.queue| >= 64;
              status == if !d.enabled then MailboxDisabled
                        else if loops then MessageDeadlock
                        else if full then MailboxOverflow
                        else Success
    {
      ghost var k := View();
      PutStatusIs(k, msg);
      assert ThreadOk(k.messages, k.threads[msg.destination]);
      if !threads[msg.destination].enabled {
        status := MailboxDisabled;
        return;
      }
      var loop := CausesSchedulingLoop(msg);
      if loop {
        status := MessageDeadlock;
        return;
      }
      var delivered := Deliver(m, msg);
      if !delivered {
        status := MailboxOverflow;
        return;
      }
      BlockOn(msg);
      PoolInsert(m);
      status := Success;
      PutKeeps(k, m, msg);
    }

    // ----- Receiving -----------------------------------------------------

    /** First half of get_message: thread_c::get_message on the running thread. */
    method TakeFromMailbox() returns (m: Option<Ref>)
      requires Valid() && threads[current].state == Ready
      requires InSend(threads[current]) || NoSends(threads[current])
      modifies this`threads
      ensures Valid() && PopStep(old(View()), View())
      ensures m == if old(threads)[current].queue == [] then None else Some(old(threads)[current].queue[0])
      ensures old(InSend(threads[current]) && threads[current].enabled) ==>
                m.Some? && Answers(messages, m.value, TopCall(old(threads)[current]).value)
    {
      ghost var k := View();
      var t := threads[current];
      if InSend(t) {
        assert ThreadOk(k.messages, k.threads[current]);
        assert t.enabled ==> Answered(t)[0] == t.calls[|t.calls| - 1] && Answers(messages, t.queue[0], Answered(t)[0]);
        t := DropCall(t);
      }
      if t.queue != [] {
        m := Some(t.queue[0]);
        t := t.(queue := t.queue[1..], calls := t.calls + [Retrieve(t.queue[0])]);
      } else {
        m := None;
      }
      threads := threads[current := t];
      PopKeeps(k, View());
    }

    /** Second half of get_message: the message no longer counts as a ticket. */
    method ForgetTicket()
      requires Valid() && threads[current].state == Ready
      requires TopCall(threads[current]).Some? && TopCall(threads[current]).value.Retrieve?
      modifies this
      ensures Valid() && UnpoolStep(old(View()), View())
    {
      ghost var k := View();
      var m := TopCall(threads[current]).value.msg;
      TopCallInPool(k, m);
      InPoolIndexed(k, m);
      threads := threads[current := DropCall(threads[current])];
      PoolErase(m);
      UnpoolKeeps(k, View());
    }

    // ----- Scheduling ----------------------------------------------------

    /** Draw a ticket; its owner no longer needs a bonus ticket. */
    method DrawWinner(draw: nat) returns (winner: Tid)
      requires Valid() && draw < count
      modifies this`threads, this`slots, this`count, this`index
      ensures Valid() && old(View()).pool[draw] in messages && old(slots)[draw] in messages
      ensures winner == messages[old(slots)[draw]].destination && winner == Winner(old(View()), draw)
      ensures HasBonusIndexed(old(View()), winner) && View() == DropBonus(old(View()), winner)
      ensures forall t :: t in threads ==> t in old(threads) && threads[t].bonus == if t == winner then None else old(threads)[t].bonus
    {
      ghost var k := View();
      TicketOwner(k, draw);
      assert k.pool[draw] == slots[draw];
      winner := messages[slots[draw]].destination;
      BonusIndexed(k, winner);
      var t := threads[winner];
      if t.bonus.Some? {
        threads := threads[winner := t.(bonus := None)];
        PoolErase(t.bonus.value);
      }
      DropBonusKeeps(k, winner);
    }

    /** draw stands for the pool slot rand() returns. */
    method SelectNextThread(draw: nat) returns (next: Tid)
      requires Valid() && (count > 0 ==> draw < count)
      modifies this
      ensures Valid() && Selects(old(View()), draw, next, View())
      ensures current == next && threads[next].state == Ready
      ensures old(threads[current].blockingThread.Some?) ==>
                CpuOnBehalfOf(old(threads), old(current), next, View()) && BonusesBut(old(threads), View(), None)
      ensures old(threads[current].blockingThread.None? && count == 0) ==>
                CpuOnBehalfOf(old(threads), nullThread, next, View()) && BonusesBut(old(threads), View(), None)
      ensures old(threads[current].blockingThread.None? && count > 0) ==>
                && old(slots)[draw] in old(messages)
                && CpuOnBehalfOf(old(threads), old(messages)[old(slots)[draw]].destination, next, View())
                && BonusesBut(old(threads), View(), Some(old(messages)[old(slots)[draw]].destination))
    {
      ghost var k := View();
      assert |k.pool| == count;
      var handoff := FindBlockingThread(current);
      if handoff.Some? {
        next := handoff.value;
      } else {
        var winner := nullThread;
        if count > 0 {
          winner := DrawWinner(draw);
        }
        var end := FindBlockingThread(winner);
        next := if end.Some? then end.value else winner;
        SameLinksSameEnds(threads, k.threads, winner, next);
        assert end.None? ==> ThreadOk(View().messages, View().threads[next]);
      }
      threads := threads[next := threads[next].(ticks := QUANTUM)];
      current := next;
      assert Selects(k, draw, next, View());
      SelectsKeeps(k, draw, next, View());
      SelectionRule(k, draw, next, View());
    }

    /** The IRQ0 arm of handle_interrupt; spare is the address a bonus message gets if one is needed. */
    method ClockTick(spare: Ref, draw: nat) returns (next: Tid)
      requires Valid() && threads[current].state == Ready
      requires spare !in View().pool && draw <= count
      requires draw == count ==> NeedsBonus(View()) || count == 0
      modifies this
      ensures Valid() && TickStep(old(View()), spare, draw, next, View())
      ensures next == current && threads[current].state == Ready
      ensures old(threads[current].ticks) > 1 ==>
                && current == old(current)
                && threads == old(threads)[current := old(threads)[current].(ticks := old(threads)[current].ticks - 1)]
      ensures old(threads[current].ticks) <= 1 && TicketsBefore(old(View()), spare) != [] ==>
                && (draw < old(count) ==> old(View()).pool[draw] in old(messages))
                && WonBy(old(View()), spare, Drawn(old(View()), draw), next, View())
    {
      ghost var k := View();
      var t := threads[current];
      threads := threads[current := t.(ticks := t.ticks - 1)];
      next := current;
      if t.ticks - 1 > 0 {
        TickKeeps(k, spare, draw, next, View());
        return;
      }
      ghost var k1 := View();
      if current != nullThread && t.enabled && t.queue == [] && t.bonus == None {
        threads := threads[current := threads[current].(bonus := Some(spare))];
        messages := messages[spare := Message(nullThread, current, ID_ATOMIC, TYPE_NULL, false)];
        PoolInsert(spare);
      }
      ConsoledKeeps(k, spare);
      next := SelectNextThread(draw);
      TickRule(k, spare, draw, next, View());
    }

    // ----- Deletion ------------------------------------------------------

    method MarkForDeletion(v: Tid)
      requires Valid() && threads[current].state == Ready && v in threads && v != current
      modifies this`threads
      ensures Valid() && MarkStep(old(View()), v, View())
    {
      ghost var k := View();
      threads := threads[v := threads[v].(enabled := false)];
      var left: seq<Ref> := [];
      while threads[v].queue != []
        invariant v in threads && threads == k.threads[v := k.threads[v].(enabled := false, queue := threads[v].queue)]
        invariant left + threads[v].queue == k.threads[v].queue
        decreases |threads[v].queue|
      {
        left := left + [threads[v].queue[0]];
        threads := threads[v := threads[v].(queue := threads[v].queue[1..])];
      }
      if threads[v].bonus.Some? {
        left := left + [threads[v].bonus.value];
        threads := threads[v := threads[v].(bonus := None)];
      }
      var t := threads[current];
      threads := threads[current := t.(calls := t.calls + [Flush(v, left)])];
      assert left == Leftovers(k.threads[v]);
      MarkKeeps(k, View(), v);
    }

    /** An address that no pending message and none of the given messages has. */
    method Allocate(avoid: seq<Ref>) returns (r: Ref)
      requires count <= |slots|
      ensures r !in slots[..count] && r !in avoid
    {
      var all := slots[..count] + avoid;
      r := 0;
      for i := 0 to |all|
        invariant forall j :: 0 <= j < i ==> all[j] < r
      {
        if all[i] >= r { r := all[i] + 1; }
      }
      assert forall x :: x in slots[..count] || x in avoid ==> x in all;
    }

    /** Erase these messages from the pool, one by one. */
    method EraseAll(left: seq<Ref>)
      requires count <= |slots| && IndexOk(View()) && NoDup(left) && forall x :: x in left ==> x in View().pool
      modifies this
      ensures count <= |slots| && RemovesAll(old(View()), left, View())
    {
      ghost var k0 := View();
      for i := 0 to |left|
        invariant count <= |slots| && RemovesAll(k0, left[..i], View())
        invariant IndexOk(View()) && forall x :: x in View().pool <==> x in k0.pool && x !in left[..i]
      {
        assert left[i] !in left[..i] && left[i] in left;
        PoolRemoveFacts(View(), left[i]);
        ghost var ki := View();
        PoolErase(left[i]);
        RemovesAllAppend(k0, left[..i], ki, left[i]);
        assert left[..i + 1] == left[..i] + [left[i]];
      }
      assert left[..|left|] == left;
    }

    method FlushTickets()
      requires Valid() && threads[current].state == Ready
      requires TopCall(threads[current]).Some? && TopCall(threads[current]).value.Flush?
      modifies this
      ensures Valid() && FlushStep(old(View()), View())
    {
      ghost var k := View();
      var left := TopCall(threads[current]).value.msgs;
      threads := threads[current := DropCall(threads[current])];
      assert View() == DropTop(k);
      assert NoDup(left) by { assert ThreadOk(k.messages, k.threads[current]); }
      forall x | x in left ensures x in k.pool { TopCallInPool(k, x); }
      EraseAll(left);
      FlushKeeps(k, View());
    }

    /** Answer one leftover request; avoid lists objects that are still allocated. */
    method AbortRequest(request: Message, avoid: seq<Ref>) returns (ghost used: seq<Ref>)
      requires Valid() && threads[current].state == Ready
      requires request.source in threads && request.destination in threads
      modifies this
      ensures Valid() && current == old(current) && threads.Keys == old(threads).Keys && threads[current].state == Ready
      ensures forall x :: x in avoid && x in old(messages) ==> x in messages && messages[x] == old(messages)[x]
      ensures if request.blocking then
                |used| == 1 && PutStep(old(View()), used[0], Message(request.destination, request.source, request.id, 0x8000_0001, false), View())
              else used == [] && View() == old(View())
      ensures request.blocking && old(WaitsFor(View(), request.source, request.destination, request.id)) && old(threads)[request.source].enabled ==>
                Woken(View(), request.source, request.destination, request.id)
    {
      ghost var k := View();
      used := [];
      if request.blocking {
        var r := Allocate(avoid);
        var status := PutMessage(r, Response(request, TYPE_ABORT));
        used := [r];
        if IsEnabled(k, request.source) { AbortPut(k, r, request, request.source, request.destination, request.id); }
      }
    }

    method AbortRequests(left: seq<Ref>, ghost requests: seq<Message>) returns (ghost refs: seq<Ref>)
      requires Valid() && threads[current].state == Ready && |requests| == |left|
      requires forall j :: 0 <= j < |left| ==> left[j] in messages && messages[left[j]] == requests[j]
      requires forall q :: q in requests ==> q.source in threads && q.destination in threads
      modifies this
      ensures Valid() && Aborts(old(View()), requests, refs, View())
    {
      ghost var k2 := View();
      refs := [];
      for i := 0 to |left|
        invariant Valid() && threads.Keys == k2.threads.Keys && threads[current].state == Ready
        invariant Aborts(k2, requests[..i], refs, View())
        invariant forall j :: i <= j < |left| ==> left[j] in messages && messages[left[j]] == requests[j]
      {
        ghost var ki := View();
        var request := messages[left[i]];
        assert request == requests[i] && request in requests;
        ghost var used := AbortRequest(request, left);
        AbortsAppend(k2, requests[..i], refs, ki, request, refs + used, View());
        refs := refs + used;
        assert requests[..i + 1] == requests[..i] + [request];
      }
      assert requests[..|left|] == requests;
    }

    method DeleteMessages(v: Tid) returns (ghost k1: Kernel, ghost k2: Kernel, ghost refs: seq<Ref>)
      requires Valid() && threads[current].state == Ready && v in threads && v != current
      modifies this
      ensures Valid() && Deletes(old(View()), v, k1, k2, refs, View())
      ensures forall m :: m in old(threads)[v].queue && m in old(messages) && WaitsOnRequest(old(View()), v, m) ==>
                Woken(View(), old(messages)[m].source, v, old(messages)[m].id)
    {
      ghost var k := View();
      LeftoversKnown(k, v);
      MarkForDeletion(v);
      k1 := View();
      var left := TopCall(threads[current]).value.msgs;
      ghost var requests := Contents(k, left);
      FlushTickets();
      k2 := View();
      FlushRemoves(k1, k2);
      forall q | q in requests ensures q.source in threads && q.destination in threads {
        var j :| 0 <= j < |requests| && requests[j] == q;
        assert left[j] in left;
      }
      assert forall j :: 0 <= j < |left| ==> left[j] in left;
      refs := AbortRequests(left, requests);
      forall m | m in k.threads[v].queue && m in k.messages && WaitsOnRequest(k, v, m)
        ensures Woken(View(), k.messages[m].source, v, k.messages[m].id)
      {
        DeletesWakeAll(k, v, k1, k2, refs, View(), m);
      }
    }
  }

  lemma {:induction false} RemovesAllAppend(k: Kernel, ms: seq<Ref>, k1: Kernel, m: Ref)
    requires RemovesAll(k, ms, k1) && Indexed(k1, m)
    ensures RemovesAll(k, ms + [m], PoolRemove(k1, m))
    decreases |ms|
  {
    if ms == [] {
      assert (ms + [m])[1..] == [];
    } else {
      RemovesAllAppend(PoolRemove(k, ms[0]), ms[1..], k1, m);
      assert (ms + [m])[1..] == ms[1..] + [m];
    }
  }

  lemma {:induction false} AbortsAppend(k: Kernel, requests: seq<Message>, refs: seq<Ref>, k1: Kernel,
                                        request: Message, refs': seq<Ref>, k2: Kernel)
    requires Aborts(k, requests, refs, k1)
    requires if request.blocking then
               && |refs'| == |refs| + 1 && refs' == refs + [refs'[|refs|]]
               && PutStep(k1, refs'[|refs|], Response(request, TYPE_ABORT), k2)
             else refs' == refs && k2 == k1
    ensures Aborts(k, requests + [request], refs', k2)
    decreases |requests|
  {
    var all := requests + [request];
    if requests == [] {
      assert all[1..] == [];
      assert request.blocking ==> refs'[1..] == [];
    } else {
      assert all[1..] == requests[1..] + [request];
      if requests[0].blocking {
        AbortsAppend(AfterAbort(k, refs[0], requests[0]), requests[1..], refs[1..], k1, request, refs'[1..], k2);
      } else {
        AbortsAppend(k, requests[1..], refs, k1, request, refs', k2);
      }
    }
  }
}
