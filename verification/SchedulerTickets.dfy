/**
 The ticket pool against the mailboxes: where every pending message is held,
 and that the pool holds exactly those messages, once each, at the position
 each message has cached.
 */
module SchedulerTickets {
  import opened Options
  import opened SchedulerState

  /** Where a thread can hold a message: its mailbox, its bonus slot, one of its calls. */
  datatype Slot = Mailbox | Bonus | CallAt(i: nat)

  datatype Place = Place(t: Tid, slot: Slot)

  predicate CallHolds(c: Call, m: Ref) {
    c == Retrieve(m) || (c.Flush? && m in c.msgs)
  }

  predicate HoldsIn(t: Thread, m: Ref, slot: Slot) {
    match slot
    case Mailbox => m in t.queue
    case Bonus => t.bonus == Some(m)
    case CallAt(i) => i < |t.calls| && CallHolds(t.calls[i], m)
  }

  /** Message m is held at place p. */
  predicate At(threads: map<Tid, Thread>, m: Ref, p: Place) {
    p.t in threads && HoldsIn(threads[p.t], m, p.slot)
  }

  ghost predicate Held(threads: map<Tid, Thread>, m: Ref) {
    exists p :: At(threads, m, p)
  }

  /** The thread a message held by t in slot is addressed to. */
  function AddressedTo(t: Tid, th: Thread, slot: Slot): Tid {
    if slot.CallAt? && slot.i < |th.calls| && th.calls[slot.i].Flush? then th.calls[slot.i].victim else t
  }

  function Addressee(threads: map<Tid, Thread>, p: Place): Tid {
    if p.t in threads then AddressedTo(p.t, threads[p.t], p.slot) else p.t
  }

  ghost predicate NoDup(s: seq<Ref>) {
    forall i, j :: 0 <= i < j < |s| ==> s[i] != s[j]
  }

  /** Every cached pool_index is the real position of its message. */
  ghost predicate IndexOk(k: Kernel) {
    forall i :: 0 <= i < |k.pool| ==> k.pool[i] in k.index && k.index[k.pool[i]] == i
  }

  ghost predicate OnePlace(threads: map<Tid, Thread>) {
    forall m, p, q :: At(threads, m, p) && At(threads, m, q) ==> p == q
  }

  ghost predicate PoolMatches(k: Kernel) {
    forall m :: m in k.pool <==> Held(k.threads, m)
  }

  ghost predicate Addressed(k: Kernel) {
    forall m, p :: At(k.threads, m, p) ==>
      m in k.messages && k.messages[m].source in k.threads && k.messages[m].destination == Addressee(k.threads, p)
  }

  ghost predicate TicketInv(k: Kernel) {
    IndexOk(k) && OnePlace(k.threads) && PoolMatches(k) && Addressed(k)
  }

  // ----- The pool alone --------------------------------------------------

  lemma PoolAddFacts(k: Kernel, m: Ref)
    requires IndexOk(k) && m !in k.pool
    ensures IndexOk(PoolAdd(k, m))
    ensures forall x :: x in PoolAdd(k, m).pool <==> x in k.pool || x == m
  {
  }

  lemma InPoolIndexed(k: Kernel, m: Ref)
    requires IndexOk(k) && m in k.pool
    ensures Indexed(k, m) && k.pool[k.index[m]] == m
  {
    var i :| 0 <= i < |k.pool| && k.pool[i] == m;
  }

  /** Swap-remove takes out exactly the victim and repairs the one index it moves. */
  lemma PoolRemoveFacts(k: Kernel, m: Ref)
    requires IndexOk(k) && m in k.pool
    ensures Indexed(k, m)
    ensures IndexOk(PoolRemove(k, m))
    ensures forall x :: x in PoolRemove(k, m).pool <==> x in k.pool && x != m
  {
    InPoolIndexed(k, m);
    var k' := PoolRemove(k, m);
    var i, last := k.index[m], |k.pool| - 1;
    forall x | x in k.pool && x != m ensures x in k'.pool {
      var j :| 0 <= j < |k.pool| && k.pool[j] == x;
      assert x == if j == last then k'.pool[i] else k'.pool[j];
    }
    forall x | x in k'.pool ensures x in k.pool && x != m {
      var j :| 0 <= j < |k'.pool| && k'.pool[j] == x;
      assert x == if j == i then k.pool[last] else k.pool[j];
    }
  }

  /** Removing a duplicate-free list of tickets is always possible and takes out exactly them. */
  lemma {:induction false} RemoveAllFacts(k: Kernel, ms: seq<Ref>) returns (k': Kernel)
    requires IndexOk(k) && NoDup(ms) && forall x :: x in ms ==> x in k.pool
    ensures RemovesAll(k, ms, k') && IndexOk(k')
    ensures forall x :: x in k'.pool <==> x in k.pool && x !in ms
    ensures k' == k.(pool := k'.pool, index := k'.index)
    decreases |ms|
  {
    if ms == [] {
      k' := k;
    } else {
      assert ms[0] in ms;
      PoolRemoveFacts(k, ms[0]);
      assert forall x :: x in ms <==> x == ms[0] || x in ms[1..];
      k' := RemoveAllFacts(PoolRemove(k, ms[0]), ms[1..]);
    }
  }

  lemma {:induction false} RemovesAllUnique(k: Kernel, ms: seq<Ref>, k1: Kernel, k2: Kernel)
    requires RemovesAll(k, ms, k1) && RemovesAll(k, ms, k2)
    ensures k1 == k2
    decreases |ms|
  {
    if ms != [] {
      RemovesAllUnique(PoolRemove(k, ms[0]), ms[1..], k1, k2);
    }
  }

  // ----- Where messages move ---------------------------------------------

  /** Nothing moved: same places, so only the pool itself must be unchanged. */
  lemma SamePlaces(k: Kernel, k': Kernel)
    requires TicketInv(k) && k.threads.Keys <= k'.threads.Keys
    requires k'.pool == k.pool && k'.index == k.index && k'.messages == k.messages
    requires forall x, p :: At(k'.threads, x, p) <==> At(k.threads, x, p)
    requires forall x, p :: At(k.threads, x, p) ==> Addressee(k'.threads, p) == Addressee(k.threads, p)
    ensures TicketInv(k')
  {
    forall m ensures m in k'.pool <==> Held(k'.threads, m) {
      assert m in k.pool <==> Held(k.threads, m);
      if Held(k.threads, m) {
        var p :| At(k.threads, m, p);
        assert At(k'.threads, m, p);
      }
      if Held(k'.threads, m) {
        var p :| At(k'.threads, m, p);
        assert At(k.threads, m, p);
      }
    }
  }

  /** A fresh message m appears at place at. */
  lemma OneMore(k: Kernel, k': Kernel, m: Ref, at: Place)
    requires TicketInv(k) && k.threads.Keys <= k'.threads.Keys
    requires m !in k.pool && at.t in k'.threads
    requires k'.pool == PoolAdd(k, m).pool && k'.index == PoolAdd(k, m).index
    requires forall x, p :: At(k'.threads, x, p) <==> At(k.threads, x, p) || (x == m && p == at)
    requires forall x, p :: At(k.threads, x, p) ==> Addressee(k'.threads, p) == Addressee(k.threads, p)
    requires k'.messages.Keys == k.messages.Keys + {m}
    requires forall x :: x in k.messages && x != m ==> k'.messages[x] == k.messages[x]
    requires k'.messages[m].source in k'.threads && k'.messages[m].destination == Addressee(k'.threads, at)
    ensures TicketInv(k')
  {
    PoolAddFacts(k, m);
    assert !Held(k.threads, m);
    forall x ensures x in k'.pool <==> Held(k'.threads, x) {
      assert x in k.pool <==> Held(k.threads, x);
      if Held(k.threads, x) {
        var p :| At(k.threads, x, p);
        assert At(k'.threads, x, p);
      }
      if x == m {
        assert At(k'.threads, m, at);
      }
      if Held(k'.threads, x) && x != m {
        var p :| At(k'.threads, x, p);
        assert At(k.threads, x, p);
      }
    }
  }

  /** The messages ms leave wherever they were, and the pool with them. */
  lemma Fewer(k: Kernel, k': Kernel, ms: seq<Ref>)
    requires TicketInv(k) && IndexOk(k') && k.threads.Keys <= k'.threads.Keys
    requires k'.messages == k.messages
    requires forall x :: x in k'.pool <==> x in k.pool && x !in ms
    requires forall x, p :: At(k'.threads, x, p) <==> At(k.threads, x, p) && x !in ms
    requires forall x, p :: At(k'.threads, x, p) ==> Addressee(k'.threads, p) == Addressee(k.threads, p)
    ensures TicketInv(k')
  {
    forall x ensures x in k'.pool <==> Held(k'.threads, x) {
      assert x in k.pool <==> Held(k.threads, x);
      if x in k.pool && x !in ms {
        var p :| At(k.threads, x, p);
        assert At(k'.threads, x, p);
      }
      if Held(k'.threads, x) {
        var p :| At(k'.threads, x, p);
        assert At(k.threads, x, p);
      }
    }
  }

  /** The messages ms move to place to; the pool does not change. */
  lemma Relocated(k: Kernel, k': Kernel, ms: seq<Ref>, to: Place)
    requires TicketInv(k) && k.threads.Keys <= k'.threads.Keys
    requires k'.pool == k.pool && k'.index == k.index && k'.messages == k.messages
    requires forall x :: x in ms ==> Held(k.threads, x) && x in k.messages && k.messages[x].destination == Addressee(k'.threads, to)
    requires forall x, p :: At(k'.threads, x, p) <==> if x in ms then p == to else At(k.threads, x, p)
    requires forall x, p :: At(k'.threads, x, p) && x !in ms ==> Addressee(k'.threads, p) == Addressee(k.threads, p)
    ensures TicketInv(k')
  {
    forall x ensures x in k'.pool <==> Held(k'.threads, x) {
      assert x in k.pool <==> Held(k.threads, x);
      if x in ms {
        assert At(k'.threads, x, to);
      } else {
        if Held(k.threads, x) {
          var p :| At(k.threads, x, p);
          assert At(k'.threads, x, p);
        }
        if Held(k'.threads, x) {
          var p :| At(k'.threads, x, p);
          assert At(k.threads, x, p);
        }
      }
    }
  }
}
