/**
 Who gets the CPU, for how long, and what it costs in tickets: the rules of
 select_next_thread and of the clock (src/kernel/io_manager/io_manager.cpp,
 src/kernel/thread_manager/thread.cpp) as facts about every run.
 */
module SchedulerLottery {
  import opened Options
  import opened SchedulerState
  import opened SchedulerChains
  import opened SchedulerTickets
  import opened SchedulerInvariant
  import opened SchedulerTheorems

  /** The CPU goes to d, or, if d is blocked, to the end of its blocking chain, with a whole quantum. */
  ghost predicate CpuOnBehalfOf(threads: map<Tid, Thread>, d: Tid, next: Tid, k': Kernel) {
    && d in threads && EndsAt(threads, d, next) && (threads[d].blockingThread == None ==> next == d)
    && k'.current == next && next in k'.threads && k'.threads[next].ticks == 12
  }

  /** Every thread has kept its bonus ticket, except that loser, if given, has none. */
  ghost predicate BonusesBut(threads: map<Tid, Thread>, k': Kernel, loser: Option<Tid>) {
    && k'.threads.Keys == threads.Keys
    && forall t :: t in threads ==> k'.threads[t].bonus == if loser == Some(t) then None else threads[t].bonus
  }

  /** The pool has lost the bonus ticket of loser, if given and if it had one, and nothing else. */
  ghost predicate TicketsBut(threads: map<Tid, Thread>, pool: seq<Ref>, k': Kernel, loser: Option<Tid>) {
    forall m :: m in k'.pool <==>
      m in pool && !(loser.Some? && loser.value in threads && threads[loser.value].bonus == Some(m))
  }

  // ----- Selection -------------------------------------------------------

  /**
   Where the CPU goes on behalf of d: d is the recipient of the drawn message if
   there is a lottery, the running thread if that is blocked, the idle thread if
   there are no tickets.  Exactly the recipient of a drawn message pays with its
   bonus ticket.
   */
  lemma SelectionRule(k: Kernel, ticket: nat, next: Tid, k': Kernel)
    requires Inv(k) && Selects(k, ticket, next, k')
    ensures !HoldsLottery(k) ==> BonusesBut(k.threads, k', None) && TicketsBut(k.threads, k.pool, k', None)
    ensures k.threads[k.current].blockingThread.Some? ==> CpuOnBehalfOf(k.threads, k.current, next, k')
    ensures k.threads[k.current].blockingThread == None && k.pool == [] ==> CpuOnBehalfOf(k.threads, k.nullThread, next, k')
    ensures HoldsLottery(k) ==>
              && ticket < |k.pool| && k.pool[ticket] in k.messages
              && var d := k.messages[k.pool[ticket]].destination;
                 CpuOnBehalfOf(k.threads, d, next, k') && BonusesBut(k.threads, k', Some(d)) && TicketsBut(k.threads, k.pool, k', Some(d))
  {
    if HoldsLottery(k) {
      var d := k.messages[k.pool[ticket]].destination;
      EndFacts(k.threads, d, next);
      BonusIndexed(k, d);
      if k.threads[d].bonus.Some? { PoolRemoveFacts(k, k.threads[d].bonus.value); }
    } else if k.threads[k.current].blockingThread.Some? {
      EndFacts(k.threads, k.current, next);
    } else {
      EndFacts(k.threads, k.nullThread, next);
    }
  }

  /** The rule for a thread that gives up the CPU, in every state of every run. */
  lemma YieldRule(states: seq<Kernel>, actions: seq<Action>, i: nat)
    requires IsRun(states, actions) && i < |actions| && actions[i].DoYield?
    ensures var k, k', ticket, next := states[i], states[i + 1], actions[i].ticket, actions[i].next;
            && k.current in k.threads
            && (k.threads[k.current].blockingThread.Some? ==>
                  CpuOnBehalfOf(k.threads, k.current, next, k') && BonusesBut(k.threads, k', None) && k'.pool == k.pool)
            && (k.threads[k.current].blockingThread == None && k.pool == [] ==>
                  CpuOnBehalfOf(k.threads, k.nullThread, next, k') && BonusesBut(k.threads, k', None) && k'.pool == k.pool)
            && (k.threads[k.current].blockingThread == None && k.pool != [] ==>
                  && ticket < |k.pool| && k.pool[ticket] in k.messages
                  && var d := k.messages[k.pool[ticket]].destination;
                     CpuOnBehalfOf(k.threads, d, next, k') && BonusesBut(k.threads, k', Some(d)) && TicketsBut(k.threads, k.pool, k', Some(d)))
  {
    RunKeeps(states, actions, i);
    assert Next(states[i], actions[i], states[i + 1]);
    SelectionRule(states[i], actions[i].ticket, actions[i].next, states[i + 1]);
  }

  // ----- Clock ticks -----------------------------------------------------

  /**
   The running thread gets a bonus ticket when the clock takes the CPU: it is
   not the idle thread, it takes messages, and it owns no ticket, neither in its
   mailbox nor in its bonus slot.
   */
  predicate IsConsoled(k: Kernel)
    requires k.current in k.threads
  {
    var t := k.threads[k.current];
    k.current != k.nullThread && t.enabled && t.queue == [] && t.bonus == None
  }

  /** The bonus ticket of u when the lottery starts. */
  function BonusBefore(k: Kernel, m: Ref, u: Tid): Option<Ref>
    requires k.current in k.threads && u in k.threads
  {
    if u == k.current && IsConsoled(k) then Some(m) else k.threads[u].bonus
  }

  /** The tickets when the lottery starts. */
  function TicketsBefore(k: Kernel, m: Ref): seq<Ref>
    requires k.current in k.threads
  {
    k.pool + (if IsConsoled(k) then [m] else [])
  }

  function BonusMessage(k: Kernel): Message {
    Message(k.nullThread, k.current, 0xFFFF_FFFF, 0x8000_0000, false)
  }

  /** k1 is the state in which the clock holds its lottery. */
  ghost predicate LotteryState(k: Kernel, m: Ref, k1: Kernel)
    requires k.current in k.threads
  {
    && Inv(k1) && k1.current == k.current && k1.nullThread == k.nullThread && SameLinks(k.threads, k1.threads)
    && k1.threads.Keys == k.threads.Keys && k1.threads[k.current].blockingThread == None
    && k1.pool == TicketsBefore(k, m)
    && k1.messages == (if IsConsoled(k) then k.messages[m := BonusMessage(k)] else k.messages)
    && (forall u :: u in k.threads ==> k1.threads[u].bonus == BonusBefore(k, m, u))
  }

  lemma TickState(k: Kernel, m: Ref)
    requires Inv(k) && m !in k.pool && k.threads[k.current].state == Ready
    ensures LotteryState(k, m, Consoled(Charge(k), m))
  {
    ConsoledKeeps(k, m);
    assert ThreadOk(k.messages, k.threads[k.current]);
  }

  /** Whose ticket is drawn: slots after the old ones hold the new bonus of the running thread. */
  function Drawn(k: Kernel, ticket: nat): Tid
    requires ticket < |k.pool| ==> k.pool[ticket] in k.messages
  {
    if ticket < |k.pool| then k.messages[k.pool[ticket]].destination else k.current
  }

  /** The ticket of d was drawn: the CPU goes there, and exactly d has paid with its bonus ticket. */
  ghost predicate WonBy(k: Kernel, m: Ref, d: Tid, next: Tid, k': Kernel)
    requires k.current in k.threads
  {
    && CpuOnBehalfOf(k.threads, d, next, k') && k'.threads.Keys == k.threads.Keys
    && (forall u :: u in k.threads ==> k'.threads[u].bonus == if u == d then None else BonusBefore(k, m, u))
    && (forall x :: x in k'.pool <==> x in TicketsBefore(k, m) && BonusBefore(k, m, d) != Some(x))
  }

  lemma LotteryWon(k: Kernel, m: Ref, k1: Kernel, ticket: nat, next: Tid, k': Kernel)
    requires Inv(k) && m !in k.pool && LotteryState(k, m, k1) && Selects(k1, ticket, next, k') && k1.pool != []
    ensures ticket < |k1.pool| && (ticket < |k.pool| ==> k.pool[ticket] in k.messages)
    ensures WonBy(k, m, Drawn(k, ticket), next, k')
  {
    SelectionRule(k1, ticket, next, k');
    if ticket < |k.pool| {
      assert k1.pool[ticket] == k.pool[ticket] && k.pool[ticket] in k.pool;
      TicketOwner(k, ticket);
    }
    var d := k1.messages[k1.pool[ticket]].destination;
    assert d == Drawn(k, ticket);
    SameLinksSameEnds(k1.threads, k.threads, d, next);
  }

  lemma LotteryEmpty(k: Kernel, m: Ref, k1: Kernel, ticket: nat, next: Tid, k': Kernel)
    requires Inv(k) && LotteryState(k, m, k1) && Selects(k1, ticket, next, k') && k1.pool == []
    ensures CpuOnBehalfOf(k.threads, k.nullThread, next, k') && BonusesBut(k.threads, k', None) && k'.pool == []
  {
    SelectionRule(k1, ticket, next, k');
    SameLinksSameEnds(k1.threads, k.threads, k.nullThread, next);
  }

  /**
   The rule for the clock.  When the quantum is used up, the running thread gets
   its bonus ticket if it needs one; then the CPU goes to the recipient of the
   drawn message, or to the end of its chain, and exactly that recipient pays
   with its bonus ticket.
   */
  lemma TickRule(k: Kernel, m: Ref, ticket: nat, next: Tid, k': Kernel)
    requires Inv(k) && Next(k, DoTick(m, ticket, next), k') && k.threads[k.current].ticks <= 1
    ensures TicketsBefore(k, m) == [] ==>
              CpuOnBehalfOf(k.threads, k.nullThread, next, k') && BonusesBut(k.threads, k', None) && k'.pool == []
    ensures TicketsBefore(k, m) != [] ==>
              && ticket < |TicketsBefore(k, m)| && (ticket < |k.pool| ==> k.pool[ticket] in k.messages)
              && WonBy(k, m, Drawn(k, ticket), next, k')
    ensures k'.messages == if IsConsoled(k) then k.messages[m := BonusMessage(k)] else k.messages
  {
    var k1 := Consoled(Charge(k), m);
    TickState(k, m);
    if k1.pool == [] { LotteryEmpty(k, m, k1, ticket, next, k'); } else { LotteryWon(k, m, k1, ticket, next, k'); }
  }

  /** A tick that leaves ticks over changes nothing else. */
  lemma EarlyTick(k: Kernel, m: Ref, ticket: nat, next: Tid, k': Kernel)
    requires Next(k, DoTick(m, ticket, next), k') && k.threads[k.current].ticks > 1
    ensures var t := k.current;
            k' == k.(threads := k.threads[t := k.threads[t].(ticks := k.threads[t].ticks - 1)])
  {
  }

  /**
   A preempted thread gets the CPU as soon as one of its tickets is drawn, and
   PreemptedOwnsTicket says that it has one to be drawn.
   */
  lemma PreemptedRunsWhenDrawn(states: seq<Kernel>, actions: seq<Action>, i: nat, j: nat, t: Tid)
    requires PreemptedAt(states, actions, i, t) && i < j < |actions|
    requires forall l :: i < l <= j ==> states[l].current != t
    requires forall l :: i < l < j ==> actions[l] != DoMark(t)
    requires actions[j].DoYield? || (actions[j].DoTick? && states[j].current in states[j].threads && Expires(states[j]))
    requires HoldsLottery(states[j]) && actions[j].ticket < |states[j].pool|
    requires var m := states[j].pool[actions[j].ticket]; m in states[j].messages && states[j].messages[m].destination == t
    ensures states[j + 1].current == t
  {
    WaitsUntilNext(states, actions, i, j, t);
    RunKeeps(states, actions, j);
    var k := states[j];
    assert ThreadOk(k.messages, k.threads[t]);
    assert Next(k, actions[j], states[j + 1]);
    if actions[j].DoYield? {
      YieldRule(states, actions, j);
    } else {
      TickRule(k, actions[j].spare, actions[j].ticket, actions[j].next, states[j + 1]);
    }
  }

  // ----- The quantum -----------------------------------------------------

  /** Clock ticks among the actions. */
  function Ticks(actions: seq<Action>): nat {
    if actions == [] then 0 else Ticks(actions[..|actions| - 1]) + if actions[|actions| - 1].DoTick? then 1 else 0
  }

  /** Step l gives the CPU away, perhaps to the same thread. */
  predicate SelectsAt(states: seq<Kernel>, actions: seq<Action>, l: nat)
    requires l < |actions| && l < |states|
  {
    actions[l].DoYield? ||
    (actions[l].DoTick? && states[l].current in states[l].threads && states[l].threads[states[l].current].ticks <= 1)
  }

  /** Only clock ticks use up a quantum. */
  lemma OtherStepsTakeNoTicks(k: Kernel, a: Action, k': Kernel)
    requires Inv(k) && Next(k, a, k') && !a.DoTick? && !a.DoYield?
    ensures k'.current == k.current && k'.current in k'.threads && k'.threads[k.current].ticks == k.threads[k.current].ticks
  {
    match a
    case DoPut(m, msg) =>
    case DoPop =>
    case DoUnpool =>
    case DoMark(v) =>
    case DoFlush => FlushRemoves(k, k');
    case DoCreate(t) =>
  }

  lemma SelectedHasQuantum(states: seq<Kernel>, actions: seq<Action>, i: nat)
    requires IsRun(states, actions) && i < |actions| && SelectsAt(states, actions, i)
    ensures states[i + 1].current in states[i + 1].threads && states[i + 1].threads[states[i + 1].current].ticks == 12
  {
    RunKeeps(states, actions, i);
    var k, a, k' := states[i], actions[i], states[i + 1];
    assert Next(k, a, k');
    if a.DoYield? { SelectionRule(k, a.ticket, a.next, k'); } else { TickRule(k, a.spare, a.ticket, a.next, k'); }
  }

  lemma StepRunsDown(k: Kernel, a: Action, k': Kernel)
    requires Inv(k) && Next(k, a, k') && !a.DoYield? && (a.DoTick? ==> k.threads[k.current].ticks > 1)
    ensures k'.current == k.current && k'.current in k'.threads
    ensures k'.threads[k.current].ticks == k.threads[k.current].ticks - if a.DoTick? then 1 else 0
  {
    if a.DoTick? { EarlyTick(k, a.spare, a.ticket, a.next, k'); } else { OtherStepsTakeNoTicks(k, a, k'); }
  }

  /** Step l leaves the CPU where it is, and takes one tick if it is a clock tick. */
  ghost predicate RunsDownAt(states: seq<Kernel>, actions: seq<Action>, l: nat) {
    && l < |actions| && l + 1 < |states|
    && var k, k' := states[l], states[l + 1];
       && k.current in k.threads && k'.current == k.current && k'.current in k'.threads
       && k'.threads[k.current].ticks == k.threads[k.current].ticks - if actions[l].DoTick? then 1 else 0
  }

  lemma RunStepRunsDown(states: seq<Kernel>, actions: seq<Action>, l: nat)
    requires IsRun(states, actions) && l < |actions| && !SelectsAt(states, actions, l)
    ensures RunsDownAt(states, actions, l)
  {
    RunKeeps(states, actions, l);
    assert Next(states[l], actions[l], states[l + 1]);
    StepRunsDown(states[l], actions[l], states[l + 1]);
  }

  lemma OneMoreAction(actions: seq<Action>, i: nat, j: nat)
    requires i <= j < |actions|
    ensures Ticks(actions[i..j + 1]) == Ticks(actions[i..j]) + if actions[j].DoTick? then 1 else 0
  {
    assert actions[i..j + 1][..j - i] == actions[i..j];
    assert actions[i..j + 1][j - i] == actions[j];
  }

  lemma {:induction false} CountDown(states: seq<Kernel>, actions: seq<Action>, i: nat, j: nat)
    requires i <= j <= |actions| && j < |states| && states[i].current in states[i].threads
    requires forall l: nat {:trigger RunsDownAt(states, actions, l)} :: i <= l < j ==> RunsDownAt(states, actions, l)
    ensures states[j].current == states[i].current && states[j].current in states[j].threads
    ensures states[j].threads[states[j].current].ticks == states[i].threads[states[i].current].ticks - Ticks(actions[i..j])
  {
    if i == j {
      assert actions[i..j] == [];
    } else {
      CountDown(states, actions, i, j - 1);
      assert RunsDownAt(states, actions, j - 1);
      OneMoreAction(actions, i, j - 1);
    }
  }

  /**
   A thread that was selected at step i keeps the CPU until it is given away,
   and has one tick less for each clock tick since.
   */
  lemma QuantumRunsDown(states: seq<Kernel>, actions: seq<Action>, i: nat, j: nat)
    requires IsRun(states, actions) && i < j <= |actions| && SelectsAt(states, actions, i)
    requires forall l :: i < l < j ==> !SelectsAt(states, actions, l)
    ensures states[j].current == states[i + 1].current && states[j].current in states[j].threads
    ensures states[j].threads[states[j].current].ticks == 12 - Ticks(actions[i + 1..j])
  {
    SelectedHasQuantum(states, actions, i);
    forall l: nat {:trigger RunsDownAt(states, actions, l)} | i + 1 <= l < j ensures RunsDownAt(states, actions, l) {
      RunStepRunsDown(states, actions, l);
    }
    CountDown(states, actions, i + 1, j);
  }

  /** The clock takes the CPU from a thread at the twelfth tick after it was selected, and not before. */
  lemma QuantumIsTwelve(states: seq<Kernel>, actions: seq<Action>, i: nat, j: nat)
    requires IsRun(states, actions) && i < j < |actions| && SelectsAt(states, actions, i)
    requires forall l :: i < l < j ==> !SelectsAt(states, actions, l)
    requires actions[j].DoTick?
    ensures Ticks(actions[i + 1..j + 1]) < 12 ==> states[j + 1].current == states[j].current && states[j + 1].pool == states[j].pool
    ensures Ticks(actions[i + 1..j + 1]) >= 12 <==> SelectsAt(states, actions, j)
  {
    QuantumRunsDown(states, actions, i, j);
    OneMoreAction(actions, i + 1, j);
    assert Next(states[j], actions[j], states[j + 1]);
    if !SelectsAt(states, actions, j) {
      EarlyTick(states[j], actions[j].spare, actions[j].ticket, actions[j].next, states[j + 1]);
    }
  }
}
