/**
 The message-passing and lottery-scheduling state of the kernel, and the atomic
 steps that change it: thread_c (src/kernel/thread_manager/thread.cpp) and
 io_manager_c (src/kernel/io_manager/io_manager.cpp).

 One step is one critical section of the source, so a thread can lose the CPU
 between any two steps.  The only region that runs with interrupts disabled
 across two critical sections is the blocking half of send_message: after a
 blocking put, the only step that can follow is the yield.
 */
module SchedulerState {
  import opened Options

  /** Threads are identified by their id, as thread_c::operator== does. */
  type Tid = nat

  /** The identity of a message object. */
  type Ref = nat

  /** MESSAGE_ID_ATOMIC and the two message types the scheduler itself creates. */
  const ID_ATOMIC: nat := 0xFFFF_FFFF
  const TYPE_NULL: nat := 0x8000_0000
  const TYPE_ABORT: nat := 0x8000_0001

  const MAILBOX_LIMIT: nat := 64
  const QUANTUM: int := 12

  datatype Message = Message(source: Tid, destination: Tid, id: nat, kind: nat, blocking: bool)

  /**
   What a thread is in the middle of.  The calls of a thread form a stack,
   because a device interrupt can make a thread send (and wait) again before
   its earlier calls are finished.
   - Send: inside send_message, between the successful put and the retrieval
     of the reply.
   - Retrieve: inside get_message, between the removal from the mailbox and
     the removal from the ticket pool.
   - Flush: inside delete_messages, between the same two removals.
   */
  datatype Call =
    | Send(recipient: Tid, id: nat)
    | Retrieve(msg: Ref)
    | Flush(victim: Tid, msgs: seq<Ref>)

  datatype RunState = Ready | Blocked

  datatype Thread = Thread(
    state: RunState,
    blockingThread: Option<Tid>,
    blockingId: nat,
    bonus: Option<Ref>,
    enabled: bool,
    queue: seq<Ref>,
    ticks: int,
    calls: seq<Call>)

  /**
   pool is the live part of the ticket pool; index holds the pool_index field
   of each message.
   */
  datatype Kernel = Kernel(
    threads: map<Tid, Thread>,
    messages: map<Ref, Message>,
    pool: seq<Ref>,
    index: map<Ref, nat>,
    current: Tid,
    nullThread: Tid)

  function NewThread(): Thread {
    Thread(Ready, None, 0, None, true, [], 0, [])
  }

  // ----- Blocked-on chains -----------------------------------------------

  ghost predicate LinkAt(threads: map<Tid, Thread>, p: seq<Tid>, i: nat)
    requires i + 1 < |p|
  {
    p[i] in threads && threads[p[i]].blockingThread == Some(p[i + 1])
  }

  /** p follows blocking_thread links. */
  ghost predicate IsPath(threads: map<Tid, Thread>, p: seq<Tid>) {
    && |p| > 0
    && p[|p| - 1] in threads
    && (forall i: nat :: i + 1 < |p| ==> LinkAt(threads, p, i))
  }

  /** p follows blocking_thread links from its first thread until there are no more. */
  ghost predicate IsChain(threads: map<Tid, Thread>, p: seq<Tid>) {
    IsPath(threads, p) && threads[p[|p| - 1]].blockingThread == None
  }

  ghost predicate ChainFromTo(threads: map<Tid, Thread>, p: seq<Tid>, t: Tid, e: Tid) {
    IsChain(threads, p) && p[0] == t && p[|p| - 1] == e
  }

  /** The chain of t ends at e: find_blocking_thread of a blocked t returns e. */
  ghost predicate EndsAt(threads: map<Tid, Thread>, t: Tid, e: Tid) {
    exists p :: ChainFromTo(threads, p, t, e)
  }

  ghost predicate HasChain(threads: map<Tid, Thread>, t: Tid) {
    exists e :: EndsAt(threads, t, e)
  }

  // ----- The ticket pool -------------------------------------------------

  /** What message_pool_c::operator-= reads: the cached index lies inside the pool. */
  predicate Indexed(k: Kernel, m: Ref) {
    m in k.index && k.index[m] < |k.pool|
  }

  function PoolAdd(k: Kernel, m: Ref): Kernel {
    k.(pool := k.pool + [m], index := k.index[m := |k.pool|])
  }

  /** Swap the victim with the last ticket and drop the last slot. */
  function PoolRemove(k: Kernel, m: Ref): Kernel
    requires Indexed(k, m)
  {
    var i := k.index[m];
    var last := |k.pool| - 1;
    k.(pool := k.pool[i := k.pool[last]][..last], index := k.index[k.pool[last] := i])
  }

  // ----- Sending ---------------------------------------------------------

  datatype Status = Success | MailboxDisabled | MessageDeadlock | MailboxOverflow

  predicate Wakes(t: Thread, msg: Message) {
    t.state == Blocked && t.blockingThread == Some(msg.source) && t.blockingId == msg.id
  }

  ghost predicate CausesLoop(k: Kernel, msg: Message) {
    msg.blocking && EndsAt(k.threads, msg.destination, k.current)
  }

  ghost function PutStatus(k: Kernel, msg: Message): Status
    requires msg.destination in k.threads
  {
    var d := k.threads[msg.destination];
    if !d.enabled then MailboxDisabled
    else if CausesLoop(k, msg) then MessageDeadlock
    else if Wakes(d, msg) || |d.queue| < MAILBOX_LIMIT then Success
    else MailboxOverflow
  }

  function Enqueued(d: Thread, m: Ref, msg: Message): Thread {
    if Wakes(d, msg) then d.(state := Ready, blockingThread := None, queue := [m] + d.queue)
    else d.(queue := d.queue + [m])
  }

  function BlockedOn(t: Thread, msg: Message): Thread {
    t.(state := Blocked, blockingThread := Some(msg.destination), blockingId := msg.id,
       calls := t.calls + [Send(msg.destination, msg.id)])
  }

  function Enqueue(k: Kernel, m: Ref, msg: Message): Kernel
    requires msg.destination in k.threads
  {
    k.(threads := k.threads[msg.destination := Enqueued(k.threads[msg.destination], m, msg)],
       messages := k.messages[m := msg])
  }

  function Block(k: Kernel, msg: Message): Kernel
    requires k.current in k.threads
  {
    if msg.blocking then
      k.(threads := k.threads[k.current := BlockedOn(k.threads[k.current], msg)])
    else k
  }

  /** A put that succeeds: mailbox, sender state and ticket pool change together. */
  function Put(k: Kernel, m: Ref, msg: Message): Kernel
    requires msg.destination in k.threads && k.current in k.threads
  {
    PoolAdd(Block(Enqueue(k, m, msg), msg), m)
  }

  // ----- Receiving -------------------------------------------------------

  function TopCall(t: Thread): Option<Call> {
    if t.calls == [] then None else Some(t.calls[|t.calls| - 1])
  }

  predicate InSend(t: Thread) {
    TopCall(t).Some? && TopCall(t).value.Send?
  }

  predicate NoSends(t: Thread) {
    forall c :: c in t.calls ==> !c.Send?
  }

  function DropCall(t: Thread): Thread {
    if t.calls == [] then t else t.(calls := t.calls[..|t.calls| - 1])
  }

  /** First half of get_message: take the head of the mailbox. */
  function Popped(t: Thread): Thread {
    var t' := if InSend(t) then DropCall(t) else t;
    if t.queue == [] then t'
    else t'.(queue := t.queue[1..], calls := t'.calls + [Retrieve(t.queue[0])])
  }

  // ----- Scheduling ------------------------------------------------------

  predicate NeedsBonus(k: Kernel)
    requires k.current in k.threads
  {
    var t := k.threads[k.current];
    k.current != k.nullThread && t.enabled && t.queue == [] && t.bonus == None
  }

  /** maybe_put_bonus_message and the pool insertion that follows it. */
  function GiveBonus(k: Kernel, m: Ref): Kernel
    requires k.current in k.threads
  {
    var k1 := k.(threads := k.threads[k.current := k.threads[k.current].(bonus := Some(m))],
                 messages := k.messages[m := Message(k.nullThread, k.current, ID_ATOMIC, TYPE_NULL, false)]);
    PoolAdd(k1, m)
  }

  /** get_bonus_message and the pool removal that follows it. */
  function DropBonus(k: Kernel, w: Tid): Kernel
    requires w in k.threads && (k.threads[w].bonus.Some? ==> Indexed(k, k.threads[w].bonus.value))
  {
    if k.threads[w].bonus.None? then k
    else PoolRemove(k, k.threads[w].bonus.value).(threads := k.threads[w := k.threads[w].(bonus := None)])
  }

  function Dispatch(k: Kernel, next: Tid): Kernel
    requires next in k.threads
  {
    k.(threads := k.threads[next := k.threads[next].(ticks := QUANTUM)], current := next)
  }

  predicate HasBonusIndexed(k: Kernel, w: Tid) {
    w in k.threads && (k.threads[w].bonus.Some? ==> Indexed(k, k.threads[w].bonus.value))
  }

  /** The thread whose ticket was drawn. */
  function Winner(k: Kernel, ticket: nat): Tid
    requires ticket < |k.pool| && k.pool[ticket] in k.messages
  {
    k.messages[k.pool[ticket]].destination
  }

  /**
   select_next_thread: ticket is the pool slot the random draw hits, next the
   thread that gets the CPU.
   */
  ghost predicate Selects(k: Kernel, ticket: nat, next: Tid, k': Kernel) {
    && k.current in k.threads
    && next in k.threads
    && if k.threads[k.current].blockingThread.Some? then
         EndsAt(k.threads, k.current, next) && k' == Dispatch(k, next)
       else if k.pool == [] then
         EndsAt(k.threads, k.nullThread, next) && k' == Dispatch(k, next)
       else
         && ticket < |k.pool| && k.pool[ticket] in k.messages
         && HasBonusIndexed(k, Winner(k, ticket))
         && EndsAt(k.threads, Winner(k, ticket), next)
         && k' == Dispatch(DropBonus(k, Winner(k, ticket)), next)
  }

  // ----- Deletion --------------------------------------------------------

  function Leftovers(v: Thread): seq<Ref> {
    v.queue + (if v.bonus.Some? then [v.bonus.value] else [])
  }

  /** mark_for_deletion: disable the mailbox and flush it into the caller's list. */
  function Mark(k: Kernel, v: Tid): Kernel
    requires v in k.threads && k.current in k.threads && v != k.current
  {
    var left := Leftovers(k.threads[v]);
    var c := k.threads[k.current];
    k.(threads := k.threads[v := k.threads[v].(enabled := false, queue := [], bonus := None)]
                           [k.current := c.(calls := c.calls + [Flush(v, left)])])
  }

  /** The loop of delete_messages that removes the flushed tickets one by one. */
  ghost predicate RemovesAll(k: Kernel, ms: seq<Ref>, k': Kernel)
    decreases |ms|
  {
    if ms == [] then k' == k
    else Indexed(k, ms[0]) && RemovesAll(PoolRemove(k, ms[0]), ms[1..], k')
  }

  function DropTop(k: Kernel): Kernel
    requires k.current in k.threads
  {
    k.(threads := k.threads[k.current := DropCall(k.threads[k.current])])
  }

  // ----- Steps -----------------------------------------------------------

  datatype Action =
    | DoPut(m: Ref, msg: Message)
    | DoPop
    | DoUnpool
    | DoTick(spare: Ref, ticket: nat, next: Tid)
    | DoYield(ticket: nat, next: Tid)
    | DoMark(victim: Tid)
    | DoFlush
    | DoCreate(tid: Tid)

  ghost predicate PutStep(k: Kernel, m: Ref, msg: Message, k': Kernel) {
    && k.current in k.threads && k.threads[k.current].state == Ready
    && msg.source in k.threads && msg.destination in k.threads
    && (msg.blocking ==> msg.source == k.current)
    && m !in k.pool
    && k' == if PutStatus(k, msg) == Success then Put(k, m, msg) else k
  }

  ghost predicate PopStep(k: Kernel, k': Kernel) {
    && k.current in k.threads && k.threads[k.current].state == Ready
    && (InSend(k.threads[k.current]) || NoSends(k.threads[k.current]))
    && k' == k.(threads := k.threads[k.current := Popped(k.threads[k.current])])
  }

  ghost predicate UnpoolStep(k: Kernel, k': Kernel) {
    && k.current in k.threads && k.threads[k.current].state == Ready
    && TopCall(k.threads[k.current]).Some? && TopCall(k.threads[k.current]).value.Retrieve?
    && Indexed(k, TopCall(k.threads[k.current]).value.msg)
    && k' == PoolRemove(DropTop(k), TopCall(k.threads[k.current]).value.msg)
  }

  /** One clock tick is charged to the running thread. */
  function Charge(k: Kernel): Kernel
    requires k.current in k.threads
  {
    k.(threads := k.threads[k.current := k.threads[k.current].(ticks := k.threads[k.current].ticks - 1)])
  }

  predicate Expires(k: Kernel)
    requires k.current in k.threads
  {
    k.threads[k.current].ticks - 1 <= 0
  }

  function Consoled(k: Kernel, m: Ref): Kernel
    requires k.current in k.threads
  {
    if NeedsBonus(k) then GiveBonus(k, m) else k
  }

  ghost predicate TickStep(k: Kernel, m: Ref, ticket: nat, next: Tid, k': Kernel) {
    && k.current in k.threads && k.threads[k.current].state == Ready
    && m !in k.pool
    && if !Expires(k) then k' == Charge(k)
       else Selects(Consoled(Charge(k), m), ticket, next, k')
  }

  ghost predicate MarkStep(k: Kernel, v: Tid, k': Kernel) {
    && k.current in k.threads && k.threads[k.current].state == Ready
    && v in k.threads && v != k.current
    && k' == Mark(k, v)
  }

  ghost predicate FlushStep(k: Kernel, k': Kernel) {
    && k.current in k.threads && k.threads[k.current].state == Ready
    && TopCall(k.threads[k.current]).Some? && TopCall(k.threads[k.current]).value.Flush?
    && RemovesAll(DropTop(k), TopCall(k.threads[k.current]).value.msgs, k')
  }

  ghost predicate Next(k: Kernel, a: Action, k': Kernel) {
    match a
    case DoPut(m, msg) => PutStep(k, m, msg, k')
    case DoPop => PopStep(k, k')
    case DoUnpool => UnpoolStep(k, k')
    case DoTick(m, ticket, next) => TickStep(k, m, ticket, next, k')
    case DoYield(ticket, next) => Selects(k, ticket, next, k')
    case DoMark(v) => MarkStep(k, v, k')
    case DoFlush => FlushStep(k, k')
    case DoCreate(t) =>
      && k.current in k.threads && k.threads[k.current].state == Ready
      && t !in k.threads && k' == k.(threads := k.threads[t := NewThread()])
  }

  /** After boot: any set of fresh threads, nothing pending. */
  predicate Init(k: Kernel) {
    && k.current in k.threads && k.nullThread in k.threads
    && k.pool == []
    && forall t :: t in k.threads ==> k.threads[t] == NewThread()
  }

  /** A run: states.[i+1] follows from states[i] by actions[i]. */
  ghost predicate IsRun(states: seq<Kernel>, actions: seq<Action>) {
    && |states| == |actions| + 1
    && Init(states[0])
    && forall i :: 0 <= i < |actions| ==> Next(states[i], actions[i], states[i + 1])
  }
}
