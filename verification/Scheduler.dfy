/** Threads, the ready list and semaphores as a machine of atomic steps, each running with
    interrupts off (threads/thread.c, threads/synch.c). A failed ASSERT sets panicked. */
module Scheduler {
  import opened Lists
  import opened Semaphores

  type SemaId = nat

  datatype Status = Running | Ready | Blocked | Dying

  /** inDown records the threads that have slept in the loop of sema_down and not yet left it.
      initial, ups and downs are history: each semaphore's initial value, completed sema_up
      calls, and completed sema_down and successful sema_try_down calls. */
  datatype Kernel = Kernel(status: map<Tid, Status>, ready: seq<Tid>, current: Tid, idle: Tid, main: Tid,
                           semas: map<SemaId, Sema>, panicked: bool, inDown: map<Tid, SemaId>,
                           initial: map<SemaId, nat>, ups: map<SemaId, nat>, downs: map<SemaId, nat>)

  // ---------------------------------------------------------------
  // thread.c
  // ---------------------------------------------------------------

  predicate HasStatus(k: Kernel, t: Tid, st: Status) { t in k.status && k.status[t] == st }

  /** next_thread_to_run and the rest of the ready list. */
  function NextThread(k: Kernel): Tid { if k.ready == [] then k.idle else k.ready[0] }

  function RestOfReady(k: Kernel): seq<Tid> { if k.ready == [] then [] else k.ready[1..] }

  /** schedule and thread_schedule_tail: switch to the next thread; a dying previous thread
      other than the initial one is destroyed. */
  function Schedule(k: Kernel): Kernel {
    var next := NextThread(k);
    var prev := k.current;
    var status := k.status[next := Running];
    k.(ready := RestOfReady(k), current := next,
       status := if prev != next && HasStatus(k, prev, Dying) && prev != k.main then status - {prev} else status,
       panicked := k.panicked || HasStatus(k, prev, Running) || next !in k.status)
  }

  /** thread_block. */
  function Block(k: Kernel): Kernel {
    Schedule(k.(status := k.status[k.current := Blocked]))
  }

  /** thread_unblock, which asserts that t is blocked. */
  function Unblock(k: Kernel, t: Tid): Kernel {
    if HasStatus(k, t, Blocked)
    then k.(ready := k.ready + [t], status := k.status[t := Ready])
    else k.(panicked := true)
  }

  /** thread_yield. */
  function Yield(k: Kernel): Kernel {
    Schedule(k.(ready := if k.current != k.idle then k.ready + [k.current] else k.ready,
                status := k.status[k.current := Ready]))
  }

  /** thread_exit. */
  function Exit(k: Kernel): Kernel {
    Schedule(k.(status := k.status[k.current := Dying]))
  }

  /** thread_create of thread t. */
  function Create(k: Kernel, t: Tid): Kernel {
    Unblock(k.(status := k.status[t := Blocked]), t)
  }

  // ---------------------------------------------------------------
  // synch.c
  // ---------------------------------------------------------------

  function SemaInit(k: Kernel, s: SemaId, value: nat): Kernel {
    k.(semas := k.semas[s := Sema(value, [])], initial := k.initial[s := value],
       ups := k.ups[s := 0], downs := k.downs[s := 0])
  }

  /** One test of the loop of sema_down by the current thread: it takes the semaphore and
      leaves, or joins the waiters and sleeps. */
  function SemaDownTest(k: Kernel, s: SemaId): Kernel
    requires s in k.semas && s in k.downs
  {
    var sema := k.semas[s];
    if sema.value == 0 then
      Block(k.(semas := k.semas[s := Joined(sema, k.current)], inDown := k.inDown[k.current := s]))
    else
      k.(semas := k.semas[s := Taken(sema)], inDown := k.inDown - {k.current},
         downs := k.downs[s := k.downs[s] + 1])
  }

  function SemaTryDown(k: Kernel, s: SemaId): Kernel
    requires s in k.semas && s in k.downs
  {
    var sema := k.semas[s];
    if sema.value > 0 then
      k.(semas := k.semas[s := Taken(sema)], downs := k.downs[s := k.downs[s] + 1])
    else k
  }

  function SemaUp(k: Kernel, s: SemaId): Kernel
    requires s in k.semas && s in k.ups
  {
    var sema := k.semas[s];
    var k1 := if sema.waiters != [] then
                Unblock(k.(semas := k.semas[s := sema.(waiters := sema.waiters[1..])]), sema.waiters[0])
              else k;
    var sema1 := k1.semas[s];
    k1.(semas := k1.semas[s := sema1.(value := sema1.value + 1)], ups := k1.ups[s := k1.ups[s] + 1])
  }

  // ---------------------------------------------------------------
  // Steps and runs
  // ---------------------------------------------------------------

  datatype Step =
    | DownStep(s: SemaId)
    | TryDownStep(s: SemaId)
    | UpStep(s: SemaId)
    | InitStep(s: SemaId, value: nat)
    | YieldStep
    | ExitStep
    | BlockStep
    | UnblockStep(t: Tid)
    | CreateStep(t: Tid)

  /** What the callers see to. A thread inside sema_down does nothing but test again; the idle
      thread never waits on a semaphore and never exits; thread_unblock is called directly only
      on a thread that called thread_block directly, and not on the idle thread. sema_up and
      sema_try_down may come from interrupt handlers, whoever is running. */
  predicate Legal(k: Kernel, step: Step) {
    match step
    case DownStep(s) => s in k.semas && s in k.downs && k.current != k.idle
        && (k.current in k.inDown ==> k.inDown[k.current] == s)
    case TryDownStep(s) => s in k.semas && s in k.downs
    case UpStep(s) => s in k.semas && s in k.ups
    case InitStep(s, _) => s !in k.semas
    case YieldStep => k.current !in k.inDown
    case ExitStep => k.current !in k.inDown && k.current != k.idle
    case BlockStep => k.current !in k.inDown
    case UnblockStep(t) => HasStatus(k, t, Blocked) && t != k.idle && t !in k.inDown
    case CreateStep(t) => t !in k.status
  }

  function Next(k: Kernel, step: Step): Kernel
    requires Legal(k, step)
  {
    match step
    case DownStep(s) => SemaDownTest(k, s)
    case TryDownStep(s) => SemaTryDown(k, s)
    case UpStep(s) => SemaUp(k, s)
    case InitStep(s, value) => SemaInit(k, s, value)
    case YieldStep => Yield(k)
    case ExitStep => Exit(k)
    case BlockStep => Block(k)
    case UnblockStep(t) => Unblock(k, t)
    case CreateStep(t) => Create(k, t)
  }

  predicate LegalRun(k: Kernel, steps: seq<Step>)
    decreases |steps|
  {
    steps != [] ==> Legal(k, steps[0]) && LegalRun(Next(k, steps[0]), steps[1..])
  }

  function Run(k: Kernel, steps: seq<Step>): Kernel
    requires LegalRun(k, steps)
    decreases |steps|
  {
    if steps == [] then k else Run(Next(k, steps[0]), steps[1..])
  }

  /** After thread_start: the initial thread runs, the idle thread sleeps. */
  ghost function Started(main: Tid, idle: Tid): Kernel {
    Kernel(map[main := Running, idle := Blocked], [], main, idle, main, map[], false, map[], map[], map[], map[])
  }

  // ---------------------------------------------------------------
  // The invariant
  // ---------------------------------------------------------------


  /** The running thread is the only one RUNNING; a thread other than idle is on the ready
      list, once, exactly when READY; only the initial thread stays behind DYING. */
  ghost predicate StatusOk(status: map<Tid, Status>, ready: seq<Tid>, current: Tid, idle: Tid, main: Tid) {
    && OneRunning(status, current)
    && NoRepeats(ready) && ListedAreReady(status, ready, idle) && ReadyAreListed(status, ready, idle)
    && idle in status && status[idle] != Dying
    && DyingIsMain(status, main)
  }

  ghost predicate OneRunning(status: map<Tid, Status>, current: Tid) {
    && current in status && status[current] == Running
    && forall t | t in status && t != current :: status[t] != Running
  }

  ghost predicate ListedAreReady(status: map<Tid, Status>, ready: seq<Tid>, idle: Tid) {
    forall i | 0 <= i < |ready| :: ready[i] in status && status[ready[i]] == Ready && ready[i] != idle
  }

  ghost predicate ReadyAreListed(status: map<Tid, Status>, ready: seq<Tid>, idle: Tid) {
    forall t | t in status && status[t] == Ready && t != idle :: t in ready
  }

  ghost predicate DyingIsMain(status: map<Tid, Status>, main: Tid) {
    forall t | t in status && status[t] == Dying :: t == main
  }

  ghost predicate Waits(semas: map<SemaId, Sema>, s: SemaId, t: Tid) { s in semas && t in semas[s].waiters }

  /** A waiter is BLOCKED in sema_down on that semaphore and on no other list; a thread
      asleep in sema_down is a waiter. */
  ghost predicate WaitersOk(semas: map<SemaId, Sema>, inDown: map<Tid, SemaId>, status: map<Tid, Status>, idle: Tid) {
    && (forall s | s in semas :: NoRepeats(semas[s].waiters))
    && (forall s, t | Waits(semas, s, t) :: t in inDown && inDown[t] == s && t in status && status[t] == Blocked)
    && (forall t | t in inDown :: t != idle && inDown[t] in semas && t in status && status[t] != Dying
                                   && (status[t] == Blocked ==> Waits(semas, inDown[t], t)))
  }

  /** The threads popped from the waiters of s by sema_up that have not run again. */
  ghost function Woken(semas: map<SemaId, Sema>, inDown: map<Tid, SemaId>, s: SemaId): set<Tid> {
    set t | t in inDown && inDown[t] == s && !Waits(semas, s, t)
  }

  ghost predicate NoLostWakeup(semas: map<SemaId, Sema>, inDown: map<Tid, SemaId>, s: SemaId)
    requires s in semas
  {
    NoneLost(semas[s], Woken(semas, inDown, s))
  }

  ghost predicate Counted(k: Kernel, s: SemaId)
    requires s in k.semas
  {
    && s in k.initial && s in k.ups && s in k.downs
    && k.downs[s] + k.semas[s].value == k.initial[s] + k.ups[s]
  }

  ghost predicate Inv(k: Kernel) {
    && !k.panicked
    && StatusOk(k.status, k.ready, k.current, k.idle, k.main)
    && WaitersOk(k.semas, k.inDown, k.status, k.idle)
    && (forall s | s in k.semas :: NoLostWakeup(k.semas, k.inDown, s))
    && (forall s | s in k.semas :: Counted(k, s))
  }

  lemma StartedInv(main: Tid, idle: Tid)
    requires main != idle
    ensures Inv(Started(main, idle))
  {
  }

  // ---------------------------------------------------------------
  // Scheduling keeps the thread lists
  // ---------------------------------------------------------------

  /** The current thread leaves the processor with status st, onto the ready list if READY. */
  ghost function Leave(k: Kernel, st: Status): Kernel {
    Schedule(k.(ready := if st == Ready && k.current != k.idle then k.ready + [k.current] else k.ready,
                status := k.status[k.current := st]))
  }

  /** The ready list as it is when the next thread is chosen. */
  ghost function Queue(k: Kernel, st: Status): seq<Tid> {
    if st == Ready && k.current != k.idle then k.ready + [k.current] else k.ready
  }

  ghost function Chosen(k: Kernel, st: Status): Tid {
    if Queue(k, st) == [] then k.idle else Queue(k, st)[0]
  }

  /** What leaving the processor does to each thread's status. */
  ghost function StatusAfter(k: Kernel, st: Status): map<Tid, Status> {
    var m := k.status[k.current := st][Chosen(k, st) := Running];
    if k.current != Chosen(k, st) && st == Dying && k.current != k.main then m - {k.current} else m
  }

  lemma LeaveParts(k: Kernel, st: Status)
    requires StatusOk(k.status, k.ready, k.current, k.idle, k.main) && st != Running
    requires st == Dying ==> k.current != k.idle
    ensures Chosen(k, st) in k.status
    ensures Leave(k, st) == k.(ready := if Queue(k, st) == [] then [] else Queue(k, st)[1..],
                               current := Chosen(k, st), status := StatusAfter(k, st))
  {
    QueueReady(k, st);
    var q := Queue(k, st);
    assert Leave(k, st) == Schedule(k.(ready := q, status := k.status[k.current := st]));
  }

  /** Taking the head of the ready list to run it. */
  lemma PopReady(status: map<Tid, Status>, q: seq<Tid>, idle: Tid)
    requires q != [] && NoRepeats(q) && ListedAreReady(status, q, idle) && ReadyAreListed(status, q, idle)
    ensures NoRepeats(q[1..])
    ensures ListedAreReady(status[q[0] := Running], q[1..], idle)
            && ReadyAreListed(status[q[0] := Running], q[1..], idle)
  {
    forall t | t in status && status[t] == Ready && t != idle && t != q[0]
      ensures t in q[1..]
    {
      assert t in q;
      assert q == [q[0]] + q[1..];
    }
  }

  lemma QueueDistinct(k: Kernel, st: Status)
    requires StatusOk(k.status, k.ready, k.current, k.idle, k.main)
    ensures NoRepeats(Queue(k, st))
  {
    CurrentNotReady(k);
  }

  lemma ForgetDying(status: map<Tid, Status>, q: seq<Tid>, idle: Tid, t: Tid)
    requires ListedAreReady(status, q, idle) && ReadyAreListed(status, q, idle) && t in status && status[t] == Dying
    ensures ListedAreReady(status - {t}, q, idle) && ReadyAreListed(status - {t}, q, idle)
  {
  }

  lemma LeaveStatusOk(k: Kernel, st: Status)
    requires StatusOk(k.status, k.ready, k.current, k.idle, k.main) && st != Running
    requires st == Dying ==> k.current != k.idle
    ensures var k' := Leave(k, st);
            StatusOk(k'.status, k'.ready, k'.current, k.idle, k.main)
  {
    hide Leave, Schedule, Queue, NoRepeats, ListedAreReady, ReadyAreListed;
    LeaveParts(k, st);
    QueueReady(k, st);
    QueueDistinct(k, st);
    var q, next, m := Queue(k, st), Chosen(k, st), k.status[k.current := st];
    if q == [] {
      EmptyReady(m, k.idle);
    } else {
      PopReady(m, q, k.idle);
    }
    if k.current != next && st == Dying && k.current != k.main {
      ForgetDying(m[next := Running], if q == [] then [] else q[1..], k.idle, k.current);
    }
    NoneListed();
  }

  lemma EmptyReady(status: map<Tid, Status>, idle: Tid)
    requires ReadyAreListed(status, [], idle)
    ensures ListedAreReady(status[idle := Running], [], idle) && ReadyAreListed(status[idle := Running], [], idle)
  {
  }

  lemma NoneListed()
    ensures NoRepeats<Tid>([])
  {
  }

  /** Who runs next, and whose status changes. */
  lemma LeaveFrame(k: Kernel, st: Status)
    requires StatusOk(k.status, k.ready, k.current, k.idle, k.main) && st != Running
    requires st == Dying ==> k.current != k.idle
    ensures var k' := Leave(k, st);
            && k' == k.(ready := k'.ready, current := k'.current, status := k'.status)
            && (forall t | t != k'.current && t != k.current :: (t in k.status <==> t in k'.status)
                  && (t in k.status ==> k'.status[t] == k.status[t]))
            && (k'.current != k.current ==>
                          k'.current in k.status && (k.status[k'.current] == Ready || k'.current == k.idle))
            && (k'.current == k.current ==> st == Ready || k.current == k.idle)
            && (k'.current != k.current && st != Dying ==> HasStatus(k', k.current, st))
            && HasStatus(k', k'.current, Running)
  {
    hide Leave, Schedule, NoRepeats, ReadyAreListed, DyingIsMain;
    LeaveParts(k, st);
    QueueReady(k, st);
  }

  lemma CurrentNotReady(k: Kernel)
    requires StatusOk(k.status, k.ready, k.current, k.idle, k.main)
    ensures k.current !in k.ready
  {
  }

  lemma QueueReady(k: Kernel, st: Status)
    requires StatusOk(k.status, k.ready, k.current, k.idle, k.main) && st != Running
    ensures var m := k.status[k.current := st];
            && ListedAreReady(m, Queue(k, st), k.idle) && ReadyAreListed(m, Queue(k, st), k.idle)
  {
    CurrentNotReady(k);
  }

  // ---------------------------------------------------------------
  // Every step keeps the invariant
  // ---------------------------------------------------------------

  ghost predicate NoLost(semas: map<SemaId, Sema>, inDown: map<Tid, SemaId>) {
    forall s | s in semas :: NoLostWakeup(semas, inDown, s)
  }

  /** A switch of threads leaves sema_down's bookkeeping valid when the thread that leaves is
      not in it, or goes to sleep as a waiter. */
  lemma LeaveWaiters(k: Kernel, st: Status)
    requires StatusOk(k.status, k.ready, k.current, k.idle, k.main) && st != Running
    requires st == Dying ==> k.current != k.idle
    requires WaitersOk(k.semas, k.inDown, k.status[k.current := st], k.idle)
    requires k.current !in k.inDown || st == Blocked
    ensures var k' := Leave(k, st); WaitersOk(k'.semas, k'.inDown, k'.status, k.idle)
  {
    hide StatusOk, Leave, NoRepeats;
    LeaveFrame(k, st);
    var k' := Leave(k, st);
    forall s, t | Waits(k.semas, s, t)
      ensures t in k'.status && k'.status[t] == Blocked
    {
      assert t in k.inDown && k.status[k.current := st][t] == Blocked;
      assert t != k.idle;
      if t == k'.current {
        assert false;
      }
    }
  }

  lemma BlockIsLeave(k: Kernel)
    ensures Block(k) == Leave(k, Blocked) && Yield(k) == Leave(k, Ready) && Exit(k) == Leave(k, Dying)
  {
  }

  lemma StatusChangeOutside(k: Kernel, st: Status)
    requires Inv(k) && k.current !in k.inDown && st != Running
    ensures WaitersOk(k.semas, k.inDown, k.status[k.current := st], k.idle)
  {
  }

  /** thread_yield, thread_exit and direct thread_block. */
  lemma LeaveKeeps(k: Kernel, st: Status)
    requires Inv(k) && k.current !in k.inDown && st != Running
    requires st == Dying ==> k.current != k.idle
    ensures Inv(Leave(k, st))
  {
    hide Leave, StatusOk, WaitersOk, NoLostWakeup;
    StatusChangeOutside(k, st);
    LeaveWaiters(k, st);
    LeaveStatusOk(k, st);
    LeaveFrame(k, st);
  }

  /** A thread that thread_unblock readies. */
  lemma UnblockStatus(status: map<Tid, Status>, ready: seq<Tid>, current: Tid, idle: Tid, main: Tid, t: Tid)
    requires StatusOk(status, ready, current, idle, main) && t in status && status[t] == Blocked && t != idle
    ensures StatusOk(status[t := Ready], ready + [t], current, idle, main)
  {
    assert t !in ready;
    forall u | u in status[t := Ready] && status[t := Ready][u] == Ready && u != idle
      ensures u in ready + [t]
    {
    }
  }

  lemma UnblockKeeps(k: Kernel, t: Tid)
    requires Inv(k) && HasStatus(k, t, Blocked) && t != k.idle && t !in k.inDown
    ensures Inv(Unblock(k, t))
  {
    hide StatusOk, NoLostWakeup, NoRepeats;
    UnblockStatus(k.status, k.ready, k.current, k.idle, k.main, t);
  }

  lemma CreateKeeps(k: Kernel, t: Tid)
    requires Inv(k) && t !in k.status
    ensures Inv(Create(k, t))
  {
    hide NoLostWakeup, NoRepeats;
    var k1 := k.(status := k.status[t := Blocked]);
    assert Inv(k1);
    assert t !in k.inDown && t != k.idle;
    UnblockKeeps(k1, t);
  }

  lemma InitKeeps(k: Kernel, s: SemaId, value: nat)
    requires Inv(k) && s !in k.semas
    ensures Inv(SemaInit(k, s, value))
  {
    hide StatusOk, NoRepeats, WaitersOk;
    var k' := SemaInit(k, s, value);
    InitWaiters(k, s, value);
    forall r | r in k.semas
      ensures NoLostWakeup(k'.semas, k.inDown, r)
    {
      assert Woken(k'.semas, k.inDown, r) == Woken(k.semas, k.inDown, r);
    }
  }

  lemma InitWaiters(k: Kernel, s: SemaId, value: nat)
    requires WaitersOk(k.semas, k.inDown, k.status, k.idle) && s !in k.semas
    ensures var k' := SemaInit(k, s, value);
            WaitersOk(k'.semas, k'.inDown, k'.status, k'.idle) && forall r, t :: Waits(k'.semas, r, t) <==>
                  Waits(k.semas, r, t)
  {
    var k' := SemaInit(k, s, value);
    forall r, t
      ensures Waits(k'.semas, r, t) <==> Waits(k.semas, r, t)
    {
    }
  }

  lemma WokenSame(semas: map<SemaId, Sema>, semas': map<SemaId, Sema>, inDown: map<Tid, SemaId>, inDown': map<Tid,
                  SemaId>, s: SemaId)
    requires forall t :: (t in inDown && inDown[t] == s && !Waits(semas, s, t)) <==>
               (t in inDown' && inDown'[t] == s && !Waits(semas', s, t))
    ensures Woken(semas, inDown, s) == Woken(semas', inDown', s)
  {
  }

  /** Taking a unit without waiting: a passer-by who barges in, or a woken thread. */
  lemma TakeKeeps(k: Kernel, s: SemaId, inDown': map<Tid, SemaId>)
    requires Inv(k) && s in k.semas && k.semas[s].value > 0
    requires inDown' == k.inDown || (k.current in k.inDown && k.inDown[k.current] == s
             && inDown' == k.inDown - {k.current})
    ensures var semas' := k.semas[s := k.semas[s].(value := k.semas[s].value - 1)];
            WaitersOk(semas', inDown', k.status, k.idle) && NoLost(semas', inDown')
  {
    hide StatusOk;
    var semas' := k.semas[s := k.semas[s].(value := k.semas[s].value - 1)];
    assert HasStatus(k, k.current, Running) by { CurrentRuns(k); }
    assert forall r, t :: Waits(semas', r, t) <==> Waits(k.semas, r, t);
    forall r | r in semas'
      ensures NoLostWakeup(semas', inDown', r)
    {
      assert NoLostWakeup(k.semas, k.inDown, r);
      if r == s && inDown' != k.inDown {
        assert !Waits(k.semas, s, k.current);
        assert Woken(semas', inDown', s) == Woken(k.semas, k.inDown, s) - {k.current};
        assert k.current in Woken(k.semas, k.inDown, s);
      } else {
        WokenSame(k.semas, semas', k.inDown, inDown', r);
      }
    }
  }

  lemma CurrentRuns(k: Kernel)
    requires Inv(k)
    ensures HasStatus(k, k.current, Running)
  {
  }

  /** Joining the waiters of a semaphore without units. */
  lemma JoinWaiters(k: Kernel, s: SemaId)
    requires Inv(k) && s in k.semas && k.semas[s].value == 0 && k.current != k.idle
    requires k.current in k.inDown ==> k.inDown[k.current] == s
    ensures var sema := k.semas[s];
            var semas' := k.semas[s := sema.(waiters := sema.waiters + [k.current])];
            var inDown' := k.inDown[k.current := s];
            WaitersOk(semas', inDown', k.status[k.current := Blocked], k.idle) && NoLost(semas', inDown')
  {
    hide StatusOk;
    CurrentRuns(k);
    var sema := k.semas[s];
    var semas' := k.semas[s := sema.(waiters := sema.waiters + [k.current])];
    var inDown' := k.inDown[k.current := s];
    assert !Waits(k.semas, s, k.current);
    assert NoRepeats(semas'[s].waiters);
    forall r, t
      ensures Waits(semas', r, t) <==> Waits(k.semas, r, t) || (r == s && t == k.current)
    {
    }
    forall r | r in semas' && r != s
      ensures NoLostWakeup(semas', inDown', r)
    {
      assert NoLostWakeup(k.semas, k.inDown, r);
      WokenSame(k.semas, semas', k.inDown, inDown', r);
    }
  }

  lemma SleepKeeps(k: Kernel, s: SemaId)
    requires Inv(k) && s in k.semas && k.semas[s].value == 0 && k.current != k.idle
    requires k.current in k.inDown ==> k.inDown[k.current] == s
    ensures s in k.downs && Inv(SemaDownTest(k, s))
  {
    hide StatusOk, WaitersOk, NoLostWakeup, Leave, Block;
    var sema := k.semas[s];
    var k1 := k.(semas := k.semas[s := sema.(waiters := sema.waiters + [k.current])],
        inDown := k.inDown[k.current := s]);
    JoinWaiters(k, s);
    BlockIsLeave(k1);
    LeaveWaiters(k1, Blocked);
    LeaveStatusOk(k1, Blocked);
    LeaveFrame(k1, Blocked);
  }

  /** Popping the first waiter makes it one of the woken. */
  lemma PopWaiter(k: Kernel, s: SemaId)
    requires Inv(k) && s in k.semas && k.semas[s].waiters != []
    ensures var sema := k.semas[s];
            var t := sema.waiters[0];
            var semas' := k.semas[s := Sema(sema.value + 1, sema.waiters[1..])];
            && HasStatus(k, t, Blocked) && t != k.idle
            && WaitersOk(semas', k.inDown, k.status[t := Ready], k.idle) && NoLost(semas', k.inDown)
  {
    hide StatusOk;
    var sema := k.semas[s];
    var t := sema.waiters[0];
    var semas' := k.semas[s := Sema(sema.value + 1, sema.waiters[1..])];
    assert Waits(k.semas, s, t);
    assert sema.waiters == [t] + sema.waiters[1..];
    assert t !in sema.waiters[1..];
    assert NoRepeats(sema.waiters[1..]);
    forall r, u
      ensures Waits(semas', r, u) <==> Waits(k.semas, r, u) && !(r == s && u == t)
    {
    }
    forall r | r in semas'
      ensures NoLostWakeup(semas', k.inDown, r)
    {
      assert NoLostWakeup(k.semas, k.inDown, r);
      if r == s {
        assert Woken(semas', k.inDown, s) == Woken(k.semas, k.inDown, s) + {t};
        assert t !in Woken(k.semas, k.inDown, s);
      } else {
        WokenSame(k.semas, semas', k.inDown, k.inDown, r);
      }
    }
  }

  lemma UpKeeps(k: Kernel, s: SemaId)
    requires Inv(k) && s in k.semas
    ensures s in k.ups && Inv(SemaUp(k, s))
  {
    hide StatusOk, WaitersOk, NoLostWakeup;
    var sema := k.semas[s];
    if sema.waiters != [] {
      PopWaiter(k, s);
      UnblockStatus(k.status, k.ready, k.current, k.idle, k.main, sema.waiters[0]);
      assert SemaUp(k, s).semas == k.semas[s := Sema(sema.value + 1, sema.waiters[1..])];
    } else {
      UpAlone(k, s);
    }
  }

  lemma UpAlone(k: Kernel, s: SemaId)
    requires Inv(k) && s in k.semas && k.semas[s].waiters == []
    ensures var semas' := k.semas[s := Sema(k.semas[s].value + 1, [])];
            WaitersOk(semas', k.inDown, k.status, k.idle) && NoLost(semas', k.inDown)
  {
    hide StatusOk;
    var semas' := k.semas[s := Sema(k.semas[s].value + 1, [])];
    assert forall r, t :: Waits(semas', r, t) <==> Waits(k.semas, r, t);
    forall r | r in semas' && r != s
      ensures NoLostWakeup(semas', k.inDown, r)
    {
      assert NoLostWakeup(k.semas, k.inDown, r);
      WokenSame(k.semas, semas', k.inDown, k.inDown, r);
    }
  }

  lemma StepKeeps(k: Kernel, step: Step)
    requires Inv(k) && Legal(k, step)
    ensures Inv(Next(k, step))
  {
    hide StatusOk, WaitersOk, NoLostWakeup, Leave, Block, Yield, Exit, Unblock, Create;
    BlockIsLeave(k);
    match step
    case DownStep(s) =>
      if k.semas[s].value == 0 {
        SleepKeeps(k, s);
      } else {
        DownTakes(k, s);
      }
    case TryDownStep(s) =>
      if k.semas[s].value > 0 { TakeKeeps(k, s, k.inDown); }
    case UpStep(s) => UpKeeps(k, s);
    case InitStep(s, value) => InitKeeps(k, s, value);
    case YieldStep => LeaveKeeps(k, Ready);
    case ExitStep => LeaveKeeps(k, Dying);
    case BlockStep => LeaveKeeps(k, Blocked);
    case UnblockStep(t) => UnblockKeeps(k, t);
    case CreateStep(t) => CreateKeeps(k, t);
  }

  lemma DownTakes(k: Kernel, s: SemaId)
    requires Inv(k) && s in k.semas && k.semas[s].value > 0
    requires k.current in k.inDown ==> k.inDown[k.current] == s
    ensures s in k.downs && Inv(SemaDownTest(k, s))
  {
    hide StatusOk, WaitersOk, NoLostWakeup;
    if k.current !in k.inDown { assert k.inDown - {k.current} == k.inDown; }
    TakeKeeps(k, s, k.inDown - {k.current});
  }

  // ---------------------------------------------------------------
  // Whole runs
  // ---------------------------------------------------------------

  lemma {:induction false} RunKeeps(k: Kernel, steps: seq<Step>)
    requires Inv(k) && LegalRun(k, steps)
    ensures Inv(Run(k, steps))
    decreases |steps|
  {
    if steps != [] {
      StepKeeps(k, steps[0]);
      RunKeeps(Next(k, steps[0]), steps[1..]);
    }
  }

  /** In every interleaving, completed downs and the value add up to the initial value and the
      ups; and when threads wait on a semaphore that has units, as many woken threads as units
      are ready to run, or running, inside sema_down. */
  lemma SemaphoreLaws(main: Tid, idle: Tid, steps: seq<Step>, s: SemaId)
    requires main != idle && LegalRun(Started(main, idle), steps)
    requires s in Run(Started(main, idle), steps).semas
    ensures var k := Run(Started(main, idle), steps);
            var sema := k.semas[s];
            && s in k.downs && s in k.initial && s in k.ups
            && k.downs[s] + sema.value == k.initial[s] + k.ups[s]
            && NoneLost(sema, Woken(k.semas, k.inDown, s))
            && (forall t | t in Woken(k.semas, k.inDown, s) ::
                 (HasStatus(k, t, Ready) && t in k.ready) || t == k.current)
            && (sema.waiters != [] && sema.value > 0 ==> Woken(k.semas, k.inDown, s) != {})
  {
    StartedInv(main, idle);
    RunKeeps(Started(main, idle), steps);
    var k := Run(Started(main, idle), steps);
    hide Run, LegalRun, NoRepeats;
    assert NoLostWakeup(k.semas, k.inDown, s);
  }

  /** No run trips an assertion of thread.c or synch.c; in particular sema_up only ever
      unblocks blocked threads. */
  lemma NoAssertionFails(main: Tid, idle: Tid, steps: seq<Step>)
    requires main != idle && LegalRun(Started(main, idle), steps)
    ensures !Run(Started(main, idle), steps).panicked
  {
    StartedInv(main, idle);
    RunKeeps(Started(main, idle), steps);
  }

  /** Where a thread is listed: on the ready list once exactly when READY and not idle, on a
      semaphore's waiters only when BLOCKED, and never on two lists. */
  lemma OneListEach(main: Tid, idle: Tid, steps: seq<Step>, t: Tid)
    requires main != idle && LegalRun(Started(main, idle), steps)
    ensures var k := Run(Started(main, idle), steps);
            && (t in k.ready <==> HasStatus(k, t, Ready) && t != idle)
            && (forall i, j | 0 <= i < |k.ready| && 0 <= j < |k.ready| && k.ready[i] == t && k.ready[j] == t :: i == j)
            && (forall s | Waits(k.semas, s, t) :: HasStatus(k, t, Blocked) && t !in k.ready)
            && (forall r, s | Waits(k.semas, r, t) && Waits(k.semas, s, t) :: r == s)
            && (HasStatus(k, t, Running) <==> t == k.current)
  {
    StartedInv(main, idle);
    RunKeeps(Started(main, idle), steps);
    var k := Run(Started(main, idle), steps);
    RunFrame(Started(main, idle), steps);
    hide Run, LegalRun;
  }

  lemma NextFrame(k: Kernel, step: Step)
    requires Legal(k, step)
    ensures Next(k, step).idle == k.idle && Next(k, step).main == k.main
  {
  }

  lemma {:induction false} RunFrame(k: Kernel, steps: seq<Step>)
    requires LegalRun(k, steps)
    ensures Run(k, steps).idle == k.idle && Run(k, steps).main == k.main
    decreases |steps|
  {
    hide Next;
    if steps != [] {
      NextFrame(k, steps[0]);
      RunFrame(Next(k, steps[0]), steps[1..]);
    }
  }

  // ---------------------------------------------------------------
  // Order of dispatch
  // ---------------------------------------------------------------

  /** Does the step call schedule? */
  ghost predicate Switches(k: Kernel, step: Step)
    requires Legal(k, step)
  {
    step.YieldStep? || step.ExitStep? || step.BlockStep? || (step.DownStep? && k.semas[step.s].value == 0)
  }

  ghost function SwitchCount(k: Kernel, steps: seq<Step>): nat
    requires LegalRun(k, steps)
    decreases |steps|
  {
    if steps == [] then 0
    else (if Switches(k, steps[0]) then 1 else 0) + SwitchCount(Next(k, steps[0]), steps[1..])
  }

  /** One step: a switch takes the head of the ready list, and every step may only append. */
  lemma ReadyAfter(k: Kernel, step: Step, i: nat)
    requires Inv(k) && Legal(k, step) && i < |k.ready|
    ensures var k' := Next(k, step);
            if !Switches(k, step) then i < |k'.ready| && k'.ready[i] == k.ready[i] && k'.current == k.current
            else if i == 0 then k'.current == k.ready[0]
            else i - 1 < |k'.ready| && k'.ready[i - 1] == k.ready[i] && k'.current != k.ready[i]
  {
    hide Inv, Next;
    if Switches(k, step) { SwitchTakesHead(k, step, i); } else { OthersAppend(k, step, i); }
  }

  lemma OthersAppend(k: Kernel, step: Step, i: nat)
    requires Legal(k, step) && i < |k.ready| && !Switches(k, step)
    ensures var k' := Next(k, step);
            i < |k'.ready| && k'.ready[i] == k.ready[i] && k'.current == k.current
  {
    match step
    case DownStep(_) =>
    case TryDownStep(_) =>
    case UpStep(_) =>
    case InitStep(_, _) =>
    case UnblockStep(_) =>
    case CreateStep(_) =>
    case _ =>
  }

  lemma SwitchTakesHead(k: Kernel, step: Step, i: nat)
    requires Inv(k) && Legal(k, step) && i < |k.ready| && Switches(k, step)
    ensures var k' := Next(k, step);
            if i == 0 then k'.current == k.ready[0]
            else i - 1 < |k'.ready| && k'.ready[i - 1] == k.ready[i] && k'.current != k.ready[i]
  {
    hide WaitersOk, NoLostWakeup, ListedAreReady, ReadyAreListed, OneRunning;
  }

  /** Until then a thread on the ready list moves up one place with each switch, and nothing
      else moves it. */
  lemma {:induction false} KeepsPlace(k: Kernel, steps: seq<Step>, i: nat)
    requires Inv(k) && LegalRun(k, steps) && i < |k.ready| && SwitchCount(k, steps) <= i
    ensures var k' := Run(k, steps);
            var n := SwitchCount(k, steps);
            Inv(k') && i - n < |k'.ready| && k'.ready[i - n] == k.ready[i] && k'.current != k.ready[i]
    decreases |steps|
  {
    hide Inv, Next, Switches;
    if steps == [] {
      ListedIsNotCurrent(k, i);
    } else {
      var k1 := Next(k, steps[0]);
      StepKeeps(k, steps[0]);
      ReadyAfter(k, steps[0], i);
      KeepsPlace(k1, steps[1..], if Switches(k, steps[0]) then i - 1 else i);
    }
  }

  lemma ListedIsNotCurrent(k: Kernel, i: nat)
    requires Inv(k) && i < |k.ready|
    ensures k.current != k.ready[i]
  {
  }

  /** The thread at index i of the ready list is dispatched by exactly the (i+1)-th switch: it
      does not run in any state before, and it runs right after that one. */
  lemma DispatchedInOrder(k: Kernel, steps: seq<Step>, step: Step, i: nat)
    requires Inv(k) && LegalRun(k, steps) && i < |k.ready| && SwitchCount(k, steps) == i
    requires Legal(Run(k, steps), step) && Switches(Run(k, steps), step)
    ensures Run(k, steps).current != k.ready[i]
    ensures Next(Run(k, steps), step).current == k.ready[i]
  {
    KeepsPlace(k, steps, i);
    ReadyAfter(Run(k, steps), step, 0);
  }
}
