/** In what order the threads asleep on a lock are woken (threads/synch.c). */
module LockOrder {
  import opened Lists
  import opened Options
  import opened Semaphores
  import opened Monitor

  // ---------------------------------------------------------------
  // One lock across one step
  // ---------------------------------------------------------------

  /** Is the step the sema_up of lock_release on l? */
  ghost predicate UpOf(m: Monitor, step: Step, l: LockId)
    requires Legal(m, step)
  {
    step.LockUp? && m.pc[step.t].l == l
  }

  /** Is it a test of the loop of sema_down on l, or lock_try_acquire of l? */
  ghost predicate TestOf(m: Monitor, step: Step, l: LockId)
    requires Legal(m, step)
  {
    (step.LockTest? && m.pc[step.t].l == l) || (step.TryAcquire? && step.l == l)
  }

  /** Lock l across a step: sema_up adds the unit and drops the first waiter; a test that finds a
      unit takes it, and one of sema_down that finds none makes its thread the last waiter; no
      other step touches the semaphore. holder is set by the thread that took the unit and
      cleared by lock_release before the unit is given back, by cond_wait too. */
  ghost predicate LockMoves(m: Monitor, step: Step, l: LockId, a: Lock, b: Lock)
    requires Legal(m, step)
  {
    && (if UpOf(m, step, l) then
          && b.sema.value == a.sema.value + 1
          && (if a.sema.waiters == [] then b.sema.waiters == []
              else a.sema.waiters == [a.sema.waiters[0]] + b.sema.waiters)
        else if TestOf(m, step, l) && a.sema.value > 0 then
          b.sema.value == a.sema.value - 1 && b.sema.waiters == a.sema.waiters
        else if TestOf(m, step, l) && step.LockTest? then
          b.sema.value == 0 && b.sema.waiters == a.sema.waiters + [step.t]
        else b.sema == a.sema)
    && (if step.SetHolder? && m.pc[step.t].l == l then b.holder == Some(step.t)
        else if (step.Release? && step.l == l) || (step.WaitRelease? && m.pc[step.t].l == l) then b.holder == None
        else b.holder == a.holder)
  }

  lemma LockAfter(m: Monitor, step: Step, l: LockId)
    requires Legal(m, step) && l in m.locks
    ensures l in Next(m, step).locks && LockMoves(m, step, l, m.locks[l], Next(m, step).locks[l])
  {
    match step
    case Acquire(_, _) =>
    case TryAcquire(_, _) =>
    case LockTest(_) =>
    case SetHolder(_) =>
    case Release(_, _) =>
    case LockUp(_) =>
    case Wait(_, _) =>
    case WaitRelease(_) =>
    case WaiterTest(_) =>
    case Signal(_, _) =>
    case SignalUp(_) =>
  }

  // ---------------------------------------------------------------
  // First come, first woken
  // ---------------------------------------------------------------

  /** The calls of sema_up on l's semaphore in a run. */
  ghost function UpsOf(m: Monitor, steps: seq<Step>, l: LockId): nat
    requires LegalRun(m, steps)
    decreases |steps|
  {
    if steps == [] then 0
    else (if UpOf(m, steps[0], l) then 1 else 0) + UpsOf(Next(m, steps[0]), steps[1..], l)
  }

  lemma SleeperAfter(m: Monitor, step: Step, l: LockId, i: nat)
    requires Legal(m, step) && l in m.locks && i < |m.locks[l].sema.waiters|
    requires UpOf(m, step, l) ==> i > 0
    ensures var j := if UpOf(m, step, l) then i - 1 else i;
            && l in Next(m, step).locks && j < |Next(m, step).locks[l].sema.waiters|
            && Next(m, step).locks[l].sema.waiters[j] == m.locks[l].sema.waiters[i]
  {
    hide Next, Legal;
    LockAfter(m, step, l);
  }

  /** A thread asleep on a lock moves up one place with each release of the lock, and nothing else
      moves it. */
  lemma {:induction false} SleeperKeepsPlace(m: Monitor, steps: seq<Step>, l: LockId, i: nat)
    requires LegalRun(m, steps) && l in m.locks && i < |m.locks[l].sema.waiters| && UpsOf(m, steps, l) <= i
    ensures var m' := Run(m, steps);
            var n := UpsOf(m, steps, l);
            && l in m'.locks && i - n < |m'.locks[l].sema.waiters|
            && m'.locks[l].sema.waiters[i - n] == m.locks[l].sema.waiters[i]
    decreases |steps|
  {
    hide Next, Legal, UpOf;
    if steps != [] {
      SleeperAfter(m, steps[0], l, i);
      SleeperKeepsPlace(Next(m, steps[0]), steps[1..], l, if UpOf(m, steps[0], l) then i - 1 else i);
    }
  }

  /** The thread at index i of the sleepers on a lock is woken by exactly the (i+1)-th sema_up on
      the lock's semaphore: it is asleep in every state before, and after that one it is off the
      list and can test the semaphore again. */
  lemma SleepersWokenInOrder(m0: Monitor, before: seq<Step>, steps: seq<Step>, l: LockId, i: nat, step: Step)
    requires Initial(m0) && LegalRun(m0, before)
    requires var m := Run(m0, before);
             && LegalRun(m, steps) && l in m.locks && i < |m.locks[l].sema.waiters| && UpsOf(m, steps, l) == i
             && Legal(Run(m, steps), step) && UpOf(Run(m, steps), step, l)
    ensures var m := Run(m0, before);
            var t, m', m'' := m.locks[l].sema.waiters[i], Run(m, steps), Next(Run(m, steps), step);
            && l in m'.locks && t in m'.locks[l].sema.waiters && !Legal(m', LockTest(t))
            && l in m''.locks && t !in m''.locks[l].sema.waiters && Legal(m'', LockTest(t))
  {
    hide Inv, Initial, Next, Run, LegalRun, UpOf, Legal;
    InitialInv(m0);
    RunKeeps(m0, before);
    var m := Run(m0, before);
    RunKeeps(m, steps);
    SleeperKeepsPlace(m, steps, l, i);
    FirstIsWoken(Run(m, steps), step, l);
  }

  lemma FirstIsWoken(m: Monitor, step: Step, l: LockId)
    requires Inv(m) && Legal(m, step) && l in m.locks && UpOf(m, step, l) && m.locks[l].sema.waiters != []
    ensures var t, m' := m.locks[l].sema.waiters[0], Next(m, step);
            && !Legal(m, LockTest(t))
            && l in m'.locks && t !in m'.locks[l].sema.waiters && Legal(m', LockTest(t))
  {
    hide Inv, Next;
    StepKeeps(m, step);
    LockAfter(m, step, l);
    StepFrame(m, step);
    SleepsThere(m, l, m.locks[l].sema.waiters[0]);
    NotTwice(m, l);
  }

  lemma SleepsThere(m: Monitor, l: LockId, t: Tid)
    requires Inv(m) && l in m.locks && t in m.locks[l].sema.waiters
    ensures t in m.pc && AtDown(m.pc[t], l)
  {
    assert LockSleepersOk(m.pc, m.locks[l], l);
  }

  lemma NotTwice(m: Monitor, l: LockId)
    requires Inv(m) && l in m.locks && m.locks[l].sema.waiters != []
    ensures var q := m.locks[l].sema.waiters; q[0] !in q[1..]
  {
    assert LockSleepersOk(m.pc, m.locks[l], l);
  }
}
