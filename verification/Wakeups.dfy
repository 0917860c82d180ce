/** Who is woken, who runs next and in what order: the steps of the scheduler by their effects
    (threads/thread.c, threads/synch.c). */
module Wakeups {
  import opened Lists
  import opened Semaphores
  import opened Scheduler

  // ---------------------------------------------------------------
  // The effect of one step
  // ---------------------------------------------------------------

  /** The thread that a step makes ready, if any: for sema_up the one that has waited longest. */
  ghost function Woke(k: Kernel, step: Step): seq<Tid>
    requires Legal(k, step)
  {
    match step
    case UpStep(s) => if k.semas[s].waiters == [] then [] else [k.semas[s].waiters[0]]
    case UnblockStep(t) => [t]
    case CreateStep(t) => [t]
    case _ => []
  }

  /** What the thread that leaves the processor becomes. */
  ghost function LeavesAs(step: Step): Status {
    match step
    case YieldStep => Ready
    case ExitStep => Dying
    case _ => Blocked
  }

  /** The state after a switch: the head of the ready list runs, or the idle thread when there is
      none; a thread that yields is last in line; the one that leaves takes its new status, or
      is gone; no other thread is touched. */
  ghost predicate Switched(k: Kernel, k': Kernel, st: Status) {
    && var prev := k.current;
       var line := if st == Ready && prev != k.idle then k.ready + [prev] else k.ready;
       && (if line == [] then k'.current == k.idle && k'.ready == [] else [k'.current] + k'.ready == line)
       && HasStatus(k', k'.current, Running)
       && (prev != k'.current ==>
             if st == Dying && prev != k.main then prev !in k'.status else HasStatus(k', prev, st))
       && forall t | t != prev && t != k'.current :: SameStatus(k, k', t)
  }

  ghost predicate SameStatus(k: Kernel, k': Kernel, t: Tid) {
    (t in k'.status <==> t in k.status) && (t in k.status ==> k'.status[t] == k.status[t])
  }

  /** The state after a step that switches to no other thread: those woken are last in line and
      ready, and no other thread is touched. */
  ghost predicate Stayed(k: Kernel, k': Kernel, woken: seq<Tid>) {
    && k'.current == k.current && k'.ready == k.ready + woken
    && forall t :: if t in woken then HasStatus(k', t, Ready) else SameStatus(k, k', t)
  }

  /** Every step is one or the other. */
  lemma StepEffect(k: Kernel, step: Step)
    requires Inv(k) && Legal(k, step)
    ensures if Switches(k, step) then Switched(k, Next(k, step), LeavesAs(step))
            else Stayed(k, Next(k, step), Woke(k, step))
  {
    hide Inv, Next, Stayed, Switched;
    if Switches(k, step) { SwitchEffect(k, step); } else { StayEffect(k, step); }
  }

  lemma LeaveEffect(k: Kernel, st: Status)
    requires StatusOk(k.status, k.ready, k.current, k.idle, k.main) && st != Running
    requires st == Dying ==> k.current != k.idle
    ensures Switched(k, Leave(k, st), st)
  {
    hide Leave, StatusOk;
    LeaveParts(k, st);
  }

  lemma SwitchedFrame(k1: Kernel, k: Kernel, k': Kernel, st: Status)
    requires Switched(k1, k', st)
    requires k1.status == k.status && k1.ready == k.ready && k1.current == k.current && k1.idle == k.idle
    requires k1.main == k.main
    ensures Switched(k, k', st)
  {
    forall t | t != k.current && t != k'.current
      ensures SameStatus(k, k', t)
    {
      assert SameStatus(k1, k', t);
    }
  }

  lemma SwitchEffect(k: Kernel, step: Step)
    requires Inv(k) && Legal(k, step) && Switches(k, step)
    ensures Switched(k, Next(k, step), LeavesAs(step))
  {
    hide StatusOk, WaitersOk, NoLostWakeup, Counted, Leave, Block, Yield, Exit;
    BlockIsLeave(k);
    match step
    case YieldStep => LeaveEffect(k, Ready);
    case ExitStep => LeaveEffect(k, Dying);
    case BlockStep => LeaveEffect(k, Blocked);
    case DownStep(s) =>
      var k1 := k.(semas := k.semas[s := Joined(k.semas[s], k.current)], inDown := k.inDown[k.current := s]);
      BlockIsLeave(k1);
      LeaveEffect(k1, Blocked);
      SwitchedFrame(k1, k, Leave(k1, Blocked), Blocked);
  }

  lemma StayEffect(k: Kernel, step: Step)
    requires Inv(k) && Legal(k, step) && !Switches(k, step)
    ensures Stayed(k, Next(k, step), Woke(k, step))
  {
    hide Inv;
    match step
    case UpStep(s) =>
      if k.semas[s].waiters != [] { WaiterSleeps(k, s, 0); }
    case DownStep(_) =>
    case TryDownStep(_) =>
    case InitStep(_, _) =>
    case UnblockStep(_) =>
    case CreateStep(_) =>
  }

  /** One semaphore across one step: sema_up adds a unit and drops the first waiter, sema_down takes
      a unit or lets the caller join as the last waiter, sema_try_down takes a unit if there is
      one, and no other step touches it. */
  ghost predicate SemaphoreMoves(k: Kernel, step: Step, s: SemaId, a: Sema, b: Sema) {
    if step == UpStep(s) then
      b.value == a.value + 1 && (if a.waiters == [] then b.waiters == [] else a.waiters == [a.waiters[0]] + b.waiters)
    else if (step == DownStep(s) || step == TryDownStep(s)) && a.value > 0 then
      b.value == a.value - 1 && b.waiters == a.waiters
    else if step == DownStep(s) then
      b.value == 0 && b.waiters == a.waiters + [k.current]
    else b == a
  }

  lemma SemaphoreAfter(k: Kernel, step: Step, s: SemaId)
    requires Legal(k, step) && s in k.semas && Inv(k)
    ensures s in Next(k, step).semas && SemaphoreMoves(k, step, s, k.semas[s], Next(k, step).semas[s])
  {
    hide Inv, Next, SemaphoreMoves;
    match step
    case UpStep(r) => UpMoves(k, r, s);
    case DownStep(r) => DownMoves(k, r, s);
    case _ => OthersMove(k, step, s);
  }

  lemma UpMoves(k: Kernel, r: SemaId, s: SemaId)
    requires Legal(k, UpStep(r)) && s in k.semas && Inv(k)
    ensures var k' := Next(k, UpStep(r));
            s in k'.semas && SemaphoreMoves(k, UpStep(r), s, k.semas[s], k'.semas[s])
  {
    hide Inv;
    if k.semas[r].waiters != [] { WaiterSleeps(k, r, 0); }
  }

  lemma DownMoves(k: Kernel, r: SemaId, s: SemaId)
    requires Legal(k, DownStep(r)) && s in k.semas
    ensures var k' := Next(k, DownStep(r));
            s in k'.semas && SemaphoreMoves(k, DownStep(r), s, k.semas[s], k'.semas[s])
  {
  }

  lemma OthersMove(k: Kernel, step: Step, s: SemaId)
    requires Legal(k, step) && s in k.semas && !step.UpStep? && !step.DownStep?
    ensures s in Next(k, step).semas && SemaphoreMoves(k, step, s, k.semas[s], Next(k, step).semas[s])
  {
    match step
    case TryDownStep(_) =>
    case InitStep(_, _) =>
    case _ =>
  }

  // ---------------------------------------------------------------
  // First come, first woken
  // ---------------------------------------------------------------

  /** The calls of sema_up on s among the steps. */
  ghost function UpCount(steps: seq<Step>, s: SemaId): nat
    decreases |steps|
  {
    if steps == [] then 0 else (if steps[0] == UpStep(s) then 1 else 0) + UpCount(steps[1..], s)
  }

  lemma WaiterAfter(k: Kernel, step: Step, s: SemaId, i: nat)
    requires Inv(k) && Legal(k, step) && s in k.semas && i < |k.semas[s].waiters|
    requires step == UpStep(s) ==> i > 0
    ensures var j := if step == UpStep(s) then i - 1 else i;
            && s in Next(k, step).semas && j < |Next(k, step).semas[s].waiters|
            && Next(k, step).semas[s].waiters[j] == k.semas[s].waiters[i]
  {
    hide Next, Inv;
    SemaphoreAfter(k, step, s);
  }

  /** A thread asleep on a semaphore moves up one place with each sema_up on it, and nothing else
      moves it. */
  lemma {:induction false} WaiterKeepsPlace(k: Kernel, steps: seq<Step>, s: SemaId, i: nat)
    requires Inv(k) && LegalRun(k, steps) && s in k.semas && i < |k.semas[s].waiters| && UpCount(steps, s) <= i
    ensures var k' := Run(k, steps);
            var n := UpCount(steps, s);
            && Inv(k') && s in k'.semas && i - n < |k'.semas[s].waiters|
            && k'.semas[s].waiters[i - n] == k.semas[s].waiters[i]
    decreases |steps|
  {
    hide Inv, Next;
    if steps != [] {
      StepKeeps(k, steps[0]);
      WaiterAfter(k, steps[0], s, i);
      WaiterKeepsPlace(Next(k, steps[0]), steps[1..], s, if steps[0] == UpStep(s) then i - 1 else i);
    }
  }

  lemma WaiterSleeps(k: Kernel, s: SemaId, i: nat)
    requires Inv(k) && s in k.semas && i < |k.semas[s].waiters|
    ensures HasStatus(k, k.semas[s].waiters[i], Blocked) && k.semas[s].waiters[i] !in k.ready
  {
    assert Waits(k.semas, s, k.semas[s].waiters[i]);
  }

  /** The thread at index i of a semaphore's waiters is woken by exactly the (i+1)-th sema_up on it: it is
      asleep in every state before, and that one puts it at the end of the ready list. */
  lemma WokenInOrder(k: Kernel, steps: seq<Step>, s: SemaId, i: nat)
    requires Inv(k) && LegalRun(k, steps) && s in k.semas && i < |k.semas[s].waiters| && UpCount(steps, s) == i
    requires Legal(Run(k, steps), UpStep(s))
    ensures var t, k', k'' := k.semas[s].waiters[i], Run(k, steps), Next(Run(k, steps), UpStep(s));
            && HasStatus(k', t, Blocked) && t !in k'.ready
            && HasStatus(k'', t, Ready) && k''.ready == k'.ready + [t]
  {
    hide Inv, Next, Run, LegalRun;
    WaiterKeepsPlace(k, steps, s, i);
    WaiterSleeps(Run(k, steps), s, 0);
    StepEffect(Run(k, steps), UpStep(s));
    NewlyReady(Run(k, steps), Next(Run(k, steps), UpStep(s)), k.semas[s].waiters[i]);
  }

  lemma NewlyReady(k: Kernel, k': Kernel, t: Tid)
    requires Stayed(k, k', [t])
    ensures HasStatus(k', t, Ready)
  {
    assert t in [t];
  }
}
