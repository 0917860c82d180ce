/** Locks and condition variables of threads/synch.c as thread t runs them, from call to return:
    the loops of sema_down and cond_broadcast, and at every point where another thread can run,
    whatever the other threads choose to do there. */
module Locks {
  import opened Options
  import opened Semaphores
  import opened Monitor

  /** What the other threads do the k-th time they get the processor. */
  type Others = (nat, Monitor) -> seq<Step>

  /** They take legal steps, as many as they like, and none for t. */
  ghost predicate LeaveAlone(others: Others, t: Tid) {
    forall k, m :: Inv(m) ==> LegalRun(m, others(k, m)) && NoneBy(others(k, m), t)
  }

  ghost predicate Reached(start: Monitor, history: seq<Step>, m: Monitor) {
    Initial(start) && LegalRun(start, history) && m == Run(start, history)
  }

  lemma ReachedInv(start: Monitor, history: seq<Step>, m: Monitor)
    requires Reached(start, history, m)
    ensures Inv(m)
  {
    hide Inv, Initial;
    InitialInv(start);
    RunKeeps(start, history);
  }

  lemma ReachedMore(start: Monitor, history: seq<Step>, m: Monitor, more: seq<Step>)
    requires Reached(start, history, m) && LegalRun(m, more)
    ensures Reached(start, history + more, Run(m, more))
  {
    RunAppend(start, history, more);
  }

  lemma ReachedStep(start: Monitor, history: seq<Step>, m: Monitor, step: Step)
    requires Reached(start, history, m) && Legal(m, step)
    ensures Reached(start, history + [step], Next(m, step))
  {
    assert LegalRun(Next(m, step), []);
    assert LegalRun(m, [step]) && Run(m, [step]) == Next(m, step);
    ReachedMore(start, history, m, [step]);
  }

  /** What came after a reached state is a run from it. */
  lemma ReachedSince(start: Monitor, history: seq<Step>, m: Monitor, history': seq<Step>, m': Monitor)
    requires Reached(start, history, m) && Reached(start, history', m') && history <= history'
    ensures LegalRun(m, history'[|history|..]) && m' == Run(m, history'[|history|..])
  {
    assert history' == history + history'[|history|..];
    RunSplit(start, history, history'[|history|..]);
  }

  /** Asleep in one of the two loops of sema_down. */
  ghost predicate Asleep(m: Monitor, t: Tid) {
    && t in m.pc
    && var pc := m.pc[t];
       || (pc.DownLock? && pc.l in m.locks && t in m.locks[pc.l].sema.waiters)
       || (pc.DownWaiter? && pc.w in m.waker && t in m.waker[pc.w].waiters)
  }

  lemma FreshlyOut(m: Monitor, t: Tid)
    requires Inv(m) && t in m.pc && !m.pc[t].DownLock?
    ensures forall l | l in m.locks :: t !in m.locks[l].sema.waiters
  {
    hide LocksOk, CondsOk, WakersOk;
    forall l | l in m.locks
      ensures t !in m.locks[l].sema.waiters
    {
      assert LockSleepersOk(m.pc, m.locks[l], l);
    }
  }

  lemma FreshlyOutOfWaiter(m: Monitor, t: Tid)
    requires Inv(m) && t in m.pc && !m.pc[t].DownWaiter?
    ensures forall w | w in m.waker :: t !in m.waker[w].waiters
  {
    hide LocksOk, CondsOk, SleepersOk;
    forall w | w in m.waker
      ensures t !in m.waker[w].waiters
    {
      assert WakerOk(m.pc, m.waker[w], w);
    }
  }

  /** Only t puts itself to sleep. */
  lemma {:induction false} OthersDoNotSleepFor(m: Monitor, steps: seq<Step>, t: Tid)
    requires t in m.pc && LegalRun(m, steps) && NoneBy(steps, t)
    ensures forall l | l in m.locks && t !in m.locks[l].sema.waiters ::
              l in Run(m, steps).locks && t !in Run(m, steps).locks[l].sema.waiters
    ensures forall w | w in m.waker && w < m.nextWaiter && t !in m.waker[w].waiters ::
              w in Run(m, steps).waker && t !in Run(m, steps).waker[w].waiters
    decreases |steps|
  {
    hide Next, Legal;
    if steps != [] {
      StepFrame(m, steps[0]);
      OtherDoesNotSleepFor(m, steps[0], t);
      SignalledGrow(m, steps[0]);
      OthersDoNotSleepFor(Next(m, steps[0]), steps[1..], t);
    }
  }

  lemma OtherDoesNotSleepFor(m: Monitor, step: Step, t: Tid)
    requires Legal(m, step) && step.t != t
    ensures forall l | l in m.locks && t !in m.locks[l].sema.waiters ::
              l in Next(m, step).locks && t !in Next(m, step).locks[l].sema.waiters
    ensures forall w | w in m.waker && w < m.nextWaiter && t !in m.waker[w].waiters ::
              w in Next(m, step).waker && t !in Next(m, step).waker[w].waiters
  {
    hide Next, Legal;
    forall l | l in m.locks && t !in m.locks[l].sema.waiters
      ensures l in Next(m, step).locks && t !in Next(m, step).locks[l].sema.waiters
    {
      NotSentToSleepOnLock(m, step, t, l);
    }
    forall w | w in m.waker && w < m.nextWaiter && t !in m.waker[w].waiters
      ensures w in Next(m, step).waker && t !in Next(m, step).waker[w].waiters
    {
      NotSentToSleepOnWaiter(m, step, t, w);
    }
  }

  lemma NotSentToSleepOnLock(m: Monitor, step: Step, t: Tid, l: LockId)
    requires Legal(m, step) && step.t != t && l in m.locks && t !in m.locks[l].sema.waiters
    ensures l in Next(m, step).locks && t !in Next(m, step).locks[l].sema.waiters
  {
    match step
    case Acquire(_, _) =>
    case TryAcquire(_, _) =>
    case LockTest(_) =>
    case SetHolder(_) =>
    case Release(_, _) =>
    case LockUp(_) =>
    case Wait(_, _) =>
    case WaitRelease(_) =>
    case WaiterTest(_) =>
    case Signal(_, _) =>
    case SignalUp(_) =>
  }

  lemma NotSentToSleepOnWaiter(m: Monitor, step: Step, t: Tid, w: WaiterId)
    requires Legal(m, step) && step.t != t && w in m.waker && w < m.nextWaiter && t !in m.waker[w].waiters
    ensures w in Next(m, step).waker && t !in Next(m, step).waker[w].waiters
  {
    match step
    case Acquire(_, _) =>
    case TryAcquire(_, _) =>
    case LockTest(_) =>
    case SetHolder(_) =>
    case Release(_, _) =>
    case LockUp(_) =>
    case Wait(_, _) =>
    case WaitRelease(_) =>
    case WaiterTest(_) =>
    case Signal(_, _) =>
    case SignalUp(_) =>
  }

  /** What t may rely on while the others run: its place in the code, the lock it holds and the
      lists that lock guards. */
  lemma {:induction false} OthersRespect(m: Monitor, steps: seq<Step>, t: Tid)
    requires Inv(m) && t in m.pc && LegalRun(m, steps) && NoneBy(steps, t)
    ensures var m' := Run(m, steps);
            && t in m'.pc && m'.pc[t] == m.pc[t] && m'.locks.Keys == m.locks.Keys && m'.lockOf == m.lockOf
            && (forall l | Holds(m, t, l) :: Holds(m', t, l))
            && (forall c | c in m.conds && Holds(m, t, m.lockOf[c]) :: c in m'.conds && m'.conds[c] == m.conds[c])
    decreases |steps|
  {
    hide Next, Legal, LocksOk, CondsOk, SleepersOk, WakersOk, Holds;
    if steps != [] {
      var m1 := Next(m, steps[0]);
      StepKeeps(m, steps[0]);
      StepFrame(m, steps[0]);
      forall l | Holds(m, t, l)
        ensures Holds(m1, t, l)
      {
        HolderStays(m, steps[0], t, l);
      }
      forall c | c in m.conds && Holds(m, t, m.lockOf[c])
        ensures c in m1.conds && m1.conds[c] == m.conds[c]
      {
        HolderGuardsList(m, steps[0], t, c);
      }
      OthersRespect(m1, steps[1..], t);
    }
  }

  /** The window before lock_release's sema_up: nobody else has the lock. */
  lemma ReleasedIsFree(m: Monitor, t: Tid)
    requires Inv(m) && t in m.pc && m.pc[t].Released?
    ensures m.pc[t].l in m.locks && m.locks[m.pc[t].l].holder == None && m.locks[m.pc[t].l].sema.value == 0
  {
    hide CondsOk, SleepersOk, WakersOk;
    var l := m.pc[t].l;
    assert LockOk(m.pc, m.locks[l], l);
    OnlyOwner(m.pc, m.locks[l], l, t, t);
    if m.locks[l].holder.Some? {
      OnlyOwner(m.pc, m.locks[l], l, t, m.locks[l].holder.value);
      assert false;
    }
  }

  lemma PlacesKnown(m: Monitor, t: Tid)
    requires Inv(m) && t in m.pc
    ensures !m.pc[t].User? && !m.pc[t].Signalling? ==> m.pc[t].l in m.locks
    ensures forall w: nat | Waiting(m.pc[t], w) :: w in m.waker && w < m.nextWaiter
    ensures m.pc[t].Signalling? ==> m.pc[t].w in m.waker
    ensures forall w: nat | Reacquiring(m.pc[t], w) :: w in m.signalled && w !in m.pending && !Listed(m.conds, w)
  {
    hide SleepersOk, WakersOk, LockOk, ListsOk, Listed;
    assert PcOk(m, t);
    forall w: nat | w < m.nextWaiter
      ensures w in m.waker && (w in m.signalled <==> !Listed(m.conds, w))
    {
      assert WaiterOk(m, w);
    }
  }

  lemma StillDequeued(start: Monitor, history: seq<Step>, m: Monitor, history': seq<Step>, m': Monitor, t: Tid,
                      w: WaiterId)
    requires Reached(start, history, m) && Reached(start, history', m') && history <= history' && Dequeued(m, t, w)
    ensures Dequeued(m', t, w)
  {
    hide Dequeued, Reached, Inv;
    ReachedInv(start, history, m);
    ReachedSince(start, history, m, history', m');
    TakenForGood(m, history'[|history|..], t, w);
  }

  lemma SomeoneComes(m: Monitor, l: LockId)
    requires Inv(m) && l in m.locks && m.locks[l].sema.value > 0 && m.locks[l].sema.waiters != []
    ensures Coming(m.pc, m.locks[l], l) != {}
  {
    hide LocksOk, CondsOk, WakersOk;
    assert LockSleepersOk(m.pc, m.locks[l], l);
  }

  class LockSystem {
    var pc: map<Tid, Pc>
    var locks: map<LockId, Lock>
    const lockOf: map<CondId, LockId>
    var conds: map<CondId, seq<WaiterId>>
    var waker: map<WaiterId, Sema>
    var nextWaiter: WaiterId
    var callers: map<WaiterId, Tid>
    var pending: set<WaiterId>
    var signalled: set<WaiterId>
    var clock: nat
    ghost const start: Monitor
    ghost var history: seq<Step>

    function State(): Monitor
      reads this
    {
      Monitor(pc, locks, lockOf, conds, waker, nextWaiter, callers, pending, signalled)
    }

    /** The state is the one that the steps so far lead to from a fresh system. */
    ghost predicate Valid()
      reads this
    {
      Reached(start, history, State())
    }

    constructor (threads: set<Tid>, lockIds: set<LockId>, lockOf: map<CondId, LockId>)
      requires forall c | c in lockOf :: lockOf[c] in lockIds
      ensures Valid() && Initial(State()) && history == []
      ensures pc.Keys == threads && locks.Keys == lockIds && conds.Keys == lockOf.Keys
    {
      pc := map t | t in threads :: User;
      locks := map l | l in lockIds :: Lock(None, Sema(1, []));
      this.lockOf := lockOf;
      conds := map c | c in lockOf :: [];
      waker, nextWaiter, clock := map[], 0, 0;
      callers, pending, signalled := map[], {}, {};
      history := [];
      start := Monitor(map t | t in threads :: User, map l | l in lockIds :: Lock(None, Sema(1, [])), lockOf,
                       map c | c in lockOf :: [], map[], 0, map[], {}, {});
    }

    /** The other threads run. */
    method Interrupted(t: Tid, others: Others)
      requires Valid() && LeaveAlone(others, t) && t in pc
      modifies this
      ensures Valid() && old(history) <= history
      ensures NoneBy(history[|old(history)|..], t)
      ensures t in pc && pc[t] == old(pc[t]) && locks.Keys == old(locks.Keys)
      ensures forall l | Holds(old(State()), t, l) :: Holds(State(), t, l)
      ensures forall c | c in old(conds) && c in lockOf && Holds(old(State()), t, lockOf[c]) ::
                c in conds && conds[c] == old(conds[c])
      ensures forall l | l in locks && t !in old(locks[l].sema.waiters) :: t !in locks[l].sema.waiters
      ensures forall w | w in old(waker) && w < old(nextWaiter) && t !in old(waker[w].waiters) ::
                w in waker && t !in waker[w].waiters
    {
      hide Inv, Legal, Next, Holds, Reached, LegalRun, Run;
      ReachedInv(start, history, State());
      ghost var m := State();
      var steps := others(clock, State());
      var m' := Run(State(), steps);
      OthersRespect(m, steps, t);
      OthersDoNotSleepFor(m, steps, t);
      ReachedMore(start, history, m, steps);
      pc, locks, conds, waker, nextWaiter := m'.pc, m'.locks, m'.conds, m'.waker, m'.nextWaiter;
      callers, pending, signalled := m'.callers, m'.pending, m'.signalled;
      clock, history := clock + 1, history + steps;
      assert State() == m';
    }

    /** sema_down on a lock's semaphore. The thread tests again each time it is woken; out of
        turns, it is left asleep. */
    method LockDown(t: Tid, others: Others, turns: nat) returns (done: bool, left: nat)
      requires Valid() && LeaveAlone(others, t) && t in pc && pc[t].DownLock? && pc[t].l in locks
      requires t !in locks[pc[t].l].sema.waiters
      modifies this
      ensures Valid() && old(history) <= history
      ensures t in pc && pc[t] == if done then GotLock(old(pc[t].l), old(pc[t].back)) else old(pc[t])
      ensures !done ==> Asleep(State(), t)
    {
      hide Inv, Holds, Reached, LegalRun, Run, NoneBy, LeaveAlone;
      var l, back := pc[t].l, pc[t].back;
      left := turns;
      while locks[l].sema.value == 0
        invariant Valid() && old(history) <= history && t in pc && pc[t] == DownLock(l, back) && l in locks
        invariant t !in locks[l].sema.waiters
        decreases left
      {
        ReachedStep(start, history, State(), LockTest(t));
        locks := locks[l := Lock(locks[l].holder, Sema(0, locks[l].sema.waiters + [t]))];
        history := history + [LockTest(t)];
        // thread_block
        ghost var before := left;
        while t in locks[l].sema.waiters
          invariant Valid() && old(history) <= history && t in pc && pc[t] == DownLock(l, back) && l in locks
          invariant left == before ==> t in locks[l].sema.waiters
          invariant left <= before
          decreases left
        {
          if left == 0 {
            return false, 0;
          }
          Interrupted(t, others);
          left := left - 1;
        }
      }
      ReachedStep(start, history, State(), LockTest(t));
      locks := locks[l := Lock(locks[l].holder, Sema(locks[l].sema.value - 1, locks[l].sema.waiters))];
      pc := pc[t := GotLock(l, back)];
      history := history + [LockTest(t)];
      done := true;
    }

    /** lock_acquire from its sema_down on; `back` is the waiter when cond_wait is the caller. */
    method FinishAcquire(t: Tid, others: Others, turns: nat) returns (done: bool)
      requires Valid() && LeaveAlone(others, t) && t in pc && pc[t].DownLock? && pc[t].l in locks
      requires t !in locks[pc[t].l].sema.waiters
      modifies this
      ensures Valid() && old(history) <= history
      ensures done ==> t in pc && pc[t] == User && Holds(State(), t, old(pc[t].l))
      ensures done ==> forall w: nat | old(pc[t].back) == Some(w) ::
                w in signalled && w !in pending && !Listed(conds, w)
      ensures !done ==> Asleep(State(), t)
    {
      hide Inv, Reached, LegalRun, Run, NoneBy, LeaveAlone, Listed;
      var l, left := pc[t].l, 0;
      Interrupted(t, others);
      done, left := LockDown(t, others, turns);
      if done {
        Interrupted(t, others);
        ReachedInv(start, history, State());
        PlacesKnown(State(), t);
        ReachedStep(start, history, State(), SetHolder(t));
        locks := locks[l := Lock(Some(t), locks[l].sema)];
        pc := pc[t := User];
        history := history + [SetHolder(t)];
      }
    }

    method LockAcquire(t: Tid, l: LockId, others: Others, turns: nat) returns (done: bool)
      requires Valid() && LeaveAlone(others, t) && Legal(State(), Acquire(t, l))
      modifies this
      ensures Valid() && old(history) <= history
      ensures if done then t in pc && pc[t] == User && Holds(State(), t, l) else Asleep(State(), t)
    {
      hide Inv, Reached, LegalRun, Run, NoneBy, LeaveAlone;
      ReachedInv(start, history, State());
      FreshlyOut(State(), t);
      ReachedStep(start, history, State(), Acquire(t, l));
      pc := pc[t := DownLock(l, None)];
      history := history + [Acquire(t, l)];
      done := FinishAcquire(t, others, turns);
    }

    method LockTryAcquire(t: Tid, l: LockId, others: Others) returns (success: bool)
      requires Valid() && LeaveAlone(others, t) && Legal(State(), TryAcquire(t, l))
      modifies this
      ensures Valid() && old(history) <= history && t in pc && pc[t] == User
      ensures success <==> old(locks[l].sema.value) > 0
      ensures success ==> Holds(State(), t, l)
    {
      hide Inv, Reached, LegalRun, Run, NoneBy, LeaveAlone;
      ReachedStep(start, history, State(), TryAcquire(t, l));
      success := locks[l].sema.value > 0;
      history := history + [TryAcquire(t, l)];
      if success {
        locks := locks[l := Lock(locks[l].holder, Sema(locks[l].sema.value - 1, locks[l].sema.waiters))];
        pc := pc[t := GotLock(l, None)];
        Interrupted(t, others);
        ReachedStep(start, history, State(), SetHolder(t));
        locks := locks[l := Lock(Some(t), locks[l].sema)];
        pc := pc[t := User];
        history := history + [SetHolder(t)];
      }
    }

    /** The sema_up of lock_release. */
    method LockUnlock(t: Tid)
      requires Valid() && t in pc && pc[t].Released?
      modifies this
      ensures Valid() && old(history) <= history && old(pc[t].l) in locks && locks[old(pc[t].l)].holder == None
      ensures locks[old(pc[t].l)].sema.value == 1
      ensures nextWaiter == old(nextWaiter) && waker == old(waker) && locks.Keys == old(locks.Keys)
      ensures var wait := old(pc[t].wait);
              t in pc && pc[t] == if wait.None? then User else DownWaiter(wait.value.0, old(pc[t].l), wait.value.1)
    {
      hide Inv, Reached, LegalRun, Run;
      ReachedInv(start, history, State());
      ReleasedIsFree(State(), t);
      ReachedStep(start, history, State(), LockUp(t));
      var l, wait := pc[t].l, pc[t].wait;
      var q := locks[l].sema.waiters;
      locks := locks[l := Lock(locks[l].holder, Sema(locks[l].sema.value + 1, if q != [] then q[1..] else []))];
      pc := pc[t := if wait.None? then User else DownWaiter(wait.value.0, l, wait.value.1)];
      history := history + [LockUp(t)];
    }

    /** On return the lock is free and, if threads sleep on it, one is awake to take it. */
    method LockRelease(t: Tid, l: LockId, others: Others)
      requires Valid() && LeaveAlone(others, t) && Legal(State(), Release(t, l))
      modifies this
      ensures Valid() && old(history) <= history && t in pc && pc[t] == User
      ensures l in locks && locks[l].holder == None && locks[l].sema.value == 1
      ensures locks[l].sema.waiters != [] ==> Coming(pc, locks[l], l) != {}
    {
      hide Inv, Reached, LegalRun, Run, NoneBy, LeaveAlone, Coming;
      ReachedStep(start, history, State(), Release(t, l));
      locks := locks[l := Lock(None, locks[l].sema)];
      pc := pc[t := Released(l, None)];
      history := history + [Release(t, l)];
      Interrupted(t, others);
      LockUnlock(t);
      ReachedInv(start, history, State());
      if locks[l].sema.waiters != [] { SomeoneComes(State(), l); }
    }

    /** sema_down on the waiter's own semaphore. */
    method WaiterDown(t: Tid, others: Others, turns: nat) returns (done: bool, left: nat)
      requires Valid() && LeaveAlone(others, t) && t in pc && pc[t].DownWaiter?
      requires pc[t].w in waker && pc[t].w < nextWaiter && t !in waker[pc[t].w].waiters
      modifies this
      ensures Valid() && old(history) <= history
      ensures t in pc && pc[t] == if done then DownLock(old(pc[t].l), Some(old(pc[t].w))) else old(pc[t])
      ensures done ==> old(pc[t].l) in locks && t !in locks[old(pc[t].l)].sema.waiters
      ensures !done ==> Asleep(State(), t)
    {
      hide Inv, Holds, Reached, LegalRun, Run, NoneBy, LeaveAlone;
      var c, l, w := pc[t].c, pc[t].l, pc[t].w;
      left := turns;
      while waker[w].value == 0
        invariant Valid() && old(history) <= history && t in pc && pc[t] == DownWaiter(c, l, w)
        invariant w in waker && t !in waker[w].waiters
        decreases left
      {
        ReachedStep(start, history, State(), WaiterTest(t));
        waker := waker[w := Sema(0, waker[w].waiters + [t])];
        history := history + [WaiterTest(t)];
        // thread_block
        ghost var before := left;
        while t in waker[w].waiters
          invariant Valid() && old(history) <= history && t in pc && pc[t] == DownWaiter(c, l, w)
          invariant w in waker && left <= before
          invariant left == before ==> t in waker[w].waiters
          decreases left
        {
          if left == 0 {
            return false, 0;
          }
          Interrupted(t, others);
          ReachedInv(start, history, State());
          PlacesKnown(State(), t);
          left := left - 1;
        }
      }
      ReachedInv(start, history, State());
      PlacesKnown(State(), t);
      FreshlyOut(State(), t);
      ReachedStep(start, history, State(), WaiterTest(t));
      waker := waker[w := Sema(waker[w].value - 1, waker[w].waiters)];
      pending := pending - {w};
      pc := pc[t := DownLock(l, Some(w))];
      history := history + [WaiterTest(t)];
      done := true;
    }

    /** cond_wait puts a new waiter at the end of the list. */
    method Enlist(t: Tid, c: CondId)
      requires Valid() && Legal(State(), Wait(t, c))
      modifies this
      ensures Valid() && old(history) <= history
      ensures t in pc && pc[t] == Pushed(c, lockOf[c], old(nextWaiter)) && lockOf[c] in locks
    {
      hide Inv, Reached, LegalRun, Run;
      ReachedStep(start, history, State(), Wait(t, c));
      var w := nextWaiter;
      nextWaiter := w + 1;
      waker := waker[w := Sema(0, [])];
      conds := conds[c := conds[c] + [w]];
      callers, pending := callers[w := t], pending + {w};
      pc := pc[t := Pushed(c, lockOf[c], w)];
      history := history + [Wait(t, c)];
    }

    /** The lock_release of cond_wait, up to its sema_up. */
    method WaitUnlock(t: Tid)
      requires Valid() && t in pc && pc[t].Pushed? && pc[t].l in locks
      modifies this
      ensures Valid() && old(history) <= history
      ensures t in pc && pc[t] == Released(old(pc[t].l), Some((old(pc[t].c), old(pc[t].w))))
    {
      hide Inv, Reached, LegalRun, Run;
      ReachedStep(start, history, State(), WaitRelease(t));
      var c, l, w := pc[t].c, pc[t].l, pc[t].w;
      locks := locks[l := Lock(None, locks[l].sema)];
      pc := pc[t := Released(l, Some((c, w)))];
      history := history + [WaitRelease(t)];
    }

    /** cond_wait up to its sema_down: on the list, and the lock given back. */
    method LeaveMonitor(t: Tid, c: CondId, others: Others)
      requires Valid() && LeaveAlone(others, t) && Legal(State(), Wait(t, c))
      modifies this
      ensures Valid() && old(history) <= history
      ensures t in pc && pc[t] == DownWaiter(c, lockOf[c], old(nextWaiter))
      ensures old(nextWaiter) in waker && t !in waker[old(nextWaiter)].waiters
    {
      hide Inv, Reached, LegalRun, Run, NoneBy, LeaveAlone, Listed, Asleep, Legal, Next, Holds;
      Enlist(t, c);
      Interrupted(t, others);
      WaitUnlock(t);
      Interrupted(t, others);
      ReachedInv(start, history, State());
      PlacesKnown(State(), t);
      FreshlyOutOfWaiter(State(), t);
      LockUnlock(t);
    }

    /** cond_wait: it comes back holding the lock, and only after its own waiter, the one this
        call put on the list, was signalled and its unit taken. */
    method CondWait(t: Tid, c: CondId, others: Others, turns: nat) returns (done: bool)
      requires Valid() && LeaveAlone(others, t) && Legal(State(), Wait(t, c))
      modifies this
      ensures Valid() && old(history) <= history
      ensures done ==> t in pc && pc[t] == User && Holds(State(), t, lockOf[c])
      ensures done ==> old(nextWaiter) in signalled && old(nextWaiter) !in pending && !Listed(conds, old(nextWaiter))
      ensures !done ==> Asleep(State(), t)
    {
      hide Inv, Reached, LegalRun, Run, NoneBy, LeaveAlone, Listed, Asleep, Next, Holds;
      LeaveMonitor(t, c, others);
      ReachedInv(start, history, State());
      PlacesKnown(State(), t);
      Interrupted(t, others);
      ReachedInv(start, history, State());
      PlacesKnown(State(), t);
      var left;
      done, left := WaiterDown(t, others, turns);
      if done {
        done := FinishAcquire(t, others, left);
      }
    }

    /** cond_signal takes the front waiter off the list. */
    method TakeOldest(t: Tid, c: CondId)
      requires Valid() && Legal(State(), Signal(t, c)) && conds[c] != []
      modifies this
      ensures Valid() && old(history) <= history
      ensures t in pc && pc[t] == Signalling(c, old(conds[c])[0]) && Holds(State(), t, lockOf[c])
      ensures c in conds && conds[c] == old(conds[c])[1..] && Dequeued(State(), t, old(conds[c])[0])
    {
      hide Inv, Reached, LegalRun, Run, Dequeued;
      ReachedInv(start, history, State());
      SignalTakes(State(), t, c);
      ReachedStep(start, history, State(), Signal(t, c));
      var w := conds[c][0];
      conds := conds[c := conds[c][1..]];
      signalled := signalled + {w};
      pc := pc[t := Signalling(c, w)];
      history := history + [Signal(t, c)];
    }

    /** The sema_up of cond_signal. */
    method WaiterUp(t: Tid)
      requires Valid() && t in pc && pc[t].Signalling?
      modifies this
      ensures Valid() && old(history) <= history && t in pc && pc[t] == User
      ensures locks == old(locks) && conds == old(conds)
    {
      hide Inv, Reached, LegalRun, Run;
      ReachedInv(start, history, State());
      PlacesKnown(State(), t);
      ReachedStep(start, history, State(), SignalUp(t));
      var w := pc[t].w;
      var q := waker[w].waiters;
      waker := waker[w := Sema(waker[w].value + 1, if q != [] then q[1..] else [])];
      pc := pc[t := User];
      history := history + [SignalUp(t)];
    }

    /** cond_signal: the oldest waiter, if any, leaves the list, and when the call returns its
        thread is not asleep and has a unit to take or has taken it. */
    method CondSignal(t: Tid, c: CondId, others: Others)
      requires Valid() && LeaveAlone(others, t) && Legal(State(), Signal(t, c))
      modifies this
      ensures Valid() && old(history) <= history && t in pc && pc[t] == User && Holds(State(), t, lockOf[c])
      ensures c in conds && conds[c] == if old(conds[c]) == [] then [] else old(conds[c])[1..]
      ensures old(conds[c]) != [] ==> Dequeued(State(), t, old(conds[c])[0]) && Awake(State(), old(conds[c])[0])
    {
      hide Inv, Reached, LegalRun, Run, NoneBy, LeaveAlone, Dequeued, Awake;
      if conds[c] != [] {
        ghost var w := conds[c][0];
        TakeOldest(t, c);
        ghost var m, h := State(), history;
        Interrupted(t, others);
        WaiterUp(t);
        StillDequeued(start, h, m, history, State(), t, w);
        ReachedInv(start, history, State());
        TakenIsAwake(State(), t, w);
      }
    }

    /** cond_broadcast: whatever the others do between and within its signals, it ends with the
        list empty and every thread that waited awake, its unit there to take or taken. */
    method CondBroadcast(t: Tid, c: CondId, others: Others)
      requires Valid() && LeaveAlone(others, t) && Legal(State(), Signal(t, c))
      modifies this
      ensures Valid() && old(history) <= history && t in pc && pc[t] == User && Holds(State(), t, lockOf[c])
      ensures c in conds && conds[c] == []
      ensures forall w | w in old(conds[c]) :: w in signalled && Awake(State(), w)
    {
      hide Inv, Reached, LegalRun, Run, NoneBy, LeaveAlone, Dequeued, Awake, Holds;
      ghost var q, k := conds[c], 0;
      while conds[c] != []
        invariant Valid() && old(history) <= history && t in pc && pc[t] == User && Holds(State(), t, lockOf[c])
        invariant c in conds && k <= |q| && conds[c] == q[k..]
        invariant forall i | 0 <= i < k :: Dequeued(State(), t, q[i])
        decreases |conds[c]|
      {
        ghost var m, h := State(), history;
        CondSignal(t, c, others);
        ghost var m1, h1 := State(), history;
        Interrupted(t, others);
        StillDequeued(start, h1, m1, history, State(), t, q[k]);
        forall i | 0 <= i < k
          ensures Dequeued(State(), t, q[i])
        {
          StillDequeued(start, h, m, history, State(), t, q[i]);
        }
        k := k + 1;
      }
      ReachedInv(start, history, State());
      forall w | w in q
        ensures w in signalled && Awake(State(), w)
      {
        TakenIsAwake(State(), t, w);
      }
    }
  }
}
