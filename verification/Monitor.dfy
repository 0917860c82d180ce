/** Locks and condition variables over semaphores (threads/synch.c), any thread taking its next
    atomic step at any time. */
module Monitor {
  import opened Lists
  import opened Options
  import opened Semaphores

  type LockId = nat
  type CondId = nat

  /** A struct semaphore_elem; each call of cond_wait makes one, numbered in order of calls. */
  type WaiterId = nat

  datatype Lock = Lock(holder: Option<Tid>, sema: Sema)

  /** Where a thread is. User is any code outside these functions; the others are the points
      inside them at which another thread can run. A waiter is named where cond_wait is the
      caller. */
  datatype Pc =
    | User
    | DownLock(l: LockId, back: Option<WaiterId>)                   // in sema_down of lock_acquire
    | GotLock(l: LockId, back: Option<WaiterId>)                    // before lock->holder is set
    | Released(l: LockId, wait: Option<(CondId, WaiterId)>)         // holder cleared, before sema_up
    | Pushed(c: CondId, l: LockId, w: WaiterId)                     // in cond_wait, before lock_release
    | DownWaiter(c: CondId, l: LockId, w: WaiterId)                 // in sema_down of cond_wait
    | Signalling(c: CondId, w: WaiterId)                            // in cond_signal, before sema_up

  /** lockOf gives each condition variable its lock. waker is the semaphore of each waiter.
      callers, pending and signalled are history: each waiter's thread, the waiters that have not
      got past their semaphore, and those taken off their list by cond_signal. */
  datatype Monitor = Monitor(pc: map<Tid, Pc>, locks: map<LockId, Lock>, lockOf: map<CondId, LockId>,
                             conds: map<CondId, seq<WaiterId>>, waker: map<WaiterId, Sema>, nextWaiter: WaiterId,
                             callers: map<WaiterId, Tid>, pending: set<WaiterId>, signalled: set<WaiterId>)

  // ---------------------------------------------------------------
  // Steps
  // ---------------------------------------------------------------

  datatype Step =
    | Acquire(t: Tid, l: LockId)
    | TryAcquire(t: Tid, l: LockId)
    | LockTest(t: Tid)
    | SetHolder(t: Tid)
    | Release(t: Tid, l: LockId)
    | LockUp(t: Tid)
    | Wait(t: Tid, c: CondId)
    | WaitRelease(t: Tid)
    | WaiterTest(t: Tid)
    | Signal(t: Tid, c: CondId)
    | SignalUp(t: Tid)

  predicate Holds(m: Monitor, t: Tid, l: LockId) { l in m.locks && m.locks[l].holder == Some(t) }

  /** A step is at its thread's point of execution, the thread is not asleep on a semaphore,
      and the assertions of lock_acquire, lock_try_acquire, lock_release, cond_wait and
      cond_signal hold for the caller. */
  predicate Legal(m: Monitor, step: Step) {
    && step.t in m.pc
    && var pc := m.pc[step.t];
       match step
       case Acquire(t, l) => pc.User? && l in m.locks && !Holds(m, t, l)
       case TryAcquire(t, l) => pc.User? && l in m.locks && !Holds(m, t, l)
       case LockTest(t) => pc.DownLock? && pc.l in m.locks && t !in m.locks[pc.l].sema.waiters
       case SetHolder(t) => pc.GotLock? && pc.l in m.locks
       case Release(t, l) => pc.User? && Holds(m, t, l)
       case LockUp(t) => pc.Released? && pc.l in m.locks
       case Wait(t, c) => pc.User? && c in m.conds && c in m.lockOf && Holds(m, t, m.lockOf[c])
       case WaitRelease(t) => pc.Pushed? && pc.l in m.locks
       case WaiterTest(t) => pc.DownWaiter? && pc.w in m.waker && t !in m.waker[pc.w].waiters
       case Signal(t, c) => pc.User? && c in m.conds && c in m.lockOf && Holds(m, t, m.lockOf[c])
       case SignalUp(t) => pc.Signalling? && pc.w in m.waker
  }

  function At(m: Monitor, t: Tid, pc: Pc): Monitor { m.(pc := m.pc[t := pc]) }

  function Next(m: Monitor, step: Step): Monitor
    requires Legal(m, step)
  {
    var pc := m.pc[step.t];
    match step
    case Acquire(t, l) => At(m, t, DownLock(l, None))
    case TryAcquire(t, l) => if m.locks[l].sema.value > 0 then TakeLock(m, t, l, None) else m
    case LockTest(t) =>
      var lock := m.locks[pc.l];
      if lock.sema.value == 0 then
        m.(locks := m.locks[pc.l := lock.(sema := Joined(lock.sema, t))])
      else TakeLock(m, t, pc.l, pc.back)
    case SetHolder(t) => At(m.(locks := m.locks[pc.l := m.locks[pc.l].(holder := Some(t))]), t, User)
    case Release(t, l) => ClearHolder(m, t, l, None)
    case LockUp(t) =>
      var lock := m.locks[pc.l];
      At(m.(locks := m.locks[pc.l := lock.(sema := Upped(lock.sema))]), t,
         if pc.wait.None? then User else DownWaiter(pc.wait.value.0, pc.l, pc.wait.value.1))
    case Wait(t, c) =>
      var w := m.nextWaiter;
      At(m.(conds := m.conds[c := m.conds[c] + [w]], waker := m.waker[w := Sema(0, [])], nextWaiter := w + 1,
            callers := m.callers[w := t], pending := m.pending + {w}), t, Pushed(c, m.lockOf[c], w))
    case WaitRelease(t) => ClearHolder(m, t, pc.l, Some((pc.c, pc.w)))
    case WaiterTest(t) =>
      var sema := m.waker[pc.w];
      if sema.value == 0 then m.(waker := m.waker[pc.w := Joined(sema, t)])
      else At(m.(waker := m.waker[pc.w := Taken(sema)], pending := m.pending - {pc.w}),
              t, DownLock(pc.l, Some(pc.w)))
    case Signal(t, c) =>
      if m.conds[c] == [] then m
      else At(m.(conds := m.conds[c := m.conds[c][1..]], signalled := m.signalled + {m.conds[c][0]}),
              t, Signalling(c, m.conds[c][0]))
    case SignalUp(t) => At(m.(waker := m.waker[pc.w := Upped(m.waker[pc.w])]), t, User)
  }

  function TakeLock(m: Monitor, t: Tid, l: LockId, back: Option<WaiterId>): Monitor
    requires l in m.locks && m.locks[l].sema.value > 0
  {
    var lock := m.locks[l];
    At(m.(locks := m.locks[l := lock.(sema := Taken(lock.sema))]), t, GotLock(l, back))
  }

  function ClearHolder(m: Monitor, t: Tid, l: LockId, wait: Option<(CondId, WaiterId)>): Monitor
    requires l in m.locks
  {
    At(m.(locks := m.locks[l := m.locks[l].(holder := None)]), t, Released(l, wait))
  }

  predicate LegalRun(m: Monitor, steps: seq<Step>)
    decreases |steps|
  {
    steps != [] ==> Legal(m, steps[0]) && LegalRun(Next(m, steps[0]), steps[1..])
  }

  function Run(m: Monitor, steps: seq<Step>): Monitor
    requires LegalRun(m, steps)
    decreases |steps|
  {
    if steps == [] then m else Run(Next(m, steps[0]), steps[1..])
  }

  /** Threads outside, locks after lock_init, condition variables after cond_init. */
  ghost predicate Initial(m: Monitor) {
    && (forall t | t in m.pc :: m.pc[t] == User)
    && (forall l | l in m.locks :: m.locks[l] == Lock(None, Sema(1, [])))
    && (forall c | c in m.conds :: m.conds[c] == [] && c in m.lockOf && m.lockOf[c] in m.locks)
    && m.waker == map[] && m.nextWaiter == 0 && m.callers == map[] && m.pending == {} && m.signalled == {}
  }

  // ---------------------------------------------------------------
  // Mutual exclusion
  // ---------------------------------------------------------------

  /** Thread t owns lock l: from the moment it takes the unit of the semaphore, before holder
      is set, until it gives it back, after holder is cleared. */
  ghost predicate Owns(pc: map<Tid, Pc>, lock: Lock, l: LockId, t: Tid) {
    && t in pc
    && (Between(pc[t], l) || lock.holder == Some(t))
  }

  ghost predicate Between(pc: Pc, l: LockId) { (pc.GotLock? || pc.Released?) && pc.l == l }

  ghost function Owners(pc: map<Tid, Pc>, lock: Lock, l: LockId): set<Tid> {
    set t | t in pc && Owns(pc, lock, l, t)
  }

  ghost predicate LockOk(pc: map<Tid, Pc>, lock: Lock, l: LockId) {
    && |Owners(pc, lock, l)| + lock.sema.value == 1
    && (lock.holder.Some? ==> lock.holder.value in pc && !Between(pc[lock.holder.value], l))
    && (forall t | t in pc && (pc[t].DownLock? || pc[t].DownWaiter?) && pc[t].l == l :: lock.holder != Some(t))
    && (forall t | t in pc && pc[t].Pushed? && pc[t].l == l :: lock.holder == Some(t))
  }

  ghost predicate LocksOk(pc: map<Tid, Pc>, locks: map<LockId, Lock>) {
    && (forall l | l in locks :: LockOk(pc, locks[l], l))
    && (forall t | t in pc && !pc[t].User? && !pc[t].Signalling? :: pc[t].l in locks)
  }

  /** What a step does to one lock and to its thread's relation to that lock. */
  lemma LockUnaffected(pc: map<Tid, Pc>, pc': map<Tid, Pc>, lock: Lock, lock': Lock, l: LockId, t: Tid)
    requires LockOk(pc, lock, l) && t in pc && t in pc' && pc' == pc[t := pc'[t]]
    requires lock'.holder == lock.holder && lock'.sema.value == lock.sema.value
    requires Between(pc[t], l) == Between(pc'[t], l)
    requires (pc'[t].DownLock? || pc'[t].DownWaiter?) && pc'[t].l == l ==> lock.holder != Some(t)
    requires pc'[t].Pushed? && pc'[t].l == l ==> lock.holder == Some(t)
    ensures LockOk(pc', lock', l)
  {
    assert Owners(pc', lock', l) == Owners(pc, lock, l);
  }

  lemma LockTaken(pc: map<Tid, Pc>, lock: Lock, l: LockId, t: Tid, back: Option<WaiterId>)
    requires LockOk(pc, lock, l) && t in pc && lock.sema.value > 0 && !Between(pc[t], l)
    requires lock.holder != Some(t)
    ensures LockOk(pc[t := GotLock(l, back)], lock.(sema := Taken(lock.sema)), l)
  {
    var pc', lock' := pc[t := GotLock(l, back)], lock.(sema := Taken(lock.sema));
    assert Owners(pc', lock', l) == Owners(pc, lock, l) + {t};
  }

  /** One owner at most, so no one else is recorded as holder when t sets itself. */
  lemma OnlyOwner(pc: map<Tid, Pc>, lock: Lock, l: LockId, t: Tid, u: Tid)
    requires LockOk(pc, lock, l) && Owns(pc, lock, l, t) && Owns(pc, lock, l, u)
    ensures t == u && lock.sema.value == 0
  {
    var s := Owners(pc, lock, l);
    assert t in s && u in s;
    if t != u {
      assert {t, u} <= s;
      SubsetSize({t, u}, s);
    }
    if s == {} { assert false; }
  }

  lemma HolderSet(pc: map<Tid, Pc>, lock: Lock, l: LockId, t: Tid)
    requires LockOk(pc, lock, l) && t in pc && pc[t].GotLock? && pc[t].l == l
    ensures lock.holder == None
    ensures LockOk(pc[t := User], lock.(holder := Some(t)), l)
  {
    if lock.holder.Some? {
      OnlyOwner(pc, lock, l, t, lock.holder.value);
      assert false;
    }
    assert Owners(pc[t := User], lock.(holder := Some(t)), l) == Owners(pc, lock, l);
    forall u | u in pc && (pc[u].DownLock? || pc[u].DownWaiter? || pc[u].Pushed?) && pc[u].l == l && u != t
      ensures !pc[u].Pushed?
    {
      if pc[u].Pushed? { OnlyOwner(pc, lock, l, t, u); }
    }
  }

  lemma HolderCleared(pc: map<Tid, Pc>, lock: Lock, l: LockId, t: Tid, wait: Option<(CondId, WaiterId)>)
    requires LockOk(pc, lock, l) && t in pc && lock.holder == Some(t)
    ensures LockOk(pc[t := Released(l, wait)], lock.(holder := None), l)
  {
    assert Owners(pc[t := Released(l, wait)], lock.(holder := None), l) == Owners(pc, lock, l);
  }

  lemma LockGivenBack(pc: map<Tid, Pc>, lock: Lock, l: LockId, t: Tid, pc1: Pc)
    requires LockOk(pc, lock, l) && t in pc && pc[t].Released? && pc[t].l == l
    requires pc1.User? || pc1.DownWaiter?
    ensures LockOk(pc[t := pc1], lock.(sema := Upped(lock.sema)), l)
  {
    assert lock.holder != Some(t);
    assert Owners(pc[t := pc1], lock.(sema := Upped(lock.sema)), l) == Owners(pc, lock, l) - {t};
    assert t in Owners(pc, lock, l);
  }

  lemma StepFrame(m: Monitor, step: Step)
    requires Legal(m, step)
    ensures Next(m, step).locks.Keys == m.locks.Keys && Next(m, step).lockOf == m.lockOf
    ensures step.t in Next(m, step).pc && Next(m, step).pc == m.pc[step.t := Next(m, step).pc[step.t]]
    ensures Next(m, step).conds.Keys == m.conds.Keys
  {
    hide Next;
    StepFramePc(m, step);
    StepFrameLocks(m, step);
    StepFrameConds(m, step);
  }

  lemma StepFramePc(m: Monitor, step: Step)
    requires Legal(m, step)
    ensures step.t in Next(m, step).pc && Next(m, step).pc == m.pc[step.t := Next(m, step).pc[step.t]]
  {
    match step
    case Acquire(_, _) =>
    case TryAcquire(_, _) =>
    case LockTest(_) =>
    case SetHolder(_) =>
    case Release(_, _) =>
    case LockUp(_) =>
    case Wait(_, _) =>
    case WaitRelease(_) =>
    case WaiterTest(_) =>
    case Signal(_, _) =>
    case SignalUp(_) =>
  }

  lemma StepFrameLocks(m: Monitor, step: Step)
    requires Legal(m, step)
    ensures Next(m, step).locks.Keys == m.locks.Keys && Next(m, step).lockOf == m.lockOf
  {
    match step
    case Acquire(_, _) =>
    case TryAcquire(_, _) =>
    case LockTest(_) =>
    case SetHolder(_) =>
    case Release(_, _) =>
    case LockUp(_) =>
    case Wait(_, _) =>
    case WaitRelease(_) =>
    case WaiterTest(_) =>
    case Signal(_, _) =>
    case SignalUp(_) =>
  }

  lemma StepFrameConds(m: Monitor, step: Step)
    requires Legal(m, step)
    ensures Next(m, step).conds.Keys == m.conds.Keys
  {
    match step
    case Acquire(_, _) =>
    case TryAcquire(_, _) =>
    case LockTest(_) =>
    case SetHolder(_) =>
    case Release(_, _) =>
    case LockUp(_) =>
    case Wait(_, _) =>
    case WaitRelease(_) =>
    case WaiterTest(_) =>
    case Signal(_, _) =>
    case SignalUp(_) =>
  }

  /** Every step keeps every lock's invariant. */
  lemma StepKeepsLocks(m: Monitor, step: Step)
    requires LocksOk(m.pc, m.locks) && Legal(m, step)
    requires forall c | c in m.conds :: c in m.lockOf && m.lockOf[c] in m.locks
    ensures LocksOk(Next(m, step).pc, Next(m, step).locks)
  {
    hide LockOk;
    var m' := Next(m, step);
    StepFrame(m, step);
    forall l | l in m'.locks
      ensures LockOk(m'.pc, m'.locks[l], l)
    {
      StepKeepsLock(m, step, l);
    }
    OwnPcLock(m, step);
    forall u | u in m'.pc && !m'.pc[u].User? && !m'.pc[u].Signalling?
      ensures m'.pc[u].l in m'.locks
    {
      if u != step.t { assert m'.pc[u] == m.pc[u]; }
    }
  }

  lemma OwnPcLock(m: Monitor, step: Step)
    requires Legal(m, step) && step.t in Next(m, step).pc
    requires forall c | c in m.conds :: c in m.lockOf && m.lockOf[c] in m.locks
    requires forall t | t in m.pc && !m.pc[t].User? && !m.pc[t].Signalling? :: m.pc[t].l in m.locks
    ensures var pc := Next(m, step).pc[step.t]; !pc.User? && !pc.Signalling? ==> pc.l in m.locks
  {
  }

  /** The step takes, gives back, or changes the holder of lock l. */
  ghost predicate Touches(m: Monitor, step: Step, l: LockId)
    requires Legal(m, step) && l in m.locks
  {
    var pc := m.pc[step.t];
    match step
    case TryAcquire(_, l1) => l1 == l && m.locks[l].sema.value > 0
    case LockTest(_) => pc.l == l && m.locks[l].sema.value > 0
    case SetHolder(_) => pc.l == l
    case Release(_, l1) => l1 == l
    case LockUp(_) => pc.l == l
    case WaitRelease(_) => pc.l == l
    case _ => false
  }

  lemma TouchedLock(m: Monitor, step: Step, l: LockId)
    requires Legal(m, step) && l in m.locks && LockOk(m.pc, m.locks[l], l) && Touches(m, step, l)
    ensures l in Next(m, step).locks && LockOk(Next(m, step).pc, Next(m, step).locks[l], l)
  {
    hide LockOk;
    var t := step.t;
    var pc := m.pc[t];
    DownNotHolder(m, t, l);
    match step
    case TryAcquire(_, _) => LockTaken(m.pc, m.locks[l], l, t, None);
    case LockTest(_) => LockTaken(m.pc, m.locks[l], l, t, pc.back);
    case SetHolder(_) => HolderSet(m.pc, m.locks[l], l, t);
    case Release(_, _) => HolderCleared(m.pc, m.locks[l], l, t, None);
    case LockUp(_) => LockGivenBack(m.pc, m.locks[l], l, t, Next(m, step).pc[t]);
    case WaitRelease(_) => HolderCleared(m.pc, m.locks[l], l, t, Some((pc.c, pc.w)));
    case _ =>
  }

  lemma UntouchedLock(m: Monitor, step: Step, l: LockId)
    requires Legal(m, step) && l in m.locks && LockOk(m.pc, m.locks[l], l) && !Touches(m, step, l)
    ensures var m' := Next(m, step);
            && l in m'.locks && m'.locks[l].holder == m.locks[l].holder
               && m'.locks[l].sema.value == m.locks[l].sema.value
            && step.t in m'.pc && Between(m'.pc[step.t], l) == Between(m.pc[step.t], l)
            && ((m'.pc[step.t].DownLock? || m'.pc[step.t].DownWaiter?) && m'.pc[step.t].l == l ==>
                 m.locks[l].holder != Some(step.t))
            && (m'.pc[step.t].Pushed? && m'.pc[step.t].l == l ==> m.locks[l].holder == Some(step.t))
  {
    hide LockOk;
    DownNotHolder(m, step.t, l);
    match step
    case Acquire(_, _) =>
    case TryAcquire(_, _) =>
    case LockTest(_) =>
    case SetHolder(_) =>
    case Release(_, _) =>
    case LockUp(_) =>
    case Wait(_, _) =>
    case WaitRelease(_) =>
    case WaiterTest(_) =>
    case Signal(_, _) =>
    case SignalUp(_) =>
  }

  lemma StepKeepsLock(m: Monitor, step: Step, l: LockId)
    requires LocksOk(m.pc, m.locks) && Legal(m, step) && l in m.locks
    ensures l in Next(m, step).locks && LockOk(Next(m, step).pc, Next(m, step).locks[l], l)
  {
    hide LockOk, Next;
    assert LockOk(m.pc, m.locks[l], l);
    if Touches(m, step, l) {
      TouchedLock(m, step, l);
    } else {
      StepFrame(m, step);
      UntouchedLock(m, step, l);
      LockUnaffected(m.pc, Next(m, step).pc, m.locks[l], Next(m, step).locks[l], l, step.t);
    }
  }

  lemma DownNotHolder(m: Monitor, t: Tid, l: LockId)
    requires l in m.locks && t in m.pc && LockOk(m.pc, m.locks[l], l)
    ensures (m.pc[t].DownLock? || m.pc[t].DownWaiter?) && m.pc[t].l == l ==> m.locks[l].holder != Some(t)
    ensures m.pc[t].Pushed? && m.pc[t].l == l ==> m.locks[l].holder == Some(t)
  {
  }

  // ---------------------------------------------------------------
  // Condition variables: where each signal is
  // ---------------------------------------------------------------

  ghost predicate Listed(conds: map<CondId, seq<WaiterId>>, w: WaiterId) {
    exists c :: c in conds && w in conds[c]
  }

  ghost function Signallers(pc: map<Tid, Pc>, w: WaiterId): set<Tid> {
    set t | t in pc && pc[t].Signalling? && pc[t].w == w
  }

  /** The one token of a waiter: its place on a list, a signaller about to up its semaphore, or
      that semaphore's unit. */
  ghost function Tokens(m: Monitor, w: WaiterId): nat
    requires w in m.waker
  {
    (if Listed(m.conds, w) then 1 else 0) + |Signallers(m.pc, w)| + m.waker[w].value
  }

  ghost predicate WaiterOk(m: Monitor, w: WaiterId) {
    && w in m.waker && w in m.callers
    && Tokens(m, w) == (if w in m.pending then 1 else 0)
    && (w in m.signalled <==> !Listed(m.conds, w))
    && (w in m.pending ==> m.callers[w] in m.pc && Waiting(m.pc[m.callers[w]], w))
  }

  /** In cond_wait with waiter w, not yet past its semaphore. */
  ghost predicate Waiting(pc: Pc, w: WaiterId) {
    || (pc.Pushed? && pc.w == w)
    || (pc.Released? && pc.wait.Some? && pc.wait.value.1 == w)
    || (pc.DownWaiter? && pc.w == w)
  }

  /** In the lock_acquire at the end of cond_wait with waiter w. */
  ghost predicate Reacquiring(pc: Pc, w: WaiterId) {
    (pc.DownLock? || pc.GotLock?) && pc.back == Some(w)
  }

  ghost predicate PcOk(m: Monitor, t: Tid)
    requires t in m.pc
  {
    && (forall w: nat | Waiting(m.pc[t], w) ::
                  w < m.nextWaiter && w in m.pending && w in m.callers && m.callers[w] == t)
    && (forall w: nat | Reacquiring(m.pc[t], w) ::
                  w < m.nextWaiter && w !in m.pending && w in m.signalled && w in m.callers && m.callers[w] == t)
    && (m.pc[t].Signalling? ==> m.pc[t].w < m.nextWaiter)
  }

  /** A list is in order of arrival, and no waiter is on two lists. */
  ghost predicate ListsOk(conds: map<CondId, seq<WaiterId>>, next: WaiterId) {
    && (forall c, i, j | c in conds && 0 <= i < j < |conds[c]| :: conds[c][i] < conds[c][j])
    && (forall c, w | c in conds && w in conds[c] :: w < next)
    && (forall c, d, w | c in conds && d in conds && w in conds[c] && w in conds[d] :: c == d)
  }

  ghost predicate CondsOk(m: Monitor) {
    && ListsOk(m.conds, m.nextWaiter)
    && (forall w | 0 <= w < m.nextWaiter :: WaiterOk(m, w))
    && (forall w | w in m.pending || w in m.signalled || w in m.waker :: w < m.nextWaiter)
    && (forall t | t in m.pc :: PcOk(m, t))
  }

  ghost predicate Inv(m: Monitor) {
    && LocksOk(m.pc, m.locks)
    && (forall c | c in m.conds :: c in m.lockOf && m.lockOf[c] in m.locks)
    && CondsOk(m)
    && SleepersOk(m.pc, m.locks)
    && WakersOk(m.pc, m.waker)
  }

  lemma InitialInv(m: Monitor)
    requires Initial(m)
    ensures Inv(m)
  {
    forall l | l in m.locks
      ensures Owners(m.pc, m.locks[l], l) == {}
    {
    }
  }

  /** The thread of the step comes from and goes to points outside cond_signal. */
  lemma SignallersSame(pc: map<Tid, Pc>, pc': map<Tid, Pc>, t: Tid, w: WaiterId)
    requires t in pc && t in pc' && pc' == pc[t := pc'[t]]
    requires (pc[t].Signalling? && pc[t].w == w) == (pc'[t].Signalling? && pc'[t].w == w)
    ensures Signallers(pc', w) == Signallers(pc, w)
  {
  }

  lemma WaitLists(conds: map<CondId, seq<WaiterId>>, c: CondId, w: WaiterId)
    requires ListsOk(conds, w) && c in conds
    ensures ListsOk(conds[c := conds[c] + [w]], w + 1)
    ensures !Listed(conds, w)
    ensures forall v :: Listed(conds[c := conds[c] + [w]], v) <==> Listed(conds, v) || v == w
  {
    var conds' := conds[c := conds[c] + [w]];
    forall v
      ensures Listed(conds', v) <==> Listed(conds, v) || v == w
    {
      if v == w { assert w in conds'[c]; }
      if Listed(conds, v) {
        var d :| d in conds && v in conds[d];
        assert v in conds'[d];
      }
      if Listed(conds', v) && v != w {
        var d :| d in conds' && v in conds'[d];
        assert v in conds[d];
      }
    }
    forall d, i, j | d in conds' && 0 <= i < j < |conds'[d]|
      ensures conds'[d][i] < conds'[d][j]
    {
      if d == c && j == |conds[c]| { assert conds[c][i] in conds[c]; }
    }
  }

  lemma SignalLists(conds: map<CondId, seq<WaiterId>>, c: CondId, next: WaiterId)
    requires ListsOk(conds, next) && c in conds && conds[c] != []
    ensures ListsOk(conds[c := conds[c][1..]], next)
    ensures forall v :: Listed(conds[c := conds[c][1..]], v) <==> Listed(conds, v) && v != conds[c][0]
    ensures Listed(conds, conds[c][0]) && conds[c][0] < next
    ensures forall v | v in conds[c] :: conds[c][0] <= v
  {
    var w := conds[c][0];
    var conds' := conds[c := conds[c][1..]];
    assert conds[c] == [w] + conds[c][1..];
    assert w in conds[c];
    forall d, i, j | d in conds' && 0 <= i < j < |conds'[d]|
      ensures conds'[d][i] < conds'[d][j]
    {
      if d == c { assert conds[c][i + 1] < conds[c][j + 1]; }
    }
    forall d, v | d in conds' && v in conds'[d]
      ensures v in conds[d]
    {
    }
    forall v | v in conds[c][1..]
      ensures w < v
    {
      var j :| 0 <= j < |conds[c]| - 1 && conds[c][1..][j] == v;
      assert conds[c][0] < conds[c][j + 1];
    }
    forall v
      ensures Listed(conds', v) <==> Listed(conds, v) && v != w
    {
      if Listed(conds', v) {
        var d :| d in conds' && v in conds'[d];
        assert v in conds[d];
      }
      if Listed(conds, v) && v != w {
        var d :| d in conds && v in conds[d];
        assert v in conds'[d];
      }
    }
  }

  /** The steps that move a waiter's token. */
  ghost predicate MovesToken(m: Monitor, step: Step)
    requires Legal(m, step)
  {
    match step
    case Wait(_, _) => true
    case WaiterTest(t) => m.waker[m.pc[t].w].value > 0
    case Signal(_, c) => m.conds[c] != []
    case SignalUp(_) => true
    case _ => false
  }

  /** The others leave all waiters alone. */
  lemma QuietStep(m: Monitor, step: Step)
    requires Legal(m, step) && !MovesToken(m, step)
    ensures var m' := Next(m, step);
            && m'.conds == m.conds && m'.nextWaiter == m.nextWaiter && m'.callers == m.callers
            && m'.pending == m.pending && m'.signalled == m.signalled && m'.waker.Keys == m.waker.Keys
            && (forall w | w in m.waker :: m'.waker[w].value == m.waker[w].value)
            && step.t in m'.pc && !m'.pc[step.t].Signalling? && !m.pc[step.t].Signalling?
            && (forall w :: Waiting(m'.pc[step.t], w) <==> Waiting(m.pc[step.t], w))
            && (forall w | Reacquiring(m'.pc[step.t], w) :: Reacquiring(m.pc[step.t], w))
  {
    hide Next;
    QuietStepLists(m, step);
    QuietStepPc(m, step);
  }

  lemma QuietStepLists(m: Monitor, step: Step)
    requires Legal(m, step) && !MovesToken(m, step)
    ensures var m' := Next(m, step);
            && m'.conds == m.conds && m'.nextWaiter == m.nextWaiter && m'.callers == m.callers
            && m'.pending == m.pending && m'.signalled == m.signalled && m'.waker.Keys == m.waker.Keys
            && (forall w | w in m.waker :: m'.waker[w].value == m.waker[w].value)
  {
    match step
    case Acquire(_, _) =>
    case TryAcquire(_, _) =>
    case LockTest(_) =>
    case SetHolder(_) =>
    case Release(_, _) =>
    case LockUp(_) =>
    case Wait(_, _) =>
    case WaitRelease(_) =>
    case WaiterTest(_) =>
    case Signal(_, _) =>
    case SignalUp(_) =>
  }

  lemma QuietStepPc(m: Monitor, step: Step)
    requires Legal(m, step) && !MovesToken(m, step)
    ensures var m' := Next(m, step);
            && step.t in m'.pc && !m'.pc[step.t].Signalling? && !m.pc[step.t].Signalling?
            && (forall w :: Waiting(m'.pc[step.t], w) <==> Waiting(m.pc[step.t], w))
            && (forall w | Reacquiring(m'.pc[step.t], w) :: Reacquiring(m.pc[step.t], w))
  {
    match step
    case Acquire(_, _) =>
    case TryAcquire(_, _) =>
    case LockTest(_) =>
    case SetHolder(_) =>
    case Release(_, _) =>
    case LockUp(_) =>
    case Wait(_, _) =>
    case WaitRelease(_) =>
    case WaiterTest(_) =>
    case Signal(_, _) =>
    case SignalUp(_) =>
  }

  lemma QuietStepKeeps(m: Monitor, step: Step)
    requires Inv(m) && Legal(m, step) && !MovesToken(m, step)
    ensures CondsOk(Next(m, step))
  {
    hide Next, LocksOk, ListsOk, Listed;
    var m' := Next(m, step);
    StepFrame(m, step);
    QuietStep(m, step);
    forall w | 0 <= w < m'.nextWaiter
      ensures WaiterOk(m', w)
    {
      assert WaiterOk(m, w);
      SignallersSame(m.pc, m'.pc, step.t, w);
    }
    forall t | t in m'.pc
      ensures PcOk(m', t)
    {
      assert PcOk(m, t);
    }
  }

  lemma WaitParts(m: Monitor, t: Tid, c: CondId)
    requires Legal(m, Wait(t, c))
    ensures var m', w := Next(m, Wait(t, c)), m.nextWaiter;
            && m'.pc == m.pc[t := Pushed(c, m.lockOf[c], w)] && m'.waker == m.waker[w := Sema(0, [])]
            && m'.conds == m.conds[c := m.conds[c] + [w]] && m'.nextWaiter == w + 1 && m'.callers == m.callers[w := t]
            && m'.pending == m.pending + {w} && m'.signalled == m.signalled && m.pc[t] == User
  {
  }

  lemma WaitKeepsWaiter(m: Monitor, t: Tid, c: CondId, w: WaiterId)
    requires Inv(m) && Legal(m, Wait(t, c)) && w <= m.nextWaiter
    ensures WaiterOk(Next(m, Wait(t, c)), w)
  {
    hide LocksOk, ListsOk, Listed, SleepersOk, WakersOk, Next;
    var m', w0 := Next(m, Wait(t, c)), m.nextWaiter;
    WaitParts(m, t, c);
    WaitLists(m.conds, c, w0);
    SignallersSame(m.pc, m'.pc, t, w);
    if w == w0 {
      forall u | u in m.pc
        ensures u !in Signallers(m.pc, w0)
      {
        assert PcOk(m, u);
      }
      assert Signallers(m.pc, w0) == {};
    } else {
      assert WaiterOk(m, w);
    }
  }

  lemma WaitKeeps(m: Monitor, t: Tid, c: CondId)
    requires Inv(m) && Legal(m, Wait(t, c))
    ensures CondsOk(Next(m, Wait(t, c)))
  {
    hide LocksOk, ListsOk, Listed, SleepersOk, WakersOk, WaiterOk, Next;
    var m' := Next(m, Wait(t, c));
    WaitParts(m, t, c);
    WaitLists(m.conds, c, m.nextWaiter);
    forall w | 0 <= w < m'.nextWaiter
      ensures WaiterOk(m', w)
    {
      WaitKeepsWaiter(m, t, c, w);
    }
    forall u | u in m'.pc
      ensures PcOk(m', u)
    {
      assert PcOk(m, u);
    }
  }

  lemma WakeKeeps(m: Monitor, t: Tid)
    requires Inv(m) && Legal(m, WaiterTest(t)) && m.waker[m.pc[t].w].value > 0
    ensures CondsOk(Next(m, WaiterTest(t)))
    ensures m.pc[t].w in m.callers && m.callers[m.pc[t].w] == t && m.pc[t].w in m.signalled
  {
    hide LocksOk, ListsOk, Listed;
    var m' := Next(m, WaiterTest(t));
    var w0 := m.pc[t].w;
    assert PcOk(m, t) && Waiting(m.pc[t], w0);
    assert WaiterOk(m, w0);
    forall w | 0 <= w < m'.nextWaiter
      ensures WaiterOk(m', w)
    {
      assert WaiterOk(m, w);
      SignallersSame(m.pc, m'.pc, t, w);
    }
    forall u | u in m'.pc
      ensures PcOk(m', u)
    {
      assert PcOk(m, u);
    }
  }

  lemma SignalParts(m: Monitor, t: Tid, c: CondId)
    requires Legal(m, Signal(t, c)) && m.conds[c] != []
    ensures var m', w := Next(m, Signal(t, c)), m.conds[c][0];
            && m'.pc == m.pc[t := Signalling(c, w)] && m'.waker == m.waker && m.pc[t] == User
            && m'.conds == m.conds[c := m.conds[c][1..]] && m'.nextWaiter == m.nextWaiter && m'.callers == m.callers
            && m'.pending == m.pending && m'.signalled == m.signalled + {w}
  {
  }

  lemma SignalKeepsWaiter(m: Monitor, t: Tid, c: CondId, w: WaiterId)
    requires Inv(m) && Legal(m, Signal(t, c)) && m.conds[c] != [] && w < m.nextWaiter
    ensures WaiterOk(Next(m, Signal(t, c)), w)
  {
    hide LocksOk, ListsOk, Listed, SleepersOk, WakersOk, Next;
    var m' := Next(m, Signal(t, c));
    SignalParts(m, t, c);
    SignalLists(m.conds, c, m.nextWaiter);
    assert WaiterOk(m, w);
    if w == m.conds[c][0] {
      assert Signallers(m'.pc, w) == Signallers(m.pc, w) + {t};
      assert t !in Signallers(m.pc, w);
    } else {
      SignallersSame(m.pc, m'.pc, t, w);
    }
  }

  lemma SignalKeeps(m: Monitor, t: Tid, c: CondId)
    requires Inv(m) && Legal(m, Signal(t, c)) && m.conds[c] != []
    ensures CondsOk(Next(m, Signal(t, c)))
  {
    hide LocksOk, ListsOk, Listed, SleepersOk, WakersOk, WaiterOk, Next;
    var m' := Next(m, Signal(t, c));
    SignalParts(m, t, c);
    SignalLists(m.conds, c, m.nextWaiter);
    forall w | 0 <= w < m'.nextWaiter
      ensures WaiterOk(m', w)
    {
      SignalKeepsWaiter(m, t, c, w);
    }
    forall u | u in m'.pc
      ensures PcOk(m', u)
    {
      assert PcOk(m, u);
    }
  }

  lemma SignalUpParts(m: Monitor, t: Tid)
    requires Legal(m, SignalUp(t))
    ensures var m', w := Next(m, SignalUp(t)), m.pc[t].w;
            && m'.pc == m.pc[t := User] && m'.waker == m.waker[w := Upped(m.waker[w])]
            && m'.conds == m.conds && m'.nextWaiter == m.nextWaiter && m'.callers == m.callers
            && m'.pending == m.pending && m'.signalled == m.signalled
  {
  }

  lemma SignalUpWaiter(m: Monitor, t: Tid, w: WaiterId)
    requires Legal(m, SignalUp(t)) && WaiterOk(m, w)
    ensures WaiterOk(Next(m, SignalUp(t)), w)
  {
    hide Listed, Next;
    SignalUpParts(m, t);
    var pc' := m.pc[t := User];
    if w == m.pc[t].w {
      assert Signallers(m.pc, w) == Signallers(pc', w) + {t};
      assert t !in Signallers(pc', w);
    } else {
      SignallersSame(m.pc, pc', t, w);
    }
  }

  lemma SignalUpKeeps(m: Monitor, t: Tid)
    requires Inv(m) && Legal(m, SignalUp(t))
    ensures CondsOk(Next(m, SignalUp(t)))
  {
    hide LocksOk, ListsOk, Listed, WaiterOk, SleepersOk, WakersOk, Next;
    var m' := Next(m, SignalUp(t));
    SignalUpParts(m, t);
    forall w | 0 <= w < m'.nextWaiter
      ensures WaiterOk(m', w)
    {
      SignalUpWaiter(m, t, w);
    }
    forall u | u in m'.pc
      ensures PcOk(m', u)
    {
      assert PcOk(m, u);
    }
  }

  // ---------------------------------------------------------------
  // Who is asleep
  // ---------------------------------------------------------------

  ghost predicate AtDown(pc: Pc, l: LockId) { pc.DownLock? && pc.l == l }

  /** The threads awake in sema_down of lock l: they will test its semaphore next. */
  ghost function Coming(pc: map<Tid, Pc>, lock: Lock, l: LockId): set<Tid> {
    set t | t in pc && AtDown(pc[t], l) && t !in lock.sema.waiters
  }

  /** The sleepers on a lock's semaphore are threads in its sema_down, each listed once, and none
      of its wake-ups is lost. */
  ghost predicate LockSleepersOk(pc: map<Tid, Pc>, lock: Lock, l: LockId) {
    && NoRepeats(lock.sema.waiters)
    && (forall t | t in lock.sema.waiters :: t in pc && AtDown(pc[t], l))
    && NoneLost(lock.sema, Coming(pc, lock, l))
  }

  ghost predicate SleepersOk(pc: map<Tid, Pc>, locks: map<LockId, Lock>) {
    forall l | l in locks :: LockSleepersOk(pc, locks[l], l)
  }

  ghost predicate AtWaiter(pc: Pc, w: WaiterId) { pc.DownWaiter? && pc.w == w }

  /** Nobody sleeps on a waiter's semaphore while it has its unit, and at most the one thread in
      its sema_down ever does. */
  ghost predicate WakerOk(pc: map<Tid, Pc>, s: Sema, w: WaiterId) {
    && (s.value > 0 ==> s.waiters == [])
    && (s.waiters != [] ==> |s.waiters| == 1 && s.waiters[0] in pc && AtWaiter(pc[s.waiters[0]], w))
  }

  ghost predicate WakersOk(pc: map<Tid, Pc>, waker: map<WaiterId, Sema>) {
    forall w | w in waker :: WakerOk(pc, waker[w], w)
  }

  /** Thread t moves and the semaphore stays; t is on no list and does not leave its sema_down. */
  lemma SleepersSame(pc: map<Tid, Pc>, lock: Lock, lock': Lock, l: LockId, t: Tid, pc1: Pc)
    requires LockSleepersOk(pc, lock, l) && t in pc && lock'.sema == lock.sema
    requires AtDown(pc[t], l) ==> AtDown(pc1, l)
    ensures LockSleepersOk(pc[t := pc1], lock', l)
  {
    SubsetSize(Coming(pc, lock, l), Coming(pc[t := pc1], lock', l));
  }

  /** The loop of sema_down puts t to sleep: there is no unit to take. */
  lemma SleeperJoins(pc: map<Tid, Pc>, lock: Lock, l: LockId, t: Tid)
    requires LockSleepersOk(pc, lock, l) && t in pc && AtDown(pc[t], l) && t !in lock.sema.waiters
    requires lock.sema.value == 0
    ensures LockSleepersOk(pc, lock.(sema := Joined(lock.sema, t)), l)
  {
  }

  /** The taker was awake in sema_down, or passes by with lock_try_acquire. */
  lemma SleepersAtTake(pc: map<Tid, Pc>, lock: Lock, l: LockId, t: Tid, back: Option<WaiterId>)
    requires LockSleepersOk(pc, lock, l) && t in pc && lock.sema.value > 0 && t !in lock.sema.waiters
    ensures LockSleepersOk(pc[t := GotLock(l, back)], lock.(sema := Taken(lock.sema)), l)
  {
    var pc', lock' := pc[t := GotLock(l, back)], lock.(sema := Taken(lock.sema));
    assert Coming(pc', lock', l) == Coming(pc, lock, l) - {t};
  }

  /** The unit given back brings the first sleeper along. */
  lemma SleepersAtUp(pc: map<Tid, Pc>, lock: Lock, l: LockId, t: Tid, pc1: Pc)
    requires LockSleepersOk(pc, lock, l) && t in pc && pc[t].Released? && !pc1.DownLock?
    ensures LockSleepersOk(pc[t := pc1], lock.(sema := Upped(lock.sema)), l)
  {
    var pc', lock' := pc[t := pc1], lock.(sema := Upped(lock.sema));
    var q := lock.sema.waiters;
    if q != [] {
      assert q == [q[0]] + q[1..];
      assert q[0] !in q[1..];
      assert NoRepeats(q[1..]);
      assert Coming(pc', lock', l) == Coming(pc, lock, l) + {q[0]};
      assert q[0] !in Coming(pc, lock, l);
    }
  }

  lemma StepKeepsSleepers(m: Monitor, step: Step, l: LockId)
    requires Legal(m, step) && l in m.locks && LockSleepersOk(m.pc, m.locks[l], l)
    ensures l in Next(m, step).locks && LockSleepersOk(Next(m, step).pc, Next(m, step).locks[l], l)
  {
    hide LockSleepersOk, Coming;
    match step
    case LockTest(t) => LockTestSleepers(m, t, l);
    case TryAcquire(t, l1) => TryAcquireSleepers(m, t, l1, l);
    case LockUp(t) => LockUpSleepers(m, t, l);
    case _ =>
      hide Next;
      SleepersStay(m, step, l);
      SleepersSame(m.pc, m.locks[l], Next(m, step).locks[l], l, step.t, Next(m, step).pc[step.t]);
  }

  lemma LockTestSleepers(m: Monitor, t: Tid, l: LockId)
    requires Legal(m, LockTest(t)) && l in m.locks && LockSleepersOk(m.pc, m.locks[l], l)
    ensures var m' := Next(m, LockTest(t)); l in m'.locks && LockSleepersOk(m'.pc, m'.locks[l], l)
  {
    hide LockSleepersOk, Coming;
    var pc, m' := m.pc[t], Next(m, LockTest(t));
    if pc.l != l {
      SleepersSame(m.pc, m.locks[l], m'.locks[l], l, t, m'.pc[t]);
      assert m'.pc == m.pc[t := m'.pc[t]];
    } else if m.locks[l].sema.value > 0 {
      SleepersAtTake(m.pc, m.locks[l], l, t, pc.back);
    } else {
      SleeperJoins(m.pc, m.locks[l], l, t);
    }
  }

  lemma TryAcquireSleepers(m: Monitor, t: Tid, l1: LockId, l: LockId)
    requires Legal(m, TryAcquire(t, l1)) && l in m.locks && LockSleepersOk(m.pc, m.locks[l], l)
    ensures var m' := Next(m, TryAcquire(t, l1)); l in m'.locks && LockSleepersOk(m'.pc, m'.locks[l], l)
  {
    hide LockSleepersOk, Coming;
    var m' := Next(m, TryAcquire(t, l1));
    SleeperIsDown(m, t, l);
    if l1 == l && m.locks[l].sema.value > 0 {
      SleepersAtTake(m.pc, m.locks[l], l, t, None);
    } else {
      SleepersSame(m.pc, m.locks[l], m'.locks[l], l, t, m'.pc[t]);
      assert m'.pc == m.pc[t := m'.pc[t]];
    }
  }

  lemma LockUpSleepers(m: Monitor, t: Tid, l: LockId)
    requires Legal(m, LockUp(t)) && l in m.locks && LockSleepersOk(m.pc, m.locks[l], l)
    ensures var m' := Next(m, LockUp(t)); l in m'.locks && LockSleepersOk(m'.pc, m'.locks[l], l)
  {
    hide LockSleepersOk, Coming;
    var m' := Next(m, LockUp(t));
    if m.pc[t].l == l {
      SleepersAtUp(m.pc, m.locks[l], l, t, m'.pc[t]);
    } else {
      SleepersSame(m.pc, m.locks[l], m'.locks[l], l, t, m'.pc[t]);
    }
  }

  lemma SleeperIsDown(m: Monitor, t: Tid, l: LockId)
    requires l in m.locks && t in m.pc && LockSleepersOk(m.pc, m.locks[l], l)
    ensures t in m.locks[l].sema.waiters ==> AtDown(m.pc[t], l)
  {
  }

  lemma SleepersStay(m: Monitor, step: Step, l: LockId)
    requires Legal(m, step) && l in m.locks && !step.LockTest? && !step.TryAcquire? && !step.LockUp?
    ensures var m' := Next(m, step);
            && l in m'.locks && m'.locks[l].sema == m.locks[l].sema
            && step.t in m'.pc && m'.pc == m.pc[step.t := m'.pc[step.t]]
            && (AtDown(m.pc[step.t], l) ==> AtDown(m'.pc[step.t], l))
  {
    match step
    case Acquire(_, _) =>
    case SetHolder(_) =>
    case Release(_, _) =>
    case Wait(_, _) =>
    case WaitRelease(_) =>
    case WaiterTest(_) =>
    case Signal(_, _) =>
    case SignalUp(_) =>
    case _ =>
  }

  lemma WakerSame(pc: map<Tid, Pc>, pc': map<Tid, Pc>, s: Sema, w: WaiterId, t: Tid)
    requires WakerOk(pc, s, w) && t in pc && t in pc' && pc' == pc[t := pc'[t]]
    requires AtWaiter(pc[t], w) ==> AtWaiter(pc'[t], w) || t !in s.waiters
    ensures WakerOk(pc', s, w)
  {
    if s.waiters != [] { assert s.waiters[0] in s.waiters; }
  }

  lemma SameCaller(m: Monitor, t: Tid, u: Tid, w: WaiterId)
    requires t in m.pc && u in m.pc && PcOk(m, t) && PcOk(m, u) && Waiting(m.pc[t], w) && Waiting(m.pc[u], w)
    ensures t == u
  {
  }

  /** A waiter's semaphore has one thread in its sema_down, the one that made it. */
  lemma OneSleeper(m: Monitor, t: Tid, w: WaiterId)
    requires t in m.pc && AtWaiter(m.pc[t], w) && w in m.waker && WakerOk(m.pc, m.waker[w], w)
    requires forall u | u in m.pc :: PcOk(m, u)
    requires t !in m.waker[w].waiters
    ensures m.waker[w].waiters == []
  {
    var q := m.waker[w].waiters;
    if q != [] {
      SameCaller(m, t, q[0], w);
      assert false;
    }
  }

  lemma StepKeepsWaker(m: Monitor, step: Step, w: WaiterId)
    requires Legal(m, step) && w in Next(m, step).waker && w in m.waker && WakerOk(m.pc, m.waker[w], w)
    requires forall u | u in m.pc :: PcOk(m, u)
    ensures WakerOk(Next(m, step).pc, Next(m, step).waker[w], w)
  {
    hide PcOk, WakerOk, Next;
    match step
    case WaiterTest(t) => WaiterTestKeepsWaker(m, t, w);
    case SignalUp(t) => SignalUpKeepsWaker(m, t, w);
    case Wait(t, c) =>
      WaitParts(m, t, c);
      if w != m.nextWaiter {
        WakerSame(m.pc, Next(m, step).pc, m.waker[w], w, t);
      } else {
        NewWaker(Next(m, step).pc, w);
      }
    case _ =>
      WakersStay(m, step, w);
      WakerSame(m.pc, Next(m, step).pc, m.waker[w], w, step.t);
  }

  lemma WaiterTestKeepsWaker(m: Monitor, t: Tid, w: WaiterId)
    requires Legal(m, WaiterTest(t)) && w in m.waker && WakerOk(m.pc, m.waker[w], w)
    requires forall u | u in m.pc :: PcOk(m, u)
    ensures var m' := Next(m, WaiterTest(t)); w in m'.waker && WakerOk(m'.pc, m'.waker[w], w)
  {
    hide PcOk;
    if m.pc[t].w == w { OneSleeper(m, t, w); }
    WakerSame(m.pc, Next(m, WaiterTest(t)).pc, m.waker[w], w, t);
  }

  lemma SignalUpKeepsWaker(m: Monitor, t: Tid, w: WaiterId)
    requires Legal(m, SignalUp(t)) && w in m.waker && WakerOk(m.pc, m.waker[w], w)
    ensures var m' := Next(m, SignalUp(t)); w in m'.waker && WakerOk(m'.pc, m'.waker[w], w)
  {
    hide Next;
    SignalUpParts(m, t);
    WakerSame(m.pc, Next(m, SignalUp(t)).pc, m.waker[w], w, t);
  }

  lemma WakersStay(m: Monitor, step: Step, w: WaiterId)
    requires Legal(m, step) && !step.WaiterTest? && !step.SignalUp? && !step.Wait?
    ensures var m' := Next(m, step);
            && m'.waker == m.waker && step.t in m'.pc && m'.pc == m.pc[step.t := m'.pc[step.t]]
            && (AtWaiter(m.pc[step.t], w) ==> AtWaiter(m'.pc[step.t], w))
  {
    match step
    case Acquire(_, _) =>
    case TryAcquire(_, _) =>
    case LockTest(_) =>
    case SetHolder(_) =>
    case Release(_, _) =>
    case LockUp(_) =>
    case WaitRelease(_) =>
    case Signal(_, _) =>
    case _ =>
  }

  lemma WakerKeys(m: Monitor, step: Step)
    requires Legal(m, step)
    ensures forall w | w in Next(m, step).waker && w !in m.waker ::
              step.Wait? && w == m.nextWaiter && Next(m, step).waker[w] == Sema(0, [])
  {
    match step
    case Acquire(_, _) =>
    case TryAcquire(_, _) =>
    case LockTest(_) =>
    case SetHolder(_) =>
    case Release(_, _) =>
    case LockUp(_) =>
    case Wait(_, _) =>
    case WaitRelease(_) =>
    case WaiterTest(_) =>
    case Signal(_, _) =>
    case SignalUp(_) =>
  }

  lemma StepKeepsSleep(m: Monitor, step: Step)
    requires Inv(m) && Legal(m, step)
    ensures SleepersOk(Next(m, step).pc, Next(m, step).locks) && WakersOk(Next(m, step).pc, Next(m, step).waker)
  {
    hide Next, Legal, LocksOk, WaiterOk, ListsOk, PcOk, LockSleepersOk, WakerOk;
    var m' := Next(m, step);
    StepFrame(m, step);
    WakerKeys(m, step);
    forall l | l in m'.locks
      ensures LockSleepersOk(m'.pc, m'.locks[l], l)
    {
      StepKeepsSleepers(m, step, l);
    }
    forall w | w in m'.waker
      ensures WakerOk(m'.pc, m'.waker[w], w)
    {
      if w in m.waker { StepKeepsWaker(m, step, w); } else { NewWaker(m'.pc, w); }
    }
  }

  lemma NewWaker(pc: map<Tid, Pc>, w: WaiterId)
    ensures WakerOk(pc, Sema(0, []), w)
  {
  }

  lemma StepKeeps(m: Monitor, step: Step)
    requires Inv(m) && Legal(m, step)
    ensures Inv(Next(m, step))
  {
    hide LocksOk, CondsOk, SleepersOk, WakersOk, Next;
    StepKeepsLocks(m, step);
    StepKeepsSleep(m, step);
    StepFrame(m, step);
    if MovesToken(m, step) {
      match step
      case Wait(t, c) => WaitKeeps(m, t, c);
      case WaiterTest(t) => WakeKeeps(m, t);
      case Signal(t, c) => SignalKeeps(m, t, c);
      case SignalUp(t) => SignalUpKeeps(m, t);
      case _ =>
    } else {
      QuietStepKeeps(m, step);
    }
  }

  // ---------------------------------------------------------------
  // Whole runs
  // ---------------------------------------------------------------

  lemma {:induction false} RunKeeps(m: Monitor, steps: seq<Step>)
    requires Inv(m) && LegalRun(m, steps)
    ensures Inv(Run(m, steps))
    decreases |steps|
  {
    hide Inv, Next;
    if steps != [] {
      StepKeeps(m, steps[0]);
      RunKeeps(Next(m, steps[0]), steps[1..]);
    }
  }

  lemma {:induction false} RunAppend(m: Monitor, a: seq<Step>, b: seq<Step>)
    requires LegalRun(m, a) && LegalRun(Run(m, a), b)
    ensures LegalRun(m, a + b) && Run(m, a + b) == Run(Run(m, a), b)
    decreases |a|
  {
    hide Next, Legal;
    if a == [] {
      assert a + b == b;
    } else {
      RunAppend(Next(m, a[0]), a[1..], b);
      assert (a + b)[1..] == a[1..] + b;
    }
  }

  lemma {:induction false} RunSplit(m: Monitor, a: seq<Step>, b: seq<Step>)
    requires LegalRun(m, a + b)
    ensures LegalRun(m, a) && LegalRun(Run(m, a), b) && Run(m, a + b) == Run(Run(m, a), b)
    decreases |a|
  {
    hide Next, Legal;
    if a == [] {
      assert a + b == b;
    } else {
      assert (a + b)[1..] == a[1..] + b;
      RunSplit(Next(m, a[0]), a[1..], b);
    }
  }

  /** In every interleaving a lock has one owner or its semaphore has the unit, never both and
      never neither, counting an owner from before holder is set until after it is cleared. */
  lemma MutualExclusion(m0: Monitor, steps: seq<Step>, l: LockId)
    requires Initial(m0) && LegalRun(m0, steps) && l in Run(m0, steps).locks
    ensures var m := Run(m0, steps);
            && |Owners(m.pc, m.locks[l], l)| + m.locks[l].sema.value == 1
            && (forall t, u | t in Owners(m.pc, m.locks[l], l) && u in Owners(m.pc, m.locks[l], l) :: t == u)
  {
    InitialInv(m0);
    RunKeeps(m0, steps);
    var m := Run(m0, steps);
    hide Run, LegalRun;
    assert LockOk(m.pc, m.locks[l], l);
    forall t, u | t in Owners(m.pc, m.locks[l], l) && u in Owners(m.pc, m.locks[l], l)
      ensures t == u
    {
      OnlyOwner(m.pc, m.locks[l], l, t, u);
    }
  }

  /** In every interleaving, while threads sleep on a free lock's semaphore some thread awake in
      its sema_down is about to take it; none is asleep twice or anywhere else. */
  lemma NoLockWakeupLost(m0: Monitor, steps: seq<Step>, l: LockId)
    requires Initial(m0) && LegalRun(m0, steps) && l in Run(m0, steps).locks
    ensures var m := Run(m0, steps);
            var sema := m.locks[l].sema;
            && NoRepeats(sema.waiters) && (forall t | t in sema.waiters :: t in m.pc && AtDown(m.pc[t], l))
            && (sema.waiters != [] && sema.value > 0 ==> Coming(m.pc, m.locks[l], l) != {})
            && (forall t | t in Coming(m.pc, m.locks[l], l) :: Legal(m, LockTest(t)))
  {
    InitialInv(m0);
    RunKeeps(m0, steps);
    var m := Run(m0, steps);
    hide Run, LegalRun, LocksOk, CondsOk, NoRepeats;
    assert LockSleepersOk(m.pc, m.locks[l], l);
  }

  /** After any run, each thread inside cond_wait and not past its own semaphore is in exactly
      one of three places: on its list and unsignalled; off it, with one thread about to up its
      semaphore; off it, with the semaphore's unit waiting and the thread awake to take it. No
      signal is lost or doubled. */
  lemma SignalsAreKept(m0: Monitor, steps: seq<Step>, t: Tid, w: WaiterId)
    requires Initial(m0) && LegalRun(m0, steps)
    requires t in Run(m0, steps).pc && Waiting(Run(m0, steps).pc[t], w)
    ensures var m := Run(m0, steps);
            && w in m.waker
            && (Listed(m.conds, w) ==> w !in m.signalled && Signallers(m.pc, w) == {} && m.waker[w].value == 0)
            && (!Listed(m.conds, w) ==> w in m.signalled)
            && (!Listed(m.conds, w) ==> (|Signallers(m.pc, w)| == 1 && m.waker[w].value == 0)
                                        || (Signallers(m.pc, w) == {} && m.waker[w] == Sema(1, [])))
            && (m.pc[t].DownWaiter? && m.waker[w].value > 0 ==> Legal(m, WaiterTest(t)))
  {
    hide *;
    InitialInv(m0);
    RunKeeps(m0, steps);
    WaiterIsKept(Run(m0, steps), t, w);
  }

  lemma WaiterIsKept(m: Monitor, t: Tid, w: WaiterId)
    requires Inv(m) && t in m.pc && Waiting(m.pc[t], w)
    ensures w in m.waker
    ensures Listed(m.conds, w) ==> w !in m.signalled && Signallers(m.pc, w) == {} && m.waker[w].value == 0
    ensures !Listed(m.conds, w) ==> w in m.signalled
    ensures !Listed(m.conds, w) ==> (|Signallers(m.pc, w)| == 1 && m.waker[w].value == 0)
                                    || (Signallers(m.pc, w) == {} && m.waker[w] == Sema(1, []))
    ensures m.pc[t].DownWaiter? && m.waker[w].value > 0 ==> Legal(m, WaiterTest(t))
  {
    hide Listed, LocksOk, ListsOk, SleepersOk;
    assert PcOk(m, t);
    assert WaiterOk(m, w);
    assert WakerOk(m.pc, m.waker[w], w);
  }

  /** No step of t in a run. */
  ghost predicate NoneBy(steps: seq<Step>, t: Tid) {
    forall i | 0 <= i < |steps| :: steps[i].t != t
  }

  /** cond_signal takes the longest-waiting waiter off its list. When it is done, whatever the
      other threads did meanwhile, that waiter's semaphore has its one unit and no sleeper, and
      the thread that waits there, the one that made it and no other, is awake to take it. */
  lemma SignalReleasesOldest(m0: Monitor, steps: seq<Step>, t: Tid, c: CondId, between: seq<Step>)
    requires Initial(m0) && LegalRun(m0, steps) && Legal(Run(m0, steps), Signal(t, c))
    requires Run(m0, steps).conds[c] != []
    requires NoneBy(between, t) && LegalRun(Next(Run(m0, steps), Signal(t, c)), between)
    ensures var m := Run(m0, steps);
            var m1 := Run(Next(m, Signal(t, c)), between);
            var w := m.conds[c][0];
            && (forall v | v in m.conds[c] :: w <= v) && w !in m.signalled
            && Legal(m1, SignalUp(t))
            && w in m1.waker && w in m1.callers
            && var m2, u := Next(m1, SignalUp(t)), m1.callers[w];
               && w in m2.waker && m2.waker[w] == Sema(1, [])
               && u in m2.pc && Waiting(m2.pc[u], w)
               && (m2.pc[u].DownWaiter? ==> Legal(m2, WaiterTest(u)))
               && (forall v | v in m2.pc && Waiting(m2.pc[v], w) :: v == u)
  {
    hide Next, Run, LegalRun, Inv, Initial, NoneBy, Waiting;
    InitialInv(m0);
    RunKeeps(m0, steps);
    var m := Run(m0, steps);
    SignalStep(m, t, c);
    StepKeeps(m, Signal(t, c));
    OthersLeavePc(Next(m, Signal(t, c)), between, t);
    RunKeeps(Next(m, Signal(t, c)), between);
    SignalUpWakes(Run(Next(m, Signal(t, c)), between), t, c, m.conds[c][0]);
  }

  lemma SignalStep(m: Monitor, t: Tid, c: CondId)
    requires Inv(m) && Legal(m, Signal(t, c))
    requires m.conds[c] != []
    ensures var w := m.conds[c][0];
            && (forall v | v in m.conds[c] :: w <= v) && w !in m.signalled
            && t in Next(m, Signal(t, c)).pc && Next(m, Signal(t, c)).pc[t] == Signalling(c, w)
  {
    hide LocksOk, SleepersOk, WakersOk;
    SignalLists(m.conds, c, m.nextWaiter);
    assert WaiterOk(m, m.conds[c][0]);
  }

  lemma {:induction false} OthersLeavePc(m: Monitor, steps: seq<Step>, t: Tid)
    requires t in m.pc && LegalRun(m, steps) && NoneBy(steps, t)
    ensures t in Run(m, steps).pc && Run(m, steps).pc[t] == m.pc[t]
    decreases |steps|
  {
    hide Next, Legal;
    if steps != [] {
      StepFrame(m, steps[0]);
      OthersLeavePc(Next(m, steps[0]), steps[1..], t);
    }
  }

  /** The sema_up of cond_signal. */
  lemma SignalUpWakes(m: Monitor, t: Tid, c: CondId, w: WaiterId)
    requires Inv(m) && t in m.pc && m.pc[t] == Signalling(c, w)
    ensures Legal(m, SignalUp(t)) && w in m.waker && w in m.callers
    ensures var m', u := Next(m, SignalUp(t)), m.callers[w];
            && w in m'.waker && m'.waker[w] == Sema(1, [])
            && u in m'.pc && Waiting(m'.pc[u], w)
            && (m'.pc[u].DownWaiter? ==> Legal(m', WaiterTest(u)))
            && (forall v | v in m'.pc && Waiting(m'.pc[v], w) :: v == u)
  {
    hide Listed, LocksOk, ListsOk, SleepersOk;
    assert PcOk(m, t);
    assert WaiterOk(m, w);
    assert t in Signallers(m.pc, w);
    assert WakerOk(m.pc, m.waker[w], w);
    assert m.waker[w].value == 0 && w in m.pending by {
      assert Signallers(m.pc, w) != {};
    }
    forall v | v in m.pc && Waiting(m.pc[v], w)
      ensures v == m.callers[w]
    {
      assert PcOk(m, v);
    }
  }

  /** cond_wait returns only to the thread that called it, only after a signal for its own
      waiter, and with the lock held by that thread. */
  lemma WaitReturnsSignalled(m0: Monitor, steps: seq<Step>, t: Tid, w: WaiterId)
    requires Initial(m0) && LegalRun(m0, steps) && Legal(Run(m0, steps), SetHolder(t))
    requires Reacquiring(Run(m0, steps).pc[t], w)
    ensures var m := Run(m0, steps);
            && w in m.signalled && w in m.callers && m.callers[w] == t && w !in m.pending
            && m.locks[m.pc[t].l].holder == None
            && Holds(Next(m, SetHolder(t)), t, m.pc[t].l)
  {
    InitialInv(m0);
    RunKeeps(m0, steps);
    var m := Run(m0, steps);
    hide Run, LegalRun;
    assert PcOk(m, t);
    assert LockOk(m.pc, m.locks[m.pc[t].l], m.pc[t].l);
    HolderSet(m.pc, m.locks[m.pc[t].l], m.pc[t].l, t);
  }

  /** While thread t holds the lock of a condition variable, no other thread changes its list:
      the loop of cond_broadcast signals those waiters and no others. */
  lemma HolderGuardsList(m: Monitor, step: Step, t: Tid, c: CondId)
    requires Legal(m, step) && c in m.conds && c in m.lockOf && Holds(m, t, m.lockOf[c]) && step.t != t
    ensures c in Next(m, step).conds && Next(m, step).conds[c] == m.conds[c]
  {
    match step
    case Acquire(_, _) =>
    case TryAcquire(_, _) =>
    case LockTest(_) =>
    case SetHolder(_) =>
    case Release(_, _) =>
    case LockUp(_) =>
    case Wait(_, d) => assert d != c;
    case WaitRelease(_) =>
    case WaiterTest(_) =>
    case Signal(_, d) => assert d != c;
    case SignalUp(_) =>
  }

  /** Nor can another thread take the lock away. */
  lemma HolderStays(m: Monitor, step: Step, t: Tid, l: LockId)
    requires LocksOk(m.pc, m.locks) && Legal(m, step) && Holds(m, t, l) && step.t != t
    ensures Holds(Next(m, step), t, l)
  {
    assert LockOk(m.pc, m.locks[l], l);
    match step
    case Acquire(_, _) =>
    case TryAcquire(_, _) =>
    case LockTest(_) =>
    case SetHolder(u) => if m.pc[u].l == l { OnlyOwner(m.pc, m.locks[l], l, t, u); }
    case Release(_, _) =>
    case LockUp(_) =>
    case Wait(_, _) =>
    case WaitRelease(_) =>
    case WaiterTest(_) =>
    case Signal(_, _) =>
    case SignalUp(_) =>
  }

  /** While t is in cond_broadcast on c, its own steps are those of cond_signal. */
  ghost predicate InBroadcast(steps: seq<Step>, t: Tid, c: CondId) {
    forall i | 0 <= i < |steps| && steps[i].t == t :: steps[i] == Signal(t, c) || steps[i] == SignalUp(t)
  }

  ghost function SignalCount(steps: seq<Step>, t: Tid, c: CondId): nat {
    if steps == [] then 0 else (if steps[0] == Signal(t, c) then 1 else 0) + SignalCount(steps[1..], t, c)
  }

  lemma BroadcastStep(m: Monitor, step: Step, t: Tid, c: CondId)
    requires Inv(m) && Legal(m, step) && c in m.conds && c in m.lockOf && Holds(m, t, m.lockOf[c])
    requires step.t == t ==> step == Signal(t, c) || step == SignalUp(t)
    ensures var m' := Next(m, step);
            && m'.lockOf == m.lockOf && c in m'.conds && Holds(m', t, m.lockOf[c])
            && if step == Signal(t, c) && m.conds[c] != [] then m'.conds[c] == m.conds[c][1..]
               && Dequeued(m', t, m.conds[c][0])
               else m'.conds[c] == m.conds[c]
  {
    hide LocksOk, CondsOk, SleepersOk, WakersOk, Dequeued;
    if step.t != t {
      HolderGuardsList(m, step, t, c);
      HolderStays(m, step, t, m.lockOf[c]);
    } else if step == Signal(t, c) && m.conds[c] != [] {
      SignalTakes(m, t, c);
    }
  }

  /** Waiter w has been taken off its list, and its semaphore has been upped unless thread t is
      about to do that. */
  ghost predicate Dequeued(m: Monitor, t: Tid, w: WaiterId) {
    w in m.signalled && w < m.nextWaiter && Signallers(m.pc, w) <= {t}
  }

  lemma SignalTakes(m: Monitor, t: Tid, c: CondId)
    requires Inv(m) && Legal(m, Signal(t, c)) && m.conds[c] != []
    ensures Dequeued(Next(m, Signal(t, c)), t, m.conds[c][0])
  {
    hide LocksOk, SleepersOk, WakersOk;
    SignalLists(m.conds, c, m.nextWaiter);
    assert WaiterOk(m, m.conds[c][0]);
  }

  lemma StaysTaken(m: Monitor, step: Step, t: Tid, w: WaiterId)
    requires Inv(m) && Legal(m, step) && Dequeued(m, t, w)
    ensures Dequeued(Next(m, step), t, w)
  {
    hide LocksOk, SleepersOk, WakersOk, Next;
    assert WaiterOk(m, w);
    StepFrame(m, step);
    SignalledGrow(m, step);
    NewSignaller(m, step);
  }

  lemma SignalledGrow(m: Monitor, step: Step)
    requires Legal(m, step)
    ensures m.signalled <= Next(m, step).signalled && m.nextWaiter <= Next(m, step).nextWaiter
  {
    match step
    case Acquire(_, _) =>
    case TryAcquire(_, _) =>
    case LockTest(_) =>
    case SetHolder(_) =>
    case Release(_, _) =>
    case LockUp(_) =>
    case Wait(_, _) =>
    case WaitRelease(_) =>
    case WaiterTest(_) =>
    case Signal(_, _) =>
    case SignalUp(_) =>
  }

  lemma HeadListed(conds: map<CondId, seq<WaiterId>>, c: CondId)
    requires c in conds && conds[c] != []
    ensures Listed(conds, conds[c][0])
  {
    assert conds[c][0] in conds[c];
  }

  /** A thread comes to up only the semaphore of a waiter that it took off a list. */
  lemma NewSignaller(m: Monitor, step: Step)
    requires Legal(m, step) && step.t in Next(m, step).pc
    ensures var pc := Next(m, step).pc[step.t]; pc.Signalling? ==> pc == m.pc[step.t] || Listed(m.conds, pc.w)
  {
    hide Listed;
    match step
    case Acquire(_, _) =>
    case TryAcquire(_, _) =>
    case LockTest(_) =>
    case SetHolder(_) =>
    case Release(_, _) =>
    case LockUp(_) =>
    case Wait(_, _) =>
    case WaitRelease(_) =>
    case WaiterTest(_) =>
    case Signal(_, c) => if m.conds[c] != [] { HeadListed(m.conds, c); }
    case SignalUp(_) =>
  }

  lemma {:induction false} TakenForGood(m: Monitor, steps: seq<Step>, t: Tid, w: WaiterId)
    requires Inv(m) && LegalRun(m, steps) && Dequeued(m, t, w)
    ensures Dequeued(Run(m, steps), t, w)
    decreases |steps|
  {
    hide Inv, Legal, Next, Dequeued;
    if steps != [] {
      StaysTaken(m, steps[0], t, w);
      StepKeeps(m, steps[0]);
      TakenForGood(Next(m, steps[0]), steps[1..], t, w);
    }
  }

  lemma {:induction false} BroadcastTakesAll(m: Monitor, steps: seq<Step>, t: Tid, c: CondId)
    requires Inv(m) && LegalRun(m, steps) && InBroadcast(steps, t, c)
    requires c in m.conds && c in m.lockOf && Holds(m, t, m.lockOf[c])
    requires SignalCount(steps, t, c) >= |m.conds[c]|
    ensures var m' := Run(m, steps);
            && c in m'.conds && m'.conds[c] == []
            && forall w | w in m.conds[c] :: Dequeued(m', t, w)
    decreases |steps|
  {
    hide Inv, Legal, Next, Dequeued;
    if steps != [] {
      var m1 := Next(m, steps[0]);
      BroadcastStep(m, steps[0], t, c);
      StepKeeps(m, steps[0]);
      BroadcastTakesAll(m1, steps[1..], t, c);
      if steps[0] == Signal(t, c) && m.conds[c] != [] {
        assert m.conds[c] == [m.conds[c][0]] + m.conds[c][1..];
        TakenForGood(m1, steps[1..], t, m.conds[c][0]);
      }
    }
  }

  /** The waiter's semaphore has its unit, or that unit is taken; no thread sleeps there, and the
      one that may still be there is awake to take it. */
  ghost predicate Awake(m: Monitor, w: WaiterId) {
    && w in m.waker && m.waker[w].waiters == []
    && (w in m.pending ==> m.waker[w].value == 1)
    && (forall u | u in m.pc && AtWaiter(m.pc[u], w) :: w in m.pending && Legal(m, WaiterTest(u)))
  }

  lemma TakenIsAwake(m: Monitor, t: Tid, w: WaiterId)
    requires Inv(m) && Dequeued(m, t, w) && t in m.pc && !m.pc[t].Signalling?
    ensures w in m.signalled && Awake(m, w)
  {
    hide LocksOk, ListsOk, Listed, SleepersOk;
    assert WaiterOk(m, w);
    assert WakerOk(m.pc, m.waker[w], w);
    assert Signallers(m.pc, w) == {};
    forall u | u in m.pc && AtWaiter(m.pc[u], w)
      ensures w in m.pending
    {
      assert PcOk(m, u) && Waiting(m.pc[u], w);
    }
  }

  /** cond_broadcast wakes everyone who waited: whatever other threads do meanwhile, when it has
      made as many signals as the list had waiters and upped the last, the list is empty and each
      waiter that was on it has its unit, or has taken it, and its thread is not asleep. */
  lemma BroadcastWakesAll(m: Monitor, steps: seq<Step>, t: Tid, c: CondId)
    requires Inv(m) && LegalRun(m, steps) && InBroadcast(steps, t, c)
    requires c in m.conds && c in m.lockOf && Holds(m, t, m.lockOf[c])
    requires SignalCount(steps, t, c) >= |m.conds[c]|
    requires t in Run(m, steps).pc && Run(m, steps).pc[t] == User
    ensures var m' := Run(m, steps);
            && c in m'.conds && m'.conds[c] == []
            && forall w | w in m.conds[c] :: w in m'.signalled && Awake(m', w)
  {
    hide Inv, LegalRun, Run, InBroadcast, Holds, Awake;
    BroadcastTakesAll(m, steps, t, c);
    RunKeeps(m, steps);
    forall w | w in m.conds[c]
      ensures w in Run(m, steps).signalled && Awake(Run(m, steps), w)
    {
      TakenIsAwake(Run(m, steps), t, w);
    }
  }
}
