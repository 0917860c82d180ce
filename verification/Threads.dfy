/** sema_down of threads/synch.c as one thread runs it, from call to return: each time round its
    loop the thread goes to sleep, the processor is switched, and the other threads and the
    interrupt handlers do what they choose until the scheduler dispatches it again. */
module Threads {
  import opened Scheduler
  import opened Semaphores

  /** The k-th step taken while the thread is off the processor. */
  type Others = (nat, Kernel) -> Step

  ghost predicate AlwaysLegal(others: Others) {
    forall k, m :: Inv(m) ==> Legal(m, others(k, m))
  }

  ghost predicate Reached(main: Tid, idle: Tid, history: seq<Step>, k: Kernel) {
    main != idle && LegalRun(Started(main, idle), history) && k == Run(Started(main, idle), history)
  }

  lemma ReachedInv(main: Tid, idle: Tid, history: seq<Step>, k: Kernel)
    requires Reached(main, idle, history, k)
    ensures Inv(k)
  {
    hide Inv;
    StartedInv(main, idle);
    RunKeeps(Started(main, idle), history);
  }

  lemma {:induction false} RunSnoc(k: Kernel, steps: seq<Step>, step: Step)
    requires LegalRun(k, steps) && Legal(Run(k, steps), step)
    ensures LegalRun(k, steps + [step]) && Run(k, steps + [step]) == Next(Run(k, steps), step)
    decreases |steps|
  {
    hide Next, Legal;
    if steps == [] {
      assert LegalRun(Next(k, step), []);
      assert steps + [step] == [step];
    } else {
      RunSnoc(Next(k, steps[0]), steps[1..], step);
      assert (steps + [step])[1..] == steps[1..] + [step];
    }
  }

  lemma ReachedStep(main: Tid, idle: Tid, history: seq<Step>, k: Kernel, step: Step)
    requires Reached(main, idle, history, k) && Legal(k, step)
    ensures Reached(main, idle, history + [step], Next(k, step))
  {
    hide Next, Legal;
    RunSnoc(Started(main, idle), history, step);
  }

  /** Only the thread itself leaves sema_down. */
  lemma StaysInDown(k: Kernel, step: Step, t: Tid)
    requires Legal(k, step) && t in k.inDown && k.current != t
    ensures t in Next(k, step).inDown && Next(k, step).inDown[t] == k.inDown[t]
  {
    hide Schedule;
    match step
    case DownStep(s) =>
      if k.semas[s].value == 0 {
        SwitchFrame(Slept(k, s));
      }
    case TryDownStep(_) =>
    case UpStep(_) =>
    case InitStep(_, _) =>
    case YieldStep =>
      SwitchFrame(k.(ready := if k.current != k.idle then k.ready + [k.current] else k.ready,
                     status := k.status[k.current := Ready]));
    case ExitStep => SwitchFrame(k.(status := k.status[k.current := Dying]));
    case BlockStep => SwitchFrame(k.(status := k.status[k.current := Blocked]));
    case UnblockStep(_) =>
    case CreateStep(_) =>
  }

  lemma InDownKnown(k: Kernel, t: Tid)
    requires Inv(k) && t in k.inDown
    ensures t != k.idle && k.inDown[t] in k.semas && k.inDown[t] in k.downs
    ensures Waits(k.semas, k.inDown[t], t) ==> k.current != t
  {
  }

  class ThreadSystem {
    var status: map<Tid, Status>
    var ready: seq<Tid>
    var current: Tid
    const idle: Tid
    const main: Tid
    var semas: map<SemaId, Sema>
    var panicked: bool
    var inDown: map<Tid, SemaId>
    var initial: map<SemaId, nat>
    var ups: map<SemaId, nat>
    var downs: map<SemaId, nat>
    var clock: nat
    ghost var history: seq<Step>

    function State(): Kernel
      reads this
    {
      Kernel(status, ready, current, idle, main, semas, panicked, inDown, initial, ups, downs)
    }

    ghost predicate Valid()
      reads this
    {
      Reached(main, idle, history, State())
    }

    constructor (main: Tid, idle: Tid)
      requires main != idle
      ensures Valid() && history == [] && State() == Started(main, idle)
    {
      this.main, this.idle, current := main, idle, main;
      status, ready, semas, panicked := map[main := Running, idle := Blocked], [], map[], false;
      inDown, initial, ups, downs := map[], map[], map[], map[];
      history, clock := [], 0;
    }

    /** schedule, with next_thread_to_run and thread_schedule_tail. */
    method SwitchThreads()
      modifies this`ready, this`current, this`status, this`panicked
      ensures State() == Schedule(old(State()))
    {
      var cur, next := current, idle;
      if ready != [] {
        next := ready[0];
        ready := ready[1..];
      }
      if cur in status && status[cur] == Running {
        panicked := true;
      }
      if next !in status {
        panicked := true;
      }
      current := next;
      // thread_schedule_tail, on the new thread
      var dying := cur != next && cur in status && status[cur] == Dying && cur != main;
      status := status[next := Running];
      if dying {
        status := status - {cur};
      }
    }

    method Become(k: Kernel)
      requires k.idle == idle && k.main == main
      modifies this
      ensures State() == k && history == old(history)
    {
      status, ready, current, semas, panicked := k.status, k.ready, k.current, k.semas, k.panicked;
      inDown, initial, ups, downs := k.inDown, k.initial, k.ups, k.downs;
    }

    /** One step of whoever has the processor, or of an interrupt handler. */
    method OtherStep(t: Tid, others: Others)
      requires Valid() && AlwaysLegal(others) && t in inDown && current != t
      modifies this
      ensures Valid() && old(history) <= history && t in inDown && inDown[t] == old(inDown[t])
    {
      hide Inv, Legal, Next, Reached, LegalRun, Run, Schedule;
      ReachedInv(main, idle, history, State());
      var step := others(clock, State());
      ReachedStep(main, idle, history, State(), step);
      StaysInDown(State(), step, t);
      var k := Next(State(), step);
      NextFrame(State(), step);
      Become(k);
      clock, history := clock + 1, history + [step];
    }

    /** The body of the loop up to the switch: the thread joins the waiters and blocks. */
    method Sleep(s: SemaId)
      requires Valid() && Legal(State(), DownStep(s)) && semas[s].value == 0
      modifies this
      ensures Valid() && old(history) <= history && current != old(current)
      ensures old(current) in inDown && inDown[old(current)] == s
    {
      hide Inv, Reached, Schedule, LegalRun, Run, Next;
      ReachedStep(main, idle, history, State(), DownStep(s));
      ghost var k := State();
      semas := semas[s := Sema(0, semas[s].waiters + [current])];
      inDown := inDown[current := s];
      status := status[current := Blocked];
      assert State() == Slept(k, s);
      DownSwitches(k, s);
      SwitchThreads();
      assert State() == Next(k, DownStep(s));
      history := history + [DownStep(s)];
      ReachedInv(main, idle, history, State());
      SleeperOff(k, s);
    }

    /** sema_down. When it returns, the thread that called it has the processor again and took a
        unit in the very test that let it out of the loop; until then it is asleep or waiting for
        its turn. */
    method SemaDown(s: SemaId, others: Others, turns: nat) returns (done: bool)
      requires Valid() && AlwaysLegal(others) && Legal(State(), DownStep(s)) && current !in inDown
      modifies this
      ensures Valid() && old(history) <= history
      ensures done ==> current == old(current) && current !in inDown && TookUnit(main, idle, history, current, s)
      ensures !done ==> current != old(current) && old(current) in inDown && inDown[old(current)] == s
    {
      hide Inv, Reached, Schedule, Next, AlwaysLegal;
      var t, left := current, turns;
      while semas[s].value == 0
        invariant Valid() && old(history) <= history && current == t
        invariant Legal(State(), DownStep(s))
        decreases left
      {
        Sleep(s);
        ghost var before := left;
        while current != t
          invariant Valid() && old(history) <= history && t in inDown && inDown[t] == s
          invariant left <= before && (left == before ==> current != t)
          decreases left
        {
          if left == 0 {
            return false;
          }
          OtherStep(t, others);
          left := left - 1;
        }
        ReachedInv(main, idle, history, State());
        InDownKnown(State(), t);
      }
      ReachedStep(main, idle, history, State(), DownStep(s));
      TakesUnit(main, idle, history, State(), s);
      semas := semas[s := Sema(semas[s].value - 1, semas[s].waiters)];
      inDown := inDown - {t};
      downs := downs[s := downs[s] + 1];
      history := history + [DownStep(s)];
      done := true;
    }
  }

  /** The last step was a test of s by t that found a unit. */
  ghost predicate TookUnit(main: Tid, idle: Tid, history: seq<Step>, t: Tid, s: SemaId) {
    && history != [] && history[|history| - 1] == DownStep(s)
    && var before := history[..|history| - 1];
       && LegalRun(Started(main, idle), before)
       && var k := Run(Started(main, idle), before);
          k.current == t && s in k.semas && k.semas[s].value > 0
  }

  lemma TakesUnit(main: Tid, idle: Tid, history: seq<Step>, k: Kernel, s: SemaId)
    requires Reached(main, idle, history, k) && s in k.semas && k.semas[s].value > 0
    requires s in k.downs && Legal(k, DownStep(s))
    ensures TookUnit(main, idle, history + [DownStep(s)], k.current, s)
    ensures Next(k, DownStep(s)) == k.(semas := k.semas[s := Taken(k.semas[s])], inDown := k.inDown - {k.current},
                                       downs := k.downs[s := k.downs[s] + 1])
  {
    hide LegalRun, Run;
    assert (history + [DownStep(s)])[..|history|] == history;
  }

  /** The state at the switch when the test found no unit. */
  ghost function Slept(k: Kernel, s: SemaId): Kernel
    requires s in k.semas
  {
    k.(semas := k.semas[s := Joined(k.semas[s], k.current)], inDown := k.inDown[k.current := s],
       status := k.status[k.current := Blocked])
  }

  lemma DownSwitches(k: Kernel, s: SemaId)
    requires Legal(k, DownStep(s)) && k.semas[s].value == 0
    ensures Next(k, DownStep(s)) == Schedule(Slept(k, s))
  {
  }

  lemma SleeperOff(k: Kernel, s: SemaId)
    requires Legal(k, DownStep(s)) && k.semas[s].value == 0 && Inv(Next(k, DownStep(s)))
    ensures var k' := Next(k, DownStep(s));
            k'.current != k.current && k.current in k'.inDown && k'.inDown[k.current] == s
  {
    hide Inv, Schedule, Next;
    DownSwitches(k, s);
    SwitchFrame(Slept(k, s));
    InDownKnown(Next(k, DownStep(s)), k.current);
  }

  lemma SwitchFrame(k: Kernel)
    ensures Schedule(k).semas == k.semas && Schedule(k).inDown == k.inDown
  {
  }
}
