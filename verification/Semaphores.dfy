/** The struct semaphore of threads/synch.h: its units and the threads asleep on it, first come
    first. */
module Semaphores {
  type Tid = nat

  datatype Sema = Sema(value: nat, waiters: seq<Tid>)

  /** The end of sema_down. */
  function Taken(s: Sema): Sema
    requires s.value > 0
  {
    s.(value := s.value - 1)
  }

  /** The loop of sema_down puts t to sleep. */
  function Joined(s: Sema, t: Tid): Sema { s.(waiters := s.waiters + [t]) }

  /** sema_up wakes the first waiter, if any. */
  function Upped(s: Sema): Sema {
    Sema(s.value + 1, if s.waiters == [] then [] else s.waiters[1..])
  }

  /** No wake-up is lost: while threads sleep on s, as many threads as s has units are awake and
      on their way to take them. */
  ghost predicate NoneLost(s: Sema, awake: set<Tid>) {
    s.waiters != [] ==> |awake| >= s.value
  }
}
