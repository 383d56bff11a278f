/** Semaphores and locks as values (threads/synch.cc): what one interrupts-off section of each
    operation does. Queues hold thread numbers. */
module Synch {
  import opened Common

  /** The last three fields are history: the initial value, Vs so far, completed Ps. */
  datatype Sem = Sem(value: nat, queue: seq<nat>, initial: nat, vs: nat, ps: nat)

  function NewSem(initial: nat): Sem {
    Sem(initial, [], initial, 0, 0)
  }

  function Take(s: Sem): Sem
    requires s.value > 0
  {
    s.(value := s.value - 1, ps := s.ps + 1)
  }

  function Wait(s: Sem, t: nat): Sem {
    s.(queue := s.queue + [t])
  }

  /** V: the head of the queue, if any, leaves it, and the value grows all the same. */
  function Signal(s: Sem): Sem {
    s.(queue := if s.queue == [] then [] else s.queue[1..], value := s.value + 1, vs := s.vs + 1)
  }

  predicate Balanced(s: Sem) {
    s.value + s.ps == s.initial + s.vs
  }

  datatype Lock = Lock(busy: bool, owner: Option<nat>, queue: seq<nat>)

  const FREE_LOCK: Lock := Lock(false, None, [])

  function Grab(l: Lock, t: nat): Lock {
    l.(busy := true, owner := Some(t))
  }

  function Queue(l: Lock, t: nat): Lock {
    l.(queue := l.queue + [t])
  }

  /** Release by the owner: straight to the first waiter, or free. */
  function HandOff(l: Lock): Lock {
    if l.queue != [] then l.(queue := l.queue[1..], owner := Some(l.queue[0]))
    else l.(busy := false, owner := None)
  }

  ghost predicate LockOk(l: Lock) {
    && (l.busy <==> l.owner.Some?)
    && (l.queue != [] ==> l.busy)
    && (l.owner.Some? ==> l.owner.value !in l.queue)
  }
}
