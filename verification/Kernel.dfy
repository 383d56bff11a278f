/** Threads, scheduler, semaphores and locks as one step system (threads/thread.cc,
    threads/scheduler.cc, threads/synch.cc). A step is a section with interrupts off, cut where
    the CPU is switched; between steps anything that can happen may happen. */
module Kernel {
  import opened Common
  import opened Synch

  datatype Status = JustCreated | Running | Ready | Blocked

  /** The blocking call a thread is inside, if any. */
  datatype Call = NoCall | InP(sem: nat) | InAcquire(lock: nat)

  /** started: has been on the CPU, so a dispatch resumes it inside Scheduler::Run and not in
      ThreadRoot. destroyed counts deletions of the carcass. */
  datatype Thread = Thread(status: Status, call: Call, started: bool, finished: bool, destroyed: nat)

  /** idling: currentThread sleeps and its Sleep is looping in Interrupt::Idle. */
  datatype State = State(threads: seq<Thread>, current: nat, idling: bool, ready: seq<nat>,
                         sems: seq<Sem>, locks: seq<Lock>, toDestroy: Option<nat>)

  const NEW_THREAD: Thread := Thread(JustCreated, NoCall, false, false, 0)

  /** The main thread alone, with fresh semaphores and locks. */
  function Boot(initials: seq<nat>, locks: nat): State {
    State([Thread(Running, NoCall, true, false, 0)], 0, false, [],
          seq(|initials|, i requires 0 <= i < |initials| => NewSem(initials[i])),
          seq(locks, _ => FREE_LOCK), None)
  }

  // ---- scheduler ------------------------------------------------------------------------

  predicate InBounds(k: State) {
    && k.current < |k.threads|
    && (forall i :: 0 <= i < |k.ready| ==> k.ready[i] < |k.threads|)
  }

  function SetStatus(threads: seq<Thread>, t: nat, s: Status): seq<Thread>
    requires t < |threads|
  {
    threads[t := threads[t].(status := s)]
  }

  function SetCall(threads: seq<Thread>, t: nat, c: Call): seq<Thread>
    requires t < |threads|
  {
    threads[t := threads[t].(call := c)]
  }

  function ReadyToRun(k: State, t: nat): State
    requires t < |k.threads|
  {
    k.(threads := SetStatus(k.threads, t, Ready), ready := k.ready + [t])
  }

  /** The deletion after SWITCH, which only a thread that was switched out before performs. */
  function Reaped(threads: seq<Thread>, toDestroy: Option<nat>, next: nat): seq<Thread>
    requires next < |threads|
  {
    if threads[next].started && toDestroy.Some? && toDestroy.value < |threads| then
      var d := toDestroy.value;
      threads[d := threads[d].(destroyed := threads[d].destroyed + 1)]
    else threads
  }

  /** Scheduler::Run */
  function Run(k: State, next: nat): State
    requires next < |k.threads|
  {
    var reaped := Reaped(k.threads, k.toDestroy, next);
    k.(current := next, idling := false,
       threads := reaped[next := reaped[next].(status := Running, started := true)],
       toDestroy := if k.threads[next].started then None else k.toDestroy)
  }

  /** FindNextToRun, then Run. */
  function Dispatch(k: State): State
    requires k.ready != [] && k.ready[0] < |k.threads|
  {
    Run(k.(ready := k.ready[1..]), k.ready[0])
  }

  // ---- thread operations ----------------------------------------------------------------

  function Yield(k: State): State
    requires InBounds(k)
  {
    if k.ready == [] then k
    else Run(ReadyToRun(k.(ready := k.ready[1..]), k.current), k.ready[0])
  }

  function Sleep(k: State): State
    requires InBounds(k)
  {
    var k1 := k.(threads := SetStatus(k.threads, k.current, Blocked));
    if k1.ready == [] then k1.(idling := true) else Dispatch(k1)
  }

  function Finish(k: State): State
    requires InBounds(k)
  {
    Sleep(k.(toDestroy := Some(k.current),
             threads := k.threads[k.current := k.threads[k.current].(finished := true)]))
  }

  // ---- synchronization -------------------------------------------------------------------

  /** One round of the loop in P: first test or re-test. */
  function P(k: State, s: nat): State
    requires InBounds(k) && s < |k.sems|
  {
    if k.sems[s].value == 0 then
      Sleep(k.(sems := k.sems[s := Wait(k.sems[s], k.current)],
               threads := SetCall(k.threads, k.current, InP(s))))
    else
      k.(sems := k.sems[s := Take(k.sems[s])], threads := SetCall(k.threads, k.current, NoCall))
  }

  function V(k: State, s: nat): State
    requires s < |k.sems| && (k.sems[s].queue != [] ==> k.sems[s].queue[0] < |k.threads|)
  {
    var k1 := if k.sems[s].queue == [] then k else ReadyToRun(k, k.sems[s].queue[0]);
    k1.(sems := k.sems[s := Signal(k.sems[s])])
  }

  function Acquire(k: State, l: nat): State
    requires InBounds(k) && l < |k.locks|
  {
    if k.locks[l].owner == Some(k.current) then k
    else if !k.locks[l].busy then k.(locks := k.locks[l := Grab(k.locks[l], k.current)])
    else Sleep(k.(locks := k.locks[l := Queue(k.locks[l], k.current)],
                  threads := SetCall(k.threads, k.current, InAcquire(l))))
  }

  function Release(k: State, l: nat): State
    requires l < |k.locks| && (k.locks[l].queue != [] ==> k.locks[l].queue[0] < |k.threads|)
  {
    if k.locks[l].owner != Some(k.current) then k
    else
      var k1 := if k.locks[l].queue == [] then k else ReadyToRun(k, k.locks[l].queue[0]);
      k1.(locks := k.locks[l := HandOff(k.locks[l])])
  }

  // ---- steps -------------------------------------------------------------------------------

  datatype Event =
    | ECreate
    | EFork(t: nat)
    | EYield
    | EP(s: nat)            // by the running thread; a re-test when it is already inside P
    | EV(s: nat)            // by the running thread, or by an interrupt handler
    | EAcquire(l: nat)
    | EReturn               // out of Acquire after the hand-off
    | ERelease(l: nat)
    | EFinish
    | EResume               // the idle loop finds a ready thread

  /** The running thread is in none of the blocking calls: interrupts may be on. */
  predicate Free(k: State) {
    !k.idling && k.current < |k.threads| && k.threads[k.current].call == NoCall
  }

  predicate Enabled(k: State, e: Event) {
    match e
    case ECreate => Free(k)
    case EFork(t) => Free(k) && t < |k.threads| && k.threads[t].status == JustCreated
    case EYield => Free(k)
    case EP(s) => s < |k.sems| && !k.idling && k.current < |k.threads|
                  && (k.threads[k.current].call == NoCall || k.threads[k.current].call == InP(s))
    case EV(s) => s < |k.sems| && (k.idling || Free(k))
    case EAcquire(l) => Free(k) && l < |k.locks|
    case EReturn => !k.idling && k.current < |k.threads| && k.threads[k.current].call.InAcquire?
    case ERelease(l) => Free(k) && l < |k.locks|
    case EFinish => Free(k)
    case EResume => k.idling && k.ready != []
  }

  function Next(k: State, e: Event): State
    requires Inv(k) && Enabled(k, e)
  {
    match e
    case ECreate => k.(threads := k.threads + [NEW_THREAD])
    case EFork(t) => ReadyToRun(k, t)
    case EYield => Yield(k)
    case EP(s) => P(k, s)
    case EV(s) => V(k, s)
    case EAcquire(l) => Acquire(k, l)
    case EReturn => k.(threads := SetCall(k.threads, k.current, NoCall))
    case ERelease(l) => Release(k, l)
    case EFinish => Finish(k)
    case EResume => Dispatch(k)
  }

  // ---- the invariant --------------------------------------------------------------------------

  /** A wait queue or the ready list holds existing threads, none twice. */
  ghost predicate QueueOk(k: State, q: seq<nat>) {
    NoDuplicates(q) && forall i :: 0 <= i < |q| ==> q[i] < |k.threads|
  }

  ghost predicate Queues(k: State) {
    && QueueOk(k, k.ready)
    && (forall s :: 0 <= s < |k.sems| ==> QueueOk(k, k.sems[s].queue))
    && (forall l :: 0 <= l < |k.locks| ==> QueueOk(k, k.locks[l].queue))
  }

  /** The thread's status, its call and the queues it is in tell the same story. */
  ghost predicate PlaceOk(k: State, t: nat)
    requires t < |k.threads|
  {
    var th := k.threads[t];
    && (th.status == Running <==> !k.idling && t == k.current)
    && (th.status == Ready <==> t in k.ready)
    && (forall s :: 0 <= s < |k.sems| ==>
          (t in k.sems[s].queue <==> th.status == Blocked && th.call == InP(s)))
    && (forall l :: 0 <= l < |k.locks| ==>
          (t in k.locks[l].queue <==> th.status == Blocked && th.call == InAcquire(l)))
    && (th.status == Blocked ==> (th.finished <==> th.call == NoCall))
    && (th.finished ==> th.status == Blocked)
    && (th.status == JustCreated ==> th.call == NoCall)
    && (th.status in {Running, Blocked} || th.call != NoCall ==> th.started)
    && (th.call.InP? ==> th.call.sem < |k.sems|)
    && (th.call.InAcquire? ==> th.call.lock < |k.locks|)
    && (th.call.InAcquire? && th.status != Blocked ==> k.locks[th.call.lock].owner == Some(t))
  }

  ghost predicate Places(k: State) {
    forall t :: 0 <= t < |k.threads| ==> PlaceOk(k, t)
  }

  /** Threads that V has taken from the queue and that have not tested again. */
  ghost function Woken(k: State, s: nat): set<nat> {
    set t: nat | t < |k.threads| && k.threads[t].call == InP(s) && k.threads[t].status != Blocked
  }

  ghost predicate SemOk(k: State, s: nat)
    requires s < |k.sems|
  {
    Balanced(k.sems[s]) && (k.sems[s].queue != [] ==> k.sems[s].value <= |Woken(k, s)|)
  }

  ghost predicate Sems(k: State) {
    forall s :: 0 <= s < |k.sems| ==> SemOk(k, s)
  }

  ghost predicate Locks(k: State) {
    forall l :: 0 <= l < |k.locks| ==> LockOk(k.locks[l])
  }

  /** Carcasses: deleted at most once, and never the current thread. */
  ghost predicate Carcasses(k: State) {
    && (forall t :: 0 <= t < |k.threads| && k.threads[t].destroyed > 0 ==>
          k.threads[t].destroyed == 1 && k.threads[t].finished && t != k.current)
    && (k.toDestroy.Some? ==>
          && k.toDestroy.value < |k.threads|
          && k.threads[k.toDestroy.value].finished
          && k.threads[k.toDestroy.value].destroyed == 0)
  }

  ghost predicate Inv(k: State) {
    && k.current < |k.threads|
    && Queues(k) && Places(k) && Sems(k) && Locks(k) && Carcasses(k)
  }
}
