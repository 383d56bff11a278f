/** What each step does to the ready list, the wait queues, the locks and the calls in progress,
    and the order in which waiters are served. */
module KernelLaws {
  import opened Common
  import opened Synch
  import opened Kernel
  import opened KernelSafety
  import opened KernelRuns

  // ---- switching ---------------------------------------------------------------------------

  function Tail(q: seq<nat>): seq<nat> {
    if q == [] then [] else q[1..]
  }

  /** What a switch from k to k' leaves alone: the calls, and the status of threads that neither
      give up the CPU nor were ready. */
  ghost predicate SwitchSpares(k: State, k': State, t: nat)
    requires t < |k.threads|
  {
    && |k'.threads| == |k.threads|
    && k'.threads[t].call == k.threads[t].call
    && (t != k.current && t !in k.ready ==> k'.threads[t].status == k.threads[t].status)
  }

  lemma DispatchSpares(k: State, t: nat)
    requires InBounds(k) && k.ready != [] && t < |k.threads|
    ensures SwitchSpares(k, Dispatch(k), t) && Dispatch(k).ready == k.ready[1..]
  {
  }

  lemma SleepSpares(k: State, t: nat)
    requires InBounds(k) && t < |k.threads|
    ensures SwitchSpares(k, Sleep(k), t) && Sleep(k).ready == Tail(k.ready)
  {
    SleepParks(k);
    if k.ready != [] { DispatchSpares(Parked(k), t); }
  }

  lemma YieldSpares(k: State, t: nat)
    requires InBounds(k) && t < |k.threads|
    ensures SwitchSpares(k, Yield(k), t)
    ensures Yield(k).ready == if k.ready == [] then [] else k.ready[1..] + [k.current]
  {
    if k.ready != [] {
      YieldParks(k);
      DispatchSpares(ReadyToRun(k, k.current).(idling := true), t);
    }
  }

  /** The state in which P, Acquire or Finish goes to sleep. */
  function BeforeSleep(k: Good, e: Event): State
    requires Enabled(k, e) && (e.EP? || e.EAcquire? || e.EFinish?)
  {
    match e
    case EP(s) => k.(sems := k.sems[s := Wait(k.sems[s], k.current)], threads := SetCall(k.threads, k.current, InP(s)))
    case EAcquire(l) =>
      k.(locks := k.locks[l := Queue(k.locks[l], k.current)], threads := SetCall(k.threads, k.current, InAcquire(l)))
    case EFinish =>
      k.(toDestroy := Some(k.current), threads := k.threads[k.current := k.threads[k.current].(finished := true)])
  }

  /** The step as a switch from some state, if it is one. */
  ghost predicate StepSpares(k: Good, e: Event, t: nat)
    requires Enabled(k, e) && t < |k.threads|
  {
    var k' := Step(k, e);
    && |k'.threads| == |k.threads| + (if e == ECreate then 1 else 0)
    && k'.threads[t].call == (if t == k.current then CallAfter(k, e) else k.threads[t].call)
    && k'.ready == (if Switches(k, e) then k.ready[1..] else k.ready) + MadeReady(k, e)
    && (k.threads[t].status == JustCreated ==> (k'.threads[t].status == JustCreated <==> e != EFork(t)))
  }

  lemma PSpares(k: Good, s: nat, t: nat)
    requires Enabled(k, EP(s)) && t < |k.threads|
    ensures StepSpares(k, EP(s), t)
  {
    assert PlaceOk(k, t);
    if k.sems[s].value == 0 { SleepSpares(BeforeSleep(k, EP(s)), t); }
  }

  lemma AcquireSpares(k: Good, l: nat, t: nat)
    requires Enabled(k, EAcquire(l)) && t < |k.threads|
    ensures StepSpares(k, EAcquire(l), t)
  {
    assert PlaceOk(k, t) && LockOk(k.locks[l]);
    if k.locks[l].busy && k.locks[l].owner != Some(k.current) {
      SleepSpares(BeforeSleep(k, EAcquire(l)), t);
      assert Step(k, EAcquire(l)) == Sleep(BeforeSleep(k, EAcquire(l)));
    }
  }

  lemma FinishSpares(k: Good, t: nat)
    requires Enabled(k, EFinish) && t < |k.threads|
    ensures StepSpares(k, EFinish, t)
  {
    assert PlaceOk(k, t);
    SleepSpares(BeforeSleep(k, EFinish), t);
  }

  lemma OtherSwitchSpares(k: Good, e: Event, t: nat)
    requires Enabled(k, e) && (e.EYield? || e.EResume?) && t < |k.threads|
    ensures StepSpares(k, e, t)
  {
    assert PlaceOk(k, t);
    if e.EYield? { YieldSpares(k, t); } else { DispatchSpares(k, t); }
  }

  lemma WakingSpares(k: Good, e: Event, t: nat)
    requires Enabled(k, e) && t < |k.threads| && (e.EV? || e.ERelease?)
    ensures StepSpares(k, e, t)
  {
    if e.EV? { assert QueueOk(k, k.sems[e.s].queue); } else { assert QueueOk(k, k.locks[e.l].queue); }
    WokenNotNew(k, e, t);
  }

  lemma QuietSpares(k: Good, e: Event, t: nat)
    requires Enabled(k, e) && t < |k.threads| && (e.ECreate? || e.EFork? || e.EReturn?)
    ensures StepSpares(k, e, t)
  {
    assert PlaceOk(k, t);
  }

  /** Whoever is woken was asleep. */
  lemma WokenNotNew(k: Good, e: Event, t: nat)
    requires Enabled(k, e) && t < |k.threads|
    ensures k.threads[t].status == JustCreated ==>
              && (e.EV? ==> t !in k.sems[e.s].queue)
              && (e.ERelease? ==> t !in k.locks[e.l].queue)
  {
    assert PlaceOk(k, t);
  }

  lemma EveryStepSpares(k: Good, e: Event, t: nat)
    requires Enabled(k, e) && t < |k.threads|
    ensures StepSpares(k, e, t)
  {
    match e
    case EP(s) => PSpares(k, s, t);
    case EAcquire(l) => AcquireSpares(k, l, t);
    case EFinish => FinishSpares(k, t);
    case EYield => OtherSwitchSpares(k, e, t);
    case EResume => OtherSwitchSpares(k, e, t);
    case EV(_) => WakingSpares(k, e, t);
    case ERelease(_) => WakingSpares(k, e, t);
    case _ => QuietSpares(k, e, t);
  }

  // ---- the ready list --------------------------------------------------------------------

  /** The thread that a step makes ready, if any. */
  function MadeReady(k: State, e: Event): seq<nat>
    requires Enabled(k, e)
  {
    match e
    case EFork(t) => [t]
    case EYield => if k.ready == [] then [] else [k.current]
    case EV(s) => k.sems[s].queue[..if k.sems[s].queue == [] then 0 else 1]
    case ERelease(l) =>
      if k.locks[l].owner == Some(k.current) && k.locks[l].queue != [] then [k.locks[l].queue[0]] else []
    case _ => []
  }

  /** First in, first out: only a switch takes from the ready list, its head, and what becomes
      ready joins at the end. */
  lemma ReadyIsFifo(k: Good, e: Event)
    requires Enabled(k, e)
    ensures Step(k, e).ready == (if Switches(k, e) then k.ready[1..] else k.ready) + MadeReady(k, e)
  {
    EveryStepSpares(k, e, k.current);
  }

  /** Threads come by Create alone, and new ones have done nothing yet. */
  lemma ThreadsGrow(k: Good, e: Event)
    requires Enabled(k, e)
    ensures |Step(k, e).threads| == |k.threads| + if e == ECreate then 1 else 0
    ensures e == ECreate ==> Step(k, e).threads[|k.threads|] == Thread(JustCreated, NoCall, false, false, 0)
    ensures forall t :: 0 <= t < |k.threads| && k.threads[t].status == JustCreated ==>
              (Step(k, e).threads[t].status == JustCreated <==> e != EFork(t))
  {
    EveryStepSpares(k, e, k.current);
    forall t | 0 <= t < |k.threads| && k.threads[t].status == JustCreated
      ensures Step(k, e).threads[t].status == JustCreated <==> e != EFork(t)
    {
      EveryStepSpares(k, e, t);
    }
  }

  // ---- calls in progress -------------------------------------------------------------------

  /** The call the running thread is in after a step of its own. */
  function CallAfter(k: State, e: Event): Call
    requires Enabled(k, e) && k.current < |k.threads|
  {
    match e
    case EP(s) => if k.sems[s].value > 0 then NoCall else InP(s)
    case EAcquire(l) =>
      if k.locks[l].busy && k.locks[l].owner != Some(k.current) then InAcquire(l) else NoCall
    case EReturn => NoCall
    case _ => k.threads[k.current].call
  }

  /** P and Acquire hold their caller exactly when they must, and nobody else is put into a call
      or let out of one. */
  lemma CallsChange(k: Good, e: Event, t: nat)
    requires Enabled(k, e) && t < |k.threads|
    ensures t < |Step(k, e).threads|
    ensures Step(k, e).threads[t].call == if t == k.current then CallAfter(k, e) else k.threads[t].call
  {
    EveryStepSpares(k, e, t);
  }

  // ---- locks ------------------------------------------------------------------------------

  /** A free lock goes to whoever acquires it; a held one stays with its owner until the owner
      releases it, whatever others do, and then goes to the first waiter or is free. */
  lemma OwnershipMoves(k: Good, e: Event, l: nat)
    requires Enabled(k, e) && l < |k.locks|
    ensures l < |Step(k, e).locks|
    ensures Step(k, e).locks[l].owner
         == if k.locks[l].owner.None? then (if e == EAcquire(l) then Some(k.current) else None)
            else if !OwnerReleases(k, e, l) then k.locks[l].owner
            else if k.locks[l].queue == [] then None
            else Some(k.locks[l].queue[0])
    ensures Step(k, e).locks[l].queue
         == if OwnerReleases(k, e, l) && k.locks[l].queue != [] then k.locks[l].queue[1..]
            else if e == EAcquire(l) && k.locks[l].owner.Some? && k.locks[l].owner != Some(k.current)
            then k.locks[l].queue + [k.current]
            else k.locks[l].queue
  {
    StepLocks(k, e);
    assert LockOk(k.locks[l]);
  }

  /** Mutual exclusion over runs: the owner stays the owner until it releases. */
  lemma {:induction false} HeldUntilReleased(ks: seq<Good>, es: seq<Event>, l: nat, m: nat, n: nat)
    requires Behaviour(ks, es) && m <= n <= |es| && l < |ks[m].locks| && ks[m].locks[l].owner.Some?
    requires Count(Releases(ks, es, l), m, n) == 0
    ensures l < |ks[n].locks| && ks[n].locks[l].owner == ks[m].locks[l].owner
  {
    if m < n {
      HeldUntilReleased(ks, es, l, m, n - 1);
      assert FollowsAt(ks, es, n - 1);
      OwnershipMoves(ks[n - 1], es[n - 1], l);
    }
  }

  // ---- semaphores ---------------------------------------------------------------------------

  /** A wait queue is first in, first out too: V takes its head, a thread that finds the value 0
      stands last, and nothing else touches it. */
  lemma QueueIsFifo(k: Good, e: Event, s: nat)
    requires Enabled(k, e) && s < |k.sems|
    ensures s < |Step(k, e).sems|
    ensures Step(k, e).sems[s].queue
         == if e == EV(s) then (if k.sems[s].queue == [] then [] else k.sems[s].queue[1..])
            else if e == EP(s) && k.sems[s].value == 0 then k.sems[s].queue + [k.current]
            else k.sems[s].queue
  {
  }

  lemma QueueShifts(k: Good, e: Event, s: nat)
    requires Enabled(k, e)
    ensures Shifted(SemOf(k, s).queue, e == EV(s), SemOf(Step(k, e), s).queue)
  {
    if s < |k.sems| {
      QueueIsFifo(k, e, s);
    } else {
      CountersStep(k, e, s);
    }
  }

  ghost function SemQueues(ks: seq<Good>, s: nat): (qs: seq<seq<nat>>)
    ensures |qs| == |ks| && forall j :: 0 <= j < |ks| ==> qs[j] == SemOf(ks[j], s).queue
  {
    seq(|ks|, j requires 0 <= j < |ks| => SemOf(ks[j], s).queue)
  }

  lemma SemQueuesShift(ks: seq<Good>, es: seq<Event>, s: nat)
    requires Behaviour(ks, es)
    ensures Shifting(SemQueues(ks, s), Vs(es, s))
  {
    var qs, b := SemQueues(ks, s), Vs(es, s);
    forall j | 0 <= j < |es| ensures ShiftsAt(qs, b, j) {
      assert FollowsAt(ks, es, j);
      QueueShifts(ks[j], es[j], s);
    }
  }

  /** The waiter at index i sleeps in P until the (i+1)-th V, which puts it last in the ready
      list. */
  lemma WokenInTurn(ks: seq<Good>, es: seq<Event>, s: nat, m: nat, n: nat, i: nat, t: nat)
    requires Behaviour(ks, es) && m <= n < |es| && HeldAt(SemOf(ks[m], s).queue, i, t)
    ensures var c := Count(Vs(es, s), m, n);
            && (c <= i ==> t < |ks[n].threads| && ks[n].threads[t].status == Blocked && ks[n].threads[t].call == InP(s))
            && (c == i && es[n] == EV(s) ==> ks[n + 1].ready != [] && Last(ks[n + 1].ready) == t)
  {
    var c := Count(Vs(es, s), m, n);
    SemQueuesShift(ks, es, s);
    MovesUp(SemQueues(ks, s), Vs(es, s), m, n, i, t);
    StillWaits(ks[n], s, i - c, t);
    assert FollowsAt(ks, es, n);
    if c == i && es[n] == EV(s) {
      ReadyIsFifo(ks[n], es[n]);
    }
  }

  lemma StillWaits(k: Good, s: nat, i: int, t: nat)
    ensures HeldAt(SemOf(k, s).queue, i, t) ==>
              t < |k.threads| && k.threads[t].status == Blocked && k.threads[t].call == InP(s)
  {
    if HeldAt(SemOf(k, s).queue, i, t) {
      assert QueueOk(k, k.sems[s].queue) && t in k.sems[s].queue;
      assert PlaceOk(k, t);
    }
  }
}
