/** What holds over whole runs of the kernel, for any interleaving and any number of threads. */
module KernelRuns {
  import opened Common
  import opened Synch
  import opened Kernel
  import opened KernelSafety

  /** A run: good states, each the step of the one before. */
  ghost predicate Behaviour(ks: seq<Good>, es: seq<Event>) {
    && |ks| == |es| + 1
    && forall j :: 0 <= j < |es| ==> FollowsAt(ks, es, j)
  }

  ghost predicate FollowsAt(ks: seq<Good>, es: seq<Event>, j: nat)
    requires |ks| == |es| + 1 && j < |es|
  {
    Follows(ks[j], es[j], ks[j + 1])
  }

  ghost predicate Follows(k: Good, e: Event, k': Good) {
    Enabled(k, e) && k' == Step(k, e)
  }

  // ---- counting and queues, without the kernel -------------------------------------------------

  /** How many of the steps from m up to n are marked. */
  function Count(b: seq<bool>, m: nat, n: nat): nat
    requires m <= n <= |b|
  {
    if m == n then 0 else Count(b, m, n - 1) + if b[n - 1] then 1 else 0
  }

  ghost predicate HeldAt(q: seq<nat>, i: int, t: nat) {
    0 <= i < |q| && q[i] == t
  }

  /** q' is q, if popped without its head, with others perhaps added behind. */
  ghost predicate Shifted(q: seq<nat>, popped: bool, q': seq<nat>) {
    forall i, t :: HeldAt(q, i, t) && (popped ==> i > 0) ==> HeldAt(q', if popped then i - 1 else i, t)
  }

  /** Queues one after the other, each shifted from the one before. */
  ghost predicate Shifting(qs: seq<seq<nat>>, popped: seq<bool>) {
    |qs| == |popped| + 1 && forall j :: 0 <= j < |popped| ==> ShiftsAt(qs, popped, j)
  }

  ghost predicate ShiftsAt(qs: seq<seq<nat>>, popped: seq<bool>, j: nat)
    requires |qs| == |popped| + 1 && j < |popped|
  {
    Shifted(qs[j], popped[j], qs[j + 1])
  }

  /** An entry of a queue only moves up, one place with each removal, until it is the head. */
  lemma {:induction false} MovesUp(qs: seq<seq<nat>>, popped: seq<bool>, m: nat, n: nat, i: nat, t: nat)
    requires Shifting(qs, popped) && m <= n <= |popped| && HeldAt(qs[m], i, t)
    ensures Count(popped, m, n) <= i ==> HeldAt(qs[n], i - Count(popped, m, n), t)
  {
    if m < n {
      MovesUp(qs, popped, m, n - 1, i, t);
      assert ShiftsAt(qs, popped, n - 1);
    }
  }

  // ---- one place per thread -----------------------------------------------------------------

  datatype Place = OnCpu | InReady(i: nat) | OnSem(s: nat, i: nat) | OnLock(l: nat, i: nat) | Fresh | Done

  predicate At(k: State, t: nat, p: Place)
    requires t < |k.threads|
  {
    match p
    case OnCpu => !k.idling && k.current == t
    case InReady(i) => i < |k.ready| && k.ready[i] == t
    case OnSem(s, i) => s < |k.sems| && i < |k.sems[s].queue| && k.sems[s].queue[i] == t
    case OnLock(l, i) => l < |k.locks| && i < |k.locks[l].queue| && k.locks[l].queue[i] == t
    case Fresh => k.threads[t].status == JustCreated
    case Done => k.threads[t].finished
  }

  function StatusAt(p: Place): Status {
    match p
    case OnCpu => Running
    case InReady(_) => Ready
    case OnSem(_, _) => Blocked
    case OnLock(_, _) => Blocked
    case Fresh => JustCreated
    case Done => Blocked
  }

  /** Every thread is in exactly one place, and its status says which kind; also while the
      idle loop's handlers ready the very thread that is sleeping. */
  lemma OnePlace(k: Good, t: nat)
    requires t < |k.threads|
    ensures exists p :: At(k, t, p)
    ensures forall p :: At(k, t, p) ==> StatusAt(p) == k.threads[t].status
    ensures forall p, q :: At(k, t, p) && At(k, t, q) ==> p == q
  {
    SomePlace(k, t);
    forall p | At(k, t, p) ensures StatusAt(p) == k.threads[t].status {
      PlaceTellsStatus(k, t, p);
    }
    forall p, q | At(k, t, p) && At(k, t, q) ensures p == q {
      PlaceTellsStatus(k, t, p);
      PlaceTellsStatus(k, t, q);
    }
  }

  lemma SomePlace(k: Good, t: nat)
    requires t < |k.threads|
    ensures exists p :: At(k, t, p)
  {
    assert PlaceOk(k, t);
    var th := k.threads[t];
    match th.status
    case Running => assert At(k, t, OnCpu);
    case JustCreated => assert At(k, t, Fresh);
    case Ready =>
      var i :| 0 <= i < |k.ready| && k.ready[i] == t;
      assert At(k, t, InReady(i));
    case Blocked =>
      match th.call
      case NoCall => assert At(k, t, Done);
      case InP(s) =>
        var i :| 0 <= i < |k.sems[s].queue| && k.sems[s].queue[i] == t;
        assert At(k, t, OnSem(s, i));
      case InAcquire(l) =>
        var i :| 0 <= i < |k.locks[l].queue| && k.locks[l].queue[i] == t;
        assert At(k, t, OnLock(l, i));
  }

  /** A place determines the status, the call, and with them every other place. */
  lemma PlaceTellsStatus(k: Good, t: nat, p: Place)
    requires t < |k.threads| && At(k, t, p)
    ensures StatusAt(p) == k.threads[t].status
    ensures p.OnSem? ==> k.threads[t].call == InP(p.s) && !k.threads[t].finished && NoDuplicates(k.sems[p.s].queue)
    ensures p.OnLock? ==> k.threads[t].call == InAcquire(p.l) && !k.threads[t].finished && NoDuplicates(k.locks[p.l].queue)
    ensures p.InReady? ==> NoDuplicates(k.ready)
  {
    assert PlaceOk(k, t);
    match p
    case OnSem(s, i) => assert t in k.sems[s].queue && QueueOk(k, k.sems[s].queue);
    case OnLock(l, i) => assert t in k.locks[l].queue && QueueOk(k, k.locks[l].queue);
    case _ =>
  }

  // ---- bounded waiting for the CPU ---------------------------------------------------------------

  /** Does the step call Scheduler::Run? */
  predicate Switches(k: State, e: Event) {
    Enabled(k, e) &&
    match e
    case EYield => k.ready != []
    case EP(s) => k.sems[s].value == 0 && k.ready != []
    case EAcquire(l) => k.locks[l].owner != Some(k.current) && k.locks[l].busy && k.ready != []
    case EFinish => k.ready != []
    case EResume => true
    case _ => false
  }

  lemma ReadyShifts(k: Good, e: Event)
    requires Enabled(k, e)
    ensures Shifted(k.ready, Switches(k, e), Step(k, e).ready)
    ensures Switches(k, e) ==> k.ready != [] && Step(k, e).current == k.ready[0] && !Step(k, e).idling
    ensures !Switches(k, e) ==> Step(k, e).current == k.current
  {
    assert InBounds(k);
  }

  ghost function ReadyLists(ks: seq<Good>): (qs: seq<seq<nat>>)
    ensures |qs| == |ks| && forall j :: 0 <= j < |ks| ==> qs[j] == ks[j].ready
  {
    seq(|ks|, j requires 0 <= j < |ks| => ks[j].ready)
  }

  /** Which steps of a run call Scheduler::Run. */
  ghost function RunCalls(ks: seq<Good>, es: seq<Event>): (b: seq<bool>)
    requires Behaviour(ks, es)
    ensures |b| == |es|
    ensures forall j :: 0 <= j < |es| ==> b[j] == Switches(ks[j], es[j])
  {
    seq(|es|, j requires 0 <= j < |es| => Switches(ks[j], es[j]))
  }

  /** The thread at index i of the ready list is dispatched by the (i+1)-th later call of Run,
      whatever happens meanwhile, and until then it stays ready. */
  lemma DispatchedInTurn(ks: seq<Good>, es: seq<Event>, m: nat, n: nat, i: nat, t: nat)
    requires Behaviour(ks, es) && m <= n < |es| && HeldAt(ks[m].ready, i, t)
    ensures var c := Count(RunCalls(ks, es), m, n);
            && (c <= i ==> t < |ks[n].threads| && ks[n].threads[t].status == Ready)
            && (c == i && RunCalls(ks, es)[n] ==> ks[n + 1].current == t)
  {
    var b := RunCalls(ks, es);
    ReadyListsShift(ks, es);
    MovesUp(ReadyLists(ks), b, m, n, i, t);
    StillReady(ks[n], i - Count(b, m, n), t);
  }

  lemma ReadyListsShift(ks: seq<Good>, es: seq<Event>)
    requires Behaviour(ks, es)
    ensures Shifting(ReadyLists(ks), RunCalls(ks, es))
    ensures forall j :: 0 <= j < |es| && RunCalls(ks, es)[j] ==> HeldAt(ks[j].ready, 0, ks[j + 1].current)
  {
    var qs, b := ReadyLists(ks), RunCalls(ks, es);
    forall j | 0 <= j < |es|
      ensures ShiftsAt(qs, b, j) && (b[j] ==> HeldAt(ks[j].ready, 0, ks[j + 1].current))
    {
      assert FollowsAt(ks, es, j);
      ReadyShifts(ks[j], es[j]);
    }
  }

  lemma StillReady(k: Good, i: int, t: nat)
    ensures HeldAt(k.ready, i, t) ==> t < |k.threads| && k.threads[t].status == Ready
  {
    if HeldAt(k.ready, i, t) {
      assert t in k.ready && PlaceOk(k, t);
    }
  }

  // ---- locks ------------------------------------------------------------------------------------

  /** Does the step release the lock, as its owner? */
  predicate OwnerReleases(k: State, e: Event, l: nat) {
    e == ERelease(l) && l < |k.locks| && k.locks[l].owner == Some(k.current)
  }

  function WaitersOf(k: State, l: nat): seq<nat> {
    if l < |k.locks| then k.locks[l].queue else []
  }

  lemma LockShifts(k: Good, e: Event, l: nat)
    requires Enabled(k, e)
    ensures Shifted(WaitersOf(k, l), OwnerReleases(k, e, l), WaitersOf(Step(k, e), l))
    ensures WaitersOf(k, l) != [] ==>
              && l < |Step(k, e).locks|
              && Step(k, e).locks[l].owner
                 == if OwnerReleases(k, e, l) then Some(k.locks[l].queue[0]) else k.locks[l].owner
  {
    StepLocks(k, e);
    if WaitersOf(k, l) != [] { assert LockOk(k.locks[l]); }
  }

  /** Only Acquire and Release touch locks, and of these only one. */
  lemma StepLocks(k: Good, e: Event)
    requires Enabled(k, e)
    ensures Step(k, e).locks
         == match e
            case EAcquire(l) =>
              if k.locks[l].owner == Some(k.current) then k.locks
              else if k.locks[l].busy then k.locks[l := Queue(k.locks[l], k.current)]
              else k.locks[l := Grab(k.locks[l], k.current)]
            case ERelease(l) => if OwnerReleases(k, e, l) then k.locks[l := HandOff(k.locks[l])] else k.locks
            case _ => k.locks
  {
  }

  ghost function WaiterLists(ks: seq<Good>, l: nat): (qs: seq<seq<nat>>)
    ensures |qs| == |ks| && forall j :: 0 <= j < |ks| ==> qs[j] == WaitersOf(ks[j], l)
  {
    seq(|ks|, j requires 0 <= j < |ks| => WaitersOf(ks[j], l))
  }

  /** Which steps of a run release the lock, as its owner. */
  ghost function Releases(ks: seq<Good>, es: seq<Event>, l: nat): (b: seq<bool>)
    requires Behaviour(ks, es)
    ensures |b| == |es|
    ensures forall j :: 0 <= j < |es| ==> b[j] == OwnerReleases(ks[j], es[j], l)
  {
    seq(|es|, j requires 0 <= j < |es| => OwnerReleases(ks[j], es[j], l))
  }

  /** The waiter at index i becomes the owner with the (i+1)-th release by an owner, and is not
      the owner before. */
  lemma OwnsInTurn(ks: seq<Good>, es: seq<Event>, l: nat, m: nat, n: nat, i: nat, t: nat)
    requires Behaviour(ks, es) && m <= n < |es| && HeldAt(WaitersOf(ks[m], l), i, t)
    ensures var c := Count(Releases(ks, es, l), m, n);
            && (c <= i ==> l < |ks[n].locks| && ks[n].locks[l].owner != Some(t))
            && (c == i && Releases(ks, es, l)[n] ==> l < |ks[n + 1].locks| && ks[n + 1].locks[l].owner == Some(t))
  {
    var b := Releases(ks, es, l);
    WaiterListsShift(ks, es, l);
    MovesUp(WaiterLists(ks, l), b, m, n, i, t);
    WaiterIsNotOwner(ks[n], l, i - Count(b, m, n), t);
  }

  lemma WaiterListsShift(ks: seq<Good>, es: seq<Event>, l: nat)
    requires Behaviour(ks, es)
    ensures Shifting(WaiterLists(ks, l), Releases(ks, es, l))
    ensures forall j :: 0 <= j < |es| ==> GoesToHead(WaitersOf(ks[j], l), Releases(ks, es, l)[j], ks[j + 1], l)
  {
    var qs, b := WaiterLists(ks, l), Releases(ks, es, l);
    forall j | 0 <= j < |es|
      ensures ShiftsAt(qs, b, j) && GoesToHead(WaitersOf(ks[j], l), b[j], ks[j + 1], l)
    {
      assert FollowsAt(ks, es, j);
      LockShifts(ks[j], es[j], l);
    }
  }

  /** A release with waiters makes the first of them the owner. */
  predicate GoesToHead(q: seq<nat>, released: bool, k: State, l: nat) {
    released && q != [] ==> l < |k.locks| && k.locks[l].owner == Some(q[0])
  }

  lemma WaiterIsNotOwner(k: Good, l: nat, i: int, t: nat)
    ensures HeldAt(WaitersOf(k, l), i, t) ==> l < |k.locks| && k.locks[l].owner != Some(t)
  {
    if HeldAt(WaitersOf(k, l), i, t) { assert LockOk(k.locks[l]); }
  }

  /** Acquire returns, at once or after sleeping, only to the owner. */
  lemma AcquireReturnsAsOwner(k: Good, e: Event, l: nat)
    requires Enabled(k, e) && l < |k.locks|
    requires || (e == EAcquire(l) && Step(k, e).current == k.current && Free(Step(k, e)))
             || (e == EReturn && k.threads[k.current].call == InAcquire(l))
    ensures l < |Step(k, e).locks| && Step(k, e).locks[l].owner == Some(k.current)
  {
    if e == EReturn {
      ReturnKeepsInv(k);
    } else if k.locks[l].owner != Some(k.current) && k.locks[l].busy {
      AcquireBlocks(k, l);
    }
  }

  /** A contended Acquire leaves the caller queued and inside the call. */
  lemma AcquireBlocks(k: Good, l: nat)
    requires Enabled(k, EAcquire(l)) && k.locks[l].owner != Some(k.current) && k.locks[l].busy
    ensures k.current < |Step(k, EAcquire(l)).threads|
    ensures Step(k, EAcquire(l)).threads[k.current].call == InAcquire(l)
    ensures k.current in Step(k, EAcquire(l)).locks[l].queue
  {
  }

  // ---- semaphores --------------------------------------------------------------------------------

  /** Does the step complete a P on the semaphore? */
  predicate Completes(k: Good, e: Event, s: nat) {
    e == EP(s) && s < |k.sems| && k.sems[s].value > 0
  }

  function SemOf(k: State, s: nat): Sem {
    if s < |k.sems| then k.sems[s] else NewSem(0)
  }

  /** What a V, or a completed P, does to the history of a semaphore. */
  predicate Counted(a: Sem, v: bool, p: bool, b: Sem) {
    && b.initial == a.initial
    && b.vs == a.vs + (if v then 1 else 0)
    && b.ps == a.ps + (if p then 1 else 0)
  }

  lemma CountersStep(k: Good, e: Event, s: nat)
    requires Enabled(k, e)
    ensures Counted(SemOf(k, s), e == EV(s), Completes(k, e, s), SemOf(Step(k, e), s))
    ensures |Step(k, e).sems| == |k.sems|
  {
  }

  ghost function SemHistory(ks: seq<Good>, s: nat): (ss: seq<Sem>)
    ensures |ss| == |ks| && forall j :: 0 <= j < |ks| ==> ss[j] == SemOf(ks[j], s)
  {
    seq(|ks|, j requires 0 <= j < |ks| => SemOf(ks[j], s))
  }

  /** Which steps of a run are Vs, and which complete a P. */
  function Vs(es: seq<Event>, s: nat): (b: seq<bool>)
    ensures |b| == |es| && forall j :: 0 <= j < |es| ==> b[j] == (es[j] == EV(s))
  {
    seq(|es|, j requires 0 <= j < |es| => es[j] == EV(s))
  }

  ghost function Ps(ks: seq<Good>, es: seq<Event>, s: nat): (b: seq<bool>)
    requires Behaviour(ks, es)
    ensures |b| == |es| && forall j :: 0 <= j < |es| ==> b[j] == Completes(ks[j], es[j], s)
  {
    seq(|es|, j requires 0 <= j < |es| => Completes(ks[j], es[j], s))
  }

  lemma {:induction false} CountersRun(ss: seq<Sem>, vs: seq<bool>, ps: seq<bool>, n: nat)
    requires |ss| == |vs| + 1 == |ps| + 1 && n <= |vs|
    requires forall j :: 0 <= j < |vs| ==> Counted(ss[j], vs[j], ps[j], ss[j + 1])
    ensures ss[n].initial == ss[0].initial
    ensures ss[n].vs == ss[0].vs + Count(vs, 0, n) && ss[n].ps == ss[0].ps + Count(ps, 0, n)
  {
    if n > 0 {
      CountersRun(ss, vs, ps, n - 1);
      assert Counted(ss[n - 1], vs[n - 1], ps[n - 1], ss[n - 1 + 1]);
    }
  }

  lemma {:induction false} SemsStay(ks: seq<Good>, es: seq<Event>, n: nat)
    requires Behaviour(ks, es) && n <= |es|
    ensures |ks[n].sems| == |ks[0].sems|
  {
    if n > 0 {
      assert FollowsAt(ks, es, n - 1);
      CountersStep(ks[n - 1], es[n - 1], 0);
      SemsStay(ks, es, n - 1);
    }
  }

  /** From boot on: the value is the initial one plus Vs minus completed Ps, never negative, and
      while threads wait there are at least as many woken ones as the value, so no V is lost. */
  lemma NoLostWakeup(ks: seq<Good>, es: seq<Event>, initials: seq<nat>, locks: nat, s: nat, n: nat)
    requires Behaviour(ks, es) && ks[0] == Boot(initials, locks) && s < |initials| && n <= |es|
    ensures s < |ks[n].sems|
    ensures ks[n].sems[s].value == initials[s] + Count(Vs(es, s), 0, n) - Count(Ps(ks, es, s), 0, n)
    ensures ks[n].sems[s].queue != [] ==> ks[n].sems[s].value <= |Woken(ks[n], s)|
  {
    var ss, vs, ps := SemHistory(ks, s), Vs(es, s), Ps(ks, es, s);
    forall j | 0 <= j < |es| ensures Counted(ss[j], vs[j], ps[j], ss[j + 1]) {
      assert FollowsAt(ks, es, j);
      CountersStep(ks[j], es[j], s);
    }
    CountersRun(ss, vs, ps, n);
    assert ss[0] == NewSem(initials[s]);
    SemsStay(ks, es, n);
    assert SemOk(ks[n], s);
  }

  // ---- carcasses -----------------------------------------------------------------------------------

  /** Finished, not deleted, and no longer remembered for deletion. */
  predicate Leaked(k: State, t: nat) {
    t < |k.threads| && k.threads[t].finished && k.threads[t].destroyed == 0 && k.toDestroy != Some(t)
  }

  /** Will the switch in this step delete a carcass? Only a thread that has run before, resuming
      inside Scheduler::Run, does so. */
  predicate Reaps(k: State, e: Event) {
    Switches(k, e) && k.ready != [] && k.ready[0] < |k.threads| && k.threads[k.ready[0]].started
  }

  /** What one step does to the records about a thread's death. */
  ghost predicate Fate(k: State, e: Event, k': State, t: nat)
    requires Enabled(k, e)
  {
    var remembered := if e == EFinish then Some(k.current) else k.toDestroy;
    && t < |k.threads| <= |k'.threads|
    && (k'.threads[t].finished <==> k.threads[t].finished || (e == EFinish && t == k.current))
    && k'.toDestroy == (if Reaps(k, e) then None else remembered)
    && k'.threads[t].destroyed
       == k.threads[t].destroyed + (if Reaps(k, e) && remembered == Some(t) then 1 else 0)
  }

  /** A switch to the head of the ready list. */
  ghost predicate SwitchFate(k: State, k': State, t: nat)
    requires k.ready != [] && k.ready[0] < |k.threads|
  {
    var reaps := k.threads[k.ready[0]].started;
    && t < |k.threads| == |k'.threads| && k'.threads[t].finished == k.threads[t].finished
    && k'.toDestroy == (if reaps then None else k.toDestroy)
    && k'.threads[t].destroyed
       == k.threads[t].destroyed + (if reaps && k.toDestroy == Some(t) then 1 else 0)
  }

  lemma DispatchFate(k: State, t: nat)
    requires k.ready != [] && k.ready[0] < |k.threads| && t < |k.threads|
    requires k.toDestroy.Some? ==> k.toDestroy.value < |k.threads|
    ensures SwitchFate(k, Dispatch(k), t)
  {
  }

  lemma SleepFate(k: State, t: nat)
    requires InBounds(k) && t < |k.threads| && (k.toDestroy.Some? ==> k.toDestroy.value < |k.threads|)
    ensures k.ready != [] ==> SwitchFate(k, Sleep(k), t)
    ensures k.ready == [] ==> Sleep(k) == Parked(k)
  {
    SleepParks(k);
    if k.ready != [] { DispatchFate(Parked(k), t); }
  }

  lemma FinishFate(k: Good, t: nat)
    requires Free(k) && t < |k.threads|
    ensures Fate(k, EFinish, Finish(k), t)
  {
    SleepFate(k.(toDestroy := Some(k.current),
                 threads := k.threads[k.current := k.threads[k.current].(finished := true)]), t);
  }

  lemma PFate(k: Good, s: nat, t: nat)
    requires Enabled(k, EP(s)) && t < |k.threads|
    ensures Fate(k, EP(s), P(k, s), t)
  {
    if k.sems[s].value == 0 {
      SleepFate(k.(sems := k.sems[s := Wait(k.sems[s], k.current)],
                   threads := SetCall(k.threads, k.current, InP(s))), t);
    }
  }

  lemma AcquireFate(k: Good, l: nat, t: nat)
    requires Enabled(k, EAcquire(l)) && t < |k.threads|
    ensures Fate(k, EAcquire(l), Acquire(k, l), t)
  {
    SleepFate(k.(locks := k.locks[l := Queue(k.locks[l], k.current)],
                 threads := SetCall(k.threads, k.current, InAcquire(l))), t);
  }

  lemma YieldFate(k: Good, t: nat)
    requires Free(k) && t < |k.threads|
    ensures Fate(k, EYield, Yield(k), t)
  {
    if k.ready != [] {
      YieldParks(k);
      DispatchFate(ReadyToRun(k, k.current).(idling := true), t);
    }
  }

  lemma StepFate(k: Good, e: Event, t: nat)
    requires Enabled(k, e) && t < |k.threads|
    ensures Fate(k, e, Step(k, e), t)
  {
    match e
    case ECreate => QuietFate(k, e, t);
    case EFork(_) => QuietFate(k, e, t);
    case EV(_) => QuietFate(k, e, t);
    case ERelease(_) => QuietFate(k, e, t);
    case EReturn => QuietFate(k, e, t);
    case EFinish => FinishFate(k, t);
    case EP(s) => PFate(k, s, t);
    case EAcquire(l) => AcquireFate(k, l, t);
    case EYield => YieldFate(k, t);
    case EResume => DispatchFate(k, t);
  }

  lemma QuietFate(k: Good, e: Event, t: nat)
    requires Enabled(k, e) && t < |k.threads|
    requires e.ECreate? || e.EFork? || e.EV? || e.ERelease? || e.EReturn?
    ensures Fate(k, e, Next(k, e), t)
  {
  }

  lemma FateDecides(k: Good, e: Event, k': State, t: nat)
    requires Enabled(k, e) && Fate(k, e, k', t)
    ensures Leaked(k', t) <==> Leaked(k, t) || (e == EFinish && k.toDestroy == Some(t))
    ensures (if e == EFinish then t == k.current else k.toDestroy == Some(t)) ==>
              && k'.threads[t].destroyed == (if Reaps(k, e) then 1 else 0)
              && (!Reaps(k, e) ==> k'.toDestroy == Some(t))
    ensures k.threads[t].finished && k.toDestroy != Some(t) ==>
              k'.threads[t].destroyed == k.threads[t].destroyed && k'.toDestroy != Some(t)
  {
    assert PlaceOk(k, k.current);
  }

  /** A carcass is lost exactly when another thread finishes while it is still remembered. */
  lemma LeaksExactlyWhen(k: Good, e: Event, t: nat)
    requires Enabled(k, e) && t < |k.threads|
    ensures Leaked(Step(k, e), t) <==> Leaked(k, t) || (e == EFinish && k.toDestroy == Some(t))
  {
    StepFate(k, e, t);
    FateDecides(k, e, Step(k, e), t);
  }

  /** What the kernel still knows of a thread. */
  datatype Grave = Grave(finished: bool, destroyed: nat, remembered: bool)

  function GraveOf(k: State, t: nat): Grave {
    if t < |k.threads| then Grave(k.threads[t].finished, k.threads[t].destroyed, k.toDestroy == Some(t))
    else Grave(false, 0, false)
  }

  /** A finished thread through one step that may be a Finish (f) and may reap (r). */
  predicate GraveStep(g: Grave, f: bool, r: bool, g': Grave) {
    g.finished ==> g' == if !g.remembered then g
                         else if f then g.(remembered := false)
                         else if r then g.(destroyed := g.destroyed + 1, remembered := false)
                         else g
  }

  lemma GraveSteps(k: Good, e: Event, k': Good, t: nat)
    requires Follows(k, e, k')
    ensures GraveStep(GraveOf(k, t), e == EFinish, Reaps(k, e), GraveOf(k', t))
  {
    if t < |k.threads| {
      StepFate(k, e, t);
      FateDecides(k, e, k', t);
    }
  }

  /** Some reaping step comes before the first Finish. */
  predicate ReapedFirst(fs: seq<bool>, rs: seq<bool>, m: nat, n: nat)
    requires |fs| == |rs| && m <= n <= |fs|
  {
    m < n && (ReapedFirst(fs, rs, m, n - 1) || (rs[n - 1] && Count(fs, m, n) == 0))
  }

  lemma {:induction false} Buried(gs: seq<Grave>, fs: seq<bool>, rs: seq<bool>, m: nat, n: nat)
    requires |gs| == |fs| + 1 == |rs| + 1 && m <= n <= |fs|
    requires forall j :: 0 <= j < |fs| ==> GraveStep(gs[j], fs[j], rs[j], gs[j + 1])
    requires gs[m] == Grave(true, 0, true)
    ensures gs[n] == Grave(true, if ReapedFirst(fs, rs, m, n) then 1 else 0,
                           Count(fs, m, n) == 0 && !ReapedFirst(fs, rs, m, n))
  {
    if m < n {
      Buried(gs, fs, rs, m, n - 1);
      assert GraveStep(gs[n - 1], fs[n - 1], rs[n - 1], gs[n - 1 + 1]);
    }
  }

  ghost function Graves(ks: seq<Good>, t: nat): (gs: seq<Grave>)
    ensures |gs| == |ks| && forall j :: 0 <= j < |ks| ==> gs[j] == GraveOf(ks[j], t)
  {
    seq(|ks|, j requires 0 <= j < |ks| => GraveOf(ks[j], t))
  }

  function Finishes(es: seq<Event>): (b: seq<bool>)
    ensures |b| == |es| && forall j :: 0 <= j < |es| ==> b[j] == (es[j] == EFinish)
  {
    seq(|es|, j requires 0 <= j < |es| => es[j] == EFinish)
  }

  ghost function Reapings(ks: seq<Good>, es: seq<Event>): (b: seq<bool>)
    requires Behaviour(ks, es)
    ensures |b| == |es|
    ensures forall j :: 0 <= j < |es| ==> b[j] == Reaps(ks[j], es[j])
  {
    seq(|es|, j requires 0 <= j < |es| => Reaps(ks[j], es[j]))
  }

  lemma GravesStep(ks: seq<Good>, es: seq<Event>, t: nat)
    requires Behaviour(ks, es)
    ensures var gs, fs, rs := Graves(ks, t), Finishes(es), Reapings(ks, es);
            forall j :: 0 <= j < |es| ==> GraveStep(gs[j], fs[j], rs[j], gs[j + 1])
  {
    var gs, fs, rs := Graves(ks, t), Finishes(es), Reapings(ks, es);
    forall j | 0 <= j < |es| ensures GraveStep(gs[j], fs[j], rs[j], gs[j + 1]) {
      assert FollowsAt(ks, es, j);
      GraveSteps(ks[j], es[j], ks[j + 1], t);
    }
  }

  /** Over any run, the carcass waiting for deletion is deleted, once, if a thread that has run
      before is dispatched before another thread finishes, and otherwise never. */
  lemma DestroyedIffReaped(ks: seq<Good>, es: seq<Event>, m: nat, n: nat, t: nat)
    requires Behaviour(ks, es) && m <= n <= |es| && ks[m].toDestroy == Some(t)
    ensures t < |ks[n].threads|
    ensures ks[n].threads[t].destroyed == if ReapedFirst(Finishes(es), Reapings(ks, es), m, n) then 1 else 0
  {
    GravesStep(ks, es, t);
    Buried(Graves(ks, t), Finishes(es), Reapings(ks, es), m, n);
  }

  lemma {:induction false} ForgottenStays(gs: seq<Grave>, fs: seq<bool>, rs: seq<bool>, m: nat, n: nat)
    requires |gs| == |fs| + 1 == |rs| + 1 && m <= n <= |fs|
    requires forall j :: 0 <= j < |fs| ==> GraveStep(gs[j], fs[j], rs[j], gs[j + 1])
    requires gs[m].finished && !gs[m].remembered
    ensures gs[n] == gs[m]
  {
    if m < n {
      ForgottenStays(gs, fs, rs, m, n - 1);
      assert GraveStep(gs[n - 1], fs[n - 1], rs[n - 1], gs[n - 1 + 1]);
    }
  }

  lemma GraveAtFinish(k: Good, k': Good)
    requires Follows(k, EFinish, k')
    ensures GraveOf(k', k.current) == Grave(true, if Reaps(k, EFinish) then 1 else 0, !Reaps(k, EFinish))
  {
    StepFate(k, EFinish, k.current);
    FateDecides(k, EFinish, k', k.current);
  }

  lemma GraveAfterFinish(ks: seq<Good>, es: seq<Event>, m: nat)
    requires Behaviour(ks, es) && m < |es| && es[m] == EFinish
    ensures var r := Reapings(ks, es)[m];
            Graves(ks, ks[m].current)[m + 1] == Grave(true, if r then 1 else 0, !r)
  {
    assert FollowsAt(ks, es, m);
    GraveAtFinish(ks[m], ks[m + 1]);
  }

  lemma BuriedSince(gs: seq<Grave>, fs: seq<bool>, rs: seq<bool>, m: nat, n: nat, reaped: bool)
    requires |gs| == |fs| + 1 == |rs| + 1 && m <= n <= |fs|
    requires forall j :: 0 <= j < |fs| ==> GraveStep(gs[j], fs[j], rs[j], gs[j + 1])
    requires gs[m] == Grave(true, if reaped then 1 else 0, !reaped)
    ensures gs[n].finished && gs[n].destroyed == if reaped || ReapedFirst(fs, rs, m, n) then 1 else 0
  {
    if reaped { ForgottenStays(gs, fs, rs, m, n); } else { Buried(gs, fs, rs, m, n); }
  }

  /** From Finish on: the thread is deleted, once, exactly if the switch in Finish itself, or a
      later one before the next Finish, goes to a thread that has run before. */
  lemma FinishedIffReaped(ks: seq<Good>, es: seq<Event>, m: nat, n: nat, t: nat)
    requires Behaviour(ks, es) && m < n <= |es| && es[m] == EFinish && ks[m].current == t
    ensures t < |ks[n].threads|
    ensures ks[n].threads[t].destroyed
         == if Reaps(ks[m], es[m]) || ReapedFirst(Finishes(es), Reapings(ks, es), m + 1, n) then 1 else 0
  {
    GraveAfterFinish(ks, es, m);
    GravesStep(ks, es, t);
    BuriedSince(Graves(ks, t), Finishes(es), Reapings(ks, es), m + 1, n, Reapings(ks, es)[m]);
  }

  /** So "a finished thread is destroyed" fails: main finishes, a new thread starts, and its
      own Finish overwrites the only record of main. */
  lemma LeakExample()
    ensures exists ks: seq<Good>, es :: Behaviour(ks, es) && ks[0] == Boot([], 0) && Leaked(ks[|es|], 0)
  {
    BootOk([], 0);
    var k0: Good := Boot([], 0);
    var k1 := Step(k0, ECreate);
    var k2 := Step(k1, EFork(1));
    assert k2.ready == [1] && k2.threads[1] == NEW_THREAD.(status := Ready) && k2.current == 0;
    OneStepMore([k0], [], ECreate);
    OneStepMore([k0] + [k1], [] + [ECreate], EFork(1));
    FinishTwice([k0] + [k1] + [k2], [] + [ECreate] + [EFork(1)], 1);
  }

  /** A run that has come to a thread with a new one ready behind it goes on to a leak. */
  lemma FinishTwice(ks: seq<Good>, es: seq<Event>, n: nat)
    requires Behaviour(ks, es)
    requires var k := ks[|es|];
             && Free(k) && k.ready == [n] && n < |k.threads| && n != k.current
             && !k.threads[n].started && k.threads[n].call == NoCall
    ensures exists ks': seq<Good>, es' :: Behaviour(ks', es') && ks'[0] == ks[0] && Leaked(ks'[|es'|], ks[|es|].current)
  {
    var k := ks[|es|];
    NewThreadTakesOver(k, n);
    var k3 := Step(k, EFinish);
    OneStepMore(ks, es, EFinish);
    OneStepMore(ks + [k3], es + [EFinish], EFinish);
    LeaksExactlyWhen(k3, EFinish, k.current);
    LeakSeen(ks + [k3] + [Step(k3, EFinish)], es + [EFinish] + [EFinish], ks[0], k.current);
  }

  lemma LeakSeen(ks: seq<Good>, es: seq<Event>, k: Good, t: nat)
    requires Behaviour(ks, es) && ks[0] == k && Leaked(ks[|es|], t)
    ensures exists ks: seq<Good>, es :: Behaviour(ks, es) && ks[0] == k && Leaked(ks[|es|], t)
  {
  }

  /** A thread finishes and the next one, never run before, starts: the carcass stays. */
  lemma NewThreadTakesOver(k: Good, n: nat)
    requires Free(k) && k.ready == [n] && n < |k.threads| && n != k.current
    requires !k.threads[n].started && k.threads[n].call == NoCall
    ensures Free(Step(k, EFinish)) && Step(k, EFinish).toDestroy == Some(k.current)
  {
  }

  lemma OneStepMore(ks: seq<Good>, es: seq<Event>, e: Event)
    requires Behaviour(ks, es) && Enabled(ks[|es|], e)
    ensures Behaviour(ks + [Step(ks[|es|], e)], es + [e])
  {
    var k := Step(ks[|es|], e);
    var ks', es' := ks + [k], es + [e];
    forall j | 0 <= j < |es'| ensures FollowsAt(ks', es', j) {
      if j < |es| {
        assert FollowsAt(ks, es, j);
        assert Follows(ks[j], es[j], ks[j + 1]);
      } else {
        assert Follows(ks[|es|], e, k);
      }
    }
  }
}
