/** Every step of the kernel keeps its invariant. */
module KernelSafety {
  import opened Common
  import opened Synch
  import opened Kernel

  lemma BootOk(initials: seq<nat>, locks: nat)
    ensures Inv(Boot(initials, locks))
  {
    var k := Boot(initials, locks);
    forall s | 0 <= s < |k.sems| ensures QueueOk(k, k.sems[s].queue) && SemOk(k, s) {
      assert k.sems[s] == NewSem(initials[s]);
    }
    assert PlaceOk(k, 0);
  }

  lemma TailOk(k: State, q: seq<nat>)
    requires QueueOk(k, q) && q != []
    ensures QueueOk(k, q[1..]) && q[0] !in q[1..]
    ensures forall t :: t in q <==> t == q[0] || t in q[1..]
  {
    assert q == [q[0]] + q[1..];
  }

  // ---- switching ------------------------------------------------------------------------

  /** The state in which the CPU has just been given up: Sleep as far as its loop. */
  function Parked(k: State): State
    requires k.current < |k.threads|
  {
    k.(threads := SetStatus(k.threads, k.current, Blocked), idling := true)
  }

  lemma SleepParks(k: State)
    requires InBounds(k)
    ensures Sleep(k) == if k.ready == [] then Parked(k) else Dispatch(Parked(k))
  {
  }

  /** Yield with somebody ready gives the CPU up like Sleep but queues as ready. */
  lemma YieldParks(k: State)
    requires InBounds(k) && k.ready != []
    ensures Yield(k) == Dispatch(ReadyToRun(k, k.current).(idling := true))
  {
    assert (k.ready + [k.current])[1..] == k.ready[1..] + [k.current];
  }

  lemma DispatchKeepsInv(k: State)
    requires Inv(k) && k.idling && k.ready != []
    ensures Inv(Dispatch(k))
  {
    var k' := Dispatch(k);
    var n := k.ready[0];
    TailOk(k, k.ready);
    assert PlaceOk(k, n) && n in k.ready;
    assert forall t :: 0 <= t < |k.threads| && t != n ==>
      k'.threads[t] == k.threads[t].(destroyed := k'.threads[t].destroyed);
    assert k'.threads[n] == k.threads[n].(status := Running, started := true);
    forall t | 0 <= t < |k'.threads| ensures PlaceOk(k', t) {
      assert PlaceOk(k, t);
    }
    forall s | 0 <= s < |k'.sems| ensures SemOk(k', s) {
      assert SemOk(k, s);
      assert Woken(k', s) == Woken(k, s);
    }
  }

  // ---- giving up the CPU -------------------------------------------------------------------

  lemma YieldingKeepsInv(k: State)
    requires Inv(k) && Free(k)
    ensures Inv(ReadyToRun(k, k.current).(idling := true))
  {
    var c := k.current;
    var k' := ReadyToRun(k, c).(idling := true);
    assert PlaceOk(k, c);
    forall t | 0 <= t < |k'.threads| ensures PlaceOk(k', t) {
      assert PlaceOk(k, t);
    }
    forall s | 0 <= s < |k'.sems| ensures SemOk(k', s) {
      assert SemOk(k, s);
      assert Woken(k', s) == Woken(k, s);
    }
  }

  /** The current thread queued on a semaphore of value 0 and off the CPU. */
  function WaitingP(k: State, s: nat): State
    requires k.current < |k.threads| && s < |k.sems|
  {
    Parked(k.(sems := k.sems[s := Wait(k.sems[s], k.current)],
              threads := SetCall(k.threads, k.current, InP(s))))
  }

  lemma WaitingPKeepsInv(k: State, s: nat)
    requires Inv(k) && Enabled(k, EP(s)) && k.sems[s].value == 0
    ensures Inv(WaitingP(k, s))
  {
    var c := k.current;
    var k' := WaitingP(k, s);
    assert PlaceOk(k, c);
    forall r | 0 <= r < |k'.sems| ensures QueueOk(k', k'.sems[r].queue) {
      assert QueueOk(k, k.sems[r].queue);
    }
    forall t | 0 <= t < |k'.threads| ensures PlaceOk(k', t) {
      assert PlaceOk(k, t);
    }
    forall r | 0 <= r < |k'.sems| ensures SemOk(k', r) {
      assert SemOk(k, r);
      assert r != s ==> Woken(k', r) == Woken(k, r);
    }
  }

  function WaitingAcquire(k: State, l: nat): State
    requires k.current < |k.threads| && l < |k.locks|
  {
    Parked(k.(locks := k.locks[l := Queue(k.locks[l], k.current)],
              threads := SetCall(k.threads, k.current, InAcquire(l))))
  }

  lemma WaitingAcquireKeepsInv(k: State, l: nat)
    requires Inv(k) && Enabled(k, EAcquire(l)) && k.locks[l].busy && k.locks[l].owner != Some(k.current)
    ensures Inv(WaitingAcquire(k, l))
  {
    var c := k.current;
    var k' := WaitingAcquire(k, l);
    assert PlaceOk(k, c) && LockOk(k.locks[l]);
    forall r | 0 <= r < |k'.locks| ensures QueueOk(k', k'.locks[r].queue) {
      assert QueueOk(k, k.locks[r].queue);
    }
    forall t | 0 <= t < |k'.threads| ensures PlaceOk(k', t) {
      assert PlaceOk(k, t);
    }
    forall s | 0 <= s < |k'.sems| ensures SemOk(k', s) {
      assert SemOk(k, s);
      assert Woken(k', s) == Woken(k, s);
    }
  }

  function Finishing(k: State): State
    requires k.current < |k.threads|
  {
    Parked(k.(toDestroy := Some(k.current),
              threads := k.threads[k.current := k.threads[k.current].(finished := true)]))
  }

  lemma FinishingKeepsInv(k: State)
    requires Inv(k) && Free(k)
    ensures Inv(Finishing(k))
  {
    var c := k.current;
    var k' := Finishing(k);
    assert PlaceOk(k, c);
    forall t | 0 <= t < |k'.threads| ensures PlaceOk(k', t) {
      assert PlaceOk(k, t);
    }
    forall s | 0 <= s < |k'.sems| ensures SemOk(k', s) {
      assert SemOk(k, s);
      assert Woken(k', s) == Woken(k, s);
    }
  }

  // ---- steps that keep the CPU ----------------------------------------------------------------

  lemma CreateKeepsInv(k: State)
    requires Inv(k) && Free(k)
    ensures Inv(Next(k, ECreate))
  {
    var k' := Next(k, ECreate);
    forall t | 0 <= t < |k'.threads| ensures PlaceOk(k', t) {
      assert t < |k.threads| ==> PlaceOk(k, t);
    }
    forall s | 0 <= s < |k'.sems| ensures SemOk(k', s) {
      assert SemOk(k, s);
      assert Woken(k', s) == Woken(k, s);
    }
  }

  lemma ForkKeepsInv(k: State, f: nat)
    requires Inv(k) && Enabled(k, EFork(f))
    ensures Inv(Next(k, EFork(f)))
  {
    var k' := Next(k, EFork(f));
    assert PlaceOk(k, f);
    forall t | 0 <= t < |k'.threads| ensures PlaceOk(k', t) {
      assert PlaceOk(k, t);
    }
    forall s | 0 <= s < |k'.sems| ensures SemOk(k', s) {
      assert SemOk(k, s);
      assert Woken(k', s) == Woken(k, s);
    }
  }

  /** The loop of P ends: the value and, for a re-test, the woken threads both shrink by one. */
  lemma TakeKeepsInv(k: State, s: nat)
    requires Inv(k) && Enabled(k, EP(s)) && k.sems[s].value > 0
    ensures Inv(P(k, s))
  {
    var c := k.current;
    var k' := P(k, s);
    assert PlaceOk(k, c);
    forall r | 0 <= r < |k'.sems| ensures QueueOk(k', k'.sems[r].queue) {
      assert QueueOk(k, k.sems[r].queue);
    }
    forall t | 0 <= t < |k'.threads| ensures PlaceOk(k', t) {
      assert PlaceOk(k, t);
    }
    forall r | 0 <= r < |k'.sems| ensures SemOk(k', r) {
      assert SemOk(k, r);
      if r == s && k.threads[c].call == InP(s) {
        assert Woken(k', s) == Woken(k, s) - {c};
      } else {
        assert Woken(k', r) == Woken(k, r);
      }
    }
  }

  /** V without a waiter. */
  lemma SignalKeepsInv(k: State, s: nat)
    requires Inv(k) && Enabled(k, EV(s)) && k.sems[s].queue == []
    ensures Inv(V(k, s))
  {
    var k' := V(k, s);
    forall r | 0 <= r < |k'.sems| ensures QueueOk(k', k'.sems[r].queue) {
      assert QueueOk(k, k.sems[r].queue);
    }
    forall t | 0 <= t < |k'.threads| ensures PlaceOk(k', t) {
      assert PlaceOk(k, t);
    }
    forall r | 0 <= r < |k'.sems| ensures SemOk(k', r) {
      assert SemOk(k, r);
      assert Woken(k', r) == Woken(k, r);
    }
  }

  /** V with a waiter: one more woken thread pays for the larger value. */
  lemma WakeKeepsInv(k: State, s: nat)
    requires Inv(k) && Enabled(k, EV(s)) && k.sems[s].queue != []
    ensures k.sems[s].queue[0] < |k.threads| && Inv(V(k, s))
  {
    assert QueueOk(k, k.sems[s].queue);
    var w := k.sems[s].queue[0];
    var k' := V(k, s);
    TailOk(k, k.sems[s].queue);
    assert PlaceOk(k, w) && w in k.sems[s].queue;
    WakePlaces(k, s, w);
    WakeSems(k, s, w);
    forall r | 0 <= r < |k'.sems| ensures QueueOk(k', k'.sems[r].queue) {
      assert QueueOk(k, k.sems[r].queue);
    }
  }

  lemma WakeSems(k: State, s: nat, w: nat)
    requires Sems(k) && s < |k.sems| && k.sems[s].queue != [] && w == k.sems[s].queue[0] < |k.threads|
    requires k.threads[w].status == Blocked && k.threads[w].call == InP(s)
    ensures Sems(V(k, s))
  {
    var k' := V(k, s);
    forall r | 0 <= r < |k'.sems| ensures SemOk(k', r) {
      assert SemOk(k, r);
      assert Woken(k', r) == if r == s then Woken(k, s) + {w} else Woken(k, r);
    }
  }

  lemma WakePlaces(k: State, s: nat, w: nat)
    requires Places(k) && s < |k.sems| && k.sems[s].queue != [] && w == k.sems[s].queue[0] < |k.threads|
    requires forall t :: t in k.sems[s].queue <==> t == w || t in k.sems[s].queue[1..]
    requires w !in k.sems[s].queue[1..]
    ensures Places(V(k, s))
  {
    var k' := V(k, s);
    assert PlaceOk(k, w) && w in k.sems[s].queue;
    forall t | 0 <= t < |k'.threads| ensures PlaceOk(k', t) {
      assert PlaceOk(k, t);
    }
  }

  lemma GrabKeepsInv(k: State, l: nat)
    requires Inv(k) && Enabled(k, EAcquire(l)) && !k.locks[l].busy
    ensures Inv(k.(locks := k.locks[l := Grab(k.locks[l], k.current)]))
  {
    var k' := k.(locks := k.locks[l := Grab(k.locks[l], k.current)]);
    assert PlaceOk(k, k.current) && LockOk(k.locks[l]);
    forall r | 0 <= r < |k'.locks| ensures QueueOk(k', k'.locks[r].queue) {
      assert QueueOk(k, k.locks[r].queue);
    }
    forall t | 0 <= t < |k'.threads| ensures PlaceOk(k', t) {
      assert PlaceOk(k, t);
    }
    forall s | 0 <= s < |k'.sems| ensures SemOk(k', s) {
      assert SemOk(k, s);
      assert Woken(k', s) == Woken(k, s);
    }
  }

  /** Resumption after the hand-off: the lock is already this thread's. */
  lemma ReturnKeepsInv(k: State)
    requires Inv(k) && Enabled(k, EReturn)
    ensures k.threads[k.current].call.lock < |k.locks|
    ensures k.locks[k.threads[k.current].call.lock].owner == Some(k.current)
    ensures Inv(Next(k, EReturn))
  {
    var k' := Next(k, EReturn);
    assert PlaceOk(k, k.current);
    forall t | 0 <= t < |k'.threads| ensures PlaceOk(k', t) {
      assert PlaceOk(k, t);
    }
    forall s | 0 <= s < |k'.sems| ensures SemOk(k', s) {
      assert SemOk(k, s);
      assert Woken(k', s) == Woken(k, s);
    }
  }

  lemma ReleaseFreesKeepsInv(k: State, l: nat)
    requires Inv(k) && Enabled(k, ERelease(l)) && k.locks[l].owner == Some(k.current) && k.locks[l].queue == []
    ensures Inv(Release(k, l))
  {
    var k' := Release(k, l);
    assert PlaceOk(k, k.current) && LockOk(k.locks[l]);
    forall r | 0 <= r < |k'.locks| ensures QueueOk(k', k'.locks[r].queue) {
      assert QueueOk(k, k.locks[r].queue);
    }
    forall t | 0 <= t < |k'.threads| ensures PlaceOk(k', t) {
      assert PlaceOk(k, t);
    }
    forall s | 0 <= s < |k'.sems| ensures SemOk(k', s) {
      assert SemOk(k, s);
      assert Woken(k', s) == Woken(k, s);
    }
  }

  lemma HandOffKeepsInv(k: State, l: nat)
    requires Inv(k) && Enabled(k, ERelease(l)) && k.locks[l].owner == Some(k.current) && k.locks[l].queue != []
    ensures k.locks[l].queue[0] < |k.threads| && Inv(Release(k, l))
  {
    assert QueueOk(k, k.locks[l].queue);
    var w := k.locks[l].queue[0];
    var k' := Release(k, l);
    TailOk(k, k.locks[l].queue);
    assert PlaceOk(k, w) && w in k.locks[l].queue;
    assert PlaceOk(k, k.current) && LockOk(k.locks[l]);
    forall r | 0 <= r < |k'.locks| ensures QueueOk(k', k'.locks[r].queue) {
      assert QueueOk(k, k.locks[r].queue);
    }
    forall t | 0 <= t < |k'.threads| ensures PlaceOk(k', t) {
      assert PlaceOk(k, t);
    }
    forall s | 0 <= s < |k'.sems| ensures SemOk(k', s) {
      assert SemOk(k, s);
      assert Woken(k', s) == Woken(k, s);
    }
  }

  // ---- all steps ---------------------------------------------------------------------------------

  lemma SleepKeepsInv(k: State)
    requires InBounds(k) && Inv(Parked(k))
    ensures Inv(Sleep(k))
  {
    SleepParks(k);
    if k.ready != [] { DispatchKeepsInv(Parked(k)); }
  }

  lemma StepKeepsInv(k: State, e: Event)
    requires Inv(k) && Enabled(k, e)
    ensures Inv(Next(k, e))
  {
    match e
    case ECreate => CreateKeepsInv(k);
    case EFork(t) => ForkKeepsInv(k, t);
    case EYield =>
      if k.ready != [] {
        YieldParks(k);
        YieldingKeepsInv(k);
        DispatchKeepsInv(ReadyToRun(k, k.current).(idling := true));
      }
    case EP(s) =>
      if k.sems[s].value > 0 {
        TakeKeepsInv(k, s);
      } else {
        WaitingPKeepsInv(k, s);
        SleepKeepsInv(k.(sems := k.sems[s := Wait(k.sems[s], k.current)],
                         threads := SetCall(k.threads, k.current, InP(s))));
      }
    case EV(s) =>
      if k.sems[s].queue == [] { SignalKeepsInv(k, s); } else { WakeKeepsInv(k, s); }
    case EAcquire(l) =>
      if k.locks[l].owner == Some(k.current) {
      } else if !k.locks[l].busy {
        GrabKeepsInv(k, l);
      } else {
        WaitingAcquireKeepsInv(k, l);
        SleepKeepsInv(k.(locks := k.locks[l := Queue(k.locks[l], k.current)],
                         threads := SetCall(k.threads, k.current, InAcquire(l))));
      }
    case EReturn => ReturnKeepsInv(k);
    case ERelease(l) =>
      if k.locks[l].owner == Some(k.current) {
        if k.locks[l].queue == [] { ReleaseFreesKeepsInv(k, l); } else { HandOffKeepsInv(k, l); }
      }
    case EFinish =>
      FinishingKeepsInv(k);
      SleepKeepsInv(k.(toDestroy := Some(k.current),
                       threads := k.threads[k.current := k.threads[k.current].(finished := true)]));
    case EResume => DispatchKeepsInv(k);
  }

  /** From boot, however the steps interleave, no state without the invariant is reached. */
  lemma {:induction false} RunKeepsInv(ks: seq<State>, es: seq<Event>, n: nat)
    requires |ks| == |es| + 1 && n <= |es| && Inv(ks[0])
    requires forall j :: 0 <= j < |es| ==> IsStep(ks[j], es[j], ks[j + 1])
    ensures Inv(ks[n])
  {
    if n > 0 {
      RunKeepsInv(ks, es, n - 1);
      assert IsStep(ks[n - 1], es[n - 1], ks[n - 1 + 1]);
      StepKeepsInv(ks[n - 1], es[n - 1]);
    }
  }

  ghost predicate IsStep(k: State, e: Event, k': State) {
    Inv(k) ==> Enabled(k, e) && k' == Next(k, e)
  }

  /** States in which the invariant holds: all that a run from boot can reach. */
  type Good = k: State | Inv(k) ghost witness (BootOk([], 0); Boot([], 0))

  function Step(k: Good, e: Event): Good
    requires Enabled(k, e)
  {
    StepKeepsInv(k, e);
    Next(k, e)
  }
}
