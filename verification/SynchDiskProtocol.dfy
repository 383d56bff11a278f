/** Any number of threads calling the synchronous disk, interleaved with disk interrupts
    (filesys/synchdisk.cc over machine/disk.cc). */
module SynchDiskProtocol {
  import opened Common
  import opened Synch
  import opened Layout

  /** Where a thread is in ReadSector or WriteSector. */
  datatype Pc = Out | Acquiring | Locked | Waiting | Served

  datatype Op = Read(sector: nat) | Write(sector: nat, data: Sector)

  predicate OpOk(op: Op) {
    op.sector < NUM_SECTORS
  }

  /** The call in progress, the data it moved, the number of its request, and how many requests
      had been issued when it began. */
  datatype Client = Client(pc: Pc, op: Op, got: Option<Sector>, serial: nat, began: nat)

  datatype Record = Record(client: nat, op: Op, got: Sector)

  /** outstanding counts scheduled disk interrupts. log, the requests in the order they reached
      the disk, and completed are history; failed says that the disk's assertion that it is not
      active has fired. */
  datatype State = State(clients: seq<Client>, lock: Lock, sem: Sem, active: bool,
                         outstanding: nat, image: Image, log: seq<Record>, completed: nat, failed: bool)

  function Start(n: nat, image: Image): State {
    State(seq(n, _ => Client(Out, Read(0), None, 0, 0)), FREE_LOCK, NewSem(0), false, 0, image, [], 0, false)
  }

  // ---- the disk one request at a time -------------------------------------------------------

  function Apply(image: Image, op: Op): Image
    requires OpOk(op)
  {
    if op.Write? then image[op.sector := op.data] else image
  }

  /** The sector's data as the call leaves it: what a read returns. */
  function Moved(image: Image, op: Op): Sector
    requires OpOk(op)
  {
    if op.Write? then op.data else image[op.sector]
  }

  ghost predicate LogOk(log: seq<Record>) {
    forall i :: 0 <= i < |log| ==> OpOk(log[i].op)
  }

  /** The image after the first n requests of the log, performed one after the other. */
  function Replay(image: Image, log: seq<Record>, n: nat): Image
    requires n <= |log| && forall i :: 0 <= i < |log| ==> OpOk(log[i].op)
  {
    if n == 0 then image else Apply(Replay(image, log, n - 1), log[n - 1].op)
  }

  lemma {:induction false} ReplayPrefix(image: Image, log: seq<Record>, x: Record, n: nat)
    requires LogOk(log) && OpOk(x.op) && n <= |log|
    ensures Replay(image, log + [x], n) == Replay(image, log, n)
  {
    if n > 0 { ReplayPrefix(image, log, x, n - 1); }
  }

  /** The i-th call got what the replay of the calls before it leaves for it. */
  ghost predicate RecordOk(image: Image, log: seq<Record>, i: nat) {
    LogOk(log) && i < |log| && log[i].got == Moved(Replay(image, log, i), log[i].op)
  }

  /** The calls behave as if made one at a time in log order. */
  ghost predicate Sequential(image: Image, log: seq<Record>, now: Image) {
    && LogOk(log)
    && now == Replay(image, log, |log|)
    && forall i :: 0 <= i < |log| ==> RecordOk(image, log, i)
  }

  lemma RecordKept(image: Image, log: seq<Record>, x: Record, i: nat)
    requires RecordOk(image, log, i) && OpOk(x.op)
    ensures RecordOk(image, log + [x], i)
  {
    assert LogOk(log + [x]);
    ReplayPrefix(image, log, x, i);
  }

  lemma RecordAdded(image: Image, log: seq<Record>, now: Image, x: Record)
    requires LogOk(log) && now == Replay(image, log, |log|) && OpOk(x.op) && x.got == Moved(now, x.op)
    ensures RecordOk(image, log + [x], |log|)
    ensures Replay(image, log + [x], |log| + 1) == Apply(now, x.op)
  {
    assert LogOk(log + [x]);
    ReplayPrefix(image, log, x, |log|);
  }

  lemma SequentialOneMore(image: Image, log: seq<Record>, now: Image, t: nat, op: Op)
    requires Sequential(image, log, now) && OpOk(op)
    ensures Sequential(image, log + [Record(t, op, Moved(now, op))], Apply(now, op))
  {
    var x := Record(t, op, Moved(now, op));
    RecordAdded(image, log, now, x);
    forall i | 0 <= i < |log| ensures RecordOk(image, log + [x], i) {
      RecordKept(image, log, x, i);
    }
  }

  /** The last of the first n requests that writes the sector, or -1. */
  function LastWrite(log: seq<Record>, s: nat, n: nat): (r: int)
    requires n <= |log|
    ensures -1 <= r < n
    ensures r != -1 ==> log[r].op.Write? && log[r].op.sector == s
    ensures forall j :: r < j < n ==> !(log[j].op.Write? && log[j].op.sector == s)
  {
    if n == 0 then -1
    else if log[n - 1].op.Write? && log[n - 1].op.sector == s then n - 1
    else LastWrite(log, s, n - 1)
  }

  /** A sector's data after n requests, told by the requests alone: what was written last, or
      what was there at first. */
  function DataAfter(image: Image, log: seq<Record>, s: nat, n: nat): Sector
    requires n <= |log| && s < NUM_SECTORS
  {
    var w := LastWrite(log, s, n);
    if w == -1 then image[s] else log[w].op.data
  }

  lemma {:induction false} ReplayIsLastWrite(image: Image, log: seq<Record>, s: nat, n: nat)
    requires LogOk(log) && n <= |log| && s < NUM_SECTORS
    ensures Replay(image, log, n)[s] == DataAfter(image, log, s, n)
  {
    if n > 0 { ReplayIsLastWrite(image, log, s, n - 1); }
  }

  /** Each read gets what was last written to its sector before it, and so does the disk. */
  lemma ReadsLastWrite(image: Image, log: seq<Record>, now: Image)
    requires Sequential(image, log, now)
    ensures forall i :: 0 <= i < |log| && log[i].op.Read? ==>
              OpOk(log[i].op) && log[i].got == DataAfter(image, log, log[i].op.sector, i)
    ensures forall i :: 0 <= i < |log| && log[i].op.Write? ==> log[i].got == log[i].op.data
    ensures forall s: nat :: s < NUM_SECTORS ==> now[s] == DataAfter(image, log, s, |log|)
  {
    forall i | 0 <= i < |log| && log[i].op.Read?
      ensures OpOk(log[i].op) && log[i].got == DataAfter(image, log, log[i].op.sector, i)
    {
      assert RecordOk(image, log, i);
      ReplayIsLastWrite(image, log, log[i].op.sector, i);
    }
    forall i | 0 <= i < |log| && log[i].op.Write? ensures log[i].got == log[i].op.data {
      assert RecordOk(image, log, i);
    }
    forall s: nat | s < NUM_SECTORS ensures now[s] == DataAfter(image, log, s, |log|) {
      ReplayIsLastWrite(image, log, s, |log|);
    }
  }

  // ---- steps ------------------------------------------------------------------------------

  datatype Event =
    | Call(t: nat, op: Op) // lock->Acquire()
    | Enter(t: nat)        // resumed inside Acquire
    | Request(t: nat)      // disk->ReadRequest or WriteRequest
    | TestP(t: nat)        // a round of semaphore->P()
    | Interrupt            // Disk::HandleInterrupt, then RequestDone
    | Leave(t: nat)        // lock->Release(), and return

  predicate At(c: State, t: nat, pc: Pc) {
    t < |c.clients| && c.clients[t].pc == pc
  }

  predicate Enabled(c: State, e: Event) {
    match e
    case Call(t, op) => At(c, t, Out) && OpOk(op)
    case Enter(t) => At(c, t, Acquiring) && t !in c.lock.queue
    case Request(t) => At(c, t, Locked) && OpOk(c.clients[t].op)
    case TestP(t) => At(c, t, Waiting) && t !in c.sem.queue
    case Interrupt => c.outstanding > 0
    case Leave(t) => At(c, t, Served)
  }

  function Move(c: State, t: nat, pc: Pc): State
    requires t < |c.clients|
  {
    c.(clients := c.clients[t := c.clients[t].(pc := pc)])
  }

  function Step(c: State, e: Event): State
    requires Enabled(c, e)
  {
    match e
    case Call(t, op) =>
      var c1 := c.(clients := c.clients[t := c.clients[t].(op := op, began := |c.log|)]);
      if c.lock.owner == Some(t) then Move(c1, t, Locked)
      else if !c.lock.busy then Move(c1, t, Locked).(lock := Grab(c.lock, t))
      else Move(c1, t, Acquiring).(lock := Queue(c.lock, t))
    case Enter(t) => Move(c, t, Locked)
    case Request(t) =>
      if c.active then c.(failed := true)
      else
        var op := c.clients[t].op;
        var got := Moved(c.image, op);
        c.(clients := c.clients[t := c.clients[t].(pc := Waiting, got := Some(got), serial := |c.log| + 1)],
           active := true, outstanding := c.outstanding + 1,
           image := Apply(c.image, op), log := c.log + [Record(t, op, got)])
    case TestP(t) =>
      if c.sem.value == 0 then c.(sem := Wait(c.sem, t))
      else Move(c, t, Served).(sem := Take(c.sem))
    case Interrupt =>
      c.(active := false, outstanding := c.outstanding - 1, completed := c.completed + 1, sem := Signal(c.sem))
    case Leave(t) =>
      if c.lock.owner == Some(t) then Move(c, t, Out).(lock := HandOff(c.lock)) else Move(c, t, Out)
  }

  // ---- invariant ------------------------------------------------------------------------

  /** The lock's owner has a request that it has not consumed. */
  predicate Unconsumed(c: State) {
    c.lock.owner.Some? && At(c, c.lock.owner.value, Waiting)
  }

  ghost predicate ClientOk(c: State, t: nat)
    requires t < |c.clients|
  {
    var me := c.clients[t];
    && (me.pc == Out ==> c.lock.owner != Some(t) && t !in c.lock.queue)
    && (me.pc == Acquiring ==> (t in c.lock.queue <==> c.lock.owner != Some(t)))
    && (me.pc in {Locked, Waiting, Served} ==> c.lock.owner == Some(t))
    && (t in c.sem.queue ==> me.pc == Waiting)
    && (me.pc in {Waiting, Served} ==>
          && me.serial == |c.log| > me.began && me.got.Some?
          && c.log[me.serial - 1] == Record(t, me.op, me.got.value))
    && me.began <= |c.log| && OpOk(me.op)
  }

  ghost predicate Inv(c: State) {
    && !c.failed && LockOk(c.lock) && NoDuplicates(c.lock.queue)
    && (forall t :: 0 <= t < |c.clients| ==> ClientOk(c, t))
    && (forall i :: 0 <= i < |c.lock.queue| ==> c.lock.queue[i] < |c.clients|)
    && (c.lock.owner.Some? ==> c.lock.owner.value < |c.clients|)
    && c.sem.value + c.outstanding == (if Unconsumed(c) then 1 else 0)
    && (c.active <==> c.outstanding == 1)
    && |c.log| == c.completed + c.outstanding
    && (c.sem.queue != [] ==> Unconsumed(c) && c.sem.queue == [c.lock.owner.value] && c.sem.value == 0)
  }

  lemma StartOk(n: nat, image: Image)
    ensures Inv(Start(n, image)) && Sequential(image, Start(n, image).log, Start(n, image).image)
  {
  }

  lemma CallKeeps(c: State, t: nat, op: Op)
    requires Inv(c) && Enabled(c, Call(t, op))
    ensures Inv(Step(c, Call(t, op)))
  {
    var c' := Step(c, Call(t, op));
    assert ClientOk(c, t);
    forall u | 0 <= u < |c'.clients| ensures ClientOk(c', u) {
      assert ClientOk(c, u);
    }
  }

  lemma EnterKeeps(c: State, t: nat)
    requires Inv(c) && Enabled(c, Enter(t))
    ensures Inv(Step(c, Enter(t)))
  {
    var c' := Step(c, Enter(t));
    assert ClientOk(c, t);
    forall u | 0 <= u < |c'.clients| ensures ClientOk(c', u) {
      assert ClientOk(c, u);
    }
  }

  /** The disk is idle whenever a request is made. */
  lemma RequestKeeps(c: State, t: nat)
    requires Inv(c) && Enabled(c, Request(t))
    ensures !c.active && Inv(Step(c, Request(t)))
  {
    var c' := Step(c, Request(t));
    assert ClientOk(c, t);
    forall u | 0 <= u < |c'.clients| ensures ClientOk(c', u) {
      assert ClientOk(c, u);
    }
  }

  lemma TestPKeeps(c: State, t: nat)
    requires Inv(c) && Enabled(c, TestP(t))
    ensures Inv(Step(c, TestP(t)))
  {
    var c' := Step(c, TestP(t));
    assert ClientOk(c, t);
    forall u | 0 <= u < |c'.clients| ensures ClientOk(c', u) {
      assert ClientOk(c, u);
    }
  }

  lemma InterruptKeeps(c: State)
    requires Inv(c) && Enabled(c, Interrupt)
    ensures Inv(Step(c, Interrupt))
  {
    var c' := Step(c, Interrupt);
    assert c'.sem.queue == [];
    forall u | 0 <= u < |c'.clients| ensures ClientOk(c', u) {
      assert ClientOk(c, u);
    }
  }

  lemma LeaveKeeps(c: State, t: nat)
    requires Inv(c) && Enabled(c, Leave(t))
    ensures Inv(Step(c, Leave(t)))
  {
    var c' := Step(c, Leave(t));
    assert ClientOk(c, t);
    if c.lock.queue != [] {
      var w := c.lock.queue[0];
      assert c.lock.queue == [w] + c.lock.queue[1..];
      assert ClientOk(c, w);
    }
    forall u | 0 <= u < |c'.clients| ensures ClientOk(c', u) {
      assert ClientOk(c, u);
    }
  }

  lemma StepKeepsInv(c: State, e: Event)
    requires Inv(c) && Enabled(c, e)
    ensures Inv(Step(c, e))
  {
    match e
    case Call(t, op) => CallKeeps(c, t, op);
    case Enter(t) => EnterKeeps(c, t);
    case Request(t) => RequestKeeps(c, t);
    case TestP(t) => TestPKeeps(c, t);
    case Interrupt => InterruptKeeps(c);
    case Leave(t) => LeaveKeeps(c, t);
  }

  lemma StepKeepsSequential(image: Image, c: State, e: Event)
    requires Sequential(image, c.log, c.image) && Enabled(c, e)
    ensures Sequential(image, Step(c, e).log, Step(c, e).image)
  {
    if e.Request? && !c.active {
      SequentialOneMore(image, c.log, c.image, e.t, c.clients[e.t].op);
    }
  }

  // ---- runs ------------------------------------------------------------------------------

  ghost predicate CanRun(c: State, es: seq<Event>)
    decreases |es|, 0
  {
    es == [] || (CanRun(c, Init(es)) && Enabled(After(c, Init(es)), Last(es)))
  }

  ghost function After(c: State, es: seq<Event>): State
    requires CanRun(c, es)
    decreases |es|, 1
  {
    if es == [] then c else Step(After(c, Init(es)), Last(es))
  }

  lemma {:induction false} RunKeepsInv(image: Image, c: State, es: seq<Event>)
    requires Inv(c) && Sequential(image, c.log, c.image) && CanRun(c, es)
    ensures Inv(After(c, es)) && Sequential(image, After(c, es).log, After(c, es).image)
    decreases |es|
  {
    if es != [] {
      var c1 := After(c, Init(es));
      RunKeepsInv(image, c, Init(es));
      StepKeepsInv(c1, Last(es));
      StepKeepsSequential(image, c1, Last(es));
    }
  }

  /** A state that some interleaving reaches from idle threads and an idle disk. */
  ghost predicate Reachable(n: nat, image: Image, c: State) {
    exists es :: CanRun(Start(n, image), es) && After(Start(n, image), es) == c
  }

  lemma ReachableIsGood(n: nat, image: Image, c: State)
    requires Reachable(n, image, c)
    ensures Inv(c) && Sequential(image, c.log, c.image)
  {
    var es :| CanRun(Start(n, image), es) && After(Start(n, image), es) == c;
    StartOk(n, image);
    RunKeepsInv(image, Start(n, image), es);
  }

  /** In every interleaving: the completion semaphore and the scheduled interrupts add up to
      one exactly while the owner's request is unconsumed, and to none otherwise; the disk's
      assertion never fires. */
  lemma CompletionsBalance(n: nat, image: Image, c: State)
    requires Reachable(n, image, c)
    ensures !c.failed && c.sem.value + c.outstanding == if Unconsumed(c) then 1 else 0
  {
    ReachableIsGood(n, image, c);
  }

  predicate CallBy(e: Event, t: nat) {
    e.Call? && e.t == t
  }

  /** When the thread last called, or -1. */
  function CallIndex(es: seq<Event>, t: nat): (r: int)
    ensures -1 <= r < |es|
    ensures r != -1 ==> CallBy(es[r], t)
    ensures forall j :: r < j < |es| ==> !CallBy(es[j], t)
  {
    if es == [] then -1 else if CallBy(Last(es), t) then |es| - 1 else CallIndex(Init(es), t)
  }

  lemma {:induction false} PrefixRuns(c: State, es: seq<Event>, k: nat)
    requires CanRun(c, es) && k <= |es|
    ensures CanRun(c, es[..k])
    decreases |es|
  {
    if k < |es| {
      PrefixRuns(c, Init(es), k);
      assert es[..k] == Init(es)[..k];
    } else {
      assert es[..k] == es;
    }
  }

  /** Only a call takes a thread in, and nothing else changes what it is there for. */
  ghost predicate ClientStep(a: Client, e: Event, t: nat, requests: nat, b: Client) {
    if CallBy(e, t) then b.op == e.op && b.began == requests
    else b.op == a.op && b.began == a.began && (a.pc == Out ==> b.pc == Out)
  }

  lemma StepOfClient(c: State, e: Event, t: nat)
    requires Enabled(c, e)
    ensures |Step(c, e).clients| == |c.clients|
    ensures t < |c.clients| ==> ClientStep(c.clients[t], e, t, |c.log|, Step(c, e).clients[t])
  {
  }

  /** A thread inside a call is there with the arguments of that call, and remembers how many
      requests had been made when it began. */
  lemma {:induction false} InsideItsCall(c: State, es: seq<Event>, t: nat)
    requires CanRun(c, es) && t < |c.clients| && c.clients[t].pc == Out
    ensures t < |After(c, es).clients|
    ensures After(c, es).clients[t].pc != Out ==>
              var me, k := After(c, es).clients[t], CallIndex(es, t);
              && k != -1 && es[k] == Call(t, me.op)
              && CanRun(c, es[..k]) && me.began == |After(c, es[..k]).log|
    decreases |es|
  {
    if es != [] {
      var p, e := Init(es), Last(es);
      InsideItsCall(c, p, t);
      StepOfClient(After(c, p), e, t);
      var k := CallIndex(es, t);
      if CallBy(e, t) {
        assert es[..k] == p;
      } else if After(c, es).clients[t].pc != Out {
        assert es[..k] == p[..k] && es[k] == p[k];
      }
    }
  }

  /** A call returns only after its own completion. Its request, with the arguments of the call,
      is on record later than everything requested before the call began; a read returns what
      was last written to its sector by the requests before it. */
  lemma CallsAreAtomic(n: nat, image: Image, es: seq<Event>, t: nat)
    requires CanRun(Start(n, image), es) && Enabled(After(Start(n, image), es), Leave(t))
    ensures var c, k := After(Start(n, image), es), CallIndex(es, t);
            var me := c.clients[t];
            && k != -1 && es[k] == Call(t, me.op) && CanRun(Start(n, image), es[..k])
            && |After(Start(n, image), es[..k]).log| < me.serial <= c.completed && me.serial <= |c.log|
            && OpOk(me.op) && me.got.Some? && c.log[me.serial - 1] == Record(t, me.op, me.got.value)
            && (me.op.Read? ==> me.got.value == DataAfter(image, c.log, me.op.sector, me.serial - 1))
  {
    var c0 := Start(n, image);
    var c := After(c0, es);
    StartOk(n, image);
    RunKeepsInv(image, c0, es);
    ReadsLastWrite(image, c.log, c.image);
    ClientsStay(c0, es);
    InsideItsCall(c0, es, t);
    assert ClientOk(c, t);
  }

  lemma {:induction false} ClientsStay(c: State, es: seq<Event>)
    requires CanRun(c, es)
    ensures |After(c, es).clients| == |c.clients|
    decreases |es|
  {
    if es != [] {
      ClientsStay(c, Init(es));
      StepOfClient(After(c, Init(es)), Last(es), 0);
    }
  }

  /** A sleeping caller is always about to be woken: its interrupt is on the way. */
  lemma SleeperIsOwed(n: nat, image: Image, c: State, t: nat)
    requires Reachable(n, image, c) && t in c.sem.queue
    ensures c.outstanding == 1 && c.lock.owner == Some(t)
  {
    ReachableIsGood(n, image, c);
  }

  /** No deadlock: while anybody is inside a call, some step other than a new call is possible. */
  lemma NoDeadlock(n: nat, image: Image, c: State, t: nat)
    requires Reachable(n, image, c) && t < |c.clients| && c.clients[t].pc != Out
    ensures exists e: Event :: !e.Call? && Enabled(c, e)
  {
    ReachableIsGood(n, image, c);
    assert ClientOk(c, t);
    assert c.lock.owner.Some?;
    var o := c.lock.owner.value;
    assert ClientOk(c, o);
    match c.clients[o].pc
    case Acquiring => assert Enabled(c, Enter(o));
    case Locked => assert Enabled(c, Request(o));
    case Waiting =>
      if o in c.sem.queue {
        assert Enabled(c, Interrupt);
      } else {
        assert Enabled(c, TestP(o));
      }
    case Served => assert Enabled(c, Leave(o));
  }
}
