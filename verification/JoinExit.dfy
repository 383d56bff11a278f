/** The handshake between a parent's Join and its child's Exit (threads/ptable.cc and
    threads/pcb.cc), in every interleaving of the two, finer than the kernel's own. */
module JoinExit {
  import opened Common
  import opened Synch

  const PARENT: nat := 0
  const CHILD: nat := 1

  /** JoinUpdate: before JoinWait, in joinsem->P(), before GetExitCode, before ExitRelease,
      returned, or having reached for a deleted PCB. */
  datatype ParentPc = Before | Joining | Reading | Releasing | Returned(result: int) | Dangling

  /** ExitUpdate: before it, the JoinStatus test, JoinRelease, exitsem->P(), Remove, returned. */
  datatype ChildPc = Live | Checking | Signalling | ExitWaiting | Removing | Gone

  /** The PCB, its slot, and history: the code the parent read, and whether the child saw the
      join registered. ec is the code the child exits with. */
  datatype State = State(parent: ParentPc, child: ChildPc, ec: int, exitcode: int, registered: bool,
                         numwait: nat, joinsem: Sem, exitsem: Sem, slotMarked: bool,
                         read: Option<int>, joined: bool)

  function Start(ec: int): State {
    State(Before, Live, ec, 0, false, 0, NewSem(0), NewSem(0), true, None, false)
  }

  datatype Event = Register | JoinP | ReadCode | ExitRelease | Exit | Check | JoinRelease | ExitP | Remove

  predicate Enabled(c: State, e: Event) {
    match e
    case Register => c.parent == Before
    case JoinP => c.parent == Joining && PARENT !in c.joinsem.queue
    case ReadCode => c.parent == Reading
    case ExitRelease => c.parent == Releasing
    case Exit => c.child == Live
    case Check => c.child == Checking
    case JoinRelease => c.child == Signalling
    case ExitP => c.child == ExitWaiting && CHILD !in c.exitsem.queue
    case Remove => c.child == Removing
  }

  predicate ByParent(e: Event) {
    e in {Register, JoinP, ReadCode, ExitRelease}
  }

  /** The slot's bit is cleared and the PCB deleted together; the pointer to it stays. */
  function Step(c: State, e: Event): State
    requires Enabled(c, e)
  {
    if ByParent(e) && !c.slotMarked then c.(parent := Dangling)
    else match e
    case Register => c.(parent := Joining, registered := true, numwait := c.numwait + 1)
    case JoinP =>
      if c.joinsem.value == 0 then c.(joinsem := Wait(c.joinsem, PARENT))
      else c.(parent := Reading, joinsem := Take(c.joinsem))
    case ReadCode =>
      c.(read := Some(c.exitcode), parent := if c.exitcode != 0 then Returned(-1) else Releasing)
    case ExitRelease => c.(parent := Returned(0), exitsem := Signal(c.exitsem))
    case Exit => c.(child := Checking, exitcode := c.ec)
    case Check => c.(child := if c.registered then Signalling else Removing, joined := c.registered)
    case JoinRelease =>
      c.(child := ExitWaiting, joinsem := Signal(c.joinsem), numwait := if c.numwait > 0 then c.numwait - 1 else 0)
    case ExitP =>
      if c.exitsem.value == 0 then c.(exitsem := Wait(c.exitsem, CHILD))
      else c.(child := Removing, exitsem := Take(c.exitsem))
    case Remove => c.(child := Gone, slotMarked := false)
  }

  // ---- invariant ----------------------------------------------------------------------------

  function One(b: bool): nat {
    if b then 1 else 0
  }

  /** Both semaphores start at 0 and are signalled and consumed at most once, at the places of
      the protocol that the program counters tell. */
  ghost predicate Inv(c: State) {
    && Balanced(c.joinsem) && Balanced(c.exitsem) && c.joinsem.initial == c.exitsem.initial == 0
    && (c.parent == Before ==> !c.registered)
    && (c.parent in {Joining, Reading, Releasing} || c.parent.Returned? ==> c.registered)
    && (c.joined ==> c.registered && c.child !in {Live, Checking})
    && (c.child in {Signalling, ExitWaiting} ==> c.joined)
    && (c.child == Gone <==> !c.slotMarked)
    && (c.child != Live ==> c.exitcode == c.ec)
    && c.joinsem.vs == One(c.joined && c.child in {ExitWaiting, Removing, Gone})
    && c.joinsem.ps == One(c.parent in {Reading, Releasing} || c.parent.Returned?)
    && c.exitsem.vs == One(c.parent == Returned(0))
    && c.exitsem.ps == One(c.joined && c.child in {Removing, Gone})
    && c.joinsem.queue == (if PARENT in c.joinsem.queue then [PARENT] else [])
    && c.exitsem.queue == (if CHILD in c.exitsem.queue then [CHILD] else [])
    && (c.joinsem.queue != [] ==> (c.parent == Joining || c.parent == Dangling) && c.joinsem.value == 0)
    && (c.exitsem.queue != [] ==> c.child == ExitWaiting && c.exitsem.value == 0)
    && (c.parent == Releasing || c.parent.Returned? ==> c.read == Some(c.ec))
    && (c.parent == Releasing || c.parent == Returned(0) ==> c.ec == 0)
    && (c.parent.Returned? ==> c.parent == Returned(if c.ec == 0 then 0 else -1))
    && (c.joined ==> c.parent != Dangling)
    && (c.parent == Dangling ==> c.child == Gone)
    && (c.read.Some? ==> c.read.value == c.ec && c.joinsem.ps == 1)
    && c.numwait == One(c.registered && c.joinsem.vs == 0)
  }

  lemma StepKeepsInv(c: State, e: Event)
    requires Inv(c) && Enabled(c, e)
    ensures Inv(Step(c, e))
  {
  }

  // ---- runs ------------------------------------------------------------------------------------

  ghost predicate CanRun(c: State, es: seq<Event>)
    decreases |es|
  {
    es == [] || (Enabled(c, es[0]) && CanRun(Step(c, es[0]), es[1..]))
  }

  ghost function After(c: State, es: seq<Event>): State
    requires CanRun(c, es)
    decreases |es|
  {
    if es == [] then c else After(Step(c, es[0]), es[1..])
  }

  type Good = c: State | Inv(c) ghost witness Start(0)

  lemma {:induction false} RunKeepsInv(c: Good, es: seq<Event>)
    requires CanRun(c, es)
    ensures Inv(After(c, es)) && After(c, es).ec == c.ec
    decreases |es|
  {
    if es != [] {
      StepKeepsInv(c, es[0]);
      RunKeepsInv(Step(c, es[0]), es[1..]);
    }
  }

  /** With the join registered when the child looks: what the parent has read is the code the
      child set, the PCB goes only after that, and nobody reaches for a deleted PCB. */
  lemma JoinedIsSafe(ec: int, es: seq<Event>)
    requires CanRun(Start(ec), es) && After(Start(ec), es).joined
    ensures var c := After(Start(ec), es);
            && (c.read.Some? ==> c.read.value == ec)
            && (!c.slotMarked ==> c.read == Some(ec) && c.parent == Returned(0))
            && c.parent != Dangling
            && c.joinsem.ps <= c.joinsem.vs <= 1 && c.exitsem.ps <= c.exitsem.vs <= 1
  {
    RunKeepsInv(Start(ec), es);
  }

  // ---- how it ends ---------------------------------------------------------------------------------

  /** Steps that a thread may still take at most. */
  function ParentRank(c: State): nat {
    match c.parent
    case Before => 6
    case Joining => if PARENT in c.joinsem.queue then 4 else if c.joinsem.value > 0 then 3 else 5
    case Reading => 2
    case Releasing => 1
    case _ => 0
  }

  function ChildRank(c: State): nat {
    match c.child
    case Live => 7
    case Checking => 6
    case Signalling => 5
    case ExitWaiting => if CHILD in c.exitsem.queue then 3 else if c.exitsem.value > 0 then 2 else 4
    case Removing => 1
    case Gone => 0
  }

  lemma StepLowersRank(c: State, e: Event)
    requires Inv(c) && Enabled(c, e)
    ensures ParentRank(Step(c, e)) + ChildRank(Step(c, e)) < ParentRank(c) + ChildRank(c)
  {
  }

  /** Every run comes to an end, after at most thirteen steps. */
  lemma {:induction false} RunsAreShort(c: State, es: seq<Event>)
    requires Inv(c) && CanRun(c, es)
    ensures |es| + ParentRank(After(c, es)) + ChildRank(After(c, es)) <= ParentRank(c) + ChildRank(c)
    decreases |es|
  {
    if es != [] {
      StepKeepsInv(c, es[0]);
      StepLowersRank(c, es[0]);
      RunsAreShort(Step(c, es[0]), es[1..]);
    }
  }

  predicate Stuck(c: State) {
    forall e :: !Enabled(c, e)
  }

  /** The parent has returned with the child's code, the child is gone and its slot free, and
      each semaphore was signalled once and consumed once. */
  predicate Complete(c: State) {
    && c.parent == Returned(0) && c.read == Some(c.ec) && c.child == Gone && !c.slotMarked
    && c.joinsem.vs == c.joinsem.ps == 1 && c.exitsem.vs == c.exitsem.ps == 1 && c.numwait == 0
  }

  /** The join is registered before the child looks for it. */
  predicate RegisteredFirst(es: seq<Event>) {
    es != [] && (es[0] == Register || (es[0] != Check && RegisteredFirst(es[1..])))
  }

  lemma {:induction false} DecidedByCheck(c: State, es: seq<Event>)
    requires Inv(c) && CanRun(c, es)
    ensures var c' := After(c, es);
            && (c.child !in {Live, Checking} ==> c'.joined == c.joined && c'.child !in {Live, Checking})
            && (c.child in {Live, Checking} && c'.child !in {Live, Checking} ==>
                  (c'.joined <==> c.registered || RegisteredFirst(es)))
    decreases |es|
  {
    if es != [] {
      StepKeepsInv(c, es[0]);
      DecidedByCheck(Step(c, es[0]), es[1..]);
    }
  }

  lemma StuckEnds(c: State)
    requires Inv(c) && Stuck(c)
    ensures c.child !in {Live, Checking}
    ensures Complete(c) <==> c.joined && c.ec == 0
    ensures c.joined && c.ec != 0 ==> c.parent == Returned(-1) && c.child == ExitWaiting && c.slotMarked
    ensures !c.joined ==> c.parent == Dangling || PARENT in c.joinsem.queue
  {
    assert !Enabled(c, Exit) && !Enabled(c, Check) && !Enabled(c, JoinRelease) && !Enabled(c, ExitP)
        && !Enabled(c, Remove);
    assert !Enabled(c, Register) && !Enabled(c, JoinP) && !Enabled(c, ReadCode) && !Enabled(c, ExitRelease);
  }

  /** The handshake completes, in whatever interleaving, if and only if the join is registered
      before the child's test and the exit code is 0. With another code the child waits for
      ever and its slot stays taken; unregistered, the parent waits for ever or reaches for a
      deleted PCB. */
  lemma CompletesIff(ec: int, es: seq<Event>)
    requires CanRun(Start(ec), es) && Stuck(After(Start(ec), es))
    ensures Complete(After(Start(ec), es)) <==> RegisteredFirst(es) && ec == 0
    ensures RegisteredFirst(es) && ec != 0 ==>
              After(Start(ec), es).child == ExitWaiting && After(Start(ec), es).slotMarked
    ensures !RegisteredFirst(es) ==>
              After(Start(ec), es).parent == Dangling || PARENT in After(Start(ec), es).joinsem.queue
  {
    RunKeepsInv(Start(ec), es);
    DecidedByCheck(Start(ec), es);
    StuckEnds(After(Start(ec), es));
  }

  lemma RunCons(c: State, e: Event, es: seq<Event>)
    requires Enabled(c, e) && CanRun(Step(c, e), es)
    ensures CanRun(c, [e] + es) && After(c, [e] + es) == After(Step(c, e), es)
  {
    assert ([e] + es)[1..] == es;
  }

  /** The child has exited with 1 and signalled a parent that is in Join. */
  const SIGNALLED: State := State(Joining, ExitWaiting, 1, 1, true, 0, Sem(1, [], 0, 1, 0), NewSem(0), true, None, true)

  lemma NonzeroCodeHangs()
    ensures var es := [JoinP] + ([ReadCode] + [ExitP]);
            CanRun(SIGNALLED, es) && Stuck(After(SIGNALLED, es)) && !Complete(After(SIGNALLED, es))
  {
    var c1 := Step(SIGNALLED, JoinP);
    var c2 := Step(c1, ReadCode);
    var c3 := Step(c2, ExitP);
    RunCons(c2, ExitP, []);
    RunCons(c1, ReadCode, [ExitP]);
    RunCons(SIGNALLED, JoinP, [ReadCode] + [ExitP]);
    assert c3.parent == Returned(-1) && c3.exitsem.queue == [CHILD];
    assert Stuck(c3);
  }

  /** An orderly join of a child that exits with 1 leaves the child waiting and its slot taken. */
  lemma NonzeroCodeExample()
    ensures exists es :: CanRun(Start(1), es) && RegisteredFirst(es) && Stuck(After(Start(1), es))
                      && !Complete(After(Start(1), es))
  {
    NonzeroCodeHangs();
    var c1 := Step(Start(1), Register);
    var c2 := Step(c1, Exit);
    var c3 := Step(c2, Check);
    assert Step(c3, JoinRelease) == SIGNALLED;
    var tail := [JoinP] + ([ReadCode] + [ExitP]);
    RunCons(c3, JoinRelease, tail);
    RunCons(c2, Check, [JoinRelease] + tail);
    RunCons(c1, Exit, [Check] + ([JoinRelease] + tail));
    var rest := [Exit] + ([Check] + ([JoinRelease] + tail));
    RunCons(Start(1), Register, rest);
    assert RegisteredFirst([Register] + rest);
  }

  /** A join after the child is gone reaches for the deleted PCB, even with exit code 0. */
  lemma LateJoinExample()
    ensures exists es :: CanRun(Start(0), es) && !RegisteredFirst(es) && After(Start(0), es).parent == Dangling
  {
    var c1 := Step(Start(0), Exit);
    var c2 := Step(c1, Check);
    var c3 := Step(c2, Remove);
    var e2 := [Remove] + [Register];
    RunCons(c3, Register, []);
    RunCons(c2, Remove, [Register]);
    RunCons(c1, Check, e2);
    RunCons(Start(0), Exit, [Check] + e2);
    var es := [Exit] + ([Check] + e2);
    assert es[1..] == [Check] + e2;
    assert !RegisteredFirst([Check] + e2);
    assert CanRun(Start(0), es) && !RegisteredFirst(es) && After(Start(0), es).parent == Dangling;
  }
}
