/** Any number of threads writing to the synchronous console, interleaved with the console's
    interrupts (threads/synchcons.cc over machine/console.cc). */
module ConsoleProtocol {
  import opened Common
  import opened Synch

  /** Where a thread is in SynchConsole::Write: in WLineBlock->P(), at the head of the loop with
      the given index, or in synchWriteAvail->P() for that character. */
  datatype Pc = Out | Entering | Loop(i: nat) | CharWait(i: nat)

  datatype Writer = Writer(pc: Pc, buffer: seq<char>)

  /** outstanding counts scheduled write interrupts. History: who holds the line, and the
      buffers in the order in which their writers gained it. failed says that PutChar's
      assertion has fired. */
  datatype State = State(writers: seq<Writer>, line: Sem, avail: Sem, putBusy: bool, outstanding: nat,
                         output: seq<char>, holder: Option<nat>, gained: seq<seq<char>>, failed: bool)

  function Start(n: nat): State {
    State(seq(n, _ => Writer(Out, [])), NewSem(1), NewSem(0), false, 0, [], None, [], false)
  }

  datatype Event =
    | Call(t: nat, buffer: seq<char>)
    | TestLine(t: nat)     // a round of WLineBlock->P()
    | Put(t: nat)          // cons->PutChar
    | TestAvail(t: nat)    // a round of synchWriteAvail->P()
    | WriteDone            // the console interrupt
    | Leave(t: nat)        // WLineBlock->V(), and return

  predicate Enabled(c: State, e: Event) {
    match e
    case Call(t, _) => t < |c.writers| && c.writers[t].pc == Out
    case TestLine(t) => t < |c.writers| && c.writers[t].pc == Entering && t !in c.line.queue
    case Put(t) => t < |c.writers| && c.writers[t].pc.Loop? && c.writers[t].pc.i < |c.writers[t].buffer|
    case TestAvail(t) => t < |c.writers| && c.writers[t].pc.CharWait? && t !in c.avail.queue
    case WriteDone => c.outstanding > 0
    case Leave(t) => t < |c.writers| && c.writers[t].pc.Loop? && c.writers[t].pc.i >= |c.writers[t].buffer|
  }

  function Move(c: State, t: nat, pc: Pc): State
    requires t < |c.writers|
  {
    c.(writers := c.writers[t := c.writers[t].(pc := pc)])
  }

  function Step(c: State, e: Event): State
    requires Enabled(c, e)
  {
    match e
    case Call(t, buffer) => c.(writers := c.writers[t := Writer(Entering, buffer)])
    case TestLine(t) =>
      if c.line.value == 0 then c.(line := Wait(c.line, t))
      else Move(c, t, Loop(0)).(line := Take(c.line), holder := Some(t), gained := c.gained + [c.writers[t].buffer])
    case Put(t) =>
      var i := c.writers[t].pc.i;
      if c.putBusy then c.(failed := true)
      else Move(c, t, CharWait(i)).(output := c.output + [c.writers[t].buffer[i]], putBusy := true,
                                    outstanding := c.outstanding + 1)
    case TestAvail(t) =>
      if c.avail.value == 0 then c.(avail := Wait(c.avail, t))
      else Move(c, t, Loop(c.writers[t].pc.i + 1)).(avail := Take(c.avail))
    case WriteDone =>
      c.(putBusy := false, outstanding := c.outstanding - 1, avail := Signal(c.avail))
    case Leave(t) => Move(c, t, Out).(line := Signal(c.line), holder := None)
  }

  // ---- invariant --------------------------------------------------------------------------

  function Flat(buffers: seq<seq<char>>): seq<char> {
    if buffers == [] then [] else Flat(buffers[..|buffers| - 1]) + buffers[|buffers| - 1]
  }

  predicate Inside(pc: Pc) {
    pc.Loop? || pc.CharWait?
  }

  /** Characters of its buffer that the writer has put. */
  function Sent(pc: Pc): nat
    requires Inside(pc)
  {
    if pc.Loop? then pc.i else pc.i + 1
  }

  /** The line's holder waits for a character that it has not consumed. */
  predicate Unconsumed(c: State) {
    c.holder.Some? && c.holder.value < |c.writers| && c.writers[c.holder.value].pc.CharWait?
  }

  ghost predicate WriterOk(c: State, t: nat)
    requires t < |c.writers|
  {
    var me := c.writers[t];
    && (Inside(me.pc) <==> c.holder == Some(t))
    && (t in c.line.queue ==> me.pc == Entering)
    && (t in c.avail.queue ==> me.pc.CharWait?)
    && (Inside(me.pc) ==> Sent(me.pc) <= |me.buffer|)
  }

  /** The output is made of whole buffers in the order of gaining the line, the last one cut
      off where its writer stands. */
  ghost predicate OutputOk(c: State) {
    if c.holder.Some? && c.holder.value < |c.writers| then
      var me := c.writers[c.holder.value];
      && Inside(me.pc) && Sent(me.pc) <= |me.buffer|
      && c.gained != [] && c.gained[|c.gained| - 1] == me.buffer
      && c.output == Flat(c.gained[..|c.gained| - 1]) + me.buffer[..Sent(me.pc)]
    else c.output == Flat(c.gained)
  }

  ghost predicate Inv(c: State) {
    && !c.failed && NoDuplicates(c.line.queue)
    && (forall t :: 0 <= t < |c.writers| ==> WriterOk(c, t))
    && (forall i :: 0 <= i < |c.line.queue| ==> c.line.queue[i] < |c.writers|)
    && (c.holder.Some? ==> c.holder.value < |c.writers|)
    && c.line.value == (if c.holder.Some? then 0 else 1)
    && c.avail.value + c.outstanding == (if Unconsumed(c) then 1 else 0)
    && (c.putBusy <==> c.outstanding == 1)
    && (c.avail.queue != [] ==> Unconsumed(c) && c.avail.queue == [c.holder.value] && c.avail.value == 0)
    && (c.line.queue != [] && c.holder.None? ==> SomebodyWoken(c))
    && OutputOk(c)
  }

  /** A writer that is to test the line (again). */
  ghost predicate SomebodyWoken(c: State) {
    exists t :: 0 <= t < |c.writers| && c.writers[t].pc == Entering && t !in c.line.queue
  }

  lemma StartOk(n: nat)
    ensures Inv(Start(n))
  {
  }

  lemma CallKeeps(c: State, t: nat, buffer: seq<char>)
    requires Inv(c) && Enabled(c, Call(t, buffer))
    ensures Inv(Step(c, Call(t, buffer)))
  {
    var c' := Step(c, Call(t, buffer));
    assert WriterOk(c, t);
    assert c'.writers[t].pc == Entering;
    forall u | 0 <= u < |c'.writers| ensures WriterOk(c', u) {
      assert WriterOk(c, u);
    }
  }

  lemma TestLineKeeps(c: State, t: nat)
    requires Inv(c) && Enabled(c, TestLine(t))
    ensures Inv(Step(c, TestLine(t)))
  {
    var c' := Step(c, TestLine(t));
    assert WriterOk(c, t);
    forall u | 0 <= u < |c'.writers| ensures WriterOk(c', u) {
      assert WriterOk(c, u);
    }
    if c.line.value > 0 {
      assert c'.gained[..|c.gained|] == c.gained;
      assert c.writers[t].buffer[..0] == [];
    }
  }

  /** The console is free whenever a character is put. */
  lemma PutKeeps(c: State, t: nat)
    requires Inv(c) && Enabled(c, Put(t))
    ensures !c.putBusy && Inv(Step(c, Put(t)))
  {
    var c' := Step(c, Put(t));
    assert WriterOk(c, t);
    forall u | 0 <= u < |c'.writers| ensures WriterOk(c', u) {
      assert WriterOk(c, u);
    }
    var b, i := c.writers[t].buffer, c.writers[t].pc.i;
    assert b[..i + 1] == b[..i] + [b[i]];
  }

  lemma TestAvailKeeps(c: State, t: nat)
    requires Inv(c) && Enabled(c, TestAvail(t))
    ensures Inv(Step(c, TestAvail(t)))
  {
    var c' := Step(c, TestAvail(t));
    assert WriterOk(c, t);
    forall u | 0 <= u < |c'.writers| ensures WriterOk(c', u) {
      assert WriterOk(c, u);
    }
  }

  lemma WriteDoneKeeps(c: State)
    requires Inv(c) && Enabled(c, WriteDone)
    ensures Inv(Step(c, WriteDone))
  {
    var c' := Step(c, WriteDone);
    assert c'.avail.queue == [];
    forall u | 0 <= u < |c'.writers| ensures WriterOk(c', u) {
      assert WriterOk(c, u);
    }
  }

  lemma LeaveKeeps(c: State, t: nat)
    requires Inv(c) && Enabled(c, Leave(t))
    ensures Inv(Step(c, Leave(t)))
  {
    var c' := Step(c, Leave(t));
    assert WriterOk(c, t);
    if c.line.queue != [] {
      var w := c.line.queue[0];
      assert c.line.queue == [w] + c.line.queue[1..];
      assert WriterOk(c, w);
      assert c'.writers[w].pc == Entering && w !in c'.line.queue;
    }
    forall u | 0 <= u < |c'.writers| ensures WriterOk(c', u) {
      assert WriterOk(c, u);
    }
    var b := c.writers[t].buffer;
    assert b[..Sent(c.writers[t].pc)] == b;
    assert c.gained == c.gained[..|c.gained| - 1] + [b];
  }

  lemma StepKeepsInv(c: State, e: Event)
    requires Inv(c) && Enabled(c, e)
    ensures Inv(Step(c, e))
  {
    match e
    case Call(t, buffer) => CallKeeps(c, t, buffer);
    case TestLine(t) => TestLineKeeps(c, t);
    case Put(t) => PutKeeps(c, t);
    case TestAvail(t) => TestAvailKeeps(c, t);
    case WriteDone => WriteDoneKeeps(c);
    case Leave(t) => LeaveKeeps(c, t);
  }

  // ---- runs ----------------------------------------------------------------------------------

  ghost predicate CanRun(c: State, es: seq<Event>)
    decreases |es|, 0
  {
    es == [] || (CanRun(c, Init(es)) && Enabled(After(c, Init(es)), Last(es)))
  }

  ghost function After(c: State, es: seq<Event>): State
    requires CanRun(c, es)
    decreases |es|, 1
  {
    if es == [] then c else Step(After(c, Init(es)), Last(es))
  }

  ghost predicate Reachable(n: nat, c: State) {
    exists es :: CanRun(Start(n), es) && After(Start(n), es) == c
  }

  lemma {:induction false} RunKeepsInv(c: State, es: seq<Event>)
    requires Inv(c) && CanRun(c, es)
    ensures Inv(After(c, es))
    decreases |es|
  {
    if es != [] {
      RunKeepsInv(c, Init(es));
      StepKeepsInv(After(c, Init(es)), Last(es));
    }
  }

  lemma ReachableIsGood(n: nat, c: State)
    requires Reachable(n, c)
    ensures Inv(c)
  {
    var es :| CanRun(Start(n), es) && After(Start(n), es) == c;
    StartOk(n);
    RunKeepsInv(Start(n), es);
  }

  predicate CallBy(e: Event, t: nat) {
    e.Call? && e.t == t
  }

  /** When the thread last called, or -1. */
  function CallIndex(es: seq<Event>, t: nat): (r: int)
    ensures -1 <= r < |es|
    ensures r != -1 ==> CallBy(es[r], t)
    ensures forall j :: r < j < |es| ==> !CallBy(es[j], t)
  {
    if es == [] then -1 else if CallBy(Last(es), t) then |es| - 1 else CallIndex(Init(es), t)
  }

  /** The buffer passed in the thread's latest call. */
  function Argument(es: seq<Event>, t: nat): seq<char> {
    var k := CallIndex(es, t);
    if k == -1 then [] else es[k].buffer
  }

  /** Only a call takes a writer in or changes its buffer. */
  ghost predicate WriterStep(a: Writer, e: Event, t: nat, b: Writer) {
    if CallBy(e, t) then b.buffer == e.buffer else b.buffer == a.buffer && (a.pc == Out ==> b.pc == Out)
  }

  lemma StepOfWriter(c: State, e: Event, t: nat)
    requires Enabled(c, e)
    ensures |Step(c, e).writers| == |c.writers|
    ensures t < |c.writers| ==> WriterStep(c.writers[t], e, t, Step(c, e).writers[t])
    ensures Step(c, e).gained
         == c.gained + if e.TestLine? && c.line.value > 0 then [c.writers[e.t].buffer] else []
  {
  }

  /** A writer inside Write is there with the buffer of its call. */
  lemma {:induction false} InsideItsCall(n: nat, es: seq<Event>, t: nat)
    requires CanRun(Start(n), es)
    ensures |After(Start(n), es).writers| == n
    ensures t < n && After(Start(n), es).writers[t].pc != Out ==>
              CallIndex(es, t) != -1 && After(Start(n), es).writers[t].buffer == Argument(es, t)
    decreases |es|
  {
    if es != [] {
      InsideItsCall(n, Init(es), t);
      StepOfWriter(After(Start(n), Init(es)), Last(es), t);
    }
  }

  /** The arguments of the calls whose writers gained the line, in that order. */
  ghost function Gained(n: nat, es: seq<Event>): seq<seq<char>>
    requires CanRun(Start(n), es)
    decreases |es|
  {
    if es == [] then []
    else
      Gained(n, Init(es)) +
      if Last(es).TestLine? && After(Start(n), Init(es)).line.value > 0 then [Argument(Init(es), Last(es).t)] else []
  }

  lemma {:induction false} GainedAreArguments(n: nat, es: seq<Event>)
    requires CanRun(Start(n), es)
    ensures After(Start(n), es).gained == Gained(n, es)
    decreases |es|
  {
    if es != [] {
      var e := Last(es);
      GainedAreArguments(n, Init(es));
      StepOfWriter(After(Start(n), Init(es)), e, 0);
      if e.TestLine? { InsideItsCall(n, Init(es), e.t); }
    }
  }

  /** With any number of writers, in every interleaving: PutChar's assertion never fires, and
      what has come out is whole buffers, as passed in the calls, in the order of gaining the
      line, followed by a prefix of the one being written. */
  lemma OutputIsWholeBuffers(n: nat, es: seq<Event>)
    requires CanRun(Start(n), es)
    ensures var c, g := After(Start(n), es), Gained(n, es);
            && !c.failed
            && (c.holder.None? ==> c.output == Flat(g))
            && (c.holder.Some? ==> g != [] && WithPrefix(c.output, Flat(Init(g)), Last(g)))
  {
    StartOk(n);
    RunKeepsInv(Start(n), es);
    OutputByState(After(Start(n), es));
    GainedAreArguments(n, es);
  }

  lemma OutputByState(c: State)
    requires Inv(c)
    ensures !c.failed
    ensures c.holder.None? ==> c.output == Flat(c.gained)
    ensures c.holder.Some? ==> c.gained != [] && WithPrefix(c.output, Flat(Init(c.gained)), Last(c.gained))
  {
  }

  /** The output is the whole buffers and a beginning of the last one. */
  predicate WithPrefix(output: seq<char>, whole: seq<char>, last: seq<char>) {
    && |whole| <= |output| <= |whole| + |last|
    && output == whole + last[..|output| - |whole|]
  }

  /** A write returns only with the whole buffer of its call at the end of the output. */
  lemma ReturnsWhenWritten(n: nat, es: seq<Event>, t: nat)
    requires CanRun(Start(n), es) && Enabled(After(Start(n), es), Leave(t))
    ensures var b, output := Argument(es, t), After(Start(n), es).output;
            CallIndex(es, t) != -1 && |b| <= |output| && output[|output| - |b|..] == b
  {
    var c := After(Start(n), es);
    StartOk(n);
    RunKeepsInv(Start(n), es);
    InsideItsCall(n, es, t);
    assert WriterOk(c, t);
    var b := c.writers[t].buffer;
    assert b[..Sent(c.writers[t].pc)] == b;
  }

  /** No deadlock: while anybody is inside Write, some step other than a new call is possible. */
  lemma NoDeadlock(n: nat, c: State, t: nat)
    requires Reachable(n, c) && t < |c.writers| && c.writers[t].pc != Out
    ensures exists e: Event :: !e.Call? && Enabled(c, e)
  {
    ReachableIsGood(n, c);
    assert WriterOk(c, t);
    if c.holder.Some? {
      var o := c.holder.value;
      assert WriterOk(c, o);
      if c.writers[o].pc.Loop? {
        assert Enabled(c, Put(o)) || Enabled(c, Leave(o));
      } else if o in c.avail.queue {
        assert Enabled(c, WriteDone);
      } else {
        assert Enabled(c, TestAvail(o));
      }
    } else if t in c.line.queue {
      var u :| 0 <= u < |c.writers| && c.writers[u].pc == Entering && u !in c.line.queue;
      assert Enabled(c, TestLine(u));
    } else {
      assert Enabled(c, TestLine(t));
    }
  }
}
