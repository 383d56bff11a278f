/** The hardware interrupt simulation of machine/interrupt.cc as a function of its state:
    pending interrupts ordered by time, the clock, and what has fired. */
module InterruptSim {
  import opened Common
  import opened LinkedList

  const USER_TICK: int := 1
  const SYSTEM_TICK: int := 10

  datatype Kind = TimerInt | DiskInt | ConsoleWriteInt | ConsoleReadInt | NetworkSendInt | NetworkRecvInt
  datatype Status = IdleMode | SystemMode | UserMode

  /** One PendingInterrupt object; id tells objects apart. */
  datatype Pending = Pending(id: nat, when: int, kind: Kind)

  /** What a handler does to the simulation: the interrupts it schedules and whether it asks
      for a context switch. */
  datatype Request = Request(fromNow: int, kind: Kind)
  datatype Effect = Effect(schedules: seq<Request>, switches: bool)

  /** The handlers, told apart by the interrupt they serve. */
  type Handlers = nat -> Effect

  /** Schedule asserts fromNow > 0. */
  ghost predicate Lawful(h: Handlers) {
    forall id, i {:trigger h(id).schedules[i]} :: 0 <= i < |h(id).schedules| ==> h(id).schedules[i].fromNow > 0
  }

  datatype Fired = Fired(what: Pending, at: nat)

  datatype Sim = Sim(
    total: nat, idle: nat, system: nat, user: nat,
    pending: seq<Cell<Pending>>,
    status: Status,
    yieldOnReturn: bool,
    scheduled: seq<Pending>,  // every interrupt ever scheduled, by id
    fired: seq<Fired>)        // every interrupt that has fired, in order

  predicate IsStart(s: Sim) {
    && s.total == s.idle == s.system == s.user == 0
    && s.pending == [] && s.scheduled == [] && s.fired == []
    && s.status == SystemMode && !s.yieldOnReturn
  }

  // ---- the operations --------------------------------------------------------------

  function Put(s: Sim, c: Cell<Pending>): Sim {
    s.(pending := Inserted(s.pending, c))
  }

  function Schedule(s: Sim, r: Request): Sim {
    var p := Pending(|s.scheduled|, s.total + r.fromNow, r.kind);
    Put(s, Cell(p, p.when)).(scheduled := s.scheduled + [p])
  }

  function ScheduleAll(s: Sim, rs: seq<Request>): Sim
    decreases |rs|
  {
    if rs == [] then s else ScheduleAll(Schedule(s, rs[0]), rs[1..])
  }

  /** Running the handler of p, which has left the list. */
  function Handle(s: Sim, p: Pending, e: Effect): Sim {
    var s1 := ScheduleAll(s.(fired := s.fired + [Fired(p, s.total)]), e.schedules);
    s1.(yieldOnReturn := s1.yieldOnReturn || e.switches)
  }

  function CheckIfDue(s: Sim, advanceClock: bool, h: Handlers): (Sim, bool) {
    if s.pending == [] then (s, false)
    else
      var c := s.pending[0];
      var s1 := s.(pending := s.pending[1..]);
      if c.key > s.total && !advanceClock then (Put(s1, c), false)
      else
        var s2 := if c.key > s.total
                  then s1.(idle := s.idle + (c.key - s.total), total := c.key) else s1;
        if s.status == IdleMode && c.item.kind == TimerInt && s2.pending == []
        then (Put(s2, c), false)
        else (Handle(s2, c.item, h(c.item.id)), true)
  }

  // ---- the invariant ---------------------------------------------------------------

  function FiredItems(f: seq<Fired>): (r: seq<Pending>)
    ensures |r| == |f|
  {
    seq(|f|, i requires 0 <= i < |f| => f[i].what)
  }

  /** Each scheduled interrupt is pending or has fired, and exactly once. */
  predicate Accounted(s: Sim) {
    && (forall i :: 0 <= i < |s.scheduled| ==> s.scheduled[i].id == i)
    && multiset(Items(s.pending)) + multiset(FiredItems(s.fired)) == multiset(s.scheduled)
  }

  predicate KeysAreTimes(c: seq<Cell<Pending>>) {
    forall i :: 0 <= i < |c| ==> c[i].key == c[i].item.when
  }

  /** None fired early, and fire times never decrease. */
  predicate FiredInOrder(s: Sim) {
    && (forall i :: 0 <= i < |s.fired| ==> s.fired[i].what.when <= s.fired[i].at <= s.total)
    && (forall i, j :: 0 <= i < j < |s.fired| ==> s.fired[i].at <= s.fired[j].at)
  }

  predicate Inv(s: Sim) {
    && Orderly(s.pending)
    && Accounted(s)
    && FiredInOrder(s)
    && s.total == s.idle + s.system + s.user
  }

  // ---- each operation keeps it -------------------------------------------------------

  lemma ItemsInserted(c: seq<Cell<Pending>>, x: Cell<Pending>)
    ensures multiset(Items(Inserted(c, x))) == multiset(Items(c)) + multiset{x.item}
  {
    var p := Place(c, x.key);
    assert Items(Inserted(c, x)) == Items(c)[..p] + [x.item] + Items(c)[p..];
    assert Items(c) == Items(c)[..p] + Items(c)[p..];
  }

  lemma ItemsHead(c: seq<Cell<Pending>>)
    requires c != []
    ensures multiset(Items(c)) == multiset{c[0].item} + multiset(Items(c[1..]))
  {
    assert Items(c) == [c[0].item] + Items(c[1..]);
  }

  /** A list the simulation may hold. */
  predicate Orderly(c: seq<Cell<Pending>>) {
    SortedByKey(c) && KeysAreTimes(c)
  }

  lemma InsertedOrderly(c: seq<Cell<Pending>>, x: Cell<Pending>)
    requires Orderly(c) && x.key == x.item.when
    ensures Orderly(Inserted(c, x))
  {
    InsertedSorted(c, x);
    var p, d := Place(c, x.key), Inserted(c, x);
    assert forall i :: 0 <= i < |d| ==> d[i] == if i < p then c[i] else if i == p then x else c[i - 1];
  }

  lemma ScheduleKeepsInv(s: Sim, r: Request)
    requires Inv(s)
    ensures Inv(Schedule(s, r))
  {
    var p := Pending(|s.scheduled|, s.total + r.fromNow, r.kind);
    InsertedOrderly(s.pending, Cell(p, p.when));
    ScheduleAccounted(s, r);
  }

  lemma ScheduleAccounted(s: Sim, r: Request)
    requires Accounted(s)
    ensures Accounted(Schedule(s, r))
  {
    var p := Pending(|s.scheduled|, s.total + r.fromNow, r.kind);
    ItemsInserted(s.pending, Cell(p, p.when));
    var s' := Schedule(s, r);
    assert s'.scheduled == s.scheduled + [p];
    assert multiset(Items(s'.pending)) == multiset(Items(s.pending)) + multiset{p};
    assert multiset(s'.scheduled) == multiset(s.scheduled) + multiset{p};
  }

  lemma {:induction false} ScheduleAllKeepsInv(s: Sim, rs: seq<Request>)
    requires Inv(s)
    ensures var s' := ScheduleAll(s, rs);
            && Inv(s') && s'.total == s.total && s'.fired == s.fired && s'.status == s.status
            && s.scheduled <= s'.scheduled
    decreases |rs|
  {
    if rs != [] {
      ScheduleKeepsInv(s, rs[0]);
      ScheduleAllKeepsInv(Schedule(s, rs[0]), rs[1..]);
    }
  }

  /** Taking the head out and recording it as fired now. */
  lemma FireKeepsInv(s: Sim, s2: Sim)
    requires Inv(s) && s.pending != []
    requires s2 == s.(pending := s.pending[1..], total := s2.total, idle := s2.idle)
    requires s.total <= s2.total && s.pending[0].key <= s2.total
    requires s2.total == s2.idle + s2.system + s2.user
    ensures Inv(s2.(fired := s2.fired + [Fired(s.pending[0].item, s2.total)]))
  {
    ItemsHead(s.pending);
    var f := s2.fired + [Fired(s.pending[0].item, s2.total)];
    assert FiredItems(f) == FiredItems(s.fired) + [s.pending[0].item];
  }

  lemma PutBackSame(p: seq<Cell<Pending>>)
    requires Orderly(p) && p != []
    ensures var q := Inserted(p[1..], p[0]);
            Orderly(q) && multiset(q) == multiset(p) && multiset(Items(q)) == multiset(Items(p))
  {
    var c, rest := p[0], p[1..];
    ItemsHead(p);
    InsertedOrderly(rest, c);
    InsertedElements(rest, c);
    ItemsInserted(rest, c);
    assert p == [c] + rest;
  }

  /** Putting the head back, at whatever later time. */
  lemma PutBackKeepsInv(s: Sim, s2: Sim)
    requires Inv(s) && s.pending != []
    requires s2 == s.(pending := s.pending[1..], total := s2.total, idle := s2.idle)
    requires s.total <= s2.total && s2.total == s2.idle + s2.system + s2.user
    ensures Inv(Put(s2, s.pending[0]))
    ensures multiset(Put(s2, s.pending[0]).pending) == multiset(s.pending)
  {
    PutBackSame(s.pending);
  }

  /** The clock moved on to a time if asked and ahead. */
  function Advanced(s: Sim, when: int, advanceClock: bool): Sim {
    if when > s.total && advanceClock then s.(idle := s.idle + (when - s.total), total := when) else s
  }

  /** CheckIfDue after taking the head. */
  function Popped(s: Sim, advanceClock: bool): (s2: Sim)
    requires s.pending != []
  {
    Advanced(s.(pending := s.pending[1..]), s.pending[0].key, advanceClock)
  }

  lemma HandleKeepsInv(s: Sim, s2: Sim, e: Effect)
    requires Inv(s) && s.pending != []
    requires s2 == s.(pending := s.pending[1..], total := s2.total, idle := s2.idle)
    requires s.total <= s2.total && s.pending[0].key <= s2.total
    requires s2.total == s2.idle + s2.system + s2.user
    ensures var s' := Handle(s2, s.pending[0].item, e);
            Inv(s') && s'.status == s.status && s'.total == s2.total && s.fired <= s'.fired
  {
    FireKeepsInv(s, s2);
    ScheduleAllKeepsInv(s2.(fired := s2.fired + [Fired(s.pending[0].item, s2.total)]), e.schedules);
  }

  /** CheckIfDue as what it does once the head is off the list. */
  lemma CheckIfDueByPop(s: Sim, advanceClock: bool, h: Handlers)
    ensures s.pending != [] ==>
              var c, s2 := s.pending[0], Popped(s, advanceClock);
              CheckIfDue(s, advanceClock, h)
              == if c.key > s2.total || (s.status == IdleMode && c.item.kind == TimerInt && s2.pending == [])
                 then (Put(s2, c), false) else (Handle(s2, c.item, h(c.item.id)), true)
  {
  }

  lemma CheckIfDueKeepsInv(s: Sim, advanceClock: bool, h: Handlers)
    requires Inv(s)
    ensures var s' := CheckIfDue(s, advanceClock, h).0;
            Inv(s') && s'.status == s.status && s.total <= s'.total && s.fired <= s'.fired
  {
    if s.pending != [] {
      var c, s2 := s.pending[0], Popped(s, advanceClock);
      CheckIfDueByPop(s, advanceClock, h);
      PutBackKeepsInv(s, s2);
      if c.key <= s2.total {
        HandleKeepsInv(s, s2, h(c.item.id));
      }
    }
  }

  // ---- the firing loop ends ------------------------------------------------------------

  /** How many pending interrupts are due at a time. */
  function Due(c: seq<Cell<Pending>>, now: int): nat {
    if c == [] then 0 else (if c[0].key <= now then 1 else 0) + Due(c[1..], now)
  }

  lemma {:induction false} DueAppend(a: seq<Cell<Pending>>, b: seq<Cell<Pending>>, now: int)
    ensures Due(a + b, now) == Due(a, now) + Due(b, now)
    decreases |a|
  {
    if a == [] {
      assert a + b == b;
    } else {
      assert (a + b)[1..] == a[1..] + b;
      DueAppend(a[1..], b, now);
    }
  }

  lemma DueInserted(c: seq<Cell<Pending>>, x: Cell<Pending>, now: int)
    ensures Due(Inserted(c, x), now) == Due(c, now) + (if x.key <= now then 1 else 0)
  {
    var p := Place(c, x.key);
    DueAppend(c[..p] + [x], c[p..], now);
    DueAppend(c[..p], [x], now);
    DueAppend(c[..p], c[p..], now);
    assert c == c[..p] + c[p..];
  }

  /** A lawful handler schedules nothing that is due already. */
  lemma {:induction false} ScheduleAllAddsNoDue(s: Sim, rs: seq<Request>)
    requires forall i :: 0 <= i < |rs| ==> rs[i].fromNow > 0
    ensures ScheduleAll(s, rs).total == s.total
    ensures Due(ScheduleAll(s, rs).pending, s.total) == Due(s.pending, s.total)
    decreases |rs|
  {
    if rs != [] {
      var p := Pending(|s.scheduled|, s.total + rs[0].fromNow, rs[0].kind);
      DueInserted(s.pending, Cell(p, p.when), s.total);
      ScheduleAllAddsNoDue(Schedule(s, rs[0]), rs[1..]);
    }
  }

  lemma NothingDue(c: seq<Cell<Pending>>, now: int)
    requires SortedByKey(c) && (c == [] || c[0].key > now)
    ensures forall i :: 0 <= i < |c| ==> c[i].key > now
  {
  }

  /** Each round of the loop that fires leaves one due interrupt less. */
  lemma RoundFiresOne(s: Sim, h: Handlers)
    requires Lawful(h) && CheckIfDue(s, false, h).1
    ensures var s' := CheckIfDue(s, false, h).0;
            s'.total == s.total && Due(s'.pending, s'.total) < Due(s.pending, s.total)
  {
    var c := s.pending[0];
    var s1 := s.(pending := s.pending[1..], fired := s.fired + [Fired(c.item, s.total)]);
    ScheduleAllAddsNoDue(s1, h(c.item.id).schedules);
  }

  /** A round that fires nothing leaves the clock, and nothing due unless the machine is idle
      and only the timer is left. */
  lemma RoundFiresNone(s: Sim, h: Handlers)
    requires Inv(s) && !CheckIfDue(s, false, h).1
    ensures var s' := CheckIfDue(s, false, h).0;
            && s'.total == s.total && s'.fired == s.fired
            && ((forall i :: 0 <= i < |s'.pending| ==> s'.pending[i].key > s'.total)
                || (s.status == IdleMode && |s'.pending| == 1 && s'.pending[0].item.kind == TimerInt))
  {
    if s.pending != [] && s.pending[0].key > s.total {
      PutBackNotDue(s.pending, s.total);
    }
  }

  lemma PutBackNotDue(c: seq<Cell<Pending>>, now: int)
    requires SortedByKey(c) && c != [] && c[0].key > now
    ensures forall i :: 0 <= i < |Inserted(c[1..], c[0])| ==> Inserted(c[1..], c[0])[i].key > now
  {
    assert [c[0]] + c[1..] == c;
    PutBackFirst(c[1..], c[0]);
    InsertedSorted(c[1..], c[0]);
    NothingDue(Inserted(c[1..], c[0]), now);
  }

  /** Putting the head of a sorted list back leaves a head with the same key. */
  lemma PutBackFirst(rest: seq<Cell<Pending>>, c: Cell<Pending>)
    requires SortedByKey([c] + rest)
    ensures Inserted(rest, c)[0].key == c.key
  {
    if Place(rest, c.key) > 0 {
      var all := [c] + rest;
      assert all[0] == c && all[1] == rest[0];
      assert Inserted(rest, c)[0] == rest[0];
    }
  }

  /** while (CheckIfDue(FALSE)) ; */
  ghost function FireAllDue(s: Sim, h: Handlers): Sim
    requires Inv(s) && Lawful(h)
    decreases Due(s.pending, s.total)
  {
    var (s', more) := CheckIfDue(s, false, h);
    CheckIfDueKeepsInv(s, false, h);
    if more then
      RoundFiresOne(s, h);
      FireAllDue(s', h)
    else s'
  }

  /** The loop stops with nothing due, unless the machine is idle and only the timer is left. */
  lemma {:induction false} LoopLeavesNothingDue(s: Sim, h: Handlers)
    requires Inv(s) && Lawful(h)
    ensures var s' := FireAllDue(s, h);
            && Inv(s') && s'.total == s.total && s'.status == s.status
            && s.fired <= s'.fired
            && ((forall i :: 0 <= i < |s'.pending| ==> s'.pending[i].key > s'.total)
                || (s.status == IdleMode && |s'.pending| == 1 && s'.pending[0].item.kind == TimerInt))
    decreases Due(s.pending, s.total)
  {
    var (s', more) := CheckIfDue(s, false, h);
    CheckIfDueKeepsInv(s, false, h);
    if more {
      RoundFiresOne(s, h);
      LoopLeavesNothingDue(s', h);
    } else {
      RoundFiresNone(s, h);
    }
  }

  // ---- what the loop leaves due ------------------------------------------------------------

  predicate SomethingDue(s: Sim) {
    exists i :: 0 <= i < |s.pending| && s.pending[i].key <= s.total
  }

  /** The machine idles, the last pending interrupt is a timer already due, and no handler
      before it schedules anything. */
  predicate TimerComesLast(s: Sim, h: Handlers) {
    && s.status == IdleMode && s.pending != []
    && s.pending[|s.pending| - 1].item.kind == TimerInt && s.pending[|s.pending| - 1].key <= s.total
    && forall i :: 0 <= i < |s.pending| - 1 ==> Quiet(h, s.pending[i])
  }

  predicate Quiet(h: Handlers, c: Cell<Pending>) {
    h(c.item.id).schedules == []
  }

  predicate FutureLast(c: seq<Cell<Pending>>, now: int) {
    c != [] && c[|c| - 1].key > now
  }

  lemma InsertedFutureLast(c: seq<Cell<Pending>>, x: Cell<Pending>, now: int)
    requires SortedByKey(c) && x.key > now
    ensures SortedByKey(Inserted(c, x)) && FutureLast(Inserted(c, x), now)
  {
    InsertedSorted(c, x);
    assert Inserted(c, x)[Place(c, x.key)] == x;
  }

  lemma {:induction false} ScheduledFutureLast(s: Sim, rs: seq<Request>)
    requires SortedByKey(s.pending) && rs != [] && forall i :: 0 <= i < |rs| ==> rs[i].fromNow > 0
    ensures FutureLast(ScheduleAll(s, rs).pending, s.total)
    decreases |rs|
  {
    var p := Pending(|s.scheduled|, s.total + rs[0].fromNow, rs[0].kind);
    InsertedFutureLast(s.pending, Cell(p, p.when), s.total);
    var s1 := Schedule(s, rs[0]);
    assert s1.total == s.total && SortedByKey(s1.pending) && FutureLast(s1.pending, s.total);
    if |rs| > 1 {
      ScheduledFutureLast(s1, rs[1..]);
    }
  }

  /** A round that fires does not change whether the timer will be left. */
  lemma RoundKeepsTimerLast(s: Sim, h: Handlers)
    requires Inv(s) && Lawful(h) && CheckIfDue(s, false, h).1
    ensures TimerComesLast(CheckIfDue(s, false, h).0, h) <==> TimerComesLast(s, h)
  {
    var c, rest, rs := s.pending[0], s.pending[1..], h(s.pending[0].item.id).schedules;
    var s1 := s.(pending := rest, fired := s.fired + [Fired(c.item, s.total)]);
    if rs == [] {
      RestTimerLast(s, h);
    } else {
      assert forall i :: 0 <= i < |rs| ==> h(c.item.id).schedules[i].fromNow > 0;
      ScheduledFutureLast(s1, rs);
      ScheduleAllAddsNoDue(s1, rs);
      assert rest != [] ==> !Quiet(h, s.pending[0]);
    }
  }

  lemma RestTimerLast(s: Sim, h: Handlers)
    requires s.pending != [] && Quiet(h, s.pending[0])
    requires s.pending[1..] != [] || s.status != IdleMode || s.pending[0].item.kind != TimerInt
    ensures TimerComesLast(s.(pending := s.pending[1..]), h) <==> TimerComesLast(s, h)
  {
    var rest := s.pending[1..];
    if rest != [] {
      assert rest[|rest| - 1] == s.pending[|s.pending| - 1];
      assert forall i :: 0 <= i < |rest| ==> rest[i] == s.pending[i + 1];
      assert forall i :: 0 < i < |s.pending| ==> s.pending[i] == rest[i - 1];
    }
  }

  lemma LastRound(s: Sim, h: Handlers)
    requires Inv(s) && !CheckIfDue(s, false, h).1
    ensures SomethingDue(CheckIfDue(s, false, h).0) <==> TimerComesLast(s, h)
  {
    var s' := CheckIfDue(s, false, h).0;
    if s.pending != [] && s.pending[0].key > s.total {
      PutBackNotDue(s.pending, s.total);
      var last := |s.pending| - 1;
      assert last > 0 ==> s.pending[0].key <= s.pending[last].key;
    } else if s.pending != [] {
      assert s.pending[1..] == [] && s'.pending == [s.pending[0]];
      assert s'.pending[0].key <= s'.total;
    }
  }

  /** The loop leaves something due if and only if, before it, the machine idled with a due
      timer last and nothing to be scheduled by the handlers before it. */
  lemma {:induction false} LeavesDueExactlyWhen(s: Sim, h: Handlers)
    requires Inv(s) && Lawful(h)
    ensures SomethingDue(FireAllDue(s, h)) <==> TimerComesLast(s, h)
    decreases Due(s.pending, s.total)
  {
    var (s', more) := CheckIfDue(s, false, h);
    CheckIfDueKeepsInv(s, false, h);
    if more {
      RoundFiresOne(s, h);
      RoundKeepsTimerLast(s, h);
      LeavesDueExactlyWhen(s', h);
    } else {
      LastRound(s, h);
    }
  }

  // ---- OneTick, Idle and whole runs ------------------------------------------------------

  function Tick(s: Sim): Sim {
    if s.status == SystemMode then s.(total := s.total + SYSTEM_TICK, system := s.system + SYSTEM_TICK)
    else s.(total := s.total + USER_TICK, user := s.user + USER_TICK)
  }

  lemma TickKeepsInv(s: Sim)
    requires Inv(s)
    ensures Inv(Tick(s))
  {
  }

  /** OneTick; the second result says that it calls Yield before returning. */
  ghost function OneTick(s: Sim, h: Handlers): (Sim, bool)
    requires Inv(s) && Lawful(h)
  {
    TickKeepsInv(s);
    var s1 := FireAllDue(Tick(s), h);
    (s1.(yieldOnReturn := false), s1.yieldOnReturn)
  }

  /** Idle; the second result is false when the machine halts. */
  ghost function Idle(s: Sim, h: Handlers): (Sim, bool)
    requires Inv(s) && Lawful(h)
  {
    AwaitInterrupt(s.(status := IdleMode), h)
  }

  /** Idle, once in idle mode. */
  ghost function AwaitInterrupt(s: Sim, h: Handlers): (Sim, bool)
    requires Inv(s) && Lawful(h)
  {
    var (s1, some) := CheckIfDue(s, true, h);
    CheckIfDueKeepsInv(s, true, h);
    if some then (FireAllDue(s1, h).(yieldOnReturn := false, status := SystemMode), true)
    else (s1, false)
  }

  datatype Event = DeviceRequest(r: Request) | Clock | NoReadyThread | Mode(user: bool)

  ghost function Step(s: Sim, e: Event, h: Handlers): Sim
    requires Inv(s) && Lawful(h)
  {
    match e
    case DeviceRequest(r) => if r.fromNow > 0 then Schedule(s, r) else s
    case Clock => OneTick(s, h).0
    case NoReadyThread => Idle(s, h).0
    case Mode(user) => s.(status := if user then UserMode else SystemMode)
  }

  lemma StepKeepsInv(s: Sim, e: Event, h: Handlers)
    requires Inv(s) && Lawful(h)
    ensures Inv(Step(s, e, h)) && s.total <= Step(s, e, h).total
    ensures e.Clock? && s.status != IdleMode ==>
              forall i :: 0 <= i < |Step(s, e, h).pending| ==> Step(s, e, h).pending[i].key > Step(s, e, h).total
  {
    match e
    case DeviceRequest(r) => ScheduleKeepsInv(s, r);
    case Clock =>
      TickKeepsInv(s);
      LoopLeavesNothingDue(Tick(s), h);
    case NoReadyThread =>
      var s0 := s.(status := IdleMode);
      CheckIfDueKeepsInv(s0, true, h);
      if CheckIfDue(s0, true, h).1 {
        LoopLeavesNothingDue(CheckIfDue(s0, true, h).0, h);
      }
    case Mode(_) =>
  }

  /** The state after a sequence of events. */
  ghost function After(s: Sim, es: seq<Event>, h: Handlers): Sim
    requires Inv(s) && Lawful(h)
    decreases |es|
  {
    if es == [] then s
    else
      StepKeepsInv(s, es[0], h);
      After(Step(s, es[0], h), es[1..], h)
  }

  /** Over every run: pending stays sorted, each scheduled interrupt is pending or fired
      exactly once, none fires early, fire times never decrease, and the clock is accounted
      for tick by tick. */
  lemma {:induction false} RunKeepsInv(s: Sim, es: seq<Event>, h: Handlers)
    requires Inv(s) && Lawful(h)
    ensures Inv(After(s, es, h)) && s.total <= After(s, es, h).total
    decreases |es|
  {
    if es != [] {
      StepKeepsInv(s, es[0], h);
      RunKeepsInv(Step(s, es[0], h), es[1..], h);
    }
  }

  // ---- time by mode ---------------------------------------------------------------------

  /** A tick of the clock costs 10 in system mode and 1 otherwise, and is booked there; idling is
      booked as idle time; nothing else takes time. */
  lemma TimeByMode(s: Sim, e: Event, h: Handlers)
    requires Inv(s) && Lawful(h)
    ensures var s' := Step(s, e, h);
            && s'.system == s.system + (if e == Clock && s.status == SystemMode then 10 else 0)
            && s'.user == s.user + (if e == Clock && s.status != SystemMode then 1 else 0)
            && (e != NoReadyThread ==> s'.idle == s.idle)
  {
    match e
    case Clock =>
      TickKeepsInv(s);
      FiringTakesNoTime(Tick(s), h);
    case NoReadyThread => IdleExactly(s, h);
    case _ =>
  }

  predicate SameClocks(s: Sim, s': Sim) {
    s'.total == s.total && s'.idle == s.idle && s'.system == s.system && s'.user == s.user
  }

  lemma {:induction false} SchedulingTakesNoTime(s: Sim, rs: seq<Request>)
    ensures SameClocks(s, ScheduleAll(s, rs)) && ScheduleAll(s, rs).fired == s.fired
    ensures ScheduleAll(s, rs).yieldOnReturn == s.yieldOnReturn
    decreases |rs|
  {
    if rs != [] { SchedulingTakesNoTime(Schedule(s, rs[0]), rs[1..]); }
  }

  lemma {:induction false} FiringTakesNoTime(s: Sim, h: Handlers)
    requires Inv(s) && Lawful(h)
    ensures SameClocks(s, FireAllDue(s, h))
    decreases Due(s.pending, s.total)
  {
    var (s', more) := CheckIfDue(s, false, h);
    CheckIfDueKeepsInv(s, false, h);
    RoundTakesNoTime(s, h);
    if more {
      RoundFiresOne(s, h);
      FiringTakesNoTime(s', h);
    }
  }

  lemma RoundTakesNoTime(s: Sim, h: Handlers)
    ensures SameClocks(s, CheckIfDue(s, false, h).0)
  {
    if s.pending != [] {
      var c := s.pending[0];
      SchedulingTakesNoTime(s.(pending := s.pending[1..], fired := s.fired + [Fired(c.item, s.total)]), h(c.item.id).schedules);
    }
  }

  /** Idling moves the clock to the first pending interrupt, if that lies ahead, and halts the
      machine exactly when nothing is pending but perhaps one timer. */
  lemma IdleExactly(s: Sim, h: Handlers)
    requires Inv(s) && Lawful(h)
    ensures var (s', running) := Idle(s, h);
            && s'.total == (if s.pending == [] || s.pending[0].key <= s.total then s.total else s.pending[0].key)
            && s'.idle - s.idle == s'.total - s.total && s'.system == s.system && s'.user == s.user
            && (running <==> s.pending != [] && !(|s.pending| == 1 && s.pending[0].item.kind == TimerInt))
            && (running ==> s'.status == SystemMode && !s'.yieldOnReturn)
  {
    var s0 := s.(status := IdleMode);
    CheckIfDueKeepsInv(s0, true, h);
    IdleRound(s0, h);
    var (s1, some) := CheckIfDue(s0, true, h);
    if some { FiringTakesNoTime(s1, h); }
  }

  lemma IdleRound(s: Sim, h: Handlers)
    requires s.status == IdleMode
    ensures var (s', some) := CheckIfDue(s, true, h);
            && s'.total == (if s.pending == [] || s.pending[0].key <= s.total then s.total else s.pending[0].key)
            && s'.idle - s.idle == s'.total - s.total && s'.system == s.system && s'.user == s.user
            && (some <==> s.pending != [] && !(|s.pending| == 1 && s.pending[0].item.kind == TimerInt))
  {
    if s.pending != [] {
      CheckIfDueByPop(s, true, h);
      var c, s2 := s.pending[0], Popped(s, true);
      SchedulingTakesNoTime(s2.(fired := s2.fired + [Fired(c.item, s2.total)]), h(c.item.id).schedules);
    }
  }

  /** Clock ticks of a run in system mode, and in the other modes. */
  ghost function Ticks(s: Sim, es: seq<Event>, h: Handlers, system: bool): nat
    requires Inv(s) && Lawful(h)
    decreases |es|
  {
    if es == [] then 0
    else
      StepKeepsInv(s, es[0], h);
      (if es[0] == Clock && (s.status == SystemMode) == system then 1 else 0) + Ticks(Step(s, es[0], h), es[1..], h, system)
  }

  lemma {:induction false} RunTimeByMode(s: Sim, es: seq<Event>, h: Handlers)
    requires Inv(s) && Lawful(h)
    ensures After(s, es, h).system == s.system + 10 * Ticks(s, es, h, true)
    ensures After(s, es, h).user == s.user + Ticks(s, es, h, false)
    decreases |es|
  {
    if es != [] {
      StepKeepsInv(s, es[0], h);
      TimeByMode(s, es[0], h);
      RunTimeByMode(Step(s, es[0], h), es[1..], h);
    }
  }

  // ---- requests -----------------------------------------------------------------------------

  /** What a handler asks for is put down as asked: at the time from now, of that kind. */
  lemma {:induction false} ScheduledAsAsked(s: Sim, rs: seq<Request>)
    ensures var n, after := |s.scheduled|, ScheduleAll(s, rs).scheduled;
            && |after| == n + |rs| && after[..n] == s.scheduled
            && forall i :: 0 <= i < |rs| ==> after[n + i] == Pending(n + i, s.total + rs[i].fromNow, rs[i].kind)
    decreases |rs|
  {
    if rs != [] {
      var s1, n := Schedule(s, rs[0]), |s.scheduled|;
      ScheduledAsAsked(s1, rs[1..]);
      var after := ScheduleAll(s, rs).scheduled;
      assert after[..n] == after[..n + 1][..n] && after[..n + 1][n] == after[n];
      forall i | 0 <= i < |rs| ensures after[n + i] == Pending(n + i, s.total + rs[i].fromNow, rs[i].kind) {
        if i > 0 { assert rs[i] == rs[1..][i - 1] && after[n + i] == after[n + 1 + (i - 1)]; }
      }
    }
  }

  /** Some handler among those fired from position m on asked for a context switch. */
  ghost predicate Asked(fired: seq<Fired>, m: nat, h: Handlers) {
    exists i :: m <= i < |fired| && h(fired[i].what.id).switches
  }

  lemma RoundAsks(s: Sim, h: Handlers)
    requires CheckIfDue(s, false, h).1
    ensures var s' := CheckIfDue(s, false, h).0;
            && |s'.fired| == |s.fired| + 1 && s'.fired[..|s.fired|] == s.fired
            && (s'.yieldOnReturn <==> s.yieldOnReturn || h(s'.fired[|s.fired|].what.id).switches)
  {
    var c := s.pending[0];
    SchedulingTakesNoTime(s.(pending := s.pending[1..], fired := s.fired + [Fired(c.item, s.total)]), h(c.item.id).schedules);
  }

  lemma {:induction false} LoopAsks(s: Sim, h: Handlers)
    requires Inv(s) && Lawful(h)
    ensures var s' := FireAllDue(s, h);
            s.fired <= s'.fired && (s'.yieldOnReturn <==> s.yieldOnReturn || Asked(s'.fired, |s.fired|, h))
    decreases Due(s.pending, s.total)
  {
    var (s', more) := CheckIfDue(s, false, h);
    CheckIfDueKeepsInv(s, false, h);
    if more {
      RoundFiresOne(s, h);
      RoundAsks(s, h);
      LoopAsks(s', h);
      var f := FireAllDue(s', h).fired;
      assert f[|s.fired|] == s'.fired[|s.fired|];
      AskedFirst(f, |s.fired|, h);
    }
  }

  lemma AskedFirst(f: seq<Fired>, m: nat, h: Handlers)
    requires m < |f|
    ensures Asked(f, m, h) <==> h(f[m].what.id).switches || Asked(f, m + 1, h)
  {
  }

  /** OneTick yields exactly when a request was left over or a handler fired in it asked for a
      switch, and leaves no request behind. */
  lemma YieldsWhenAsked(s: Sim, h: Handlers)
    requires Inv(s) && Lawful(h)
    ensures var (s', calls) := OneTick(s, h);
            !s'.yieldOnReturn && s'.status == s.status && (calls <==> s.yieldOnReturn || Asked(s'.fired, |s.fired|, h))
  {
    TickKeepsInv(s);
    LoopLeavesNothingDue(Tick(s), h);
    LoopAsks(Tick(s), h);
  }

  /** Of the pending interrupts, one that is due first is the one that fires. */
  lemma FiresEarliest(s: Sim, advanceClock: bool, h: Handlers)
    requires Inv(s) && CheckIfDue(s, advanceClock, h).1
    ensures var f := CheckIfDue(s, advanceClock, h).0.fired;
            && |f| == |s.fired| + 1 && f[|s.fired|].at == CheckIfDue(s, advanceClock, h).0.total
            && forall i :: 0 <= i < |s.pending| ==> f[|s.fired|].what.when <= s.pending[i].item.when
  {
    CheckIfDueByPop(s, advanceClock, h);
    var c, s2 := s.pending[0], Popped(s, advanceClock);
    SchedulingTakesNoTime(s2.(fired := s2.fired + [Fired(c.item, s2.total)]), h(c.item.id).schedules);
    forall i | 0 <= i < |s.pending| ensures c.item.when <= s.pending[i].item.when {
      assert i > 0 ==> s.pending[0].key <= s.pending[i].key;
    }
  }

  // ---- from the start -------------------------------------------------------------------------

  lemma StartOk(s: Sim)
    requires IsStart(s)
    ensures Inv(s)
  {
  }

  /** From the start of the machine, no sequence of events leaves the invariant. */
  lemma RunFromStart(s: Sim, es: seq<Event>, h: Handlers)
    requires IsStart(s) && Lawful(h)
    ensures Inv(s) && Inv(After(s, es, h))
  {
    StartOk(s);
    RunKeepsInv(s, es, h);
  }

  lemma ThreeSteps(s: Sim, a: Event, b: Event, c: Event, h: Handlers)
    requires Inv(s) && Lawful(h)
    ensures Inv(Step(s, a, h)) && Inv(Step(Step(s, a, h), b, h))
    ensures After(s, [a, b, c], h) == Step(Step(Step(s, a, h), b, h), c, h)
  {
    var s1 := Step(s, a, h);
    StepKeepsInv(s, a, h);
    var s2 := Step(s1, b, h);
    StepKeepsInv(s1, b, h);
    StepKeepsInv(s2, c, h);
    assert [a, b, c][1..] == [b, c] && [b, c][1..] == [c] && [c][1..] == [];
    assert After(s2, [c], h) == After(Step(s2, c, h), [], h);
    assert After(s1, [b, c], h) == After(s2, [c], h);
  }

  lemma TwoRequests(s: Sim, r1: Request, r2: Request)
    requires s.pending == [] && r1.fromNow == r2.fromNow
    ensures var s2 := Schedule(Schedule(s, r1), r2);
            var n := |s.scheduled|;
            && s2.total == s.total
            && s2.pending == [Cell(Pending(n, s.total + r1.fromNow, r1.kind), s.total + r1.fromNow),
                              Cell(Pending(n + 1, s.total + r1.fromNow, r2.kind), s.total + r1.fromNow)]
  {
    var when, n := s.total + r1.fromNow, |s.scheduled|;
    var x, y := Cell(Pending(n, when, r1.kind), when), Cell(Pending(n + 1, when, r2.kind), when);
    var s1 := Schedule(s, r1);
    assert s1.pending == [x] && |s1.scheduled| == n + 1 && s1.total == s.total;
    PlaceUnique([x], when, 1);
    assert Schedule(s1, r2).pending == Inserted([x], y);
  }

  /** With nothing else pending, a disk interrupt and behind it the timer come due at one tick
      while the machine idles: the disk's handler runs and the timer stays, due. */
  lemma TimerLeft(s: Sim, h: Handlers, tick: nat)
    requires Inv(s) && s.pending == [] && Lawful(h) && (forall id :: h(id).schedules == []) && tick > 0
    ensures SomethingDue(After(s, DiskAndTimer(tick), h))
  {
    var r1, r2 := Request(tick, DiskInt), Request(tick, TimerInt);
    ThreeSteps(s, DeviceRequest(r1), DeviceRequest(r2), NoReadyThread, h);
    TwoRequests(s, r1, r2);
    var s2 := Schedule(Schedule(s, r1), r2);
    IdleLeavesTimer(s2, h, s2.pending[0], s2.pending[1]);
  }

  function DiskAndTimer(tick: nat): seq<Event> {
    [DeviceRequest(Request(tick, DiskInt)), DeviceRequest(Request(tick, TimerInt)), NoReadyThread]
  }

  /** For instance from the start of the machine. */
  lemma TimerLeftExample(s: Sim, h: Handlers, tick: nat)
    requires IsStart(s) && Lawful(h) && (forall id :: h(id).schedules == []) && tick > 0
    ensures Inv(s) && SomethingDue(After(s, DiskAndTimer(tick), h))
  {
    StartOk(s);
    TimerLeft(s, h, tick);
  }

  lemma IdleLeavesTimer(s: Sim, h: Handlers, disk: Cell<Pending>, timer: Cell<Pending>)
    requires Inv(s) && Lawful(h) && Quiet(h, disk) && Quiet(h, timer)
    requires s.pending == [disk, timer] && disk.key == timer.key >= s.total
    requires disk.item.kind == DiskInt && timer.item.kind == TimerInt
    ensures SomethingDue(Idle(s, h).0)
  {
    var s0 := s.(status := IdleMode);
    var s1 := CheckIfDue(s0, true, h).0;
    CheckIfDueKeepsInv(s0, true, h);
    assert s1.pending == [timer] && s1.total == timer.key && s1.status == IdleMode;
    assert TimerComesLast(s1, h);
    LeavesDueExactlyWhen(s1, h);
  }

  /** What accounting means for one interrupt. */
  lemma ExactlyOnce(s: Sim, id: nat)
    requires Inv(s) && id < |s.scheduled|
    ensures multiset(Items(s.pending))[s.scheduled[id]] + multiset(FiredItems(s.fired))[s.scheduled[id]] == 1
  {
    var x := s.scheduled[id];
    assert (multiset(Items(s.pending)) + multiset(FiredItems(s.fired)))[x] == multiset(s.scheduled)[x];
    OneOccurrence(s.scheduled, id);
  }

  lemma OneOccurrence(s: seq<Pending>, id: nat)
    requires forall i :: 0 <= i < |s| ==> s[i].id == i
    requires id < |s|
    ensures multiset(s)[s[id]] == 1
  {
    assert s == s[..id] + [s[id]] + s[id + 1..];
    assert s[id] !in s[..id] && s[id] !in s[id + 1..];
  }
}
