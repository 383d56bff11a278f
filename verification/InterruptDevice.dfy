/** The Interrupt object of machine/interrupt.cc, proved against the functions of
    InterruptSim. The pending interrupts are in the linked list of threads/list.cc. */
module InterruptDevice {
  import opened Common
  import opened LinkedList
  import Sim = InterruptSim

  datatype Level = IntOff | IntOn

  class Interrupt {
    var level: Level
    const pending: List<Sim.Pending>
    var status: Sim.Status
    var yieldOnReturn: bool
    // the clock counters of Statistics
    var totalTicks: nat
    var idleTicks: nat
    var systemTicks: nat
    var userTicks: nat
    // history
    var nextId: nat
    ghost var scheduled: seq<Sim.Pending>
    ghost var fired: seq<Sim.Fired>

    ghost predicate Valid()
      reads this, pending, pending.repr
    {
      pending.Valid() && this !in pending.repr && nextId == |scheduled|
    }

    ghost function View(): Sim.Sim
      reads this, pending
    {
      Sim.Sim(totalTicks, idleTicks, systemTicks, userTicks, pending.contents, status,
              yieldOnReturn, scheduled, fired)
    }

    constructor ()
      ensures Valid() && Sim.IsStart(View()) && level == IntOff
      ensures fresh(pending) && fresh(pending.repr)
    {
      level := IntOff;
      pending := new List();
      status, yieldOnReturn := Sim.SystemMode, false;
      totalTicks, idleTicks, systemTicks, userTicks := 0, 0, 0, 0;
      nextId, scheduled, fired := 0, [], [];
    }

    method Schedule(fromNow: int, kind: Sim.Kind)
      requires Valid() && fromNow > 0
      modifies this, pending.repr
      ensures Valid() && fresh(pending.repr - old(pending.repr)) && level == old(level)
      ensures View() == Sim.Schedule(old(View()), Sim.Request(fromNow, kind))
    {
      var when := totalTicks + fromNow;
      var toOccur := NewPending(when, kind);
      Insert(toOccur, when);
    }

    /** new PendingInterrupt, numbered and put on record. */
    method NewPending(when: int, kind: Sim.Kind) returns (p: Sim.Pending)
      requires Valid()
      modifies this`nextId, this`scheduled
      ensures Valid() && p == Sim.Pending(|old(scheduled)|, when, kind)
      ensures View() == old(View()).(scheduled := old(scheduled) + [p])
    {
      p := Sim.Pending(nextId, when, kind);
      nextId := nextId + 1;
      scheduled := scheduled + [p];
    }

    /** Invoking the handler of p. */
    method Handle(p: Sim.Pending, e: Sim.Effect)
      requires Valid()
      requires forall i :: 0 <= i < |e.schedules| ==> e.schedules[i].fromNow > 0
      modifies this, pending.repr
      ensures Valid() && fresh(pending.repr - old(pending.repr)) && level == old(level)
      ensures View() == Sim.Handle(old(View()), p, e)
    {
      fired := fired + [Sim.Fired(p, totalTicks)];
      ghost var s1 := View();
      for i := 0 to |e.schedules|
        invariant Valid() && fresh(pending.repr - old(pending.repr)) && level == old(level)
        invariant Sim.ScheduleAll(View(), e.schedules[i..]) == Sim.ScheduleAll(s1, e.schedules)
      {
        assert e.schedules[i..][0] == e.schedules[i] && e.schedules[i..][1..] == e.schedules[i + 1..];
        Schedule(e.schedules[i].fromNow, e.schedules[i].kind);
      }
      if e.switches {
        yieldOnReturn := true;
      }
    }

    method CheckIfDue(advanceClock: bool, h: Sim.Handlers) returns (invoked: bool)
      requires Valid() && Sim.Lawful(h) && level == IntOff
      modifies this, pending.repr
      ensures Valid() && fresh(pending.repr - old(pending.repr)) && level == IntOff
      ensures (View(), invoked) == Sim.CheckIfDue(old(View()), advanceClock, h)
    {
      Sim.CheckIfDueByPop(View(), advanceClock, h);
      var removed := TakeFirst();
      if removed.None? {
        return false;
      }
      invoked := Occur(removed.value.item, removed.value.key, advanceClock, h);
    }

    /** CheckIfDue once the head is off the list. */
    method Occur(toOccur: Sim.Pending, when: int, advanceClock: bool, h: Sim.Handlers) returns (invoked: bool)
      requires Valid() && Sim.Lawful(h)
      modifies this, pending.repr
      ensures Valid() && fresh(pending.repr - old(pending.repr)) && level == old(level)
      ensures var s2 := Sim.Advanced(old(View()), when, advanceClock);
              (View(), invoked)
              == if when > s2.total || (s2.status == Sim.IdleMode && toOccur.kind == Sim.TimerInt && s2.pending == [])
                 then (Sim.Put(s2, Cell(toOccur, when)), false)
                 else (Sim.Handle(s2, toOccur, h(toOccur.id)), true)
    {
      AdvanceTo(when, advanceClock);
      if when > totalTicks {
        Insert(toOccur, when);
        return false;
      }
      var empty := pending.IsEmpty();
      if status == Sim.IdleMode && toOccur.kind == Sim.TimerInt && empty {
        Insert(toOccur, when);
        return false;
      }
      Invoke(toOccur, h);
      return true;
    }

    method TakeFirst() returns (removed: Option<Cell<Sim.Pending>>)
      requires Valid()
      modifies pending
      ensures Valid() && pending.repr == old(pending.repr)
      ensures removed == if old(View()).pending == [] then None else Some(old(View()).pending[0])
      ensures View() == if removed.None? then old(View()) else old(View()).(pending := old(View()).pending[1..])
    {
      removed := pending.SortedRemove();
    }

    method Insert(toOccur: Sim.Pending, when: int)
      requires Valid()
      modifies pending.repr
      ensures Valid() && fresh(pending.repr - old(pending.repr))
      ensures View() == Sim.Put(old(View()), Cell(toOccur, when))
    {
      pending.SortedInsert(toOccur, when);
    }

    method Invoke(toOccur: Sim.Pending, h: Sim.Handlers)
      requires Valid() && Sim.Lawful(h)
      modifies this, pending.repr
      ensures Valid() && fresh(pending.repr - old(pending.repr)) && level == old(level)
      ensures View() == Sim.Handle(old(View()), toOccur, h(toOccur.id))
    {
      var e := h(toOccur.id);
      assert forall i :: 0 <= i < |e.schedules| ==> h(toOccur.id).schedules[i].fromNow > 0;
      Handle(toOccur, e);
    }

    /** Idle time up to the next interrupt, if asked. */
    method AdvanceTo(when: int, advanceClock: bool)
      requires Valid()
      modifies this`totalTicks, this`idleTicks
      ensures Valid() && View() == Sim.Advanced(old(View()), when, advanceClock)
    {
      if advanceClock && when > totalTicks {
        idleTicks := idleTicks + (when - totalTicks);
        totalTicks := when;
      }
    }

    /** while (CheckIfDue(FALSE)) ; */
    method FireAllDue(h: Sim.Handlers)
      requires Valid() && Sim.Lawful(h) && level == IntOff && Sim.Inv(View())
      modifies this, pending.repr
      ensures Valid() && fresh(pending.repr - old(pending.repr)) && level == IntOff
      ensures View() == Sim.FireAllDue(old(View()), h)
    {
      ghost var was := View();
      var more := true;
      while more
        invariant Valid() && fresh(pending.repr - old(pending.repr)) && level == IntOff
        invariant more ==> Sim.Inv(View()) && Sim.FireAllDue(View(), h) == Sim.FireAllDue(was, h)
        invariant !more ==> View() == Sim.FireAllDue(was, h)
        decreases more, Sim.Due(View().pending, View().total)
      {
        ghost var s := View();
        Sim.CheckIfDueKeepsInv(s, false, h);
        more := CheckIfDue(false, h);
        if more {
          Sim.RoundFiresOne(s, h);
        }
      }
    }

    method AdvanceClock()
      requires Valid()
      modifies this`totalTicks, this`systemTicks, this`userTicks
      ensures Valid() && View() == Sim.Tick(old(View()))
    {
      if status == Sim.SystemMode {
        totalTicks := totalTicks + Sim.SYSTEM_TICK;
        systemTicks := systemTicks + Sim.SYSTEM_TICK;
      } else {
        totalTicks := totalTicks + Sim.USER_TICK;
        userTicks := userTicks + Sim.USER_TICK;
      }
    }

    method OneTick(h: Sim.Handlers) returns (callsYield: bool)
      requires Valid() && Sim.Lawful(h) && level == IntOn && Sim.Inv(View())
      modifies this, pending.repr
      ensures Valid() && fresh(pending.repr - old(pending.repr)) && level == IntOn
      ensures (View(), callsYield) == Sim.OneTick(old(View()), h)
    {
      Sim.TickKeepsInv(View());
      AdvanceClock();
      FireWithInterruptsOff(h);
      callsYield := TakeYield();
    }

    method FireWithInterruptsOff(h: Sim.Handlers)
      requires Valid() && Sim.Lawful(h) && level == IntOn && Sim.Inv(View())
      modifies this, pending.repr
      ensures Valid() && fresh(pending.repr - old(pending.repr)) && level == IntOn
      ensures View() == Sim.FireAllDue(old(View()), h)
    {
      ChangeLevel(IntOff);
      FireAllDue(h);
      ChangeLevel(IntOn);
    }

    method ChangeLevel(now: Level)
      requires Valid()
      modifies this`level
      ensures Valid() && level == now && View() == old(View())
    {
      level := now;
    }

    /** Answers and forgets the request to yield. */
    method TakeYield() returns (asked: bool)
      requires Valid()
      modifies this`yieldOnReturn
      ensures Valid() && asked == old(yieldOnReturn)
      ensures View() == old(View()).(yieldOnReturn := false)
    {
      asked := yieldOnReturn;
      if yieldOnReturn {
        yieldOnReturn := false;
      }
    }

    method SetLevel(now: Level, h: Sim.Handlers) returns (was: Level, callsYield: bool)
      requires Valid() && Sim.Lawful(h) && Sim.Inv(View())
      modifies this, pending.repr
      ensures Valid() && fresh(pending.repr - old(pending.repr)) && level == now && was == old(level)
      ensures (View(), callsYield)
           == if now == IntOn && was == IntOff then Sim.OneTick(old(View()), h) else (old(View()), false)
    {
      was, callsYield := level, false;
      ChangeLevel(now);
      if now == IntOn && was == IntOff {
        callsYield := OneTick(h);
      }
    }

    /** running is false when Idle halts the machine. */
    method Idle(h: Sim.Handlers) returns (running: bool)
      requires Valid() && Sim.Lawful(h) && level == IntOff && Sim.Inv(View())
      modifies this, pending.repr
      ensures Valid() && fresh(pending.repr - old(pending.repr)) && level == IntOff
      ensures (View(), running) == Sim.Idle(old(View()), h)
    {
      SetStatus(Sim.IdleMode);
      running := AwaitInterrupt(h);
    }

    /** Idle in idle mode. */
    method AwaitInterrupt(h: Sim.Handlers) returns (running: bool)
      requires Valid() && Sim.Lawful(h) && level == IntOff && Sim.Inv(View())
      modifies this, pending.repr
      ensures Valid() && fresh(pending.repr - old(pending.repr)) && level == IntOff
      ensures (View(), running) == Sim.AwaitInterrupt(old(View()), h)
    {
      Sim.CheckIfDueKeepsInv(View(), true, h);
      running := CheckIfDue(true, h);
      if running {
        FinishIdle(h);
      }
    }

    method FinishIdle(h: Sim.Handlers)
      requires Valid() && Sim.Lawful(h) && level == IntOff && Sim.Inv(View())
      modifies this, pending.repr
      ensures Valid() && fresh(pending.repr - old(pending.repr)) && level == IntOff
      ensures View() == Sim.FireAllDue(old(View()), h).(yieldOnReturn := false, status := Sim.SystemMode)
    {
      FireAllDue(h);
      var _ := TakeYield();
      SetStatus(Sim.SystemMode);
    }

    method SetStatus(now: Sim.Status)
      requires Valid()
      modifies this`status
      ensures Valid() && View() == old(View()).(status := now)
    {
      status := now;
    }
  }
}
