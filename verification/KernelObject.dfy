/** The kernel's variables updated in place, with the ready list in the linked list of
    threads/list.cc; each operation is proved to be the step function of module Kernel. A method
    ends where the CPU is switched or the idle loop is entered. */
module KernelObject {
  import opened Common
  import opened Synch
  import opened LinkedList
  import K = Kernel
  import Safety = KernelSafety

  class Kernel {
    var threads: seq<K.Thread>
    var currentThread: nat
    var idling: bool
    const readyList: List<nat>
    var sems: seq<Sem>
    var locks: seq<Lock>
    var threadToBeDestroyed: Option<nat>

    ghost function View(): K.State
      reads this, readyList
    {
      K.State(threads, currentThread, idling, Items(readyList.contents), sems, locks, threadToBeDestroyed)
    }

    ghost predicate Sound()
      reads this, readyList, readyList.repr
    {
      readyList.Valid() && this !in readyList.repr
    }

    ghost predicate Valid()
      reads this, readyList, readyList.repr
    {
      Sound() && K.Inv(View())
    }

    constructor (initials: seq<nat>, numLocks: nat)
      ensures Valid() && View() == K.Boot(initials, numLocks) && fresh(readyList.repr)
    {
      threads := [K.Thread(K.Running, K.NoCall, true, false, 0)];
      currentThread, idling := 0, false;
      readyList := new List();
      sems := seq(|initials|, i requires 0 <= i < |initials| => NewSem(initials[i]));
      locks := seq(numLocks, _ => FREE_LOCK);
      threadToBeDestroyed := None;
      new;
      Safety.BootOk(initials, numLocks);
    }

    // ---- Scheduler ----------------------------------------------------------------------

    method ReadyToRun(t: nat)
      requires Sound() && t < |threads|
      modifies this`threads, readyList.repr
      ensures Sound() && fresh(readyList.repr - old(readyList.repr))
      ensures View() == K.ReadyToRun(old(View()), t)
    {
      SetStatus(t, K.Ready);
      ItemsOfEnds(readyList.contents, Cell(t, 0));
      readyList.Append(t);
    }

    method SetStatus(t: nat, status: K.Status)
      requires Sound() && t < |threads|
      modifies this`threads
      ensures Sound() && View() == old(View()).(threads := K.SetStatus(old(threads), t, status))
    {
      threads := threads[t := threads[t].(status := status)];
    }

    method SetCall(call: K.Call)
      requires Sound() && currentThread < |threads|
      modifies this`threads
      ensures Sound() && View() == old(View()).(threads := K.SetCall(old(threads), currentThread, call))
    {
      threads := threads[currentThread := threads[currentThread].(call := call)];
    }

    method SetSem(s: nat, sem: Sem)
      requires Sound() && s < |sems|
      modifies this`sems
      ensures Sound() && View() == old(View()).(sems := old(sems)[s := sem])
    {
      sems := sems[s := sem];
    }

    method SetLock(l: nat, lock: Lock)
      requires Sound() && l < |locks|
      modifies this`locks
      ensures Sound() && View() == old(View()).(locks := old(locks)[l := lock])
    {
      locks := locks[l := lock];
    }

    method FindNextToRun() returns (next: Option<nat>)
      requires Sound()
      modifies readyList
      ensures Sound() && readyList.repr == old(readyList.repr)
      ensures next == if old(View()).ready == [] then None else Some(old(View()).ready[0])
      ensures View() == old(View()).(ready := if next == None then [] else old(View()).ready[1..])
    {
      ItemsOfEnds(readyList.contents, Cell(0, 0));
      next := readyList.Remove();
    }

    method Run(next: nat)
      requires Sound() && next < |threads|
      requires threadToBeDestroyed.Some? ==> threadToBeDestroyed.value < |threads| && threadToBeDestroyed.value != next
      modifies this`threads, this`currentThread, this`idling, this`threadToBeDestroyed
      ensures Sound() && View() == K.Run(old(View()), next)
    {
      currentThread := next;
      idling := false;
      var resumes := threads[next].started;
      threads := threads[next := threads[next].(status := K.Running, started := true)];
      if resumes && threadToBeDestroyed.Some? {
        var d := threadToBeDestroyed.value;
        assert d != currentThread;
        threads := threads[d := threads[d].(destroyed := threads[d].destroyed + 1)];
        threadToBeDestroyed := None;
      }
    }

    // ---- Thread ---------------------------------------------------------------------------

    method Create() returns (t: nat)
      requires Valid() && K.Enabled(View(), K.ECreate)
      modifies this`threads
      ensures Valid() && View() == K.Next(old(View()), K.ECreate)
      ensures t == |old(threads)|
    {
      Safety.StepKeepsInv(View(), K.ECreate);
      t := |threads|;
      threads := threads + [K.NEW_THREAD];
    }

    method Fork(t: nat)
      requires Valid() && K.Enabled(View(), K.EFork(t))
      modifies this`threads, readyList.repr
      ensures Valid() && fresh(readyList.repr - old(readyList.repr))
      ensures View() == K.Next(old(View()), K.EFork(t))
    {
      Safety.StepKeepsInv(View(), K.EFork(t));
      ReadyToRun(t);
    }

    /** The carcass waiting for deletion is not a ready thread. */
    lemma CarcassNotReady()
      requires Valid()
      ensures CarcassApart()
    {
      if View().ready != [] { assert K.PlaceOk(View(), View().ready[0]); }
    }

    ghost predicate CarcassApart()
      reads this, readyList
    {
      View().ready != [] && threadToBeDestroyed.Some? ==>
        threadToBeDestroyed.value < |threads| && threadToBeDestroyed.value != View().ready[0]
    }

    method Yield()
      requires Valid() && K.Enabled(View(), K.EYield)
      modifies this`threads, this`currentThread, this`idling, this`threadToBeDestroyed, readyList.repr
      ensures Valid() && fresh(readyList.repr - old(readyList.repr))
      ensures View() == K.Next(old(View()), K.EYield)
    {
      Safety.StepKeepsInv(View(), K.EYield);
      CarcassNotReady();
      var next := FindNextToRun();
      if next.Some? {
        ReadyToRun(currentThread);
        Run(next.value);
      }
    }

    /** Up to the switch, or to the idle loop. */
    method Sleep()
      requires Sound() && K.InBounds(View()) && CarcassApart()
      modifies this`threads, this`currentThread, this`idling, this`threadToBeDestroyed, readyList
      ensures Sound() && readyList.repr == old(readyList.repr)
      ensures View() == K.Sleep(old(View()))
    {
      SetStatus(currentThread, K.Blocked);
      var next := FindNextToRun();
      if next.None? {
        idling := true;
      } else {
        Run(next.value);
      }
    }

    /** The idle loop's next look at the ready list. */
    method Resume()
      requires Valid() && K.Enabled(View(), K.EResume)
      modifies this`threads, this`currentThread, this`idling, this`threadToBeDestroyed, readyList
      ensures Valid() && readyList.repr == old(readyList.repr)
      ensures View() == K.Next(old(View()), K.EResume)
    {
      Safety.StepKeepsInv(View(), K.EResume);
      CarcassNotReady();
      var next := FindNextToRun();
      Run(next.value);
    }

    method Finish()
      requires Valid() && K.Enabled(View(), K.EFinish)
      modifies this`threads, this`currentThread, this`idling, this`threadToBeDestroyed, readyList
      ensures Valid() && readyList.repr == old(readyList.repr)
      ensures View() == K.Next(old(View()), K.EFinish)
    {
      Safety.StepKeepsInv(View(), K.EFinish);
      assert K.PlaceOk(View(), currentThread);
      MarkFinished();
      Sleep();
    }

    method MarkFinished()
      requires Sound() && currentThread < |threads|
      modifies this`threads, this`threadToBeDestroyed
      ensures Sound()
      ensures View() == old(View()).(toDestroy := Some(currentThread),
                threads := old(threads)[currentThread := old(threads)[currentThread].(finished := true)])
    {
      threadToBeDestroyed := Some(currentThread);
      threads := threads[currentThread := threads[currentThread].(finished := true)];
    }

    // ---- Semaphore and Lock -----------------------------------------------------------------

    /** One round of P's loop; ok when it got through. */
    method P(s: nat) returns (ok: bool)
      requires Valid() && K.Enabled(View(), K.EP(s))
      modifies this, readyList
      ensures Valid() && readyList.repr == old(readyList.repr)
      ensures View() == K.Next(old(View()), K.EP(s))
      ensures ok <==> old(sems[s].value) > 0
    {
      Safety.StepKeepsInv(View(), K.EP(s));
      if sems[s].value == 0 {
        CarcassNotReady();
        SetSem(s, Wait(sems[s], currentThread));
        SetCall(K.InP(s));
        Sleep();
        return false;
      }
      SetSem(s, Take(sems[s]));
      SetCall(K.NoCall);
      return true;
    }

    method V(s: nat)
      requires Valid() && K.Enabled(View(), K.EV(s))
      modifies this`threads, this`sems, readyList.repr
      ensures Valid() && fresh(readyList.repr - old(readyList.repr))
      ensures View() == K.Next(old(View()), K.EV(s))
    {
      Safety.StepKeepsInv(View(), K.EV(s));
      assert K.QueueOk(View(), sems[s].queue);
      if sems[s].queue != [] {
        ReadyToRun(sems[s].queue[0]);
      }
      SetSem(s, Signal(sems[s]));
    }

    /** got is false when the caller has to sleep; it then owns the lock when it wakes. */
    method Acquire(l: nat) returns (got: bool)
      requires Valid() && K.Enabled(View(), K.EAcquire(l))
      modifies this, readyList
      ensures Valid() && readyList.repr == old(readyList.repr)
      ensures View() == K.Next(old(View()), K.EAcquire(l))
      ensures got ==> locks[l].owner == Some(currentThread) && currentThread == old(currentThread)
    {
      Safety.StepKeepsInv(View(), K.EAcquire(l));
      if locks[l].owner != Some(currentThread) {
        if !locks[l].busy {
          SetLock(l, Grab(locks[l], currentThread));
        } else {
          CarcassNotReady();
          SetLock(l, Queue(locks[l], currentThread));
          SetCall(K.InAcquire(l));
          Sleep();
          return false;
        }
      }
      return true;
    }

    method Release(l: nat)
      requires Valid() && K.Enabled(View(), K.ERelease(l))
      modifies this`threads, this`locks, readyList.repr
      ensures Valid() && fresh(readyList.repr - old(readyList.repr))
      ensures View() == K.Next(old(View()), K.ERelease(l))
    {
      Safety.StepKeepsInv(View(), K.ERelease(l));
      assert K.QueueOk(View(), locks[l].queue);
      if locks[l].owner == Some(currentThread) {
        if locks[l].queue != [] {
          ReadyToRun(locks[l].queue[0]);
        }
        SetLock(l, HandOff(locks[l]));
      }
    }
  }
}
