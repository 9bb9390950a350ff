/**
 The process-table code of the kernel, loops and all, proved step by step against the
 state machine of ProcModel.
 */
module Scheduler {
  import opened ProcModel
  import opened ProcInvariant

  class ProcessTable {
    const taskQueue: array<Task>
    var currentTask: nat
    var lineCount: nat
    var timerCount: nat
    var clock: nat

    ghost function View(): Sys
      reads this, taskQueue
    {
      Sys(taskQueue[..], currentTask, lineCount, timerCount, clock)
    }

    ghost predicate Valid()
      reads this, taskQueue
    {
      Inv(View())
    }

    /** initFirstTask, initTask and createNewTask: init, idle and the shell. */
    constructor (max: nat)
      requires max >= 3
      ensures Valid() && View() == Boot(max) && fresh(taskQueue)
    {
      taskQueue := new Task[max](i => BootTask(i));
      currentTask, lineCount, timerCount, clock := 2, 0, 0, 3;
      new;
      assert taskQueue[..] == Boot(max).tasks;
      BootIsOk(max);
    }

    method NewPID() returns (pid: int)
      ensures pid == FirstReady(taskQueue[..], 0)
    {
      pid := 0;
      while pid < taskQueue.Length
        invariant 0 <= pid <= taskQueue.Length
        invariant FirstReady(taskQueue[..], 0) == FirstReady(taskQueue[..], pid)
      {
        if taskQueue[pid].state == READY { return; }
        pid := pid + 1;
      }
      return -1;
    }

    /** schedule(): the next running process round the table, or the same one. */
    method Schedule()
      requires WellFormed(View())
      modifies `currentTask
      ensures View() == Scheduled(old(View()))
    {
      var max, finalTask := taskQueue.Length, currentTask;
      ghost var ts := taskQueue[..];
      WrapAround(finalTask, max);
      var nextPID := (finalTask + 1) % max;
      ghost var d: nat := 1;
      while nextPID != finalTask
        invariant 1 <= d <= max && finalTask < max && nextPID == After(max, finalTask, d) && taskQueue[..] == ts
        invariant Next(ts, finalTask) == NextFrom(ts, finalTask, d)
        decreases max - d
      {
        if taskQueue[nextPID].state == RUNNING { break; }
        WrapAround(nextPID, max);
        nextPID, d := (nextPID + 1) % max, d + 1;
      }
      currentTask := nextPID;
    }

    /** The loop of exit and kill over the children of `p`. */
    method ReparentChildren(p: nat)
      modifies taskQueue
      ensures taskQueue[..] == Reparent(old(taskQueue[..]), p)
    {
      for i := 0 to taskQueue.Length
        invariant forall k :: 0 <= k < i ==> taskQueue[k] == Orphan(old(taskQueue[k]), p)
        invariant forall k :: i <= k < taskQueue.Length ==> taskQueue[k] == old(taskQueue[k])
      {
        if taskQueue[i].ppid == p {
          taskQueue[i] := taskQueue[i].(ppid := INIT);
        }
      }
    }

    /** `p` turns zombie, its children go to init, its parent is woken. */
    method Bury(p: nat)
      requires p < taskQueue.Length && WellFormed(View())
      modifies taskQueue
      ensures taskQueue[..] == Die(old(taskQueue[..]), p)
    {
      ghost var ts := taskQueue[..];
      taskQueue[p] := taskQueue[p].(state := ZOMBIE);
      assert taskQueue[..] == ts[p := ts[p].(state := ZOMBIE)];
      ReparentChildren(p);
      var parent := taskQueue[p].ppid;
      if taskQueue[parent].state == WAIT {
        taskQueue[parent] := taskQueue[parent].(state := RUNNING);
      }
    }

    method ExitCall()
      requires Valid() && Enabled(View(), Exit)
      modifies taskQueue, `currentTask
      ensures Valid() && View() == Step(old(View()), Exit)
    {
      hide Inv;
      StepKeepsInv(View(), Exit);
      DieStays(View());
      Bury(currentTask);
      Schedule();
    }

    /**
     kill, for any slot of the table.  It is the Kill step, and keeps the invariant,
     exactly for a process in use other than init, idle and the caller.
     */
    method KillCall(pid: nat)
      requires Valid() && currentTask >= 2 && pid < taskQueue.Length
      modifies taskQueue
      ensures WellFormed(old(View())) && taskQueue[..] == Die(old(taskQueue[..]), pid)
      ensures Valid() <==> pid >= 2 && pid != currentTask && old(InUse(taskQueue[pid]))
      ensures old(Enabled(View(), Kill(pid))) ==> View() == Step(old(View()), Kill(pid))
    {
      hide Inv, Die;
      CallerMayWait(View());
      KillKeepsInvIff(View(), pid);
      Bury(pid);
    }

    /** fork's bookkeeping: a free slot, the caller as parent, ready to run. */
    method ForkCall() returns (child: int)
      requires Valid() && Enabled(View(), Fork)
      modifies taskQueue, `clock
      ensures Valid() && View() == Step(old(View()), Fork) && child == FirstReady(old(taskQueue[..]), 0)
    {
      hide Inv;
      StepKeepsInv(View(), Fork);
      child := NewPID();
      var t := taskQueue[child];
      taskQueue[child] := Task(RUNNING, currentTask, t.time, User, clock, t.births + 1, t.reaps);
      clock := clock + 1;
    }

    /** The scan of wait() over the table. */
    method FindZombie() returns (child: int)
      ensures child == FirstZombie(taskQueue[..], currentTask, 0)
    {
      child := 0;
      while child < taskQueue.Length
        invariant 0 <= child <= taskQueue.Length
        invariant FirstZombie(taskQueue[..], currentTask, 0) == FirstZombie(taskQueue[..], currentTask, child)
      {
        if taskQueue[child].ppid == currentTask && taskQueue[child].state == ZOMBIE { return; }
        child := child + 1;
      }
      return -1;
    }

    /** removeProcess; state = READY; return to user mode. */
    method Reap(child: nat)
      requires child < taskQueue.Length && currentTask < taskQueue.Length
      modifies taskQueue
      ensures var ts := ReapSlot(old(taskQueue[..]), child);
              taskQueue[..] == ts[currentTask := ts[currentTask].(pc := User)]
    {
      taskQueue[child] := taskQueue[child].(state := READY, reaps := taskQueue[child].reaps + 1);
      taskQueue[currentTask] := taskQueue[currentTask].(pc := User);
    }

    method SetSelf(t: Task)
      requires currentTask < taskQueue.Length
      modifies taskQueue
      ensures taskQueue[..] == old(taskQueue[..])[currentTask := t]
    {
      taskQueue[currentTask] := t;
    }

    /** wait() from its top, or from behind its schedule(), up to its return or next schedule(). */
    method WaitTurn()
      requires Valid() && currentTask != IDLE_TASK
      modifies taskQueue, `currentTask
      ensures Valid() && View() == DoWait(old(View()))
    {
      WaitKeepsInv(View());
      hide Inv;
      var child := FindZombie();
      if child >= 0 {
        Reap(child);
      } else {
        SetSelf(taskQueue[currentTask].(state := WAIT, pc := InWait));
        Schedule();
      }
    }

    method WaitpidTurn(p: nat, first: bool)
      requires Valid() && currentTask >= 2 && p < taskQueue.Length
      modifies taskQueue, `currentTask
      ensures Valid() && View() == DoWaitpid(old(View()), p, first)
    {
      WaitpidKeepsInv(View(), p, first);
      hide Inv;
      if taskQueue[p].ppid == currentTask && taskQueue[p].state == ZOMBIE {
        Reap(p);
      } else {
        var t := taskQueue[currentTask].(pc := InWaitpid(p));
        SetSelf(if first then t.(state := WAIT) else t);
        Schedule();
      }
    }

    /** One turn of intRead's loop; `found` is what the scan of the buffer meets. */
    method ReadTurn(found: bool)
      requires Valid() && currentTask >= 2
      modifies taskQueue, `currentTask, `lineCount
      ensures Valid() && View() == DoRead(old(View()), found)
    {
      ReadKeepsInv(View(), found);
      hide Inv;
      var t := taskQueue[currentTask];
      if lineCount > 0 {
        if found {
          lineCount := lineCount - 1;
          SetSelf(t.(state := RUNNING, pc := User));
          return;
        }
        SetSelf(t.(pc := InRead));
      } else {
        SetSelf(t.(state := SLEEP, pc := InRead));
      }
      Schedule();
    }

    method SleepCall(seconds: nat)
      requires Valid() && Enabled(View(), Sleep(seconds))
      modifies taskQueue, `currentTask
      ensures Valid() && View() == Step(old(View()), Sleep(seconds))
    {
      hide Inv;
      StepKeepsInv(View(), Sleep(seconds));
      if seconds == 0 { return; }
      SetSelf(taskQueue[currentTask].(time := seconds, state := HANG, pc := InSleep));
      Schedule();
    }

    /** taskTimer: count the sleepers down. */
    method TaskTimer()
      modifies taskQueue
      ensures taskQueue[..] == TickAll(old(taskQueue[..]))
    {
      for i := 0 to taskQueue.Length
        invariant forall k :: 0 <= k < i ==> taskQueue[k] == Tick(old(taskQueue[k]))
        invariant forall k :: i <= k < taskQueue.Length ==> taskQueue[k] == old(taskQueue[k])
      {
        if taskQueue[i].state == HANG && taskQueue[i].time > 0 {
          taskQueue[i] := taskQueue[i].(time := taskQueue[i].time - 1);
        }
        if taskQueue[i].state == HANG && taskQueue[i].time == 0 {
          taskQueue[i] := taskQueue[i].(state := RUNNING);
        }
      }
    }

    /** intTimer up to its schedule(). */
    method TimerTick()
      requires Valid() && Enabled(View(), TimerInterrupt)
      modifies taskQueue, `currentTask, `timerCount
      ensures Valid() && View() == Step(old(View()), TimerInterrupt)
    {
      hide Inv;
      StepKeepsInv(View(), TimerInterrupt);
      timerCount := timerCount + 1;
      if timerCount == 20 {
        SetSelf(taskQueue[currentTask].(pc := Preempted));
        Schedule();
      }
    }

    /** wake_process: only the first sleeping reader. */
    method WakeProcess()
      modifies taskQueue
      ensures var i := FirstSleeper(old(taskQueue[..]), 0);
              taskQueue[..] == if i >= 0 then old(taskQueue[..])[i := old(taskQueue[..])[i].(state := RUNNING)]
                               else old(taskQueue[..])
    {
      var i := 0;
      while i < taskQueue.Length
        invariant i <= taskQueue.Length && taskQueue[..] == old(taskQueue[..])
        invariant FirstSleeper(taskQueue[..], 0) == FirstSleeper(taskQueue[..], i)
      {
        if taskQueue[i].state == SLEEP {
          taskQueue[i] := taskQueue[i].(state := RUNNING);
          return;
        }
        i := i + 1;
      }
    }

    /** The Enter key in intWrite. */
    method Enter()
      requires Valid() && Enabled(View(), EnterKey)
      modifies taskQueue, `lineCount
      ensures Valid() && View() == Step(old(View()), EnterKey)
    {
      hide Inv;
      StepKeepsInv(View(), EnterKey);
      lineCount := lineCount + 1;
      WakeProcess();
    }

    /** A process goes on behind the schedule() it was in. */
    method Continue(found: bool)
      requires Valid() && Enabled(View(), Resume(found))
      modifies taskQueue, `currentTask, `lineCount, `timerCount
      ensures Valid() && View() == Step(old(View()), Resume(found))
    {
      StepKeepsInv(View(), Resume(found));
      CallerMayWait(View());
      hide Inv;
      var t := taskQueue[currentTask];
      match t.pc
      case User =>
      case InWait => WaitTurn();
      case InWaitpid(p) => if p < taskQueue.Length { WaitpidTurn(p, false); }
      case InRead => ReadTurn(found);
      case InSleep => SetSelf(t.(pc := User));
      case Preempted =>
        SetSelf(t.(pc := User));
        timerCount := 0;
        TaskTimer();
    }

    /** Any one step. */
    method Perform(e: Event)
      requires Valid() && Enabled(View(), e)
      modifies taskQueue, this
      ensures Valid() && View() == Step(old(View()), e)
    {
      hide Inv;
      match e
      case Fork => var child := ForkCall();
      case Exit => ExitCall();
      case Kill(pid) => KillCall(pid);
      case Wait => WaitTurn();
      case Waitpid(pid) => WaitpidTurn(pid, true);
      case Sleep(seconds) => SleepCall(seconds);
      case Read(found) => ReadTurn(found);
      case Yield =>
        StepKeepsInv(View(), e);
        Schedule();
      case TimerInterrupt => TimerTick();
      case EnterKey => Enter();
      case Resume(found) => Continue(found);
    }
  }

  lemma WrapAround(i: nat, max: nat)
    requires i < max
    ensures (i + 1) % max == if i + 1 < max then i + 1 else 0
  {
    if i + 1 == max {
      assert max % max == 0;
    }
  }

  lemma DieStays(s: Sys)
    requires Inv(s) && s.cur >= 2
    ensures WellFormed(s) && WellFormed(s.(tasks := Die(s.tasks, s.cur)))
  {
    DieIsWellFormed(s, s.cur);
  }

  /** Only ordinary processes are inside waitpid, intRead or sleep. */
  lemma CallerMayWait(s: Sys)
    requires Inv(s)
    ensures WellFormed(s)
    ensures s.tasks[s.cur].pc == InWait ==> s.cur != IDLE_TASK
    ensures s.tasks[s.cur].pc.InWaitpid? || s.tasks[s.cur].pc == InRead ==> s.cur >= 2
  {
  }
}
