/**
 What holds of the process table in every reachable state: the parents form a forest of
 live processes under init, waiters do not sleep through a zombie child, slots are reaped
 once per process, and schedule finds a running process.
 */
module ProcInvariant {
  import opened ProcModel

  /** One slot by itself. */
  predicate SlotOk(t: Task, clock: nat) {
    && (t.state == WAIT ==> t.pc.InWait? || t.pc.InWaitpid?)
    && (t.state == SLEEP ==> t.pc == InRead)
    && (t.state == HANG ==> t.pc == InSleep)
    && t.state != IDLE
    && t.born < clock
    && t.births == t.reaps + (if InUse(t) then 1 else 0)
  }

  /** The parent of a process in use is alive and older. */
  predicate ParentOk(ts: seq<Task>, i: nat)
    requires i < |ts| && ts[i].ppid < |ts|
  {
    InUse(ts[i]) ==> Alive(ts[ts[i].ppid]) && (i != INIT ==> ts[ts[i].ppid].born < ts[i].born)
  }

  /** `t` sleeps in wait(), or in waitpid(k). */
  predicate WaitsFor(t: Task, k: nat) {
    t.state == WAIT && (t.pc == InWait || t.pc == InWaitpid(k))
  }

  /** `i` does not sleep while `k`, a child it waits for, is a zombie.  init is excepted. */
  predicate WaiterOk(ts: seq<Task>, i: nat, k: nat)
    requires i < |ts| && k < |ts|
  {
    i != INIT && WaitsFor(ts[i], k) ==> !ZombieChild(ts[k], i)
  }

  predicate InitOk(t: Task) {
    (t.state == RUNNING || t.state == WAIT) && t.ppid == INIT && t.born == 0 &&
    (t.pc == User || t.pc == InWait || t.pc == Preempted)
  }

  predicate IdleOk(t: Task) {
    t.state == RUNNING && (t.pc == User || t.pc == Preempted)
  }

  ghost predicate TableOk(ts: seq<Task>, clock: nat) {
    && |ts| >= 2 && InitOk(ts[INIT]) && IdleOk(ts[IDLE_TASK])
    && (forall i :: 0 <= i < |ts| ==> ts[i].ppid < |ts|)
    && (forall i :: 0 <= i < |ts| ==> SlotOk(ts[i], clock))
    && (forall i :: 0 <= i < |ts| ==> ParentOk(ts, i))
    && (forall i, k :: 0 <= i < |ts| && 0 <= k < |ts| ==> WaiterOk(ts, i, k))
  }

  ghost predicate Inv(s: Sys) {
    TableOk(s.tasks, s.clock) && s.cur < |s.tasks| && s.tasks[s.cur].state == RUNNING
  }

  // ---------- Changes to the table ----------

  /** One slot after exit or kill of `p`, whose parent is `q`. */
  lemma DieAt(ts: seq<Task>, p: nat, q: nat, i: nat)
    requires 2 <= p < |ts| && i < |ts| && forall j :: 0 <= j < |ts| ==> ts[j].ppid < |ts|
    requires q == ts[p].ppid != p
    ensures var t, r := ts[i], Die(ts, p)[i];
            && r.born == t.born && r.births == t.births && r.reaps == t.reaps && r.pc == t.pc && r.time == t.time
            && r.ppid == (if t.ppid == p then INIT else t.ppid)
            && r.state == if i == p then ZOMBIE else if i == q && t.state == WAIT then RUNNING else t.state
  {
  }

  lemma DieKeepsTable(ts: seq<Task>, clock: nat, p: nat)
    requires TableOk(ts, clock) && 2 <= p < |ts| && InUse(ts[p])
    ensures TableOk(Die(ts, p), clock)
    ensures forall i :: 0 <= i < |ts| && i != p && ts[i].state == RUNNING ==> Die(ts, p)[i].state == RUNNING
  {
    var r, q := Die(ts, p), ts[p].ppid;
    assert ParentOk(ts, p);
    forall i | 0 <= i < |ts|
      ensures SlotOk(r[i], clock) && r[i].ppid < |r| && ParentOk(r, i)
      ensures i != p && ts[i].state == RUNNING ==> r[i].state == RUNNING
    {
      hide Die, WaiterOk;
      assert ParentOk(ts, i);
      DieAt(ts, p, q, i);
      DieAt(ts, p, q, r[i].ppid);
    }
    forall i, k | 0 <= i < |ts| && 0 <= k < |ts| ensures WaiterOk(r, i, k) {
      hide Die, ParentOk, SlotOk;
      assert WaiterOk(ts, i, k);
      DieAt(ts, p, q, i);
      DieAt(ts, p, q, k);
    }
    DieAt(ts, p, q, INIT);
    DieAt(ts, p, q, IDLE_TASK);
  }

  /** A zombie leaves; it is nobody's parent, since zombies are not alive. */
  lemma ReapKeepsTable(ts: seq<Task>, clock: nat, i: nat)
    requires TableOk(ts, clock) && i < |ts| && ts[i].state == ZOMBIE
    ensures TableOk(ReapSlot(ts, i), clock)
    ensures forall k :: 0 <= k < |ts| ==> (ts[k].ppid == i ==> !InUse(ts[k]))
  {
    var r := ReapSlot(ts, i);
    forall k | 0 <= k < |ts| ensures ParentOk(r, k) && (ts[k].ppid == i ==> !InUse(ts[k])) {
      assert ParentOk(ts, k);
    }
    forall j, k | 0 <= j < |ts| && 0 <= k < |ts| ensures WaiterOk(r, j, k) {
      assert WaiterOk(ts, j, k);
    }
  }

  /** A process changes how it is alive; a waiter only to a wait it need not be woken from. */
  lemma SelfKeepsTable(ts: seq<Task>, clock: nat, c: nat, t: Task)
    requires TableOk(ts, clock) && c < |ts| && SlotOk(t, clock) && Alive(ts[c]) && Alive(t)
    requires t.ppid == ts[c].ppid && t.born == ts[c].born
    requires c == INIT ==> InitOk(t)
    requires c == IDLE_TASK ==> IdleOk(t)
    requires c != INIT && t.state == WAIT ==>
               forall k :: 0 <= k < |ts| && (t.pc == InWait || t.pc == InWaitpid(k)) ==> !ZombieChild(ts[k], c)
    ensures TableOk(ts[c := t], clock)
  {
    var r := ts[c := t];
    forall k | 0 <= k < |ts| ensures ParentOk(r, k) {
      assert ParentOk(ts, k);
    }
    forall j, k | 0 <= j < |ts| && 0 <= k < |ts| ensures WaiterOk(r, j, k) {
      assert WaiterOk(ts, j, k);
    }
  }

  /** A fresh process in a free slot: the slot was nobody's parent. */
  lemma ForkKeepsTable(ts: seq<Task>, clock: nat, c: nat, i: nat)
    requires TableOk(ts, clock) && c < |ts| && ts[c].state == RUNNING && i < |ts| && ts[i].state == READY
    ensures TableOk(ts[i := Task(RUNNING, c, ts[i].time, User, clock, ts[i].births + 1, ts[i].reaps)], clock + 1)
    ensures forall k :: 0 <= k < |ts| ==> (ts[k].ppid == i ==> !InUse(ts[k]))
  {
    var r := ts[i := Task(RUNNING, c, ts[i].time, User, clock, ts[i].births + 1, ts[i].reaps)];
    forall k | 0 <= k < |ts| ensures ParentOk(r, k) && (ts[k].ppid == i ==> !InUse(ts[k])) {
      assert ParentOk(ts, k);
    }
    forall j, k | 0 <= j < |ts| && 0 <= k < |ts| ensures WaiterOk(r, j, k) {
      assert WaiterOk(ts, j, k);
    }
  }

  lemma TickKeepsTable(ts: seq<Task>, clock: nat)
    requires TableOk(ts, clock)
    ensures TableOk(TickAll(ts), clock)
    ensures forall i :: 0 <= i < |ts| && ts[i].state == RUNNING ==> TickAll(ts)[i].state == RUNNING
  {
    var r := TickAll(ts);
    forall k | 0 <= k < |ts| ensures ParentOk(r, k) {
      assert ParentOk(ts, k);
    }
    forall j, k | 0 <= j < |ts| && 0 <= k < |ts| ensures WaiterOk(r, j, k) {
      assert WaiterOk(ts, j, k);
    }
  }

  /** While idle runs, schedule picks a running process. */
  lemma NextFromIsRunning(ts: seq<Task>, cur: nat, d: nat, t: nat)
    requires cur < |ts| && 1 <= d <= |ts| && t < |ts| && ts[t].state == RUNNING
    requires t == cur || exists e :: d <= e < |ts| && After(|ts|, cur, e) == t
    ensures ts[NextFrom(ts, cur, d)].state == RUNNING
    decreases |ts| - d
  {
    if d < |ts| && ts[After(|ts|, cur, d)].state != RUNNING {
      NextFromIsRunning(ts, cur, d + 1, t);
    }
  }

  /** The distance from `cur` to `t`, going round. */
  function Distance(n: nat, cur: nat, t: nat): nat
    requires cur < n && t < n
  {
    if t >= cur then t - cur else t + n - cur
  }

  lemma NextIsRunning(ts: seq<Task>, cur: nat, t: nat)
    requires cur < |ts| && t < |ts| && ts[t].state == RUNNING
    ensures ts[Next(ts, cur)].state == RUNNING
  {
    if t != cur {
      assert After(|ts|, cur, Distance(|ts|, cur, t)) == t;
    }
    NextFromIsRunning(ts, cur, 1, t);
  }

  lemma InvAfterSchedule(s: Sys)
    requires WellFormed(s) && TableOk(s.tasks, s.clock)
    ensures Inv(Scheduled(s))
  {
    NextIsRunning(s.tasks, s.cur, IDLE_TASK);
  }

  // ---------- Every step keeps the invariant ----------

  lemma WaitKeepsInv(s: Sys)
    requires Inv(s) && s.cur != IDLE_TASK
    ensures WellFormed(s) && Inv(DoWait(s))
  {
    var c, i := s.cur, FirstZombie(s.tasks, s.cur, 0);
    if i >= 0 {
      var ts := ReapSlot(s.tasks, i);
      ReapKeepsTable(s.tasks, s.clock, i);
      SelfKeepsTable(ts, s.clock, c, ts[c].(pc := User));
    } else {
      var t := s.tasks[c].(state := WAIT, pc := InWait);
      SelfKeepsTable(s.tasks, s.clock, c, t);
      InvAfterSchedule(WithCur(s, t));
    }
  }

  lemma WaitpidKeepsInv(s: Sys, p: nat, first: bool)
    requires Inv(s) && s.cur >= 2 && p < |s.tasks|
    ensures WellFormed(s) && Inv(DoWaitpid(s, p, first))
  {
    var c := s.cur;
    if ZombieChild(s.tasks[p], c) {
      var ts := ReapSlot(s.tasks, p);
      ReapKeepsTable(s.tasks, s.clock, p);
      SelfKeepsTable(ts, s.clock, c, ts[c].(pc := User));
    } else {
      var t := s.tasks[c].(pc := InWaitpid(p));
      var t' := if first then t.(state := WAIT) else t;
      SelfKeepsTable(s.tasks, s.clock, c, t');
      InvAfterSchedule(WithCur(s, t'));
    }
  }

  lemma ReadKeepsInv(s: Sys, found: bool)
    requires Inv(s) && s.cur >= 2
    ensures WellFormed(s) && Inv(DoRead(s, found))
  {
    var c, t := s.cur, s.tasks[s.cur];
    SelfKeepsTable(s.tasks, s.clock, c, t.(state := RUNNING, pc := User));
    SelfKeepsTable(s.tasks, s.clock, c, t.(pc := InRead));
    SelfKeepsTable(s.tasks, s.clock, c, t.(state := SLEEP, pc := InRead));
    InvAfterSchedule(WithCur(s, t.(pc := InRead)));
    InvAfterSchedule(WithCur(s, t.(state := SLEEP, pc := InRead)));
  }

  lemma ResumeKeepsInv(s: Sys, found: bool)
    requires Inv(s) && Enabled(s, Resume(found))
    ensures Inv(DoResume(s, found))
  {
    var c, t := s.cur, s.tasks[s.cur];
    match t.pc
    case User =>
    case InWait => WaitKeepsInv(s);
    case InWaitpid(p) => if p < |s.tasks| { WaitpidKeepsInv(s, p, false); }
    case InRead => ReadKeepsInv(s, found);
    case InSleep => SelfKeepsTable(s.tasks, s.clock, c, t.(pc := User));
    case Preempted =>
      SelfKeepsTable(s.tasks, s.clock, c, t.(pc := User));
      TickKeepsTable(s.tasks[c := t.(pc := User)], s.clock);
  }

  lemma StepKeepsInv(s: Sys, e: Event)
    requires Inv(s) && Enabled(s, e)
    ensures Inv(Step(s, e))
  {
    hide TableOk;
    var c, ts := s.cur, s.tasks;
    match e
    case Fork => ForkInv(s);
    case Exit =>
      DieKeepsTable(ts, s.clock, c);
      DieIsWellFormed(s, c);
      InvAfterSchedule(s.(tasks := Die(ts, c)));
    case Kill(p) => DieKeepsTable(ts, s.clock, p);
    case Wait => WaitKeepsInv(s);
    case Waitpid(p) => WaitpidKeepsInv(s, p, true);
    case Sleep(n) => SleepInv(s, n);
    case Read(found) => ReadKeepsInv(s, found);
    case Yield => InvAfterSchedule(s);
    case TimerInterrupt => TimerInv(s);
    case EnterKey => EnterInv(s);
    case Resume(found) => ResumeKeepsInv(s, found);
  }

  lemma DieIsWellFormed(s: Sys, p: nat)
    requires Inv(s) && 2 <= p < |s.tasks| && InUse(s.tasks[p])
    ensures WellFormed(s) && WellFormed(s.(tasks := Die(s.tasks, p)))
  {
    DieKeepsTable(s.tasks, s.clock, p);
  }

  lemma ForkInv(s: Sys)
    requires Inv(s) && Enabled(s, Fork)
    ensures Inv(Step(s, Fork))
  {
    ForkKeepsTable(s.tasks, s.clock, s.cur, FirstReady(s.tasks, 0));
  }

  lemma SleepInv(s: Sys, n: nat)
    requires Inv(s) && Enabled(s, Sleep(n))
    ensures Inv(Step(s, Sleep(n)))
  {
    var t := s.tasks[s.cur].(time := n, state := HANG, pc := InSleep);
    SelfKeepsTable(s.tasks, s.clock, s.cur, t);
    InvAfterSchedule(WithCur(s, t));
  }

  lemma TimerInv(s: Sys)
    requires Inv(s) && Enabled(s, TimerInterrupt)
    ensures Inv(Step(s, TimerInterrupt))
  {
    var t := s.tasks[s.cur].(pc := Preempted);
    SelfKeepsTable(s.tasks, s.clock, s.cur, t);
    InvAfterSchedule(WithCur(s, t));
  }

  lemma EnterInv(s: Sys)
    requires Inv(s) && Enabled(s, EnterKey)
    ensures Inv(Step(s, EnterKey))
  {
    var i := FirstSleeper(s.tasks, 0);
    if i >= 0 {
      SelfKeepsTable(s.tasks, s.clock, i, s.tasks[i].(state := RUNNING));
    }
  }

  // ---------- Runs ----------

  ghost predicate ValidRun(s: Sys, events: seq<Event>)
    decreases |events|
  {
    events == [] || (Enabled(s, events[0]) && ValidRun(Step(s, events[0]), events[1..]))
  }

  ghost function Run(s: Sys, events: seq<Event>): Sys
    requires ValidRun(s, events)
    decreases |events|
  {
    if events == [] then s else Run(Step(s, events[0]), events[1..])
  }

  /** In every state of every run the table is in order. */
  lemma {:induction false} RunKeepsInv(s: Sys, events: seq<Event>)
    requires Inv(s) && ValidRun(s, events)
    ensures Inv(Run(s, events))
    decreases |events|
  {
    hide Inv, Enabled, Step;
    if events != [] {
      StepKeepsInv(s, events[0]);
      RunKeepsInv(Step(s, events[0]), events[1..]);
    }
  }

  /** The table at the first user instruction: init, idle and the shell, every other slot free. */
  function BootTask(i: nat): Task {
    if i <= 2 then Task(RUNNING, INIT, 0, User, i, 1, 0) else Task(READY, INIT, 0, User, 0, 0, 0)
  }

  function Boot(max: nat): Sys
    requires max >= 3
  {
    Sys(seq(max, i requires 0 <= i < max => BootTask(i)), 2, 0, 0, 3)
  }

  lemma BootIsOk(max: nat)
    requires max >= 3
    ensures Inv(Boot(max))
  {
  }

  // ---------- Consequences ----------

  /** `k` steps from `i` along ppid lead to init. */
  predicate ReachesInit(ts: seq<Task>, i: nat, k: nat)
    decreases k
  {
    i < |ts| && (i == INIT || (k > 0 && ReachesInit(ts, ts[i].ppid, k - 1)))
  }

  /** The ppid relation on the slots in use is a forest under init: no process is its own ancestor. */
  lemma {:induction false} AncestorsEndAtInit(s: Sys, i: nat)
    requires Inv(s) && i < |s.tasks| && InUse(s.tasks[i])
    ensures ReachesInit(s.tasks, i, s.tasks[i].born)
    decreases s.tasks[i].born
  {
    if i != INIT {
      var p := s.tasks[i].ppid;
      assert ParentOk(s.tasks, i);
      AncestorsEndAtInit(s, p);
      ReachesLonger(s.tasks, p, s.tasks[p].born, s.tasks[i].born - 1);
    }
  }

  lemma ReachesLonger(ts: seq<Task>, i: nat, k: nat, k': nat)
    requires ReachesInit(ts, i, k) && k <= k'
    ensures ReachesInit(ts, i, k')
    decreases k
  {
    if i != INIT {
      ReachesLonger(ts, ts[i].ppid, k - 1, k' - 1);
    }
  }

  /** What holds in the state a run from boot leads to, in the words of the kernel. */
  lemma Guarantees(max: nat, events: seq<Event>)
    requires max >= 3 && ValidRun(Boot(max), events)
    ensures var s := Run(Boot(max), events); var ts := s.tasks;
            && s.cur < |ts| == max && ts[s.cur].state == RUNNING
            && (forall i :: 0 <= i < max && InUse(ts[i]) ==>
                  ts[i].ppid < max && ts[ts[i].ppid].state in {RUNNING, SLEEP, WAIT, HANG})
            && (forall i, k :: 0 <= i < max && 0 <= k < max && !InUse(ts[i]) && InUse(ts[k]) ==> ts[k].ppid != i)
            && (forall i, k :: 1 <= i < max && 0 <= k < max && WaitsFor(ts[i], k) ==> !ZombieChild(ts[k], i))
            && (forall i :: 0 <= i < max ==> ts[i].reaps <= ts[i].births <= ts[i].reaps + 1)
            && (forall i :: 0 <= i < max && InUse(ts[i]) ==> ReachesInit(ts, i, ts[i].born))
  {
    BootIsOk(max);
    RunKeepsInv(Boot(max), events);
    RunKeepsSize(Boot(max), events);
    var s := Run(Boot(max), events);
    InvMeans(s);
    hide Inv, ReachesInit;
    forall i | 0 <= i < max && InUse(s.tasks[i]) ensures ReachesInit(s.tasks, i, s.tasks[i].born) {
      AncestorsEndAtInit(s, i);
    }
  }

  lemma {:induction false} RunKeepsSize(s: Sys, events: seq<Event>)
    requires ValidRun(s, events)
    ensures |Run(s, events).tasks| == |s.tasks|
    decreases |events|
  {
    if events != [] { RunKeepsSize(Step(s, events[0]), events[1..]); }
  }

  /** The parts of the invariant, one by one. */
  lemma InvMeans(s: Sys)
    requires Inv(s)
    ensures s.cur < |s.tasks| && s.tasks[s.cur].state == RUNNING
    ensures forall i :: 0 <= i < |s.tasks| && InUse(s.tasks[i]) ==>
              s.tasks[i].ppid < |s.tasks| && Alive(s.tasks[s.tasks[i].ppid])
    ensures forall i, k :: 0 <= i < |s.tasks| && 0 <= k < |s.tasks| && !InUse(s.tasks[i]) && InUse(s.tasks[k]) ==>
              s.tasks[k].ppid != i
    ensures forall i, k :: 1 <= i < |s.tasks| && 0 <= k < |s.tasks| && WaitsFor(s.tasks[i], k) ==>
              !ZombieChild(s.tasks[k], i)
    ensures forall i :: 0 <= i < |s.tasks| ==> s.tasks[i].reaps <= s.tasks[i].births <= s.tasks[i].reaps + 1
  {
    assert s.cur < |s.tasks| && s.tasks[s.cur].state == RUNNING;
    hide Inv;
    forall i | 0 <= i < |s.tasks|
      ensures InUse(s.tasks[i]) ==> s.tasks[i].ppid < |s.tasks| && Alive(s.tasks[s.tasks[i].ppid])
      ensures s.tasks[i].reaps <= s.tasks[i].births <= s.tasks[i].reaps + 1
    {
      SlotMeans(s, i);
    }
    forall i, k | 1 <= i < |s.tasks| && 0 <= k < |s.tasks| && WaitsFor(s.tasks[i], k)
      ensures !ZombieChild(s.tasks[k], i)
    {
      WaiterMeans(s, i, k);
    }
  }

  lemma SlotMeans(s: Sys, i: nat)
    requires Inv(s) && i < |s.tasks|
    ensures InUse(s.tasks[i]) ==> s.tasks[i].ppid < |s.tasks| && Alive(s.tasks[s.tasks[i].ppid])
    ensures s.tasks[i].reaps <= s.tasks[i].births <= s.tasks[i].reaps + 1
  {
    assert ParentOk(s.tasks, i) && SlotOk(s.tasks[i], s.clock);
  }

  lemma WaiterMeans(s: Sys, i: nat, k: nat)
    requires Inv(s) && 1 <= i < |s.tasks| && k < |s.tasks| && WaitsFor(s.tasks[i], k)
    ensures !ZombieChild(s.tasks[k], i)
  {
    assert WaiterOk(s.tasks, i, k);
  }

  // ---------- Where the guarantees stop ----------

  /**
   kill takes any pid.  It keeps the invariant exactly for a process in use other than
   init, idle and the caller.
   */
  lemma KillKeepsInvIff(s: Sys, p: nat)
    requires Inv(s) && s.cur >= 2 && p < |s.tasks|
    ensures Inv(s.(tasks := Die(s.tasks, p))) <==> p >= 2 && p != s.cur && InUse(s.tasks[p])
  {
    var ts, r := s.tasks, Die(s.tasks, p);
    assert SlotOk(ts[p], s.clock) && ParentOk(ts, s.cur);
    if p >= 2 && InUse(ts[p]) {
      DieKeepsTable(ts, s.clock, p);
      KilledIsZombie(s, p);
    } else if p >= 2 {
      FreeSlotKilled(s, p);
    }
  }

  lemma KilledIsZombie(s: Sys, p: nat)
    requires Inv(s) && 2 <= p < |s.tasks| && InUse(s.tasks[p])
    ensures Die(s.tasks, p)[p].state == ZOMBIE
  {
    assert ParentOk(s.tasks, p);
    DieAt(s.tasks, p, s.tasks[p].ppid, p);
  }

  /** Killing a free slot makes a zombie nobody created: it would be reaped once too often. */
  lemma FreeSlotKilled(s: Sys, p: nat)
    requires Inv(s) && 2 <= p < |s.tasks| && !InUse(s.tasks[p])
    ensures Die(s.tasks, p)[p].state == ZOMBIE && Die(s.tasks, p)[p].births == Die(s.tasks, p)[p].reaps
    ensures !Inv(s.(tasks := Die(s.tasks, p)))
  {
    assert SlotOk(s.tasks[p], s.clock);
    var r := Die(s.tasks, p);
    assert !SlotOk(r[p], s.clock);
  }

  /** A process that kills itself runs on; the child it forks next has a dead parent. */
  lemma SelfKillOrphans(s: Sys)
    requires Inv(s) && Enabled(s, Fork)
    ensures var s1 := s.(tasks := Die(s.tasks, s.cur));
            && WellFormed(s1) && FirstReady(s1.tasks, 0) >= 0
            && var ts := DoFork(s1).tasks;
               var i := FirstReady(s1.tasks, 0);
               InUse(ts[i]) && !Alive(ts[ts[i].ppid])
  {
    var c, q, i := s.cur, s.tasks[s.cur].ppid, FirstReady(s.tasks, 0);
    assert ParentOk(s.tasks, c) && q != c;
    DieIsWellFormed(s, c);
    hide Inv, Die;
    var r := Die(s.tasks, c);
    forall k | 0 <= k < |r| ensures r[k].state == READY <==> k != c && s.tasks[k].state == READY {
      DieAt(s.tasks, c, q, k);
    }
    DieAt(s.tasks, c, q, c);
    assert r[i].state == READY;
  }

  // ---------- Round robin ----------

  /** Scheduling past `t` brings it nearer. */
  lemma NextIsNearer(ts: seq<Task>, cur: nat, t: nat)
    requires cur < |ts| && t < |ts| && t != cur && ts[t].state == RUNNING
    ensures var n := Next(ts, cur); n != cur && Distance(|ts|, n, t) < Distance(|ts|, cur, t)
  {
    NextFromIsNearer(ts, cur, 1, t);
  }

  lemma NextFromIsNearer(ts: seq<Task>, cur: nat, d: nat, t: nat)
    requires cur < |ts| && t < |ts| && t != cur && ts[t].state == RUNNING && 1 <= d <= Distance(|ts|, cur, t)
    ensures var n := NextFrom(ts, cur, d); n != cur && Distance(|ts|, n, t) < Distance(|ts|, cur, t)
    decreases |ts| - d
  {
    if ts[After(|ts|, cur, d)].state != RUNNING {
      assert After(|ts|, cur, d) != t;
      NextFromIsNearer(ts, cur, d + 1, t);
    }
  }

  /** `curs` are the current processes between calls of schedule() on the tables `tables`. */
  ghost predicate Scheduling(tables: seq<seq<Task>>, curs: seq<nat>, max: nat) {
    && |curs| == |tables| + 1 && curs[0] < max
    && (forall i :: 0 <= i < |tables| ==> |tables[i]| == max)
    && (forall i :: 0 <= i < |tables| ==> curs[i] < max && curs[i + 1] == Next(tables[i], curs[i]))
  }

  /**
   A process that stays running becomes current within max - 1 calls of schedule(),
   whatever happens to the others between the calls.
   */
  lemma {:induction false} BoundedBypass(tables: seq<seq<Task>>, curs: seq<nat>, max: nat, t: nat) returns (k: nat)
    requires Scheduling(tables, curs, max) && t < max && |tables| >= Distance(max, curs[0], t)
    requires forall i :: 0 <= i < |tables| ==> tables[i][t].state == RUNNING
    ensures k <= Distance(max, curs[0], t) <= max - 1 && k < |curs| && curs[k] == t
    decreases |tables|
  {
    if curs[0] == t {
      k := 0;
    } else {
      NextIsNearer(tables[0], curs[0], t);
      assert curs[1] == Next(tables[0], curs[0]);
      assert Scheduling(tables[1..], curs[1..], max) by { SchedulingTail(tables, curs, max); }
      var k' := BoundedBypass(tables[1..], curs[1..], max, t);
      k := k' + 1;
    }
  }

  lemma SchedulingTail(tables: seq<seq<Task>>, curs: seq<nat>, max: nat)
    requires Scheduling(tables, curs, max) && tables != []
    ensures Scheduling(tables[1..], curs[1..], max)
  {
    assert curs[1] == Next(tables[0], curs[0]);
    var ts, cs := tables[1..], curs[1..];
    forall i | 0 <= i < |ts| ensures |ts[i]| == max && cs[i] < max && cs[i + 1] == Next(ts[i], cs[i]) {
      assert ts[i] == tables[i + 1] && cs[i] == curs[i + 1] && cs[i + 1] == curs[i + 2];
      assert curs[i + 1 + 1] == Next(tables[i + 1], curs[i + 1]);
    }
  }
}
