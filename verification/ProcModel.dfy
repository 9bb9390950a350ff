/**
 The process table as a state machine.  Kernel code runs with interrupts off, so each
 stretch between two calls of schedule() is one step; `pc` says where a process that is
 inside the kernel goes on when it is scheduled again.
 */
module ProcModel {

  datatype State = RUNNING | SLEEP | ZOMBIE | IDLE | READY | WAIT | HANG

  datatype Pc = User | InWait | InWaitpid(child: nat) | InRead | InSleep | Preempted

  /**
   One slot; its pid is its index.  `born`, `births` and `reaps` are bookkeeping the
   kernel does not do: when the process was created, and how often the slot has been
   filled and reaped.
   */
  datatype Task = Task(state: State, ppid: nat, time: nat, pc: Pc, born: nat, births: nat, reaps: nat)

  /** `clock` numbers the processes; `ticks` is timerCount; `lines` is lineCount. */
  datatype Sys = Sys(tasks: seq<Task>, cur: nat, lines: nat, ticks: nat, clock: nat)

  const INIT: nat := 0
  const IDLE_TASK: nat := 1

  predicate InUse(t: Task) {
    t.state != READY
  }

  /** stillAlive of sys/process.c. */
  predicate Alive(t: Task) {
    t.state == RUNNING || t.state == SLEEP || t.state == WAIT || t.state == HANG
  }

  // ---------- The kernel's loops over the table ----------

  /** newPID: the first free slot at or after `i`, or -1. */
  function FirstReady(ts: seq<Task>, i: nat): (r: int)
    requires i <= |ts|
    ensures r == -1 || (i <= r < |ts| && ts[r].state == READY && forall k :: i <= k < r ==> ts[k].state != READY)
    ensures r == -1 <==> forall k :: i <= k < |ts| ==> ts[k].state != READY
    decreases |ts| - i
  {
    if i == |ts| then -1 else if ts[i].state == READY then i else FirstReady(ts, i + 1)
  }

  predicate ZombieChild(t: Task, parent: nat) {
    t.ppid == parent && t.state == ZOMBIE
  }

  /** The first zombie child of `parent` at or after slot `i`, or -1. */
  function FirstZombie(ts: seq<Task>, parent: nat, i: nat): (r: int)
    requires i <= |ts|
    ensures r == -1 || (i <= r < |ts| && ZombieChild(ts[r], parent))
    ensures forall k :: i <= k < r ==> !ZombieChild(ts[k], parent)
    ensures r == -1 <==> forall k :: i <= k < |ts| ==> !ZombieChild(ts[k], parent)
    decreases |ts| - i
  {
    if i == |ts| then -1 else if ZombieChild(ts[i], parent) then i else FirstZombie(ts, parent, i + 1)
  }

  /** wake_process: the first sleeping reader at or after `i`, or -1. */
  function FirstSleeper(ts: seq<Task>, i: nat): (r: int)
    requires i <= |ts|
    ensures r == -1 || (i <= r < |ts| && ts[r].state == SLEEP && forall k :: i <= k < r ==> ts[k].state != SLEEP)
    ensures r == -1 <==> forall k :: i <= k < |ts| ==> ts[k].state != SLEEP
    decreases |ts| - i
  {
    if i == |ts| then -1 else if ts[i].state == SLEEP then i else FirstSleeper(ts, i + 1)
  }

  /** Children of `p` become children of init. */
  function Orphan(t: Task, p: nat): Task {
    if t.ppid == p then t.(ppid := INIT) else t
  }

  function Reparent(ts: seq<Task>, p: nat): (r: seq<Task>)
    ensures |r| == |ts| && forall i :: 0 <= i < |ts| ==> r[i] == Orphan(ts[i], p)
  {
    seq(|ts|, i requires 0 <= i < |ts| => Orphan(ts[i], p))
  }

  function Wake(ts: seq<Task>, q: nat): seq<Task>
    requires q < |ts|
  {
    if ts[q].state == WAIT then ts[q := ts[q].(state := RUNNING)] else ts
  }

  /** What exit and kill share: `p` turns zombie, its children go to init, its parent wakes. */
  function Die(ts: seq<Task>, p: nat): (r: seq<Task>)
    requires p < |ts| && forall i :: 0 <= i < |ts| ==> ts[i].ppid < |ts|
    ensures |r| == |ts|
  {
    var t := Reparent(ts[p := ts[p].(state := ZOMBIE)], p);
    Wake(t, t[p].ppid)
  }

  /** removeProcess and the state change behind it. */
  function ReapSlot(ts: seq<Task>, i: nat): seq<Task>
    requires i < |ts|
  {
    ts[i := ts[i].(state := READY, reaps := ts[i].reaps + 1)]
  }

  /** One slot in taskTimer. */
  function Tick(t: Task): Task {
    var t1 := if t.state == HANG && t.time > 0 then t.(time := t.time - 1) else t;
    if t1.state == HANG && t1.time == 0 then t1.(state := RUNNING) else t1
  }

  function TickAll(ts: seq<Task>): (r: seq<Task>)
    ensures |r| == |ts| && forall i :: 0 <= i < |ts| ==> r[i] == Tick(ts[i])
  {
    seq(|ts|, i requires 0 <= i < |ts| => Tick(ts[i]))
  }

  // ---------- schedule ----------

  /** The slot `d` places after `cur`, going round. */
  function After(n: nat, cur: nat, d: nat): nat
    requires cur < n && d <= n
  {
    if cur + d < n then cur + d else cur + d - n
  }

  /** The first running slot at distance `d` or more behind `cur`, or `cur` itself. */
  function NextFrom(ts: seq<Task>, cur: nat, d: nat): (r: nat)
    requires cur < |ts| && 1 <= d <= |ts|
    ensures r < |ts| && (r == cur || ts[r].state == RUNNING)
    decreases |ts| - d
  {
    if d == |ts| then cur
    else if ts[After(|ts|, cur, d)].state == RUNNING then After(|ts|, cur, d)
    else NextFrom(ts, cur, d + 1)
  }

  function Next(ts: seq<Task>, cur: nat): nat
    requires cur < |ts|
  {
    NextFrom(ts, cur, 1)
  }

  // ---------- Steps ----------

  /**
   The steps of the current process, and the interrupts that can reach it in user mode.
   `found` tells whether the scan of the input buffer meets a newline.
   */
  datatype Event =
    | Fork
    | Exit
    | Kill(pid: nat)
    | Wait
    | Waitpid(pid: nat)
    | Sleep(seconds: nat)
    | Read(found: bool)
    | Yield
    | TimerInterrupt
    | EnterKey
    | Resume(found: bool)

  predicate WellFormed(s: Sys) {
    |s.tasks| >= 2 && s.cur < |s.tasks| && forall i :: 0 <= i < |s.tasks| ==> s.tasks[i].ppid < |s.tasks|
  }

  /**
   init only waits and idle only yields; kill is limited to processes in use other than
   init, idle and the caller; fork needs a free slot.
   */
  predicate Enabled(s: Sys, e: Event) {
    && WellFormed(s)
    && (e.Resume? <==> s.tasks[s.cur].pc != User)
    && match e
       case Fork => s.cur >= 2 && FirstReady(s.tasks, 0) >= 0
       case Exit => s.cur >= 2
       case Kill(p) => s.cur >= 2 && 2 <= p < |s.tasks| && p != s.cur && InUse(s.tasks[p])
       case Wait => s.cur != IDLE_TASK
       case Waitpid(p) => s.cur >= 2 && p < |s.tasks|
       case Sleep(_) => s.cur >= 2
       case Read(_) => s.cur >= 2
       case Yield => s.cur == IDLE_TASK
       case TimerInterrupt => true
       case EnterKey => true
       case Resume(_) => true
  }

  function Scheduled(s: Sys): Sys
    requires WellFormed(s)
  {
    s.(cur := Next(s.tasks, s.cur))
  }

  function WithCur(s: Sys, t: Task): Sys
    requires WellFormed(s)
  {
    s.(tasks := s.tasks[s.cur := t])
  }

  /** wait(), from its top or behind its schedule(): both scan and then sleep or return. */
  function DoWait(s: Sys): Sys
    requires WellFormed(s)
  {
    var i := FirstZombie(s.tasks, s.cur, 0);
    if i >= 0 then
      var ts := ReapSlot(s.tasks, i);
      s.(tasks := ts[s.cur := ts[s.cur].(pc := User)])
    else Scheduled(WithCur(s, s.tasks[s.cur].(state := WAIT, pc := InWait)))
  }

  /** waitpid(p); only its first pass sets the state to WAIT. */
  function DoWaitpid(s: Sys, p: nat, first: bool): Sys
    requires WellFormed(s) && p < |s.tasks|
  {
    if ZombieChild(s.tasks[p], s.cur) then
      var ts := ReapSlot(s.tasks, p);
      s.(tasks := ts[s.cur := ts[s.cur].(pc := User)])
    else
      var t := s.tasks[s.cur].(pc := InWaitpid(p));
      Scheduled(WithCur(s, if first then t.(state := WAIT) else t))
  }

  /** One turn of intRead's loop. */
  function DoRead(s: Sys, found: bool): Sys
    requires WellFormed(s)
  {
    var t := s.tasks[s.cur];
    if s.lines > 0 && found then
      WithCur(s, t.(state := RUNNING, pc := User)).(lines := s.lines - 1)
    else if s.lines > 0 then Scheduled(WithCur(s, t.(pc := InRead)))
    else Scheduled(WithCur(s, t.(state := SLEEP, pc := InRead)))
  }

  function DoFork(s: Sys): Sys
    requires WellFormed(s) && FirstReady(s.tasks, 0) >= 0
  {
    var i := FirstReady(s.tasks, 0);
    var t := s.tasks[i];
    s.(tasks := s.tasks[i := Task(RUNNING, s.cur, t.time, User, s.clock, t.births + 1, t.reaps)], clock := s.clock + 1)
  }

  function DoResume(s: Sys, found: bool): Sys
    requires WellFormed(s)
  {
    var t := s.tasks[s.cur];
    match t.pc
    case User => s
    case InWait => DoWait(s)
    case InWaitpid(p) => if p < |s.tasks| then DoWaitpid(s, p, false) else s
    case InRead => DoRead(s, found)
    case InSleep => WithCur(s, t.(pc := User))
    case Preempted => s.(tasks := TickAll(s.tasks[s.cur := t.(pc := User)]), ticks := 0)
  }

  function Step(s: Sys, e: Event): Sys
    requires Enabled(s, e)
  {
    var t := s.tasks[s.cur];
    match e
    case Fork => DoFork(s)
    case Exit => Scheduled(s.(tasks := Die(s.tasks, s.cur)))
    case Kill(p) => s.(tasks := Die(s.tasks, p))
    case Wait => DoWait(s)
    case Waitpid(p) => DoWaitpid(s, p, true)
    case Sleep(n) =>
      if n == 0 then s else Scheduled(WithCur(s, t.(time := n, state := HANG, pc := InSleep)))
    case Read(found) => DoRead(s, found)
    case Yield => Scheduled(s)
    case TimerInterrupt =>
      if s.ticks + 1 == 20 then Scheduled(WithCur(s, t.(pc := Preempted))).(ticks := 20)
      else s.(ticks := s.ticks + 1)
    case EnterKey =>
      var i := FirstSleeper(s.tasks, 0);
      var s1 := s.(lines := s.lines + 1);
      if i >= 0 then s1.(tasks := s.tasks[i := s.tasks[i].(state := RUNNING)]) else s1
    case Resume(found) => DoResume(s, found)
  }
}
