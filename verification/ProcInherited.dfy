/**
 When init sleeps through a zombie child.  exit and kill wake the parent of the process
 that dies, but not init, the new parent of its children: that is the one way it happens.
 */
module ProcInherited {
  import opened ProcModel
  import opened ProcInvariant

  predicate HasZombie(ts: seq<Task>, parent: nat) {
    exists k :: 0 <= k < |ts| && ZombieChild(ts[k], parent)
  }

  /** init sleeps in wait() while it has a zombie child. */
  predicate InitMisses(ts: seq<Task>) {
    ts != [] && ts[INIT].state == WAIT && HasZombie(ts, INIT)
  }

  /** Process `p` has a zombie child, and its own parent is not init, which sleeps in wait(). */
  predicate LeavesZombie(ts: seq<Task>, p: nat)
    requires p < |ts|
  {
    ts[INIT].state == WAIT && ts[p].ppid != INIT && exists k :: 0 <= k < |ts| && k != p && ZombieChild(ts[k], p)
  }

  /** The step ends a process that leaves a zombie to the sleeping init. */
  predicate Abandons(s: Sys, e: Event) {
    || (e == Exit && s.cur < |s.tasks| && LeavesZombie(s.tasks, s.cur))
    || (e.Kill? && e.pid < |s.tasks| && LeavesZombie(s.tasks, e.pid))
  }

  // ---------- One step ----------

  lemma DieZombie(s: Sys, p: nat, k: nat)
    requires Inv(s) && 2 <= p < |s.tasks| && InUse(s.tasks[p]) && k < |s.tasks|
    ensures |Die(s.tasks, p)| == |s.tasks|
    ensures ZombieChild(Die(s.tasks, p)[k], INIT) <==>
      (k == p || s.tasks[k].state == ZOMBIE) && (s.tasks[k].ppid == INIT || s.tasks[k].ppid == p)
  {
    assert ParentOk(s.tasks, p);
    DieAt(s.tasks, p, s.tasks[p].ppid, k);
  }

  lemma DieInit(s: Sys, p: nat)
    requires Inv(s) && 2 <= p < |s.tasks| && InUse(s.tasks[p])
    ensures |Die(s.tasks, p)| == |s.tasks|
    ensures Die(s.tasks, p)[INIT].state == WAIT <==> s.tasks[INIT].state == WAIT && s.tasks[p].ppid != INIT
    ensures s.tasks[p].ppid != p && forall i :: 0 <= i < |s.tasks| ==> s.tasks[i].ppid < |s.tasks|
  {
    assert ParentOk(s.tasks, p);
    DieAt(s.tasks, p, s.tasks[p].ppid, INIT);
  }

  lemma DieMisses(s: Sys, p: nat)
    requires Inv(s) && 2 <= p < |s.tasks| && InUse(s.tasks[p]) && !InitMisses(s.tasks)
    ensures InitMisses(Die(s.tasks, p)) <==> LeavesZombie(s.tasks, p)
  {
    hide Inv, Die;
    DieInit(s, p);
    var ts, r := s.tasks, Die(s.tasks, p);
    if InitMisses(r) {
      var k :| 0 <= k < |r| && ZombieChild(r[k], INIT);
      DieZombie(s, p, k);
      assert forall j :: 0 <= j < |ts| ==> !ZombieChild(ts[j], INIT);
      assert k != p && ZombieChild(ts[k], p);
    }
    if LeavesZombie(ts, p) {
      var k :| 0 <= k < |ts| && k != p && ZombieChild(ts[k], p);
      DieZombie(s, p, k);
    }
  }

  /** A table in which init is as it was, or does not wait, and has no new zombie child. */
  lemma NoNewZombie(a: seq<Task>, b: seq<Task>)
    requires a != [] && |a| == |b| && !InitMisses(a)
    requires b[INIT].state == WAIT ==> a[INIT].state == WAIT
    requires forall k :: 0 <= k < |a| && ZombieChild(b[k], INIT) ==> ZombieChild(a[k], INIT)
    ensures !InitMisses(b)
  {
    if HasZombie(b, INIT) {
      var k :| 0 <= k < |b| && ZombieChild(b[k], INIT);
      assert ZombieChild(a[k], INIT);
    }
  }

  lemma WaitMisses(s: Sys)
    requires Inv(s) && !InitMisses(s.tasks)
    ensures WellFormed(s) && !InitMisses(DoWait(s).tasks)
  {
    var c, i := s.cur, FirstZombie(s.tasks, s.cur, 0);
    if i >= 0 {
      NoNewZombie(s.tasks, DoWait(s).tasks);
    } else if c == INIT {
      assert !HasZombie(s.tasks, INIT);
      assert forall k :: 0 <= k < |s.tasks| ==> !ZombieChild(DoWait(s).tasks[k], INIT);
    } else {
      NoNewZombie(s.tasks, DoWait(s).tasks);
    }
  }

  /** The current process changes its slot, without turning zombie or, as init, waiting. */
  lemma SelfMisses(s: Sys, t: Task)
    requires Inv(s) && !InitMisses(s.tasks) && t.state != ZOMBIE && (s.cur == INIT ==> t.state != WAIT)
    ensures !InitMisses(s.tasks[s.cur := t])
  {
    NoNewZombie(s.tasks, s.tasks[s.cur := t]);
  }

  lemma ResumeMisses(s: Sys, found: bool)
    requires Inv(s) && Enabled(s, Resume(found)) && !InitMisses(s.tasks)
    ensures !InitMisses(DoResume(s, found).tasks)
  {
    var c, t := s.cur, s.tasks[s.cur];
    match t.pc
    case User =>
    case InWait => WaitMisses(s);
    case InWaitpid(p) => if p < |s.tasks| { NoNewZombie(s.tasks, DoWaitpid(s, p, false).tasks); }
    case InRead => NoNewZombie(s.tasks, DoRead(s, found).tasks);
    case InSleep => SelfMisses(s, t.(pc := User));
    case Preempted => NoNewZombie(s.tasks, TickAll(s.tasks[c := t.(pc := User)]));
  }

  lemma ForkMisses(s: Sys)
    requires Inv(s) && Enabled(s, Fork) && !InitMisses(s.tasks)
    ensures !InitMisses(DoFork(s).tasks)
  {
    NoNewZombie(s.tasks, DoFork(s).tasks);
  }

  lemma ReadMisses(s: Sys, found: bool)
    requires WellFormed(s) && s.cur >= 2 && !InitMisses(s.tasks)
    ensures !InitMisses(DoRead(s, found).tasks)
  {
    NoNewZombie(s.tasks, DoRead(s, found).tasks);
  }

  lemma WaitpidMisses(s: Sys, p: nat, first: bool)
    requires WellFormed(s) && s.cur >= 2 && p < |s.tasks| && !InitMisses(s.tasks)
    ensures !InitMisses(DoWaitpid(s, p, first).tasks)
  {
    NoNewZombie(s.tasks, DoWaitpid(s, p, first).tasks);
  }

  lemma EnterMisses(s: Sys)
    requires WellFormed(s) && Enabled(s, EnterKey) && !InitMisses(s.tasks)
    ensures !InitMisses(Step(s, EnterKey).tasks)
  {
    NoNewZombie(s.tasks, Step(s, EnterKey).tasks);
  }

  lemma CurrentRuns(s: Sys)
    requires Inv(s)
    ensures s.tasks[s.cur].state == RUNNING
  {
  }

  /** init comes to sleep over a zombie child exactly when a step abandons one to it. */
  lemma StepMissesIff(s: Sys, e: Event)
    requires Inv(s) && Enabled(s, e) && !InitMisses(s.tasks)
    ensures InitMisses(Step(s, e).tasks) <==> Abandons(s, e)
  {
    hide Inv, InitMisses, DoFork, DoRead, DoWait, DoWaitpid, DoResume, LeavesZombie;
    var c, t := s.cur, s.tasks[s.cur];
    assert WellFormed(s) && (e.Kill? ==> 2 <= e.pid < |s.tasks| && InUse(s.tasks[e.pid]));
    assert t.state == RUNNING by { CurrentRuns(s); }
    match e
    case Fork => ForkMisses(s);
    case Exit => DieMisses(s, c);
    case Kill(p) => DieMisses(s, p);
    case Wait => WaitMisses(s);
    case Waitpid(p) => WaitpidMisses(s, p, true);
    case Sleep(n) => if n > 0 { SelfMisses(s, t.(time := n, state := HANG, pc := InSleep)); }
    case Read(found) => ReadMisses(s, found);
    case Yield =>
    case TimerInterrupt => SelfMisses(s, t.(pc := Preempted));
    case EnterKey => EnterMisses(s);
    case Resume(found) => ResumeMisses(s, found);
  }

  // ---------- Whole runs ----------

  /** In no state of the run does init sleep over a zombie child. */
  ghost predicate NeverMisses(s: Sys, events: seq<Event>)
    requires ValidRun(s, events)
    decreases |events|
  {
    && !InitMisses(s.tasks)
    && (events == [] || NeverMisses(Step(s, events[0]), events[1..]))
  }

  /** No step of the run abandons a zombie to a sleeping init. */
  ghost predicate NeverAbandons(s: Sys, events: seq<Event>)
    requires ValidRun(s, events)
    decreases |events|
  {
    events == [] || (!Abandons(s, events[0]) && NeverAbandons(Step(s, events[0]), events[1..]))
  }

  lemma {:induction false} RunMissesIff(s: Sys, events: seq<Event>)
    requires Inv(s) && ValidRun(s, events) && !InitMisses(s.tasks)
    ensures NeverMisses(s, events) <==> NeverAbandons(s, events)
    decreases |events|
  {
    hide Enabled, Step, Abandons, InitMisses;
    if events != [] {
      StepKeepsInv(s, events[0]);
      StepMissesIff(s, events[0]);
      var s' := Step(s, events[0]);
      if !InitMisses(s'.tasks) { RunMissesIff(s', events[1..]); }
    }
  }

  /** From boot on, init's wait() has the guarantee of the others in exactly the runs that abandon no zombie. */
  lemma InitIsGuaranteedIff(max: nat, events: seq<Event>)
    requires max >= 3 && ValidRun(Boot(max), events)
    ensures NeverMisses(Boot(max), events) <==> NeverAbandons(Boot(max), events)
  {
    BootIsOk(max);
    RunMissesIff(Boot(max), events);
  }
}
