/**
 Runs from boot that reach the states where a guarantee stops: init sleeping through a
 zombie it has inherited, and a line of input stranded by a kill.
 */
module ProcRuns {
  import opened ProcModel
  import opened ProcInvariant
  import opened ProcInherited
  import opened ProcReaders

  // ---------- Tools ----------

  /** The first running slot behind `cur` is next. */
  lemma NextFromIs(ts: seq<Task>, cur: nat, e: nat, d: nat)
    requires cur < |ts| && 1 <= e <= d < |ts| && ts[After(|ts|, cur, d)].state == RUNNING
    requires forall k :: e <= k < d ==> ts[After(|ts|, cur, k)].state != RUNNING
    ensures NextFrom(ts, cur, e) == After(|ts|, cur, d)
    decreases d - e
  {
    if e < d { NextFromIs(ts, cur, e + 1, d); }
  }

  lemma RunCons(s: Sys, e: Event, s': Sys, events: seq<Event>)
    requires Enabled(s, e) && Step(s, e) == s' && ValidRun(s', events)
    ensures ValidRun(s, [e] + events) && Run(s, [e] + events) == Run(s', events)
  {
    hide Enabled, Step;
    assert ([e] + events)[1..] == events;
  }

  // ---------- Init asleep over a zombie ----------

  // The processes: init and the shell, awake and waiting; 3, forked by the shell; 4, forked by 3.

  function Waiting(t: Task): Task { t.(state := WAIT, pc := InWait) }

  const SHELL: Task := Task(RUNNING, 0, 0, User, 2, 1, 0)
  const CHILD: Task := Task(RUNNING, 2, 0, User, 3, 1, 0)
  const READER: Task := CHILD.(state := SLEEP, pc := InRead)
  const GRANDCHILD: Task := Task(RUNNING, 3, 0, User, 4, 1, 0)
  const DEAD: Task := GRANDCHILD.(state := ZOMBIE)

  function Five(init: Task, shell: Task, b: Task, c: Task, cur: nat, lines: nat, clock: nat): Sys {
    Sys([init, BootTask(1), shell, b, c], cur, lines, 0, clock)
  }

  function State(i: nat): Sys
    requires i <= 10
  {
    var init := BootTask(0);
    if i == 0 then Five(init, SHELL, BootTask(3), BootTask(4), 2, 0, 3)
    else if i == 1 then Five(init, SHELL, CHILD, BootTask(4), 2, 0, 4)
    else if i == 2 then Five(init, Waiting(SHELL), CHILD, BootTask(4), 3, 0, 4)
    else if i == 3 then Five(init, Waiting(SHELL), CHILD, GRANDCHILD, 3, 0, 5)
    else if i == 4 then Five(init, Waiting(SHELL), READER, GRANDCHILD, 4, 0, 5)
    else if i == 5 then Five(init, Waiting(SHELL), READER, DEAD, 0, 0, 5)
    else if i == 6 then Five(Waiting(init), Waiting(SHELL), READER, DEAD, 1, 0, 5)
    else if i == 7 then Five(Waiting(init), Waiting(SHELL), READER.(state := RUNNING), DEAD, 1, 1, 5)
    else if i == 8 then Five(Waiting(init), Waiting(SHELL), READER.(state := RUNNING), DEAD, 3, 1, 5)
    else if i == 9 then Five(Waiting(init), Waiting(SHELL), CHILD, DEAD, 3, 0, 5)
    else Five(Waiting(init), Waiting(SHELL).(state := RUNNING), CHILD.(state := ZOMBIE), DEAD.(ppid := INIT), 1, 0, 5)
  }

  const EVENTS: seq<Event> := [Fork, Wait, Fork, Read(true), Exit, Wait, EnterKey, Yield, Resume(true), Exit]

  lemma StepIs(i: nat)
    requires i < 10
    ensures Enabled(State(i), EVENTS[i]) && Step(State(i), EVENTS[i]) == State(i + 1)
  {
    hide Enabled, Step, State;
    match i
    case 0 => Step0();
    case 1 => Step1();
    case 2 => Step2();
    case 3 => Step3();
    case 4 => Step4();
    case 5 => Step5();
    case 6 => Step6();
    case 7 => Step7();
    case 8 => Step8();
    case 9 => Step9();
  }

  lemma Step0()
    ensures Enabled(State(0), Fork) && Step(State(0), Fork) == State(1)
  {
    var ts := State(0).tasks;
    assert FirstReady(ts, 3) == 3 && FirstReady(ts, 1) == 3;
  }

  lemma Step1()
    ensures Enabled(State(1), Wait) && Step(State(1), Wait) == State(2)
  {
    var ts := State(1).tasks;
    NextFromIs(ts[2 := Waiting(SHELL)], 2, 1, 1);
  }

  lemma Step2()
    ensures Enabled(State(2), Fork) && Step(State(2), Fork) == State(3)
  {
  }

  lemma Step3()
    ensures Enabled(State(3), Read(true)) && Step(State(3), Read(true)) == State(4)
  {
    var ts := State(3).tasks;
    NextFromIs(ts[3 := READER], 3, 1, 1);
  }

  lemma Step4()
    ensures Enabled(State(4), Exit) && Step(State(4), Exit) == State(5)
  {
    var ts := State(4).tasks;
    DieAtEach(ts, 4);
    NextFromIs(Die(ts, 4), 4, 1, 1);
  }

  lemma Step5()
    ensures Enabled(State(5), Wait) && Step(State(5), Wait) == State(6)
  {
    var ts := State(5).tasks;
    NextFromIs(ts[0 := Waiting(ts[0])], 0, 1, 1);
  }

  lemma Step6()
    ensures Enabled(State(6), EnterKey) && Step(State(6), EnterKey) == State(7)
  {
  }

  lemma Step7()
    ensures Enabled(State(7), Yield) && Step(State(7), Yield) == State(8)
  {
    var ts := State(7).tasks;
    NextFromIs(ts, 1, 1, 2);
  }

  lemma Step8()
    ensures Enabled(State(8), Resume(true)) && Step(State(8), Resume(true)) == State(9)
  {
  }

  lemma Step9()
    ensures Enabled(State(9), Exit) && Step(State(9), Exit) == State(10)
  {
    var ts, r := State(9).tasks, State(10).tasks;
    LastDeath();
    NextFromIs(r, 3, 1, 3);
    hide Die;
    assert Step(State(9), Exit) == Scheduled(State(9).(tasks := r));
  }

  lemma LastDeath()
    ensures Die(State(9).tasks, 3) == State(10).tasks
  {
    DieAtEach(State(9).tasks, 3);
  }

  lemma DieAtEach(ts: seq<Task>, p: nat)
    requires 2 <= p < |ts| && ts[p].ppid != p && forall i :: 0 <= i < |ts| ==> ts[i].ppid < |ts|
    ensures forall i :: 0 <= i < |ts| ==>
      var t, q := ts[i], ts[p].ppid;
      Die(ts, p)[i] == t.(ppid := if t.ppid == p then INIT else t.ppid,
                          state := if i == p then ZOMBIE else if i == q && t.state == WAIT then RUNNING else t.state)
  {
  }

  lemma {:induction false} RunFrom(i: nat)
    requires i <= 10
    ensures ValidRun(State(i), EVENTS[i..]) && Run(State(i), EVENTS[i..]) == State(10)
    decreases 10 - i
  {
    hide State, Enabled, Step;
    if i < 10 {
      StepIs(i);
      RunFrom(i + 1);
      RunCons(State(i), EVENTS[i], State(i + 1), EVENTS[i + 1..]);
      assert [EVENTS[i]] + EVENTS[i + 1..] == EVENTS[i..];
    } else {
      assert EVENTS[10..] == [];
    }
  }

  lemma BootState()
    ensures Boot(5) == State(0)
  {
    assert Boot(5).tasks == State(0).tasks;
  }

  /**
   The shell 2 forks 3 and waits; 3 forks 4 and reads the keyboard; 4 exits; init waits; a
   line wakes 3, which exits.  Only the shell is told: init sleeps in wait(), and the
   zombie 4 is its child.
   */
  lemma InitMissesInheritedZombie()
    ensures ValidRun(Boot(5), EVENTS)
    ensures InitMisses(Run(Boot(5), EVENTS).tasks)
  {
    hide ValidRun, Run, Step, Enabled;
    BootState();
    assert EVENTS[0..] == EVENTS;
    RunFrom(0);
    assert ZombieChild(State(10).tasks[4], INIT);
  }

  // ---------- A stranded line ----------

  const BOOTED: Task := Task(READY, 0, 0, User, 0, 0, 0)
  const KILLER: Task := Task(RUNNING, 2, 0, User, 4, 1, 0)

  const KILLS: seq<Event> := [Fork, Fork, Read(true), Read(true), EnterKey, Kill(2)]

  function Asleep(t: Task): Task { t.(state := SLEEP, pc := InRead) }

  function Reading(i: nat): Sys
    requires i <= 6
  {
    var init := BootTask(0);
    if i == 0 then Five(init, SHELL, BOOTED, BOOTED, 2, 0, 3)
    else if i == 1 then Five(init, SHELL, CHILD, BOOTED, 2, 0, 4)
    else if i == 2 then Five(init, SHELL, CHILD, KILLER, 2, 0, 5)
    else if i == 3 then Five(init, Asleep(SHELL), CHILD, KILLER, 3, 0, 5)
    else if i == 4 then Five(init, Asleep(SHELL), READER, KILLER, 4, 0, 5)
    else if i == 5 then Five(init, Asleep(SHELL).(state := RUNNING), READER, KILLER, 4, 1, 5)
    else Five(init, Asleep(SHELL).(state := ZOMBIE), READER.(ppid := INIT), KILLER.(ppid := INIT), 4, 1, 5)
  }

  lemma FirstFork()
    ensures Enabled(Reading(0), Fork) && Step(Reading(0), Fork) == Reading(1)
  {
    var ts := Reading(0).tasks;
    assert FirstReady(ts, 3) == 3 && FirstReady(ts, 1) == 3;
  }

  lemma SecondFork()
    ensures Enabled(Reading(1), Fork) && Step(Reading(1), Fork) == Reading(2)
  {
  }

  lemma ShellReads()
    ensures Enabled(Reading(2), Read(true)) && Step(Reading(2), Read(true)) == Reading(3)
  {
    NextFromIs(Reading(2).tasks[2 := Asleep(SHELL)], 2, 1, 1);
  }

  lemma ChildReads()
    ensures Enabled(Reading(3), Read(true)) && Step(Reading(3), Read(true)) == Reading(4)
  {
    NextFromIs(Reading(3).tasks[3 := READER], 3, 1, 1);
  }

  lemma LineArrives()
    ensures Enabled(Reading(4), EnterKey) && Step(Reading(4), EnterKey) == Reading(5)
  {
    var ts := Reading(4).tasks;
    assert FirstSleeper(ts, 2) == 2 && FirstSleeper(ts, 1) == 2;
  }

  lemma ShellIsKilled()
    ensures Enabled(Reading(5), Kill(2)) && Step(Reading(5), Kill(2)) == Reading(6)
    ensures StrandsLine(Reading(5), Kill(2))
  {
    OneReaderWoken();
    ShellsDeath();
    hide Die, Woken, SomeSleeper;
    assert Step(Reading(5), Kill(2)) == Reading(5).(tasks := Reading(6).tasks);
  }

  lemma ShellsDeath()
    ensures Die(Reading(5).tasks, 2) == Reading(6).tasks
  {
    DieAtEach(Reading(5).tasks, 2);
  }

  lemma OneReaderWoken()
    ensures Woken(Reading(5).tasks) == 1 && SomeSleeper(Reading(5).tasks)
  {
    var ts := Reading(5).tasks;
    assert ts[3].state == SLEEP;
    OneWoken(ts, 2);
  }

  lemma OneWoken(ts: seq<Task>, k: nat)
    requires k < |ts| && forall i :: 0 <= i < |ts| ==> (IsWoken(ts[i]) <==> i == k)
    ensures Woken(ts) == 1
  {
    var n := |ts| - 1;
    if k == n { NoneWoken(ts[..n]); } else { OneWoken(ts[..n], k); }
  }

  lemma ReadingStep(i: nat)
    requires i < 6
    ensures Enabled(Reading(i), KILLS[i]) && Step(Reading(i), KILLS[i]) == Reading(i + 1)
  {
    hide Enabled, Step, Reading, StrandsLine;
    match i
    case 0 => FirstFork();
    case 1 => SecondFork();
    case 2 => ShellReads();
    case 3 => ChildReads();
    case 4 => LineArrives();
    case 5 => ShellIsKilled();
  }

  lemma {:induction false} ReadingFrom(i: nat, n: nat)
    requires i <= n <= 6
    ensures ValidRun(Reading(i), KILLS[i..n]) && Run(Reading(i), KILLS[i..n]) == Reading(n)
    decreases n - i
  {
    hide Reading, Enabled, Step;
    if i < n {
      ReadingStep(i);
      ReadingFrom(i + 1, n);
      RunCons(Reading(i), KILLS[i], Reading(i + 1), KILLS[i + 1..n]);
      assert [KILLS[i]] + KILLS[i + 1..n] == KILLS[i..n];
    } else {
      assert KILLS[i..n] == [];
    }
  }

  /**
   The shell 2 forks 3 and 4; 2 and 3 read the keyboard; a line comes in while 4 runs and
   wakes 2; then 4 may kill 2.
   */
  lemma StrandingIsReached()
    ensures ValidRun(Boot(5), KILLS[..5]) && StrandsLine(Run(Boot(5), KILLS[..5]), Kill(2))
  {
    hide ValidRun, Run, Step, Enabled, StrandsLine, Reading;
    ReadingBoots();
    assert KILLS[0..5] == KILLS[..5];
    ReadingFrom(0, 5);
    ShellIsKilled();
  }

  /** It does: the line stays, 3 sleeps, and no woken reader is left. */
  lemma KillStrandsLine()
    ensures ValidRun(Boot(5), KILLS)
    ensures var s := Run(Boot(5), KILLS); s.lines == 1 && SomeSleeper(s.tasks) && Woken(s.tasks) == 0
  {
    hide ValidRun, Run, Step, Enabled;
    ReadingBoots();
    assert KILLS[0..6] == KILLS;
    ReadingFrom(0, 6);
    NoneWoken(Reading(6).tasks);
  }

  lemma ReadingBoots()
    ensures Boot(5) == Reading(0)
  {
    assert Boot(5).tasks == Reading(0).tasks;
  }
}
