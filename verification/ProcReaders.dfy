/**
 No lost wakeup for readers of the keyboard: a complete line never waits while every
 reader sleeps, as long as no reader is killed between its wakeup and its next turn.
 */
module ProcReaders {
  import opened ProcModel
  import opened ProcInvariant

  /** A reader that has been woken and has not run since. */
  predicate IsWoken(t: Task) {
    t.state == RUNNING && t.pc == InRead
  }

  function Woken(ts: seq<Task>): nat {
    if ts == [] then 0 else Woken(ts[..|ts| - 1]) + (if IsWoken(ts[|ts| - 1]) then 1 else 0)
  }

  predicate SomeSleeper(ts: seq<Task>) {
    FirstSleeper(ts, 0) >= 0
  }

  /** While a reader sleeps there are at least as many woken readers as complete lines. */
  predicate ReadersOk(s: Sys) {
    SomeSleeper(s.tasks) ==> Woken(s.tasks) >= s.lines
  }

  lemma WokenAfterUpdate(ts: seq<Task>, i: nat, t: Task)
    requires i < |ts|
    ensures Woken(ts[i := t]) + (if IsWoken(ts[i]) then 1 else 0) == Woken(ts) + (if IsWoken(t) then 1 else 0)
  {
    var n := |ts| - 1;
    if i == n {
      assert ts[i := t][..n] == ts[..n];
    } else {
      assert ts[i := t][..n] == ts[..n][i := t];
      WokenAfterUpdate(ts[..n], i, t);
    }
  }

  lemma WokenSame(a: seq<Task>, b: seq<Task>)
    requires |a| == |b| && forall i :: 0 <= i < |a| ==> IsWoken(a[i]) == IsWoken(b[i])
    ensures Woken(a) == Woken(b)
  {
    if a != [] {
      WokenSame(a[..|a| - 1], b[..|b| - 1]);
    }
  }

  /** A table with no more sleepers and no fewer woken readers. */
  lemma SameReaders(a: seq<Task>, b: seq<Task>)
    requires |a| == |b|
    requires forall i :: 0 <= i < |a| ==>
      IsWoken(a[i]) == IsWoken(b[i]) && (b[i].state == SLEEP ==> a[i].state == SLEEP)
    ensures Woken(a) == Woken(b) && (SomeSleeper(b) ==> SomeSleeper(a))
  {
    WokenSame(a, b);
  }

  /** The current process changes its slot. */
  lemma SelfReaders(s: Sys, t: Task)
    requires WellFormed(s) && t.state != SLEEP
    ensures Woken(s.tasks[s.cur := t]) + (if IsWoken(s.tasks[s.cur]) then 1 else 0) ==
      Woken(s.tasks) + (if IsWoken(t) then 1 else 0)
    ensures SomeSleeper(s.tasks[s.cur := t]) ==> SomeSleeper(s.tasks)
  {
    WokenAfterUpdate(s.tasks, s.cur, t);
  }

  lemma DieReaders(s: Sys, p: nat)
    requires Inv(s) && 2 <= p < |s.tasks| && InUse(s.tasks[p]) && !IsWoken(s.tasks[p])
    ensures WellFormed(s)
    ensures Woken(Die(s.tasks, p)) == Woken(s.tasks) && (SomeSleeper(Die(s.tasks, p)) ==> SomeSleeper(s.tasks))
  {
    hide Die, TableOk;
    DieIsWellFormed(s, p);
    forall i | 0 <= i < |s.tasks|
      ensures IsWoken(s.tasks[i]) == IsWoken(Die(s.tasks, p)[i])
      ensures Die(s.tasks, p)[i].state == SLEEP ==> s.tasks[i].state == SLEEP
    {
      DieReader(s, p, i);
    }
    SameReaders(s.tasks, Die(s.tasks, p));
  }

  lemma ReapReaders(s: Sys, i: nat)
    requires Inv(s) && i < |s.tasks| && ZombieChild(s.tasks[i], s.cur)
    ensures var ts := ReapSlot(s.tasks, i);
            var r := ts[s.cur := ts[s.cur].(pc := User)];
            !IsWoken(s.tasks[s.cur]) ==> Woken(r) == Woken(s.tasks) && (SomeSleeper(r) ==> SomeSleeper(s.tasks))
  {
    var ts := ReapSlot(s.tasks, i);
    var r := ts[s.cur := ts[s.cur].(pc := User)];
    if !IsWoken(s.tasks[s.cur]) {
      SameReaders(s.tasks, r);
    }
  }

  lemma ReadKeepsReaders(s: Sys, found: bool)
    requires Inv(s) && ReadersOk(s) && s.cur >= 2
    ensures WellFormed(s) && ReadersOk(DoRead(s, found))
  {
    var t := s.tasks[s.cur];
    SelfReaders(s, t.(state := RUNNING, pc := User));
    SelfReaders(s, t.(pc := InRead));
  }

  lemma ResumeKeepsReaders(s: Sys, found: bool)
    requires Inv(s) && ReadersOk(s) && Enabled(s, Resume(found))
    ensures ReadersOk(DoResume(s, found))
  {
    var c, t := s.cur, s.tasks[s.cur];
    match t.pc
    case User =>
    case InWait => WaitKeepsReaders(s);
    case InWaitpid(p) => if p < |s.tasks| { WaitpidKeepsReaders(s, p, false); }
    case InRead => ReadKeepsReaders(s, found);
    case InSleep => SelfReaders(s, t.(pc := User));
    case Preempted => PreemptedReaders(s);
  }

  lemma PreemptedReaders(s: Sys)
    requires Inv(s) && WellFormed(s) && s.tasks[s.cur].pc == Preempted
    ensures var r := TickAll(s.tasks[s.cur := s.tasks[s.cur].(pc := User)]);
            Woken(r) == Woken(s.tasks) && (SomeSleeper(r) ==> SomeSleeper(s.tasks))
  {
    var t := s.tasks[s.cur].(pc := User);
    var ts := s.tasks[s.cur := t];
    assert SlotOk(s.tasks[s.cur], s.clock);
    SelfReaders(s, t);
    forall i | 0 <= i < |ts|
      ensures IsWoken(ts[i]) == IsWoken(TickAll(ts)[i]) && (TickAll(ts)[i].state == SLEEP ==> ts[i].state == SLEEP)
    {
      assert SlotOk(s.tasks[i], s.clock);
    }
    hide Inv;
    SameReaders(ts, TickAll(ts));
  }

  lemma WaitKeepsReaders(s: Sys)
    requires Inv(s) && ReadersOk(s) && !IsWoken(s.tasks[s.cur])
    ensures WellFormed(s) && ReadersOk(DoWait(s))
  {
    var i := FirstZombie(s.tasks, s.cur, 0);
    if i >= 0 { ReapReaders(s, i); }
    SelfReaders(s, s.tasks[s.cur].(state := WAIT, pc := InWait));
  }

  lemma WaitpidKeepsReaders(s: Sys, p: nat, first: bool)
    requires Inv(s) && ReadersOk(s) && !IsWoken(s.tasks[s.cur]) && p < |s.tasks|
    ensures WellFormed(s) && ReadersOk(DoWaitpid(s, p, first))
  {
    var t := s.tasks[s.cur].(pc := InWaitpid(p));
    if ZombieChild(s.tasks[p], s.cur) { ReapReaders(s, p); }
    SelfReaders(s, t.(state := WAIT));
    SelfReaders(s, t);
  }

  lemma EnterKeepsReaders(s: Sys)
    requires Inv(s) && ReadersOk(s) && Enabled(s, EnterKey)
    ensures ReadersOk(Step(s, EnterKey))
  {
    var i := FirstSleeper(s.tasks, 0);
    if i >= 0 {
      assert SlotOk(s.tasks[i], s.clock);
      hide Inv;
      WokenAfterUpdate(s.tasks, i, s.tasks[i].(state := RUNNING));
    }
  }

  lemma ForkKeepsReaders(s: Sys)
    requires Inv(s) && ReadersOk(s) && Enabled(s, Fork)
    ensures ReadersOk(DoFork(s))
  {
    hide Inv;
    SameReaders(s.tasks, DoFork(s).tasks);
  }

  lemma StepKeepsReaders(s: Sys, e: Event)
    requires Inv(s) && ReadersOk(s) && Enabled(s, e)
    requires e.Kill? ==> !IsWoken(s.tasks[e.pid])
    ensures ReadersOk(Step(s, e))
  {
    var c, t := s.cur, s.tasks[s.cur];
    assert t.state == RUNNING && (e.Resume? || t.pc == User);
    hide Inv, Die, Woken, SomeSleeper, DoFork, DoRead, DoWait, DoWaitpid, DoResume;
    match e
    case Fork => ForkKeepsReaders(s);
    case Exit => DieReaders(s, c);
    case Kill(p) => DieReaders(s, p);
    case Wait => WaitKeepsReaders(s);
    case Waitpid(p) => WaitpidKeepsReaders(s, p, true);
    case Sleep(n) => SelfReaders(s, t.(time := n, state := HANG, pc := InSleep));
    case Read(found) => ReadKeepsReaders(s, found);
    case Yield =>
    case TimerInterrupt => SelfReaders(s, t.(pc := Preempted));
    case EnterKey => EnterKeepsReaders(s);
    case Resume(found) => ResumeKeepsReaders(s, found);
  }

  /** No kill in the run hits a reader that has been woken and not run. */
  ghost predicate SparesReaders(s: Sys, events: seq<Event>)
    requires ValidRun(s, events)
    decreases |events|
  {
    events == [] ||
    ((events[0].Kill? ==> !IsWoken(s.tasks[events[0].pid])) && SparesReaders(Step(s, events[0]), events[1..]))
  }

  lemma {:induction false} RunKeepsReaders(s: Sys, events: seq<Event>)
    requires Inv(s) && ReadersOk(s) && ValidRun(s, events) && SparesReaders(s, events)
    ensures ReadersOk(Run(s, events))
    decreases |events|
  {
    hide Inv, Enabled, Step, ReadersOk;
    if events != [] {
      StepKeepsInv(s, events[0]);
      StepKeepsReaders(s, events[0]);
      RunKeepsReaders(Step(s, events[0]), events[1..]);
    }
  }

  /** If every reader sleeps and there is one, no complete line is pending. */
  lemma NoLineWaitsForSleepers(max: nat, events: seq<Event>)
    requires max >= 3 && ValidRun(Boot(max), events) && SparesReaders(Boot(max), events)
    ensures var s := Run(Boot(max), events);
            (&& (exists k :: 0 <= k < |s.tasks| && s.tasks[k].state == SLEEP)
             && (forall i :: 0 <= i < |s.tasks| ==> !(s.tasks[i].state == RUNNING && s.tasks[i].pc == InRead))) ==>
              s.lines == 0
  {
    BootIsOk(max);
    assert ReadersOk(Boot(max));
    RunKeepsReaders(Boot(max), events);
    var s := Run(Boot(max), events);
    if forall i :: 0 <= i < |s.tasks| ==> !(s.tasks[i].state == RUNNING && s.tasks[i].pc == InRead) {
      NoneWoken(s.tasks);
    }
  }

  lemma NoneWoken(ts: seq<Task>)
    requires forall i :: 0 <= i < |ts| ==> !IsWoken(ts[i])
    ensures Woken(ts) == 0
  {
  }

  /** One slot after exit or kill of `p`: who sleeps in intRead, and who is woken, but for `p`. */
  lemma DieReader(s: Sys, p: nat, i: nat)
    requires Inv(s) && 2 <= p < |s.tasks| && InUse(s.tasks[p]) && i < |s.tasks|
    ensures IsWoken(Die(s.tasks, p)[i]) <==> i != p && IsWoken(s.tasks[i])
    ensures Die(s.tasks, p)[i].state == SLEEP <==> i != p && s.tasks[i].state == SLEEP
  {
    assert ParentOk(s.tasks, p) && SlotOk(s.tasks[i], s.clock);
    DieAt(s.tasks, p, s.tasks[p].ppid, i);
  }

  lemma SleepersDecide(a: seq<Task>, b: seq<Task>)
    requires |a| == |b| && forall i :: 0 <= i < |a| ==> (a[i].state == SLEEP <==> b[i].state == SLEEP)
    ensures SomeSleeper(a) <==> SomeSleeper(b)
  {
  }

  /** A kill of a woken reader: its wakeup is lost with it. */
  lemma KilledReader(s: Sys, p: nat)
    requires Inv(s) && Enabled(s, Kill(p)) && IsWoken(s.tasks[p])
    ensures Woken(Die(s.tasks, p)) == Woken(s.tasks) - 1
    ensures SomeSleeper(Die(s.tasks, p)) <==> SomeSleeper(s.tasks)
  {
    hide Inv, Die, Woken, SomeSleeper;
    var dead := s.tasks[p].(state := ZOMBIE);
    var ts, r := s.tasks[p := dead], Die(s.tasks, p);
    WokenAfterUpdate(s.tasks, p, dead);
    forall i | 0 <= i < |ts|
      ensures IsWoken(ts[i]) == IsWoken(r[i]) && (s.tasks[i].state == SLEEP <==> r[i].state == SLEEP)
    {
      DieReader(s, p, i);
    }
    WokenSame(ts, r);
    SleepersDecide(s.tasks, r);
  }

  /**
   Killing a woken reader breaks the promise exactly when some reader sleeps and there
   are no more woken readers than lines.
   */
  lemma KilledReaderStrandsLineIff(s: Sys, p: nat)
    requires Inv(s) && ReadersOk(s) && Enabled(s, Kill(p)) && IsWoken(s.tasks[p])
    ensures !ReadersOk(Step(s, Kill(p))) <==> SomeSleeper(s.tasks) && Woken(s.tasks) == s.lines
  {
    hide Inv, Die, Woken, SomeSleeper;
    KilledReader(s, p);
  }

  /** Every step but such a kill keeps the promise, and such a kill breaks it. */
  lemma StepKeepsReadersIff(s: Sys, e: Event)
    requires Inv(s) && ReadersOk(s) && Enabled(s, e)
    ensures ReadersOk(Step(s, e)) <==> !StrandsLine(s, e)
  {
    hide Inv, Step, ReadersOk, Woken;
    if e.Kill? && KillsWoken(s, e) {
      KilledReaderStrandsLineIff(s, e.pid);
    } else {
      StepKeepsReaders(s, e);
    }
  }

  predicate KillsWoken(s: Sys, e: Event) {
    e.Kill? && e.pid < |s.tasks| && IsWoken(s.tasks[e.pid])
  }

  predicate StrandsLine(s: Sys, e: Event) {
    KillsWoken(s, e) && SomeSleeper(s.tasks) && Woken(s.tasks) == s.lines
  }

  /** The promise holds in every state of the run. */
  ghost predicate AlwaysReadersOk(s: Sys, events: seq<Event>)
    requires ValidRun(s, events)
    decreases |events|
  {
    ReadersOk(s) && (events == [] || AlwaysReadersOk(Step(s, events[0]), events[1..]))
  }

  ghost predicate NeverStrands(s: Sys, events: seq<Event>)
    requires ValidRun(s, events)
    decreases |events|
  {
    events == [] || (!StrandsLine(s, events[0]) && NeverStrands(Step(s, events[0]), events[1..]))
  }

  /** Over whole runs: no kill of that kind, and only then is no line stranded. */
  lemma {:induction false} RunKeepsReadersIff(s: Sys, events: seq<Event>)
    requires Inv(s) && ReadersOk(s) && ValidRun(s, events)
    ensures AlwaysReadersOk(s, events) <==> NeverStrands(s, events)
    decreases |events|
  {
    hide Inv, Enabled, Step, ReadersOk, StrandsLine;
    if events != [] {
      StepKeepsInv(s, events[0]);
      StepKeepsReadersIff(s, events[0]);
      var s' := Step(s, events[0]);
      if ReadersOk(s') { RunKeepsReadersIff(s', events[1..]); }
    }
  }

  lemma BootReadersIff(max: nat, events: seq<Event>)
    requires max >= 3 && ValidRun(Boot(max), events)
    ensures AlwaysReadersOk(Boot(max), events) <==> NeverStrands(Boot(max), events)
  {
    BootIsOk(max);
    RunKeepsReadersIff(Boot(max), events);
  }
}
