/**
 Each step of the process table written out slot by slot: what the system calls and
 interrupts do, for every state in order.
 */
module ProcMeaning {
  import opened ProcModel
  import opened ProcInvariant

  /** Slot `i` is as before. */
  predicate Same(s: Sys, s': Sys, i: nat) {
    i < |s.tasks| == |s'.tasks| && s'.tasks[i] == s.tasks[i]
  }

  // ---------- wait and waitpid ----------

  predicate InWaitCall(s: Sys, e: Event) {
    s.cur < |s.tasks| && (e == Wait || (e.Resume? && s.tasks[s.cur].pc == InWait))
  }

  predicate InWaitpidCall(s: Sys, e: Event, p: nat) {
    s.cur < |s.tasks| && (e == Waitpid(p) || (e.Resume? && s.tasks[s.cur].pc == InWaitpid(p)))
  }

  /** Slot `k` has been reaped, the caller goes on in user mode, and nothing else has changed. */
  predicate Reaped(s: Sys, s': Sys, k: nat) {
    && k < |s.tasks| == |s'.tasks| && s.cur < |s.tasks| && k != s.cur
    && s'.tasks[k].state == READY && s'.tasks[k].reaps == s.tasks[k].reaps + 1
    && s'.tasks[k].births == s.tasks[k].births
    && s'.tasks[s.cur].state == RUNNING && s'.tasks[s.cur].pc == User
    && s'.tasks[s.cur].ppid == s.tasks[s.cur].ppid
    && (forall i :: 0 <= i < |s.tasks| && i != k && i != s.cur ==> Same(s, s', i))
    && s'.cur == s.cur && s'.lines == s.lines && s'.ticks == s.ticks
  }

  /** wait() reaps the lowest zombie child, if the caller has one, from its top and behind its schedule(). */
  lemma WaitReaps(s: Sys, e: Event, k: nat)
    requires Inv(s) && Enabled(s, e) && InWaitCall(s, e)
    requires k < |s.tasks| && s.tasks[k].state == ZOMBIE && s.tasks[k].ppid == s.cur
    requires forall j :: 0 <= j < k ==> !(s.tasks[j].state == ZOMBIE && s.tasks[j].ppid == s.cur)
    ensures Reaped(s, Step(s, e), k)
    ensures Zombies(Step(s, e).tasks) == Zombies(s.tasks) - 1 && FirstReady(Step(s, e).tasks, 0) >= 0
  {
    hide TableOk;
    var i := FirstZombie(s.tasks, s.cur, 0);
    assert ZombieChild(s.tasks[k], s.cur);
    assert i == k;
    ZombiesAfterReap(s.tasks, s.cur, k);
    assert Step(s, e) == DoWait(s);
  }

  /** Otherwise the caller sleeps in wait(). */
  lemma WaitSleeps(s: Sys, e: Event)
    requires Inv(s) && Enabled(s, e) && InWaitCall(s, e)
    requires forall j :: 0 <= j < |s.tasks| ==> !(s.tasks[j].state == ZOMBIE && s.tasks[j].ppid == s.cur)
    ensures var s' := Step(s, e);
      && |s'.tasks| == |s.tasks| && s'.tasks[s.cur] == s.tasks[s.cur].(state := WAIT, pc := InWait)
      && (forall i :: 0 <= i < |s.tasks| && i != s.cur ==> Same(s, s', i))
      && NextUp(s'.tasks, s.cur, s'.cur) && s'.lines == s.lines
  {
    hide TableOk;
    var t := s.tasks[s.cur].(state := WAIT, pc := InWait);
    NextIsUp(s.tasks[s.cur := t], s.cur);
  }

  lemma WaitpidReaps(s: Sys, e: Event, p: nat)
    requires Inv(s) && Enabled(s, e) && InWaitpidCall(s, e, p)
    requires p < |s.tasks| && s.tasks[p].state == ZOMBIE && s.tasks[p].ppid == s.cur
    ensures Reaped(s, Step(s, e), p)
    ensures Zombies(Step(s, e).tasks) == Zombies(s.tasks) - 1 && FirstReady(Step(s, e).tasks, 0) >= 0
  {
    hide TableOk;
    ZombiesAfterReap(s.tasks, s.cur, p);
  }

  lemma WaitpidSleeps(s: Sys, e: Event, p: nat)
    requires Inv(s) && Enabled(s, e) && InWaitpidCall(s, e, p)
    requires p < |s.tasks| && !(s.tasks[p].state == ZOMBIE && s.tasks[p].ppid == s.cur)
    ensures var s' := Step(s, e);
      && |s'.tasks| == |s.tasks| && s'.tasks[s.cur].pc == InWaitpid(p)
      && s'.tasks[s.cur].state == (if e.Waitpid? then WAIT else RUNNING)
      && (forall i :: 0 <= i < |s.tasks| && i != s.cur ==> Same(s, s', i))
      && NextUp(s'.tasks, s.cur, s'.cur) && s'.lines == s.lines
  {
    hide TableOk;
    var t := s.tasks[s.cur].(pc := InWaitpid(p));
    NextIsUp(s.tasks[s.cur := t], s.cur);
    NextIsUp(s.tasks[s.cur := t.(state := WAIT)], s.cur);
  }

  function Zombies(ts: seq<Task>): nat {
    if ts == [] then 0 else Zombies(ts[..|ts| - 1]) + (if ts[|ts| - 1].state == ZOMBIE then 1 else 0)
  }

  lemma {:induction false} ZombiesAfterUpdate(ts: seq<Task>, i: nat, t: Task)
    requires i < |ts|
    ensures Zombies(ts[i := t]) + (if ts[i].state == ZOMBIE then 1 else 0) ==
            Zombies(ts) + (if t.state == ZOMBIE then 1 else 0)
  {
    var n := |ts| - 1;
    if i == n {
      assert ts[i := t][..n] == ts[..n];
    } else {
      assert ts[i := t][..n] == ts[..n][i := t];
      ZombiesAfterUpdate(ts[..n], i, t);
    }
  }

  lemma ZombiesAfterReap(ts: seq<Task>, c: nat, k: nat)
    requires c < |ts| && k < |ts| && ts[k].state == ZOMBIE && ts[c].state == RUNNING
    ensures var r := ReapSlot(ts, k);
            Zombies(r[c := r[c].(pc := User)]) == Zombies(ts) - 1
    ensures var r := ReapSlot(ts, k);
            k != c && r[c := r[c].(pc := User)][k].state == READY
  {
    var r := ReapSlot(ts, k);
    ZombiesAfterUpdate(ts, k, r[k]);
    ZombiesAfterUpdate(r, c, r[c].(pc := User));
  }

  // ---------- schedule ----------

  /** `n` is the first running slot behind `c`, going round; or `c`, if no other runs. */
  predicate NextUp(ts: seq<Task>, c: nat, n: nat) {
    && c < |ts| && n < |ts|
    && (n == c || ts[n].state == RUNNING)
    && (forall j :: 0 <= j < |ts| && j != c && ts[j].state == RUNNING ==>
          n != c && (if n > c then n - c else n + |ts| - c) <= (if j > c then j - c else j + |ts| - c))
  }

  lemma NextFromIsUp(ts: seq<Task>, c: nat, d: nat)
    requires c < |ts| && 1 <= d <= |ts|
    requires forall j :: 0 <= j < |ts| && j != c && ts[j].state == RUNNING ==>
               d <= (if j > c then j - c else j + |ts| - c)
    ensures NextUp(ts, c, NextFrom(ts, c, d))
    decreases |ts| - d
  {
    if d < |ts| && ts[After(|ts|, c, d)].state != RUNNING {
      forall j | 0 <= j < |ts| && j != c && ts[j].state == RUNNING
        ensures d + 1 <= (if j > c then j - c else j + |ts| - c)
      {
        assert j != After(|ts|, c, d);
      }
      NextFromIsUp(ts, c, d + 1);
    }
  }

  /** What schedule() chooses. */
  lemma NextIsUp(ts: seq<Task>, c: nat)
    requires c < |ts|
    ensures NextUp(ts, c, Next(ts, c))
  {
    NextFromIsUp(ts, c, 1);
  }

  // ---------- fork, exit, kill ----------

  lemma ForkMeans(s: Sys, k: nat)
    requires Inv(s) && Enabled(s, Fork) && k < |s.tasks| && s.tasks[k].state == READY
    requires forall j :: 0 <= j < k ==> s.tasks[j].state != READY
    ensures var s' := Step(s, Fork);
      && |s'.tasks| == |s.tasks| && s'.tasks[k].state == RUNNING && s'.tasks[k].ppid == s.cur
      && s'.tasks[k].pc == User && s'.tasks[k].births == s.tasks[k].births + 1
      && (forall i :: 0 <= i < |s.tasks| && i != k ==> Same(s, s', i))
      && s'.cur == s.cur && s'.lines == s.lines && s'.ticks == s.ticks
  {
    hide TableOk;
    assert FirstReady(s.tasks, 0) == k;
  }

  /** Slot `i` after process `p` has ended. */
  predicate Ended(s: Sys, s': Sys, p: nat, i: nat) {
    && p < |s.tasks| == |s'.tasks| && i < |s.tasks|
    && var t, r := s.tasks[i], s'.tasks[i];
       && r.ppid == (if t.ppid == p then 0 else t.ppid)
       && r.state == (if i == p then ZOMBIE else if i == s.tasks[p].ppid && t.state == WAIT then RUNNING else t.state)
       && r.pc == t.pc && r.time == t.time && r.births == t.births && r.reaps == t.reaps
  }

  lemma KillMeans(s: Sys, p: nat)
    requires Inv(s) && Enabled(s, Kill(p))
    ensures forall i :: 0 <= i < |s.tasks| ==> Ended(s, Step(s, Kill(p)), p, i)
    ensures Step(s, Kill(p)).cur == s.cur
  {
    assert ParentOk(s.tasks, p);
    forall i | 0 <= i < |s.tasks| ensures Ended(s, Step(s, Kill(p)), p, i) {
      DieAt(s.tasks, p, s.tasks[p].ppid, i);
    }
  }

  lemma ExitMeans(s: Sys)
    requires Inv(s) && Enabled(s, Exit)
    ensures forall i :: 0 <= i < |s.tasks| ==> Ended(s, Step(s, Exit), s.cur, i)
    ensures NextUp(Step(s, Exit).tasks, s.cur, Step(s, Exit).cur)
  {
    assert ParentOk(s.tasks, s.cur);
    DieIsWellFormed(s, s.cur);
    forall i | 0 <= i < |s.tasks| ensures Ended(s, Step(s, Exit), s.cur, i) {
      DieAt(s.tasks, s.cur, s.tasks[s.cur].ppid, i);
    }
    NextIsUp(Die(s.tasks, s.cur), s.cur);
  }

  // ---------- sleep and the timer ----------

  lemma SleepMeans(s: Sys, n: nat)
    requires Inv(s) && Enabled(s, Sleep(n)) && n > 0
    ensures var s' := Step(s, Sleep(n));
      && |s'.tasks| == |s.tasks| && s'.tasks[s.cur].state == HANG && s'.tasks[s.cur].time == n
      && (forall i :: 0 <= i < |s.tasks| && i != s.cur ==> Same(s, s', i))
      && NextUp(s'.tasks, s.cur, s'.cur)
  {
    hide TableOk;
    NextIsUp(s.tasks[s.cur := s.tasks[s.cur].(time := n, state := HANG, pc := InSleep)], s.cur);
  }

  /** A slot after `k` rounds of the timer in which its process does not run. */
  function Rounds(t: Task, k: nat): Task {
    if k == 0 then t else Tick(Rounds(t, k - 1))
  }

  /** sleep(n) lasts n rounds: asleep through n - 1 of them, running after the n-th. */
  lemma {:induction false} SleepLasts(t: Task, n: nat, k: nat)
    requires t.state == HANG && t.time == n > 0 && k <= n
    ensures k < n ==> Rounds(t, k).state == HANG && Rounds(t, k).time == n - k
    ensures k == n ==> Rounds(t, k).state == RUNNING
  {
    if k > 0 { SleepLasts(t, n, k - 1); }
  }

  /** Nineteen ticks only count; the twentieth sets the process aside. */
  lemma TickMeans(s: Sys)
    requires Inv(s) && Enabled(s, TimerInterrupt)
    ensures var s' := Step(s, TimerInterrupt);
      if s.ticks == 19 then
        && s'.ticks == 20 && |s'.tasks| == |s.tasks| && s'.tasks[s.cur] == s.tasks[s.cur].(pc := Preempted)
        && (forall i :: 0 <= i < |s.tasks| && i != s.cur ==> Same(s, s', i))
        && NextUp(s'.tasks, s.cur, s'.cur)
      else s'.ticks == s.ticks + 1 && s'.tasks == s.tasks && s'.cur == s.cur
  {
    hide TableOk;
    NextIsUp(s.tasks[s.cur := s.tasks[s.cur].(pc := Preempted)], s.cur);
  }

  /** When it runs again the round ends: every sleeper counts down by one and runs at zero. */
  lemma RoundMeans(s: Sys, found: bool)
    requires Inv(s) && Enabled(s, Resume(found)) && s.tasks[s.cur].pc == Preempted
    ensures var s' := Step(s, Resume(found));
      && |s'.tasks| == |s.tasks| && s'.ticks == 0 && s'.cur == s.cur && s'.tasks[s.cur].pc == User
      && (forall i :: 0 <= i < |s.tasks| && s.tasks[i].state == HANG && s.tasks[i].time > 1 ==>
            s'.tasks[i] == s.tasks[i].(time := s.tasks[i].time - 1))
      && (forall i :: 0 <= i < |s.tasks| && s.tasks[i].state == HANG && s.tasks[i].time <= 1 ==>
            s'.tasks[i] == s.tasks[i].(time := 0, state := RUNNING))
      && (forall i :: 0 <= i < |s.tasks| && i != s.cur && s.tasks[i].state != HANG ==> Same(s, s', i))
  {
    hide TableOk;
  }

  // ---------- the keyboard ----------

  predicate InReadCall(s: Sys, e: Event) {
    s.cur < |s.tasks| && (e.Read? || (e.Resume? && s.tasks[s.cur].pc == InRead))
  }

  lemma ReadMeans(s: Sys, e: Event)
    requires Inv(s) && Enabled(s, e) && InReadCall(s, e)
    ensures var s', t := Step(s, e), s.tasks[s.cur];
      && |s'.tasks| == |s.tasks| && (forall i :: 0 <= i < |s.tasks| && i != s.cur ==> Same(s, s', i))
      && if s.lines > 0 && e.found then
           s'.lines == s.lines - 1 && s'.cur == s.cur && s'.tasks[s.cur].state == RUNNING && s'.tasks[s.cur].pc == User
         else
           && s'.lines == s.lines && s'.tasks[s.cur].pc == InRead && NextUp(s'.tasks, s.cur, s'.cur)
           && s'.tasks[s.cur].state == if s.lines > 0 then RUNNING else SLEEP
  {
    hide TableOk;
    var t := s.tasks[s.cur].(pc := InRead);
    NextIsUp(s.tasks[s.cur := t], s.cur);
    NextIsUp(s.tasks[s.cur := t.(state := SLEEP)], s.cur);
  }

  /** The Enter key wakes the lowest sleeping reader, and no other. */
  lemma EnterMeans(s: Sys)
    requires Inv(s) && Enabled(s, EnterKey)
    ensures var s' := Step(s, EnterKey);
      && s'.lines == s.lines + 1 && s'.cur == s.cur && |s'.tasks| == |s.tasks|
      && (forall k :: 0 <= k < |s.tasks| && s.tasks[k].state == SLEEP &&
                      (forall j :: 0 <= j < k ==> s.tasks[j].state != SLEEP) ==>
            && s'.tasks[k] == s.tasks[k].(state := RUNNING)
            && forall i :: 0 <= i < |s.tasks| && i != k ==> Same(s, s', i))
      && ((forall k :: 0 <= k < |s.tasks| ==> s.tasks[k].state != SLEEP) ==> s'.tasks == s.tasks)
  {
    hide TableOk;
    var r := FirstSleeper(s.tasks, 0);
    forall k | 0 <= k < |s.tasks| && s.tasks[k].state == SLEEP &&
               (forall j :: 0 <= j < k ==> s.tasks[j].state != SLEEP)
      ensures r == k
    {
    }
  }

  // ---------- boot ----------

  lemma BootMeans(max: nat)
    requires max >= 3
    ensures var s := Boot(max);
      && |s.tasks| == max && s.cur == 2 && s.lines == 0 && s.ticks == 0
      && (forall i :: 0 <= i < 3 ==> s.tasks[i].state == RUNNING && s.tasks[i].ppid == 0 && s.tasks[i].pc == User)
      && (forall i :: 3 <= i < max ==> s.tasks[i].state == READY && s.tasks[i].births == 0)
  {
  }
}
