/** How soon a task that can run, or that waits for a child that is gone, is selected. */
module Fairness {
  import opened Basics
  import opened Scheduler
  import opened Lifecycle
  import opened LifecycleRuns
  import opened Blocked

  // ---------------------------------------------------------------- steps that keep the list

  /** Calls that leave every task in its place on the list. */
  predicate Quiet(e: Event) {
    e.Yield? || e.Tick? || e.Sleep? || e.WaitPid? || e.Wait?
  }

  predicate CallerBlocks(s: State, target: nat, bg: bool)
    requires 0 <= s.running < |s.tasks|
  {
    !bg && WaitTarget(s.tasks, Current(s).pid, target, 0).Some?
  }

  /** Whether the event runs `schedule`. */
  predicate CallsSchedule(s: State, e: Event)
    requires 0 <= s.running < |s.tasks|
  {
    match e
    case Yield => true
    case Sleep(_, _) => true
    case Exit => true
    case Exec(_) => true
    case Kill(_) => true
    case WaitPid(target) => CallerBlocks(s, target, s.isBg)
    case Wait => CallerBlocks(s, 0, false)
    case _ => false
  }

  function Schedules(s: State, es: seq<Event>): nat
    decreases |es|
  {
    if es == [] || !Safe(s, es[0]) || s.nextPid < 1 || Step(s, es[0]).None? then 0
    else (if CallsSchedule(s, es[0]) then 1 else 0) + Schedules(Step(s, es[0]).value, es[1..])
  }

  /** A task that can run, or that waits, awake, for a child that is no longer listed. */
  ghost predicate Hopeful(ts: seq<Task>, p: nat)
    requires p < |ts|
  {
    !ts[p].sleeping && (ts[p].waiting > 0 ==> Unlisted(ts, ts[p].waiting))
  }

  /** How many selections away position `p` is when every task in between is selected. */
  function Distance(n: nat, r: nat, p: nat): (d: nat)
    requires r < n && p < n
    ensures p != r ==> 1 <= d <= n - 1
  {
    if p > r then p - r else n - r + p
  }

  /** One pass to be crossed while waiting, then the distance. */
  function Bound(s: State, p: nat): nat
    requires 0 <= s.running < |s.tasks| && p < |s.tasks|
  {
    Distance(|s.tasks|, s.running, p) + if s.tasks[p].waiting > 0 then |s.tasks| - 1 else 0
  }

  // ---------------------------------------------------------------- one call of `schedule`

  lemma UnlistedIsDone(ts: seq<Task>, pid: nat)
    requires Unlisted(ts, pid)
    ensures ChildDone(ts, pid)
  {
  }

  /** Each call of `schedule` selects a hopeful task or brings it strictly closer. */
  lemma ScheduleApproaches(m: State, p: nat)
    requires Ready(m) && 0 <= m.running && p < |m.tasks| && p != m.running && Hopeful(m.tasks, p)
    ensures var r := Schedule(m);
            && |r.tasks| == |m.tasks| && 0 <= r.running < |r.tasks|
            && (r.running == p || (Hopeful(r.tasks, p) && Bound(r, p) < Bound(m, p)))
  {
    var (us, j) := Scan(m.tasks, m.running);
    ScanClosed(m.tasks, m.running);
    ScheduleKeepsTasks(m);
    var t := m.tasks[p];
    if t.waiting > 0 {
      UnlistedIsDone(m.tasks, t.waiting);
      assert Unlisted(us, t.waiting);
    }
  }

  // ---------------------------------------------------------------- quiet steps

  lemma QuietStep(s: State, e: Event, p: nat)
    requires Inv(s) && Safe(s, e) && Quiet(e) && p < |s.tasks| && p != s.running && Hopeful(s.tasks, p)
    ensures Step(s, e).Some?
    ensures var s1 := Step(s, e).value;
            && |s1.tasks| == |s.tasks| && 0 <= s1.running < |s1.tasks|
            && (CallsSchedule(s, e) ==> s1.running == p || (Hopeful(s1.tasks, p) && Bound(s1, p) < Bound(s, p)))
            && (!CallsSchedule(s, e) ==> s1.running == s.running && Hopeful(s1.tasks, p) && Bound(s1, p) == Bound(s, p))
  {
    hide Schedule, WaitCall, TimerInterrupt, Bound, Hopeful, DistinctPids, WaitTarget;
    match e
    case Yield => ScheduleApproaches(s, p);
    case Tick => TickApproaches(s, p);
    case Sleep(time, amp) =>
      var u := Current(s).(bg := amp || Current(s).bg, sleepTime := time % WORD_LIMIT, sleeping := true);
      UpdateApproaches(s, u, amp, p);
    case WaitPid(target) => WaitApproaches(s, target, s.isBg, p);
    case Wait => WaitApproaches(s, 0, false, p);
  }

  lemma TickApproaches(s: State, p: nat)
    requires Inv(s) && p < |s.tasks| && p != s.running && Hopeful(s.tasks, p)
    ensures var s1 := TimerInterrupt(s);
            |s1.tasks| == |s.tasks| && s1.running == s.running && Hopeful(s1.tasks, p) && Bound(s1, p) == Bound(s, p)
  {
    assert forall k :: 0 <= k < |s.tasks| ==> TimerInterrupt(s).tasks[k].pid == s.tasks[k].pid;
  }

  lemma UpdateApproaches(s: State, u: Task, bg: bool, p: nat)
    requires Inv(s) && s.running > 0 && u.pid == Current(s).pid && u.ppid == Current(s).ppid
    requires p < |s.tasks| && p != s.running && Hopeful(s.tasks, p)
    ensures var s1 := Schedule(SetCurrent(s.(isBg := bg), u));
            && |s1.tasks| == |s.tasks| && 0 <= s1.running < |s1.tasks|
            && (s1.running == p || (Hopeful(s1.tasks, p) && Bound(s1, p) < Bound(s, p)))
  {
    var m := SetCurrent(s.(isBg := bg), u);
    assert forall k :: 0 <= k < |s.tasks| ==> m.tasks[k].pid == s.tasks[k].pid;
    ScheduleApproaches(m, p);
  }

  lemma WaitApproaches(s: State, target: nat, bg: bool, p: nat)
    requires Inv(s) && s.running > 0 && p < |s.tasks| && p != s.running && Hopeful(s.tasks, p)
    ensures var s1 := WaitCall(s, target, bg);
            if CallerBlocks(s, target, bg)
            then |s1.tasks| == |s.tasks| && 0 <= s1.running < |s1.tasks|
                 && (s1.running == p || (Hopeful(s1.tasks, p) && Bound(s1, p) < Bound(s, p)))
            else s1 == s
  {
    if CallerBlocks(s, target, bg) {
      var child := WaitTarget(s.tasks, Current(s).pid, target, 0).value;
      UpdateApproaches(s, Current(s).(waiting := s.tasks[child].pid), s.isBg, p);
    }
  }

  // ---------------------------------------------------------------- runs

  ghost predicate SelectedDuring(s: State, es: seq<Event>, p: nat) {
    exists k :: 0 < k <= |es| && SelectedAt(s, es, k, p)
  }

  ghost predicate SelectedAt(s: State, es: seq<Event>, k: nat, p: nat)
    requires k <= |es|
  {
    Run(s, es[..k]).Some? && Run(s, es[..k]).value.running == p
  }

  lemma UnfoldSchedules(s: State, es: seq<Event>)
    requires Inv(s) && Legal(s, es) && es != []
    ensures Step(s, es[0]).Some? && 0 <= s.running < |s.tasks|
    ensures Schedules(s, es) == (if CallsSchedule(s, es[0]) then 1 else 0) + Schedules(Step(s, es[0]).value, es[1..])
  {
    Unfold(s, es);
  }

  lemma RunPrefix(s: State, es: seq<Event>, k: nat)
    requires es != [] && k < |es| && Safe(s, es[0]) && s.nextPid >= 1 && Step(s, es[0]).Some?
    ensures Run(s, es[..k + 1]) == Run(Step(s, es[0]).value, es[1..][..k])
  {
    assert es[..k + 1][1..] == es[1..][..k];
  }

  /**
   On an unchanged list, whatever the other tasks do, a task that can run is selected within its
   distance, and one that waits for a child that is gone within one more pass.
   */
  lemma {:induction false} SelectedWithinBound(s: State, es: seq<Event>, p: nat)
    requires Inv(s) && Legal(s, es) && (forall i :: 0 <= i < |es| ==> Quiet(es[i]))
    requires p < |s.tasks| && p != s.running && Hopeful(s.tasks, p) && Schedules(s, es) >= Bound(s, p)
    ensures SelectedDuring(s, es, p)
    decreases |es|
  {
    hide Step, Hopeful;
    if es != [] {
      Unfold(s, es);
      UnfoldSchedules(s, es);
      hide Schedules, Legal;
      QuietStep(s, es[0], p);
      var s1 := Step(s, es[0]).value;
      if s1.running == p {
        RunPrefix(s, es, 0);
        assert SelectedAt(s, es, 1, p);
      } else {
        SelectedWithinBound(s1, es[1..], p);
        var k :| 0 < k <= |es| - 1 && SelectedAt(s1, es[1..], k, p);
        RunPrefix(s, es, k);
        assert SelectedAt(s, es, k + 1, p);
      }
    }
  }

  /** Round robin: a task that can run waits for fewer calls of `schedule` than the list is long. */
  lemma RoundRobin(s: State, es: seq<Event>, p: nat)
    requires Inv(s) && Legal(s, es) && (forall i :: 0 <= i < |es| ==> Quiet(es[i]))
    requires p < |s.tasks| && p != s.running && Runnable(s.tasks[p]) && Schedules(s, es) >= |s.tasks| - 1
    ensures SelectedDuring(s, es, p)
  {
    SelectedWithinBound(s, es, p);
  }

  /** A waiter whose child has left the list runs again within two passes over the list. */
  lemma WaiterRunsAgain(s: State, es: seq<Event>, p: nat)
    requires Inv(s) && Legal(s, es) && (forall i :: 0 <= i < |es| ==> Quiet(es[i]))
    requires p < |s.tasks| && !s.tasks[p].sleeping && s.tasks[p].waiting > 0 && Unlisted(s.tasks, s.tasks[p].waiting)
    requires Schedules(s, es) >= 2 * |s.tasks| - 2
    ensures SelectedDuring(s, es, p)
  {
    SelectedWithinBound(s, es, p);
  }

  // ---------------------------------------------------------------- yields only

  function Yields(n: nat): (es: seq<Event>)
    ensures |es| == n && forall i :: 0 <= i < n ==> es[i] == Yield
  {
    seq(n, _ => Yield)
  }

  lemma {:induction false} YieldsLegal(s: State, n: nat)
    requires Inv(s)
    ensures Legal(s, Yields(n)) && Schedules(s, Yields(n)) == n
    decreases n
  {
    if n > 0 {
      StepKeepsInv(s, Yield);
      assert Yields(n)[1..] == Yields(n - 1);
      YieldsLegal(Step(s, Yield).value, n - 1);
    }
  }

  /** Under yields every task that can run, the current one included, is selected within `n` calls. */
  lemma RoundRobinYields(s: State, p: nat)
    requires Inv(s) && p < |s.tasks| && Runnable(s.tasks[p])
    ensures SelectedDuring(s, Yields(|s.tasks|), p)
  {
    var n := |s.tasks|;
    YieldsLegal(s, n);
    if p != s.running {
      RoundRobin(s, Yields(n), p);
    } else {
      StepKeepsInv(s, Yield);
      ScheduleKeepsTasks(s);
      var s1 := Step(s, Yield).value;
      assert Runnable(s1.tasks[p]) && |s1.tasks| == n && s.nextPid >= 1;
      hide Step, Inv, Runnable, Legal;
      if s1.running == p {
        RunPrefix(s, Yields(n), 0);
        assert SelectedAt(s, Yields(n), 1, p);
      } else {
        LaterInYields(s, s1, n, p);
      }
    }
  }

  lemma LaterInYields(s: State, s1: State, n: nat, p: nat)
    requires Safe(s, Yield) && s.nextPid >= 1 && Step(s, Yield) == Some(s1) && Inv(s1) && |s1.tasks| == n
    requires p < n && p != s1.running && Runnable(s1.tasks[p])
    ensures SelectedDuring(s, Yields(n), p)
  {
    hide Step, Inv, Runnable, Legal;
    YieldsLegal(s1, n - 1);
    RoundRobin(s1, Yields(n - 1), p);
    var k :| 0 < k <= n - 1 && SelectedAt(s1, Yields(n - 1), k, p);
    assert Yields(n)[1..] == Yields(n - 1);
    RunPrefix(s, Yields(n), k);
    assert SelectedAt(s, Yields(n), k + 1, p);
  }

  // ---------------------------------------------------------------- lists that grow and shrink

  /**
   How far position `p` is from where `schedule` may go back to: an exiting task hands over from
   `previous`, not from its own place.
   */
  function Ahead(s: State, p: nat): int {
    p - if s.running == 0 then -1 else s.previous
  }

  /** A task that can run, behind the running one. */
  ghost predicate InLine(s: State, p: nat, pid: nat) {
    s.running < p < |s.tasks| && s.tasks[p].pid == pid && Runnable(s.tasks[p])
  }

  /** `schedule` never passes over a task in line. */
  lemma ScheduleAhead(m: State, p: nat)
    requires Ready(m) && p < |m.tasks| && Runnable(m.tasks[p])
    requires (if m.running == -1 then m.previous else m.running) < p
    ensures var r := Schedule(m);
            var from := if m.running == -1 then m.previous else m.running;
            && |r.tasks| == |m.tasks| && r.tasks[p] == m.tasks[p] && r.previous == from < r.running <= p
  {
    ScheduleKeepsTasks(m);
    ScanClosed(m.tasks, if m.running == -1 then m.previous else m.running);
  }

  /** After one step the task is selected, or off the list, or in line and nearer. */
  ghost predicate Nearer(s: State, p: nat, s1: State, p1: nat, pid: nat) {
    || Unlisted(s1.tasks, pid)
    || (p1 < |s1.tasks| && s1.running == p1 && s1.tasks[p1].pid == pid)
    || (InLine(s1, p1, pid) && Ahead(s1, p1) < Ahead(s, p))
  }

  lemma ScheduleNearer(s: State, m: State, p: nat, p1: nat, pid: nat)
    requires Inv(s) && InLine(s, p, pid) && Ready(m) && p1 < |m.tasks| && m.tasks[p1] == s.tasks[p]
    requires var from := if m.running == -1 then m.previous else m.running; from < p1 && p1 - from < Ahead(s, p)
    ensures Nearer(s, p, Schedule(m), p1, pid)
  {
    hide Schedule, Ready, Inv;
    ScheduleAhead(m, p1);
    RunningIsPositive(m);
  }

  lemma RunningIsPositive(m: State)
    requires Ready(m)
    ensures if m.running == -1 then m.previous >= 0 else m.running >= 0
  {
  }

  lemma UpdateNearer(s: State, u: Task, bg: bool, p: nat, pid: nat)
    requires Inv(s) && s.running > 0 && u.pid == Current(s).pid && u.ppid == Current(s).ppid && InLine(s, p, pid)
    ensures Nearer(s, p, Schedule(SetCurrent(s.(isBg := bg), u)), p, pid)
  {
    hide Schedule;
    var m := SetCurrent(s.(isBg := bg), u);
    assert forall k :: 0 <= k < |s.tasks| ==> m.tasks[k].pid == s.tasks[k].pid && m.tasks[k].ppid == s.tasks[k].ppid;
    ScheduleNearer(s, m, p, p, pid);
  }

  lemma ExitNearer(s: State, p: nat, pid: nat)
    requires Inv(s) && s.running > 0 && InLine(s, p, pid)
    ensures ExitCall(s).Some? && Nearer(s, p, ExitCall(s).value, p - 1, pid)
  {
    hide Schedule;
    DeleteCurrReady(s);
    ScheduleNearer(s, DeleteCurr(s), p, p - 1, pid);
  }

  lemma ExecNearer(s: State, name: string, p: nat, pid: nat)
    requires Inv(s) && s.running > 0 && InLine(s, p, pid)
    ensures Nearer(s, p, ExecCall(s, name), p - 1, pid)
  {
    hide Schedule;
    DeleteCurrReady(s);
    var pcb := NewTask(Current(s).pid, Current(s).ppid, name);
    AddKeepsTasks(DeleteCurr(s).tasks, pcb, s.nextPid);
    var m := AddTask(DeleteCurr(s), pcb);
    assert ExecCall(s, name) == Schedule(m);
    ScheduleNearer(s, m, p, p - 1, pid);
  }

  lemma KillNearer(s: State, target: nat, p: nat, pid: nat) returns (p1: nat)
    requires Inv(s) && s.running > 0 && !KillsBoot(s, target) && InLine(s, p, pid)
    ensures KillCall(s, target).Some? && Nearer(s, p, KillCall(s, target).value, p1, pid)
  {
    hide Schedule;
    KillKeepsInv(s, target);
    var at := FindPid(s.tasks, target, 0);
    var stop := KillStop(s.tasks, s.running, target, 0);
    p1 := p;
    if Current(s).ppid != target && stop.Some? {
      if s.tasks[stop.value].name == KERNEL_NAME {
        ScheduleNearer(s, s, p, p, pid);
      } else {
        ExitNearer(s, p, pid);
        p1 := p - 1;
      }
    } else if at.None? {
      ScheduleNearer(s, s, p, p, pid);
    } else {
      p1 := DeletedNearer(s, target, at.value, p, pid);
    }
  }

  lemma DeletedNearer(s: State, target: nat, i: nat, p: nat, pid: nat) returns (p1: nat)
    requires Inv(s) && s.running > 0 && InLine(s, p, pid) && 0 < i != s.running
    requires FindPid(s.tasks, target, 0) == Some(i)
    ensures DeleteFrom(s, target).Some? && Ready(DeleteFrom(s, target).value)
    ensures Nearer(s, p, Schedule(DeleteFrom(s, target).value), p1, pid)
  {
    hide Schedule;
    DeleteOtherReady(s, i);
    var d := DeleteFrom(s, target).value;
    p1 := if i < p then p - 1 else p;
    if i == p {
      StaysUnlessRemoved(s.tasks, i, s.tasks[p]);
      UnlistedAfterSchedule(d, pid);
    } else {
      ScheduleNearer(s, d, p, p1, pid);
    }
  }

  lemma WaitNearer(s: State, target: nat, bg: bool, p: nat, pid: nat)
    requires Inv(s) && s.running > 0 && InLine(s, p, pid) && CallerBlocks(s, target, bg)
    ensures Nearer(s, p, WaitCall(s, target, bg), p, pid)
  {
    hide Schedule;
    var child := WaitTarget(s.tasks, Current(s).pid, target, 0).value;
    UpdateNearer(s, Current(s).(waiting := s.tasks[child].pid), s.isBg, p, pid);
  }

  /** A step that does not run `schedule` leaves the task in line where it was. */
  lemma StillInLine(s: State, e: Event, p: nat, pid: nat)
    requires Inv(s) && Safe(s, e) && InLine(s, p, pid) && !CallsSchedule(s, e)
    ensures Step(s, e).Some? && InLine(Step(s, e).value, p, pid) && Ahead(Step(s, e).value, p) == Ahead(s, p)
  {
    hide WaitTarget;
  }

  lemma StepNearer(s: State, e: Event, p: nat, pid: nat) returns (p1: nat)
    requires Inv(s) && Safe(s, e) && InLine(s, p, pid) && CallsSchedule(s, e)
    ensures Step(s, e).Some? && Nearer(s, p, Step(s, e).value, p1, pid)
  {
    hide Schedule, WaitCall, ExitCall, ExecCall, KillCall, DistinctPids, WaitTarget, Nearer;
    StepKeepsInv(s, e);
    p1 := p;
    match e
    case Yield => ScheduleNearer(s, s, p, p, pid);
    case Sleep(time, amp) =>
      UpdateNearer(s, Current(s).(bg := amp || Current(s).bg, sleepTime := time % WORD_LIMIT, sleeping := true), amp, p,
                   pid);
    case Exit =>
      ExitNearer(s, p, pid);
      p1 := p - 1;
    case Exec(name) =>
      ExecNearer(s, name, p, pid);
      p1 := p - 1;
    case Kill(target) => p1 := KillNearer(s, target, p, pid);
    case WaitPid(target) => WaitNearer(s, target, s.isBg, p, pid);
    case Wait => WaitNearer(s, 0, false, p, pid);
  }

  /** At some point of the run the task runs, or has been killed. */
  ghost predicate RunsOrGone(s: State, es: seq<Event>, pid: nat) {
    exists k :: 0 < k <= |es| && RunsOrGoneAt(s, es, k, pid)
  }

  ghost predicate RunsOrGoneAt(s: State, es: seq<Event>, k: nat, pid: nat)
    requires k <= |es|
  {
    Run(s, es[..k]).Some? && IsRunOrGone(Run(s, es[..k]).value, pid)
  }

  ghost predicate IsRunOrGone(s: State, pid: nat) {
    Unlisted(s.tasks, pid) || (0 <= s.running < |s.tasks| && s.tasks[s.running].pid == pid)
  }

  /**
   In any run, with tasks created and removed at will, a task that can run and stands behind the
   running one is selected, or killed, within as many calls of `schedule` as it is ahead of `previous`.
   */
  lemma {:induction false} SelectedOrKilled(s: State, es: seq<Event>, p: nat, pid: nat)
    requires Inv(s) && Legal(s, es) && InLine(s, p, pid) && Schedules(s, es) >= Ahead(s, p)
    ensures RunsOrGone(s, es, pid)
    decreases |es|
  {
    hide Step, CallsSchedule, InLine, Inv;
    AheadIsPositive(s, p, pid);
    if es != [] {
      Unfold(s, es);
      UnfoldSchedules(s, es);
      hide Schedules, Legal;
      var s1 := Step(s, es[0]).value;
      var p1 := p;
      if CallsSchedule(s, es[0]) {
        p1 := StepNearer(s, es[0], p, pid);
      } else {
        StillInLine(s, es[0], p, pid);
      }
      RunPrefix(s, es, 0);
      if IsRunOrGone(s1, pid) {
        assert RunsOrGoneAt(s, es, 1, pid);
      } else {
        SelectedOrKilled(s1, es[1..], p1, pid);
        var k :| 0 < k <= |es| - 1 && RunsOrGoneAt(s1, es[1..], k, pid);
        RunPrefix(s, es, k);
        assert RunsOrGoneAt(s, es, k + 1, pid);
      }
    }
  }

  lemma AheadIsPositive(s: State, p: nat, pid: nat)
    requires Inv(s) && InLine(s, p, pid)
    ensures Ahead(s, p) > 0
  {
  }

  // ---------------------------------------------------------------- going back

  /** A list of four tasks, in which the third runs and the second has just woken up. */
  function WokenBehind(): State {
    State([Task(0, NO_PARENT, KERNEL_NAME, 0, 0, false, false), NewTask(1, 0, "a"), NewTask(2, 0, "b"),
           NewTask(3, 0, "c")],
          2, 0, 4, 4, false, 0)
  }

  /** The task right behind the running one is not always next: when that one exits, an earlier one may be selected. */
  lemma ExitGoesBack()
    ensures var s := WokenBehind();
            && Inv(s) && InLine(s, s.running + 1, 3)
            && ExitCall(s).Some? && ExitCall(s).value.tasks[ExitCall(s).value.running].pid == 1
  {
    var s := WokenBehind();
    var d := DeleteCurr(s);
    assert d.tasks == [s.tasks[0], s.tasks[1], s.tasks[3]];
  }
}
