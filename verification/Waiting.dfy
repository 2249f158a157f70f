/**
 Which child a waiting task waits for, and what the `&` of a sleep has to do with it.  A sleep with `&`
 marks the sleeper, and all later `waitpid` calls until the next sleep, as background.
 */
module Waiting {
  import opened Basics
  import opened Scheduler
  import opened Lifecycle
  import opened LifecycleRuns
  import opened Blocked
  import opened CallEffects
  import opened Handover

  // ---------------------------------------------------------------- one call

  /** `i` is the first listed foreground child of `caller`. */
  ghost predicate FirstForeground(ts: seq<Task>, caller: nat, i: nat) {
    && i < |ts| && ts[i].ppid == caller && !ts[i].bg
    && forall j :: 0 <= j < i && ts[j].ppid == caller ==> ts[j].bg
  }

  lemma TargetIsFirst(ts: seq<Task>, caller: nat)
    ensures forall i: nat :: WaitTarget(ts, caller, 0, 0) == Some(i) <==> FirstForeground(ts, caller, i)
    ensures WaitTarget(ts, caller, 0, 0).None? <==> forall j :: 0 <= j < |ts| && ts[j].ppid == caller ==> ts[j].bg
  {
    var at := WaitTarget(ts, caller, 0, 0);
    forall i: nat | FirstForeground(ts, caller, i) ensures at == Some(i) {
      assert at.Some? ==> !(at.value < i) && !(i < at.value);
    }
  }

  lemma TargetIsPid(ts: seq<Task>, caller: nat, pid: nat)
    requires pid > 0 && DistinctPids(ts)
    ensures forall i: nat :: WaitTarget(ts, caller, pid, 0) == Some(i) <==> i < |ts| && ts[i].pid == pid
    ensures WaitTarget(ts, caller, pid, 0).None? <==> Unlisted(ts, pid)
  {
  }

  /** Waiting for a task that is not asleep is just a yield: the flag is cleared again at once. */
  lemma AwakeIsYield(s: State, i: nat)
    requires Inv(s) && s.running > 0 && i < |s.tasks| && !s.tasks[i].sleeping
    ensures Schedule(SetCurrent(s, Current(s).(waiting := s.tasks[i].pid))) == Schedule(s)
  {
    var u := Current(s).(waiting := s.tasks[i].pid);
    var m := SetCurrent(s, u);
    assert forall k :: 0 <= k < |s.tasks| ==> m.tasks[k].pid == s.tasks[k].pid && m.tasks[k].ppid == s.tasks[k].ppid;
    ScanClosed(m.tasks, s.running);
    ScanClosed(s.tasks, s.running);
    SameSleepers(s, m, i);
    var (a, j) := Scan(s.tasks, s.running);
    var (b, k) := Scan(m.tasks, s.running);
    assert j == k && a == b;
  }

  lemma SameSleepers(s: State, m: State, i: nat)
    requires Inv(s) && i < |s.tasks| && !s.tasks[i].sleeping
    requires m.tasks == s.tasks[s.running := Current(s).(waiting := s.tasks[i].pid)]
    ensures forall k :: 0 <= k < |s.tasks| ==> Cleared(m.tasks, m.tasks[k]) == Cleared(s.tasks, s.tasks[k])
  {
    assert DistinctPids(m.tasks);
    forall k | 0 <= k < |s.tasks| ensures Cleared(m.tasks, m.tasks[k]) == Cleared(s.tasks, s.tasks[k]) {
      DoneIsNoneAsleep(s.tasks, s.tasks[k].waiting);
      DoneIsNoneAsleep(m.tasks, m.tasks[k].waiting);
      assert forall x :: 0 <= x < |s.tasks| ==>
               m.tasks[x].pid == s.tasks[x].pid && m.tasks[x].sleeping == s.tasks[x].sleeping;
    }
  }

  lemma ScheduleMoves(s: State)
    requires Inv(s) && s.running > 0
    ensures Schedule(s) != s
  {
  }

  /** What waiting for the task at `i` does. */
  ghost predicate SettlesOn(s: State, r: State, i: nat)
    requires 0 <= s.running < |s.tasks| && i < |s.tasks|
  {
    if s.tasks[i].sleeping
    then WaitsFor(r.tasks, Current(s).pid, s.tasks[i].pid) && 0 <= r.running < |r.tasks|
      && Current(r).pid != Current(s).pid
    else CanSchedule(s) && r == Schedule(s)
  }

  lemma WaitingFor(s: State, target: nat, i: nat)
    requires Inv(s) && s.running > 0 && WaitTarget(s.tasks, Current(s).pid, target, 0) == Some(i)
    ensures WaitCall(s, target, false) != s && SettlesOn(s, WaitCall(s, target, false), i)
  {
    hide Schedule;
    if s.tasks[i].sleeping {
      WaitBlocks(s, target, i);
    } else {
      AwakeIsYield(s, i);
      ScheduleMoves(s);
    }
  }

  /**
   `wait` does something exactly when the caller has a listed child that is not in the background, and then
   it settles on the first of them: it is held if that child is asleep, and only yields if it is not.
   */
  lemma WaitSettles(s: State)
    requires Inv(s) && s.running > 0
    ensures var r := WaitCall(s, 0, false);
            && (r != s <==> exists i :: 0 <= i < |s.tasks| && s.tasks[i].ppid == Current(s).pid && !s.tasks[i].bg)
            && forall i: nat :: FirstForeground(s.tasks, Current(s).pid, i) ==> SettlesOn(s, r, i)
  {
    hide Schedule, SettlesOn, WaitTarget;
    var at := WaitTarget(s.tasks, Current(s).pid, 0, 0);
    TargetIsFirst(s.tasks, Current(s).pid);
    if at.Some? {
      WaitingFor(s, 0, at.value);
      assert FirstForeground(s.tasks, Current(s).pid, at.value);
    }
  }

  /** `waitpid` of a pid: the same for the task of that pid, whosever child it is. */
  lemma WaitPidSettles(s: State, pid: nat)
    requires Inv(s) && s.running > 0 && pid > 0
    ensures WaitCall(s, pid, true) == s
    ensures var r := WaitCall(s, pid, false);
            && (r != s <==> !Unlisted(s.tasks, pid))
            && forall i :: 0 <= i < |s.tasks| && s.tasks[i].pid == pid ==> SettlesOn(s, r, i)
  {
    hide Schedule, SettlesOn, WaitTarget;
    var at := WaitTarget(s.tasks, Current(s).pid, pid, 0);
    TargetIsPid(s.tasks, Current(s).pid, pid);
    if at.Some? {
      WaitingFor(s, pid, at.value);
    }
  }

  // ---------------------------------------------------------------- background marks

  /** Every task of `us` is on `ts` with the same mark. */
  ghost predicate MarksFrom(ts: seq<Task>, us: seq<Task>) {
    forall u :: u in us ==> HasMark(ts, u.pid, u.bg)
  }

  ghost predicate HasMark(ts: seq<Task>, pid: nat, bg: bool) {
    exists t :: t in ts && t.pid == pid && t.bg == bg
  }

  lemma MarksStay(ts: seq<Task>, us: seq<Task>, vs: seq<Task>)
    requires MarksFrom(ts, us) && MarksFrom(us, vs)
    ensures MarksFrom(ts, vs)
  {
    forall v | v in vs ensures HasMark(ts, v.pid, v.bg) {
      var u :| u in us && u.pid == v.pid && u.bg == v.bg;
    }
  }

  lemma ScheduleMarks(m: State)
    requires Ready(m)
    ensures MarksFrom(m.tasks, Schedule(m).tasks) && Schedule(m).isBg == m.isBg
  {
    ScheduleKeepsTasks(m);
    var us := Schedule(m).tasks;
    forall u | u in us ensures HasMark(m.tasks, u.pid, u.bg) {
      var i :| 0 <= i < |us| && us[i] == u;
      assert m.tasks[i] in m.tasks;
    }
  }

  lemma TickMarks(s: State)
    ensures MarksFrom(s.tasks, TimerInterrupt(s).tasks)
  {
    var us := TimerInterrupt(s).tasks;
    forall u | u in us ensures HasMark(s.tasks, u.pid, u.bg) {
      var i :| 0 <= i < |us| && us[i] == u;
      assert s.tasks[i] in s.tasks;
    }
  }

  lemma RemovedMarks(ts: seq<Task>, i: nat)
    requires i < |ts|
    ensures MarksFrom(ts, RemoveAt(ts, i))
  {
    forall u | u in RemoveAt(ts, i) ensures HasMark(ts, u.pid, u.bg) {
      assert u in ts;
    }
  }

  lemma ExitMarks(s: State)
    requires Inv(s) && s.running > 0
    ensures ExitCall(s).Some? && MarksFrom(s.tasks, ExitCall(s).value.tasks) && ExitCall(s).value.isBg == s.isBg
  {
    hide Schedule, MarksFrom;
    DeleteCurrReady(s);
    RemovedMarks(s.tasks, s.running);
    ScheduleMarks(DeleteCurr(s));
    MarksStay(s.tasks, DeleteCurr(s).tasks, ExitCall(s).value.tasks);
  }

  lemma KillMarks(s: State, pid: nat)
    requires Inv(s) && s.running > 0 && !KillsBoot(s, pid)
    ensures KillCall(s, pid).Some?
    ensures MarksFrom(s.tasks, KillCall(s, pid).value.tasks) && KillCall(s, pid).value.isBg == s.isBg
  {
    hide Schedule, MarksFrom;
    KillKeepsInv(s, pid);
    var at := FindPid(s.tasks, pid, 0);
    var stop := KillStop(s.tasks, s.running, pid, 0);
    if Current(s).ppid != pid && stop.Some? {
      if s.tasks[stop.value].name == KERNEL_NAME {
        ScheduleMarks(s);
      } else {
        ExitMarks(s);
      }
    } else if at.None? {
      ScheduleMarks(s);
    } else {
      DeleteOtherReady(s, at.value);
      RemovedMarks(s.tasks, at.value);
      ScheduleMarks(DeleteFrom(s, pid).value);
      MarksStay(s.tasks, DeleteFrom(s, pid).value.tasks, KillCall(s, pid).value.tasks);
    }
  }

  lemma UpdateMarks(s: State, u: Task, bg: bool)
    requires Inv(s) && s.running > 0 && u.pid == Current(s).pid && u.ppid == Current(s).ppid
    ensures var r := Schedule(SetCurrent(s.(isBg := bg), u));
            MarksFrom(s.tasks[s.running := u], r.tasks) && r.isBg == bg
  {
    hide Schedule, MarksFrom;
    var m := SetCurrent(s.(isBg := bg), u);
    assert forall k :: 0 <= k < |s.tasks| ==> m.tasks[k].pid == s.tasks[k].pid && m.tasks[k].ppid == s.tasks[k].ppid;
    ScheduleMarks(m);
  }

  lemma WaitMarks(s: State, target: nat, bg: bool)
    requires Inv(s) && s.running > 0
    ensures MarksFrom(s.tasks, WaitCall(s, target, bg).tasks) && WaitCall(s, target, bg).isBg == s.isBg
  {
    hide Schedule;
    var child := WaitTarget(s.tasks, Current(s).pid, target, 0);
    if !bg && child.Some? {
      var u := Current(s).(waiting := s.tasks[child.value].pid);
      UpdateMarks(s, u, s.isBg);
      SameMark(s.tasks, s.running, u);
      MarksStay(s.tasks, s.tasks[s.running := u], WaitCall(s, target, bg).tasks);
    }
  }

  lemma SameMark(ts: seq<Task>, i: nat, u: Task)
    requires i < |ts| && u.pid == ts[i].pid && u.bg == ts[i].bg
    ensures MarksFrom(ts, ts[i := u])
  {
    forall x | x in ts[i := u] ensures HasMark(ts, x.pid, x.bg) {
      assert ts[i] in ts;
    }
  }

  /** The listed task with this pid is in the background. */
  ghost predicate Marked(ts: seq<Task>, pid: nat) {
    exists t :: t in ts && t.pid == pid && t.bg
  }

  lemma OneMark(ts: seq<Task>, t: Task)
    requires DistinctPids(ts) && t in ts
    ensures t.bg <==> Marked(ts, t.pid)
  {
    var i :| 0 <= i < |ts| && ts[i] == t;
    forall u | u in ts && u.pid == t.pid ensures u == t {
      var j :| 0 <= j < |ts| && ts[j] == u;
    }
  }

  lemma MarksAgree(ts: seq<Task>, us: seq<Task>)
    requires DistinctPids(ts) && MarksFrom(ts, us)
    ensures forall u :: u in us ==> (u.bg <==> Marked(ts, u.pid))
  {
    forall u | u in us ensures u.bg <==> Marked(ts, u.pid) {
      var t :| t in ts && t.pid == u.pid && t.bg == u.bg;
      OneMark(ts, t);
    }
  }

  /** The mark of a task after an event: a sleep of its own with `&` sets it, and a new task has none. */
  ghost predicate MarkAfter(s: State, e: Event, pid: nat, was: bool)
    requires 0 <= s.running < |s.tasks| && s.nextPid >= 0
  {
    if Created(s, e) == Some(pid) then false
    else was || (e.Sleep? && e.amp && Current(s).pid == pid)
  }

  lemma ForkMarks(s: State)
    requires Inv(s)
    ensures forall u :: u in ForkCall(s).tasks ==> (u.bg <==> MarkAfter(s, Fork, u.pid, Marked(s.tasks, u.pid)))
  {
    var child := NewTask(s.nextPid, Current(s).pid, Current(s).name);
    forall u | u in ForkCall(s).tasks ensures u.bg <==> MarkAfter(s, Fork, u.pid, Marked(s.tasks, u.pid)) {
      if u in s.tasks {
        OneMark(s.tasks, u);
        var i :| 0 <= i < |s.tasks| && s.tasks[i] == u;
      }
    }
  }

  lemma ExecMarks(s: State, name: string)
    requires Inv(s) && s.running > 0
    ensures ExecCall(s, name).isBg == s.isBg
    ensures forall u :: u in ExecCall(s, name).tasks ==>
                          (u.bg <==> MarkAfter(s, Exec(name), u.pid, Marked(s.tasks, u.pid)))
  {
    hide Schedule, MarksFrom;
    DeleteCurrReady(s);
    var pcb := NewTask(Current(s).pid, Current(s).ppid, name);
    AddKeepsTasks(DeleteCurr(s).tasks, pcb, s.nextPid);
    var m := AddTask(DeleteCurr(s), pcb);
    assert ExecCall(s, name) == Schedule(m);
    ScheduleMarks(m);
    MarksAgree(m.tasks, Schedule(m).tasks);
    forall u | u in Schedule(m).tasks ensures u.bg <==> MarkAfter(s, Exec(name), u.pid, Marked(s.tasks, u.pid)) {
      ReplacedMark(s, pcb, u.pid);
    }
  }

  lemma ReplacedMark(s: State, pcb: Task, pid: nat)
    requires Inv(s) && s.running > 0 && pcb.pid == Current(s).pid && !pcb.bg
    ensures Marked(RemoveAt(s.tasks, s.running) + [pcb], pid) <==> pid != pcb.pid && Marked(s.tasks, pid)
  {
    hide RemoveAt, Inv;
    RemovedTasks(s);
    var all := RemoveAt(s.tasks, s.running) + [pcb];
    if Marked(all, pid) {
      var t :| t in all && t.pid == pid && t.bg;
      assert t in s.tasks && t.pid != pcb.pid;
    }
    if pid != pcb.pid && Marked(s.tasks, pid) {
      var t :| t in s.tasks && t.pid == pid && t.bg;
      assert t in all;
    }
  }

  lemma RemovedTasks(s: State)
    requires Inv(s)
    ensures 0 <= s.running < |s.tasks|
    ensures forall t :: t in RemoveAt(s.tasks, s.running) <==> t in s.tasks && t.pid != Current(s).pid
  {
    assert DistinctPids(s.tasks);
    RemovedOthers(s.tasks, s.running);
  }

  lemma RemovedOthers(ts: seq<Task>, at: nat)
    requires DistinctPids(ts) && at < |ts|
    ensures forall t :: t in RemoveAt(ts, at) <==> t in ts && t.pid != ts[at].pid
  {
    var rest := RemoveAt(ts, at);
    forall t | t in rest ensures t in ts && t.pid != ts[at].pid {
      var i :| 0 <= i < |rest| && rest[i] == t;
      assert t == ts[if i < at then i else i + 1];
    }
    forall t | t in ts && t.pid != ts[at].pid ensures t in rest {
      var i :| 0 <= i < |ts| && ts[i] == t;
      assert t == rest[if i < at then i else i - 1];
    }
  }

  lemma SleepMarks(s: State, time: int, amp: bool)
    requires Inv(s) && s.running > 0
    ensures SleepCall(s, time, amp).isBg == amp
    ensures forall u :: u in SleepCall(s, time, amp).tasks ==>
                          (u.bg <==> MarkAfter(s, Sleep(time, amp), u.pid, Marked(s.tasks, u.pid)))
  {
    hide Schedule, MarksFrom;
    var t := Current(s).(bg := amp || Current(s).bg, sleepTime := time % WORD_LIMIT, sleeping := true);
    UpdateMarks(s, t, amp);
    var ts := s.tasks[s.running := t];
    assert DistinctPids(ts);
    MarksAgree(ts, SleepCall(s, time, amp).tasks);
    forall u | u in SleepCall(s, time, amp).tasks
      ensures u.bg <==> MarkAfter(s, Sleep(time, amp), u.pid, Marked(s.tasks, u.pid))
    {
      UpdatedMark(s.tasks, s.running, t, u.pid);
    }
  }

  lemma UpdatedMark(ts: seq<Task>, i: nat, t: Task, pid: nat)
    requires DistinctPids(ts) && i < |ts| && t.pid == ts[i].pid
    ensures Marked(ts[i := t], pid) <==> if pid == t.pid then t.bg else Marked(ts, pid)
  {
    var us := ts[i := t];
    assert DistinctPids(us) && us[i] == t && t in us;
    OneMark(us, t);
    if pid != t.pid {
      if Marked(us, pid) {
        var x :| x in us && x.pid == pid && x.bg;
        var j :| 0 <= j < |us| && us[j] == x;
        assert ts[j] == x && x in ts;
      }
      if Marked(ts, pid) {
        var x :| x in ts && x.pid == pid && x.bg;
        var j :| 0 <= j < |ts| && ts[j] == x;
        assert us[j] == x && x in us;
      }
    }
  }

  /** No event but a sleep moves the flag of the system or the mark of a listed task; a new task has no mark. */
  lemma StepMarks(s: State, e: Event)
    requires Inv(s) && Safe(s, e)
    ensures Step(s, e).Some? && Inv(Step(s, e).value)
    ensures Step(s, e).value.isBg == if e.Sleep? then e.amp else s.isBg
    ensures forall u :: u in Step(s, e).value.tasks ==> (u.bg <==> MarkAfter(s, e, u.pid, Marked(s.tasks, u.pid)))
  {
    hide Schedule, WaitCall, ExitCall, ExecCall, KillCall, SleepCall, ForkCall, TimerInterrupt, MarksFrom, Marked;
    StepKeepsInv(s, e);
    match e
    case Yield =>
      ScheduleMarks(s);
      MarksAgree(s.tasks, Schedule(s).tasks);
    case Tick =>
      TickMarks(s);
      MarksAgree(s.tasks, TimerInterrupt(s).tasks);
      FlagStays(s);
    case Fork =>
      ForkMarks(s);
      FlagStays(s);
    case Exit =>
      ExitMarks(s);
      MarksAgree(s.tasks, ExitCall(s).value.tasks);
    case Exec(name) => ExecMarks(s, name);
    case Kill(pid) =>
      KillMarks(s, pid);
      MarksAgree(s.tasks, KillCall(s, pid).value.tasks);
    case Sleep(time, amp) => SleepMarks(s, time, amp);
    case WaitPid(target) =>
      WaitMarks(s, target, s.isBg);
      MarksAgree(s.tasks, WaitCall(s, target, s.isBg).tasks);
    case Wait =>
      WaitMarks(s, 0, false);
      MarksAgree(s.tasks, WaitCall(s, 0, false).tasks);
  }

  lemma FlagStays(s: State)
    requires Inv(s)
    ensures TimerInterrupt(s).isBg == s.isBg && ForkCall(s).isBg == s.isBg
  {
  }

  // ---------------------------------------------------------------- marks over runs

  /** Whether the task has slept with `&` since it was created; `was` is its mark at the start. */
  ghost predicate SleptWithAmp(s: State, es: seq<Event>, pid: nat, was: bool)
    decreases |es|
  {
    if es == [] || !Safe(s, es[0]) || s.nextPid < 1 || Step(s, es[0]).None? then was
    else SleptWithAmp(Step(s, es[0]).value, es[1..], pid, MarkAfter(s, es[0], pid, was))
  }

  /** The `&` of the last sleep of the run, by whatever task. */
  predicate LastAmp(es: seq<Event>, was: bool)
    decreases |es|
  {
    if es == [] then was else LastAmp(es[1..], if es[0].Sleep? then es[0].amp else was)
  }

  /**
   In every run the flag of the system is that of the last sleep, and a task's mark says whether it
   slept with `&`.
   */
  lemma {:induction false} MarksInEveryRun(s: State, es: seq<Event>, pid: nat)
    requires Inv(s) && Legal(s, es)
    ensures Run(s, es).Some? && Inv(Run(s, es).value)
    ensures Run(s, es).value.isBg == LastAmp(es, s.isBg)
    ensures || Unlisted(Run(s, es).value.tasks, pid)
            || (Marked(Run(s, es).value.tasks, pid) <==> SleptWithAmp(s, es, pid, Marked(s.tasks, pid)))
    decreases |es|
  {
    hide Step, Inv, Unlisted, Marked, MarkAfter;
    if es != [] {
      Unfold(s, es);
      hide Legal, Run;
      StepMarks(s, es[0]);
      var s1 := Step(s, es[0]).value;
      MarksInEveryRun(s1, es[1..], pid);
      OneStepMark(s, es[0], s1, pid);
      if Unlisted(s1.tasks, pid) && pid < s.nextPid {
        PidCounterGrows(s, es[0]);
        UnlistedForever(s1, es[1..], pid);
      }
    }
  }

  /** A pid that has never been given out is marked neither before nor after. */
  lemma OneStepMark(s: State, e: Event, s1: State, pid: nat)
    requires Inv(s) && Safe(s, e) && Step(s, e) == Some(s1) && Inv(s1)
    requires forall u :: u in s1.tasks ==> (u.bg <==> MarkAfter(s, e, u.pid, Marked(s.tasks, u.pid)))
    ensures || (Unlisted(s1.tasks, pid) && pid < s.nextPid)
            || (Marked(s1.tasks, pid) <==> MarkAfter(s, e, pid, Marked(s.tasks, pid)))
  {
    hide Step;
    if Unlisted(s1.tasks, pid) {
      if pid >= s.nextPid {
        assert !Marked(s1.tasks, pid) && !Marked(s.tasks, pid) && pid != Current(s).pid;
      }
    } else {
      var i :| 0 <= i < |s1.tasks| && s1.tasks[i].pid == pid;
      assert s1.tasks[i] in s1.tasks;
      OneMark(s1.tasks, s1.tasks[i]);
    }
  }

  // ---------------------------------------------------------------- sleep, then wait

  lemma {:induction false} NoSleepKeepsFlag(es: seq<Event>, was: bool)
    requires forall i :: 0 <= i < |es| ==> !es[i].Sleep?
    ensures LastAmp(es, was) == was
    decreases |es|
  {
    if es != [] {
      NoSleepKeepsFlag(es[1..], was);
    }
  }

  /** The countdowns that a sleep of `time` seconds lasts. */
  function SleepLength(time: int): nat {
    if time % WORD_LIMIT == 0 then WORD_LIMIT else time % WORD_LIMIT
  }

  /** The sleep, what happens between, and the state in which somebody then waits. */
  lemma AfterSleep(s: State, time: int, amp: bool, es: seq<Event>) returns (s2: State)
    requires Inv(s) && s.running > 0 && Legal(SleepCall(s, time, amp), es)
    requires (forall i :: 0 <= i < |es| ==> !es[i].Sleep?)
    requires Countdowns(SleepCall(s, time, amp), es) < SleepLength(time)
    ensures Run(SleepCall(s, time, amp), es) == Some(s2) && Inv(s2) && s2.isBg == amp
    ensures || Unlisted(s2.tasks, Current(s).pid)
            || AsleepFor(s2.tasks, Current(s).pid, SleepLength(time) - Countdowns(SleepCall(s, time, amp), es))
  {
    hide Schedule, Step, AsleepFor, Unlisted, Legal, Countdowns;
    var s1 := SleepCall(s, time, amp);
    SleepKeepsInv(s, time, amp);
    SleepMarks(s, time, amp);
    SleepStarts(s, time, amp);
    SleepsThrough(s1, es, Current(s).pid, SleepLength(time));
    MarksInEveryRun(s1, es, Current(s).pid);
    NoSleepKeepsFlag(es, amp);
    s2 := Run(s1, es).value;
  }

  /**
   Across the two calls, with any events but sleeps between, while the sleeper is still asleep: after a sleep
   without `&`, whoever calls `waitpid` for the sleeper is held; after a sleep with `&` the call returns at
   once and changes nothing.
   */
  lemma SleepThenWaitPid(s: State, time: int, amp: bool, es: seq<Event>)
    requires Inv(s) && s.running > 0 && Legal(SleepCall(s, time, amp), es)
    requires (forall i :: 0 <= i < |es| ==> !es[i].Sleep?)
    requires Countdowns(SleepCall(s, time, amp), es) < SleepLength(time)
    requires Run(SleepCall(s, time, amp), es).Some? && Run(SleepCall(s, time, amp), es).value.running > 0
    requires !Unlisted(Run(SleepCall(s, time, amp), es).value.tasks, Current(s).pid)
    ensures var s2, child := Run(SleepCall(s, time, amp), es).value, Current(s).pid;
            && Inv(s2) && Step(s2, WaitPid(child)).Some?
            && var r := Step(s2, WaitPid(child)).value;
            if amp then r == s2
            else Inv(r) && WaitsFor(r.tasks, Current(s2).pid, child) && Current(r).pid != Current(s2).pid
  {
    hide Schedule, Legal, Countdowns, SleepCall, WaitCall, Inv, Run, AsleepFor, Unlisted, WaitsFor;
    RunningListed(s);
    var s2 := AfterSleep(s, time, amp, es);
    SleeperHolds(s2, Current(s).pid, SleepLength(time) - Countdowns(SleepCall(s, time, amp), es));
  }

  /** Whoever waits for a sleeper is held, unless the last sleep was one with `&`. */
  lemma SleeperHolds(s: State, child: nat, left: nat)
    requires Inv(s) && s.running > 0 && AsleepFor(s.tasks, child, left)
    ensures Step(s, WaitPid(child)).Some?
    ensures var r := Step(s, WaitPid(child)).value;
            if s.isBg then r == s
            else Inv(r) && WaitsFor(r.tasks, Current(s).pid, child) && Current(r).pid != Current(s).pid
  {
    hide Schedule, WaitCall;
    var t :| t in s.tasks && t.pid == child && t.sleeping && Remaining(t) == left;
    var i :| 0 <= i < |s.tasks| && s.tasks[i] == t;
    WaitPidSettles(s, child);
    StepKeepsInv(s, WaitPid(child));
    assert SettlesOn(s, WaitCall(s, child, false), i);
  }

  /**
   From boot, after any run: `wait` leaves the state as it is exactly when every listed child of the caller has
   slept with `&` since it was created, and it never settles on a child that has.
   */
  lemma WaitSkipsBackground(shell: string, ticks: nat, es: seq<Event>)
    requires Legal(BootState(shell, ticks), es)
    ensures Run(BootState(shell, ticks), es).Some? && Inv(Run(BootState(shell, ticks), es).value)
    ensures var b := BootState(shell, ticks);
            var s := Run(b, es).value;
            s.running > 0 ==>
              && (Step(s, Wait) == Some(s) <==>
                    forall i :: 0 <= i < |s.tasks| && s.tasks[i].ppid == Current(s).pid ==>
                                  SleptWithAmp(b, es, s.tasks[i].pid, false))
              && forall i: nat :: FirstForeground(s.tasks, Current(s).pid, i) ==>
                               !SleptWithAmp(b, es, s.tasks[i].pid, false) && SettlesOn(s, Step(s, Wait).value, i)
  {
    hide BootState, Run, Legal, SleptWithAmp, SettlesOn, Step, Inv;
    var b := BootState(shell, ticks);
    BootInv(shell, ticks);
    RunKeepsInv(b, es);
    var s := Run(b, es).value;
    RunningListed(s);
    BootMarks(shell, ticks, es);
    if s.running > 0 {
      WaitSettles(s);
      WaitIsCall(s);
    }
  }

  lemma RunningListed(s: State)
    requires Inv(s)
    ensures 0 <= s.running < |s.tasks|
  {
  }

  /** From boot, the mark of a listed task says whether it has slept with `&`. */
  lemma BootMarks(shell: string, ticks: nat, es: seq<Event>)
    requires Legal(BootState(shell, ticks), es)
    ensures Run(BootState(shell, ticks), es).Some?
    ensures var s := Run(BootState(shell, ticks), es).value;
            forall i :: 0 <= i < |s.tasks| ==>
                          (s.tasks[i].bg <==> SleptWithAmp(BootState(shell, ticks), es, s.tasks[i].pid, false))
  {
    var b := BootState(shell, ticks);
    BootInv(shell, ticks);
    assert !b.tasks[0].bg && !b.tasks[1].bg;
    hide BootState, Run, Legal, SleptWithAmp;
    RunKeepsInv(b, es);
    var s := Run(b, es).value;
    forall i | 0 <= i < |s.tasks| ensures s.tasks[i].bg <==> SleptWithAmp(b, es, s.tasks[i].pid, false) {
      MarksInEveryRun(b, es, s.tasks[i].pid);
      OneMark(s.tasks, s.tasks[i]);
      assert !Marked(b.tasks, s.tasks[i].pid);
    }
  }

  lemma WaitIsCall(s: State)
    requires Inv(s) && s.running > 0
    ensures Step(s, Wait) == Some(WaitCall(s, 0, false))
  {
  }
}
