/** Tasks that cannot run: how long a sleeper sleeps and how long a waiter waits, in every run. */
module Blocked {
  import opened Basics
  import opened Scheduler
  import opened Lifecycle
  import opened LifecycleRuns

  ghost predicate Unlisted(ts: seq<Task>, pid: nat) {
    forall i :: 0 <= i < |ts| ==> ts[i].pid != pid
  }

  // ---------------------------------------------------------------- what a step does to the others

  /** `t` is off the list `ts`, or still on it with nothing changed but perhaps a cleared flag. */
  ghost predicate LeftAlone(ts: seq<Task>, t: Task) {
    Unlisted(ts, t.pid) || t in ts || Cleared(ts, t) in ts
  }

  lemma ScheduleLeavesAlone(s: State, t: Task)
    requires Ready(s) && t in s.tasks
    ensures t in Schedule(s).tasks || Cleared(Schedule(s).tasks, t) in Schedule(s).tasks
  {
    ScheduleKeepsTasks(s);
    var i :| 0 <= i < |s.tasks| && s.tasks[i] == t;
    ChildDoneAgrees(s.tasks, Schedule(s).tasks, t.waiting);
    assert Schedule(s).tasks[i] == t || Schedule(s).tasks[i] == Cleared(s.tasks, t);
  }

  lemma UnlistedAfterSchedule(s: State, pid: nat)
    requires Ready(s) && Unlisted(s.tasks, pid)
    ensures Unlisted(Schedule(s).tasks, pid) && Schedule(s).nextPid == s.nextPid
  {
    ScheduleKeepsTasks(s);
  }

  lemma StaysUnlessRemoved(ts: seq<Task>, i: nat, t: Task)
    requires i < |ts| && t in ts && DistinctPids(ts)
    ensures if ts[i] == t then Unlisted(RemoveAt(ts, i), t.pid) else t in RemoveAt(ts, i)
  {
    var j :| 0 <= j < |ts| && ts[j] == t;
    if j != i {
      assert RemoveAt(ts, i)[if j < i then j else j - 1] == t;
    }
  }

  lemma StaysWhenUpdated(ts: seq<Task>, i: nat, u: Task, t: Task)
    requires i < |ts| && t in ts && ts[i].pid != t.pid
    ensures t in ts[i := u]
  {
    var j :| 0 <= j < |ts| && ts[j] == t;
    assert ts[i := u][j] == t;
  }

  lemma KillLeavesAlone(s: State, pid: nat, t: Task)
    requires Inv(s) && s.running > 0 && !KillsBoot(s, pid) && t in s.tasks && t.pid != Current(s).pid
    ensures KillCall(s, pid).Some? && LeftAlone(KillCall(s, pid).value.tasks, t)
  {
    KillKeepsInv(s, pid);
    var at := FindPid(s.tasks, pid, 0);
    var stop := KillStop(s.tasks, s.running, pid, 0);
    if Current(s).ppid != pid && stop.Some? {
      if s.tasks[stop.value].name == KERNEL_NAME {
        ScheduleLeavesAlone(s, t);
      } else {
        ExitLeavesAlone(s, t);
      }
    } else if at.None? {
      ScheduleLeavesAlone(s, t);
    } else {
      DeleteOtherReady(s, at.value);
      var d := DeleteFrom(s, pid).value;
      StaysUnlessRemoved(s.tasks, at.value, t);
      if s.tasks[at.value] == t {
        UnlistedAfterSchedule(d, t.pid);
      } else {
        ScheduleLeavesAlone(d, t);
      }
    }
  }

  lemma ExitLeavesAlone(s: State, t: Task)
    requires Inv(s) && s.running > 0 && t in s.tasks && t.pid != Current(s).pid
    ensures ExitCall(s).Some? && LeftAlone(ExitCall(s).value.tasks, t)
  {
    DeleteCurrReady(s);
    StaysUnlessRemoved(s.tasks, s.running, t);
    ScheduleLeavesAlone(DeleteCurr(s), t);
  }

  lemma ExecLeavesAlone(s: State, name: string, t: Task)
    requires Inv(s) && s.running > 0 && t in s.tasks && t.pid != Current(s).pid
    ensures LeftAlone(ExecCall(s, name).tasks, t)
  {
    DeleteCurrReady(s);
    var pcb := NewTask(Current(s).pid, Current(s).ppid, name);
    AddKeepsTasks(DeleteCurr(s).tasks, pcb, s.nextPid);
    StaysUnlessRemoved(s.tasks, s.running, t);
    var s1 := AddTask(DeleteCurr(s), pcb);
    assert t in s1.tasks;
    assert ExecCall(s, name) == Schedule(s1);
    ScheduleLeavesAlone(s1, t);
  }

  lemma WaitLeavesAlone(s: State, target: nat, bg: bool, t: Task)
    requires Inv(s) && s.running > 0 && t in s.tasks && t.pid != Current(s).pid
    ensures LeftAlone(WaitCall(s, target, bg).tasks, t)
  {
    var child := WaitTarget(s.tasks, Current(s).pid, target, 0);
    if !bg && child.Some? {
      var u := Current(s).(waiting := s.tasks[child.value].pid);
      StaysWhenUpdated(s.tasks, s.running, u, t);
      ScheduleLeavesAlone(SetCurrent(s, u), t);
    }
  }

  /** Apart from the timer, a step touches another task only by removing it or clearing its flag. */
  lemma StepLeavesAlone(s: State, e: Event, t: Task)
    requires Inv(s) && Safe(s, e) && !e.Tick? && t in s.tasks && t.pid != Current(s).pid
    ensures Step(s, e).Some? && LeftAlone(Step(s, e).value.tasks, t)
  {
    match e
    case Yield => ScheduleLeavesAlone(s, t);
    case Fork => assert t in ForkCall(s).tasks;
    case Exit => ExitLeavesAlone(s, t);
    case Exec(name) => ExecLeavesAlone(s, name, t);
    case Kill(pid) => KillLeavesAlone(s, pid, t);
    case Sleep(time, amp) =>
      var u := Current(s).(bg := amp || Current(s).bg, sleepTime := time % WORD_LIMIT, sleeping := true);
      StaysWhenUpdated(s.tasks, s.running, u, t);
      ScheduleLeavesAlone(SetCurrent(s.(isBg := amp), u), t);
    case WaitPid(target) => WaitLeavesAlone(s, target, s.isBg, t);
    case Wait => WaitLeavesAlone(s, 0, false, t);
  }

  // ---------------------------------------------------------------- sleepers

  /** How many countdowns a sleeping task is still asleep for; the field wraps around below zero. */
  function Remaining(t: Task): nat {
    if t.sleepTime == 0 then WORD_LIMIT else t.sleepTime
  }

  ghost predicate AsleepFor(ts: seq<Task>, pid: nat, left: nat) {
    exists t :: t in ts && t.pid == pid && t.sleeping && Remaining(t) == left
  }

  ghost predicate Awake(ts: seq<Task>, pid: nat) {
    exists t :: t in ts && t.pid == pid && !t.sleeping
  }

  /** Whether the event calls `dec_sleep_count`. */
  predicate CountsDown(s: State, e: Event) {
    e.Tick? && s.ticks % 100 == 0
  }

  function Countdowns(s: State, es: seq<Event>): nat
    decreases |es|
  {
    if es == [] || !Safe(s, es[0]) || s.nextPid < 1 || Step(s, es[0]).None? then 0
    else (if CountsDown(s, es[0]) then 1 else 0) + Countdowns(Step(s, es[0]).value, es[1..])
  }

  lemma StepOnSleeper(s: State, e: Event, pid: nat, left: nat)
    requires Inv(s) && Safe(s, e) && AsleepFor(s.tasks, pid, left)
    ensures Step(s, e).Some?
    ensures var ts := Step(s, e).value.tasks;
            || Unlisted(ts, pid)
            || (if !CountsDown(s, e) then AsleepFor(ts, pid, left)
                else if left > 1 then AsleepFor(ts, pid, left - 1) else Awake(ts, pid))
  {
    var t :| t in s.tasks && t.pid == pid && t.sleeping && Remaining(t) == left;
    if e.Tick? {
      TimerOnSleeper(s, t);
    } else {
      NotRunning(s, pid, left);
      StepLeavesAlone(s, e, t);
      hide Step;
      assert Remaining(Cleared(Step(s, e).value.tasks, t)) == left;
    }
  }

  lemma DecRemaining(t: Task)
    requires t.sleeping
    ensures var u := DecTask(t);
            && u.pid == t.pid
            && (if Remaining(t) > 1 then u.sleeping && Remaining(u) == Remaining(t) - 1 else !u.sleeping)
  {
    if t.sleepTime == 0 {
      assert (t.sleepTime - 1) % WORD_LIMIT == WORD_LIMIT - 1;
    }
  }

  lemma TimerOnSleeper(s: State, t: Task)
    requires t in s.tasks && t.sleeping
    ensures var ts := TimerInterrupt(s).tasks;
            if s.ticks % 100 != 0 then AsleepFor(ts, t.pid, Remaining(t))
            else if Remaining(t) > 1 then AsleepFor(ts, t.pid, Remaining(t) - 1) else Awake(ts, t.pid)
  {
    var i :| 0 <= i < |s.tasks| && s.tasks[i] == t;
    DecRemaining(t);
    var ts := TimerInterrupt(s).tasks;
    assert ts[i] == if s.ticks % 100 == 0 then DecTask(t) else t;
    assert ts[i] in ts;
  }

  lemma StepOnUnlisted(s: State, e: Event, pid: nat)
    requires Inv(s) && Safe(s, e) && Unlisted(s.tasks, pid) && pid < s.nextPid
    ensures Step(s, e).Some?
    ensures Unlisted(Step(s, e).value.tasks, pid) && pid < Step(s, e).value.nextPid
  {
    hide TimerInterrupt, ForkCall, ExitCall, ExecCall, KillCall, SleepCall, WaitCall, Schedule, Unlisted;
    StepKeepsInv(s, e);
    match e
    case Yield => UnlistedAfterSchedule(s, pid);
    case Tick => TickOnUnlisted(s, pid);
    case Fork => ForkOnUnlisted(s, pid);
    case Exit => ExitOnUnlisted(s, pid);
    case Exec(name) => ExecOnUnlisted(s, name, pid);
    case Kill(target) => KillOnUnlisted(s, target, pid);
    case Sleep(time, amp) => SleepOnUnlisted(s, time, amp, pid);
    case WaitPid(target) => WaitOnUnlisted(s, target, s.isBg, pid);
    case Wait => WaitOnUnlisted(s, 0, false, pid);
  }

  lemma TickOnUnlisted(s: State, pid: nat)
    requires Unlisted(s.tasks, pid)
    ensures Unlisted(TimerInterrupt(s).tasks, pid) && TimerInterrupt(s).nextPid == s.nextPid
  {
    assert forall i :: 0 <= i < |s.tasks| ==> TimerInterrupt(s).tasks[i].pid == s.tasks[i].pid;
  }

  lemma ForkOnUnlisted(s: State, pid: nat)
    requires Inv(s) && Unlisted(s.tasks, pid) && pid < s.nextPid
    ensures Unlisted(ForkCall(s).tasks, pid) && pid < ForkCall(s).nextPid
  {
  }

  lemma ExitOnUnlisted(s: State, pid: nat)
    requires Inv(s) && s.running > 0 && Unlisted(s.tasks, pid)
    ensures ExitCall(s).Some? && Unlisted(ExitCall(s).value.tasks, pid) && ExitCall(s).value.nextPid == s.nextPid
  {
    DeleteCurrReady(s);
    UnlistedAfterSchedule(DeleteCurr(s), pid);
  }

  lemma SleepOnUnlisted(s: State, time: int, amp: bool, pid: nat)
    requires Inv(s) && s.running > 0 && Unlisted(s.tasks, pid)
    ensures Unlisted(SleepCall(s, time, amp).tasks, pid) && SleepCall(s, time, amp).nextPid == s.nextPid
  {
    hide Scan;
    var u := Current(s).(bg := amp || Current(s).bg, sleepTime := time % WORD_LIMIT, sleeping := true);
    UnlistedAfterSchedule(SetCurrent(s.(isBg := amp), u), pid);
  }

  lemma ExecOnUnlisted(s: State, name: string, pid: nat)
    requires Inv(s) && s.running > 0 && Unlisted(s.tasks, pid)
    ensures Unlisted(ExecCall(s, name).tasks, pid) && ExecCall(s, name).nextPid == s.nextPid
  {
    ExecKeepsIdentity(s, name);
    hide ExecCall, Inv;
    var r, n := ExecCall(s, name), |s.tasks| - 1;
    forall i | 0 <= i < |r.tasks| ensures r.tasks[i].pid != pid {
      assert i < n ==> r.tasks[i].pid == RemoveAt(s.tasks, s.running)[i].pid;
    }
  }

  lemma KillOnUnlisted(s: State, target: nat, pid: nat)
    requires Inv(s) && s.running > 0 && !KillsBoot(s, target) && Unlisted(s.tasks, pid)
    ensures KillCall(s, target).Some?
    ensures Unlisted(KillCall(s, target).value.tasks, pid) && KillCall(s, target).value.nextPid == s.nextPid
  {
    hide Schedule, Unlisted, DistinctPids;
    KillKeepsInv(s, target);
    if Current(s).ppid != target && KillStop(s.tasks, s.running, target, 0).Some? {
      if s.tasks[KillStop(s.tasks, s.running, target, 0).value].name == KERNEL_NAME {
        UnlistedAfterSchedule(s, pid);
      } else {
        ExitOnUnlisted(s, pid);
      }
    } else {
      DeleteOnUnlisted(s, target, pid);
    }
  }

  lemma DeleteOnUnlisted(s: State, target: nat, pid: nat)
    requires Inv(s) && s.running > 0 && !KillsBoot(s, target) && Unlisted(s.tasks, pid)
    requires Current(s).ppid == target || KillStop(s.tasks, s.running, target, 0).None?
    ensures DeleteAndSchedule(s, target).Some?
    ensures Unlisted(DeleteAndSchedule(s, target).value.tasks, pid)
    ensures DeleteAndSchedule(s, target).value.nextPid == s.nextPid
  {
    hide Schedule;
    var at := FindPid(s.tasks, target, 0);
    if at.None? {
      UnlistedAfterSchedule(s, pid);
    } else {
      DeleteOtherReady(s, at.value);
      UnlistedAfterSchedule(DeleteFrom(s, target).value, pid);
    }
  }

  lemma WaitOnUnlisted(s: State, target: nat, bg: bool, pid: nat)
    requires Inv(s) && s.running > 0 && Unlisted(s.tasks, pid)
    ensures Unlisted(WaitCall(s, target, bg).tasks, pid) && WaitCall(s, target, bg).nextPid == s.nextPid
  {
    var child := WaitTarget(s.tasks, Current(s).pid, target, 0);
    if !bg && child.Some? {
      UnlistedAfterSchedule(SetCurrent(s, Current(s).(waiting := s.tasks[child.value].pid)), pid);
    }
  }

  /** A pid that has left the list never comes back. */
  lemma {:induction false} UnlistedForever(s: State, es: seq<Event>, pid: nat)
    requires Inv(s) && Legal(s, es) && Unlisted(s.tasks, pid) && pid < s.nextPid
    ensures Run(s, es).Some? && Unlisted(Run(s, es).value.tasks, pid)
    decreases |es|
  {
    hide Step, Inv, Unlisted;
    if es == [] {
      assert Run(s, es) == Some(s);
    } else {
      Unfold(s, es);
      hide Run, Legal;
      StepOnUnlisted(s, es[0], pid);
      UnlistedForever(Step(s, es[0]).value, es[1..], pid);
    }
  }

  lemma NotRunning(s: State, pid: nat, left: nat)
    requires Inv(s) && (Unlisted(s.tasks, pid) || AsleepFor(s.tasks, pid, left))
    ensures Current(s).pid != pid
  {
    if AsleepFor(s.tasks, pid, left) {
      var t :| t in s.tasks && t.pid == pid && t.sleeping && Remaining(t) == left;
      var i :| 0 <= i < |s.tasks| && s.tasks[i] == t;
    }
  }

  lemma {:induction false} StaysAsleep(s: State, es: seq<Event>, pid: nat, left: nat)
    requires Inv(s) && Legal(s, es) && AsleepFor(s.tasks, pid, left) && Countdowns(s, es) < left
    ensures Run(s, es).Some?
    ensures Unlisted(Run(s, es).value.tasks, pid) || AsleepFor(Run(s, es).value.tasks, pid, left - Countdowns(s, es))
    decreases |es|
  {
    hide Step, Inv, AsleepFor, Unlisted;
    if es == [] {
      assert Run(s, es) == Some(s) && Countdowns(s, es) == 0;
    } else {
      Unfold(s, es);
      hide Run, Legal, Countdowns;
      StepOnSleeper(s, es[0], pid, left);
      var s1 := Step(s, es[0]).value;
      if Unlisted(s1.tasks, pid) {
        ListedBelow(s, pid, left);
        PidCounterGrows(s, es[0]);
        UnlistedForever(s1, es[1..], pid);
      } else {
        StaysAsleep(s1, es[1..], pid, if CountsDown(s, es[0]) then left - 1 else left);
      }
    }
  }

  /** One step of a legal run. */
  lemma Unfold(s: State, es: seq<Event>)
    requires Inv(s) && Legal(s, es) && es != []
    ensures Safe(s, es[0]) && s.nextPid >= 1 && Step(s, es[0]).Some?
    ensures var s1 := Step(s, es[0]).value;
            && Inv(s1) && Legal(s1, es[1..]) && Run(s, es) == Run(s1, es[1..])
            && Countdowns(s, es) == (if CountsDown(s, es[0]) then 1 else 0) + Countdowns(s1, es[1..])
  {
    StepKeepsInv(s, es[0]);
  }

  /**
   In any interleaving, a task with `left` countdowns to sleep stays asleep, and is never selected,
   through every run with fewer countdowns than that, unless it is killed.
   */
  lemma SleepsThrough(s: State, es: seq<Event>, pid: nat, left: nat)
    requires Inv(s) && Legal(s, es) && AsleepFor(s.tasks, pid, left) && Countdowns(s, es) < left
    ensures Run(s, es).Some? && Inv(Run(s, es).value)
    ensures var s' := Run(s, es).value;
            && (Unlisted(s'.tasks, pid) || AsleepFor(s'.tasks, pid, left - Countdowns(s, es)))
            && Current(s').pid != pid
  {
    RunKeepsInv(s, es);
    StaysAsleep(s, es, pid, left);
    NotRunning(Run(s, es).value, pid, left - Countdowns(s, es));
  }

  lemma ListedBelow(s: State, pid: nat, left: nat)
    requires Inv(s) && AsleepFor(s.tasks, pid, left)
    ensures pid < s.nextPid
  {
    var t :| t in s.tasks && t.pid == pid && t.sleeping && Remaining(t) == left;
  }

  lemma PidCounterGrows(s: State, e: Event)
    requires Inv(s) && Safe(s, e) && Step(s, e).Some?
    ensures s.nextPid <= Step(s, e).value.nextPid
  {
    hide Step, Inv;
    StepCounter(s, e);
  }

  /** ... and the countdown after that wakes it: it slept for exactly `left` countdowns. */
  lemma WakesOnTime(s: State, es: seq<Event>, pid: nat, left: nat)
    requires Inv(s) && Legal(s, es) && AsleepFor(s.tasks, pid, left) && Countdowns(s, es) == left - 1
    requires Run(s, es).Some? && CountsDown(Run(s, es).value, Tick)
    ensures var ts := TimerInterrupt(Run(s, es).value).tasks; Unlisted(ts, pid) || Awake(ts, pid)
  {
    SleepsThrough(s, es, pid, left);
    var s' := Run(s, es).value;
    if AsleepFor(s'.tasks, pid, 1) {
      StepOnSleeper(s', Tick, pid, 1);
    }
  }

  /** `sys_sleep(time)` puts the caller to sleep for `time` countdowns; 0 and negative times wrap around. */
  lemma SleepStarts(s: State, time: int, amp: bool)
    requires Inv(s) && s.running > 0
    ensures var r := SleepCall(s, time, amp);
            && AsleepFor(r.tasks, Current(s).pid, if time % WORD_LIMIT == 0 then WORD_LIMIT else time % WORD_LIMIT)
            && (1 <= time < WORD_LIMIT ==> AsleepFor(r.tasks, Current(s).pid, time))
  {
    var u := Current(s).(bg := amp || Current(s).bg, sleepTime := time % WORD_LIMIT, sleeping := true);
    var s1 := SetCurrent(s.(isBg := amp), u);
    assert s1.tasks[s1.running] == u;
    ScheduleLeavesAlone(s1, u);
    var r := Schedule(s1);
    assert Remaining(Cleared(r.tasks, u)) == Remaining(u);
  }

  /** Countdowns happen once every hundred timer interrupts, wherever the count starts. */
  lemma {:induction false} CountdownsByTicks(s: State, es: seq<Event>)
    requires Inv(s) && Legal(s, es)
    ensures Run(s, es).Some?
    ensures Countdowns(s, es) == (Run(s, es).value.ticks + 99) / 100 - (s.ticks + 99) / 100
    decreases |es|
  {
    hide Step, Inv;
    if es == [] {
      assert Run(s, es) == Some(s) && Countdowns(s, es) == 0;
    } else {
      Unfold(s, es);
      hide Run, Legal, Countdowns, Safe;
      TicksOnlyByTimer(s, es[0]);
      Hundreds(s.ticks);
      CountdownsByTicks(Step(s, es[0]).value, es[1..]);
    }
  }

  lemma Hundreds(k: nat)
    ensures (k + 1 + 99) / 100 - (k + 99) / 100 == if k % 100 == 0 then 1 else 0
  {
  }

  lemma TicksOnlyByTimer(s: State, e: Event)
    requires Inv(s) && Safe(s, e) && Step(s, e).Some?
    ensures Step(s, e).value.ticks == s.ticks + if e.Tick? then 1 else 0
  {
    hide Scan, FindPid, KillStop, WaitTarget, Inv, DecAll;
    if e.Kill? {
      KillKeepsTicks(s, e.pid);
      hide KillCall;
    }
  }

  lemma KillKeepsTicks(s: State, pid: nat)
    requires Inv(s) && s.running > 0 && KillCall(s, pid).Some?
    ensures KillCall(s, pid).value.ticks == s.ticks
  {
    hide Scan, FindPid, KillStop, Inv;
  }

  // ---------------------------------------------------------------- waiters

  ghost predicate WaitsFor(ts: seq<Task>, pid: nat, child: nat) {
    exists t :: t in ts && t.pid == pid && t.waiting == child
  }

  lemma SleepingIsNotDone(ts: seq<Task>, child: nat, left: nat)
    requires DistinctPids(ts) && AsleepFor(ts, child, left)
    ensures !ChildDone(ts, child)
  {
    var t :| t in ts && t.pid == child && t.sleeping && Remaining(t) == left;
    var i :| 0 <= i < |ts| && ts[i] == t;
    var f := FindPid(ts, child, 0);
    assert f.Some? && f.value == i;
  }

  /** A step cannot release a waiter whose child is listed and asleep afterwards. */
  lemma StepOnWaiter(s: State, e: Event, pid: nat, child: nat, left: nat)
    requires Inv(s) && Safe(s, e) && child > 0 && WaitsFor(s.tasks, pid, child)
    requires Step(s, e).Some? && AsleepFor(Step(s, e).value.tasks, child, left)
    ensures Inv(Step(s, e).value)
    ensures var s' := Step(s, e).value;
            Unlisted(s'.tasks, pid) || (WaitsFor(s'.tasks, pid, child) && Current(s').pid != pid)
  {
    hide TimerInterrupt, ForkCall, ExitCall, ExecCall, KillCall, SleepCall, WaitCall, Schedule, ChildDone, AsleepFor;
    StepKeepsInv(s, e);
    WaiterNotRunning(s, pid, child);
    var t :| t in s.tasks && t.pid == pid && t.waiting == child;
    var s' := Step(s, e).value;
    if e.Tick? {
      TickOnWaiter(s, pid, child);
    } else {
      StepLeavesAlone(s, e, t);
      SleepingIsNotDone(s'.tasks, child, left);
      assert Cleared(s'.tasks, t) == t;
    }
    if WaitsFor(s'.tasks, pid, child) {
      WaiterNotRunning(s', pid, child);
    }
  }

  lemma TickOnWaiter(s: State, pid: nat, child: nat)
    requires WaitsFor(s.tasks, pid, child)
    ensures WaitsFor(TimerInterrupt(s).tasks, pid, child)
  {
    var t :| t in s.tasks && t.pid == pid && t.waiting == child;
    var i :| 0 <= i < |s.tasks| && s.tasks[i] == t;
    var ts := TimerInterrupt(s).tasks;
    assert ts[i] in ts && ts[i].waiting == child;
  }

  lemma WaiterNotRunning(s: State, pid: nat, child: nat)
    requires Inv(s) && child > 0 && WaitsFor(s.tasks, pid, child)
    ensures Current(s).pid != pid
  {
    var t :| t in s.tasks && t.pid == pid && t.waiting == child;
    var i :| 0 <= i < |s.tasks| && s.tasks[i] == t;
    assert i != s.running;
  }

  /**
   In any interleaving, a task that waits for a sleeping child is neither released nor selected
   while the child has countdowns left, as long as neither of them is killed.
   */
  lemma {:induction false} WaiterHeldWhileChildSleeps(s: State, es: seq<Event>, pid: nat, child: nat, left: nat)
    requires Inv(s) && Legal(s, es) && child > 0
    requires WaitsFor(s.tasks, pid, child) && AsleepFor(s.tasks, child, left) && Countdowns(s, es) < left
    ensures Run(s, es).Some? && Inv(Run(s, es).value)
    ensures var s' := Run(s, es).value;
            || Unlisted(s'.tasks, child)
            || Unlisted(s'.tasks, pid)
            || (WaitsFor(s'.tasks, pid, child) && Current(s').pid != pid)
    decreases |es|
  {
    if es == [] {
      WaiterNotRunning(s, pid, child);
    } else {
      var t :| t in s.tasks && t.pid == pid && t.waiting == child;
      assert 0 <= pid < s.nextPid;
      hide Step, Inv, AsleepFor, Unlisted, WaitsFor;
      StepKeepsInv(s, es[0]);
      StepOnSleeper(s, es[0], child, left);
      var s1 := Step(s, es[0]).value;
      RunKeepsInv(s1, es[1..]);
      PidCounterGrows(s, es[0]);
      ListedBelow(s, child, left);
      if Unlisted(s1.tasks, child) {
        UnlistedForever(s1, es[1..], child);
      } else {
        var left1 := if CountsDown(s, es[0]) then left - 1 else left;
        StepOnWaiter(s, es[0], pid, child, left1);
        if Unlisted(s1.tasks, pid) {
          UnlistedForever(s1, es[1..], pid);
        } else {
          WaiterHeldWhileChildSleeps(s1, es[1..], pid, child, left1);
        }
      }
    }
  }
}
