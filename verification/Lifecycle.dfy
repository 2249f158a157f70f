/** What every step of the process lifecycle keeps, and what holds in every run. */
module Lifecycle {
  import opened Basics
  import opened Scheduler

  // ---------------------------------------------------------------- the scan, in closed form

  function Cleared(ts: seq<Task>, t: Task): Task {
    if t.waiting > 0 && ChildDone(ts, t.waiting) then t.(waiting := 0) else t
  }

  /** Two lists that differ at most in waiting flags. */
  ghost predicate SameButWaiting(ts: seq<Task>, us: seq<Task>) {
    |ts| == |us| && forall k :: 0 <= k < |ts| ==> us[k] == ts[k].(waiting := us[k].waiting)
  }

  lemma {:induction false} FindPidAgrees(ts: seq<Task>, us: seq<Task>, pid: nat, from: nat)
    requires SameButWaiting(ts, us) && from <= |ts|
    ensures FindPid(us, pid, from) == FindPid(ts, pid, from)
    decreases |ts| - from
  {
    if from < |ts| {
      FindPidAgrees(ts, us, pid, from + 1);
    }
  }

  lemma ChildDoneAgrees(ts: seq<Task>, us: seq<Task>, pid: nat)
    requires SameButWaiting(ts, us)
    ensures ChildDone(us, pid) == ChildDone(ts, pid)
  {
    FindPidAgrees(ts, us, pid, 0);
  }

  lemma ClearClosed(ts: seq<Task>, i: nat)
    requires i < |ts|
    ensures var vs := Clear(ts, i);
            && SameButWaiting(ts, vs) && vs[i] == Cleared(ts, ts[i])
            && (forall k :: 0 <= k < |ts| && k != i ==> vs[k] == ts[k])
            && (forall t :: Cleared(vs, t) == Cleared(ts, t))
  {
    var vs := Clear(ts, i);
    forall t ensures Cleared(vs, t) == Cleared(ts, t) {
      ChildDoneAgrees(ts, vs, t.waiting);
    }
  }

  /** The scan stops before the next runnable task and clears exactly the flags it may clear on its way. */
  lemma {:induction false} ScanClosed(ts: seq<Task>, i: nat)
    requires i < |ts|
    ensures var (us, j) := Scan(ts, i);
            && (forall k :: 0 <= k < |ts| ==> us[k] == if i <= k <= j then Cleared(ts, ts[k]) else ts[k])
            && (forall k :: i < k <= j ==> !Runnable(ts[k]))
            && (j + 1 < |ts| ==> Runnable(ts[j + 1]))
    decreases |ts| - i
  {
    hide Clear, Cleared, Runnable;
    ClearClosed(ts, i);
    if i + 1 < |ts| && !Runnable(ts[i + 1]) {
      ScanClosed(Clear(ts, i), i + 1);
    }
  }

  // ---------------------------------------------------------------- the invariant

  ghost predicate DistinctPids(ts: seq<Task>) {
    forall i, j :: 0 <= i < j < |ts| ==> ts[i].pid != ts[j].pid
  }

  ghost predicate IsBoot(t: Task) {
    t.pid == 0 && t.ppid == NO_PARENT && t.name == KERNEL_NAME && Runnable(t)
  }

  ghost predicate GoodTasks(ts: seq<Task>, nextPid: int) {
    && ts != [] && IsBoot(ts[0]) && DistinctPids(ts)
    && (forall i :: 0 <= i < |ts| ==> ts[i].pid < nextPid)
    && (forall i :: 0 < i < |ts| ==> ts[i].ppid < ts[i].pid)
  }

  /**
   The boot task heads the list and can always run; pids are distinct and below the counter;
   both pointers are positions in the list, with `previous` before `running` unless the head runs;
   and the running task is neither asleep nor waiting.
   */
  ghost predicate Inv(s: State) {
    && GoodTasks(s.tasks, s.nextPid)
    && 0 <= s.running < |s.tasks| && 0 <= s.previous < |s.tasks|
    && (s.running != 0 ==> s.previous < s.running)
    && Runnable(s.tasks[s.running])
  }

  /** What `schedule` needs: the invariant without the promise about the current task. */
  ghost predicate Ready(s: State) {
    && GoodTasks(s.tasks, s.nextPid)
    && (if s.running == -1 then 0 <= s.previous < |s.tasks| else 0 <= s.running < |s.tasks|)
  }

  lemma ScheduleKeepsTasks(s: State)
    requires Ready(s)
    ensures var r := Schedule(s);
            && SameButWaiting(s.tasks, r.tasks) && r.nextPid == s.nextPid && r.taskCount == s.taskCount
            && r.ticks == s.ticks && r.isBg == s.isBg
            && (forall k :: 0 <= k < |s.tasks| ==>
                  r.tasks[k] == s.tasks[k] || r.tasks[k] == Cleared(s.tasks, s.tasks[k]))
  {
    if s.running == -1 {
      ScanClosed(s.tasks, s.previous);
    } else {
      ScanClosed(s.tasks, s.running);
    }
  }

  /** `schedule` always picks a task that can run, and leaves both pointers on the list. */
  lemma ScheduleEstablishesInv(s: State)
    requires Ready(s)
    ensures Inv(Schedule(s))
  {
    ScheduleKeepsTasks(s);
    var from := if s.running == -1 then s.previous else s.running;
    ScanClosed(s.tasks, from);
  }

  // ---------------------------------------------------------------- steps

  datatype Event =
    | Yield | Tick | Fork | Exit
    | Exec(name: string)
    | Kill(pid: nat)
    | Sleep(time: int, amp: bool)
    | WaitPid(target: nat)
    | Wait

  /** The head task only yields; every other call comes from another task. */
  predicate FromCaller(s: State, e: Event) {
    e.Yield? || e.Tick? || s.running > 0
  }

  /** `None` stands for a list walk that leaves the list. */
  function Step(s: State, e: Event): (r: Option<State>)
    requires 0 <= s.running < |s.tasks| && s.nextPid >= 1 && FromCaller(s, e)
  {
    match e
    case Yield => Some(Schedule(s))
    case Tick => Some(TimerInterrupt(s))
    case Fork => Some(ForkCall(s))
    case Exit => ExitCall(s)
    case Exec(name) => Some(ExecCall(s, name))
    case Kill(pid) => KillCall(s, pid)
    case Sleep(time, amp) => Some(SleepCall(s, time, amp))
    case WaitPid(target) => Some(WaitCall(s, target, s.isBg))
    case Wait => Some(WaitCall(s, 0, false))
  }

  /** The one call that breaks the list: a child of the boot task kills pid 0. */
  predicate KillsBoot(s: State, pid: nat)
    requires 0 <= s.running < |s.tasks|
  {
    pid == 0 && Current(s).ppid == 0
  }

  predicate Safe(s: State, e: Event) {
    0 <= s.running < |s.tasks| && FromCaller(s, e) && (e.Kill? ==> !KillsBoot(s, e.pid))
  }

  lemma RemovedKeepsTasks(ts: seq<Task>, i: nat, nextPid: int)
    requires GoodTasks(ts, nextPid) && 0 < i < |ts|
    ensures GoodTasks(RemoveAt(ts, i), nextPid)
  {
  }

  lemma DeleteCurrReady(s: State)
    requires Inv(s) && s.running > 0
    ensures Ready(DeleteCurr(s)) && DeleteCurr(s).running == -1
  {
    RemovedKeepsTasks(s.tasks, s.running, s.nextPid);
  }

  lemma AddKeepsTasks(ts: seq<Task>, t: Task, nextPid: int)
    requires GoodTasks(ts, nextPid) && t.pid < nextPid && t.ppid < t.pid
    requires forall i :: 0 <= i < |ts| ==> ts[i].pid != t.pid
    ensures GoodTasks(ts + [t], nextPid)
  {
  }

  lemma ExecKeepsInv(s: State, name: string)
    requires Inv(s) && s.running > 0
    ensures Inv(ExecCall(s, name))
  {
    DeleteCurrReady(s);
    var parent := Current(s);
    var s1 := DeleteCurr(s.(nextPid := s.nextPid - 1 + 1));
    AddKeepsTasks(s1.tasks, NewTask(parent.pid, parent.ppid, name), s.nextPid);
    ScheduleEstablishesInv(AddTask(s1, NewTask(parent.pid, parent.ppid, name)));
  }

  lemma DeleteOtherReady(s: State, i: nat)
    requires Inv(s) && s.running > 0 && 0 < i < |s.tasks| && i != s.running
    requires FindPid(s.tasks, s.tasks[i].pid, 0) == Some(i)
    ensures DeleteFrom(s, s.tasks[i].pid).Some? && Ready(DeleteFrom(s, s.tasks[i].pid).value)
  {
    RemovedKeepsTasks(s.tasks, i, s.nextPid);
  }

  lemma KillKeepsInv(s: State, pid: nat)
    requires Inv(s) && s.running > 0 && !KillsBoot(s, pid)
    ensures KillCall(s, pid).Some? && Inv(KillCall(s, pid).value)
  {
    hide Schedule;
    var at := FindPid(s.tasks, pid, 0);
    var stop := KillStop(s.tasks, s.running, pid, 0);
    if Current(s).ppid != pid && stop.Some? {
      if s.tasks[stop.value].name == KERNEL_NAME {
        ScheduleEstablishesInv(s);
      } else {
        DeleteCurrReady(s);
        ScheduleEstablishesInv(DeleteCurr(s));
      }
    } else if at.None? {
      ScheduleEstablishesInv(s);
    } else {
      DeleteOtherReady(s, at.value);
      ScheduleEstablishesInv(DeleteFrom(s, pid).value);
    }
  }

  lemma CallKeepsInv(s: State, t: Task, bg: bool)
    requires Inv(s) && s.running > 0 && t.pid == Current(s).pid && t.ppid == Current(s).ppid
    ensures Inv(Schedule(SetCurrent(s.(isBg := bg), t)))
  {
    ScheduleEstablishesInv(SetCurrent(s.(isBg := bg), t));
  }

  lemma TickKeepsInv(s: State)
    requires Inv(s)
    ensures Inv(TimerInterrupt(s))
  {
    var ts := TimerInterrupt(s).tasks;
    assert forall i :: 0 <= i < |ts| ==>
             ts[i].pid == s.tasks[i].pid && ts[i].ppid == s.tasks[i].ppid && ts[i].name == s.tasks[i].name;
    assert forall i :: 0 <= i < |ts| && Runnable(s.tasks[i]) ==> ts[i] == s.tasks[i];
  }

  lemma ForkKeepsInv(s: State)
    requires Inv(s)
    ensures Inv(ForkCall(s))
  {
    AddKeepsTasks(s.tasks, NewTask(s.nextPid, Current(s).pid, Current(s).name), s.nextPid + 1);
  }

  lemma ExitKeepsInv(s: State)
    requires Inv(s) && s.running > 0
    ensures ExitCall(s).Some? && Inv(ExitCall(s).value)
  {
    DeleteCurrReady(s);
    ScheduleEstablishesInv(DeleteCurr(s));
  }

  lemma SleepKeepsInv(s: State, time: int, amp: bool)
    requires Inv(s) && s.running > 0
    ensures Inv(SleepCall(s, time, amp))
  {
    CallKeepsInv(s, Current(s).(bg := amp || Current(s).bg, sleepTime := time % WORD_LIMIT, sleeping := true), amp);
  }

  /** Every safe step stays on the list and keeps the invariant. */
  lemma StepKeepsInv(s: State, e: Event)
    requires Inv(s) && Safe(s, e)
    ensures Step(s, e).Some? && Inv(Step(s, e).value)
  {
    hide TimerInterrupt, ForkCall, ExitCall, ExecCall, KillCall, SleepCall, WaitCall, Schedule, DistinctPids;
    match e
    case Yield => ScheduleEstablishesInv(s);
    case Tick => TickKeepsInv(s);
    case Fork => ForkKeepsInv(s);
    case Exit => ExitKeepsInv(s);
    case Exec(name) => ExecKeepsInv(s, name);
    case Kill(pid) => KillKeepsInv(s, pid);
    case Sleep(time, amp) => SleepKeepsInv(s, time, amp);
    case WaitPid(target) => WaitKeepsInv(s, target, s.isBg);
    case Wait => WaitKeepsInv(s, 0, false);
  }

  lemma WaitKeepsInv(s: State, target: nat, bg: bool)
    requires Inv(s) && s.running > 0
    ensures Inv(WaitCall(s, target, bg))
  {
    var child := WaitTarget(s.tasks, Current(s).pid, target, 0);
    if !bg && child.Some? {
      CallKeepsInv(s, Current(s).(waiting := s.tasks[child.value].pid), s.isBg);
    }
  }

  lemma BootInv(shell: string, ticks: nat)
    ensures Inv(BootState(shell, ticks)) && BootState(shell, ticks).nextPid == 2
    ensures BootState(shell, ticks).taskCount == |BootState(shell, ticks).tasks| == 2
    ensures var b := BootState(shell, ticks);
            && b.running == 1 && b.previous == 0 && !b.isBg && b.ticks == ticks
            && Current(b).pid == 1 && Current(b).ppid == 0 && Current(b).name == shell
  {
  }
}
