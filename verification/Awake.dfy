/** A task that is awake has no sleep left over, in every run from boot. */
module Awake {
  import opened Basics
  import opened Scheduler
  import opened Lifecycle
  import opened LifecycleRuns

  ghost predicate Rested(ts: seq<Task>) {
    forall i :: 0 <= i < |ts| && !ts[i].sleeping ==> ts[i].sleepTime == 0
  }

  lemma ScheduleRests(s: State)
    requires Ready(s) && Rested(s.tasks)
    ensures Rested(Schedule(s).tasks)
  {
    ScheduleKeepsTasks(s);
  }

  lemma UpdateRests(s: State, u: Task)
    requires Inv(s) && s.running > 0 && u.pid == Current(s).pid && u.ppid == Current(s).ppid && Rested(s.tasks)
    requires !u.sleeping ==> u.sleepTime == 0
    ensures Rested(Schedule(SetCurrent(s, u)).tasks)
  {
    hide Schedule;
    var m := SetCurrent(s, u);
    assert forall k :: 0 <= k < |s.tasks| ==> m.tasks[k].pid == s.tasks[k].pid && m.tasks[k].ppid == s.tasks[k].ppid;
    ScheduleRests(m);
  }

  lemma ExitRests(s: State)
    requires Inv(s) && s.running > 0 && Rested(s.tasks)
    ensures ExitCall(s).Some? && Rested(ExitCall(s).value.tasks)
  {
    hide Schedule;
    DeleteCurrReady(s);
    ScheduleRests(DeleteCurr(s));
  }

  lemma KillRests(s: State, pid: nat)
    requires Inv(s) && s.running > 0 && !KillsBoot(s, pid) && Rested(s.tasks)
    ensures KillCall(s, pid).Some? && Rested(KillCall(s, pid).value.tasks)
  {
    hide Schedule;
    KillKeepsInv(s, pid);
    var at := FindPid(s.tasks, pid, 0);
    var stop := KillStop(s.tasks, s.running, pid, 0);
    if Current(s).ppid != pid && stop.Some? {
      if s.tasks[stop.value].name == KERNEL_NAME {
        ScheduleRests(s);
      } else {
        ExitRests(s);
      }
    } else if at.None? {
      ScheduleRests(s);
    } else {
      DeleteOtherReady(s, at.value);
      ScheduleRests(DeleteFrom(s, pid).value);
    }
  }

  lemma ExecRests(s: State, name: string)
    requires Inv(s) && s.running > 0 && Rested(s.tasks)
    ensures Rested(ExecCall(s, name).tasks)
  {
    hide Schedule;
    DeleteCurrReady(s);
    var pcb := NewTask(Current(s).pid, Current(s).ppid, name);
    AddKeepsTasks(DeleteCurr(s).tasks, pcb, s.nextPid);
    var m := AddTask(DeleteCurr(s), pcb);
    assert ExecCall(s, name) == Schedule(m);
    ScheduleRests(m);
  }

  /** The countdown wakes a task exactly when it has used up its time. */
  lemma TickRests(s: State)
    requires Rested(s.tasks)
    ensures Rested(TimerInterrupt(s).tasks)
  {
    var r := TimerInterrupt(s);
    forall i | 0 <= i < |r.tasks| && !r.tasks[i].sleeping ensures r.tasks[i].sleepTime == 0 {
      assert r.tasks[i] == s.tasks[i] || r.tasks[i] == DecTask(s.tasks[i]);
    }
  }

  lemma WaitRests(s: State, target: nat, bg: bool)
    requires Inv(s) && s.running > 0 && Rested(s.tasks)
    ensures Rested(WaitCall(s, target, bg).tasks)
  {
    hide Schedule;
    var child := WaitTarget(s.tasks, Current(s).pid, target, 0);
    if !bg && child.Some? {
      UpdateRests(s, Current(s).(waiting := s.tasks[child.value].pid));
    }
  }

  lemma StepRests(s: State, e: Event)
    requires Inv(s) && Safe(s, e) && Rested(s.tasks)
    ensures Step(s, e).Some? && Rested(Step(s, e).value.tasks)
  {
    hide Schedule;
    StepKeepsInv(s, e);
    match e
    case Yield => ScheduleRests(s);
    case Tick => TickRests(s);
    case Fork =>
    case Exit => ExitRests(s);
    case Exec(name) => ExecRests(s, name);
    case Kill(pid) => KillRests(s, pid);
    case Sleep(time, amp) =>
      var t := Current(s).(bg := amp || Current(s).bg, sleepTime := time % WORD_LIMIT, sleeping := true);
      UpdateRests(s.(isBg := amp), t);
    case WaitPid(target) => WaitRests(s, target, s.isBg);
    case Wait => WaitRests(s, 0, false);
  }

  lemma {:induction false} RunRests(s: State, es: seq<Event>)
    requires Inv(s) && Legal(s, es) && Rested(s.tasks)
    ensures Run(s, es).Some? && Rested(Run(s, es).value.tasks)
    decreases |es|
  {
    hide Step;
    if es != [] {
      StepKeepsInv(s, es[0]);
      StepRests(s, es[0]);
      RunRests(Step(s, es[0]).value, es[1..]);
    }
  }

  /** From boot, in every run, a task that is awake has no time left to sleep. */
  lemma AwakeInEveryRun(shell: string, ticks: nat, es: seq<Event>)
    requires Legal(BootState(shell, ticks), es)
    ensures Run(BootState(shell, ticks), es).Some?
    ensures forall t :: t in Run(BootState(shell, ticks), es).value.tasks && !t.sleeping ==> t.sleepTime == 0
  {
    BootInv(shell, ticks);
    RunRests(BootState(shell, ticks), es);
  }
}
