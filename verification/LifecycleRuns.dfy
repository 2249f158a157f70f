/** Whole runs of the process lifecycle: list safety, task counting and identity. */
module LifecycleRuns {
  import opened Basics
  import opened Scheduler
  import opened Lifecycle

  // ---------------------------------------------------------------- runs

  function Run(s: State, es: seq<Event>): (r: Option<State>)
    decreases |es|
  {
    if es == [] then Some(s)
    else if !Safe(s, es[0]) || s.nextPid < 1 then None
    else
      var s1 := Step(s, es[0]);
      if s1.None? then None else Run(s1.value, es[1..])
  }

  /** Every event of the run is safe in the state in which it happens. */
  ghost predicate Legal(s: State, es: seq<Event>)
    decreases |es|
  {
    es != [] ==>
      && Safe(s, es[0])
      && (s.nextPid >= 1 && Step(s, es[0]).Some? ==> Legal(Step(s, es[0]).value, es[1..]))
  }

  /** In every run of safe steps no list walk leaves the list and the invariant holds throughout. */
  lemma {:induction false} RunKeepsInv(s: State, es: seq<Event>)
    requires Inv(s) && Legal(s, es)
    ensures Run(s, es).Some? && Inv(Run(s, es).value)
    decreases |es|
  {
    if es != [] {
      StepKeepsInv(s, es[0]);
      RunKeepsInv(Step(s, es[0]).value, es[1..]);
    }
  }

  // ---------------------------------------------------------------- the kill that is not safe

  /** `sys_kill` keeps the list sound exactly when it is not a child of the boot task killing pid 0. */
  lemma KillSafeIff(s: State, pid: nat)
    requires Inv(s) && s.running > 0
    ensures KillCall(s, pid).Some? && Inv(KillCall(s, pid).value) <==> !KillsBoot(s, pid)
  {
    if KillsBoot(s, pid) {
      assert FindPid(s.tasks, 0, 0) == Some(0);
      if s.previous != 0 {
        var d := DeleteFrom(s, 0).value;
        assert d.tasks[0].pid == s.tasks[1].pid != 0;
        if CanSchedule(d) {
          var from := if d.running == -1 then d.previous else d.running;
          ScanClosed(d.tasks, from);
        }
      }
    } else {
      KillKeepsInv(s, pid);
    }
  }

  /** The shell that boot starts can do it with its first call. */
  lemma KillBootLeavesList(shell: string, ticks: nat)
    ensures Inv(BootState(shell, ticks)) && BootState(shell, ticks).running > 0
    ensures KillCall(BootState(shell, ticks), 0) == None
  {
    var s := BootState(shell, ticks);
    BootInv(shell, ticks);
    assert s.tasks[0].pid == 0 && s.previous == 0 && Current(s).ppid == 0;
    assert FindPid(s.tasks, 0, 0) == Some(0);
  }

  // ---------------------------------------------------------------- the task count

  /** The tasks that a step takes off the list without counting them down. */
  function Uncounted(s: State, e: Event): nat
    requires 0 <= s.running < |s.tasks|
  {
    if e.Kill? && (Current(s).ppid == e.pid || KillStop(s.tasks, s.running, e.pid, 0).None?)
       && FindPid(s.tasks, e.pid, 0).Some?
    then 1 else 0
  }

  function UncountedIn(s: State, es: seq<Event>): nat
    decreases |es|
  {
    if es == [] || !Safe(s, es[0]) || s.nextPid < 1 || Step(s, es[0]).None? then 0
    else Uncounted(s, es[0]) + UncountedIn(Step(s, es[0]).value, es[1..])
  }

  lemma StepCounts(s: State, e: Event)
    requires Inv(s) && Safe(s, e)
    ensures Step(s, e).Some?
    ensures var s' := Step(s, e).value;
            s'.taskCount - |s'.tasks| == s.taskCount - |s.tasks| + Uncounted(s, e)
  {
    StepKeepsInv(s, e);
    hide Scan, Clear, KillStop, FindPid, WaitTarget, Inv;
    if e.Exec? {
      ExecCounts(s, e.name);
      hide ExecCall;
    } else if e.Kill? {
      KillCounts(s, e.pid);
      hide KillCall;
    }
  }

  lemma ExecCounts(s: State, name: string)
    requires Inv(s) && s.running > 0
    ensures ExecCall(s, name).taskCount - |ExecCall(s, name).tasks| == s.taskCount - |s.tasks|
  {
    hide Scan;
  }

  lemma KillCounts(s: State, pid: nat)
    requires Inv(s) && s.running > 0 && KillCall(s, pid).Some?
    ensures var s' := KillCall(s, pid).value;
            s'.taskCount - |s'.tasks| == s.taskCount - |s.tasks| + Uncounted(s, Kill(pid))
  {
    hide Scan, KillStop, FindPid;
  }

  /** `task_count` is the length of the list plus the removals made by `delete_from_task_list`. */
  lemma {:induction false} RunCounts(s: State, es: seq<Event>)
    requires Inv(s) && Legal(s, es)
    ensures Run(s, es).Some?
    ensures Run(s, es).value.taskCount - |Run(s, es).value.tasks| == s.taskCount - |s.tasks| + UncountedIn(s, es)
    decreases |es|
  {
    if es != [] {
      StepKeepsInv(s, es[0]);
      StepCounts(s, es[0]);
      RunCounts(Step(s, es[0]).value, es[1..]);
    }
  }

  lemma CountFromBoot(shell: string, ticks: nat, es: seq<Event>)
    requires Legal(BootState(shell, ticks), es)
    ensures var r := Run(BootState(shell, ticks), es);
            r.Some? && r.value.taskCount == |r.value.tasks| + UncountedIn(BootState(shell, ticks), es)
  {
    BootInv(shell, ticks);
    RunCounts(BootState(shell, ticks), es);
  }

  /** `exec` keeps the pid counter, the caller's pid and parent, and everybody else's place. */
  lemma ExecKeepsIdentity(s: State, name: string)
    requires Inv(s) && s.running > 0
    ensures var r := ExecCall(s, name);
            && r.nextPid == s.nextPid && |r.tasks| == |s.tasks|
            && var t := r.tasks[|r.tasks| - 1];
            && t.pid == Current(s).pid && t.ppid == Current(s).ppid && t.name == name && Runnable(t)
            && forall k :: 0 <= k < |s.tasks| - 1 ==> r.tasks[k].pid == RemoveAt(s.tasks, s.running)[k].pid
  {
    DeleteCurrReady(s);
    var pcb := NewTask(Current(s).pid, Current(s).ppid, name);
    var s1 := AddTask(DeleteCurr(s), pcb);
    assert ExecCall(s, name) == Schedule(s1);
    AddKeepsTasks(DeleteCurr(s).tasks, pcb, s.nextPid);
    ScheduleKeepsTasks(s1);
  }

  // ---------------------------------------------------------------- the pid counter

  lemma StepCounter(s: State, e: Event)
    requires Inv(s) && Safe(s, e)
    ensures Step(s, e).Some? && Step(s, e).value.nextPid == s.nextPid + if e.Fork? then 1 else 0
  {
    StepKeepsInv(s, e);
    if e.Exec? {
      ExecKeepsIdentity(s, e.name);
    } else if e.Kill? {
      KillKeepsCounter(s, e.pid);
    }
    hide ExecCall, KillCall, Scan;
  }

  lemma KillKeepsCounter(s: State, pid: nat)
    requires Inv(s) && s.running > 0 && KillCall(s, pid).Some?
    ensures KillCall(s, pid).value.nextPid == s.nextPid
  {
    hide Scan, KillStop;
  }
}
