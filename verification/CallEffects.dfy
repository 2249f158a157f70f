/** What single system calls mean for the rest of a run: new pids, removals and waiting. */
module CallEffects {
  import opened Basics
  import opened Scheduler
  import opened Lifecycle
  import opened LifecycleRuns
  import opened Blocked

  // ---------------------------------------------------------------- pids

  function Forks(es: seq<Event>): nat {
    if es == [] then 0 else (if es[0].Fork? then 1 else 0) + Forks(es[1..])
  }

  /** Only `fork` moves the pid counter: `exec` gives back the pid that the loader takes. */
  lemma {:induction false} CounterIsForks(s: State, es: seq<Event>)
    requires Inv(s) && Legal(s, es)
    ensures Run(s, es).Some? && Run(s, es).value.nextPid == s.nextPid + Forks(es)
    decreases |es|
  {
    if es != [] {
      hide Step, Inv;
      Unfold(s, es);
      StepCounter(s, es[0]);
      CounterIsForks(Step(s, es[0]).value, es[1..]);
    }
  }

  /**
   A child gets a pid that no listed task has, and that no child forked later in any run will get;
   it is listed last, ready to run, under its caller's pid and name, and nobody else changes.
   */
  lemma ForkedPidIsNew(s: State, es: seq<Event>)
    requires Inv(s) && s.running > 0 && Legal(ForkCall(s), es)
    ensures var r := ForkCall(s);
            && Unlisted(s.tasks, s.nextPid) && r.tasks[..|s.tasks|] == s.tasks && |r.tasks| == |s.tasks| + 1
            && var child := r.tasks[|s.tasks|];
            && child.pid == s.nextPid && child.ppid == Current(s).pid && child.name == Current(s).name
            && Runnable(child)
            && Run(r, es).Some? && child.pid < Run(r, es).value.nextPid
  {
    assert Safe(s, Fork);
    StepKeepsInv(s, Fork);
    CounterIsForks(ForkCall(s), es);
  }

  // ---------------------------------------------------------------- exit and kill

  /** A victim that `sys_kill` refuses to remove: a task named like the kernel that is not the caller's parent. */
  ghost predicate Spared(s: State, pid: nat)
    requires 0 <= s.running < |s.tasks|
  {
    Current(s).ppid != pid && exists i :: 0 <= i < |s.tasks| && s.tasks[i].pid == pid && s.tasks[i].name == KERNEL_NAME
  }

  lemma RemovedIsUnlisted(ts: seq<Task>, i: nat)
    requires DistinctPids(ts) && i < |ts|
    ensures Unlisted(RemoveAt(ts, i), ts[i].pid)
  {
  }

  lemma ExitRemoves(s: State)
    requires Inv(s) && s.running > 0
    ensures ExitCall(s).Some? && Unlisted(ExitCall(s).value.tasks, Current(s).pid)
  {
    DeleteCurrReady(s);
    RemovedIsUnlisted(s.tasks, s.running);
    UnlistedAfterSchedule(DeleteCurr(s), Current(s).pid);
  }

  lemma DeleteRemoves(s: State, pid: nat)
    requires Inv(s) && s.running > 0 && !KillsBoot(s, pid)
    requires Current(s).ppid == pid || KillStop(s.tasks, s.running, pid, 0).None?
    ensures DeleteAndSchedule(s, pid).Some? && Unlisted(DeleteAndSchedule(s, pid).value.tasks, pid)
  {
    var at := FindPid(s.tasks, pid, 0);
    if at.None? {
      UnlistedAfterSchedule(s, pid);
    } else {
      DeleteOtherReady(s, at.value);
      RemovedIsUnlisted(s.tasks, at.value);
      UnlistedAfterSchedule(DeleteFrom(s, pid).value, pid);
    }
  }

  lemma SparedStays(s: State, pid: nat)
    requires Inv(s) && s.running > 0 && Spared(s, pid)
    ensures KillCall(s, pid) == Some(Schedule(s)) && !Unlisted(Schedule(s).tasks, pid)
  {
    var i :| 0 <= i < |s.tasks| && s.tasks[i].pid == pid && s.tasks[i].name == KERNEL_NAME;
    var stop := KillStop(s.tasks, s.running, pid, 0);
    assert stop.Some? && stop.value == i;
    ScheduleKeepsTasks(s);
    assert Schedule(s).tasks[i].pid == pid;
  }

  /** `sys_kill` takes the pid off the list unless it is spared, and then it stays on. */
  lemma KillRemovesIff(s: State, pid: nat)
    requires Inv(s) && s.running > 0 && !KillsBoot(s, pid)
    ensures KillCall(s, pid).Some?
    ensures Unlisted(KillCall(s, pid).value.tasks, pid) <==> !Spared(s, pid)
  {
    KillKeepsInv(s, pid);
    if Spared(s, pid) {
      SparedStays(s, pid);
    } else {
      hide Schedule;
      var stop := KillStop(s.tasks, s.running, pid, 0);
      if Current(s).ppid != pid && stop.Some? {
        ExitRemoves(s);
      } else {
        DeleteRemoves(s, pid);
      }
    }
  }

  /** A process that exits is never listed again, whatever happens later. */
  lemma ExitedForever(s: State, es: seq<Event>)
    requires Inv(s) && s.running > 0 && ExitCall(s).Some? && Legal(ExitCall(s).value, es)
    ensures Run(ExitCall(s).value, es).Some? && Unlisted(Run(ExitCall(s).value, es).value.tasks, Current(s).pid)
  {
    ExitRemoves(s);
    StepKeepsInv(s, Exit);
    StepCounter(s, Exit);
    UnlistedForever(ExitCall(s).value, es, Current(s).pid);
  }

  /** A listed process that is killed and not spared is never listed again. */
  lemma KilledForever(s: State, pid: nat, es: seq<Event>)
    requires Inv(s) && s.running > 0 && !KillsBoot(s, pid) && !Spared(s, pid) && pid < s.nextPid
    requires KillCall(s, pid).Some? && Legal(KillCall(s, pid).value, es)
    ensures Run(KillCall(s, pid).value, es).Some? && Unlisted(Run(KillCall(s, pid).value, es).value.tasks, pid)
  {
    KillRemovesIff(s, pid);
    KillKeepsInv(s, pid);
    StepCounter(s, Kill(pid));
    UnlistedForever(KillCall(s, pid).value, es, pid);
  }

  // ---------------------------------------------------------------- waitpid

  lemma UpdatedSleeper(s: State, u: Task, i: nat)
    requires Inv(s) && i < |s.tasks| && s.tasks[i].sleeping && u.pid == Current(s).pid
    ensures !ChildDone(SetCurrent(s, u).tasks, s.tasks[i].pid)
    ensures i != s.running
  {
    var ts := SetCurrent(s, u).tasks;
    var f := FindPid(ts, s.tasks[i].pid, 0);
    assert ts[i] == s.tasks[i] && f.Some? && ts[f.value].pid == ts[i].pid;
    assert s.tasks[f.value].pid == s.tasks[i].pid;
  }

  /** `waitpid` on a sleeping child blocks the caller at once, and somebody else runs. */
  lemma WaitBlocks(s: State, target: nat, i: nat)
    requires Inv(s) && s.running > 0
    requires WaitTarget(s.tasks, Current(s).pid, target, 0) == Some(i) && s.tasks[i].sleeping
    ensures var r := WaitCall(s, target, false);
            && Inv(r) && WaitsFor(r.tasks, Current(s).pid, s.tasks[i].pid)
            && AsleepFor(r.tasks, s.tasks[i].pid, Remaining(s.tasks[i])) && Current(r).pid != Current(s).pid
  {
    hide Schedule, WaitTarget, ChildDone, DistinctPids;
    WaitKeepsInv(s, target, false);
    var child := s.tasks[i];
    var u := Current(s).(waiting := child.pid);
    BlockedAndAsleep(s, u, i);
    hide WaitsFor, AsleepFor;
    WaiterNotRunning(Schedule(SetCurrent(s, u)), Current(s).pid, child.pid);
  }

  lemma BlockedAndAsleep(s: State, u: Task, i: nat)
    requires Inv(s) && s.running > 0 && i < |s.tasks| && s.tasks[i].sleeping
    requires u == Current(s).(waiting := s.tasks[i].pid)
    ensures var r := Schedule(SetCurrent(s, u));
            && WaitsFor(r.tasks, Current(s).pid, s.tasks[i].pid)
            && AsleepFor(r.tasks, s.tasks[i].pid, Remaining(s.tasks[i])) && s.tasks[i].pid != 0
  {
    hide Schedule, ChildDone;
    var child, s1 := s.tasks[i], SetCurrent(s, u);
    UpdatedSleeper(s, u, i);
    ScheduleKeepsTasks(s1);
    var r := Schedule(s1);
    assert Cleared(s1.tasks, u) == u;
    assert r.tasks[s.running] == u && r.tasks[s.running] in r.tasks;
    assert r.tasks[i].pid == child.pid && r.tasks[i].sleeping && r.tasks[i].sleepTime == child.sleepTime
           && r.tasks[i] in r.tasks;
  }

  /** A waiting parent is held for as long as the child it found asleep has to sleep. */
  lemma WaitHolds(s: State, target: nat, i: nat, es: seq<Event>)
    requires Inv(s) && s.running > 0
    requires WaitTarget(s.tasks, Current(s).pid, target, 0) == Some(i) && s.tasks[i].sleeping
    requires Legal(WaitCall(s, target, false), es) && Countdowns(WaitCall(s, target, false), es) < Remaining(s.tasks[i])
    ensures Run(WaitCall(s, target, false), es).Some?
    ensures var s' := Run(WaitCall(s, target, false), es).value;
            || Unlisted(s'.tasks, s.tasks[i].pid)
            || Unlisted(s'.tasks, Current(s).pid)
            || (Inv(s') && Current(s').pid != Current(s).pid)
  {
    WaitBlocks(s, target, i);
    assert s.tasks[i].pid != 0;
    WaiterHeldWhileChildSleeps(WaitCall(s, target, false), es, Current(s).pid, s.tasks[i].pid, Remaining(s.tasks[i]));
  }
}
