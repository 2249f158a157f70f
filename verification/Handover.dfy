/**
 Who hands the processor to whom.  `schedule` leaves the outgoing task at `previous`, and `switch_to`
 saves the stack pointer there, so every task finds its own stack again.
 */
module Handover {
  import opened Basics
  import opened Scheduler
  import opened Lifecycle
  import opened LifecycleRuns
  import opened Blocked
  import opened Fairness

  // ---------------------------------------------------------------- `schedule`, in full

  /** The position `schedule` starts from: the running task, or `previous` when that one is gone. */
  function Outgoing(s: State): int {
    if s.running == -1 then s.previous else s.running
  }

  /** No listed task with this pid is asleep. */
  ghost predicate NoneAsleep(ts: seq<Task>, pid: nat) {
    forall i :: 0 <= i < |ts| && ts[i].pid == pid ==> !ts[i].sleeping
  }

  lemma DoneIsNoneAsleep(ts: seq<Task>, pid: nat)
    requires DistinctPids(ts)
    ensures ChildDone(ts, pid) <==> NoneAsleep(ts, pid)
  {
    var f := FindPid(ts, pid, 0);
    if f.Some? {
      assert forall i :: 0 <= i < |ts| && ts[i].pid == pid ==> i == f.value;
    }
  }

  /** `j` is the first position behind `from` whose task can run, or the head when there is none. */
  ghost predicate NextToRun(ts: seq<Task>, from: nat, j: int) {
    || (from < j < |ts| && Runnable(ts[j]) && forall k :: from < k < j ==> !Runnable(ts[k]))
    || (j == 0 && forall k :: from < k < |ts| ==> !Runnable(ts[k]))
  }

  /** The task at `k` after a pass: its flag is cleared if it waits for a task that is not asleep. */
  ghost predicate Released(ts: seq<Task>, t: Task, u: Task) {
    u == if t.waiting > 0 && NoneAsleep(ts, t.waiting) then t.(waiting := 0) else t
  }

  /** The positions that `schedule` passes, from the outgoing task up to the one it selects. */
  predicate Passed(s: State, selected: int, k: int) {
    && Outgoing(s) <= k && (selected > Outgoing(s) ==> k < selected)
    && !(s.running == -1 && s.previous + 1 == |s.tasks|)
  }

  /** Who is selected, who is left at `previous`, and what becomes of every flag. */
  lemma ScheduleExact(s: State)
    requires Ready(s)
    ensures var r := Schedule(s);
            && 0 <= r.previous == Outgoing(s) && NextToRun(s.tasks, Outgoing(s), r.running)
            && |r.tasks| == |s.tasks|
            && (forall k :: 0 <= k < |s.tasks| ==>
                  if Passed(s, r.running, k) then Released(s.tasks, s.tasks[k], r.tasks[k])
                  else r.tasks[k] == s.tasks[k])
            && r == s.(tasks := r.tasks, previous := r.previous, running := r.running)
  {
    ScanClosed(s.tasks, Outgoing(s));
    forall k | 0 <= k < |s.tasks| ensures Released(s.tasks, s.tasks[k], Cleared(s.tasks, s.tasks[k])) {
      DoneIsNoneAsleep(s.tasks, s.tasks[k].waiting);
    }
  }

  /** The task at `previous` is the one that gave up the processor, also when the scan wraps to the head. */
  lemma ScheduleHandsOver(s: State)
    requires Ready(s)
    ensures var r := Schedule(s);
            0 <= r.previous < |r.tasks| && r.tasks[r.previous].pid == s.tasks[Outgoing(s)].pid
  {
    ScheduleExact(s);
    ScheduleKeepsTasks(s);
  }

  // ---------------------------------------------------------------- every step

  function PreviousPid(s: State): nat
    requires 0 <= s.previous < |s.tasks|
  {
    s.tasks[s.previous].pid
  }

  /** The caller removes itself: it exits, is replaced, or kills its own pid. */
  predicate Leaves(s: State, e: Event)
    requires 0 <= s.running < |s.tasks|
  {
    e.Exit? || e.Exec? || (e.Kill? && e.pid == Current(s).pid && Current(s).name != KERNEL_NAME)
  }

  lemma UpdateHandsOver(s: State, u: Task, bg: bool)
    requires Inv(s) && s.running > 0 && u.pid == Current(s).pid && u.ppid == Current(s).ppid
    ensures var r := Schedule(SetCurrent(s.(isBg := bg), u));
            0 <= r.previous < |r.tasks| && PreviousPid(r) == Current(s).pid
  {
    var m := SetCurrent(s.(isBg := bg), u);
    assert forall k :: 0 <= k < |s.tasks| ==> m.tasks[k].pid == s.tasks[k].pid && m.tasks[k].ppid == s.tasks[k].ppid;
    ScheduleHandsOver(m);
  }

  lemma ExitHandsOver(s: State)
    requires Inv(s) && s.running > 0
    ensures ExitCall(s).Some?
    ensures var r := ExitCall(s).value; 0 <= r.previous < |r.tasks| && PreviousPid(r) == PreviousPid(s)
  {
    DeleteCurrReady(s);
    ScheduleHandsOver(DeleteCurr(s));
  }

  lemma ExecHandsOver(s: State, name: string)
    requires Inv(s) && s.running > 0
    ensures var r := ExecCall(s, name); 0 <= r.previous < |r.tasks| && PreviousPid(r) == PreviousPid(s)
  {
    hide Schedule;
    DeleteCurrReady(s);
    var pcb := NewTask(Current(s).pid, Current(s).ppid, name);
    AddKeepsTasks(DeleteCurr(s).tasks, pcb, s.nextPid);
    var m := AddTask(DeleteCurr(s), pcb);
    assert ExecCall(s, name) == Schedule(m);
    ScheduleHandsOver(m);
  }

  lemma KillHandsOver(s: State, pid: nat)
    requires Inv(s) && s.running > 0 && !KillsBoot(s, pid)
    ensures KillCall(s, pid).Some?
    ensures var r := KillCall(s, pid).value;
            && 0 <= r.previous < |r.tasks|
            && PreviousPid(r) == if Leaves(s, Kill(pid)) then PreviousPid(s) else Current(s).pid
  {
    hide Schedule;
    KillKeepsInv(s, pid);
    var at := FindPid(s.tasks, pid, 0);
    var stop := KillStop(s.tasks, s.running, pid, 0);
    if Current(s).ppid != pid && stop.Some? {
      if s.tasks[stop.value].name == KERNEL_NAME {
        ScheduleHandsOver(s);
      } else {
        ExitHandsOver(s);
      }
    } else if at.None? {
      ScheduleHandsOver(s);
    } else {
      DeleteOtherReady(s, at.value);
      ScheduleHandsOver(DeleteFrom(s, pid).value);
    }
  }

  lemma WaitHandsOver(s: State, target: nat, bg: bool)
    requires Inv(s) && s.running > 0
    ensures var r := WaitCall(s, target, bg);
            && 0 <= r.previous < |r.tasks|
            && PreviousPid(r) == if CallerBlocks(s, target, bg) then Current(s).pid else PreviousPid(s)
  {
    if CallerBlocks(s, target, bg) {
      var child := WaitTarget(s.tasks, Current(s).pid, target, 0).value;
      UpdateHandsOver(s, Current(s).(waiting := s.tasks[child].pid), s.isBg);
    }
  }

  /**
   After every step the task at `previous` is the caller if the call runs `schedule` and the caller
   is still there, and the same task as before otherwise.
   */
  lemma StepHandsOver(s: State, e: Event)
    requires Inv(s) && Safe(s, e)
    ensures Step(s, e).Some? && Inv(Step(s, e).value)
    ensures PreviousPid(Step(s, e).value) ==
              if CallsSchedule(s, e) && !Leaves(s, e) then Current(s).pid else PreviousPid(s)
  {
    hide Schedule, WaitCall, ExitCall, ExecCall, KillCall, TimerInterrupt, DistinctPids, WaitTarget, CallerBlocks;
    StepKeepsInv(s, e);
    match e
    case Yield => ScheduleHandsOver(s);
    case Tick => TickHandsOver(s);
    case Fork =>
    case Exit => ExitHandsOver(s);
    case Exec(name) => ExecHandsOver(s, name);
    case Kill(pid) => KillHandsOver(s, pid);
    case Sleep(time, amp) =>
      UpdateHandsOver(s, Current(s).(bg := amp || Current(s).bg, sleepTime := time % WORD_LIMIT, sleeping := true),
                      amp);
    case WaitPid(target) => WaitHandsOver(s, target, s.isBg);
    case Wait => WaitHandsOver(s, 0, false);
  }

  lemma TickHandsOver(s: State)
    requires Inv(s)
    ensures var r := TimerInterrupt(s); 0 <= r.previous < |r.tasks| && PreviousPid(r) == PreviousPid(s)
  {
  }

  // ---------------------------------------------------------------- stack pointers

  /** The ready list and the saved stack pointers, by pid. */
  datatype System = System(state: State, rsp: map<nat, u64>)

  /** An event, the caller's stack pointer at that moment, and the one a task that it creates starts with. */
  datatype Call = Call(event: Event, rsp: u64, first: u64)

  function SavedRsp(rsp: map<nat, u64>, pid: nat): u64 {
    if pid in rsp then rsp[pid] else 0
  }

  /** Whether `schedule` is called with 0, so that `switch_to` saves the stack pointer: not by a caller that is gone. */
  predicate SavesRsp(s: State, e: Event)
    requires 0 <= s.running < |s.tasks|
  {
    CallsSchedule(s, e) && match e
      case Exit => false
      case Exec(_) => false
      case Kill(pid) =>
        var stop := KillStop(s.tasks, s.running, pid, 0);
        Current(s).ppid == pid || stop.None? || s.tasks[stop.value].name == KERNEL_NAME
      case _ => true
  }

  /** The pid of the task that the event puts on the list, if it does. */
  function Created(s: State, e: Event): (r: Option<nat>)
    requires 0 <= s.running < |s.tasks| && s.nextPid >= 0
  {
    match e
    case Fork => Some(s.nextPid)
    case Exec(_) => Some(Current(s).pid)
    case _ => None
  }

  /** One event with its context switch: the stack pointer goes to the task at `previous`. */
  function Switch(x: System, c: Call): (r: Option<System>)
    requires 0 <= x.state.running < |x.state.tasks| && x.state.nextPid >= 1 && FromCaller(x.state, c.event)
  {
    var s1 := Step(x.state, c.event);
    if s1.None? then None else
    var made := Created(x.state, c.event);
    var rsp := if made.Some? then x.rsp[made.value := c.first] else x.rsp;
    if !SavesRsp(x.state, c.event) then Some(System(s1.value, rsp))
    else if !(0 <= s1.value.previous < |s1.value.tasks|) then None
    else Some(System(s1.value, rsp[PreviousPid(s1.value) := c.rsp]))
  }

  function SwitchAll(x: System, cs: seq<Call>): (r: Option<System>)
    decreases |cs|
  {
    if cs == [] then Some(x)
    else if !Safe(x.state, cs[0].event) || x.state.nextPid < 1 then None
    else
      var x1 := Switch(x, cs[0]);
      if x1.None? then None else SwitchAll(x1.value, cs[1..])
  }

  function Events(cs: seq<Call>): (es: seq<Event>)
    ensures |es| == |cs| && forall i :: 0 <= i < |cs| ==> es[i] == cs[i].event
  {
    seq(|cs|, i requires 0 <= i < |cs| => cs[i].event)
  }

  /** What task `pid` must find after one call: its first stack pointer, or the one it called with. */
  function LeftAfter(s: State, c: Call, pid: nat, was: u64): u64
    requires 0 <= s.running < |s.tasks| && s.nextPid >= 0
  {
    if Created(s, c.event) == Some(pid) then c.first
    else if pid == Current(s).pid && CallsSchedule(s, c.event) then c.rsp
    else was
  }

  /** The stack pointer with which task `pid` last gave up the processor, or with which it was created. */
  function LeftWith(s: State, cs: seq<Call>, pid: nat, was: u64): u64
    decreases |cs|
  {
    if cs == [] || !Safe(s, cs[0].event) || s.nextPid < 1 || Step(s, cs[0].event).None? then was
    else LeftWith(Step(s, cs[0].event).value, cs[1..], pid, LeftAfter(s, cs[0], pid, was))
  }

  /** `schedule(1)` is called exactly by callers that are gone. */
  lemma SavesUnlessLeaving(s: State, e: Event)
    requires Inv(s) && Safe(s, e)
    ensures SavesRsp(s, e) <==> CallsSchedule(s, e) && !Leaves(s, e)
  {
  }

  lemma LeaversAreGone(s: State, e: Event)
    requires Inv(s) && Safe(s, e) && Leaves(s, e) && !e.Exec?
    ensures Step(s, e).Some? && Unlisted(Step(s, e).value.tasks, Current(s).pid)
  {
    DeleteCurrReady(s);
    UnlistedAfterSchedule(DeleteCurr(s), Current(s).pid);
    assert Unlisted(DeleteCurr(s).tasks, Current(s).pid);
  }

  /** One switch leaves every listed task the stack pointer it must find. */
  lemma SwitchKeeps(x: System, c: Call, pid: nat)
    requires Inv(x.state) && Safe(x.state, c.event)
    ensures Switch(x, c).Some? && Some(Switch(x, c).value.state) == Step(x.state, c.event)
    ensures || (Unlisted(Step(x.state, c.event).value.tasks, pid) && pid < x.state.nextPid)
            || SavedRsp(Switch(x, c).value.rsp, pid) == LeftAfter(x.state, c, pid, SavedRsp(x.rsp, pid))
  {
    hide Step, CallsSchedule, SavesRsp;
    StepHandsOver(x.state, c.event);
    SavesUnlessLeaving(x.state, c.event);
    if Leaves(x.state, c.event) && !c.event.Exec? {
      LeaversAreGone(x.state, c.event);
    }
  }

  lemma EventsTail(cs: seq<Call>)
    requires cs != []
    ensures Events(cs)[0] == cs[0].event && Events(cs)[1..] == Events(cs[1..])
  {
  }

  /** One step of a run with its switch. */
  lemma SwitchUnfold(x: System, cs: seq<Call>)
    requires Inv(x.state) && Legal(x.state, Events(cs)) && cs != []
    ensures Safe(x.state, cs[0].event) && x.state.nextPid >= 1 && Switch(x, cs[0]).Some?
    ensures var x1 := Switch(x, cs[0]).value;
            && Inv(x1.state) && Legal(x1.state, Events(cs[1..])) && Step(x.state, cs[0].event) == Some(x1.state)
            && SwitchAll(x, cs) == SwitchAll(x1, cs[1..])
            && Run(x.state, Events(cs)) == Run(x1.state, Events(cs[1..]))
  {
    EventsTail(cs);
    Unfold(x.state, Events(cs));
    SwitchKeeps(x, cs[0], 0);
  }

  /**
   In every run, each listed task's saved stack pointer is the one with which that task itself last gave
   up the processor, or with which it was created: no switch ever writes into another task.
   */
  lemma {:induction false} OwnStackInEveryRun(x: System, cs: seq<Call>, pid: nat)
    requires Inv(x.state) && Legal(x.state, Events(cs))
    ensures SwitchAll(x, cs).Some? && Some(SwitchAll(x, cs).value.state) == Run(x.state, Events(cs))
    ensures || Unlisted(SwitchAll(x, cs).value.state.tasks, pid)
            || SavedRsp(SwitchAll(x, cs).value.rsp, pid) == LeftWith(x.state, cs, pid, SavedRsp(x.rsp, pid))
    decreases |cs|
  {
    hide Step, Inv, Switch, Unlisted, LeftAfter;
    if cs == [] {
      assert Run(x.state, Events(cs)) == Some(x.state);
    } else {
      SwitchUnfold(x, cs);
      SwitchKeeps(x, cs[0], pid);
      var x1 := Switch(x, cs[0]).value;
      hide Legal, Run;
      OwnStackInEveryRun(x1, cs[1..], pid);
      if Unlisted(x1.state.tasks, pid) && pid < x.state.nextPid {
        PidCounterGrows(x.state, cs[0].event);
        UnlistedForever(x1.state, Events(cs[1..]), pid);
      }
    }
  }
}
