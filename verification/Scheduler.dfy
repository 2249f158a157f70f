/**
 The cooperative scheduler, on values.

 The ready list is a sequence of tasks; the three roving pointers are positions in it, with -1 for
 a null pointer or for a node that is no longer listed.
 */
module Scheduler {
  import opened Basics

  const KERNEL_NAME := "root"
  const NO_PARENT := WORD_LIMIT - 1

  /** The fields of `task_struct` that scheduling reads and writes. */
  datatype Task = Task(pid: nat, ppid: nat, name: string, waiting: nat, sleepTime: u64, sleeping: bool, bg: bool)

  datatype State = State(
    tasks: seq<Task>,
    running: int,
    previous: int,
    taskCount: int,
    nextPid: int,
    isBg: bool,
    ticks: nat)

  // ---------------------------------------------------------------- list queries

  predicate Runnable(t: Task) {
    !t.sleeping && t.waiting == 0
  }

  /** The first position at or after `from` that holds `pid`. */
  function FindPid(ts: seq<Task>, pid: nat, from: nat): (r: Option<nat>)
    requires from <= |ts|
    ensures r.Some? ==> from <= r.value < |ts| && ts[r.value].pid == pid
    ensures r.Some? ==> forall j :: from <= j < r.value ==> ts[j].pid != pid
    ensures r.None? ==> forall j :: from <= j < |ts| ==> ts[j].pid != pid
    decreases |ts| - from
  {
    if from == |ts| then None
    else if ts[from].pid == pid then Some(from)
    else FindPid(ts, pid, from + 1)
  }

  /** `is_child_done`: the task is not listed, or it is listed and not asleep. */
  predicate ChildDone(ts: seq<Task>, pid: nat) {
    var i := FindPid(ts, pid, 0);
    i.None? || !ts[i.value].sleeping
  }

  // ---------------------------------------------------------------- the scan of `schedule`

  /** The waiting flag of the task at `i`, cleared when its child is done. */
  function Clear(ts: seq<Task>, i: nat): (r: seq<Task>)
    requires i < |ts|
    ensures |r| == |ts|
  {
    if ts[i].waiting > 0 && ChildDone(ts, ts[i].waiting) then ts[i := ts[i].(waiting := 0)] else ts
  }

  /** The loop: step over tasks that cannot run, clearing flags behind, and stop before one that can. */
  function Scan(ts: seq<Task>, i: nat): (r: (seq<Task>, nat))
    requires i < |ts|
    ensures |r.0| == |ts| && i <= r.1 < |ts|
    decreases |ts| - i
  {
    if i + 1 < |ts| && !Runnable(ts[i + 1]) then Scan(Clear(ts, i), i + 1) else (Clear(ts, i), i)
  }

  /** The position after `j`, or the head of the list when there is none. */
  function Next(n: nat, j: nat): nat {
    if j + 1 < n then j + 1 else 0
  }

  predicate CanSchedule(s: State) {
    if s.running == -1 then 0 <= s.previous < |s.tasks| else 0 <= s.running < |s.tasks|
  }

  function Schedule(s: State): (r: State)
    requires CanSchedule(s)
  {
    if s.running == -1 then
      if s.previous + 1 == |s.tasks| then s.(running := 0)
      else
        var (ts, j) := Scan(s.tasks, s.previous);
        s.(tasks := ts, running := Next(|ts|, j))
    else
      var (ts, j) := Scan(s.tasks, s.running);
      s.(tasks := ts, previous := s.running, running := Next(|ts|, j))
  }

  // ---------------------------------------------------------------- list updates

  function AddTask(s: State, t: Task): (r: State) {
    s.(tasks := s.tasks + [t], taskCount := s.taskCount + 1)
  }

  /** Where the node at position `k` is once the node at `i` is gone. */
  function Shift(k: int, i: nat): int {
    if k == i then -1 else if k > i then k - 1 else k
  }

  /** `delete_curr_from_task_list`. */
  function DeleteCurr(s: State): (r: State)
    requires 0 < s.running < |s.tasks|
  {
    s.(tasks := RemoveAt(s.tasks, s.running), previous := Shift(s.previous, s.running), running := -1,
       taskCount := s.taskCount - 1)
  }

  /**
   `delete_from_task_list`.  `None` stands for its walk leaving the list, which happens when the
   node to remove is both the head and `previous`.  The task count is not touched.
   */
  function DeleteFrom(s: State, pid: nat): (r: Option<State>) {
    var at := FindPid(s.tasks, pid, 0);
    if at.None? then Some(s)
    else if at.value == s.previous && at.value == 0 then None
    else Some(s.(tasks := RemoveAt(s.tasks, at.value), previous := Shift(s.previous, at.value),
                 running := Shift(s.running, at.value)))
  }

  // ---------------------------------------------------------------- system calls and interrupts

  function Current(s: State): Task
    requires 0 <= s.running < |s.tasks|
  {
    s.tasks[s.running]
  }

  function SetCurrent(s: State, t: Task): State
    requires 0 <= s.running < |s.tasks|
  {
    s.(tasks := s.tasks[s.running := t])
  }

  function NewTask(pid: nat, ppid: nat, name: string): Task {
    Task(pid, ppid, name, 0, 0, false, false)
  }

  function ForkCall(s: State): (r: State)
    requires 0 <= s.running < |s.tasks| && s.nextPid >= 0
  {
    AddTask(s.(nextPid := s.nextPid + 1), NewTask(s.nextPid, Current(s).pid, Current(s).name))
  }

  /**
   `exec`: the counter is decremented, the loader takes a pid from it and increments it, and the
   caller's own identifiers are then written over the loader's.
   */
  function ExecCall(s: State, name: string): (r: State)
    requires 0 < s.running < |s.tasks| && s.nextPid >= 1
  {
    var parent := Current(s);
    var before := s.nextPid - 1;
    var loaded := NewTask(before, parent.pid, name);
    var pcb := loaded.(pid := parent.pid, ppid := parent.ppid);
    var s1 := AddTask(DeleteCurr(s.(nextPid := before + 1)), pcb);
    if CanSchedule(s1) then Schedule(s1) else s1
  }

  function ExitCall(s: State): (r: Option<State>)
    requires 0 < s.running < |s.tasks|
  {
    var s1 := DeleteCurr(s);
    if CanSchedule(s1) then Some(Schedule(s1)) else None
  }

  /** The first node with `pid` at which the loop of `sys_kill` stops: the kernel or the caller. */
  function KillStop(ts: seq<Task>, running: int, pid: nat, from: nat): (r: Option<nat>)
    requires from <= |ts|
    ensures r.Some? ==> from <= r.value < |ts| && ts[r.value].pid == pid
    ensures r.Some? ==> ts[r.value].name == KERNEL_NAME || r.value == running
    ensures forall j :: from <= j < (if r.Some? then r.value else |ts|) && ts[j].pid == pid ==>
              ts[j].name != KERNEL_NAME && j != running
    decreases |ts| - from
  {
    if from == |ts| then None
    else if ts[from].pid == pid && (ts[from].name == KERNEL_NAME || from == running) then Some(from)
    else KillStop(ts, running, pid, from + 1)
  }

  function DeleteAndSchedule(s: State, pid: nat): (r: Option<State>) {
    var d := DeleteFrom(s, pid);
    if d.None? || !CanSchedule(d.value) then None else Some(Schedule(d.value))
  }

  function KillCall(s: State, pid: nat): (r: Option<State>)
    requires 0 < s.running < |s.tasks|
  {
    if Current(s).ppid == pid then DeleteAndSchedule(s, pid)
    else
      var stop := KillStop(s.tasks, s.running, pid, 0);
      if stop.None? then DeleteAndSchedule(s, pid)
      else if s.tasks[stop.value].name == KERNEL_NAME then Some(Schedule(s))
      else ExitCall(s)
  }

  /** A task `sys_waitpid` may wait for: any foreground child, or the one with the given pid. */
  predicate MayWaitFor(t: Task, caller: nat, pid: nat) {
    if pid == 0 then t.ppid == caller && !t.bg else t.pid == pid
  }

  /** The child `sys_waitpid` settles on: the first it may wait for. */
  function WaitTarget(ts: seq<Task>, caller: nat, pid: nat, from: nat): (r: Option<nat>)
    requires from <= |ts|
    ensures r.Some? ==> from <= r.value < |ts|
    ensures r.Some? && pid == 0 ==> ts[r.value].ppid == caller && !ts[r.value].bg
    ensures r.Some? && pid != 0 ==> ts[r.value].pid == pid
    ensures pid == 0 ==>
              forall j :: from <= j < (if r.Some? then r.value else |ts|) && ts[j].ppid == caller ==> ts[j].bg
    ensures pid != 0 ==> forall j :: from <= j < (if r.Some? then r.value else |ts|) ==> ts[j].pid != pid
    decreases |ts| - from
  {
    if from == |ts| then None
    else if MayWaitFor(ts[from], caller, pid) then Some(from)
    else WaitTarget(ts, caller, pid, from + 1)
  }

  function WaitCall(s: State, pid: nat, bg: bool): (r: State)
    requires 0 <= s.running < |s.tasks|
  {
    var child := WaitTarget(s.tasks, Current(s).pid, pid, 0);
    if bg || child.None? then s
    else Schedule(SetCurrent(s, Current(s).(waiting := s.tasks[child.value].pid)))
  }

  /** `sys_sleep`: a C `int` of seconds, stored in an unsigned 64-bit field. */
  function SleepCall(s: State, time: int, amp: bool): (r: State)
    requires 0 <= s.running < |s.tasks|
  {
    var t := Current(s).(bg := amp || Current(s).bg, sleepTime := time % WORD_LIMIT, sleeping := true);
    Schedule(SetCurrent(s.(isBg := amp), t))
  }

  function DecTask(t: Task): Task {
    if t.sleeping then
      var left: u64 := (t.sleepTime - 1) % WORD_LIMIT;
      t.(sleepTime := left, sleeping := left != 0)
    else t
  }

  /** `dec_sleep_count`. */
  function DecAll(ts: seq<Task>): (r: seq<Task>)
    ensures |r| == |ts| && forall i :: 0 <= i < |ts| ==> r[i] == DecTask(ts[i])
  {
    seq(|ts|, i requires 0 <= i < |ts| => DecTask(ts[i]))
  }

  /** `irq_timer_handler`: sleepers count down once every hundred interrupts. */
  function TimerInterrupt(s: State): (r: State) {
    s.(tasks := if s.ticks % 100 == 0 then DecAll(s.tasks) else s.tasks, ticks := s.ticks + 1)
  }

  /** The state after `start` has listed the boot task and the shell and scheduled for the first time. */
  function BootState(shell: string, ticks: nat): (r: State) {
    var boot := Task(0, NO_PARENT, KERNEL_NAME, 0, 0, false, false);
    var s0 := State([boot], 0, -1, 1, 1, false, ticks);
    var pcb := NewTask(s0.nextPid, 0, shell).(pid := 1, ppid := 0);
    Schedule(AddTask(s0.(nextPid := s0.nextPid + 1), pcb))
  }
}
