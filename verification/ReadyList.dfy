/**
 The ready list as the kernel keeps it: linked nodes, three pointers, and system calls that update
 them in place.  Every method is proved against the function on values of the same name.
 */
module ReadyList {
  import opened Basics
  import opened Scheduler
  import opened Lifecycle
  import opened LifecycleRuns

  /** `ready_task`: the node owns its task structure. */
  class Node {
    var process: Task
    var next: Node?

    constructor (t: Task)
      ensures process == t && next == null
    {
      process := t;
      next := null;
    }
  }

  /** The position of `n` in `ns`, or -1. */
  ghost function Position(ns: seq<Node>, n: Node?): (r: int)
    ensures -1 <= r < |ns|
    ensures r >= 0 ==> ns[r] == n
    ensures r == -1 <==> n !in ns
    decreases |ns|
  {
    if ns == [] then -1
    else if ns[|ns| - 1] == n then |ns| - 1
    else Position(ns[..|ns| - 1], n)
  }

  ghost predicate Unique(ns: seq<Node>) {
    forall i, j :: 0 <= i < j < |ns| ==> ns[i] != ns[j]
  }

  /** The node after position `i`, or null at the end. */
  ghost function After(ns: seq<Node>, i: nat): Node?
    requires i < |ns|
  {
    if i + 1 < |ns| then ns[i + 1] else null
  }

  lemma PositionOf(ns: seq<Node>, i: nat)
    requires Unique(ns) && i < |ns|
    ensures Position(ns, ns[i]) == i
  {
    assert ns[i] in ns;
  }

  lemma PositionExtends(ns: seq<Node>, m: Node, n: Node?)
    requires Unique(ns) && m !in ns && n != m
    ensures Position(ns + [m], n) == Position(ns, n)
  {
    assert (ns + [m])[..|ns|] == ns;
  }

  lemma PositionDropped(ns: seq<Node>, i: nat, n: Node?)
    requires Unique(ns) && i < |ns|
    ensures Unique(RemoveAt(ns, i)) && Position(RemoveAt(ns, i), n) == Shift(Position(ns, n), i)
  {
    var ms := RemoveAt(ns, i);
    var p := Position(ns, n);
    if p >= 0 && p != i {
      PositionOf(ms, if p < i then p else p - 1);
    } else if n in ms {
      var k :| 0 <= k < |ms| && ms[k] == n;
      PositionOf(ns, if k < i then k else k + 1);
    }
  }

  /** The list at `head` is acyclic and null-terminated; it consists of `ns`, which hold `ts`. */
  ghost predicate Chain(ns: seq<Node>, ts: seq<Task>, head: Node?)
    reads ns
  {
    && Unique(ns) && |ts| == |ns|
    && head == (if ns == [] then null else ns[0])
    && (forall i :: 0 <= i < |ns| ==> ns[i].next == After(ns, i))
    && (forall i :: 0 <= i < |ns| ==> ns[i].process == ts[i])
  }

  /** The same list, except that the node at `k` links to `target`. */
  ghost predicate ChainBut(ns: seq<Node>, ts: seq<Task>, head: Node?, k: nat, target: Node?)
    reads ns
  {
    && Unique(ns) && |ts| == |ns| && k < |ns| && head == ns[0]
    && (forall i :: 0 <= i < |ns| ==> ns[i].next == if i == k then target else After(ns, i))
    && (forall i :: 0 <= i < |ns| ==> ns[i].process == ts[i])
  }

  lemma ChainDropped(ns: seq<Node>, ts: seq<Task>, head: Node?, d: nat)
    requires 0 < d < |ns| && ChainBut(ns, ts, head, d - 1, After(ns, d))
    ensures Chain(RemoveAt(ns, d), RemoveAt(ts, d), head)
  {
    PositionDropped(ns, d, ns[0]);
    var ms := RemoveAt(ns, d);
    forall i | 0 <= i < |ms| ensures ms[i].next == After(ms, i) && ms[i].process == RemoveAt(ts, d)[i] {
    }
  }

  lemma ChainExtended(ns: seq<Node>, ts: seq<Task>, head: Node?, m: Node)
    requires ns != [] && ChainBut(ns, ts, head, |ns| - 1, m) && m !in ns && m.next == null
    ensures Chain(ns + [m], ts + [m.process], head)
  {
    var ms := ns + [m];
    forall i | 0 <= i < |ms| ensures ms[i].next == After(ms, i) && ms[i].process == (ts + [m.process])[i] {
      if i < |ns| {
        assert ms[i] == ns[i];
      }
    }
  }

  lemma ChainTail(ns: seq<Node>, ts: seq<Task>, head: Node?)
    requires ns != [] && Chain(ns, ts, head)
    ensures Chain(RemoveAt(ns, 0), RemoveAt(ts, 0), After(ns, 0))
  {
    PositionDropped(ns, 0, ns[0]);
  }

  lemma VictimIsNotRunning(s: State, pid: nat)
    requires Inv(s) && s.running > 0
    ensures (Current(s).ppid == pid || KillStop(s.tasks, s.running, pid, 0).None?) && FindPid(s.tasks, pid, 0).Some? ==>
              FindPid(s.tasks, pid, 0).value != s.running
  {
  }

  class Kernel {
    var queueHead: Node?
    var runningTask: Node?
    var previous: Node?
    var taskCount: int
    var nextPid: int
    var isBg: bool
    var ticks: nat
    ghost var nodes: seq<Node>
    ghost var tasks: seq<Task>

    ghost predicate Valid()
      reads this, nodes
    {
      Chain(nodes, tasks, queueHead)
    }

    ghost function View(): State
      reads this
    {
      State(tasks, Position(nodes, runningTask), Position(nodes, previous), taskCount, nextPid, isBg, ticks)
    }

    constructor ()
      ensures Valid() && nodes == [] && tasks == [] && queueHead == null && runningTask == null && previous == null
      ensures taskCount == 0 && nextPid == 0 && !isBg && ticks == 0
    {
      queueHead, runningTask, previous := null, null, null;
      taskCount, nextPid, isBg, ticks := 0, 0, false, 0;
      nodes, tasks := [], [];
    }

    /** The list around position `i`. */
    lemma ChainHere(i: nat)
      requires Valid() && i < |nodes|
      ensures |tasks| == |nodes| && queueHead == nodes[0]
      ensures nodes[i].next == After(nodes, i) && nodes[i].process == tasks[i] && Position(nodes, nodes[i]) == i
      ensures i + 1 < |nodes| ==> nodes[i + 1].process == tasks[i + 1]
    {
      PositionOf(nodes, i);
    }

    // ------------------------------------------------------------ queries

    /** Walks the list to the first node with `pid`. */
    method Find(pid: nat) returns (temp: Node?)
      requires Valid()
      ensures |tasks| == |nodes|
      ensures var at := FindPid(tasks, pid, 0);
              if at.None? then temp == null else temp == nodes[at.value]
    {
      temp := queueHead;
      ghost var i := 0;
      while temp != null && temp.process.pid != pid
        invariant 0 <= i <= |nodes|
        invariant temp == if i < |nodes| then nodes[i] else null
        invariant forall j :: 0 <= j < i ==> nodes[j].process.pid != pid
        decreases |nodes| - i
      {
        temp := temp.next;
        i := i + 1;
      }
    }

    /** `is_child_done`. */
    method IsChildDone(pid: nat) returns (done: bool)
      requires Valid()
      ensures done == ChildDone(tasks, pid)
    {
      var temp := Find(pid);
      done := temp == null || !temp.process.sleeping;
    }

    // ------------------------------------------------------------ schedule

    method ClearIfDone(temp: Node, ghost i: nat)
      requires Valid() && i < |nodes| && nodes[i] == temp
      modifies this`tasks, temp`process
      ensures Valid() && tasks == Clear(old(tasks), i)
    {
      if temp.process.waiting > 0 {
        var done := IsChildDone(temp.process.waiting);
        if done {
          temp.process := temp.process.(waiting := 0);
          tasks := tasks[i := temp.process];
        }
      }
    }

    /** The scan of `schedule`: steps over nodes that cannot run, clearing flags behind. */
    method ScanFrom(start: Node, ghost from: nat) returns (temp: Node)
      requires Valid() && from < |nodes| && nodes[from] == start
      modifies this`tasks, nodes`process
      ensures Valid() && tasks == Scan(old(tasks), from).0 && temp == nodes[Scan(old(tasks), from).1]
    {
      hide Chain, Clear;
      temp := start;
      ghost var i := from;
      ChainHere(i);
      while temp.next != null && (temp.next.process.sleeping || temp.next.process.waiting > 0)
        invariant Valid() && from <= i < |nodes| == |tasks| && temp == nodes[i]
        invariant temp.next == After(nodes, i) && (i + 1 < |nodes| ==> nodes[i + 1].process == tasks[i + 1])
        invariant Scan(tasks, i) == Scan(old(tasks), from)
        decreases |nodes| - i
      {
        ClearIfDone(temp, i);
        temp := temp.next;
        i := i + 1;
        ChainHere(i);
      }
      ClearIfDone(temp, i);
    }

    /** The scan and the choice that follows it: the node after the stop, or the head. */
    method PickAfter(start: Node, ghost from: nat) returns (pick: Node)
      requires Valid() && from < |nodes| && nodes[from] == start
      modifies this`tasks, nodes`process
      ensures Valid() && tasks == Scan(old(tasks), from).0
      ensures pick == nodes[Next(|nodes|, Scan(old(tasks), from).1)]
    {
      ChainHere(from);
      hide Scan, Chain;
      var temp := ScanFrom(start, from);
      ChainHere(Scan(old(tasks), from).1);
      if temp.next != null {
        pick := temp.next;
      } else {
        pick := queueHead;
      }
    }

    /** `schedule`, up to the switch of stacks. */
    method Schedule()
      requires Valid() && CanSchedule(View())
      requires if runningTask == null then previous != null else runningTask in nodes
      modifies this, nodes`process
      ensures Valid() && nodes == old(nodes) && View() == Scheduler.Schedule(old(View()))
      ensures runningTask != null && runningTask in nodes
    {
      hide Scan, Position, Chain;
      if runningTask == null {
        ghost var p := Position(nodes, previous);
        ChainHere(p);
        ChainHere(0);
        if previous.next == null {
          runningTask := queueHead;
        } else {
          ChainHere(Next(|nodes|, Scan(tasks, p).1));
          runningTask := PickAfter(previous, p);
        }
      } else {
        ghost var r := Position(nodes, runningTask);
        ChainHere(r);
        ChainHere(Next(|nodes|, Scan(tasks, r).1));
        var pick := PickAfter(runningTask, r);
        previous := runningTask;
        runningTask := pick;
      }
    }

    // ------------------------------------------------------------ adding and removing

    /** The last node of a non-empty list. */
    method Tail() returns (temp: Node)
      requires Valid() && nodes != []
      ensures temp == nodes[|nodes| - 1]
    {
      temp := queueHead;
      ghost var i := 0;
      while temp.next != null
        invariant 0 <= i < |nodes| && temp == nodes[i]
        decreases |nodes| - i
      {
        temp := temp.next;
        i := i + 1;
      }
    }

    /** Changes one link. */
    method Relink(temp: Node, target: Node?, ghost k: nat)
      requires Valid() && k < |nodes| && nodes[k] == temp
      modifies temp`next
      ensures ChainBut(nodes, tasks, queueHead, k, target)
    {
      temp.next := target;
    }

    /** Links a new node behind `tail`. */
    method Append(tail: Node, task: Node)
      requires Valid() && nodes != [] && tail == nodes[|nodes| - 1] && task !in nodes && task.next == null
      modifies this`nodes, this`tasks, tail`next
      ensures Valid() && nodes == old(nodes) + [task] && tasks == old(tasks) + [task.process]
    {
      hide Chain, ChainBut;
      Relink(tail, task, |nodes| - 1);
      ChainExtended(nodes, tasks, queueHead, task);
      nodes, tasks := nodes + [task], tasks + [task.process];
    }

    method AddFirst(task: Node)
      requires Valid() && nodes == [] && task.next == null
      modifies this
      ensures Valid() && nodes == [task] && tasks == [task.process] && runningTask == task && taskCount == 1
      ensures previous == old(previous) && nextPid == old(nextPid) && isBg == old(isBg) && ticks == old(ticks)
    {
      queueHead, runningTask, taskCount := task, task, 1;
      nodes, tasks := [task], [task.process];
    }

    method AddLast(task: Node)
      requires Valid() && nodes != [] && task !in nodes && task.next == null
      modifies this`nodes, this`tasks, this`taskCount, nodes`next
      ensures Valid() && nodes == old(nodes) + [task] && tasks == old(tasks) + [task.process]
      ensures taskCount == old(taskCount) + 1
    {
      hide Chain;
      var tail := Tail();
      Append(tail, task);
      taskCount := taskCount + 1;
    }

    lemma HeadOfList()
      requires Valid()
      ensures queueHead == null <==> nodes == []
      ensures Unique(nodes) && |tasks| == |nodes|
    {
    }

    /** A node behind the end moves neither pointer. */
    lemma PositionsExtend(task: Node)
      requires Valid() && task !in nodes && runningTask != task && previous != task
      ensures Position(nodes + [task], runningTask) == Position(nodes, runningTask)
      ensures Position(nodes + [task], previous) == Position(nodes, previous)
    {
      HeadOfList();
      hide Chain, Position, Unique;
      PositionExtends(nodes, task, runningTask);
      PositionExtends(nodes, task, previous);
    }

    /** The list is not empty: the new node goes to its end. */
    method AddBehind(task: Node)
      requires Valid() && nodes != [] && task !in nodes && task.next == null && runningTask != task && previous != task
      modifies this`nodes, this`tasks, this`taskCount, nodes`next
      ensures Valid() && nodes == old(nodes) + [task] && View() == AddTask(old(View()), task.process)
    {
      hide Chain, Position, Unique;
      PositionsExtend(task);
      AddLast(task);
    }

    /** `add_to_task_list`.  The source walks with the head pointer itself and then restores it. */
    method AddToTaskList(process: Task) returns (ghost added: Node)
      requires Valid()
      modifies this, nodes`next
      ensures Valid() && fresh(added) && nodes == old(nodes) + [added]
      ensures previous == old(previous) && nextPid == old(nextPid) && isBg == old(isBg) && ticks == old(ticks)
      ensures if old(nodes) == [] then tasks == [process] && runningTask == added && taskCount == 1
              else runningTask == old(runningTask) && View() == AddTask(old(View()), process)
    {
      hide Chain, Position, Unique;
      HeadOfList();
      var task := new Node(process);
      if queueHead == null {
        AddFirst(task);
      } else {
        AddBehind(task);
      }
      added := task;
    }

    /** The node before `del`. */
    method Before(del: Node, ghost d: nat) returns (temp: Node)
      requires Valid() && 0 < d < |nodes| && nodes[d] == del
      ensures temp == nodes[d - 1]
    {
      temp := queueHead;
      ghost var i := 0;
      while temp.next != del
        invariant 0 <= i < d && temp == nodes[i]
        decreases d - i
      {
        temp := temp.next;
        i := i + 1;
      }
    }

    /** Links the node before `del` to the node after it. */
    method Unlink(del: Node, ghost d: nat)
      requires Valid() && 0 < d < |nodes| && nodes[d] == del
      modifies this`nodes, this`tasks, nodes`next
      ensures Valid() && nodes == RemoveAt(old(nodes), d) && tasks == RemoveAt(old(tasks), d)
    {
      hide Chain, ChainBut;
      ChainHere(d);
      var temp := Before(del, d);
      if del.next != null {
        Relink(temp, del.next, d - 1);
      } else {
        Relink(temp, null, d - 1);
      }
      ChainDropped(nodes, tasks, queueHead, d);
      nodes, tasks := RemoveAt(nodes, d), RemoveAt(tasks, d);
    }

    /** `delete_curr_from_task_list`. */
    method DeleteCurrFromTaskList()
      requires Valid() && 0 < Position(nodes, runningTask)
      modifies this, nodes`next
      ensures Valid() && runningTask == null && previous == old(previous)
      ensures nodes == RemoveAt(old(nodes), old(Position(nodes, runningTask)))
      ensures View() == DeleteCurr(old(View()))
    {
      hide Position, Chain;
      ghost var r := Position(nodes, runningTask);
      ChainHere(r);
      HeadOfList();
      PositionDropped(nodes, r, previous);
      Unlink(runningTask, r);
      runningTask := null;
      taskCount := taskCount - 1;
    }

    /** The head leaves the list. */
    method DropHead()
      requires Valid() && nodes != []
      modifies this`nodes, this`tasks, this`queueHead
      ensures Valid() && nodes == RemoveAt(old(nodes), 0) && tasks == RemoveAt(old(tasks), 0)
    {
      ChainHere(0);
      ChainTail(nodes, tasks, queueHead);
      hide Chain;
      queueHead := queueHead.next;
      nodes, tasks := RemoveAt(nodes, 0), RemoveAt(tasks, 0);
    }

    /** The three ways a found node is taken off; `previous` is tested before the head. */
    method TakeOff(temp: Node, ghost d: nat)
      requires Valid() && d < |nodes| && nodes[d] == temp && (temp == previous ==> d > 0)
      modifies this`nodes, this`tasks, this`queueHead, nodes`next
      ensures Valid() && nodes == RemoveAt(old(nodes), d) && tasks == RemoveAt(old(tasks), d)
    {
      hide Position;
      ChainHere(d);
      ChainHere(0);
      assert temp == queueHead ==> d == 0;
      hide Chain;
      if temp == previous {
        Unlink(previous, d);
      } else if temp == queueHead {
        DropHead();
      } else {
        Unlink(temp, d);
      }
    }

    method RemoveFound(temp: Node, ghost d: nat)
      requires Valid() && d < |nodes| == |tasks| && nodes[d] == temp && (temp == previous ==> d > 0)
      modifies this`nodes, this`tasks, this`queueHead, nodes`next
      ensures Valid() && nodes == RemoveAt(old(nodes), d) && tasks == RemoveAt(old(tasks), d)
      ensures Position(nodes, runningTask) == Shift(old(Position(nodes, runningTask)), d)
      ensures Position(nodes, previous) == Shift(old(Position(nodes, previous)), d)
    {
      hide Chain, Position, Unique;
      HeadOfList();
      PositionDropped(nodes, d, runningTask);
      PositionDropped(nodes, d, previous);
      TakeOff(temp, d);
    }

    /** `delete_from_task_list`. */
    method DeleteFromTaskList(pid: nat)
      requires Valid() && DeleteFrom(View(), pid).Some?
      modifies this`nodes, this`tasks, this`queueHead, nodes`next
      ensures Valid() && View() == DeleteFrom(old(View()), pid).value
      ensures var at := FindPid(old(tasks), pid, 0);
              nodes == if at.None? || at.value >= |old(nodes)| then old(nodes) else RemoveAt(old(nodes), at.value)
    {
      hide Chain, Position;
      var temp := Find(pid);
      if temp != null {
        ghost var d := FindPid(tasks, pid, 0).value;
        ChainHere(d);
        RemoveFound(temp, d);
      }
    }

    // ------------------------------------------------------------ the timer

    /** Writes the task structure of one node. */
    method SetProcess(node: Node, t: Task, ghost i: nat)
      requires Valid() && i < |nodes| && nodes[i] == node
      modifies this`tasks, node`process
      ensures Valid() && tasks == old(tasks)[i := t]
    {
      node.process := t;
      tasks := tasks[i := t];
    }

    method DecOne(temp: Node, ghost i: nat)
      requires Valid() && i < |nodes| && nodes[i] == temp
      modifies this`tasks, temp`process
      ensures Valid() && |old(tasks)| == |nodes| && tasks == old(tasks)[i := DecTask(old(tasks)[i])]
    {
      hide Chain, Position;
      ChainHere(i);
      if temp.process.sleeping {
        var left := if temp.process.sleepTime == 0 then WORD_LIMIT - 1 else temp.process.sleepTime - 1;
        var t := temp.process.(sleepTime := left);
        if t.sleepTime == 0 {
          t := t.(sleeping := false);
        }
        SetProcess(temp, t, i);
      }
    }

    /** `dec_sleep_count`. */
    method DecSleepCount()
      requires Valid()
      modifies this`tasks, nodes`process
      ensures Valid() && tasks == DecAll(old(tasks))
    {
      hide Chain;
      HeadOfList();
      if nodes != [] {
        ChainHere(0);
      }
      var temp := queueHead;
      ghost var i := 0;
      while temp != null
        invariant Valid() && 0 <= i <= |nodes| && |tasks| == |old(tasks)| == |nodes|
        invariant temp == if i < |nodes| then nodes[i] else null
        invariant forall k :: 0 <= k < |tasks| ==> tasks[k] == if k < i then DecTask(old(tasks)[k]) else old(tasks)[k]
        decreases |nodes| - i
      {
        DecOne(temp, i);
        ChainHere(i);
        temp := temp.next;
        i := i + 1;
      }
    }

    /** `irq_timer_handler`. */
    method TimerHandler()
      requires Valid()
      modifies this`tasks, this`ticks, nodes`process
      ensures Valid() && View() == TimerInterrupt(old(View()))
    {
      hide Chain, Position;
      if ticks % 100 == 0 {
        DecSleepCount();
      }
      ticks := ticks + 1;
    }

    // ------------------------------------------------------------ system calls

    /** `sys_fork`: the list and pid part. */
    method SysFork() returns (pid: nat)
      requires Valid() && Inv(View())
      modifies this, nodes`next
      ensures Valid() && View() == ForkCall(old(View())) && pid == old(nextPid)
      ensures forall n :: n in nodes ==> n in old(nodes) || fresh(n)
    {
      hide Chain, Position;
      ChainHere(Position(nodes, runningTask));
      var parent := runningTask.process;
      pid := nextPid;
      nextPid := nextPid + 1;
      var _ := AddToTaskList(NewTask(pid, parent.pid, parent.name));
    }

    /** `sys_exit`. */
    method SysExit()
      requires Valid() && Inv(View()) && Position(nodes, runningTask) > 0
      modifies this, nodes
      ensures Valid() && Some(View()) == ExitCall(old(View()))
      ensures forall n :: n in nodes ==> n in old(nodes) || fresh(n)
    {
      hide Chain, Position;
      DeleteCurrReady(View());
      DeleteCurrFromTaskList();
      Schedule();
    }

    /** The exec sequence of `syscall_handler`, once the file has been found. */
    method Exec(name: string)
      requires Valid() && Inv(View()) && Position(nodes, runningTask) > 0
      modifies this, nodes
      ensures Valid() && View() == ExecCall(old(View()), name)
      ensures forall n :: n in nodes ==> n in old(nodes) || fresh(n)
    {
      hide Chain, Position;
      ChainHere(Position(nodes, runningTask));
      var parent := runningTask.process;
      nextPid := nextPid - 1;
      var pcb := NewTask(nextPid, parent.pid, name);
      nextPid := nextPid + 1;
      pcb := pcb.(pid := parent.pid, ppid := parent.ppid);
      ReplaceCurrent(pcb);
    }

    /** The running task leaves the list, another one joins it, and somebody is scheduled. */
    method ReplaceCurrent(pcb: Task)
      requires Valid() && Inv(View()) && Position(nodes, runningTask) > 0
      modifies this, nodes
      ensures Valid() && CanSchedule(AddTask(DeleteCurr(old(View())), pcb))
      ensures View() == Scheduler.Schedule(AddTask(DeleteCurr(old(View())), pcb))
      ensures forall n :: n in nodes ==> n in old(nodes) || fresh(n)
    {
      hide Chain, Position, DistinctPids;
      DeleteCurrReady(View());
      DeleteCurrFromTaskList();
      PreviousListed();
      var _ := AddToTaskList(pcb);
      Schedule();
    }

    lemma PreviousListed()
      requires Position(nodes, previous) >= 0
      ensures previous != null && nodes != []
    {
    }

    /** The loop of `sys_kill`. */
    method KillSearch(pid: nat) returns (temp: Node?)
      requires Valid()
      ensures var stop := KillStop(tasks, Position(nodes, runningTask), pid, 0);
              if stop.None? then temp == null else temp == nodes[stop.value] && |tasks| == |nodes|
    {
      hide Position;
      ghost var r := Position(nodes, runningTask);
      temp := queueHead;
      ghost var i := 0;
      while temp != null
        invariant 0 <= i <= |nodes| && temp == if i < |nodes| then nodes[i] else null
        invariant KillStop(tasks, r, pid, i) == KillStop(tasks, r, pid, 0)
        decreases |nodes| - i
      {
        ChainHere(i);
        if temp.process.pid == pid && (temp.process.name == KERNEL_NAME || temp == runningTask) {
          return;
        }
        temp := temp.next;
        i := i + 1;
      }
    }

    method DeleteThenSchedule(pid: nat)
      requires Valid() && DeleteAndSchedule(View(), pid).Some? && Position(nodes, runningTask) > 0
      requires Shift(Position(nodes, runningTask),
                     if FindPid(tasks, pid, 0).Some? then FindPid(tasks, pid, 0).value else |tasks|) != -1
      modifies this, nodes
      ensures Valid() && Some(View()) == DeleteAndSchedule(old(View()), pid)
      ensures forall n :: n in nodes ==> n in old(nodes) || fresh(n)
    {
      hide Chain, Position;
      DeleteFromTaskList(pid);
      Schedule();
    }

    /** `sys_kill`, whenever its walks stay on the list. */
    method SysKill(pid: nat)
      requires Valid() && Inv(View()) && Position(nodes, runningTask) > 0 && KillCall(View(), pid).Some?
      modifies this, nodes
      ensures Valid() && Some(View()) == KillCall(old(View()), pid)
      ensures forall n :: n in nodes ==> n in old(nodes) || fresh(n)
    {
      hide Chain, Position;
      VictimIsNotRunning(View(), pid);
      ChainHere(Position(nodes, runningTask));
      if runningTask.process.ppid == pid {
        DeleteThenSchedule(pid);
        return;
      }
      var temp := KillSearch(pid);
      if temp == null {
        DeleteThenSchedule(pid);
      } else {
        ChainHere(KillStop(tasks, Position(nodes, runningTask), pid, 0).value);
        if temp.process.name == KERNEL_NAME {
          Schedule();
        } else {
          SysExit();
        }
      }
    }

    /** The loops of `sys_waitpid`. */
    method WaitSearch(caller: nat, pid: nat) returns (temp: Node?)
      requires Valid()
      ensures var child := WaitTarget(tasks, caller, pid, 0);
              if child.None? then temp == null else temp == nodes[child.value] && |tasks| == |nodes|
    {
      temp := queueHead;
      ghost var i := 0;
      while temp != null
        invariant 0 <= i <= |nodes| && temp == if i < |nodes| then nodes[i] else null
        invariant WaitTarget(tasks, caller, pid, i) == WaitTarget(tasks, caller, pid, 0)
        decreases |nodes| - i
      {
        ChainHere(i);
        if MayWaitFor(temp.process, caller, pid) {
          return;
        }
        temp := temp.next;
        i := i + 1;
      }
    }

    /** `sys_waitpid`: the result is the pid of the child, or 0 when there is nothing to wait for. */
    method SysWaitPid(pid: nat, bg: bool) returns (child: nat)
      requires Valid() && Inv(View())
      modifies this, nodes`process
      ensures Valid() && View() == WaitCall(old(View()), pid, bg)
      ensures var at := WaitTarget(old(tasks), old(Current(View()).pid), pid, 0);
              child == if bg || at.None? then 0 else old(tasks)[at.value].pid
      ensures nodes == old(nodes)
    {
      hide Chain, Position;
      if bg {
        return 0;
      }
      ghost var r := Position(nodes, runningTask);
      ChainHere(r);
      var current := runningTask.process;
      var temp := WaitSearch(current.pid, pid);
      if temp == null {
        return 0;
      }
      ChainHere(WaitTarget(tasks, current.pid, pid, 0).value);
      child := temp.process.pid;
      SetProcess(runningTask, current.(waiting := child), r);
      Schedule();
    }

    /** The sleep system call: the background mark, then `sys_sleep`. */
    method SysSleep(time: int, amp: bool)
      requires Valid() && Inv(View())
      modifies this, nodes`process
      ensures Valid() && View() == SleepCall(old(View()), time, amp)
      ensures nodes == old(nodes)
    {
      hide Chain, Position;
      ghost var r := Position(nodes, runningTask);
      ChainHere(r);
      var t := runningTask.process;
      if amp {
        t := t.(bg := true);
        isBg := true;
      } else {
        isBg := false;
      }
      SetProcess(runningTask, t.(sleepTime := time % WORD_LIMIT, sleeping := true), r);
      Schedule();
    }

    // ------------------------------------------------------------ boot and whole runs

    /** `start` and `load_sbush`: the boot task, then the shell with pid 1, then the first `schedule`. */
    method Boot(shell: string)
      requires Valid() && nodes == [] && previous == null && nextPid == 0 && !isBg
      modifies this
      ensures Valid() && View() == BootState(shell, old(ticks)) && forall n :: n in nodes ==> fresh(n)
    {
      hide Chain, Position;
      var boot := Task(nextPid, NO_PARENT, KERNEL_NAME, 0, 0, false, false);
      nextPid := nextPid + 1;
      var first := AddToTaskList(boot);
      OneNode(first);
      var pcb := NewTask(nextPid, 0, shell);
      nextPid := nextPid + 1;
      var second := AddToTaskList(pcb.(pid := 1, ppid := 0));
      OnTheList();
      Schedule();
    }

    lemma OneNode(first: Node)
      requires nodes == [first] && runningTask == first && previous == null
      ensures Position(nodes, runningTask) == 0 && Position(nodes, previous) == -1
    {
      PositionOf(nodes, 0);
    }

    lemma OnTheList()
      requires Position(nodes, runningTask) == 0
      ensures runningTask in nodes && runningTask != null
    {
    }

    /** One event, on the linked list. */
    method Happen(e: Event)
      requires Valid() && Inv(View()) && Safe(View(), e)
      modifies this, nodes
      ensures Valid() && Some(View()) == Step(old(View()), e)
      ensures forall n :: n in nodes ==> n in old(nodes) || fresh(n)
    {
      hide Chain, Position, ExecCall, KillCall, ExitCall, WaitCall, SleepCall, ForkCall, TimerInterrupt, DistinctPids;
      match e
      case Yield =>
        OnTheListHere();
        Schedule();
      case Tick => TimerHandler();
      case Fork => var _ := SysFork();
      case Exit => SysExit();
      case Exec(name) => Exec(name);
      case Kill(pid) =>
        KillKeepsInv(View(), pid);
        SysKill(pid);
      case Sleep(time, amp) => SysSleep(time, amp);
      case WaitPid(target) => var _ := SysWaitPid(target, isBg);
      case Wait => var _ := SysWaitPid(0, false);
    }

    lemma OnTheListHere()
      requires Position(nodes, runningTask) >= 0
      ensures runningTask in nodes && runningTask != null
    {
    }

    /** Any sequence of safe events: the linked list goes through the run that the theorems speak of. */
    method Live(es: seq<Event>)
      requires Valid() && Inv(View()) && Legal(View(), es)
      modifies this, nodes
      ensures Valid() && Inv(View()) && Some(View()) == Run(old(View()), es)
    {
      hide Chain, Position, Inv, Step, Legal, Run;
      ghost var s0 := View();
      assert es[0..] == es;
      for k := 0 to |es|
        invariant Valid() && Reached(s0, es, k, View())
        invariant forall i :: 0 <= i < |nodes| ==> nodes[i] in old(nodes) || fresh(nodes[i])
      {
        NextEvent(s0, es, k, View());
        ghost var before := nodes;
        Happen(es[k]);
        assert forall i :: 0 <= i < |nodes| ==> nodes[i] in nodes;
        assert forall n :: n in before ==> n in old(nodes) || fresh(n);
      }
      LastEvent(s0, es, View());
    }
  }

  /** After `k` events of a legal run the state is `s`. */
  ghost predicate Reached(s0: State, es: seq<Event>, k: nat, s: State) {
    k <= |es| && Inv(s) && Legal(s, es[k..]) && Run(s, es[k..]) == Run(s0, es)
  }

  lemma NextEvent(s0: State, es: seq<Event>, k: nat, s: State)
    requires Reached(s0, es, k, s) && k < |es|
    ensures Inv(s) && Safe(s, es[k]) && Step(s, es[k]).Some? && Reached(s0, es, k + 1, Step(s, es[k]).value)
  {
    assert es[k..][0] == es[k] && es[k..][1..] == es[k + 1..];
    StepKeepsInv(s, es[k]);
  }

  lemma LastEvent(s0: State, es: seq<Event>, s: State)
    requires Reached(s0, es, |es|, s)
    ensures Inv(s) && Run(s0, es) == Some(s)
  {
    assert es[|es|..] == [];
  }
}
