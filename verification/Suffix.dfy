/**
 Free memory as it is in practice: nothing in the kernel ever releases a page, so the free pages are
 always the end of memory.  Every operation keeps it so, and takes a bounded number of pages.
 */
module Suffix {
  import opened Basics
  import opened Allocator
  import opened AllocatorRuns
  import opened Addresses
  import opened Paging
  import opened Spaces

  /** From `ps` to `ps'` at most `most` pages were taken, all from the start of the free ones. */
  ghost predicate Takes(ps: seq<Page>, top: nat, ps': seq<Page>, top': nat, most: nat) {
    |ps'| == |ps| && top <= top' <= top + most && FreeSuffix(ps', top')
  }

  lemma TakesThen(a: seq<Page>, ta: nat, b: seq<Page>, tb: nat, c: seq<Page>, tc: nat, m: nat, n: nat)
    requires Takes(a, ta, b, tb, m) && Takes(b, tb, c, tc, n)
    ensures Takes(a, ta, c, tc, m + n)
  {
  }

  lemma AllocTakes(vm: Vm, top: nat, k: nat)
    requires FreeSuffix(vm.pages, top) && k > 0
    ensures AllocFrames(vm, k).Some? <==> top + k <= |vm.pages|
    ensures AllocFrames(vm, k).Some? ==>
              AllocFrames(vm, k).value.1 == top && Takes(vm.pages, top, AllocFrames(vm, k).value.0.pages, top + k, k)
  {
    KmallocTakesSuffixStart(vm.pages, top, k);
  }

  lemma EnsureTableTakes(vm: Vm, t: nat, i: nat, user: bool, top: nat) returns (top': nat)
    requires FreeSuffix(vm.pages, top)
    ensures top + 1 <= |vm.pages| ==> EnsureTable(vm, t, i, user).Some?
    ensures EnsureTable(vm, t, i, user).Some? ==>
              Takes(vm.pages, top, EnsureTable(vm, t, i, user).value.0.pages, top', 1)
  {
    AllocTakes(vm, top, 1);
    top' := if Present(Word(vm.mem, t, i)) then top else top + 1;
  }

  lemma {:induction false} EnsurePathTakes(vm: Vm, root: nat, p: seq<nat>, user: bool, top: nat) returns (top': nat)
    requires FreeSuffix(vm.pages, top)
    ensures top + |p| <= |vm.pages| ==> EnsurePath(vm, root, p, user).Some?
    ensures EnsurePath(vm, root, p, user).Some? ==>
              Takes(vm.pages, top, EnsurePath(vm, root, p, user).value.0.pages, top', |p|)
    decreases |p|
  {
    hide FreeSuffix, EnsureTable;
    top' := top;
    if p != [] {
      var n := |p| - 1;
      var top1 := EnsurePathTakes(vm, root, p[..n], user, top);
      var up := EnsurePath(vm, root, p[..n], user);
      if up.Some? {
        top' := EnsureTableTakes(up.value.0, up.value.1, p[n], user, top1);
        if EnsurePath(vm, root, p, user).Some? {
          TakesThen(vm.pages, top, up.value.0.pages, top1, EnsurePath(vm, root, p, user).value.0.pages, top', n, 1);
        }
      }
    }
  }

  lemma MapPathTakes(vm: Vm, root: nat, p: seq<nat>, pa: u64, n: nat, user: bool, top: nat) returns (top': nat)
    requires FreeSuffix(vm.pages, top) && |p| == 4
    ensures top + 3 <= |vm.pages| ==> MapPath(vm, root, p, pa, n, user).Some?
    ensures MapPath(vm, root, p, pa, n, user).Some? ==>
              Takes(vm.pages, top, MapPath(vm, root, p, pa, n, user).value.pages, top', 3)
  {
    hide FreeSuffix;
    top' := EnsurePathTakes(vm, root, p[..3], user, top);
  }

  // ---------------------------------------------------------------- address spaces

  lemma StackTakes(vm: Vm, root: nat, top: nat) returns (top': nat)
    requires FreeSuffix(vm.pages, top)
    ensures top + 4 <= |vm.pages| ==> KmallocStack(vm, root).Some?
    ensures KmallocStack(vm, root).Some? ==> Takes(vm.pages, top, KmallocStack(vm, root).value.0.pages, top', 4)
  {
    hide FreeSuffix, MapPath, AllocFrames, Path, StackAddress;
    top' := top;
    AllocTakes(vm, top, 1);
    var a := AllocFrames(vm, 1);
    if a.Some? {
      top' := MapPathTakes(a.value.0, root, Path(StackAddress(a.value.1)), FrameAddress(a.value.1), 1, true, top + 1);
    }
  }

  lemma TwoTakes(vm: Vm, top: nat, j: nat, k: nat)
    requires FreeSuffix(vm.pages, top) && j > 0 && k > 0
    ensures top + j + k <= |vm.pages| ==> AllocFrames(vm, j).Some? && AllocFrames(AllocFrames(vm, j).value.0, k).Some?
    ensures AllocFrames(vm, j).Some? && AllocFrames(AllocFrames(vm, j).value.0, k).Some? ==>
              && AllocFrames(vm, j).value.1 == top
              && Takes(vm.pages, top, AllocFrames(AllocFrames(vm, j).value.0, k).value.0.pages, top + j + k, j + k)
  {
    hide FreeSuffix, AllocFrames;
    AllocTakes(vm, top, j);
    if AllocFrames(vm, j).Some? {
      AllocTakes(AllocFrames(vm, j).value.0, top + j, k);
    }
  }

  const TASK_PAGES := 9

  lemma TaskPages()
    ensures PagesFor(TASK_BYTES) == TASK_PAGES
  {
  }

  /** Creating a process takes at most fourteen pages. */
  lemma NewSpaceTakes(vm: Vm, kroot: nat, top: nat) returns (top': nat)
    requires FreeSuffix(vm.pages, top)
    ensures top + 14 <= |vm.pages| && |vm.mem| == |vm.pages| ==> NewSpace(vm, kroot).Some?
    ensures NewSpace(vm, kroot).Some? ==> Takes(vm.pages, top, NewSpace(vm, kroot).value.0.pages, top', 14)
  {
    hide FreeSuffix, AllocFrames, KmallocStack, PagesFor;
    top' := top;
    TaskPages();
    TwoTakes(vm, top, 1, TASK_PAGES);
    var a := NewFrames(vm);
    if a.Some? {
      FramesKeepSize(vm);
      if a.value.1 < |a.value.0.mem| {
        top' := StackTakes(RootOf(a.value.0, kroot, a.value.1, None), a.value.1, top + 1 + TASK_PAGES);
      }
    }
  }

  lemma FramesKeepSize(vm: Vm)
    requires NewFrames(vm).Some?
    ensures |NewFrames(vm).value.0.mem| == |vm.mem|
  {
  }

  lemma ForkFramesTake(vm: Vm, top: nat)
    requires FreeSuffix(vm.pages, top) && ForkFrames(vm).Some?
    ensures Takes(vm.pages, top, ForkFrames(vm).value.0.pages, top + TASK_PAGES + 4, TASK_PAGES + 4)
  {
    hide FreeSuffix, AllocFrames, PagesFor;
    TaskPages();
    var vm1 := AllocFrames(vm, TASK_PAGES).value.0;
    AllocTakes(vm, top, TASK_PAGES);
    TwoTakes(vm1, top + TASK_PAGES, 1, 1);
    var vm2 := AllocFrames(AllocFrames(vm1, 1).value.0, 1).value.0;
    TwoTakes(vm2, top + TASK_PAGES + 2, 1, 1);
  }

  lemma ForkSpaceTakes(vm: Vm, kroot: nat, parent: nat, top: nat) returns (top': nat)
    requires FreeSuffix(vm.pages, top) && ForkSpace(vm, kroot, parent).Some?
    ensures Takes(vm.pages, top, ForkSpace(vm, kroot, parent).value.0.pages, top', TASK_PAGES + 8)
  {
    hide FreeSuffix, KmallocStack, ForkFrames;
    ForkFramesTake(vm, top);
    var (vm1, root) := ForkFrames(vm).value;
    top' := StackTakes(RootOf(vm1, kroot, root, Some(parent)), root, top + TASK_PAGES + 4);
  }

  lemma OpKeepsSuffix(s: Space, kroot: nat, op: SpaceOp, top: nat) returns (top': nat)
    requires FreeSuffix(s.vm.pages, top) && ApplyOp(s, kroot, op).Some?
    ensures top <= top' && FreeSuffix(ApplyOp(s, kroot, op).value.vm.pages, top')
  {
    hide FreeSuffix, MapPath, Path, PagesFor, NewSpace, ForkSpace, AllocFrames;
    match op
    case Map(root, va, pa, n, user) => top' := MapPathTakes(s.vm, root, Path(va), pa, n, user, top);
    case Spawn => top' := NewSpaceTakes(s.vm, kroot, top);
    case Fork(parent) => top' := ForkSpaceTakes(s.vm, kroot, parent, top);
    case Reserve(bytes) =>
      NoneForZero(s.vm);
      AllocTakes(s.vm, top, PagesFor(bytes));
      top' := top + PagesFor(bytes);
  }

  lemma NoneForZero(vm: Vm)
    ensures AllocFrames(vm, 0).None?
  {
  }

  /** After every run of maps, spawns, forks and allocations the free pages are still the end of memory. */
  lemma {:induction false} RunKeepsSuffix(s: Space, kroot: nat, ops: seq<SpaceOp>, top: nat) returns (top': nat)
    requires FreeSuffix(s.vm.pages, top) && RunOps(s, kroot, ops).Some?
    ensures top <= top' && FreeSuffix(RunOps(s, kroot, ops).value.vm.pages, top')
    decreases |ops|
  {
    hide FreeSuffix, ApplyOp;
    if ops == [] {
      top' := top;
    } else {
      var top1 := OpKeepsSuffix(s, kroot, ops[0], top);
      top' := RunKeepsSuffix(ApplyOp(s, kroot, ops[0]).value, kroot, ops[1..], top1);
    }
  }
}
