/**
 Address spaces over whole runs: creating a process root, copying one on fork, and mapping user
 pages, in any order.
 */
module Spaces {
  import opened Basics
  import opened Allocator
  import opened Addresses
  import opened Paging
  import opened PageTree
  import opened Mapping

  const STACK_BASE := 0xFFFF_F0F0_8070_0000
  const TASK_BYTES := 32976

  /** `kmalloc_stack`: one page, mapped at its physical address above `STACK_BASE`. */
  function KmallocStack(vm: Vm, root: nat): (r: Option<(Vm, nat)>) {
    var a := AllocFrames(vm, 1);
    if a.None? then None else
    var (vm1, f) := a.value;
    var m := MapRange(vm1, root, StackAddress(f), FrameAddress(f), 1, true);
    if m.None? then None else Some((m.value, f))
  }

  function StackAddress(f: nat): u64 {
    (STACK_BASE + f * PAGE_SIZE) % WORD_LIMIT
  }

  /** Entry `i` of a new root: the kernel slot only, or everything the parent has. */
  function RootWord(mem: Memory, kroot: nat, parent: Option<nat>, i: nat): u64 {
    if parent.Some? then Word(mem, parent.value, i)
    else if i == KERNEL_SLOT then Word(mem, kroot, KERNEL_SLOT) else 0
  }

  function CopyRoot(mem: Memory, kroot: nat, parent: Option<nat>): (r: seq<u64>)
    ensures |r| == ENTRIES
  {
    seq(ENTRIES, i requires 0 <= i < ENTRIES => RootWord(mem, kroot, parent, i))
  }

  function RootOf(vm: Vm, kroot: nat, root: nat, parent: Option<nat>): Vm
    requires root < |vm.mem|
  {
    vm.(mem := vm.mem[root := CopyRoot(vm.mem, kroot, parent)])
  }

  /** The allocations of `elf_run_bin`: the frame of the root, then the task structure. */
  function NewFrames(vm: Vm): (r: Option<(Vm, nat)>) {
    var a := AllocFrames(vm, 1);
    if a.None? then None else
    var b := AllocFrames(a.value.0, PagesFor(TASK_BYTES));
    if b.None? then None else Some((b.value.0, a.value.1))
  }

  /** The root that `elf_run_bin` builds: slot 511 only, then a stack. */
  function NewSpace(vm: Vm, kroot: nat): (r: Option<(Vm, nat, nat)>) {
    var a := NewFrames(vm);
    if a.None? || a.value.1 >= |a.value.0.mem| then None else
    var (vm1, root) := a.value;
    var s := KmallocStack(RootOf(vm1, kroot, root, None), root);
    if s.None? then None else Some((s.value.0, root, s.value.1))
  }

  /** The allocations of `sys_fork` in order; the result names the frame of the child root. */
  function ForkFrames(vm: Vm): (r: Option<(Vm, nat)>) {
    var a := AllocFrames(vm, PagesFor(TASK_BYTES));
    if a.None? then None else
    var b := AllocFrames(a.value.0, 1);            // list node
    if b.None? then None else
    var c := AllocFrames(b.value.0, 1);            // root
    if c.None? then None else
    var d := AllocFrames(c.value.0, 1);            // copy of the kernel stack
    if d.None? then None else
    var e := AllocFrames(d.value.0, 1);            // copy of the user stack
    if e.None? then None else Some((e.value.0, c.value.1))
  }

  /** The child root of `sys_fork`: all 512 entries of the parent, then a stack of its own. */
  function ForkSpace(vm: Vm, kroot: nat, parent: nat): (r: Option<(Vm, nat, nat)>) {
    var a := ForkFrames(vm);
    if a.None? || a.value.1 >= |a.value.0.mem| then None else
    var (vm1, root) := a.value;
    var s := KmallocStack(RootOf(vm1, kroot, root, Some(parent)), root);
    if s.None? then None else Some((s.value.0, root, s.value.1))
  }

  // ---------------------------------------------------------------- each step keeps the tree

  lemma AllocKeepsTree(vm: Vm, own: map<nat, Owner>, kroot: nat, k: nat)
    requires TreeInv(vm, own, kroot) && AllocFrames(vm, k).Some?
    ensures var (vm1, f) := AllocFrames(vm, k).value;
            && TreeInv(vm1, own, kroot) && Grows(vm, own, vm1, own) && |vm1.mem| == |vm.mem|
            && |vm1.pages| == |vm.pages|
            && f < |vm1.mem| && f < |vm.pages| && f < |vm1.pages| && vm.pages[f].used == 0 && vm1.pages[f].used == 1
            && f !in own
            && vm1.mem[f] == ZeroFrame()
            && (forall g :: f <= g < f + k ==>
                  g < |vm1.mem| && vm.pages[g].used == 0 && vm1.pages[g].used == 1 && g !in own
                    && vm1.mem[g] == ZeroFrame())
            && (forall g :: 0 <= g < |vm.mem| && !(f <= g < f + k) ==> vm1.mem[g] == vm.mem[g])
            && (forall t: nat :: IsTable(own, t) ==> vm1.mem[t] == vm.mem[t])
  {
    AllocBlock(vm, k);
    hide AllocFrames;
    var (vm1, f) := AllocFrames(vm, k).value;
    assert forall g :: f <= g < f + k ==> g !in own;
    TreeInvOnTables(vm, own, kroot, vm1);
    assert forall t, i :: IsTable(own, t) && 0 <= i < ENTRIES ==> Word(vm1.mem, t, i) == Word(vm.mem, t, i);
  }

  /** An allocated block: its pages were free, and are now used and zero; no other page differs. */
  lemma AllocBlock(vm: Vm, k: nat)
    requires WellFormed(vm) && AllocFrames(vm, k).Some?
    ensures var (vm1, f) := AllocFrames(vm, k).value;
            && WellFormed(vm1) && |vm1.mem| == |vm.mem| && k > 0 && f + k <= |vm.mem|
            && (forall g :: f <= g < f + k ==>
                  vm.pages[g].used == 0 && vm1.pages[g].used == 1 && vm1.mem[g] == ZeroFrame())
            && (forall g :: 0 <= g < |vm.mem| && !(f <= g < f + k) ==>
                  vm1.mem[g] == vm.mem[g] && vm1.pages[g] == vm.pages[g])
  {
    var (vm1, f) := AllocFrames(vm, k).value;
    KmallocKeepsCountdown(vm.pages, k);
    KmallocTakesAFreeRun(vm.pages, k);
    hide Countdown;
    forall g | 0 <= g < |vm1.mem| ensures |vm1.mem[g]| == ENTRIES {
      assert vm1.mem[g] == if f <= g < f + k then ZeroFrame() else vm.mem[g];
    }
  }

  lemma AllocKeepsWalks(vm: Vm, own: map<nat, Owner>, kroot: nat, k: nat)
    requires TreeInv(vm, own, kroot) && AllocFrames(vm, k).Some?
    ensures SameWalks(own, vm.mem, AllocFrames(vm, k).value.0.mem)
  {
    AllocKeepsTree(vm, own, kroot, k);
    WalksOnTables(vm, own, kroot, AllocFrames(vm, k).value.0.mem);
  }

  /** A fresh frame becomes a process root when every present entry is copied from a root. */
  lemma RootKeepsTree(vm: Vm, own: map<nat, Owner>, kroot: nat, f: nat, from: nat, frame: seq<u64>)
    requires TreeInv(vm, own, kroot) && IsRoot(own, from)
    requires f < |vm.mem| && f !in own && vm.pages[f].used == 1 && |frame| == ENTRIES
    requires forall i :: 0 <= i < ENTRIES && Present(frame[i]) ==>
                           frame[i] == Word(vm.mem, from, i) && (i == KERNEL_SLOT || own[from].user)
    requires frame[KERNEL_SLOT] == Word(vm.mem, kroot, KERNEL_SLOT)
    ensures TreeInv(vm.(mem := vm.mem[f := frame]), own[f := RootOwner(true)], kroot)
  {
    var mem' := vm.mem[f := frame];
    var own' := own[f := RootOwner(true)];
    forall t, i | IsTable(own', t) && 0 <= i < ENTRIES ensures EntryOk(mem', own', t, i) {
      if t == f {
        assert EntryOk(vm.mem, own, from, i);
        assert Word(mem', f, i) == frame[i];
      } else {
        assert EntryOk(vm.mem, own, t, i);
        assert Word(mem', t, i) == Word(vm.mem, t, i);
      }
    }
    assert Word(mem', kroot, KERNEL_SLOT) == Word(vm.mem, kroot, KERNEL_SLOT);
    forall r | IsRoot(own', r) && own'[r].user
      ensures Word(mem', r, KERNEL_SLOT) == Word(mem', kroot, KERNEL_SLOT)
    {
      assert r == f || (IsRoot(own, r) && own[r].user);
    }
  }

  lemma StackKeepsTree(vm: Vm, own: map<nat, Owner>, kroot: nat, root: nat)
    returns (own': map<nat, Owner>)
    requires TreeInv(vm, own, kroot) && IsRoot(own, root) && KmallocStack(vm, root).Some?
    ensures var (vm', f) := KmallocStack(vm, root).value;
            && TreeInv(vm', own', kroot) && Grows(vm, own, vm', own')
            && f < |vm'.mem| && vm.pages[f].used == 0 && vm'.pages[f].used == 1 && f !in own'
            && Walk(vm'.mem, root, Path(StackAddress(f))) == Some(LeafEntry(FrameAddress(f), true))
            && vm'.mem[f] == ZeroFrame()
            && (forall r: nat, q: seq<nat> :: IsRoot(own, r) && |q| == 4 && Indices(q) && q != Path(StackAddress(f)) ==>
                                              Walk(vm'.mem, r, q) == Walk(vm.mem, r, q))
  {
    hide Path, StackAddress, Grows, Walk, LeafEntry, LeafAt, MapPath, WellFormed, TreeInv, SameWalks, AllocFrames;
    TreeIsWellFormed(vm, own, kroot);
    AllocKeepsTree(vm, own, kroot, 1);
    AllocKeepsWalks(vm, own, kroot, 1);
    var (vm1, f) := AllocFrames(vm, 1).value;
    TreeIsWellFormed(vm1, own, kroot);
    SizesAgree(vm1);
    var pa: u64 := FrameAddress(f);
    var p := Path(StackAddress(f));
    var pt;
    own', pt := MapPathTheorem(vm1, own, kroot, root, p, pa, 1, true);
    var vm' := KmallocStack(vm, root).value.0;
    GrowsTree(vm, own, vm1, own, vm', own', kroot);
    GrowsKeepsFrame(vm1, own, vm', own', f);
    MapPathTranslates(vm1, own, kroot, root, p, pa, 1, true, 0);
    assert p[..3] + [p[3] + 0] == p;
    LeafAtZero(pa);
    StackWalks(vm, vm1, own, kroot, root, p, pa);
  }

  /** A page mapped at path `p` moves no other page of any root. */
  lemma StackWalks(vm: Vm, vm1: Vm, own: map<nat, Owner>, kroot: nat, root: nat, p: seq<nat>, pa: u64)
    requires TreeInv(vm1, own, kroot) && SameWalks(own, vm.mem, vm1.mem) && IsRoot(own, root) && |p| == 4 && Indices(p)
    requires MapPath(vm1, root, p, pa, 1, true).Some?
    ensures var mem' := MapPath(vm1, root, p, pa, 1, true).value.mem;
            forall r: nat, q: seq<nat> :: IsRoot(own, r) && |q| == 4 && Indices(q) && q != p ==>
                Walk(mem', r, q) == Walk(vm.mem, r, q)
  {
    hide TreeInv, Walk, MapPath;
    var mem' := MapPath(vm1, root, p, pa, 1, true).value.mem;
    forall r: nat, q: seq<nat> | IsRoot(own, r) && |q| == 4 && Indices(q) && q != p
      ensures Walk(mem', r, q) == Walk(vm.mem, r, q)
    {
      MapPathOthers(vm1, own, kroot, root, p, pa, 1, true, r, q);
      assert q == q[..3] + [q[3]] && p == p[..3] + [p[3]];
      assert Walk(vm1.mem, r, q) == Walk(vm.mem, r, q);
    }
  }

  lemma SizesAgree(vm: Vm)
    requires WellFormed(vm)
    ensures |vm.mem| == |vm.pages|
  {
  }

  lemma LeafAtZero(pa: u64)
    ensures LeafAt(pa, 0, true) == LeafEntry(pa, true)
  {
  }

  lemma AddRoot(vm: Vm, own: map<nat, Owner>, kroot: nat, f: nat, parent: Option<nat>)
    requires TreeInv(vm, own, kroot) && f < |vm.mem| && f !in own && vm.pages[f].used == 1
    requires parent.Some? ==> IsRoot(own, parent.value) && own[parent.value].user
    ensures TreeInv(vm.(mem := vm.mem[f := CopyRoot(vm.mem, kroot, parent)]), own[f := RootOwner(true)], kroot)
  {
    var from := if parent.Some? then parent.value else kroot;
    assert IsRoot(own, from);
    RootKeepsTree(vm, own, kroot, f, from, CopyRoot(vm.mem, kroot, parent));
  }

  /** A frame that is fresh since `vm` may be made a root without disturbing anything older. */
  lemma AddRootGrows(vm: Vm, own: map<nat, Owner>, kroot: nat, vm1: Vm, f: nat, frame: seq<u64>)
    requires TreeInv(vm, own, kroot) && TreeInv(vm1, own, kroot) && Grows(vm, own, vm1, own)
    requires f < |vm1.mem| && f < |vm.pages| && vm.pages[f].used == 0
    ensures Grows(vm, own, vm1.(mem := vm1.mem[f := frame]), own[f := RootOwner(true)])
  {
    var mem' := vm1.mem[f := frame];
    forall r, i | IsRoot(own, r) && 0 <= i < ENTRIES && Present(Word(vm.mem, r, i))
      ensures Word(mem', r, i) == Word(vm.mem, r, i)
    {
      assert r != f && Word(mem', r, i) == Word(vm1.mem, r, i);
    }
  }

  /** A frame allocated since `vm` becomes a root and gets its stack. */
  lemma RootAndStack(vm: Vm, own: map<nat, Owner>, kroot: nat, vm1: Vm, root: nat, parent: Option<nat>)
    returns (own': map<nat, Owner>)
    requires TreeInv(vm, own, kroot) && TreeInv(vm1, own, kroot) && Grows(vm, own, vm1, own)
    requires root < |vm1.mem| && vm.pages[root].used == 0 && vm1.pages[root].used == 1 && root !in own
    requires parent.Some? ==> IsRoot(own, parent.value) && own[parent.value].user
    requires KmallocStack(RootOf(vm1, kroot, root, parent), root).Some?
    ensures var (vm', stack) := KmallocStack(RootOf(vm1, kroot, root, parent), root).value;
            && TreeInv(vm', own', kroot) && Grows(vm, own, vm', own')
            && root in own' && own'[root] == RootOwner(true)
            && stack < |vm'.mem| && vm'.pages[stack].used == 1 && stack !in own' && vm'.mem[stack] == ZeroFrame()
            && Walk(vm'.mem, root, Path(StackAddress(stack))) == Some(LeafEntry(FrameAddress(stack), true))
            && (forall i :: 0 <= i < ENTRIES && Present(RootWord(vm1.mem, kroot, parent, i)) ==>
                              Word(vm'.mem, root, i) == RootWord(vm1.mem, kroot, parent, i))
  {
    assert root < |vm.pages|;
    hide TreeInv, KmallocStack, Path, StackAddress, LeafEntry, Walk, Grows, CopyRoot;
    AddRoot(vm1, own, kroot, root, parent);
    AddRootGrows(vm, own, kroot, vm1, root, CopyRoot(vm1.mem, kroot, parent));
    var vm2 := RootOf(vm1, kroot, root, parent);
    var own2 := own[root := RootOwner(true)];
    own' := StackKeepsTree(vm2, own2, kroot, root);
    var vm' := KmallocStack(vm2, root).value.0;
    GrowsTree(vm, own, vm2, own2, vm', own', kroot);
    RootWordsStay(vm1, kroot, root, parent, own2, vm', own');
    GrowsKeepsRoots(vm2, own2, vm', own');
  }

  lemma RootWordsStay(vm1: Vm, kroot: nat, root: nat, parent: Option<nat>, own2: map<nat, Owner>, vm': Vm,
                      own': map<nat, Owner>)
    requires root < |vm1.mem| && IsRoot(own2, root) && Grows(RootOf(vm1, kroot, root, parent), own2, vm', own')
    ensures forall i :: 0 <= i < ENTRIES && Present(RootWord(vm1.mem, kroot, parent, i)) ==>
                          Word(vm'.mem, root, i) == RootWord(vm1.mem, kroot, parent, i)
  {
    var vm2 := RootOf(vm1, kroot, root, parent);
    forall i | 0 <= i < ENTRIES && Present(RootWord(vm1.mem, kroot, parent, i))
      ensures Word(vm'.mem, root, i) == RootWord(vm1.mem, kroot, parent, i)
    {
      assert Word(vm2.mem, root, i) == RootWord(vm1.mem, kroot, parent, i);
    }
  }

  lemma AllocAgain(vm: Vm, own: map<nat, Owner>, kroot: nat, vm1: Vm, k: nat)
    requires TreeInv(vm, own, kroot) && TreeInv(vm1, own, kroot) && Grows(vm, own, vm1, own)
    requires AllocFrames(vm1, k).Some?
    ensures var (vm2, f) := AllocFrames(vm1, k).value;
            && TreeInv(vm2, own, kroot) && Grows(vm, own, vm2, own)
            && f < |vm2.mem| && vm.pages[f].used == 0 && vm2.pages[f].used == 1 && f !in own
            && (forall g :: 0 <= g < |vm1.pages| && vm1.pages[g].used == 1 ==> vm2.pages[g].used == 1)
  {
    AllocKeepsTree(vm1, own, kroot, k);
    var (vm2, f) := AllocFrames(vm1, k).value;
    GrowsTrans(vm, own, vm1, own, vm2, own);
    assert Counts(vm.pages, f);
  }

  lemma ForkFramesKeepTree(vm: Vm, own: map<nat, Owner>, kroot: nat)
    requires TreeInv(vm, own, kroot) && ForkFrames(vm).Some?
    ensures var (vm1, root) := ForkFrames(vm).value;
            && TreeInv(vm1, own, kroot) && Grows(vm, own, vm1, own)
            && root < |vm1.mem| && vm.pages[root].used == 0 && vm1.pages[root].used == 1 && root !in own
  {
    AllocAgain(vm, own, kroot, vm, PagesFor(TASK_BYTES));
    var a := AllocFrames(vm, PagesFor(TASK_BYTES)).value.0;
    AllocAgain(vm, own, kroot, a, 1);
    var b := AllocFrames(a, 1).value.0;
    AllocAgain(vm, own, kroot, b, 1);
    var c := AllocFrames(b, 1).value.0;
    AllocAgain(vm, own, kroot, c, 1);
    var d := AllocFrames(c, 1).value.0;
    AllocAgain(vm, own, kroot, d, 1);
  }

  lemma NewFramesKeepTree(vm: Vm, own: map<nat, Owner>, kroot: nat)
    requires TreeInv(vm, own, kroot) && NewFrames(vm).Some?
    ensures var (vm1, root) := NewFrames(vm).value;
            && TreeInv(vm1, own, kroot) && Grows(vm, own, vm1, own)
            && root < |vm1.mem| && vm.pages[root].used == 0 && vm1.pages[root].used == 1 && root !in own
  {
    AllocAgain(vm, own, kroot, vm, 1);
    AllocAgain(vm, own, kroot, AllocFrames(vm, 1).value.0, PagesFor(TASK_BYTES));
  }

  lemma NewSpaceKeepsTree(vm: Vm, own: map<nat, Owner>, kroot: nat) returns (own': map<nat, Owner>)
    requires TreeInv(vm, own, kroot) && NewSpace(vm, kroot).Some?
    ensures var (vm', root, stack) := NewSpace(vm, kroot).value;
            && TreeInv(vm', own', kroot) && Grows(vm, own, vm', own')
            && root !in own && root in own' && own'[root] == RootOwner(true)
            && stack < |vm'.mem| && vm'.pages[stack].used == 1 && stack !in own' && vm'.mem[stack] == ZeroFrame()
            && Walk(vm'.mem, root, Path(StackAddress(stack))) == Some(LeafEntry(FrameAddress(stack), true))
  {
    hide NewFrames;
    NewFramesKeepTree(vm, own, kroot);
    var (vm1, root) := NewFrames(vm).value;
    own' := RootAndStack(vm, own, kroot, vm1, root, None);
  }

  lemma ForkSpaceKeepsTree(vm: Vm, own: map<nat, Owner>, kroot: nat, parent: nat) returns (own': map<nat, Owner>)
    requires TreeInv(vm, own, kroot) && IsRoot(own, parent) && own[parent].user && ForkSpace(vm, kroot, parent).Some?
    ensures var (vm', root, stack) := ForkSpace(vm, kroot, parent).value;
            && TreeInv(vm', own', kroot) && Grows(vm, own, vm', own')
            && root !in own && root in own' && own'[root] == RootOwner(true)
            && (forall i :: 0 <= i < ENTRIES && Present(Word(vm.mem, parent, i)) ==>
                              Word(vm'.mem, root, i) == Word(vm.mem, parent, i))
            && stack < |vm'.mem| && vm'.pages[stack].used == 1 && stack !in own' && vm'.mem[stack] == ZeroFrame()
            && Walk(vm'.mem, root, Path(StackAddress(stack))) == Some(LeafEntry(FrameAddress(stack), true))
  {
    hide ForkFrames, Walk, Path, StackAddress, LeafEntry, KmallocStack;
    ForkFramesKeepTree(vm, own, kroot);
    var (vm1, root) := ForkFrames(vm).value;
    own' := RootAndStack(vm, own, kroot, vm1, root, Some(parent));
    ForkFramesKeepRoots(vm, own, kroot, parent);
  }

  lemma ForkFramesKeepRoots(vm: Vm, own: map<nat, Owner>, kroot: nat, parent: nat)
    requires TreeInv(vm, own, kroot) && IsRoot(own, parent) && ForkFrames(vm).Some?
    ensures forall i :: 0 <= i < ENTRIES && Present(Word(vm.mem, parent, i)) ==>
                          RootWord(ForkFrames(vm).value.0.mem, kroot, Some(parent), i) == Word(vm.mem, parent, i)
  {
    hide ForkFrames;
    ForkFramesKeepTree(vm, own, kroot);
  }

  // ---------------------------------------------------------------- what a new process sees

  lemma AbsentSlot(mem: Memory, r: nat, q: seq<nat>)
    requires |q| == 4 && !Present(Word(mem, r, q[0]))
    ensures Walk(mem, r, q).None?
  {
    assert q[..1][..0] == [] && Reach(mem, r, []) == Some(r);
    assert Reach(mem, r, q[..1]).None?;
    assert q[..2][..1] == q[..1] && q[..3][..2] == q[..2];
    assert Reach(mem, r, q[..2]).None?;
  }

  /** A new root sees what its parent sees, or nothing outside slot 511. */
  lemma NewRootSees(vm: Vm, own: map<nat, Owner>, kroot: nat, root: nat, parent: Option<nat>, q: seq<nat>)
    requires TreeInv(vm, own, kroot) && root < |vm.mem| && root !in own && |q| == 4 && Indices(q)
    requires parent.Some? ==> IsRoot(own, parent.value)
    ensures var mem' := RootOf(vm, kroot, root, parent).mem;
            if parent.Some? then Walk(mem', root, q) == Walk(mem', parent.value, q)
            else q[0] != KERNEL_SLOT ==> Walk(mem', root, q).None?
  {
    var mem' := RootOf(vm, kroot, root, parent).mem;
    assert Word(mem', root, q[0]) == RootWord(vm.mem, kroot, parent, q[0]);
    if parent.Some? {
      assert Word(mem', parent.value, q[0]) == Word(vm.mem, parent.value, q[0]);
      SharedSlotAgrees(mem', root, parent.value, q);
    } else if q[0] != KERNEL_SLOT {
      AbsentSlot(mem', root, q);
    }
  }

  /** A page that is free after growth was free before. */
  lemma FreeBefore(vm: Vm, own: map<nat, Owner>, vm1: Vm, own1: map<nat, Owner>, f: nat)
    requires WellFormed(vm) && Grows(vm, own, vm1, own1) && f < |vm1.pages| && vm1.pages[f].used == 0
    ensures |vm.pages| == |vm1.pages| && vm.pages[f].used == 0
  {
    assert Counts(vm.pages, f);
  }

  /** A new root leaves every older root as it was. */
  lemma OldRootsSee(vm: Vm, own: map<nat, Owner>, kroot: nat, root: nat, parent: Option<nat>)
    requires TreeInv(vm, own, kroot) && root < |vm.mem| && root !in own
    ensures SameWalks(own, vm.mem, RootOf(vm, kroot, root, parent).mem)
  {
    var mem' := RootOf(vm, kroot, root, parent).mem;
    assert forall t, i :: IsTable(own, t) && 0 <= i < ENTRIES ==> Word(mem', t, i) == Word(vm.mem, t, i);
    WalksOnTables(vm, own, kroot, mem');
  }

  /** All pages but the stack, of the new root and of every older one. */
  lemma RootAndStackWalks(vm: Vm, own: map<nat, Owner>, kroot: nat, vm1: Vm, root: nat, parent: Option<nat>,
                          q: seq<nat>)
    requires TreeInv(vm1, own, kroot) && SameWalks(own, vm.mem, vm1.mem) && |q| == 4 && Indices(q)
    requires root < |vm1.mem| && root < |vm1.pages| && vm1.pages[root].used == 1 && root !in own
    requires parent.Some? ==> IsRoot(own, parent.value) && own[parent.value].user
    requires KmallocStack(RootOf(vm1, kroot, root, parent), root).Some?
    requires q != Path(StackAddress(KmallocStack(RootOf(vm1, kroot, root, parent), root).value.1))
    ensures var mem' := KmallocStack(RootOf(vm1, kroot, root, parent), root).value.0.mem;
            && (forall r: nat :: IsRoot(own, r) ==> Walk(mem', r, q) == Walk(vm.mem, r, q))
            && (parent.Some? ==> Walk(mem', root, q) == Walk(vm.mem, parent.value, q))
            && (parent.None? && q[0] != KERNEL_SLOT ==> Walk(mem', root, q).None?)
  {
    hide TreeInv, KmallocStack, Path, StackAddress, LeafEntry, Walk, Grows, CopyRoot, WellFormed;
    AddRoot(vm1, own, kroot, root, parent);
    OldRootsSee(vm1, own, kroot, root, parent);
    var vm2, own2 := RootOf(vm1, kroot, root, parent), own[root := RootOwner(true)];
    var own' := StackKeepsTree(vm2, own2, kroot, root);
    var mem' := KmallocStack(vm2, root).value.0.mem;
    forall r: nat | IsRoot(own, r)
      ensures Walk(mem', r, q) == Walk(vm.mem, r, q) && Walk(vm2.mem, r, q) == Walk(vm.mem, r, q)
    {
      assert IsRoot(own2, r) && Walk(vm2.mem, r, q) == Walk(vm1.mem, r, q);
      assert Walk(vm1.mem, r, q) == Walk(vm.mem, r, q);
    }
    NewRootSees(vm1, own, kroot, root, parent, q);
    assert IsRoot(own2, root);
  }

  lemma StackWasFree(vm: Vm, own: map<nat, Owner>, kroot: nat, vm1: Vm, root: nat, parent: Option<nat>)
    requires TreeInv(vm, own, kroot) && TreeInv(vm1, own, kroot) && Grows(vm, own, vm1, own)
    requires root < |vm1.mem| && root < |vm1.pages| && vm1.pages[root].used == 1 && root !in own
    requires parent.Some? ==> IsRoot(own, parent.value) && own[parent.value].user
    requires KmallocStack(RootOf(vm1, kroot, root, parent), root).Some?
    ensures var stack := KmallocStack(RootOf(vm1, kroot, root, parent), root).value.1;
            stack < |vm.pages| && vm.pages[stack].used == 0
  {
    TreeIsWellFormed(vm, own, kroot);
    hide TreeInv, KmallocStack, Path, StackAddress, Grows, CopyRoot, WellFormed;
    AddRoot(vm1, own, kroot, root, parent);
    StackInRange(RootOf(vm1, kroot, root, parent), own[root := RootOwner(true)], kroot, root);
    FreeBefore(vm, own, vm1, own, KmallocStack(RootOf(vm1, kroot, root, parent), root).value.1);
  }

  lemma StackInRange(vm: Vm, own: map<nat, Owner>, kroot: nat, root: nat)
    requires TreeInv(vm, own, kroot) && KmallocStack(vm, root).Some?
    ensures KmallocStack(vm, root).value.1 < |vm.pages| && vm.pages[KmallocStack(vm, root).value.1].used == 0
  {
    hide MapPath, Path, StackAddress, AllocFrames, TreeInv, Grows;
    AllocKeepsTree(vm, own, kroot, 1);
  }

  lemma AllocAgainWalks(vm: Vm, own: map<nat, Owner>, kroot: nat, vm1: Vm, k: nat)
    requires TreeInv(vm1, own, kroot) && SameWalks(own, vm.mem, vm1.mem) && AllocFrames(vm1, k).Some?
    ensures TreeInv(AllocFrames(vm1, k).value.0, own, kroot) && SameWalks(own, vm.mem, AllocFrames(vm1, k).value.0.mem)
  {
    hide TreeInv, AllocFrames, Walk, Grows;
    AllocKeepsTree(vm1, own, kroot, k);
    AllocKeepsWalks(vm1, own, kroot, k);
    SameWalksTrans(own, own, vm.mem, vm1.mem, AllocFrames(vm1, k).value.0.mem);
  }

  lemma NewFramesKeepWalks(vm: Vm, own: map<nat, Owner>, kroot: nat)
    requires TreeInv(vm, own, kroot) && NewFrames(vm).Some?
    ensures SameWalks(own, vm.mem, NewFrames(vm).value.0.mem)
  {
    hide TreeInv, AllocFrames, PagesFor, SameWalks;
    AllocKeepsTree(vm, own, kroot, 1);
    AllocKeepsWalks(vm, own, kroot, 1);
    AllocAgainWalks(vm, own, kroot, AllocFrames(vm, 1).value.0, PagesFor(TASK_BYTES));
  }

  lemma ForkFramesKeepWalks(vm: Vm, own: map<nat, Owner>, kroot: nat)
    requires TreeInv(vm, own, kroot) && ForkFrames(vm).Some?
    ensures SameWalks(own, vm.mem, ForkFrames(vm).value.0.mem)
  {
    hide TreeInv, AllocFrames, PagesFor, SameWalks, Grows;
    var k := PagesFor(TASK_BYTES);
    AllocKeepsTree(vm, own, kroot, k);
    AllocKeepsWalks(vm, own, kroot, k);
    var a := AllocFrames(vm, k).value.0;
    AllocAgainWalks(vm, own, kroot, a, 1);
    var b := AllocFrames(a, 1).value.0;
    AllocAgainWalks(vm, own, kroot, b, 1);
    var c := AllocFrames(b, 1).value.0;
    AllocAgainWalks(vm, own, kroot, c, 1);
    AllocAgainWalks(vm, own, kroot, AllocFrames(c, 1).value.0, 1);
  }

  /**
   A new process sees its stack and the kernel's slot, and nothing else; nobody else's pages move
   but at that address.
   */
  lemma NewSpaceWalks(vm: Vm, own: map<nat, Owner>, kroot: nat, q: seq<nat>)
    requires TreeInv(vm, own, kroot) && NewSpace(vm, kroot).Some? && |q| == 4 && Indices(q)
    requires q != Path(StackAddress(NewSpace(vm, kroot).value.2))
    ensures var (vm', root, stack) := NewSpace(vm, kroot).value;
            && (forall r: nat :: IsRoot(own, r) ==> Walk(vm'.mem, r, q) == Walk(vm.mem, r, q))
            && Walk(vm'.mem, root, q) == (if q[0] == KERNEL_SLOT then Walk(vm'.mem, kroot, q) else None)
            && stack < |vm.pages| && vm.pages[stack].used == 0
  {
    hide NewFrames, TreeInv, Grows, SameWalks, KmallocStack, Walk, Path, StackAddress, LeafEntry;
    NewFramesKeepTree(vm, own, kroot);
    NewFramesKeepWalks(vm, own, kroot);
    var (vm1, root) := NewFrames(vm).value;
    SameSizes(vm, own, vm1, own, kroot);
    RootAndStackWalks(vm, own, kroot, vm1, root, None, q);
    StackWasFree(vm, own, kroot, vm1, root, None);
    var own' := NewSpaceKeepsTree(vm, own, kroot);
    var vm' := NewSpace(vm, kroot).value.0;
    if q[0] == KERNEL_SLOT {
      KernelSlotAgrees(vm', own', kroot, root, q);
    }
  }

  lemma SameSizes(vm: Vm, own: map<nat, Owner>, vm1: Vm, own1: map<nat, Owner>, kroot: nat)
    requires TreeInv(vm, own, kroot) && Grows(vm, own, vm1, own1)
    ensures |vm.pages| == |vm1.pages| == |vm1.mem| == |vm.mem|
  {
  }

  lemma KernelSlotAgrees(vm: Vm, own: map<nat, Owner>, kroot: nat, root: nat, q: seq<nat>)
    requires TreeInv(vm, own, kroot) && IsRoot(own, root) && own[root].user && |q| == 4 && q[0] == KERNEL_SLOT
    ensures Walk(vm.mem, root, q) == Walk(vm.mem, kroot, q)
  {
    SharedSlotAgrees(vm.mem, root, kroot, q);
  }

  /** A forked child sees what its parent saw, and its own stack; nobody else's pages move but at that address. */
  lemma ForkSpaceWalks(vm: Vm, own: map<nat, Owner>, kroot: nat, parent: nat, q: seq<nat>)
    requires TreeInv(vm, own, kroot) && IsRoot(own, parent) && own[parent].user && ForkSpace(vm, kroot, parent).Some?
    requires |q| == 4 && Indices(q) && q != Path(StackAddress(ForkSpace(vm, kroot, parent).value.2))
    ensures var (vm', root, stack) := ForkSpace(vm, kroot, parent).value;
            && (forall r: nat :: IsRoot(own, r) ==> Walk(vm'.mem, r, q) == Walk(vm.mem, r, q))
            && Walk(vm'.mem, root, q) == Walk(vm.mem, parent, q)
            && stack < |vm.pages| && vm.pages[stack].used == 0
  {
    hide ForkFrames, TreeInv, Grows, SameWalks, KmallocStack, Walk, Path, StackAddress, LeafEntry;
    ForkFramesKeepTree(vm, own, kroot);
    ForkFramesKeepWalks(vm, own, kroot);
    var (vm1, root) := ForkFrames(vm).value;
    SameSizes(vm, own, vm1, own, kroot);
    RootAndStackWalks(vm, own, kroot, vm1, root, Some(parent), q);
    StackWasFree(vm, own, kroot, vm1, root, Some(parent));
  }

  /** ... and the parent sees the child's stack as well when it has a table for that slot: the tables are shared. */
  lemma ForkSharesStack(vm: Vm, own: map<nat, Owner>, kroot: nat, parent: nat)
    requires TreeInv(vm, own, kroot) && IsRoot(own, parent) && own[parent].user && ForkSpace(vm, kroot, parent).Some?
    requires Present(Word(vm.mem, parent, Path(StackAddress(ForkSpace(vm, kroot, parent).value.2))[0]))
    ensures var (vm', root, stack) := ForkSpace(vm, kroot, parent).value;
            Walk(vm'.mem, parent, Path(StackAddress(stack))) == Some(LeafEntry(FrameAddress(stack), true))
  {
    hide ForkSpace, Walk, TreeInv, StackAddress, LeafEntry;
    var own' := ForkSpaceKeepsTree(vm, own, kroot, parent);
    var (vm', root, stack) := ForkSpace(vm, kroot, parent).value;
    SharedSlotAgrees(vm'.mem, root, parent, Path(StackAddress(stack)));
  }

  // ---------------------------------------------------------------- whole runs

  /** The machine with the roots of all processes created so far; only the kernel root is mapped without user rights. */
  datatype Space = Space(vm: Vm, roots: set<nat>)

  datatype SpaceOp =
    | Map(root: nat, va: u64, pa: u64, n: nat, user: bool)
    | Spawn
    | Fork(parent: nat)
    | Reserve(bytes: nat)

  function ApplyOp(s: Space, kroot: nat, op: SpaceOp): (r: Option<Space>) {
    match op
    case Map(root, va, pa, n, user) =>
      if !(root == kroot || (root in s.roots && user)) || Path(va)[3] + n > ENTRIES then None else
      var r := MapRange(s.vm, root, va, pa, n, user);
      if r.None? then None else Some(s.(vm := r.value))
    case Spawn =>
      var r := NewSpace(s.vm, kroot);
      if r.None? then None else Some(Space(r.value.0, s.roots + {r.value.1}))
    case Fork(parent) =>
      if parent !in s.roots then None else
      var r := ForkSpace(s.vm, kroot, parent);
      if r.None? then None else Some(Space(r.value.0, s.roots + {r.value.1}))
    case Reserve(bytes) =>
      var r := AllocFrames(s.vm, PagesFor(bytes));
      if r.None? then None else Some(s.(vm := r.value.0))
  }

  function RunOps(s: Space, kroot: nat, ops: seq<SpaceOp>): (r: Option<Space>)
    decreases |ops|
  {
    if ops == [] then Some(s) else
    var s1 := ApplyOp(s, kroot, ops[0]);
    if s1.None? then None else RunOps(s1.value, kroot, ops[1..])
  }

  ghost predicate SpaceInv(s: Space, own: map<nat, Owner>, kroot: nat) {
    && TreeInv(s.vm, own, kroot)
    && forall r :: r in s.roots ==> r in own && own[r] == RootOwner(true)
  }

  /** The invariant can be met: a kernel root with one kernel table in slot 511, and nothing else. */
  lemma KernelTreeAtBoot(vm: Vm, kroot: nat, table: nat)
    requires WellFormed(vm) && kroot < |vm.mem| && table < |vm.mem| && kroot != table
    requires vm.pages[kroot].used == 1 && vm.pages[table].used == 1
    requires vm.mem[table] == ZeroFrame() && vm.mem[kroot] == ZeroFrame()[KERNEL_SLOT := TableEntry(table, false)]
    ensures SpaceInv(Space(vm, {}), map[kroot := RootOwner(false), table := Table(3, 0, KERNEL_SLOT, false)], kroot)
  {
    TableEntryFields(table, false);
  }

  lemma MapKeepsSpace(s: Space, own: map<nat, Owner>, kroot: nat, root: nat, p: seq<nat>, pa: u64, n: nat, user: bool)
    returns (own': map<nat, Owner>)
    requires SpaceInv(s, own, kroot) && |p| == 4 && Indices(p)
    requires root == kroot || (root in s.roots && user)
    requires MapPath(s.vm, root, p, pa, n, user).Some?
    ensures var vm' := MapPath(s.vm, root, p, pa, n, user).value;
            SpaceInv(s.(vm := vm'), own', kroot) && Grows(s.vm, own, vm', own')
  {
    assert IsRoot(own, kroot) && !own[kroot].user;
    hide TreeInv, MapPath, Reach, Walk;
    var pt;
    own', pt := MapPathTheorem(s.vm, own, kroot, root, p, pa, n, user);
  }

  lemma OpKeepsSpace(s: Space, own: map<nat, Owner>, kroot: nat, op: SpaceOp) returns (own': map<nat, Owner>)
    requires SpaceInv(s, own, kroot) && ApplyOp(s, kroot, op).Some?
    ensures var s' := ApplyOp(s, kroot, op).value;
            SpaceInv(s', own', kroot) && Grows(s.vm, own, s'.vm, own') && s.roots <= s'.roots
  {
    hide TreeInv, Path, MapPath, Reach, Walk, PagesFor, NewSpace, ForkSpace;
    match op
    case Map(root, va, pa, n, user) =>
      own' := MapKeepsSpace(s, own, kroot, root, Path(va), pa, n, user);
    case Spawn =>
      own' := NewSpaceKeepsTree(s.vm, own, kroot);
    case Fork(parent) =>
      own' := ForkSpaceKeepsTree(s.vm, own, kroot, parent);
    case Reserve(bytes) =>
      AllocKeepsTree(s.vm, own, kroot, PagesFor(bytes));
      own' := own;
  }

  lemma {:induction false} RunKeepsSpace(s: Space, own: map<nat, Owner>, kroot: nat, ops: seq<SpaceOp>)
    returns (own': map<nat, Owner>)
    requires SpaceInv(s, own, kroot) && RunOps(s, kroot, ops).Some?
    ensures var s' := RunOps(s, kroot, ops).value;
            SpaceInv(s', own', kroot) && Grows(s.vm, own, s'.vm, own') && s.roots <= s'.roots
    decreases |ops|
  {
    if ops == [] {
      own' := own;
    } else {
      var own1 := OpKeepsSpace(s, own, kroot, ops[0]);
      var s1 := ApplyOp(s, kroot, ops[0]).value;
      own' := RunKeepsSpace(s1, own1, kroot, ops[1..]);
      GrowsTree(s.vm, own, s1.vm, own1, RunOps(s, kroot, ops).value.vm, own', kroot);
    }
  }

  /** In every run every process sees exactly the kernel's translations in slot 511. */
  lemma KernelSlotSharedInEveryRun(s: Space, own: map<nat, Owner>, kroot: nat, ops: seq<SpaceOp>, r: nat, q: seq<nat>)
    requires SpaceInv(s, own, kroot) && RunOps(s, kroot, ops).Some?
    requires r in RunOps(s, kroot, ops).value.roots && |q| == 4 && q[0] == KERNEL_SLOT
    ensures var mem' := RunOps(s, kroot, ops).value.vm.mem; Walk(mem', r, q) == Walk(mem', kroot, q)
  {
    var own' := RunKeepsSpace(s, own, kroot, ops);
    assert IsRoot(own', r);
    SharedSlotAgrees(RunOps(s, kroot, ops).value.vm.mem, r, kroot, q);
  }

  /**
   Present root entries are never rewritten: roots that share a present entry keep sharing it, and
   agree on the whole slot, after any run of maps through either of them.
   */
  lemma SharedSlotStaysShared(s: Space, own: map<nat, Owner>, kroot: nat, ops: seq<SpaceOp>, r1: nat, r2: nat,
                              q: seq<nat>)
    requires SpaceInv(s, own, kroot) && RunOps(s, kroot, ops).Some?
    requires r1 in s.roots && r2 in s.roots && |q| == 4 && Indices(q)
    requires Word(s.vm.mem, r1, q[0]) == Word(s.vm.mem, r2, q[0]) && Present(Word(s.vm.mem, r1, q[0]))
    ensures var mem' := RunOps(s, kroot, ops).value.vm.mem;
            && Word(mem', r1, q[0]) == Word(mem', r2, q[0]) == Word(s.vm.mem, r1, q[0])
            && Walk(mem', r1, q) == Walk(mem', r2, q)
  {
    var own' := RunKeepsSpace(s, own, kroot, ops);
    assert IsRoot(own, r1) && IsRoot(own, r2);
    SharedSlotAgrees(RunOps(s, kroot, ops).value.vm.mem, r1, r2, q);
  }

  /** In every run a process page is open to user code exactly when it lies outside slot 511. */
  lemma RightsInEveryRun(s: Space, own: map<nat, Owner>, kroot: nat, ops: seq<SpaceOp>, r: nat, q: seq<nat>)
    requires SpaceInv(s, own, kroot) && RunOps(s, kroot, ops).Some?
    requires r in RunOps(s, kroot, ops).value.roots && |q| == 4 && Indices(q)
    requires Walk(RunOps(s, kroot, ops).value.vm.mem, r, q).Some?
    ensures var mem' := RunOps(s, kroot, ops).value.vm.mem;
            && (UserMayAccess(mem', r, q) <==> q[0] != KERNEL_SLOT)
            && (UserMayWrite(mem', r, q) <==> q[0] != KERNEL_SLOT)
  {
    var own' := RunKeepsSpace(s, own, kroot, ops);
    RightsBySlot(RunOps(s, kroot, ops).value.vm, own', kroot, r, q);
  }
}
