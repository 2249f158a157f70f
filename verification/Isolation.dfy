/**
 Isolation over whole runs: processes are created, forked and given pages from the allocator, and
 user code stores bytes wherever the page tables let it.  No such store ever reaches a page table.
 */
module Isolation {
  import opened Basics
  import opened Allocator
  import opened Addresses
  import opened Bytes
  import opened Paging
  import opened PageTree
  import opened Mapping
  import opened Spaces
  import opened UserMemory

  ghost predicate IsData(own: map<nat, Owner>, f: nat) {
    f in own && own[f].Data?
  }

  /** Every page outside slot 511 that a process can see lies in a data frame. */
  ghost predicate SeesData(mem: Memory, own: map<nat, Owner>, r: nat, q: seq<nat>)
    requires |q| == 4
  {
    q[0] != KERNEL_SLOT && Walk(mem, r, q).Some? ==> IsData(own, FrameOf(Walk(mem, r, q).value))
  }

  ghost predicate Isolated(mem: Memory, own: map<nat, Owner>, roots: set<nat>) {
    forall r: nat, q: seq<nat> :: r in roots && |q| == 4 && Indices(q) ==> SeesData(mem, own, r, q)
  }

  ghost predicate IsolationInv(s: Space, own: map<nat, Owner>, kroot: nat) {
    SpaceInv(s, own, kroot) && Isolated(s.vm.mem, own, s.roots)
  }

  // ---------------------------------------------------------------- the operations

  datatype UserOp =
    | Page(root: nat, path: seq<nat>)
    | Spawn
    | Fork(parent: nat)
    | Reserve(bytes: nat)
    | Store(root: nat, path: seq<nat>, off: nat, b: byte)

  /** A store the rights forbid is a page fault, and changes nothing. */
  ghost function UserStore(mem: Memory, root: nat, q: seq<nat>, o: nat, b: byte): (r: Memory)
    requires |q| == 4
  {
    if UserMayWrite(mem, root, q) && StoreAt(mem, root, q, o, b).Some? then StoreAt(mem, root, q, o, b).value else mem
  }

  ghost predicate GoodPlace(s: Space, root: nat, q: seq<nat>) {
    root in s.roots && |q| == 4 && Indices(q)
  }

  /** `None` stands for a full memory, or for a process or page that does not exist. */
  ghost function ApplyUser(s: Space, kroot: nat, op: UserOp): (r: Option<Space>) {
    match op
    case Page(root, q) =>
      if !GoodPlace(s, root, q) || MapFresh(s.vm, root, q).None? then None
      else Some(s.(vm := MapFresh(s.vm, root, q).value))
    case Spawn => ApplyOp(s, kroot, SpaceOp.Spawn)
    case Fork(parent) => ApplyOp(s, kroot, SpaceOp.Fork(parent))
    case Reserve(bytes) => ApplyOp(s, kroot, SpaceOp.Reserve(bytes))
    case Store(root, q, o, b) =>
      if !GoodPlace(s, root, q) || o >= PAGE_SIZE then None
      else Some(s.(vm := s.vm.(mem := UserStore(s.vm.mem, root, q, o, b))))
  }

  ghost function RunUser(s: Space, kroot: nat, ops: seq<UserOp>): (r: Option<Space>)
    decreases |ops|
  {
    if ops == [] then Some(s) else
    var s1 := ApplyUser(s, kroot, ops[0]);
    if s1.None? then None else RunUser(s1.value, kroot, ops[1..])
  }

  // ---------------------------------------------------------------- what keeps isolation

  lemma IsolatedOnWalks(own: map<nat, Owner>, own': map<nat, Owner>, mem: Memory, mem': Memory, roots: set<nat>)
    requires Isolated(mem, own, roots) && SameWalks(own, mem, mem') && (forall r :: r in roots ==> IsRoot(own, r))
    requires forall f :: f in own ==> f in own' && own'[f] == own[f]
    ensures Isolated(mem', own', roots)
  {
    hide Walk;
    forall r: nat, q: seq<nat> | r in roots && |q| == 4 && Indices(q) ensures SeesData(mem', own', r, q) {
      assert SeesData(mem, own, r, q) && Walk(mem', r, q) == Walk(mem, r, q);
    }
  }

  lemma RootsOwned(s: Space, own: map<nat, Owner>, kroot: nat)
    requires SpaceInv(s, own, kroot)
    ensures forall r :: r in s.roots ==> IsRoot(own, r)
  {
  }

  /** A page of its own frame, mapped for the user: every process that sees it sees a data frame. */
  lemma DataPageMapped(vm: Vm, own: map<nat, Owner>, kroot: nat, root: nat, p: seq<nat>, f: nat, roots: set<nat>)
    returns (own': map<nat, Owner>)
    requires TreeInv(vm, own, kroot) && IsRoot(own, root) && |p| == 4 && Indices(p)
    requires f < |vm.pages| && vm.pages[f].used == 1 && f !in own && f < MAX_FRAMES
    requires MapPath(vm, root, p, FrameAddress(f), 1, true).Some?
    requires (forall r :: r in roots ==> IsRoot(own, r)) && Isolated(vm.mem, own, roots)
    ensures var vm' := MapPath(vm, root, p, FrameAddress(f), 1, true).value;
            && TreeInv(vm', own', kroot) && Grows(vm, own[f := Data(0)], vm', own') && Isolated(vm'.mem, own', roots)
  {
    hide TreeInv, Grows, MapPath, Walk, Reach, FrameAddress, LeafAt;
    DataKeepsTree(vm, own, kroot, f, 0);
    var own1 := own[f := Data(0)];
    var pt;
    own', pt := MapPathTheorem(vm, own1, kroot, root, p, FrameAddress(f), 1, true);
    FreshLeaf(f);
    var vm' := MapPath(vm, root, p, FrameAddress(f), 1, true).value;
    GrowsKeepsOwners(vm, own1, vm', own');
    forall r: nat, q: seq<nat> | r in roots && |q| == 4 && Indices(q) ensures SeesData(vm'.mem, own', r, q) {
      assert IsRoot(own1, r) && SeesData(vm.mem, own, r, q);
      assert WalkAfterMap(vm.mem, vm'.mem, pt, p[3], FrameAddress(f), 1, true, r, q);
    }
  }

  lemma GrowsKeepsOwners(vm: Vm, own: map<nat, Owner>, vm': Vm, own': map<nat, Owner>)
    requires Grows(vm, own, vm', own')
    ensures forall f :: f in own ==> f in own' && own'[f] == own[f]
  {
  }

  lemma AllocIsolated(vm: Vm, own: map<nat, Owner>, kroot: nat, k: nat, roots: set<nat>)
    requires TreeInv(vm, own, kroot) && AllocFrames(vm, k).Some?
    requires (forall r :: r in roots ==> IsRoot(own, r)) && Isolated(vm.mem, own, roots)
    ensures Isolated(AllocFrames(vm, k).value.0.mem, own, roots)
  {
    hide TreeInv, AllocFrames, SameWalks, Isolated;
    AllocKeepsWalks(vm, own, kroot, k);
    IsolatedOnWalks(own, own, vm.mem, AllocFrames(vm, k).value.0.mem, roots);
  }

  /** One fresh page, allocated and mapped. */
  lemma FreshPageIsolated(vm: Vm, own: map<nat, Owner>, kroot: nat, root: nat, p: seq<nat>, roots: set<nat>)
    returns (own': map<nat, Owner>)
    requires TreeInv(vm, own, kroot) && IsRoot(own, root) && |p| == 4 && Indices(p) && AllocFrames(vm, 1).Some?
    requires MapPath(AllocFrames(vm, 1).value.0, root, p, FrameAddress(AllocFrames(vm, 1).value.1), 1, true).Some?
    requires (forall r :: r in roots ==> IsRoot(own, r)) && Isolated(vm.mem, own, roots)
    ensures var (vm1, f) := AllocFrames(vm, 1).value;
            var vm' := MapPath(vm1, root, p, FrameAddress(f), 1, true).value;
            && TreeInv(vm', own', kroot) && Grows(vm, own, vm', own') && Isolated(vm'.mem, own', roots)
  {
    hide TreeInv, Grows, MapPath, AllocFrames, FrameAddress, Isolated, WellFormed;
    AllocKeepsTree(vm, own, kroot, 1);
    AllocIsolated(vm, own, kroot, 1, roots);
    var (vm1, f) := AllocFrames(vm, 1).value;
    FrameBound(vm1, own, kroot, f);
    own' := DataPageMapped(vm1, own, kroot, root, p, f, roots);
    var vm' := MapPath(vm1, root, p, FrameAddress(f), 1, true).value;
    GrowsWithData(vm, own, vm1, f, 0);
    FrameBound(vm, own, kroot, f);
    DataKeepsTree(vm1, own, kroot, f, 0);
    GrowsTree(vm, own, vm1, own[f := Data(0)], vm', own', kroot);
  }

  lemma FrameBound(vm: Vm, own: map<nat, Owner>, kroot: nat, f: nat)
    requires TreeInv(vm, own, kroot) && f < |vm.mem|
    ensures f < MAX_FRAMES && f < |vm.pages|
  {
  }

  // ---------------------------------------------------------------- new roots

  lemma RootIsolated(vm: Vm, own: map<nat, Owner>, kroot: nat, root: nat, parent: Option<nat>, roots: set<nat>)
    requires TreeInv(vm, own, kroot) && root < |vm.mem| && root !in own
    requires parent.Some? ==> parent.value in roots
    requires (forall r :: r in roots ==> IsRoot(own, r)) && Isolated(vm.mem, own, roots)
    ensures Isolated(RootOf(vm, kroot, root, parent).mem, own[root := RootOwner(true)], roots + {root})
  {
    var mem' := RootOf(vm, kroot, root, parent).mem;
    var own' := own[root := RootOwner(true)];
    assert forall t, i :: IsTable(own, t) && 0 <= i < ENTRIES ==> Word(mem', t, i) == Word(vm.mem, t, i);
    WalksOnTables(vm, own, kroot, mem');
    hide Walk, TreeInv, CopyRoot;
    forall r: nat, q: seq<nat> | r in roots + {root} && |q| == 4 && Indices(q) ensures SeesData(mem', own', r, q) {
      if r == root {
        NewRootSees(vm, own, kroot, root, parent, q);
        if parent.Some? {
          assert SeesData(vm.mem, own, parent.value, q);
          assert Walk(mem', parent.value, q) == Walk(vm.mem, parent.value, q);
        }
      } else {
        assert SeesData(vm.mem, own, r, q) && Walk(mem', r, q) == Walk(vm.mem, r, q);
      }
    }
  }

  /** A frame allocated since `vm` becomes a root and gets its stack. */
  lemma RootAndStackIsolated(vm: Vm, own: map<nat, Owner>, kroot: nat, vm1: Vm, root: nat, parent: Option<nat>,
                             roots: set<nat>)
    returns (own': map<nat, Owner>)
    requires TreeInv(vm, own, kroot) && TreeInv(vm1, own, kroot) && Grows(vm, own, vm1, own)
    requires root < |vm1.mem| && root < |vm.pages| && vm.pages[root].used == 0 && vm1.pages[root].used == 1
    requires root !in own
    requires (forall r :: r in roots ==> IsRoot(own, r)) && Isolated(vm1.mem, own, roots)
    requires parent.Some? ==> parent.value in roots && own[parent.value].user
    requires KmallocStack(RootOf(vm1, kroot, root, parent), root).Some?
    ensures var vm' := KmallocStack(RootOf(vm1, kroot, root, parent), root).value.0;
            && TreeInv(vm', own', kroot) && Grows(vm, own, vm', own') && Isolated(vm'.mem, own', roots + {root})
            && root in own' && own'[root] == RootOwner(true)
  {
    hide TreeInv, Path, StackAddress, Grows, AllocFrames, MapPath, Isolated, CopyRoot;
    AddRoot(vm1, own, kroot, root, parent);
    AddRootGrows(vm, own, kroot, vm1, root, CopyRoot(vm1.mem, kroot, parent));
    RootIsolated(vm1, own, kroot, root, parent, roots);
    var vm2, own2 := RootOf(vm1, kroot, root, parent), own[root := RootOwner(true)];
    var p := Path(StackAddress(AllocFrames(vm2, 1).value.1));
    own' := FreshPageIsolated(vm2, own2, kroot, root, p, roots + {root});
    var vm' := KmallocStack(vm2, root).value.0;
    GrowsTree(vm, own, vm2, own2, vm', own', kroot);
    GrowsKeepsRoots(vm2, own2, vm', own');
  }

  lemma FramesIsolated(vm: Vm, own: map<nat, Owner>, kroot: nat, roots: set<nat>)
    requires TreeInv(vm, own, kroot) && NewFrames(vm).Some?
    requires (forall r :: r in roots ==> IsRoot(own, r)) && Isolated(vm.mem, own, roots)
    ensures Isolated(NewFrames(vm).value.0.mem, own, roots)
  {
    hide TreeInv, Isolated, AllocFrames, PagesFor, Grows;
    AllocKeepsTree(vm, own, kroot, 1);
    AllocIsolated(vm, own, kroot, 1, roots);
    AllocIsolated(AllocFrames(vm, 1).value.0, own, kroot, PagesFor(TASK_BYTES), roots);
  }

  lemma TwoIsolated(vm: Vm, own: map<nat, Owner>, kroot: nat, j: nat, k: nat, roots: set<nat>)
    requires TreeInv(vm, own, kroot) && AllocFrames(vm, j).Some? && AllocFrames(AllocFrames(vm, j).value.0, k).Some?
    requires (forall r :: r in roots ==> IsRoot(own, r)) && Isolated(vm.mem, own, roots)
    ensures var vm2 := AllocFrames(AllocFrames(vm, j).value.0, k).value.0;
            TreeInv(vm2, own, kroot) && Isolated(vm2.mem, own, roots)
  {
    hide TreeInv, Isolated, AllocFrames, Grows;
    AllocKeepsTree(vm, own, kroot, j);
    AllocIsolated(vm, own, kroot, j, roots);
    AllocKeepsTree(AllocFrames(vm, j).value.0, own, kroot, k);
    AllocIsolated(AllocFrames(vm, j).value.0, own, kroot, k, roots);
  }

  lemma ForkFramesIsolated(vm: Vm, own: map<nat, Owner>, kroot: nat, roots: set<nat>)
    requires TreeInv(vm, own, kroot) && ForkFrames(vm).Some?
    requires (forall r :: r in roots ==> IsRoot(own, r)) && Isolated(vm.mem, own, roots)
    ensures Isolated(ForkFrames(vm).value.0.mem, own, roots)
  {
    hide TreeInv, Isolated, AllocFrames, PagesFor, Grows;
    var k := PagesFor(TASK_BYTES);
    TwoIsolated(vm, own, kroot, k, 1, roots);
    var vm2 := AllocFrames(AllocFrames(vm, k).value.0, 1).value.0;
    TwoIsolated(vm2, own, kroot, 1, 1, roots);
    AllocIsolated(AllocFrames(AllocFrames(vm2, 1).value.0, 1).value.0, own, kroot, 1, roots);
  }

  lemma GrowthSizes(vm: Vm, own: map<nat, Owner>, vm': Vm, own': map<nat, Owner>)
    requires Grows(vm, own, vm', own')
    ensures |vm'.mem| == |vm.mem|
  {
  }

  lemma SpawnIsolated(s: Space, own: map<nat, Owner>, kroot: nat) returns (own': map<nat, Owner>)
    requires IsolationInv(s, own, kroot) && ApplyOp(s, kroot, SpaceOp.Spawn).Some?
    ensures var s' := ApplyOp(s, kroot, SpaceOp.Spawn).value;
            IsolationInv(s', own', kroot) && Grows(s.vm, own, s'.vm, own') && s.roots <= s'.roots
  {
    hide TreeInv, Isolated, Grows, KmallocStack, NewFrames, RootOf;
    RootsOwned(s, own, kroot);
    FramesIsolated(s.vm, own, kroot, s.roots);
    NewFramesKeepTree(s.vm, own, kroot);
    var (vm1, root) := NewFrames(s.vm).value;
    GrowthSizes(s.vm, own, vm1, own);
    FrameBound(s.vm, own, kroot, root);
    own' := RootAndStackIsolated(s.vm, own, kroot, vm1, root, None, s.roots);
    GrowsKeepsOwners(s.vm, own, ApplyOp(s, kroot, SpaceOp.Spawn).value.vm, own');
  }

  lemma ForkIsolated(s: Space, own: map<nat, Owner>, kroot: nat, parent: nat) returns (own': map<nat, Owner>)
    requires IsolationInv(s, own, kroot) && ApplyOp(s, kroot, SpaceOp.Fork(parent)).Some?
    ensures var s' := ApplyOp(s, kroot, SpaceOp.Fork(parent)).value;
            IsolationInv(s', own', kroot) && Grows(s.vm, own, s'.vm, own') && s.roots <= s'.roots
  {
    hide TreeInv, Isolated, Grows, KmallocStack, ForkFrames, RootOf;
    RootsOwned(s, own, kroot);
    ForkFramesIsolated(s.vm, own, kroot, s.roots);
    ForkFramesKeepTree(s.vm, own, kroot);
    var (vm1, root) := ForkFrames(s.vm).value;
    GrowthSizes(s.vm, own, vm1, own);
    FrameBound(s.vm, own, kroot, root);
    own' := RootAndStackIsolated(s.vm, own, kroot, vm1, root, Some(parent), s.roots);
    GrowsKeepsOwners(s.vm, own, ApplyOp(s, kroot, SpaceOp.Fork(parent)).value.vm, own');
  }

  // ---------------------------------------------------------------- stores

  /** No table and no translation of any root differs. */
  ghost predicate TablesSame(own: map<nat, Owner>, mem: Memory, mem': Memory) {
    && (forall t: nat :: IsTable(own, t) && t < |mem| ==> t < |mem'| && mem'[t] == mem[t])
    && SameWalks(own, mem, mem')
  }

  /** A store by user code, wherever it aims, changes no table and no translation. */
  lemma StoreKeepsTables(s: Space, own: map<nat, Owner>, kroot: nat, root: nat, q: seq<nat>, o: nat, b: byte)
    requires IsolationInv(s, own, kroot) && GoodPlace(s, root, q) && o < PAGE_SIZE
    ensures var s' := s.(vm := s.vm.(mem := UserStore(s.vm.mem, root, q, o, b)));
            IsolationInv(s', own, kroot) && TablesSame(own, s.vm.mem, s'.vm.mem)
  {
    RootsOwned(s, own, kroot);
    if UserMayWrite(s.vm.mem, root, q) {
      assert own[root].user;
      hide TreeInv, StoreAt;
      RightsBySlot(s.vm, own, kroot, root, q);
      assert SeesData(s.vm.mem, own, root, q);
      var f := FrameOf(Walk(s.vm.mem, root, q).value);
      StoreAtTheorem(s.vm, own, kroot, root, q, own[f].page, o, b);
      var mem' := StoreAt(s.vm.mem, root, q, o, b).value;
      assert forall t: nat :: IsTable(own, t) ==> t != f;
      hide Walk, UserMayWrite, Isolated, SeesData;
      IsolatedOnWalks(own, own, s.vm.mem, mem', s.roots);
    }
  }

  // ---------------------------------------------------------------- whole runs

  lemma PageIsolated(s: Space, own: map<nat, Owner>, kroot: nat, root: nat, q: seq<nat>) returns (own': map<nat, Owner>)
    requires IsolationInv(s, own, kroot) && GoodPlace(s, root, q) && MapFresh(s.vm, root, q).Some?
    ensures var vm' := MapFresh(s.vm, root, q).value;
            IsolationInv(s.(vm := vm'), own', kroot) && Grows(s.vm, own, vm', own')
  {
    hide TreeInv, Isolated, Grows, AllocFrames, MapPath;
    RootsOwned(s, own, kroot);
    own' := FreshPageIsolated(s.vm, own, kroot, root, q, s.roots);
    GrowsKeepsOwners(s.vm, own, MapFresh(s.vm, root, q).value, own');
  }

  lemma ReserveIsolated(s: Space, own: map<nat, Owner>, kroot: nat, bytes: nat)
    requires IsolationInv(s, own, kroot) && ApplyOp(s, kroot, SpaceOp.Reserve(bytes)).Some?
    ensures IsolationInv(ApplyOp(s, kroot, SpaceOp.Reserve(bytes)).value, own, kroot)
  {
    hide TreeInv, Isolated, Grows, AllocFrames, PagesFor;
    RootsOwned(s, own, kroot);
    AllocKeepsTree(s.vm, own, kroot, PagesFor(bytes));
    AllocIsolated(s.vm, own, kroot, PagesFor(bytes), s.roots);
  }

  /** Every operation keeps every process isolated from the page tables. */
  lemma OpKeepsIsolation(s: Space, own: map<nat, Owner>, kroot: nat, op: UserOp) returns (own': map<nat, Owner>)
    requires IsolationInv(s, own, kroot) && ApplyUser(s, kroot, op).Some?
    ensures IsolationInv(ApplyUser(s, kroot, op).value, own', kroot)
    ensures forall f :: f in own ==> f in own' && own'[f] == own[f]
  {
    hide IsolationInv, ApplyOp, MapFresh, UserStore, Grows, TablesSame;
    own' := own;
    match op
    case Page(root, q) =>
      own' := PageIsolated(s, own, kroot, root, q);
      GrowsKeepsOwners(s.vm, own, MapFresh(s.vm, root, q).value, own');
    case Spawn =>
      own' := SpawnIsolated(s, own, kroot);
      GrowsKeepsOwners(s.vm, own, ApplyOp(s, kroot, SpaceOp.Spawn).value.vm, own');
    case Fork(parent) =>
      own' := ForkIsolated(s, own, kroot, parent);
      GrowsKeepsOwners(s.vm, own, ApplyOp(s, kroot, SpaceOp.Fork(parent)).value.vm, own');
    case Reserve(bytes) => ReserveIsolated(s, own, kroot, bytes);
    case Store(root, q, o, b) => StoreKeepsTables(s, own, kroot, root, q, o, b);
  }

  /** ... and so does every run. */
  lemma {:induction false} RunKeepsIsolation(s: Space, own: map<nat, Owner>, kroot: nat, ops: seq<UserOp>)
    returns (own': map<nat, Owner>)
    requires IsolationInv(s, own, kroot) && RunUser(s, kroot, ops).Some?
    ensures IsolationInv(RunUser(s, kroot, ops).value, own', kroot)
    ensures forall f :: f in own ==> f in own' && own'[f] == own[f]
    decreases |ops|
  {
    hide IsolationInv, ApplyUser;
    if ops == [] {
      own' := own;
    } else {
      var own1 := OpKeepsIsolation(s, own, kroot, ops[0]);
      own' := RunKeepsIsolation(ApplyUser(s, kroot, ops[0]).value, own1, kroot, ops[1..]);
    }
  }

  lemma TablesSameTrans(own: map<nat, Owner>, m1: Memory, m2: Memory, m3: Memory)
    requires TablesSame(own, m1, m2) && TablesSame(own, m2, m3)
    ensures TablesSame(own, m1, m3)
  {
    hide Walk;
    SameWalksTrans(own, own, m1, m2, m3);
  }

  /** No run of stores by any processes, at any addresses, changes a page table or a translation. */
  lemma {:induction false} StoresNeverReachTables(s: Space, own: map<nat, Owner>, kroot: nat, ops: seq<UserOp>)
    requires IsolationInv(s, own, kroot) && RunUser(s, kroot, ops).Some? && forall i :: 0 <= i < |ops| ==> ops[i].Store?
    ensures TablesSame(own, s.vm.mem, RunUser(s, kroot, ops).value.vm.mem)
    decreases |ops|
  {
    if ops == [] {
      assert RunUser(s, kroot, ops) == Some(s);
    } else {
      hide IsolationInv, GoodPlace, UserStore, TablesSame;
      var e := ops[0];
      StoreKeepsTables(s, own, kroot, e.root, e.path, e.off, e.b);
      var s1 := ApplyUser(s, kroot, e).value;
      StoresNeverReachTables(s1, own, kroot, ops[1..]);
      TablesSameTrans(own, s.vm.mem, s1.vm.mem, RunUser(s, kroot, ops).value.vm.mem);
    }
  }
}
