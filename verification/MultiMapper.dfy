/** The branch for ranges over several leaf tables, on the machine's memory. */
module MultiMapper {
  import opened Basics
  import opened Allocator
  import opened Addresses
  import opened Paging
  import opened PageTree
  import opened Machine
  import opened Mapper
  import opened MultiTable

  lemma NextTableFits(vm: Vm, d: nat, i: nat, pa: u64, n: nat, user: bool)
    requires WellFormed(vm) && NextTable(vm, d, i, pa, n, user).Some?
    ensures AllocFrames(vm, 1).Some? && AllocFrames(vm, 1).value.1 < |vm.mem|
    ensures WellFormed(NextTable(vm, d, i, pa, n, user).value)
    ensures |NextTable(vm, d, i, pa, n, user).value.mem| == |vm.mem|
  {
    AllocOne(vm);
    var (vm1, f) := AllocFrames(vm, 1).value;
    var mem' := NextTable(vm, d, i, pa, n, user).value.mem;
    assert forall g :: 0 <= g < |mem'| ==> |mem'[g]| == |vm1.mem[g]|;
  }

  lemma SameLength(vm: Vm)
    requires AllocFrames(vm, 1).Some?
    ensures |AllocFrames(vm, 1).value.0.mem| == |vm.mem|
  {
  }

  /** `alloc_pte` at an entry that may be in use, and the loop that fills the table. */
  method AppendTable(m: Machine, d: nat, i: nat, pa: u64, n: nat, user: bool)
    requires m.Valid() && WellFormed(m.vm) && d < |m.vm.mem| && i < ENTRIES && n <= ENTRIES
    requires NextTable(m.vm, d, i, pa, n, user).Some?
    modifies m, m.words, m.pages
    ensures m.Valid() && WellFormed(m.vm) && |m.vm.mem| == |old(m.vm).mem|
    ensures Some(m.vm) == NextTable(old(m.vm), d, i, pa, n, user)
  {
    assert PagesFor(1) == 1;
    hide AllocFrames, WriteLeaves, WellFormed, PagesFor, Put;
    NextTableFits(m.vm, d, i, pa, n, user);
    SameLength(m.vm);
    var f := m.Kmalloc(1);
    if user {
      m.Store(d, i, (f * PAGE_SIZE + 7) % WORD_LIMIT);
    } else {
      m.Store(d, i, (f * PAGE_SIZE + 3) % WORD_LIMIT);
    }
    WriteLeafLoop(m, f, 0, pa, n, user);
  }

  /** The directory that the descent went through. */
  method Directory(m: Machine, root: nat, p: seq<nat>, ghost own: map<nat, Owner>, ghost kroot: nat) returns (d: nat)
    requires m.Valid() && TreeInv(m.vm, own, kroot) && IsRoot(own, root) && |p| == 4 && Indices(p)
    requires Reach(m.vm.mem, root, p[..2]).Some?
    ensures Reach(m.vm.mem, root, p[..2]) == Some(d) && d < |m.vm.mem|
  {
    hide TreeInv, FrameOf, Present, Word, Reach;
    ReachStart(m.vm.mem, root, p);
    ReachStep(m.vm.mem, root, p, 0);
    ReachStep(m.vm.mem, root, p, 1);
    TableInRange(m.vm, own, kroot, root, p[0]);
    var e := m.Load(root, p[0]);
    var pdpt := FrameOf(e);
    TableInRange(m.vm, own, kroot, pdpt, p[1]);
    e := m.Load(pdpt, p[1]);
    d := FrameOf(e);
  }

  lemma {:induction false} TablesPrefix(vm: Vm, d: nat, dir: nat, pa: u64, k: nat, full: nat, j: nat, user: bool)
    requires FullTables(vm, d, dir, pa, k, full, user).Some? && j <= full
    ensures FullTables(vm, d, dir, pa, k, j, user).Some?
    decreases full - j
  {
    hide NextTable;
    if j < full {
      TablesPrefix(vm, d, dir, pa, k, full, j + 1, user);
    }
  }

  /** The loop over full tables. */
  method TableLoop(m: Machine, d: nat, dir: nat, pa: u64, k: nat, full: nat, user: bool)
    requires m.Valid() && WellFormed(m.vm) && d < |m.vm.mem| && dir + full < ENTRIES
    requires FullTables(m.vm, d, dir, pa, k, full, user).Some?
    modifies m, m.words, m.pages
    ensures m.Valid() && WellFormed(m.vm) && |m.vm.mem| == |old(m.vm).mem|
    ensures Some(m.vm) == FullTables(old(m.vm), d, dir, pa, k, full, user)
  {
    hide NextTable, WellFormed;
    ghost var vm0 := m.vm;
    for j := 0 to full
      invariant m.Valid() && WellFormed(m.vm) && |m.vm.mem| == |vm0.mem|
      invariant Some(m.vm) == FullTables(vm0, d, dir, pa, k, j, user)
    {
      TablesPrefix(vm0, d, dir, pa, k, full, j + 1, user);
      AppendTable(m, d, dir + j + 1, RangeAddress(pa, k + j * ENTRIES), ENTRIES, user);
    }
  }

  /** What the branch needs, step by step, when nothing it stores goes astray. */
  lemma ManyUnfolds(vm: Vm, root: nat, p: seq<nat>, pa: u64, n: nat, user: bool)
    requires |p| == 4 && p[3] < ENTRIES < p[3] + n && pa % PAGE_SIZE == 0 && MapMany(vm, root, p, pa, n, user).Mapped?
    ensures var full, last := PagesLeft(p[3], n) / ENTRIES, LastBound(p[3], n);
            && p[2] + full + 1 < ENTRIES && last <= ENTRIES
            && MapPath(vm, root, p, pa, ENTRIES - p[3], user).Some?
            && var vm1 := MapPath(vm, root, p, pa, ENTRIES - p[3], user).value;
            && Reach(vm1.mem, root, p[..2]).Some?
            && var d := Reach(vm1.mem, root, p[..2]).value;
            && FullTables(vm1, d, p[2], pa, ENTRIES - p[3], full, user).Some?
            && var vm2 := FullTables(vm1, d, p[2], pa, ENTRIES - p[3], full, user).value;
            && var r := NextTable(vm2, d, p[2] + full + 1, RangeAddress(pa, ENTRIES - p[3] + full * ENTRIES), last,
                 user);
            && r.Some? && MapMany(vm, root, p, pa, n, user) == Mapped(r.value)
  {
    hide MapPath, FullTables, NextTable, Reach, RangeAddress;
  }

  /** `init_map_virt_phys_addr`, second branch, whenever all its stores stay inside its tables. */
  method InitMapMany(m: Machine, root: nat, va: u64, pa: u64, n: nat, user: bool, ghost own: map<nat, Owner>,
                     ghost kroot: nat)
    requires m.Valid() && TreeInv(m.vm, own, kroot) && IsRoot(own, root) && pa % PAGE_SIZE == 0
    requires own[root].user && Path(va)[0] != KERNEL_SLOT ==> user
    requires Path(va)[3] < ENTRIES < Path(va)[3] + n && MapMany(m.vm, root, Path(va), pa, n, user).Mapped?
    modifies m, m.words, m.pages
    ensures m.Valid() && Mapped(m.vm) == MapMany(old(m.vm), root, Path(va), pa, n, user)
  {
    hide Path, TreeInv, MapPath, FullTables, NextTable, Reach, RangeAddress, MapMany, Grows, WellFormed, LastBound,
         Walk;
    var p := Path(va);
    ManyUnfolds(m.vm, root, p, pa, n, user);
    ghost var own', pt := MapPathTheorem(m.vm, own, kroot, root, p, pa, ENTRIES - p[3], user);
    GrowsKeepsRoots(m.vm, own, MapPath(m.vm, root, p, pa, ENTRIES - p[3], user).value, own');
    InitMap(m, root, va, pa, ENTRIES - p[3], user, own, kroot);
    var d := Directory(m, root, p, own', kroot);
    UsedTable(m.vm, own', kroot, root);
    var full := PagesLeft(p[3], n) / ENTRIES;
    TableLoop(m, d, p[2], pa, ENTRIES - p[3], full, user);
    AppendTable(m, d, p[2] + full + 1, RangeAddress(pa, ENTRIES - p[3] + full * ENTRIES), LastBound(p[3], n), user);
  }
}
