/**
 Four-level page tables in physical memory, on values.

 Physical memory is a sequence of frames of 512 words.  A table entry holds a frame address and
 flag bits; the root of a tree (the value of CR3) is passed as a frame number.
 */
module Paging {
  import opened Basics
  import opened Allocator
  import opened Addresses

  const KERNEL_SLOT := 511
  /** Physical memory is reached at `KERNEL_VADDR` plus the physical address, in the last 2 GiB of addresses. */
  const KERNEL_VADDR := 0xFFFF_FFFF_8000_0000
  const MAX_FRAMES := 0x8_0000

  type Memory = seq<seq<u64>>

  /** The machine as the allocator and the mapper see it. */
  datatype Vm = Vm(mem: Memory, pages: seq<Page>)

  // ---------------------------------------------------------------- words and entries

  function Word(mem: Memory, f: nat, o: nat): u64 {
    if f < |mem| && o < |mem[f]| then mem[f][o] else 0
  }

  function Put(mem: Memory, f: nat, o: nat, v: u64): (r: Memory)
    ensures |r| == |mem|
  {
    if f < |mem| && o < |mem[f]| then
      var frame: seq<u64> := mem[f][o := v];
      mem[f := frame]
    else mem
  }

  function ZeroFrame(): (r: seq<u64>)
    ensures |r| == ENTRIES
  {
    seq(ENTRIES, _ => 0)
  }

  function ZeroFrames(mem: Memory, i: nat, k: nat): (r: Memory)
    ensures |r| == |mem|
  {
    seq(|mem|, f requires 0 <= f < |mem| => if i <= f < i + k then ZeroFrame() else mem[f])
  }

  predicate Present(e: u64) {
    e % 2 == 1
  }

  predicate Writable(e: u64) {
    e / 2 % 2 == 1
  }

  predicate UserBit(e: u64) {
    e / 4 % 2 == 1
  }

  function FrameOf(e: u64): nat {
    e / PAGE_SIZE
  }

  /** The physical address of frame `f`. */
  function FrameAddress(f: nat): u64 {
    f * PAGE_SIZE % WORD_LIMIT
  }

  /** The entry `alloc_pdpe`, `alloc_pde` and `alloc_pte` write for a new table in frame `f`. */
  function TableEntry(f: nat, user: bool): u64 {
    (f * PAGE_SIZE + if user then 7 else 3) % WORD_LIMIT
  }

  /** The leaf entry for physical address `pa`: `pa >> 12 << 12 | 7` or `pa | 3`. */
  function LeafEntry(pa: u64, user: bool): u64 {
    if user then pa - pa % PAGE_SIZE + 7 else pa - pa % 4 + 3
  }

  // ---------------------------------------------------------------- the mapper

  function AllocFrames(vm: Vm, k: nat): (r: Option<(Vm, nat)>) {
    var a := Kmalloc(vm.pages, k);
    if a.None? then None else Some((Vm(ZeroFrames(vm.mem, a.value.1, k), a.value.0), a.value.1))
  }

  /** The table below entry `i` of table `t`, created on demand. */
  function EnsureTable(vm: Vm, t: nat, i: nat, user: bool): (r: Option<(Vm, nat)>) {
    var e := Word(vm.mem, t, i);
    if Present(e) then Some((vm, FrameOf(e))) else
    var a := AllocFrames(vm, 1);
    if a.None? then None else
    var (vm1, f) := a.value;
    Some((Vm(Put(vm1.mem, t, i, TableEntry(f, user)), vm1.pages), f))
  }

  /** The leaf entry of the `k`-th page of a range that starts at `pa`. */
  function LeafAt(pa: u64, k: nat, user: bool): u64 {
    LeafEntry((pa + k * PAGE_SIZE) % WORD_LIMIT, user)
  }

  function LeafWord(frame: seq<u64>, off: nat, pa: u64, n: nat, user: bool, o: nat): u64
    requires o < |frame|
  {
    if off <= o < off + n then LeafAt(pa, o - off, user) else frame[o]
  }

  function LeafFrame(frame: seq<u64>, off: nat, pa: u64, n: nat, user: bool): (r: seq<u64>)
    ensures |r| == |frame|
  {
    seq(|frame|, o requires 0 <= o < |frame| => LeafWord(frame, off, pa, n, user, o))
  }

  function WriteLeaves(mem: Memory, t: nat, off: nat, pa: u64, n: nat, user: bool): (r: Memory)
    ensures |r| == |mem|
  {
    if t < |mem| then mem[t := LeafFrame(mem[t], off, pa, n, user)] else mem
  }

  /** The table at the end of `path`, with every missing level created on the way down. */
  function EnsurePath(vm: Vm, root: nat, path: seq<nat>, user: bool): (r: Option<(Vm, nat)>)
    decreases |path|
  {
    if path == [] then Some((vm, root)) else
    var up := EnsurePath(vm, root, path[..|path| - 1], user);
    if up.None? then None else EnsureTable(up.value.0, up.value.1, path[|path| - 1], user)
  }

  /** The mapper on table indices: the leaf table of `p`, then `n` entries from `p[3]` on. */
  function MapPath(vm: Vm, root: nat, p: seq<nat>, pa: u64, n: nat, user: bool): (r: Option<Vm>)
    requires |p| == 4
  {
    var leaf := EnsurePath(vm, root, p[..3], user);
    if leaf.None? then None else
    Some(Vm(WriteLeaves(leaf.value.0.mem, leaf.value.1, p[3], pa, n, user), leaf.value.0.pages))
  }

  /** `init_map_virt_phys_addr` when the `n` pages lie in one leaf table. */
  function MapRange(vm: Vm, root: nat, va: u64, pa: u64, n: nat, user: bool): (r: Option<Vm>) {
    MapPath(vm, root, Path(va), pa, n, user)
  }

  // ---------------------------------------------------------------- the walker

  /** The table reached from `root` by following the entries at `path`. */
  function Reach(mem: Memory, root: nat, path: seq<nat>): (t: Option<nat>)
    decreases |path|
  {
    if path == [] then Some(root) else
    var up := Reach(mem, root, path[..|path| - 1]);
    if up.None? then None else
    var e := Word(mem, up.value, path[|path| - 1]);
    if Present(e) then Some(FrameOf(e)) else None
  }

  /** The present leaf entry at the end of `path`, as the processor finds it. */
  function Walk(mem: Memory, root: nat, path: seq<nat>): (e: Option<u64>)
    requires path != []
  {
    var t := Reach(mem, root, path[..|path| - 1]);
    if t.None? then None else
    var e := Word(mem, t.value, path[|path| - 1]);
    if Present(e) then Some(e) else None
  }

  /** `walk_page_table`: it returns -1 for a missing table and does not test the leaf itself. */
  function WalkPageTable(mem: Memory, root: nat, va: u64): (r: u64) {
    var t := Reach(mem, root, Path(va)[..3]);
    if t.None? then WORD_LIMIT - 1
    else var e := Word(mem, t.value, Path(va)[3]); e - e % PAGE_SIZE
  }

  // ---------------------------------------------------------------- the tree invariant

  /**
   What a frame is used for.  A table knows its level (4 for a root) and the entry that leads to
   it.  A table of level 3 may hang below several roots, always in the same slot, so it records
   the slot only.  `user` marks the tables that only user mappings reach.
   */
  datatype Owner = Table(level: nat, parent: nat, index: nat, user: bool) | Data(page: nat)

  function Below(o: Owner, t: nat, i: nat): Owner
    requires o.Table? && o.level >= 2
  {
    Table(o.level - 1, if o.level == 4 then 0 else t, i, o.user && !(o.level == 4 && i == KERNEL_SLOT))
  }

  function RootOwner(user: bool): Owner {
    Table(4, 0, 0, user)
  }

  ghost predicate IsTable(own: map<nat, Owner>, t: nat) {
    t in own && own[t].Table?
  }

  ghost predicate IsRoot(own: map<nat, Owner>, t: nat) {
    IsTable(own, t) && own[t].level == 4
  }

  /** Entry `i` of table `t` leads where the owner map says, and carries the right flags. */
  ghost predicate EntryOk(mem: Memory, own: map<nat, Owner>, t: nat, i: nat)
    requires IsTable(own, t)
  {
    var e := Word(mem, t, i);
    Present(e) ==>
      && (own[t].level >= 2 ==> FrameOf(e) in own && own[FrameOf(e)] == Below(own[t], t, i))
      && (own[t].user && !(own[t].level == 4 && i == KERNEL_SLOT) ==> Writable(e) && UserBit(e))
  }

  ghost predicate WellFormed(vm: Vm) {
    && |vm.mem| == |vm.pages| <= MAX_FRAMES
    && (forall f :: 0 <= f < |vm.mem| ==> |vm.mem[f]| == ENTRIES)
    && Countdown(vm.pages)
  }

  /**
   The alias-free tree: every table frame is in use, its owner is the one entry that leads to it,
   and every process root shares the kernel's entry in slot 511, which keeps user code out.
   */
  ghost predicate TreeInv(vm: Vm, own: map<nat, Owner>, kroot: nat) {
    && WellFormed(vm)
    && (forall f :: f in own ==> f < |vm.pages| && vm.pages[f].used == 1)
    && (forall t :: IsTable(own, t) ==> 1 <= own[t].level <= 4)
    && (forall t :: IsRoot(own, t) ==> own[t] == RootOwner(own[t].user))
    && (forall t, i :: IsTable(own, t) && 0 <= i < ENTRIES ==> EntryOk(vm.mem, own, t, i))
    && kroot in own && own[kroot] == RootOwner(false)
    && Present(Word(vm.mem, kroot, KERNEL_SLOT)) && !UserBit(Word(vm.mem, kroot, KERNEL_SLOT))
    && (forall t :: IsRoot(own, t) && own[t].user ==>
                      Word(vm.mem, t, KERNEL_SLOT) == Word(vm.mem, kroot, KERNEL_SLOT))
  }
}
