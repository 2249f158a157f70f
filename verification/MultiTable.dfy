/**
 The branch of `init_map_virt_phys_addr` for ranges that do not fit one leaf table: the rest of the
 first table, then full tables, then a last one.
 */
module MultiTable {
  import opened Basics
  import opened Allocator
  import opened Addresses
  import opened Paging
  import opened PageTree
  import opened Mapping

  // ---------------------------------------------------------------- the branch on values

  /** `Stray` stands for a store outside the directory or outside the last table. */
  datatype ManyResult = Mapped(vm: Vm) | Full | Stray

  function RangeAddress(pa: u64, k: nat): u64 {
    (pa + k * PAGE_SIZE) % WORD_LIMIT
  }

  /** `alloc_pte` and the loop behind it: a new table at entry `i` of directory `d`, whatever was there. */
  function NextTable(vm: Vm, d: nat, i: nat, pa: u64, n: nat, user: bool): (r: Option<Vm>) {
    var a := AllocFrames(vm, 1);
    if a.None? then None else
    var (vm1, f) := a.value;
    Some(Vm(WriteLeaves(Put(vm1.mem, d, i, TableEntry(f, user)), f, 0, pa, n, user), vm1.pages))
  }

  /** The loop over full tables: entries `dir + 1` to `dir + j`, after `k` pages have been mapped. */
  function FullTables(vm: Vm, d: nat, dir: nat, pa: u64, k: nat, j: nat, user: bool): (r: Option<Vm>)
    decreases j
  {
    if j == 0 then Some(vm) else
    var before := FullTables(vm, d, dir, pa, k, j - 1, user);
    if before.None? then None
    else NextTable(before.value, d, dir + j, RangeAddress(pa, k + (j - 1) * ENTRIES), ENTRIES, user)
  }

  /** Pages left over for new tables, and the bound of the last loop: an `int` compared with an unsigned counter. */
  function PagesLeft(off: nat, n: nat): nat
    requires off < ENTRIES < off + n
  {
    n - (ENTRIES - off)
  }

  function LastBound(off: nat, n: nat): nat
    requires off < ENTRIES < off + n
  {
    (PagesLeft(off, n) - ENTRIES * off) % WORD_LIMIT
  }

  /** Here the flags are or-ed to the physical address as it is, which must therefore start a page. */
  function MapMany(vm: Vm, root: nat, p: seq<nat>, pa: u64, n: nat, user: bool): (r: ManyResult)
    requires |p| == 4 && p[3] < ENTRIES < p[3] + n && pa % PAGE_SIZE == 0
  {
    var full := PagesLeft(p[3], n) / ENTRIES;
    var last := LastBound(p[3], n);
    if p[2] + full + 1 >= ENTRIES || last > ENTRIES then Stray else
    var first := MapPath(vm, root, p, pa, ENTRIES - p[3], user);
    if first.None? then Full else
    var d := Reach(first.value.mem, root, p[..2]);
    if d.None? then Stray else
    var tables := FullTables(first.value, d.value, p[2], pa, ENTRIES - p[3], full, user);
    if tables.None? then Full else
    var r := NextTable(tables.value, d.value, p[2] + full + 1, RangeAddress(pa, ENTRIES - p[3] + full * ENTRIES), last,
                       user);
    if r.None? then Full else Mapped(r.value)
  }

  /** The leaf entries the branch writes. */
  function LeavesWritten(off: nat, n: nat): nat
    requires off < ENTRIES < off + n
  {
    ENTRIES - off + PagesLeft(off, n) / ENTRIES * ENTRIES + LastBound(off, n)
  }

  // ---------------------------------------------------------------- what a range means

  /** The position of a page among those below one directory. */
  function PagePosition(q: seq<nat>): nat
    requires |q| == 4
  {
    q[2] * ENTRIES + q[3]
  }

  /** Page `q` as it should be: mapped inside the range, absent in the `gap` pages behind it, else as in `mem0`. */
  ghost predicate PageMapped(mem0: Memory, mem: Memory, root: nat, pre: seq<nat>, base: nat, pa: u64, n: nat, gap: nat,
                             user: bool, q: seq<nat>)
    requires |q| == 4
  {
    Walk(mem, root, q) ==
      if q[..2] == pre && base <= PagePosition(q) < base + n then Some(LeafAt(pa, PagePosition(q) - base, user))
      else if q[..2] == pre && base + n <= PagePosition(q) < base + n + gap then None
      else Walk(mem0, root, q)
  }

  ghost predicate RangeAndGap(mem0: Memory, mem: Memory, root: nat, pre: seq<nat>, base: nat, pa: u64, n: nat, gap: nat,
                              user: bool) {
    forall q: seq<nat> :: |q| == 4 && Indices(q) ==> PageMapped(mem0, mem, root, pre, base, pa, n, gap, user, q)
  }

  /** The `n` pages from position `base` on translate to the pages from `pa` on; all other pages as in `mem0`. */
  ghost predicate RangeMapped(mem0: Memory, mem: Memory, root: nat, pre: seq<nat>, base: nat, pa: u64, n: nat,
                              user: bool) {
    RangeAndGap(mem0, mem, root, pre, base, pa, n, 0, user)
  }

  // ---------------------------------------------------------------- a table in place of another

  /** Hanging a zeroed, unowned frame below an entry of a directory keeps the tree, whatever was there. */
  lemma ReplaceKeepsTree(vm: Vm, own: map<nat, Owner>, kroot: nat, d: nat, i: nat, f: nat, e: u64)
    requires TreeInv(vm, own, kroot) && IsTable(own, d) && own[d].level == 2 && i < ENTRIES
    requires f < |vm.mem| && f !in own && vm.pages[f].used == 1 && vm.mem[f] == ZeroFrame()
    requires Present(e) && FrameOf(e) == f && Writable(e) && (Below(own[d], d, i).user ==> UserBit(e))
    ensures TreeInv(Vm(Put(vm.mem, d, i, e), vm.pages), own[f := Below(own[d], d, i)], kroot)
  {
    var mem' := Put(vm.mem, d, i, e);
    var own' := own[f := Below(own[d], d, i)];
    forall u, j | IsTable(own', u) && 0 <= j < ENTRIES ensures EntryOk(mem', own', u, j) {
      if u == f {
        assert Word(mem', u, j) == 0;
      } else {
        assert EntryOk(vm.mem, own, u, j);
        assert u != d || j != i ==> Word(mem', u, j) == Word(vm.mem, u, j);
        assert Word(mem', d, i) == e;
      }
    }
    assert forall r :: IsRoot(own', r) ==> IsRoot(own, r) && Word(mem', r, KERNEL_SLOT) == Word(vm.mem, r, KERNEL_SLOT);
    assert forall g :: 0 <= g < |mem'| ==> |mem'[g]| == |vm.mem[g]|;
  }

  lemma ReplaceGrows(vm: Vm, own: map<nat, Owner>, vm1: Vm, d: nat, i: nat, f: nat, e: u64)
    requires WellFormed(vm) && WellFormed(vm1) && |vm1.mem| == |vm.mem|
    requires forall f :: f in own ==> f < |vm.pages| && vm.pages[f].used == 1
    requires IsTable(own, d) && own[d].level == 2 && i < ENTRIES && f < |vm.mem| && vm.pages[f].used == 0
    requires forall g :: 0 <= g < |vm.mem| && g != f ==> vm1.mem[g] == vm.mem[g] && vm1.pages[g] == vm.pages[g]
    requires vm1.pages[f].used == 1
    ensures Grows(vm, own, Vm(Put(vm1.mem, d, i, e), vm1.pages), own[f := Below(own[d], d, i)])
  {
    var mem' := Put(vm1.mem, d, i, e);
    forall r, j | IsRoot(own, r) && 0 <= j < ENTRIES && Present(Word(vm.mem, r, j))
      ensures Word(mem', r, j) == Word(vm.mem, r, j)
    {
      assert r != f && r != d;
    }
  }

  /** From `mem` to `mem'` entry `i` of directory `d` got the table `f`, which maps `n` pages from `pa` on. */
  ghost predicate Replaced(mem: Memory, mem': Memory, own: map<nat, Owner>, d: nat, i: nat, f: nat, pa: u64, n: nat,
                           user: bool) {
    && f !in own && Present(Word(mem', d, i)) && FrameOf(Word(mem', d, i)) == f
    && (forall j :: 0 <= j < ENTRIES ==> Word(mem', f, j) == if j < n then LeafAt(pa, j, user) else 0)
    && (forall t, j :: IsTable(own, t) && 0 <= j < ENTRIES && (t != d || j != i) ==>
          Word(mem', t, j) == Word(mem, t, j))
  }

  lemma NextTableTree(vm: Vm, own: map<nat, Owner>, kroot: nat, d: nat, i: nat, pa: u64, n: nat, user: bool)
    returns (own': map<nat, Owner>, f: nat)
    requires TreeInv(vm, own, kroot) && IsTable(own, d) && own[d].level == 2 && i < ENTRIES
    requires (Below(own[d], d, i).user ==> user)
    requires NextTable(vm, d, i, pa, n, user).Some?
    ensures var vm' := NextTable(vm, d, i, pa, n, user).value;
            && TreeInv(vm', own', kroot) && Grows(vm, own, vm', own')
            && Replaced(vm.mem, vm'.mem, own, d, i, f, pa, n, user)
  {
    hide AllocFrames, TableEntry, FrameOf, Present, Countdown, LeafAt, WriteLeaves;
    AllocOne(vm);
    var vm1 := AllocFrames(vm, 1).value.0;
    f := AllocFrames(vm, 1).value.1;
    TableEntryFields(f, user);
    TableFrames(vm, own, kroot, vm1, d, i, f);
    hide TreeInv, Grows;
    ReplaceKeepsTree(vm1, own, kroot, d, i, f, TableEntry(f, user));
    ReplaceGrows(vm, own, vm1, d, i, f, TableEntry(f, user));
    own' := own[f := Below(own[d], d, i)];
    var vm2 := Vm(Put(vm1.mem, d, i, TableEntry(f, user)), vm1.pages);
    LeavesKeepTree(vm2, own', kroot, f, 0, pa, n, user);
    var vm' := NextTable(vm, d, i, pa, n, user).value;
    GrowsTree(vm, own, vm2, own', vm', own', kroot);
    ReplacedWords(vm, own, vm1, d, i, f, pa, n, user);
  }

  lemma ReplacedWords(vm: Vm, own: map<nat, Owner>, vm1: Vm, d: nat, i: nat, f: nat, pa: u64, n: nat, user: bool)
    requires d < |vm1.mem| && i < |vm1.mem[d]| && f < |vm1.mem| && vm1.mem[f] == ZeroFrame() && |vm1.mem| == |vm.mem|
    requires f !in own && d in own && Present(TableEntry(f, user)) && FrameOf(TableEntry(f, user)) == f
    requires forall g :: 0 <= g < |vm.mem| && g != f ==> vm1.mem[g] == vm.mem[g]
    ensures Replaced(vm.mem, WriteLeaves(Put(vm1.mem, d, i, TableEntry(f, user)), f, 0, pa, n, user), own, d, i, f, pa,
              n, user)
  {
    hide TableEntry, FrameOf, Present, LeafAt;
  }

  /** The one path that ends in the new table; every other path is as before. */
  lemma {:induction false} NextReach(vm: Vm, own: map<nat, Owner>, kroot: nat, root: nat, pre: seq<nat>, d: nat,
                                     mem': Memory, i: nat, f: nat, pa: u64, n: nat, user: bool, x: seq<nat>)
    requires TreeInv(vm, own, kroot) && IsRoot(own, root) && |pre| == 2 && Indices(pre) && i < ENTRIES
    requires Reach(vm.mem, root, pre) == Some(d) && Replaced(vm.mem, mem', own, d, i, f, pa, n, user) && |x| <= 3
    requires Indices(x)
    ensures Reach(mem', root, x) == if x == pre + [i] then Some(f) else Reach(vm.mem, root, x)
    decreases |x|
  {
    hide TreeInv, FrameOf, Present, LeafAt;
    if x != [] {
      var k := |x| - 1;
      assert x == x[..k] + [x[k]];
      NextReach(vm, own, kroot, root, pre, d, mem', i, f, pa, n, user, x[..k]);
      ReachOwned(vm, own, kroot, root, pre);
      if Reach(vm.mem, root, x[..k]).Some? {
        ReachOwned(vm, own, kroot, root, x[..k]);
        if Reach(vm.mem, root, x[..k]) == Some(d) {
          PathUnique(vm, own, kroot, root, x[..k], root, pre);
        }
      }
    }
  }

  lemma NextWalk(vm: Vm, own: map<nat, Owner>, kroot: nat, root: nat, pre: seq<nat>, d: nat, mem': Memory, i: nat,
                 f: nat, pa: u64, n: nat, user: bool, q: seq<nat>)
    requires TreeInv(vm, own, kroot) && IsRoot(own, root) && |pre| == 2 && Indices(pre) && i < ENTRIES && n <= ENTRIES
    requires Reach(vm.mem, root, pre) == Some(d) && Replaced(vm.mem, mem', own, d, i, f, pa, n, user) && |q| == 4
    requires Indices(q)
    ensures Walk(mem', root, q) ==
            if q[..3] == pre + [i] then (if q[3] < n then Some(LeafAt(pa, q[3], user)) else None)
            else Walk(vm.mem, root, q)
  {
    hide TreeInv, Reach, FrameOf, LeafAt;
    NextReach(vm, own, kroot, root, pre, d, mem', i, f, pa, n, user, q[..3]);
    if q[..3] == pre + [i] {
      LeafIsPresent(pa, q[3], user);
    } else if Reach(vm.mem, root, q[..3]).Some? {
      ReachOwned(vm, own, kroot, root, q[..3]);
      ReachOwned(vm, own, kroot, root, pre);
    }
  }

  lemma LeafIsPresent(pa: u64, k: nat, user: bool)
    ensures Present(LeafAt(pa, k, user)) && !Present(0)
  {
    LeafEntryFields((pa + k * PAGE_SIZE) % WORD_LIMIT, user);
  }

  /** Tables below a process root outside slot 511 are user tables; elsewhere nothing is asked of the flags. */
  lemma UserBelow(vm: Vm, own: map<nat, Owner>, kroot: nat, root: nat, pre: seq<nat>, i: nat)
    requires TreeInv(vm, own, kroot) && IsRoot(own, root) && |pre| == 2 && Indices(pre)
    requires Reach(vm.mem, root, pre).Some?
    requires IsTable(own, Reach(vm.mem, root, pre).value) && own[Reach(vm.mem, root, pre).value].level == 2
    ensures var d := Reach(vm.mem, root, pre).value;
            Below(own[d], d, i).user ==> own[root].user && pre[0] != KERNEL_SLOT
  {
    assert pre[..1][..0] == [] && Reach(vm.mem, root, []) == Some(root);
    ReachOwned(vm, own, kroot, root, pre[..1]);
    ReachOwned(vm, own, kroot, root, pre);
  }

  lemma MapWalks(vm: Vm, own: map<nat, Owner>, kroot: nat, root: nat, p: seq<nat>, pa: u64, n: nat, user: bool,
                 q: seq<nat>)
    requires TreeInv(vm, own, kroot) && IsRoot(own, root) && |p| == 4 && Indices(p) && p[3] + n <= ENTRIES
    requires own[root].user && p[0] != KERNEL_SLOT ==> user
    requires MapPath(vm, root, p, pa, n, user).Some? && |q| == 4 && Indices(q)
    ensures Walk(MapPath(vm, root, p, pa, n, user).value.mem, root, q) ==
            if q[..3] == p[..3] && p[3] <= q[3] < p[3] + n then Some(LeafAt(pa, q[3] - p[3], user))
            else Walk(vm.mem, root, q)
  {
    hide TreeInv, MapPath, Walk, LeafAt, Reach;
    if q[..3] == p[..3] && p[3] <= q[3] < p[3] + n {
      MapPathTranslates(vm, own, kroot, root, p, pa, n, user, q[3] - p[3]);
      assert p[..3] + [q[3]] == q;
    } else {
      MapPathOthers(vm, own, kroot, root, p, pa, n, user, root, q);
    }
  }

  lemma AddressesAdd(pa: u64, k: nat, x: nat, user: bool)
    ensures LeafAt(RangeAddress(pa, k), x, user) == LeafAt(pa, k + x, user)
  {
    var a := pa + k * PAGE_SIZE;
    assert a % WORD_LIMIT + x * PAGE_SIZE == pa + (k + x) * PAGE_SIZE - a / WORD_LIMIT * WORD_LIMIT;
    SameRest(pa + (k + x) * PAGE_SIZE, a / WORD_LIMIT);
  }

  lemma SameRest(x: int, m: int)
    ensures (x - m * WORD_LIMIT) % WORD_LIMIT == x % WORD_LIMIT
  {
    Quotient(x - m * WORD_LIMIT, WORD_LIMIT, x / WORD_LIMIT - m, x % WORD_LIMIT);
  }

  lemma PageSplit(q: seq<nat>, pre: seq<nat>, i: nat, base: nat, k: nat, n: nat)
    requires |q| == 4 && q[3] < ENTRIES && |pre| == 2 && n <= ENTRIES && base + k == i * ENTRIES
    ensures q[..3] == pre + [i] <==> q[..2] == pre && base + k <= PagePosition(q) < base + k + ENTRIES
    ensures q[..3] == pre + [i] ==> PagePosition(q) == base + k + q[3]
  {
    assert q[..3] == q[..2] + [q[2]];
    if q[..2] == pre && base + k <= PagePosition(q) < base + k + ENTRIES {
      assert q[2] == i;
    }
  }

  /** One more table behind a mapped range: its pages are mapped, and the rest of the table is absent. */
  lemma RangeGrows(mem0: Memory, vm: Vm, own: map<nat, Owner>, kroot: nat, root: nat, pre: seq<nat>, d: nat,
                   mem': Memory, base: nat, pa: u64, k: nat, i: nat, f: nat, n: nat, user: bool)
    requires TreeInv(vm, own, kroot) && IsRoot(own, root) && |pre| == 2 && Indices(pre) && i < ENTRIES && n <= ENTRIES
    requires Reach(vm.mem, root, pre) == Some(d) && Replaced(vm.mem, mem', own, d, i, f, RangeAddress(pa, k), n, user)
    requires base + k == i * ENTRIES && RangeMapped(mem0, vm.mem, root, pre, base, pa, k, user)
    ensures RangeAndGap(mem0, mem', root, pre, base, pa, k + n, ENTRIES - n, user)
  {
    hide TreeInv, Walk, LeafAt, RangeAddress, Replaced, Reach;
    forall q: seq<nat> | |q| == 4 && Indices(q)
      ensures PageMapped(mem0, mem', root, pre, base, pa, k + n, ENTRIES - n, user, q)
    {
      assert PageMapped(mem0, vm.mem, root, pre, base, pa, k, 0, user, q);
      NextWalk(vm, own, kroot, root, pre, d, mem', i, f, RangeAddress(pa, k), n, user, q);
      PageSplit(q, pre, i, base, k, n);
      AddressesAdd(pa, k, q[3], user);
    }
  }

  /** The first table: the rest of it. */
  lemma RangeStarts(vm: Vm, own: map<nat, Owner>, kroot: nat, root: nat, p: seq<nat>, pa: u64, user: bool)
    requires TreeInv(vm, own, kroot) && IsRoot(own, root) && |p| == 4 && Indices(p)
    requires own[root].user && p[0] != KERNEL_SLOT ==> user
    requires MapPath(vm, root, p, pa, ENTRIES - p[3], user).Some?
    ensures var n := ENTRIES - p[3];
            RangeMapped(vm.mem, MapPath(vm, root, p, pa, n, user).value.mem, root, p[..2], PagePosition(p), pa, n, user)
  {
    hide TreeInv, MapPath, Walk, LeafAt;
    var n := ENTRIES - p[3];
    var mem' := MapPath(vm, root, p, pa, n, user).value.mem;
    forall q: seq<nat> | |q| == 4 && Indices(q)
      ensures PageMapped(vm.mem, mem', root, p[..2], PagePosition(p), pa, n, 0, user, q)
    {
      MapWalks(vm, own, kroot, root, p, pa, n, user, q);
      assert q[..3] == q[..2] + [q[2]] && p[..3] == p[..2] + [p[2]];
      assert PagePosition(p) <= PagePosition(q) < PagePosition(p) + n ==> q[2] == p[2];
    }
  }

  // ---------------------------------------------------------------- all tables

  /** The state between two tables: a sound tree, the directory in place, and `k` pages mapped. */
  ghost predicate Underway(mem0: Memory, vm: Vm, own: map<nat, Owner>, kroot: nat, root: nat, pre: seq<nat>, d: nat,
                           base: nat, pa: u64, k: nat, gap: nat, user: bool)
  {
    && TreeInv(vm, own, kroot) && IsRoot(own, root) && Reach(vm.mem, root, pre) == Some(d)
    && (own[root].user && pre != [] && pre[0] != KERNEL_SLOT ==> user)
    && RangeAndGap(mem0, vm.mem, root, pre, base, pa, k, gap, user)
  }

  lemma OneTable(mem0: Memory, vm: Vm, own: map<nat, Owner>, kroot: nat, root: nat, pre: seq<nat>, d: nat, base: nat,
                 pa: u64, k: nat, i: nat, n: nat, user: bool)
    returns (own': map<nat, Owner>)
    requires |pre| == 2 && Indices(pre) && i < ENTRIES && n <= ENTRIES && base + k == i * ENTRIES
    requires Underway(mem0, vm, own, kroot, root, pre, d, base, pa, k, 0, user)
    requires NextTable(vm, d, i, RangeAddress(pa, k), n, user).Some?
    ensures var vm' := NextTable(vm, d, i, RangeAddress(pa, k), n, user).value;
            Underway(mem0, vm', own', kroot, root, pre, d, base, pa, k + n, ENTRIES - n, user)
              && Grows(vm, own, vm', own')
  {
    hide TreeInv, Grows, Walk, Reach, NextTable, RangeAddress, RangeAndGap, Word, Replaced;
    ReachOwned(vm, own, kroot, root, pre);
    UserBelow(vm, own, kroot, root, pre, i);
    var f;
    own', f := NextTableTree(vm, own, kroot, d, i, RangeAddress(pa, k), n, user);
    var vm' := NextTable(vm, d, i, RangeAddress(pa, k), n, user).value;
    NextReach(vm, own, kroot, root, pre, d, vm'.mem, i, f, RangeAddress(pa, k), n, user, pre);
    RangeGrows(mem0, vm, own, kroot, root, pre, d, vm'.mem, base, pa, k, i, f, n, user);
    GrowsKeepsRoots(vm, own, vm', own');
  }

  /** The loop over full tables. */
  lemma {:induction false} TablesTheorem(mem0: Memory, vm: Vm, own: map<nat, Owner>, kroot: nat, root: nat,
                                         pre: seq<nat>, d: nat, dir: nat, base: nat, pa: u64, k: nat, j: nat,
                                         user: bool)
    returns (own': map<nat, Owner>)
    requires |pre| == 2 && Indices(pre) && dir + j < ENTRIES && base + k == (dir + 1) * ENTRIES
    requires Underway(mem0, vm, own, kroot, root, pre, d, base, pa, k, 0, user)
    requires FullTables(vm, d, dir, pa, k, j, user).Some?
    ensures var vm' := FullTables(vm, d, dir, pa, k, j, user).value;
            Underway(mem0, vm', own', kroot, root, pre, d, base, pa, k + j * ENTRIES, 0, user)
              && Grows(vm, own, vm', own')
    decreases j
  {
    hide Underway, NextTable, Grows, Word, RangeAddress;
    if j == 0 {
      own' := own;
      NothingGrows(mem0, vm, own, kroot, root, pre, d, base, pa, k, user);
    } else {
      var own1 := TablesTheorem(mem0, vm, own, kroot, root, pre, d, dir, base, pa, k, j - 1, user);
      var vm1 := FullTables(vm, d, dir, pa, k, j - 1, user).value;
      own' := OneTable(mem0, vm1, own1, kroot, root, pre, d, base, pa, k + (j - 1) * ENTRIES, dir + j, ENTRIES, user);
      var vm' := FullTables(vm, d, dir, pa, k, j, user).value;
      UnderwayTree(mem0, vm, own, kroot, root, pre, d, base, pa, k, 0, user);
      UnderwayTree(mem0, vm1, own1, kroot, root, pre, d, base, pa, k + (j - 1) * ENTRIES, 0, user);
      UnderwayTree(mem0, vm', own', kroot, root, pre, d, base, pa, k + j * ENTRIES, 0, user);
      hide TreeInv;
      GrowsTree(vm, own, vm1, own1, vm', own', kroot);
    }
  }

  lemma UnderwayTree(mem0: Memory, vm: Vm, own: map<nat, Owner>, kroot: nat, root: nat, pre: seq<nat>, d: nat,
                     base: nat, pa: u64, k: nat, gap: nat, user: bool)
    requires Underway(mem0, vm, own, kroot, root, pre, d, base, pa, k, gap, user)
    ensures TreeInv(vm, own, kroot)
  {
  }

  lemma NothingGrows(mem0: Memory, vm: Vm, own: map<nat, Owner>, kroot: nat, root: nat, pre: seq<nat>, d: nat,
                     base: nat, pa: u64, k: nat, user: bool)
    requires Underway(mem0, vm, own, kroot, root, pre, d, base, pa, k, 0, user)
    ensures Grows(vm, own, vm, own)
  {
    PathBase(vm, own, kroot, root);
  }

  /** After the first table is filled, the directory exists. */
  lemma FirstTable(vm: Vm, own: map<nat, Owner>, kroot: nat, root: nat, p: seq<nat>, pa: u64, user: bool)
    returns (own': map<nat, Owner>, d: nat)
    requires TreeInv(vm, own, kroot) && IsRoot(own, root) && |p| == 4 && Indices(p)
    requires own[root].user && p[0] != KERNEL_SLOT ==> user
    requires MapPath(vm, root, p, pa, ENTRIES - p[3], user).Some?
    ensures var vm' := MapPath(vm, root, p, pa, ENTRIES - p[3], user).value;
            && Underway(vm.mem, vm', own', kroot, root, p[..2], d, PagePosition(p), pa, ENTRIES - p[3], 0, user)
            && Grows(vm, own, vm', own')
  {
    hide TreeInv, Grows, Walk, RangeAndGap, EnsurePath, WriteLeaves, SameWalks;
    var pt;
    own', pt := MapPathTheorem(vm, own, kroot, root, p, pa, ENTRIES - p[3], user);
    RangeStarts(vm, own, kroot, root, p, pa, user);
    var vm' := MapPath(vm, root, p, pa, ENTRIES - p[3], user).value;
    GrowsKeepsRoots(vm, own, vm', own');
    ReachPrefix(vm'.mem, root, p[..3], 2);
    assert p[..3][..2] == p[..2];
    d := Reach(vm'.mem, root, p[..2]).value;
  }

  // ---------------------------------------------------------------- the theorem

  /**
   The branch maps as many pages as it writes entries, in order.  Behind them the rest of the last
   table is absent, whatever was mapped there; no other page moves.
   */
  lemma ManyTheorem(vm: Vm, own: map<nat, Owner>, kroot: nat, root: nat, p: seq<nat>, pa: u64, n: nat, user: bool)
    returns (own': map<nat, Owner>)
    requires TreeInv(vm, own, kroot) && IsRoot(own, root) && |p| == 4 && Indices(p) && p[3] < ENTRIES < p[3] + n
    requires pa % PAGE_SIZE == 0
    requires own[root].user && p[0] != KERNEL_SLOT ==> user
    requires MapMany(vm, root, p, pa, n, user).Mapped?
    ensures LastBound(p[3], n) <= ENTRIES
    ensures var vm' := MapMany(vm, root, p, pa, n, user).vm;
            && TreeInv(vm', own', kroot) && Grows(vm, own, vm', own')
            && RangeAndGap(vm.mem, vm'.mem, root, p[..2], PagePosition(p), pa, LeavesWritten(p[3], n),
                 ENTRIES - LastBound(p[3], n), user)
  {
    hide TreeInv, Grows, Walk, RangeAndGap, Reach, MapPath, FullTables, NextTable, RangeAddress, LastBound;
    var own1, d := FirstTable(vm, own, kroot, root, p, pa, user);
    var k, full := ENTRIES - p[3], PagesLeft(p[3], n) / ENTRIES;
    var vm1 := MapPath(vm, root, p, pa, k, user).value;
    var own2 := TablesTheorem(vm.mem, vm1, own1, kroot, root, p[..2], d, p[2], PagePosition(p), pa, k, full, user);
    var vm2 := FullTables(vm1, d, p[2], pa, k, full, user).value;
    own' := OneTable(vm.mem, vm2, own2, kroot, root, p[..2], d, PagePosition(p), pa, k + full * ENTRIES,
                     p[2] + full + 1, LastBound(p[3], n), user);
    var vm' := MapMany(vm, root, p, pa, n, user).vm;
    GrowsTree(vm, own, vm1, own1, vm2, own2, kroot);
    GrowsTree(vm, own, vm2, own2, vm', own', kroot);
  }

  /** The bound of the last loop is the number of pages still missing only in one case. */
  lemma LastBoundIff(off: nat, n: nat)
    requires off < ENTRIES < off + n && n < 0x8000_0000
    ensures LastBound(off, n) == PagesLeft(off, n) % ENTRIES <==> PagesLeft(off, n) / ENTRIES == off
    ensures LastBound(off, n) <= ENTRIES && LastBound(off, n) != PagesLeft(off, n) % ENTRIES ==>
              LeavesWritten(off, n) == n + ENTRIES && PagesLeft(off, n) % ENTRIES == 0
  {
    var left := PagesLeft(off, n);
    var rest := left - ENTRIES * off;
    assert left == left / ENTRIES * ENTRIES + left % ENTRIES;
    if rest < 0 {
      assert rest % WORD_LIMIT == rest + WORD_LIMIT;
    } else {
      assert rest % WORD_LIMIT == rest;
    }
  }

  /** The pages of the last table that lie behind the request. */
  ghost predicate Behind(p: seq<nat>, n: nat, q: seq<nat>)
    requires |p| == 4 && p[3] < ENTRIES < p[3] + n
  {
    && |q| == 4 && Indices(q) && q[..2] == p[..2]
    && PagePosition(p) + n <= PagePosition(q) < (p[2] + PagesLeft(p[3], n) / ENTRIES + 2) * ENTRIES
  }

  /** Those pages are already what the last table makes of them: absent, or mapped just so. */
  ghost predicate NothingToLose(mem: Memory, root: nat, p: seq<nat>, pa: u64, n: nat, user: bool)
    requires |p| == 4 && p[3] < ENTRIES < p[3] + n
  {
    forall q :: Behind(p, n, q) ==>
                  Walk(mem, root, q) == if PagesLeft(p[3], n) / ENTRIES == p[3] then None
                                        else Some(LeafAt(pa, PagePosition(q) - PagePosition(p), user))
  }

  /** Nothing is stored outside the directory or outside the last table. */
  predicate StaysInside(p: seq<nat>, n: nat)
    requires |p| == 4 && p[3] < ENTRIES < p[3] + n
  {
    p[2] + PagesLeft(p[3], n) / ENTRIES + 1 < ENTRIES && LastBound(p[3], n) <= ENTRIES
  }

  lemma InsideIsMapped(vm: Vm, own: map<nat, Owner>, kroot: nat, root: nat, p: seq<nat>, pa: u64, n: nat, user: bool)
    requires TreeInv(vm, own, kroot) && IsRoot(own, root) && |p| == 4 && Indices(p) && p[3] < ENTRIES < p[3] + n
    requires pa % PAGE_SIZE == 0
    requires own[root].user && p[0] != KERNEL_SLOT ==> user
    requires MapMany(vm, root, p, pa, n, user) != Full
    ensures MapMany(vm, root, p, pa, n, user).Mapped? <==> StaysInside(p, n)
  {
    hide TreeInv, MapPath, FullTables, NextTable, Reach, RangeAddress, LastBound;
    ReachableDirectory(vm, own, kroot, root, p, pa, user);
  }

  /** The end of the last table, seen from the request. */
  lemma EndOfLast(p: seq<nat>, n: nat)
    requires |p| == 4 && p[3] < ENTRIES < p[3] + n && n < 0x8000_0000 && LastBound(p[3], n) <= ENTRIES
    ensures var written, gap := LeavesWritten(p[3], n), ENTRIES - LastBound(p[3], n);
            && PagePosition(p) + written + gap == (p[2] + PagesLeft(p[3], n) / ENTRIES + 2) * ENTRIES
            && (if PagesLeft(p[3], n) / ENTRIES == p[3] then written == n else written == n + ENTRIES && gap == 0)
  {
    LastBoundIff(p[3], n);
    var left := PagesLeft(p[3], n);
    assert left == left / ENTRIES * ENTRIES + left % ENTRIES;
  }

  /**
   With memory enough: the requested pages, and no others, are changed exactly when nothing is stored
   outside the tables, and the pages of the last table behind the request have nothing to lose.
   */
  lemma RequestMetIff(vm: Vm, own: map<nat, Owner>, kroot: nat, root: nat, p: seq<nat>, pa: u64, n: nat, user: bool)
    requires TreeInv(vm, own, kroot) && IsRoot(own, root) && |p| == 4 && Indices(p) && p[3] < ENTRIES < p[3] + n
    requires n < 0x8000_0000
    requires pa % PAGE_SIZE == 0 && (own[root].user && p[0] != KERNEL_SLOT ==> user)
    requires MapMany(vm, root, p, pa, n, user) != Full
    ensures var r := MapMany(vm, root, p, pa, n, user);
            r.Mapped? && RangeMapped(vm.mem, r.vm.mem, root, p[..2], PagePosition(p), pa, n, user)
            <==> StaysInside(p, n) && NothingToLose(vm.mem, root, p, pa, n, user)
  {
    hide TreeInv, Grows, Walk, MapMany, LeafAt, LastBound, LeavesWritten, RangeMapped, NothingToLose, RangeAndGap;
    InsideIsMapped(vm, own, kroot, root, p, pa, n, user);
    if MapMany(vm, root, p, pa, n, user).Mapped? {
      var own' := ManyTheorem(vm, own, kroot, root, p, pa, n, user);
      SameIffNothingLost(vm.mem, MapMany(vm, root, p, pa, n, user).vm.mem, root, p, pa, n, user);
    }
  }

  lemma SameIffNothingLost(mem: Memory, mem': Memory, root: nat, p: seq<nat>, pa: u64, n: nat, user: bool)
    requires |p| == 4 && p[3] < ENTRIES < p[3] + n && n < 0x8000_0000 && LastBound(p[3], n) <= ENTRIES
    requires RangeAndGap(mem, mem', root, p[..2], PagePosition(p), pa, LeavesWritten(p[3], n),
                         ENTRIES - LastBound(p[3], n), user)
    ensures RangeMapped(mem, mem', root, p[..2], PagePosition(p), pa, n, user)
            <==> NothingToLose(mem, root, p, pa, n, user)
  {
    hide Walk, LeafAt, LastBound, LeavesWritten;
    EndOfLast(p, n);
    var written, gap := LeavesWritten(p[3], n), ENTRIES - LastBound(p[3], n);
    forall q: seq<nat> | |q| == 4 && Indices(q)
      ensures PageMapped(mem, mem', root, p[..2], PagePosition(p), pa, n, 0, user, q) <==>
              (Behind(p, n, q) ==> Walk(mem, root, q) == if PagesLeft(p[3], n) / ENTRIES == p[3] then None
                                                         else Some(LeafAt(pa, PagePosition(q) - PagePosition(p), user)))
    {
      assert PageMapped(mem, mem', root, p[..2], PagePosition(p), pa, written, gap, user, q);
    }
  }

  lemma ReachableDirectory(vm: Vm, own: map<nat, Owner>, kroot: nat, root: nat, p: seq<nat>, pa: u64, user: bool)
    requires TreeInv(vm, own, kroot) && IsRoot(own, root) && |p| == 4 && Indices(p)
    requires own[root].user && p[0] != KERNEL_SLOT ==> user
    ensures MapPath(vm, root, p, pa, ENTRIES - p[3], user).Some? ==>
              Reach(MapPath(vm, root, p, pa, ENTRIES - p[3], user).value.mem, root, p[..2]).Some?
  {
    if MapPath(vm, root, p, pa, ENTRIES - p[3], user).Some? {
      hide TreeInv, Grows, Walk, MapPath;
      var own', pt := MapPathTheorem(vm, own, kroot, root, p, pa, ENTRIES - p[3], user);
      ReachPrefix(MapPath(vm, root, p, pa, ENTRIES - p[3], user).value.mem, root, p[..3], 2);
      assert p[..3][..2] == p[..2];
    }
  }

  /** Two tables worth of pages from the start of a table: a third table is mapped as well, whatever was there. */
  lemma RequestMissed(vm: Vm, own: map<nat, Owner>, kroot: nat, root: nat, p: seq<nat>, pa: u64, user: bool)
    requires TreeInv(vm, own, kroot) && IsRoot(own, root) && |p| == 4 && Indices(p) && p[3] == 0 && pa % PAGE_SIZE == 0
    requires own[root].user && p[0] != KERNEL_SLOT ==> user
    requires MapMany(vm, root, p, pa, 1024, user).Mapped?
    ensures RangeMapped(vm.mem, MapMany(vm, root, p, pa, 1024, user).vm.mem, root, p[..2], PagePosition(p), pa, 1536,
              user)
  {
    hide TreeInv, Grows, Walk, Reach, MapPath, MapMany, RangeAndGap;
    assert PagesLeft(0, 1024) == 512 && 512 / ENTRIES == 1;
    var own' := ManyTheorem(vm, own, kroot, root, p, pa, 1024, user);
  }

  /** The rest of a table and the next one, from index 1 on: the table behind is replaced by an empty one. */
  lemma TranslationsLost(vm: Vm, own: map<nat, Owner>, kroot: nat, root: nat, p: seq<nat>, pa: u64, user: bool,
                         q: seq<nat>)
    requires TreeInv(vm, own, kroot) && IsRoot(own, root) && |p| == 4 && Indices(p) && p[3] == 1 && pa % PAGE_SIZE == 0
    requires own[root].user && p[0] != KERNEL_SLOT ==> user
    requires MapMany(vm, root, p, pa, 1023, user).Mapped? && |q| == 4 && Indices(q) && q[..2] == p[..2]
    requires q[2] == p[2] + 2
    ensures Walk(MapMany(vm, root, p, pa, 1023, user).vm.mem, root, q).None?
  {
    hide TreeInv, Grows, Walk, Reach, MapPath, MapMany;
    assert PagesLeft(1, 1023) == 512 && 512 / ENTRIES == 1 && LastBound(1, 1023) == 0;
    var own' := ManyTheorem(vm, own, kroot, root, p, pa, 1023, user);
    assert PageMapped(vm.mem, MapMany(vm, root, p, pa, 1023, user).vm.mem, root, p[..2], PagePosition(p), pa, 1023, 512,
             user, q);
  }
}
