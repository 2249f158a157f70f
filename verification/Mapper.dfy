/** The page-table code on the machine's memory: the mapper, the walker and `kmalloc_stack`. */
module Mapper {
  import opened Basics
  import opened Allocator
  import opened Addresses
  import opened Paging
  import opened PageTree
  import opened Machine

  // ---------------------------------------------------------------- tables

  /** Where an existing table lies, seen from an entry that leads to it. */
  lemma TableInRange(vm: Vm, own: map<nat, Owner>, kroot: nat, t: nat, i: nat)
    requires TreeInv(vm, own, kroot) && IsTable(own, t) && i < ENTRIES
    ensures t < |vm.mem|
    ensures own[t].level >= 2 && Present(Word(vm.mem, t, i)) ==>
              var f := FrameOf(Word(vm.mem, t, i)); IsTable(own, f) && own[f].level == own[t].level - 1 && f < |vm.mem|
  {
    assert EntryOk(vm.mem, own, t, i);
  }

  /** A table that has just been allocated is in range and empty. */
  lemma NewTable(vm: Vm, t: nat, i: nat, user: bool)
    requires WellFormed(vm) && t < |vm.mem| && vm.pages[t].used == 1 && i < ENTRIES
    requires !Present(Word(vm.mem, t, i)) && EnsureTable(vm, t, i, user).Some?
    ensures var (vm', f) := EnsureTable(vm, t, i, user).value;
            && WellFormed(vm') && f < |vm'.mem| && vm'.pages[f].used == 1
            && (forall j :: 0 <= j < ENTRIES ==> Word(vm'.mem, f, j) == 0)
  {
    AllocOne(vm);
    var (vm', f) := EnsureTable(vm, t, i, user).value;
    assert f != t && vm'.mem[f] == ZeroFrame();
    assert forall g :: 0 <= g < |vm'.mem| ==> |vm'.mem[g]| == ENTRIES;
  }

  /** `alloc_pdpe`, `alloc_pde` and `alloc_pte`. */
  method AllocTable(m: Machine, t: nat, i: nat, user: bool) returns (f: nat)
    requires m.Valid() && t < |m.vm.mem| && i < ENTRIES && !Present(Word(m.vm.mem, t, i))
    requires EnsureTable(m.vm, t, i, user).Some?
    modifies m, m.words, m.pages
    ensures m.Valid() && Some((m.vm, f)) == EnsureTable(old(m.vm), t, i, user)
  {
    assert PagesFor(1) == 1;
    hide Kmalloc, ZeroFrames, PagesFor;
    f := m.Kmalloc(1);
    if user {
      m.Store(t, i, (f * PAGE_SIZE + 7) % WORD_LIMIT);
    } else {
      m.Store(t, i, (f * PAGE_SIZE + 3) % WORD_LIMIT);
    }
  }

  lemma EnsurePathUnfolds(vm: Vm, root: nat, p: seq<nat>, user: bool)
    requires |p| == 3 && EnsurePath(vm, root, p, user).Some?
    ensures EnsureTable(vm, root, p[0], user).Some?
    ensures var (vm1, t1) := EnsureTable(vm, root, p[0], user).value;
            && EnsureTable(vm1, t1, p[1], user).Some?
            && var (vm2, t2) := EnsureTable(vm1, t1, p[1], user).value;
            && EnsureTable(vm2, t2, p[2], user).Some?
            && EnsurePath(vm, root, p, user) == EnsureTable(vm2, t2, p[2], user)
  {
    assert p[..2][..1] == p[..1] && p[..1][..0] == [];
    assert EnsurePath(vm, root, p[..0], user) == Some((vm, root));
    assert EnsurePath(vm, root, p[..1], user) == EnsureTable(vm, root, p[0], user);
  }

  /** The descent of `init_map_virt_phys_addr`: below the first missing level everything is new. */
  method LeafTable(m: Machine, root: nat, p: seq<nat>, user: bool, ghost own: map<nat, Owner>, ghost kroot: nat)
    returns (pt: nat)
    requires m.Valid() && TreeInv(m.vm, own, kroot) && IsRoot(own, root) && |p| == 3 && Indices(p)
    requires EnsurePath(m.vm, root, p, user).Some?
    modifies m, m.words, m.pages
    ensures m.Valid() && Some((m.vm, pt)) == EnsurePath(old(m.vm), root, p, user)
  {
    hide EnsurePath, TreeInv, FrameOf, Present, Word, EnsureTable;
    EnsurePathUnfolds(m.vm, root, p, user);
    TableInRange(m.vm, own, kroot, root, p[0]);
    var e := m.Load(root, p[0]);
    var pdpt, pd: nat;
    if Present(e) {
      EnsurePresent(m.vm, root, p[0], user);
      pdpt := FrameOf(e);
      TableInRange(m.vm, own, kroot, pdpt, p[1]);
      e := m.Load(pdpt, p[1]);
      if Present(e) {
        EnsurePresent(m.vm, pdpt, p[1], user);
        pd := FrameOf(e);
        TableInRange(m.vm, own, kroot, pd, p[2]);
        e := m.Load(pd, p[2]);
        if Present(e) {
          EnsurePresent(m.vm, pd, p[2], user);
          pt := FrameOf(e);
        } else {
          pt := AllocTable(m, pd, p[2], user);
        }
      } else {
        UsedTable(m.vm, own, kroot, pdpt);
        NewTable(m.vm, pdpt, p[1], user);
        pd := AllocTable(m, pdpt, p[1], user);
        ZeroAbsent(m.vm.mem, pd, p[2]);
        pt := AllocTable(m, pd, p[2], user);
      }
    } else {
      UsedTable(m.vm, own, kroot, root);
      NewTable(m.vm, root, p[0], user);
      pdpt := AllocTable(m, root, p[0], user);
      ZeroAbsent(m.vm.mem, pdpt, p[1]);
      NewTable(m.vm, pdpt, p[1], user);
      pd := AllocTable(m, pdpt, p[1], user);
      ZeroAbsent(m.vm.mem, pd, p[2]);
      pt := AllocTable(m, pd, p[2], user);
    }
  }

  lemma EnsurePresent(vm: Vm, t: nat, i: nat, user: bool)
    requires Present(Word(vm.mem, t, i))
    ensures EnsureTable(vm, t, i, user) == Some((vm, FrameOf(Word(vm.mem, t, i))))
  {
  }

  lemma UsedTable(vm: Vm, own: map<nat, Owner>, kroot: nat, t: nat)
    requires TreeInv(vm, own, kroot) && IsTable(own, t)
    ensures WellFormed(vm) && t < |vm.mem| && t < |vm.pages| && vm.pages[t].used == 1
  {
  }

  lemma ZeroAbsent(mem: Memory, t: nat, i: nat)
    requires Word(mem, t, i) == 0
    ensures !Present(Word(mem, t, i))
  {
  }

  // ---------------------------------------------------------------- leaves

  lemma NextAddress(pa: u64, k: nat)
    ensures ((pa + k * PAGE_SIZE) % WORD_LIMIT + PAGE_SIZE) % WORD_LIMIT == (pa + (k + 1) * PAGE_SIZE) % WORD_LIMIT
  {
    var x := pa + k * PAGE_SIZE;
    var q, r := x / WORD_LIMIT, x % WORD_LIMIT;
    var c := (r + PAGE_SIZE) / WORD_LIMIT;
    Quotient(x + PAGE_SIZE, WORD_LIMIT, q + c, (r + PAGE_SIZE) % WORD_LIMIT);
  }

  lemma OneMoreLeaf(mem: Memory, t: nat, off: nat, pa: u64, k: nat, user: bool)
    requires t < |mem| && |mem[t]| == ENTRIES && off + k < ENTRIES
    ensures Put(WriteLeaves(mem, t, off, pa, k, user), t, off + k, LeafAt(pa, k, user)) ==
              WriteLeaves(mem, t, off, pa, k + 1, user)
  {
    hide LeafAt;
    var a := Put(WriteLeaves(mem, t, off, pa, k, user), t, off + k, LeafAt(pa, k, user));
    assert a[t] == LeafFrame(mem[t], off, pa, k + 1, user);
  }

  /** The loop over the leaf entries. */
  method WriteLeafLoop(m: Machine, t: nat, off: nat, pa: u64, n: nat, user: bool)
    requires m.Valid() && t < |m.vm.mem| && off + n <= ENTRIES
    modifies m, m.words
    ensures m.Valid() && m.vm == old(m.vm).(mem := WriteLeaves(old(m.vm).mem, t, off, pa, n, user))
  {
    hide WriteLeaves, LeafAt, Put;
    ghost var mem := m.vm.mem;
    NoLeaves(mem, t, off, pa, user);
    var phys := pa;
    for i := off to off + n
      invariant m.Valid() && m.vm == old(m.vm).(mem := WriteLeaves(mem, t, off, pa, i - off, user))
      invariant phys == (pa + (i - off) * PAGE_SIZE) % WORD_LIMIT
    {
      LeafIs(pa, i - off, user);
      if user {
        m.Store(t, i, phys - phys % PAGE_SIZE + 7);
      } else {
        m.Store(t, i, phys - phys % 4 + 3);
      }
      OneMoreLeaf(mem, t, off, pa, i - off, user);
      NextAddress(pa, i - off);
      phys := (phys + PAGE_SIZE) % WORD_LIMIT;
    }
  }

  lemma LeafIs(pa: u64, k: nat, user: bool)
    ensures var x := (pa + k * PAGE_SIZE) % WORD_LIMIT;
            LeafAt(pa, k, user) == if user then x - x % PAGE_SIZE + 7 else x - x % 4 + 3
  {
  }

  lemma NoLeaves(mem: Memory, t: nat, off: nat, pa: u64, user: bool)
    ensures WriteLeaves(mem, t, off, pa, 0, user) == mem
  {
    if t < |mem| {
      assert LeafFrame(mem[t], off, pa, 0, user) == mem[t];
    }
  }

  /** `init_map_virt_phys_addr` for pages that lie in one leaf table. */
  method InitMap(m: Machine, root: nat, va: u64, pa: u64, n: nat, user: bool, ghost own: map<nat, Owner>,
                 ghost kroot: nat)
    requires m.Valid() && TreeInv(m.vm, own, kroot) && IsRoot(own, root)
    requires own[root].user && Path(va)[0] != KERNEL_SLOT ==> user
    requires Path(va)[3] + n <= ENTRIES && MapRange(m.vm, root, va, pa, n, user).Some?
    modifies m, m.words, m.pages
    ensures m.Valid() && Some(m.vm) == MapRange(old(m.vm), root, va, pa, n, user)
  {
    hide EnsurePath, WriteLeaves, TreeInv;
    var p := [va / 0x80_0000_0000 % 512, va / 0x4000_0000 % 512, va / 0x20_0000 % 512, va / 0x1000 % 512];
    assert p == Path(va);
    hide Path;
    ghost var own' := EnsurePathTheorem(m.vm, own, kroot, root, p[..3], user);
    var pt := LeafTable(m, root, p[..3], user, own, kroot);
    UsedTable(m.vm, own', kroot, pt);
    WriteLeafLoop(m, pt, p[3], pa, n, user);
  }

  // ---------------------------------------------------------------- the walker

  lemma ReachStep(mem: Memory, root: nat, q: seq<nat>, k: nat)
    requires k < |q|
    ensures var up := Reach(mem, root, q[..k]);
            Reach(mem, root, q[..k + 1]) ==
              if up.Some? && Present(Word(mem, up.value, q[k])) then Some(FrameOf(Word(mem, up.value, q[k]))) else None
  {
    assert q[..k + 1][..k] == q[..k];
  }

  /** The levels that `walk_page_table` reads before the leaf; `None` when one is missing. */
  method Descend(m: Machine, root: nat, q: seq<nat>, ghost own: map<nat, Owner>,
                 ghost kroot: nat) returns (t: Option<nat>)
    requires m.Valid() && TreeInv(m.vm, own, kroot) && IsRoot(own, root) && |q| == 4 && Indices(q)
    ensures t == Reach(m.vm.mem, root, q[..3])
    ensures t.Some? ==> t.value < |m.vm.mem|
  {
    hide TreeInv, FrameOf, Present, Word, Reach;
    ReachStart(m.vm.mem, root, q);
    var at := root;
    var k := 0;
    TableInRange(m.vm, own, kroot, root, q[0]);
    while k < 3
      invariant 0 <= k <= 3 && Reach(m.vm.mem, root, q[..k]) == Some(at)
      invariant IsTable(own, at) && own[at].level == 4 - k && at < |m.vm.mem|
    {
      var e := m.Load(at, q[k]);
      TableInRange(m.vm, own, kroot, at, q[k]);
      ReachStep(m.vm.mem, root, q, k);
      if !Present(e) {
        MissingAbove(m.vm.mem, root, q, k + 1);
        return None;
      }
      at := FrameOf(e);
      k := k + 1;
    }
    return Some(at);
  }

  lemma ReachStart(mem: Memory, root: nat, q: seq<nat>)
    ensures Reach(mem, root, q[..0]) == Some(root)
  {
    assert q[..0] == [];
  }

  lemma {:induction false} MissingAbove(mem: Memory, root: nat, q: seq<nat>, k: nat)
    requires |q| == 4 && k <= 3 && Reach(mem, root, q[..k]).None?
    ensures Reach(mem, root, q[..3]).None?
    decreases 3 - k
  {
    if k < 3 {
      ReachStep(mem, root, q, k);
      MissingAbove(mem, root, q, k + 1);
    }
  }

  /** `walk_page_table`. */
  method WalkTables(m: Machine, root: nat, va: u64, ghost own: map<nat, Owner>, ghost kroot: nat) returns (r: u64)
    requires m.Valid() && TreeInv(m.vm, own, kroot) && IsRoot(own, root)
    ensures r == WalkPageTable(m.vm.mem, root, va)
  {
    hide TreeInv, Reach, Word;
    var p := [va / 0x80_0000_0000 % 512, va / 0x4000_0000 % 512, va / 0x20_0000 % 512, va / 0x1000 % 512];
    assert p == Path(va);
    hide Path;
    var t := Descend(m, root, p, own, kroot);
    if t.None? {
      r := WORD_LIMIT - 1;
    } else {
      var e := m.Load(t.value, p[3]);
      r := e - e % PAGE_SIZE;
    }
  }

  /** The translation the processor makes, with the leaf's present bit. */
  method Translate(m: Machine, root: nat, q: seq<nat>, ghost own: map<nat, Owner>,
                   ghost kroot: nat) returns (r: Option<u64>)
    requires m.Valid() && TreeInv(m.vm, own, kroot) && IsRoot(own, root) && |q| == 4 && Indices(q)
    ensures r == Walk(m.vm.mem, root, q)
  {
    hide TreeInv, Reach, Word;
    var t := Descend(m, root, q, own, kroot);
    if t.None? {
      r := None;
    } else {
      var e := m.Load(t.value, q[3]);
      r := if e % 2 == 1 then Some(e) else None;
    }
  }
}
