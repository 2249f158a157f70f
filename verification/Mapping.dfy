/** Consequences of the mapping theorem in terms of addresses, sharing and access rights. */
module Mapping {
  import opened Basics
  import opened Allocator
  import opened Addresses
  import opened Paging
  import opened PageTree

  lemma NoCarry(w: nat, i: nat, m: nat)
    requires w < 512 * m && w % 512 + i < 512
    ensures w + i < 512 * m
  {
    assert w / 512 <= m - 1;
  }

  lemma PageStep(va: u64, i: nat)
    requires Path(va)[3] + i < ENTRIES
    ensures va + i * PAGE_SIZE < WORD_LIMIT
    ensures PageOf(va + i * PAGE_SIZE) == PageOf(va) + i
    ensures Path(va + i * PAGE_SIZE) == Path(va)[..3] + [Path(va)[3] + i]
  {
    var w, off, v := va / 4096, va % 4096, PageOf(va);
    PathIsDigits(va);
    NoCarry(w, i, 0x800_0000_0000);
    NoCarry(v, i, 0x800_0000);
    Quotient(va + i * 4096, 4096, w + i, off);
    Quotient(w + i, 0x10_0000_0000, w / 0x10_0000_0000, v + i);
    PathIsDigits(va + i * 4096);
    DigitsStep(v, i);
  }

  lemma MapPathTranslates(vm: Vm, own: map<nat, Owner>, kroot: nat, root: nat, p: seq<nat>, pa: u64, n: nat, user: bool,
                          i: nat)
    requires TreeInv(vm, own, kroot) && IsRoot(own, root) && |p| == 4 && Indices(p)
    requires own[root].user && p[0] != KERNEL_SLOT ==> user
    requires p[3] + n <= ENTRIES && i < n
    requires MapPath(vm, root, p, pa, n, user).Some?
    ensures var mem' := MapPath(vm, root, p, pa, n, user).value.mem;
            Walk(mem', root, p[..3] + [p[3] + i]) == Some(LeafAt(pa, i, user))
  {
    hide TreeInv, Grows, MapPath, LeafAt, Reach;
    var own', pt := MapPathTheorem(vm, own, kroot, root, p, pa, n, user);
    var q := p[..3] + [p[3] + i];
    assert q[..3] == p[..3];
    assert WalkAfterMap(vm.mem, MapPath(vm, root, p, pa, n, user).value.mem, pt, p[3], pa, n, user, root, q);
  }

  lemma MapPathOthers(vm: Vm, own: map<nat, Owner>, kroot: nat, root: nat, p: seq<nat>, pa: u64, n: nat, user: bool,
                      r: nat, q: seq<nat>)
    requires TreeInv(vm, own, kroot) && IsRoot(own, root) && IsRoot(own, r) && |p| == |q| == 4 && Indices(p)
    requires Indices(q)
    requires own[root].user && p[0] != KERNEL_SLOT ==> user
    requires MapPath(vm, root, p, pa, n, user).Some?
    ensures var mem' := MapPath(vm, root, p, pa, n, user).value.mem;
            || (q[..3] == p[..3] && p[3] <= q[3] < p[3] + n && Reach(mem', r, p[..1]) == Reach(mem', root, p[..1]))
            || Walk(mem', r, q) == Walk(vm.mem, r, q)
  {
    hide TreeInv, Grows, MapPath, LeafAt, Walk, Reach;
    var own', pt := MapPathTheorem(vm, own, kroot, root, p, pa, n, user);
    var vm' := MapPath(vm, root, p, pa, n, user).value;
    GrowsKeepsRoots(vm, own, vm', own');
    assert WalkAfterMap(vm.mem, vm'.mem, pt, p[3], pa, n, user, r, q);
    if Reach(vm'.mem, r, q[..3]) == Some(pt) && p[3] <= q[3] < p[3] + n {
      PathUnique(vm', own', kroot, r, q[..3], root, p[..3]);
      assert q[..3][..1] == q[..1] && p[..3][..1] == p[..1] && q[0] == q[..3][0] == p[..3][0] == p[0];
    }
  }

  /** A present leaf is what `walk_page_table` returns the frame of. */
  lemma WalkerReadsLeaf(mem: Memory, root: nat, va: u64)
    requires Walk(mem, root, Path(va)).Some?
    ensures var e := Walk(mem, root, Path(va)).value; WalkPageTable(mem, root, va) == e - e % PAGE_SIZE
  {
  }

  /** -1 stands for a missing table and for nothing else; a page missing from its table is not told apart. */
  lemma WalkerMissesTable(mem: Memory, root: nat, va: u64)
    ensures WalkPageTable(mem, root, va) == 0xFFFF_FFFF_FFFF_FFFF <==> Reach(mem, root, Path(va)[..3]).None?
    ensures Reach(mem, root, Path(va)[..3]).Some? ==> WalkPageTable(mem, root, va) % PAGE_SIZE == 0
  {
    hide Path;
    var t := Reach(mem, root, Path(va)[..3]);
    if t.Some? {
      var e := Word(mem, t.value, Path(va)[3]);
      assert e - e % PAGE_SIZE == e / PAGE_SIZE * PAGE_SIZE;
    }
  }

  /** Page `i` of a mapped range translates to `pa + i * 4096`, as `walk_page_table` reads it. */
  lemma MapTranslates(vm: Vm, own: map<nat, Owner>, kroot: nat, root: nat, va: u64, pa: u64, n: nat, user: bool, i: nat)
    requires TreeInv(vm, own, kroot) && IsRoot(own, root)
    requires own[root].user && Path(va)[0] != KERNEL_SLOT ==> user
    requires Path(va)[3] + n <= ENTRIES && i < n
    requires MapRange(vm, root, va, pa, n, user).Some?
    ensures va + i * PAGE_SIZE < WORD_LIMIT
    ensures var mem' := MapRange(vm, root, va, pa, n, user).value.mem;
            var target := (pa + i * PAGE_SIZE) % WORD_LIMIT;
            && Walk(mem', root, Path(va + i * PAGE_SIZE)) == Some(LeafEntry(target, user))
            && WalkPageTable(mem', root, va + i * PAGE_SIZE) == target - target % PAGE_SIZE
  {
    MapPathTranslates(vm, own, kroot, root, Path(va), pa, n, user, i);
    PageStep(va, i);
    WalkerReadsLeaf(MapRange(vm, root, va, pa, n, user).value.mem, root, va + i * PAGE_SIZE);
    LeafEntryFields((pa + i * PAGE_SIZE) % WORD_LIMIT, user);
  }

  /**
   Under every root, every page outside the mapped range translates as before, and a page inside
   the range changes only under roots that share its slot.
   */
  lemma MapLeavesOthers(vm: Vm, own: map<nat, Owner>, kroot: nat, root: nat, va: u64, pa: u64, n: nat, user: bool,
                        r: nat, va': u64)
    requires TreeInv(vm, own, kroot) && IsRoot(own, root) && IsRoot(own, r)
    requires own[root].user && Path(va)[0] != KERNEL_SLOT ==> user
    requires Path(va)[3] + n <= ENTRIES
    requires MapRange(vm, root, va, pa, n, user).Some?
    ensures var mem' := MapRange(vm, root, va, pa, n, user).value.mem;
            || (PageOf(va) <= PageOf(va') < PageOf(va) + n
               && Reach(mem', r, Path(va)[..1]) == Reach(mem', root, Path(va)[..1]))
            || Walk(mem', r, Path(va')) == Walk(vm.mem, r, Path(va'))
  {
    MapPathOthers(vm, own, kroot, root, Path(va), pa, n, user, r, Path(va'));
    SamePathInRange(va, n, va');
  }

  lemma SamePathInRange(va: u64, n: nat, va': u64)
    requires Path(va)[3] + n <= ENTRIES
    ensures Path(va')[..3] == Path(va)[..3] && Path(va)[3] <= Path(va')[3] < Path(va)[3] + n <==>
            PageOf(va) <= PageOf(va') < PageOf(va) + n
  {
    var p, q := Path(va), Path(va');
    if q[..3] == p[..3] && p[3] <= q[3] < p[3] + n {
      SameLeafTable(va, va', q[3] - p[3]);
    }
    if PageOf(va) <= PageOf(va') < PageOf(va) + n {
      SameLeafTable(va, va', PageOf(va') - PageOf(va));
    }
  }

  lemma SameLeafTable(va: u64, va': u64, i: nat)
    requires Path(va)[3] + i < ENTRIES
    ensures Path(va') == Path(va)[..3] + [Path(va)[3] + i] <==> PageOf(va') == PageOf(va) + i
  {
    PageStep(va, i);
    PathIsDigits(va');
    PathIsDigits(va + i * PAGE_SIZE);
    DigitsInjective(PageOf(va'), PageOf(va + i * PAGE_SIZE));
  }

  // ---------------------------------------------------------------- sharing

  lemma {:induction false} SharedSlotReach(mem: Memory, r1: nat, r2: nat, p: seq<nat>)
    requires p != [] && Word(mem, r1, p[0]) == Word(mem, r2, p[0])
    ensures Reach(mem, r1, p) == Reach(mem, r2, p)
    decreases |p|
  {
    var k := |p| - 1;
    if k == 0 {
      assert p[..0] == [];
    } else {
      SharedSlotReach(mem, r1, r2, p[..k]);
    }
  }

  /** Two roots with the same entry in a slot agree on every translation in that slot. */
  lemma SharedSlotAgrees(mem: Memory, r1: nat, r2: nat, q: seq<nat>)
    requires |q| == 4 && Word(mem, r1, q[0]) == Word(mem, r2, q[0])
    ensures Walk(mem, r1, q) == Walk(mem, r2, q)
  {
    SharedSlotReach(mem, r1, r2, q[..3]);
  }

  // ---------------------------------------------------------------- access rights

  /** The entry that a walk along `q` uses at level `4 - k`. */
  function EntryAt(mem: Memory, root: nat, q: seq<nat>, k: nat): u64
    requires k < |q|
  {
    var t := Reach(mem, root, q[..k]);
    if t.None? then 0 else Word(mem, t.value, q[k])
  }

  /** Rights combine over all four levels (Intel SDM volume 3A, section 4.6.1). */
  ghost predicate UserMayAccess(mem: Memory, root: nat, q: seq<nat>)
    requires |q| == 4
  {
    Walk(mem, root, q).Some? && forall k :: 0 <= k < 4 ==> UserBit(EntryAt(mem, root, q, k))
  }

  ghost predicate UserMayWrite(mem: Memory, root: nat, q: seq<nat>)
    requires |q| == 4
  {
    UserMayAccess(mem, root, q) && forall k :: 0 <= k < 4 ==> Writable(EntryAt(mem, root, q, k))
  }

  lemma {:induction false} ReachPrefix(mem: Memory, root: nat, p: seq<nat>, k: nat)
    requires k <= |p| && Reach(mem, root, p).Some?
    ensures Reach(mem, root, p[..k]).Some?
    decreases |p|
  {
    if k == |p| {
      assert p[..k] == p;
    } else {
      ReachPrefix(mem, root, p[..|p| - 1], k);
      assert p[..|p| - 1][..k] == p[..k];
    }
  }

  lemma {:induction false} UserTables(vm: Vm, own: map<nat, Owner>, kroot: nat, root: nat, p: seq<nat>)
    requires TreeInv(vm, own, kroot) && IsRoot(own, root) && own[root].user
    requires |p| <= 3 && Indices(p) && (p != [] ==> p[0] != KERNEL_SLOT)
    requires Reach(vm.mem, root, p).Some?
    ensures var t := Reach(vm.mem, root, p).value; IsTable(own, t) && own[t].user && own[t].level == 4 - |p|
    decreases |p|
  {
    ReachOwned(vm, own, kroot, root, p);
    if p != [] {
      ReachPrefix(vm.mem, root, p, |p| - 1);
      UserTables(vm, own, kroot, root, p[..|p| - 1]);
    }
  }

  /**
   In a process root a page that is present is open to user code, for writing too, exactly when it
   lies outside slot 511.
   */
  lemma RightsBySlot(vm: Vm, own: map<nat, Owner>, kroot: nat, root: nat, q: seq<nat>)
    requires TreeInv(vm, own, kroot) && IsRoot(own, root) && own[root].user
    requires |q| == 4 && Indices(q) && Walk(vm.mem, root, q).Some?
    ensures UserMayAccess(vm.mem, root, q) <==> q[0] != KERNEL_SLOT
    ensures UserMayWrite(vm.mem, root, q) <==> q[0] != KERNEL_SLOT
  {
    if q[0] == KERNEL_SLOT {
      assert q[..0] == [];
      assert !UserBit(EntryAt(vm.mem, root, q, 0));
    } else {
      forall k | 0 <= k < 4
        ensures UserBit(EntryAt(vm.mem, root, q, k)) && Writable(EntryAt(vm.mem, root, q, k))
      {
        ReachPrefix(vm.mem, root, q[..3], k);
        assert q[..3][..k] == q[..k];
        UserTables(vm, own, kroot, root, q[..k]);
        var t := Reach(vm.mem, root, q[..k]).value;
        assert EntryOk(vm.mem, own, t, q[k]);
        if k < 3 {
          ReachPrefix(vm.mem, root, q[..3], k + 1);
          assert q[..3][..k + 1] == q[..k + 1] && q[..k + 1][..k] == q[..k];
        }
      }
    }
  }
}
