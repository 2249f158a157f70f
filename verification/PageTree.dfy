/** The page-table tree: what mapping changes, what it leaves alone, and who may use the result. */
module PageTree {
  import opened Basics
  import opened Allocator
  import opened Addresses
  import opened Paging

  ghost predicate Indices(path: seq<nat>) {
    forall i :: 0 <= i < |path| ==> path[i] < ENTRIES
  }

  // ---------------------------------------------------------------- one path per table

  lemma {:induction false} ReachOwned(vm: Vm, own: map<nat, Owner>, kroot: nat, root: nat, path: seq<nat>)
    requires TreeInv(vm, own, kroot) && IsRoot(own, root)
    requires |path| <= 3 && Indices(path) && Reach(vm.mem, root, path).Some?
    ensures var t := Reach(vm.mem, root, path).value; IsTable(own, t) && own[t].level == 4 - |path|
    ensures path != [] ==>
              var up := Reach(vm.mem, root, path[..|path| - 1]).value;
              && IsTable(own, up) && own[up].level >= 2
              && own[Reach(vm.mem, root, path).value] == Below(own[up], up, path[|path| - 1])
    decreases |path|
  {
    if path != [] {
      var k := |path| - 1;
      ReachOwned(vm, own, kroot, root, path[..k]);
      assert EntryOk(vm.mem, own, Reach(vm.mem, root, path[..k]).value, path[k]);
    }
  }

  /** Each table frame is reached by exactly one path, whichever roots the walk starts from. */
  lemma {:induction false} PathUnique(vm: Vm, own: map<nat, Owner>, kroot: nat, r1: nat, p1: seq<nat>, r2: nat,
                                      p2: seq<nat>)
    requires TreeInv(vm, own, kroot) && IsRoot(own, r1) && IsRoot(own, r2)
    requires |p1| <= 3 && |p2| <= 3 && Indices(p1) && Indices(p2)
    requires Reach(vm.mem, r1, p1).Some? && Reach(vm.mem, r1, p1) == Reach(vm.mem, r2, p2)
    ensures p1 == p2
    ensures forall k :: 1 <= k <= |p1| ==> Reach(vm.mem, r1, p1[..k]) == Reach(vm.mem, r2, p2[..k])
    decreases |p1|
  {
    ReachOwned(vm, own, kroot, r1, p1);
    ReachOwned(vm, own, kroot, r2, p2);
    var k := |p1| - 1;
    if k >= 0 {
      assert p1 == p1[..k] + [p1[k]] && p2 == p2[..k] + [p2[k]];
      if k >= 1 {
        PathUnique(vm, own, kroot, r1, p1[..k], r2, p2[..k]);
        forall j | 1 <= j <= |p1| ensures Reach(vm.mem, r1, p1[..j]) == Reach(vm.mem, r2, p2[..j]) {
          if j <= k {
            assert p1[..k][..j] == p1[..j] && p2[..k][..j] == p2[..j];
          } else {
            assert p1[..j] == p1 && p2[..j] == p2;
          }
        }
      } else {
        assert p1[..1] == p1 && p2[..1] == p2;
      }
    }
  }

  // ---------------------------------------------------------------- creating a table

  /**
   Growth: nothing known is forgotten, frames in use stay in use, contents of frames that are not
   tables stay, and present entries of roots are never rewritten.
   */
  ghost predicate Grows(vm: Vm, own: map<nat, Owner>, vm': Vm, own': map<nat, Owner>) {
    && |vm'.mem| == |vm.mem| && |vm'.pages| == |vm.pages|
    && (forall f :: f in own ==> f in own' && own'[f] == own[f])
    && (forall f :: 0 <= f < |vm.pages| && vm.pages[f].used == 1 ==> vm'.pages[f].used == 1)
    && (forall f :: 0 <= f < |vm.mem| && f < |vm.pages| && vm.pages[f].used == 1 && !IsTable(own, f) ==>
          vm'.mem[f] == vm.mem[f])
    && (forall r, i :: IsRoot(own, r) && 0 <= i < ENTRIES && Present(Word(vm.mem, r, i)) ==>
                         Word(vm'.mem, r, i) == Word(vm.mem, r, i))
    && (forall f :: f in own' && f !in own ==> f < |vm.pages| && vm.pages[f].used == 0)
  }

  ghost function OwnAfterEnsure(vm: Vm, own: map<nat, Owner>, t: nat, i: nat, user: bool): map<nat, Owner>
    requires IsTable(own, t) && own[t].level >= 2
    requires EnsureTable(vm, t, i, user).Some?
  {
    if Present(Word(vm.mem, t, i)) then own
    else own[EnsureTable(vm, t, i, user).value.1 := Below(own[t], t, i)]
  }

  lemma TreeIsWellFormed(vm: Vm, own: map<nat, Owner>, kroot: nat)
    requires TreeInv(vm, own, kroot)
    ensures WellFormed(vm)
  {
  }

  /** One allocated page: it was free, and it is now used and zero. */
  lemma AllocOne(vm: Vm)
    requires WellFormed(vm) && AllocFrames(vm, 1).Some?
    ensures var (vm1, f) := AllocFrames(vm, 1).value;
            && WellFormed(vm1) && |vm1.mem| == |vm.mem| && f < |vm.mem|
            && vm.pages[f].used == 0 && vm1.pages[f].used == 1 && vm1.mem[f] == ZeroFrame()
            && (forall g :: 0 <= g < |vm.mem| && g != f ==> vm1.mem[g] == vm.mem[g] && vm1.pages[g] == vm.pages[g])
  {
    KmallocKeepsCountdown(vm.pages, 1);
    KmallocTakesAFreeRun(vm.pages, 1);
    var (vm1, f) := AllocFrames(vm, 1).value;
    forall g | 0 <= g < |vm1.mem| ensures |vm1.mem[g]| == ENTRIES {
      assert vm1.mem[g] == if g == f then ZeroFrame() else vm.mem[g];
    }
  }

  /** The invariant speaks only of table words and of which frames are in use. */
  lemma TreeInvOnTables(vm: Vm, own: map<nat, Owner>, kroot: nat, vm': Vm)
    requires TreeInv(vm, own, kroot) && WellFormed(vm') && |vm'.mem| == |vm.mem|
    requires forall f :: f in own ==> vm'.pages[f].used == 1
    requires forall t: nat :: IsTable(own, t) ==> vm'.mem[t] == vm.mem[t]
    ensures TreeInv(vm', own, kroot)
  {
    forall t, i | IsTable(own, t) && 0 <= i < ENTRIES
      ensures EntryOk(vm'.mem, own, t, i) && Word(vm'.mem, t, i) == Word(vm.mem, t, i)
    {
      assert EntryOk(vm.mem, own, t, i);
    }
    assert Word(vm'.mem, kroot, KERNEL_SLOT) == Word(vm.mem, kroot, KERNEL_SLOT);
  }

  /** Hanging a zeroed, unowned frame below an absent entry keeps the tree. */
  lemma LinkKeepsTree(vm: Vm, own: map<nat, Owner>, kroot: nat, t: nat, i: nat, f: nat, e: u64)
    requires TreeInv(vm, own, kroot) && IsTable(own, t) && own[t].level >= 2 && i < ENTRIES
    requires !Present(Word(vm.mem, t, i))
    requires f < |vm.mem| && f !in own && vm.pages[f].used == 1 && vm.mem[f] == ZeroFrame()
    requires Present(e) && FrameOf(e) == f && Writable(e) && (Below(own[t], t, i).user ==> UserBit(e))
    ensures TreeInv(Vm(Put(vm.mem, t, i, e), vm.pages), own[f := Below(own[t], t, i)], kroot)
  {
    var mem' := Put(vm.mem, t, i, e);
    var own' := own[f := Below(own[t], t, i)];
    forall u, j | IsTable(own', u) && 0 <= j < ENTRIES ensures EntryOk(mem', own', u, j) {
      if u == f {
        assert Word(mem', u, j) == 0;
      } else {
        assert EntryOk(vm.mem, own, u, j);
        assert u != t || j != i ==> Word(mem', u, j) == Word(vm.mem, u, j);
        assert Word(mem', t, i) == e;
      }
    }
    forall r | IsRoot(own', r) && own'[r].user
      ensures Word(mem', r, KERNEL_SLOT) == Word(mem', kroot, KERNEL_SLOT)
    {
      assert IsRoot(own, r) && own[r].user;
      assert Word(mem', r, KERNEL_SLOT) == Word(vm.mem, r, KERNEL_SLOT);
      assert Word(mem', kroot, KERNEL_SLOT) == Word(vm.mem, kroot, KERNEL_SLOT);
    }
    assert Word(mem', kroot, KERNEL_SLOT) == Word(vm.mem, kroot, KERNEL_SLOT);
    assert forall g :: 0 <= g < |mem'| ==> |mem'[g]| == |vm.mem[g]|;
  }

  lemma TableEntryFields(f: nat, user: bool)
    requires f < MAX_FRAMES
    ensures var e := TableEntry(f, user);
            Present(e) && Writable(e) && FrameOf(e) == f && (UserBit(e) <==> user)
  {
    FlagFields(f, if user then 7 else 3);
  }

  lemma FlagFields(f: nat, flags: nat)
    requires flags == 3 || flags == 7
    ensures var e := f * PAGE_SIZE + flags;
            e % 2 == 1 && e / 2 % 2 == 1 && (e / 4 % 2 == 1 <==> flags == 7) && e / PAGE_SIZE == f
  {
    var e, user := f * PAGE_SIZE + flags, if flags == 7 then 1 else 0;
    Quotient(e, PAGE_SIZE, f, flags);
    Quotient(e, 2, 2048 * f + 1 + 2 * user, 1);
    Quotient(2048 * f + 1 + 2 * user, 2, 1024 * f + user, 1);
    Quotient(e, 4, 1024 * f + user, 3);
    Quotient(1024 * f + user, 2, 512 * f, user);
  }

  lemma LinkGrows(vm: Vm, own: map<nat, Owner>, vm1: Vm, t: nat, i: nat, f: nat, e: u64)
    requires WellFormed(vm) && WellFormed(vm1) && |vm1.mem| == |vm.mem|
    requires forall f :: f in own ==> f < |vm.pages| && vm.pages[f].used == 1
    requires IsTable(own, t) && own[t].level >= 2 && i < ENTRIES && !Present(Word(vm.mem, t, i))
    requires f < |vm.mem| && vm.pages[f].used == 0
    requires forall g :: 0 <= g < |vm.mem| && g != f ==> vm1.mem[g] == vm.mem[g] && vm1.pages[g] == vm.pages[g]
    requires vm1.pages[f].used == 1
    ensures Grows(vm, own, Vm(Put(vm1.mem, t, i, e), vm1.pages), own[f := Below(own[t], t, i)])
  {
    var mem' := Put(vm1.mem, t, i, e);
    forall r, j | IsRoot(own, r) && 0 <= j < ENTRIES && Present(Word(vm.mem, r, j))
      ensures Word(mem', r, j) == Word(vm.mem, r, j)
    {
      assert r != f && (r != t || j != i);
    }
  }

  lemma EnsureTableKeepsTree(vm: Vm, own: map<nat, Owner>, kroot: nat, t: nat, i: nat, user: bool)
    requires TreeInv(vm, own, kroot) && IsTable(own, t) && own[t].level >= 2 && i < ENTRIES
    requires Below(own[t], t, i).user ==> user
    requires EnsureTable(vm, t, i, user).Some?
    ensures var (vm', f) := EnsureTable(vm, t, i, user).value;
            var own' := OwnAfterEnsure(vm, own, t, i, user);
            && TreeInv(vm', own', kroot) && Grows(vm, own, vm', own')
            && f in own' && own'[f] == Below(own[t], t, i)
            && Present(Word(vm'.mem, t, i)) && FrameOf(Word(vm'.mem, t, i)) == f
  {
    if Present(Word(vm.mem, t, i)) {
      assert EntryOk(vm.mem, own, t, i);
    } else {
      NewTableKeepsTree(vm, own, kroot, t, i, user);
    }
  }

  lemma NewTableKeepsTree(vm: Vm, own: map<nat, Owner>, kroot: nat, t: nat, i: nat, user: bool)
    requires TreeInv(vm, own, kroot) && IsTable(own, t) && own[t].level >= 2 && i < ENTRIES
    requires !Present(Word(vm.mem, t, i))
    requires (Below(own[t], t, i).user ==> user) && AllocFrames(vm, 1).Some?
    ensures var (vm1, f) := AllocFrames(vm, 1).value;
            var vm' := Vm(Put(vm1.mem, t, i, TableEntry(f, user)), vm1.pages);
            && TreeInv(vm', own[f := Below(own[t], t, i)], kroot) && Grows(vm, own, vm', own[f := Below(own[t], t, i)])
            && Word(vm'.mem, t, i) == TableEntry(f, user) && Present(TableEntry(f, user))
            && FrameOf(TableEntry(f, user)) == f
  {
    hide AllocFrames, TableEntry, FrameOf, Present, Countdown;
    AllocOne(vm);
    var (vm1, f) := AllocFrames(vm, 1).value;
    TableEntryFields(f, user);
    TableFrames(vm, own, kroot, vm1, t, i, f);
    hide TreeInv;
    LinkKeepsTree(vm1, own, kroot, t, i, f, TableEntry(f, user));
    LinkGrows(vm, own, vm1, t, i, f, TableEntry(f, user));
  }

  /** Allocating a page touches no table and no entry. */
  lemma TableFrames(vm: Vm, own: map<nat, Owner>, kroot: nat, vm1: Vm, t: nat, i: nat, f: nat)
    requires TreeInv(vm, own, kroot) && IsTable(own, t) && i < ENTRIES && WellFormed(vm1) && |vm1.mem| == |vm.mem|
    requires f < |vm.mem| && vm.pages[f].used == 0
    requires forall g :: 0 <= g < |vm.mem| && g != f ==> vm1.mem[g] == vm.mem[g] && vm1.pages[g] == vm.pages[g]
    ensures f !in own && t != f && t < |vm.mem| && |vm1.mem[t]| == ENTRIES && TreeInv(vm1, own, kroot)
    ensures Word(vm1.mem, t, i) == Word(vm.mem, t, i)
    ensures forall f :: f in own ==> f < |vm.pages| && vm.pages[f].used == 1
  {
    hide Countdown;
    TreeInvOnTables(vm, own, kroot, vm1);
  }

  // ---------------------------------------------------------------- walks while tables are created

  /** From `mem` to `mem'` the empty frame `f` was hung below entry `i` of table `t`. */
  ghost predicate Linked(mem: Memory, mem': Memory, own: map<nat, Owner>, t: nat, i: nat, f: nat) {
    && f !in own && !Present(Word(mem, t, i))
    && Present(Word(mem', t, i)) && FrameOf(Word(mem', t, i)) == f
    && (forall j :: 0 <= j < ENTRIES ==> !Present(Word(mem', f, j)))
    && (forall u, j :: IsTable(own, u) && 0 <= j < ENTRIES && (u != t || j != i) ==>
          Word(mem', u, j) == Word(mem, u, j))
  }

  lemma EnsureLinks(vm: Vm, own: map<nat, Owner>, kroot: nat, t: nat, i: nat, user: bool)
    requires TreeInv(vm, own, kroot) && IsTable(own, t) && i < ENTRIES
    requires EnsureTable(vm, t, i, user).Some? && !Present(Word(vm.mem, t, i))
    ensures var (vm', f) := EnsureTable(vm, t, i, user).value; Linked(vm.mem, vm'.mem, own, t, i, f)
  {
    AllocOne(vm);
    var (vm', f) := EnsureTable(vm, t, i, user).value;
    TableEntryFields(f, user);
    assert Word(vm'.mem, t, i) == TableEntry(f, user);
    forall u, j | IsTable(own, u) && 0 <= j < ENTRIES && (u != t || j != i)
      ensures Word(vm'.mem, u, j) == Word(vm.mem, u, j)
    {
      assert u != f;
    }
    assert forall j :: 0 <= j < ENTRIES ==> Word(vm'.mem, f, j) == 0;
  }

  lemma {:induction false} LinkReach(vm: Vm, own: map<nat, Owner>, kroot: nat, mem': Memory, t: nat, i: nat, f: nat,
                                     r: nat, p: seq<nat>)
    requires TreeInv(vm, own, kroot) && Linked(vm.mem, mem', own, t, i, f)
    requires IsRoot(own, r) && |p| <= 3 && Indices(p)
    ensures || Reach(mem', r, p) == Reach(vm.mem, r, p)
            || (Reach(vm.mem, r, p).None? && Reach(mem', r, p) == Some(f))
    decreases |p|
  {
    hide TreeInv, FrameOf, Present, Word;
    if p != [] {
      var k := |p| - 1;
      LinkReach(vm, own, kroot, mem', t, i, f, r, p[..k]);
      if Reach(vm.mem, r, p[..k]).Some? {
        ReachOwned(vm, own, kroot, r, p[..k]);
      }
    }
  }

  /** Creating a table changes no translation under any root: the new table is empty. */
  lemma EnsureWalk(vm: Vm, own: map<nat, Owner>, kroot: nat, t: nat, i: nat, user: bool, r: nat, q: seq<nat>)
    requires TreeInv(vm, own, kroot) && IsTable(own, t) && own[t].level >= 2 && i < ENTRIES
    requires EnsureTable(vm, t, i, user).Some?
    requires IsRoot(own, r) && |q| == 4 && Indices(q)
    ensures Walk(EnsureTable(vm, t, i, user).value.0.mem, r, q) == Walk(vm.mem, r, q)
  {
    hide TreeInv, FrameOf, Present, Word, Reach;
    var (vm', f) := EnsureTable(vm, t, i, user).value;
    if !Present(Word(vm.mem, t, i)) {
      EnsureLinks(vm, own, kroot, t, i, user);
      LinkReach(vm, own, kroot, vm'.mem, t, i, f, r, q[..3]);
      if Reach(vm.mem, r, q[..3]).Some? {
        ReachOwned(vm, own, kroot, r, q[..3]);
      }
    }
  }

  // ---------------------------------------------------------------- writing leaves

  lemma LeafEntryFields(pa: u64, user: bool)
    ensures var e := LeafEntry(pa, user);
            && Present(e) && Writable(e) && (user ==> UserBit(e))
            && e - e % PAGE_SIZE == pa - pa % PAGE_SIZE && FrameOf(e) == pa / PAGE_SIZE
  {
    var q, m := pa / 4096, pa % 4096;
    Quotient(pa, 4, 1024 * q + m / 4, m % 4);
    var low := if user then 7 else 4 * (m / 4) + 3;
    FlagBits(LeafEntry(pa, user), q, low);
  }

  lemma FlagBits(e: u64, q: nat, low: nat)
    requires low < 4096 && e == q * 4096 + low
    ensures e % 2 == low % 2 && e / 2 % 2 == low / 2 % 2 && e / 4 % 2 == low / 4 % 2
    ensures e / 4096 == q && e % 4096 == low
  {
    Quotient(e, 4096, q, low);
    Quotient(e, 2, 2048 * q + low / 2, low % 2);
    Quotient(e, 4, 1024 * q + low / 4, low % 4);
    Quotient(e / 2, 2, 1024 * q + low / 2 / 2, low / 2 % 2);
    Quotient(e / 4, 2, 512 * q + low / 4 / 2, low / 4 % 2);
  }

  lemma LowBits(other: nat, flags: nat)
    requires flags < 8
    ensures var low := 8 * other + flags;
            low % 2 == flags % 2 && low / 2 % 2 == flags / 2 % 2 && low / 4 % 2 == flags / 4
  {
    var low := 8 * other + flags;
    Quotient(low, 2, 4 * other + flags / 2, flags % 2);
    Quotient(low, 4, 2 * other + flags / 4, flags % 4);
    Quotient(4 * other + flags / 2, 2, 2 * other + flags / 4, flags / 2 % 2);
    Quotient(2 * other + flags / 4, 2, other, flags / 4);
  }

  /** An entry built from a frame and flags reads back as that frame and those flags, each in its own bit. */
  lemma EntryReadsBack(frame: nat, other: nat, user: bool, write: bool, present: bool)
    requires frame < 0x10_0000_0000_0000 && other < 512
    ensures var flags := (if user then 4 else 0) + (if write then 2 else 0) + if present then 1 else 0;
            var e := 4096 * frame + 8 * other + flags;
            && 0 <= e < WORD_LIMIT && FrameOf(e) == frame
            && (UserBit(e) <==> user) && (Writable(e) <==> write) && (Present(e) <==> present)
  {
    var flags := (if user then 4 else 0) + (if write then 2 else 0) + if present then 1 else 0;
    LowBits(other, flags);
    FlagBits(4096 * frame + 8 * other + flags, frame, 8 * other + flags);
  }

  lemma LeavesKeepTree(vm: Vm, own: map<nat, Owner>, kroot: nat, t: nat, off: nat, pa: u64, n: nat, user: bool)
    requires TreeInv(vm, own, kroot) && IsTable(own, t) && own[t].level == 1
    requires own[t].user ==> user
    ensures var vm' := Vm(WriteLeaves(vm.mem, t, off, pa, n, user), vm.pages);
            TreeInv(vm', own, kroot) && Grows(vm, own, vm', own)
  {
    var mem' := WriteLeaves(vm.mem, t, off, pa, n, user);
    forall u, j | IsTable(own, u) && 0 <= j < ENTRIES ensures EntryOk(mem', own, u, j) {
      assert EntryOk(vm.mem, own, u, j);
      if u == t {
        LeafEntryFields((pa + (if off <= j then j - off else 0) * PAGE_SIZE) % WORD_LIMIT, user);
      } else {
        assert Word(mem', u, j) == Word(vm.mem, u, j);
      }
    }
    assert forall r, j :: IsRoot(own, r) && 0 <= j < ENTRIES ==> Word(mem', r, j) == Word(vm.mem, r, j);
    assert Word(mem', kroot, KERNEL_SLOT) == Word(vm.mem, kroot, KERNEL_SLOT);
  }

  lemma {:induction false} LeavesReach(vm: Vm, own: map<nat, Owner>, kroot: nat, t: nat, off: nat, pa: u64, n: nat,
                                       user: bool, r: nat, p: seq<nat>)
    requires TreeInv(vm, own, kroot) && IsTable(own, t) && own[t].level == 1
    requires IsRoot(own, r) && |p| <= 3 && Indices(p)
    ensures Reach(WriteLeaves(vm.mem, t, off, pa, n, user), r, p) == Reach(vm.mem, r, p)
    decreases |p|
  {
    if p != [] {
      var k := |p| - 1;
      LeavesReach(vm, own, kroot, t, off, pa, n, user, r, p[..k]);
      if Reach(vm.mem, r, p[..k]).Some? {
        ReachOwned(vm, own, kroot, r, p[..k]);
      }
    }
  }

  lemma LeavesWalk(vm: Vm, own: map<nat, Owner>, kroot: nat, t: nat, off: nat, pa: u64, n: nat, user: bool, r: nat,
                   q: seq<nat>)
    requires TreeInv(vm, own, kroot) && IsTable(own, t) && own[t].level == 1
    requires IsRoot(own, r) && |q| == 4 && Indices(q)
    ensures var mem' := WriteLeaves(vm.mem, t, off, pa, n, user);
            Walk(mem', r, q) ==
              if Reach(vm.mem, r, q[..3]) == Some(t) && off <= q[3] < off + n
              then Some(LeafAt(pa, q[3] - off, user)) else Walk(vm.mem, r, q)
  {
    LeavesReach(vm, own, kroot, t, off, pa, n, user, r, q[..3]);
    if Reach(vm.mem, r, q[..3]).Some? {
      ReachOwned(vm, own, kroot, r, q[..3]);
      if off <= q[3] < off + n {
        LeafEntryFields((pa + (q[3] - off) * PAGE_SIZE) % WORD_LIMIT, user);
      }
    }
  }

  // ---------------------------------------------------------------- the mapping theorem

  lemma GrowsTrans(a: Vm, owna: map<nat, Owner>, b: Vm, ownb: map<nat, Owner>, c: Vm, ownc: map<nat, Owner>)
    requires WellFormed(a) && WellFormed(b) && WellFormed(c)
    requires Grows(a, owna, b, ownb) && Grows(b, ownb, c, ownc)
    ensures Grows(a, owna, c, ownc)
  {
    forall f | 0 <= f < |a.mem| && f < |a.pages| && a.pages[f].used == 1 && !IsTable(owna, f)
      ensures c.mem[f] == a.mem[f]
    {
      assert !IsTable(ownb, f);
    }
    forall f | f in ownc && f !in owna ensures f < |a.pages| && a.pages[f].used == 0 {
      assert f < |a.pages| && Counts(a.pages, f);
    }
    forall r, i | IsRoot(owna, r) && 0 <= i < ENTRIES && Present(Word(a.mem, r, i))
      ensures Word(c.mem, r, i) == Word(a.mem, r, i)
    {
      assert IsRoot(ownb, r) && Word(b.mem, r, i) == Word(a.mem, r, i);
    }
  }

  /** Growth composes. */
  lemma GrowsTree(a: Vm, owna: map<nat, Owner>, b: Vm, ownb: map<nat, Owner>, c: Vm, ownc: map<nat, Owner>, kroot: nat)
    requires TreeInv(a, owna, kroot) && TreeInv(b, ownb, kroot) && TreeInv(c, ownc, kroot)
    requires Grows(a, owna, b, ownb) && Grows(b, ownb, c, ownc)
    ensures Grows(a, owna, c, ownc)
  {
    GrowsTrans(a, owna, b, ownb, c, ownc);
  }

  lemma GrowsKeepsRoots(vm: Vm, own: map<nat, Owner>, vm': Vm, own': map<nat, Owner>)
    requires Grows(vm, own, vm', own')
    ensures forall t :: IsTable(own, t) ==> IsTable(own', t) && own'[t] == own[t]
    ensures forall r :: IsRoot(own, r) ==> IsRoot(own', r)
  {
  }

  /** A frame in use that no table owns is left alone by growth. */
  lemma GrowsKeepsFrame(vm: Vm, own: map<nat, Owner>, vm': Vm, own': map<nat, Owner>, f: nat)
    requires Grows(vm, own, vm', own') && f < |vm.mem| && f < |vm.pages| && vm.pages[f].used == 1 && !IsTable(own, f)
    ensures f < |vm'.mem| && f < |vm'.pages| && vm'.mem[f] == vm.mem[f] && vm'.pages[f].used == 1
    ensures f !in own ==> f !in own'
  {
  }

  /** No translation under the roots in `own` changes from `mem` to `mem'`. */
  ghost predicate SameWalks(own: map<nat, Owner>, mem: Memory, mem': Memory) {
    forall r: nat, q: seq<nat> :: IsRoot(own, r) && |q| == 4 && Indices(q) ==> Walk(mem', r, q) == Walk(mem, r, q)
  }

  lemma SameWalksTrans(own: map<nat, Owner>, own1: map<nat, Owner>, m1: Memory, m2: Memory, m3: Memory)
    requires SameWalks(own, m1, m2) && SameWalks(own1, m2, m3)
    requires forall r :: IsRoot(own, r) ==> IsRoot(own1, r)
    ensures SameWalks(own, m1, m3)
  {
    hide Walk;
    forall r: nat, q: seq<nat> | IsRoot(own, r) && |q| == 4 && Indices(q) ensures Walk(m3, r, q) == Walk(m1, r, q) {
      assert Walk(m2, r, q) == Walk(m1, r, q) && IsRoot(own1, r);
    }
  }

  lemma {:induction false} ReachOnTables(vm: Vm, own: map<nat, Owner>, kroot: nat, mem': Memory, r: nat, p: seq<nat>)
    requires TreeInv(vm, own, kroot) && IsRoot(own, r) && |p| <= 3 && Indices(p)
    requires forall t, i :: IsTable(own, t) && 0 <= i < ENTRIES ==> Word(mem', t, i) == Word(vm.mem, t, i)
    ensures Reach(mem', r, p) == Reach(vm.mem, r, p)
    decreases |p|
  {
    if p != [] {
      ReachOnTables(vm, own, kroot, mem', r, p[..|p| - 1]);
      if Reach(vm.mem, r, p[..|p| - 1]).Some? {
        ReachOwned(vm, own, kroot, r, p[..|p| - 1]);
      }
    }
  }

  lemma WalksOnTables(vm: Vm, own: map<nat, Owner>, kroot: nat, mem': Memory)
    requires TreeInv(vm, own, kroot)
    requires forall t, i :: IsTable(own, t) && 0 <= i < ENTRIES ==> Word(mem', t, i) == Word(vm.mem, t, i)
    ensures SameWalks(own, vm.mem, mem')
  {
    forall r: nat, q: seq<nat> | IsRoot(own, r) && |q| == 4 && Indices(q)
      ensures Walk(mem', r, q) == Walk(vm.mem, r, q)
    {
      ReachOnTables(vm, own, kroot, mem', r, q[..3]);
      if Reach(vm.mem, r, q[..3]).Some? {
        ReachOwned(vm, own, kroot, r, q[..3]);
      }
    }
  }

  lemma EnsureStep(vm: Vm, own: map<nat, Owner>, kroot: nat, root: nat, p: seq<nat>, i: nat, user: bool)
    returns (own': map<nat, Owner>)
    requires TreeInv(vm, own, kroot) && IsRoot(own, root)
    requires |p| <= 2 && Indices(p) && i < ENTRIES && Reach(vm.mem, root, p).Some?
    requires var t := Reach(vm.mem, root, p).value;
             IsTable(own, t) && own[t].level == 4 - |p| && (Below(own[t], t, i).user ==> user)
    requires EnsureTable(vm, Reach(vm.mem, root, p).value, i, user).Some?
    ensures var t := Reach(vm.mem, root, p).value;
            var (vm', f) := EnsureTable(vm, t, i, user).value;
            && TreeInv(vm', own', kroot) && Grows(vm, own, vm', own') && SameWalks(own, vm.mem, vm'.mem)
            && Reach(vm'.mem, root, p + [i]) == Some(f)
            && IsTable(own', f) && own'[f] == Below(own[t], t, i)
  {
    var t := Reach(vm.mem, root, p).value;
    var (vm', f) := EnsureTable(vm, t, i, user).value;
    own' := OwnAfterEnsure(vm, own, t, i, user);
    hide TreeInv, AllocFrames, Walk, Grows, FrameOf, Present;
    EnsureTableKeepsTree(vm, own, kroot, t, i, user);
    forall r: nat, q: seq<nat> | IsRoot(own, r) && |q| == 4 && Indices(q)
      ensures Walk(vm'.mem, r, q) == Walk(vm.mem, r, q)
    {
      EnsureWalk(vm, own, kroot, t, i, user, r, q);
    }
    if !Present(Word(vm.mem, t, i)) {
      EnsureLinks(vm, own, kroot, t, i, user);
      LinkReach(vm, own, kroot, vm'.mem, t, i, f, root, p);
    }
    assert (p + [i])[..|p|] == p;
  }

  /** How mapping changes the walk along `q` from root `r`; `pt` is the leaf table it wrote. */
  ghost predicate WalkAfterMap(mem: Memory, mem': Memory, pt: nat, off: nat, pa: u64, n: nat, user: bool, r: nat,
                               q: seq<nat>)
    requires |q| == 4
  {
    Walk(mem', r, q) ==
      if Reach(mem', r, q[..3]) == Some(pt) && off <= q[3] < off + n
      then Some(LeafAt(pa, q[3] - off, user)) else Walk(mem, r, q)
  }

  lemma {:induction false} EnsurePathTheorem(vm: Vm, own: map<nat, Owner>, kroot: nat, root: nat, p: seq<nat>,
                                             user: bool)
    returns (own': map<nat, Owner>)
    requires TreeInv(vm, own, kroot) && IsRoot(own, root)
    requires |p| <= 3 && Indices(p)
    requires p != [] && own[root].user && p[0] != KERNEL_SLOT ==> user
    requires EnsurePath(vm, root, p, user).Some?
    ensures var (vm', t) := EnsurePath(vm, root, p, user).value;
            && TreeInv(vm', own', kroot) && Grows(vm, own, vm', own') && SameWalks(own, vm.mem, vm'.mem)
            && Reach(vm'.mem, root, p) == Some(t)
            && IsTable(own', t) && own'[t].level == 4 - |p| && (p != [] && own'[t].user ==> user)
    decreases |p|
  {
    hide TreeInv, Grows, SameWalks, EnsureTable, Reach;
    if p == [] {
      own' := own;
      PathBase(vm, own, kroot, root);
    } else {
      var k := |p| - 1;
      var up := EnsurePathTheorem(vm, own, kroot, root, p[..k], user);
      var (vm1, t1) := EnsurePath(vm, root, p[..k], user).value;
      GrowsKeepsRoots(vm, own, vm1, up);
      own' := EnsureStep(vm1, up, kroot, root, p[..k], p[k], user);
      assert p == p[..k] + [p[k]];
      var (vm', t) := EnsurePath(vm, root, p, user).value;
      GrowsTree(vm, own, vm1, up, vm', own', kroot);
      SameWalksTrans(own, up, vm.mem, vm1.mem, vm'.mem);
    }
  }

  lemma PathBase(vm: Vm, own: map<nat, Owner>, kroot: nat, root: nat)
    requires TreeInv(vm, own, kroot) && IsRoot(own, root)
    ensures Reach(vm.mem, root, []) == Some(root) && Grows(vm, own, vm, own) && SameWalks(own, vm.mem, vm.mem)
  {
  }

  /**
   Mapping keeps the alias-free tree, grows it, and changes exactly the entries of the mapped
   pages: every other walk under every root, present or not, is the same before and after.
   */
  lemma MapPathTheorem(vm: Vm, own: map<nat, Owner>, kroot: nat, root: nat, p: seq<nat>, pa: u64, n: nat, user: bool)
    returns (own': map<nat, Owner>, pt: nat)
    requires TreeInv(vm, own, kroot) && IsRoot(own, root)
    requires |p| == 4 && Indices(p)
    requires own[root].user && p[0] != KERNEL_SLOT ==> user
    requires MapPath(vm, root, p, pa, n, user).Some?
    ensures var vm' := MapPath(vm, root, p, pa, n, user).value;
            && TreeInv(vm', own', kroot) && Grows(vm, own, vm', own')
            && IsTable(own', pt) && own'[pt].level == 1
            && Reach(vm'.mem, root, p[..3]) == Some(pt)
            && forall r: nat, q: seq<nat> :: IsRoot(own, r) && |q| == 4 && Indices(q) ==>
                 WalkAfterMap(vm.mem, vm'.mem, pt, p[3], pa, n, user, r, q)
  {
    hide TreeInv, Grows, EnsurePath, Reach, Walk, WriteLeaves;
    own' := EnsurePathTheorem(vm, own, kroot, root, p[..3], user);
    var vm3 := EnsurePath(vm, root, p[..3], user).value.0;
    pt := EnsurePath(vm, root, p[..3], user).value.1;
    var off := p[3];
    var vm' := MapPath(vm, root, p, pa, n, user).value;
    LeavesKeepTree(vm3, own', kroot, pt, off, pa, n, user);
    GrowsTree(vm, own, vm3, own', vm', own', kroot);
    GrowsKeepsRoots(vm, own, vm3, own');
    LeavesReach(vm3, own', kroot, pt, off, pa, n, user, root, p[..3]);
    forall r: nat, q: seq<nat> | IsRoot(own, r) && |q| == 4 && Indices(q)
      ensures WalkAfterMap(vm.mem, vm'.mem, pt, off, pa, n, user, r, q)
    {
      assert IsRoot(own', r);
      LeavesWalk(vm3, own', kroot, pt, off, pa, n, user, r, q);
      LeavesReach(vm3, own', kroot, pt, off, pa, n, user, r, q[..3]);
    }
  }
}
