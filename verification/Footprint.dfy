/**
 Exactly which frames a program takes.  On memory from which no page was released every frame handed
 out is the next one, so the program headers and the first free frame determine where each page and
 each page table of a new program lies.
 */
module Footprint {
  import opened Basics
  import opened Allocator
  import opened AllocatorRuns
  import opened Addresses
  import opened Bytes
  import opened Paging
  import opened PageTree
  import opened Spaces
  import opened UserMemory
  import opened Loader
  import opened Suffix

  // ---------------------------------------------------------------- the tables of a root

  /** The path of a table outside the kernel's slot. */
  ghost predicate UserPath(p: seq<nat>) {
    1 <= |p| <= 3 && Indices(p) && p[0] != KERNEL_SLOT
  }

  /** Outside the kernel's slot, `root` has exactly the tables at the paths in `have`. */
  ghost predicate HasTables(mem: Memory, root: nat, have: set<seq<nat>>) {
    forall p: seq<nat> :: UserPath(p) ==> (p in have <==> Reach(mem, root, p).Some?)
  }

  /** The tables on the way down `p` that are not there yet. */
  function Missing(have: set<seq<nat>>, p: seq<nat>): nat
    decreases |p|
  {
    if p == [] then 0 else Missing(have, p[..|p| - 1]) + if p in have then 0 else 1
  }

  function WithTables(have: set<seq<nat>>, p: seq<nat>): set<seq<nat>>
    decreases |p|
  {
    if p == [] then have else WithTables(have, p[..|p| - 1]) + {p}
  }

  /** Tables that are there stay where they are. */
  ghost predicate KeepsReach(mem: Memory, mem': Memory, root: nat) {
    forall p: seq<nat> :: |p| <= 3 && Indices(p) && Reach(mem, root, p).Some? ==>
        Reach(mem', root, p) == Reach(mem, root, p)
  }

  lemma KeepsReachTrans(m1: Memory, m2: Memory, m3: Memory, root: nat)
    requires KeepsReach(m1, m2, root) && KeepsReach(m2, m3, root)
    ensures KeepsReach(m1, m3, root)
  {
    hide Reach;
  }

  lemma TablesOnTables(vm: Vm, own: map<nat, Owner>, kroot: nat, mem': Memory, root: nat, have: set<seq<nat>>)
    requires TreeInv(vm, own, kroot) && IsRoot(own, root) && HasTables(vm.mem, root, have)
    requires forall t, i :: IsTable(own, t) && 0 <= i < ENTRIES ==> Word(mem', t, i) == Word(vm.mem, t, i)
    ensures HasTables(mem', root, have) && KeepsReach(vm.mem, mem', root)
  {
    hide TreeInv, Reach;
    forall p: seq<nat> | |p| <= 3 && Indices(p) ensures Reach(mem', root, p) == Reach(vm.mem, root, p) {
      ReachOnTables(vm, own, kroot, mem', root, p);
    }
  }

  /** The free pages of `vm` start at `top`, and `root` has the tables in `have`. */
  ghost predicate StandsAt(vm: Vm, root: nat, top: nat, have: set<seq<nat>>) {
    FreeSuffix(vm.pages, top) && HasTables(vm.mem, root, have)
  }

  // ---------------------------------------------------------------- one table

  /** Linking a table at path `x` adds just that path. */
  lemma LinkAddsPath(vm: Vm, own: map<nat, Owner>, vm': Vm, own': map<nat, Owner>, kroot: nat, root: nat, t: nat,
                     i: nat, f: nat, x: seq<nat>, have: set<seq<nat>>)
    requires TreeInv(vm, own, kroot) && IsRoot(own, root) && TreeInv(vm', own', kroot) && IsRoot(own', root)
    requires HasTables(vm.mem, root, have) && Linked(vm.mem, vm'.mem, own, t, i, f)
    requires UserPath(x) && Reach(vm'.mem, root, x) == Some(f)
    ensures HasTables(vm'.mem, root, have + {x}) && KeepsReach(vm.mem, vm'.mem, root)
  {
    hide TreeInv, Linked, Reach;
    forall p: seq<nat> | |p| <= 3 && Indices(p) && Reach(vm.mem, root, p).Some?
      ensures Reach(vm'.mem, root, p) == Reach(vm.mem, root, p)
    {
      LinkReach(vm, own, kroot, vm'.mem, t, i, f, root, p);
    }
    forall y: seq<nat> | UserPath(y) ensures y in have + {x} <==> Reach(vm'.mem, root, y).Some? {
      LinkReach(vm, own, kroot, vm'.mem, t, i, f, root, y);
      if Reach(vm'.mem, root, y) == Some(f) {
        PathUnique(vm', own', kroot, root, y, root, x);
      }
    }
  }

  lemma OneMoreTable(vm: Vm, own: map<nat, Owner>, kroot: nat, root: nat, p: seq<nat>, i: nat, have: set<seq<nat>>)
    requires TreeInv(vm, own, kroot) && IsRoot(own, root) && HasTables(vm.mem, root, have)
    requires |p| <= 2 && UserPath(p + [i]) && Reach(vm.mem, root, p).Some? && p + [i] !in have
    requires !Present(Word(vm.mem, Reach(vm.mem, root, p).value, i))
    requires EnsureTable(vm, Reach(vm.mem, root, p).value, i, true).Some?
    ensures var mem' := EnsureTable(vm, Reach(vm.mem, root, p).value, i, true).value.0.mem;
            HasTables(mem', root, have + {p + [i]}) && KeepsReach(vm.mem, mem', root)
  {
    hide TreeInv, AllocFrames, Grows, SameWalks, Linked, UserPath, Indices, Reach, HasTables, Present, EnsureTable,
         KeepsReach;
    var t := Reach(vm.mem, root, p).value;
    var (vm', f) := EnsureTable(vm, t, i, true).value;
    Shorter(p + [i]);
    ReachOwned(vm, own, kroot, root, p);
    var own' := EnsureStep(vm, own, kroot, root, p, i, true);
    GrowsKeepsRoots(vm, own, vm', own');
    EnsureLinks(vm, own, kroot, t, i, true);
    LinkAddsPath(vm, own, vm', own', kroot, root, t, i, f, p + [i], have);
  }

  lemma EnsureTableExact(vm: Vm, own: map<nat, Owner>, kroot: nat, root: nat, p: seq<nat>, i: nat, top: nat,
                         have: set<seq<nat>>)
    requires TreeInv(vm, own, kroot) && IsRoot(own, root) && StandsAt(vm, root, top, have)
    requires |p| <= 2 && UserPath(p + [i]) && Reach(vm.mem, root, p).Some?
    ensures var r := EnsureTable(vm, Reach(vm.mem, root, p).value, i, true);
            var k := if p + [i] in have then 0 else 1;
            && (r.Some? <==> top + k <= |vm.pages|)
            && (r.Some? ==> |r.value.0.pages| == |vm.pages| && StandsAt(r.value.0, root, top + k, have + {p + [i]})
                            && KeepsReach(vm.mem, r.value.0.mem, root) && (k == 1 ==> r.value.1 == top))
  {
    assert p == (p + [i])[..|p|] && i == (p + [i])[|p|];
    assert Reach(vm.mem, root, p + [i]).Some? <==> Present(Word(vm.mem, Reach(vm.mem, root, p).value, i));
    hide AllocFrames, TreeInv, Reach;
    AllocTakes(vm, top, 1);
    if p + [i] in have {
      assert have + {p + [i]} == have;
    } else if EnsureTable(vm, Reach(vm.mem, root, p).value, i, true).Some? {
      OneMoreTable(vm, own, kroot, root, p, i, have);
    }
  }

  // ---------------------------------------------------------------- one page

  /** The way down `p` takes exactly the frames of its missing tables. */
  ghost predicate PathExact(vm: Vm, root: nat, p: seq<nat>, top: nat, have: set<seq<nat>>) {
    var r := EnsurePath(vm, root, p, true);
    var k := Missing(have, p);
    && (r.Some? <==> top + k <= |vm.pages|)
    && (r.Some? ==> |r.value.0.pages| == |vm.pages| && StandsAt(r.value.0, root, top + k, WithTables(have, p))
                    && KeepsReach(vm.mem, r.value.0.mem, root) && NewTables(r.value.0.mem, root, have, p, top))
  }

  lemma {:induction false} EnsurePathExact(vm: Vm, own: map<nat, Owner>, kroot: nat, root: nat, p: seq<nat>, top: nat,
                                           have: set<seq<nat>>)
    requires TreeInv(vm, own, kroot) && IsRoot(own, root) && StandsAt(vm, root, top, have) && (p == [] || UserPath(p))
    ensures PathExact(vm, root, p, top, have)
    decreases |p|
  {
    if p == [] {
      hide StandsAt, KeepsReach, NewTables;
      RegionFits(vm, root, top, have);
      NoNewTables(vm.mem, root, have, top);
    } else {
      hide TreeInv, StandsAt, PathExact, UserPath, Indices;
      Shorter(p);
      EnsurePathExact(vm, own, kroot, root, p[..|p| - 1], top, have);
      PathStep(vm, own, kroot, root, p, top, have);
    }
  }

  lemma PathStep(vm: Vm, own: map<nat, Owner>, kroot: nat, root: nat, p: seq<nat>, top: nat, have: set<seq<nat>>)
    requires TreeInv(vm, own, kroot) && IsRoot(own, root) && UserPath(p) && PathExact(vm, root, p[..|p| - 1], top, have)
    ensures PathExact(vm, root, p, top, have)
  {
    hide TreeInv, StandsAt, EnsureTable, Reach, Grows, SameWalks, UserPath, Indices, KeepsReach, NewTables;
    Shorter(p);
    var n := |p| - 1;
    var up := EnsurePath(vm, root, p[..n], true);
    if up.Some? {
      var own1 := EnsurePathTheorem(vm, own, kroot, root, p[..n], true);
      GrowsKeepsRoots(vm, own, up.value.0, own1);
      EnsureTableExact(up.value.0, own1, kroot, root, p[..n], p[n], top + Missing(have, p[..n]),
                       WithTables(have, p[..n]));
      NotAmongShorter(have, p, n);
      if EnsurePath(vm, root, p, true).Some? {
        StepKeeps(vm, own, kroot, root, p, top, have, up.value.0.mem);
      }
    }
  }

  lemma StepKeeps(vm: Vm, own: map<nat, Owner>, kroot: nat, root: nat, p: seq<nat>, top: nat, have: set<seq<nat>>,
                  mem1: Memory)
    requires TreeInv(vm, own, kroot) && IsRoot(own, root) && UserPath(p) && EnsurePath(vm, root, p, true).Some?
    requires KeepsReach(vm.mem, mem1, root) && NewTables(mem1, root, have, p[..|p| - 1], top)
    requires KeepsReach(mem1, EnsurePath(vm, root, p, true).value.0.mem, root)
    requires p !in have ==> EnsurePath(vm, root, p, true).value.1 == top + Missing(have, p) - 1
    ensures var mem' := EnsurePath(vm, root, p, true).value.0.mem;
            KeepsReach(vm.mem, mem', root) && NewTables(mem', root, have, p, top)
  {
    hide TreeInv, EnsurePath, Reach, Grows, SameWalks, UserPath, Indices, KeepsReach, NewTables, Missing;
    Shorter(p);
    var own2 := EnsurePathTheorem(vm, own, kroot, root, p, true);
    var (vm', t) := EnsurePath(vm, root, p, true).value;
    KeepsReachTrans(vm.mem, mem1, vm'.mem, root);
    OneMoreNewTable(mem1, vm'.mem, root, have, p, top, t);
  }

  /** Each new table on the way down `p` has the next frame, from `top` on. */
  ghost predicate NewTables(mem: Memory, root: nat, have: set<seq<nat>>, p: seq<nat>, top: nat) {
    forall k :: 1 <= k <= |p| && p[..k] !in have ==> Reach(mem, root, p[..k]) == Some(top + Missing(have, p[..k]) - 1)
  }

  lemma NoNewTables(mem: Memory, root: nat, have: set<seq<nat>>, top: nat)
    ensures NewTables(mem, root, have, [], top) && KeepsReach(mem, mem, root)
  {
  }

  lemma OneMoreNewTable(mem: Memory, mem': Memory, root: nat, have: set<seq<nat>>, p: seq<nat>, top: nat, t: nat)
    requires p != [] && |p| <= 3 && Indices(p) && NewTables(mem, root, have, p[..|p| - 1], top)
    requires KeepsReach(mem, mem', root)
    requires Reach(mem', root, p) == Some(t) && (p !in have ==> t == top + Missing(have, p) - 1)
    ensures NewTables(mem', root, have, p, top)
  {
    hide Reach, Missing;
    var n := |p| - 1;
    forall k | 1 <= k <= |p| && p[..k] !in have
      ensures Reach(mem', root, p[..k]) == Some(top + Missing(have, p[..k]) - 1)
    {
      if k <= n {
        assert p[..n][..k] == p[..k];
      } else {
        assert p[..k] == p;
      }
    }
  }

  lemma NewTablesStay(mem: Memory, mem': Memory, root: nat, have: set<seq<nat>>, p: seq<nat>, top: nat)
    requires |p| <= 3 && Indices(p) && NewTables(mem, root, have, p, top) && KeepsReach(mem, mem', root)
    ensures NewTables(mem', root, have, p, top)
  {
    hide Reach, Missing;
  }

  lemma Shorter(p: seq<nat>)
    requires UserPath(p)
    ensures 1 <= |p| <= 3 && Indices(p) && p[|p| - 1] < ENTRIES && Indices(p[..|p| - 1])
    ensures (|p| > 1 ==> UserPath(p[..|p| - 1]))
    ensures p[..|p| - 1] + [p[|p| - 1]] == p
  {
  }

  lemma RegionFits(vm: Vm, root: nat, top: nat, have: set<seq<nat>>)
    requires StandsAt(vm, root, top, have)
    ensures top <= |vm.pages|
  {
  }

  lemma {:induction false} NotAmongShorter(have: set<seq<nat>>, p: seq<nat>, n: nat)
    requires n < |p|
    ensures p in WithTables(have, p[..n]) <==> p in have
    decreases n
  {
    if n > 0 {
      assert p[..n][..n - 1] == p[..n - 1];
      NotAmongShorter(have, p, n - 1);
    }
  }

  /** A page at path `q` outside the kernel's slot. */
  ghost predicate UserPage(q: seq<nat>) {
    |q| == 4 && Indices(q) && q[0] != KERNEL_SLOT
  }

  lemma LeafPath(q: seq<nat>)
    requires UserPage(q)
    ensures |q| == 4 && UserPath(q[..3]) && Indices(q[..3])
  {
  }

  lemma AllocKeepsTables(vm: Vm, own: map<nat, Owner>, kroot: nat, root: nat, k: nat, have: set<seq<nat>>)
    requires TreeInv(vm, own, kroot) && IsRoot(own, root) && HasTables(vm.mem, root, have) && AllocFrames(vm, k).Some?
    ensures HasTables(AllocFrames(vm, k).value.0.mem, root, have)
    ensures KeepsReach(vm.mem, AllocFrames(vm, k).value.0.mem, root)
  {
    hide HasTables, AllocFrames, KeepsReach;
    AllocKeepsTree(vm, own, kroot, k);
    TablesOnTables(vm, own, kroot, AllocFrames(vm, k).value.0.mem, root, have);
  }

  lemma MapPathExact(vm: Vm, own: map<nat, Owner>, kroot: nat, root: nat, q: seq<nat>, pa: u64, top: nat,
                     have: set<seq<nat>>)
    requires TreeInv(vm, own, kroot) && IsRoot(own, root) && StandsAt(vm, root, top, have) && UserPage(q)
    ensures var r := MapPath(vm, root, q, pa, 1, true);
            var k := Missing(have, q[..3]);
            && (r.Some? <==> top + k <= |vm.pages|)
            && (r.Some? ==> |r.value.pages| == |vm.pages| && StandsAt(r.value, root, top + k, WithTables(have, q[..3]))
                            && KeepsReach(vm.mem, r.value.mem, root) && NewTables(r.value.mem, root, have, q[..3], top))
  {
    hide TreeInv, StandsAt, EnsurePath, Reach, Missing, WithTables, WriteLeaves, Grows, SameWalks, UserPath, UserPage,
         Indices, KeepsReach, NewTables;
    LeafPath(q);
    EnsurePathExact(vm, own, kroot, root, q[..3], top, have);
    var leaf := EnsurePath(vm, root, q[..3], true);
    if leaf.Some? {
      var own1 := EnsurePathTheorem(vm, own, kroot, root, q[..3], true);
      GrowsKeepsRoots(vm, own, leaf.value.0, own1);
      LeavesKeepAt(leaf.value.0, own1, kroot, root, leaf.value.1, q[3], pa, top + Missing(have, q[..3]),
                   WithTables(have, q[..3]));
      KeepsReachTrans(vm.mem, leaf.value.0.mem, MapPath(vm, root, q, pa, 1, true).value.mem, root);
      NewTablesStay(leaf.value.0.mem, MapPath(vm, root, q, pa, 1, true).value.mem, root, have, q[..3], top);
    }
  }

  lemma LeavesKeepAt(vm: Vm, own: map<nat, Owner>, kroot: nat, root: nat, t: nat, off: nat, pa: u64, top: nat,
                     have: set<seq<nat>>)
    requires TreeInv(vm, own, kroot) && IsRoot(own, root) && StandsAt(vm, root, top, have) && IsTable(own, t)
    requires own[t].level == 1
    ensures StandsAt(Vm(WriteLeaves(vm.mem, t, off, pa, 1, true), vm.pages), root, top, have)
    ensures KeepsReach(vm.mem, WriteLeaves(vm.mem, t, off, pa, 1, true), root)
  {
    hide TreeInv, FreeSuffix, Reach, WriteLeaves;
    forall p: seq<nat> | |p| <= 3 && Indices(p)
      ensures Reach(WriteLeaves(vm.mem, t, off, pa, 1, true), root, p) == Reach(vm.mem, root, p)
    {
      LeavesReach(vm, own, kroot, t, off, pa, 1, true, root, p);
    }
  }

  /** One turn of `region_alloc`: the next frame for the page, the frames behind it for its missing tables. */
  lemma MapFreshExact(vm: Vm, own: map<nat, Owner>, kroot: nat, root: nat, q: seq<nat>, top: nat, have: set<seq<nat>>)
    requires TreeInv(vm, own, kroot) && IsRoot(own, root) && StandsAt(vm, root, top, have) && UserPage(q)
    ensures var r := MapFresh(vm, root, q);
            var k := 1 + Missing(have, q[..3]);
            && (r.Some? <==> top + k <= |vm.pages|)
            && (r.Some? ==> |r.value.pages| == |vm.pages| && StandsAt(r.value, root, top + k, WithTables(have, q[..3]))
                            && InPage(r.value.mem, root, q, top) && NewTables(r.value.mem, root, have, q[..3], top + 1)
                            && KeepsReach(vm.mem, r.value.mem, root))
  {
    hide TreeInv, FreeSuffix, AllocFrames, MapPath, HasTables, Reach, Missing, WithTables, InPage, Grows, KeepsReach,
         NewTables;
    AllocTakes(vm, top, 1);
    var a := AllocFrames(vm, 1);
    if a.Some? {
      AllocKeepsTree(vm, own, kroot, 1);
      AllocKeepsTables(vm, own, kroot, root, 1, have);
      MapPathExact(a.value.0, own, kroot, root, q, FrameAddress(a.value.1), top + 1, have);
      if MapFresh(vm, root, q).Some? {
        KeepsReachTrans(vm.mem, a.value.0.mem, MapFresh(vm, root, q).value.mem, root);
        PageIsMapped(vm, own, kroot, root, q, top);
      }
    }
  }

  lemma PageIsMapped(vm: Vm, own: map<nat, Owner>, kroot: nat, root: nat, q: seq<nat>, top: nat)
    requires TreeInv(vm, own, kroot) && IsRoot(own, root) && |q| == 4 && Indices(q)
    requires FreeSuffix(vm.pages, top) && MapFresh(vm, root, q).Some?
    ensures InPage(MapFresh(vm, root, q).value.mem, root, q, top)
  {
    TreeIsWellFormed(vm, own, kroot);
    hide TreeInv, Walk, Grows, FreeSuffix, MapPath, FrameAddress, LeafAt;
    AllocTakes(vm, top, 1);
    AllocKeepsTree(vm, own, kroot, 1);
    var (vm1, f) := AllocFrames(vm, 1).value;
    FreshLeaf(f);
    var own1 := MapFrameTheorem(vm1, own, kroot, root, q, FrameAddress(f), f, 0);
  }

  // ---------------------------------------------------------------- a region

  /** The tables after the pages at `paths` were mapped, and the frames that takes. */
  function TablesAfter(have: set<seq<nat>>, paths: seq<seq<nat>>): set<seq<nat>>
    requires forall k :: 0 <= k < |paths| ==> |paths[k]| == 4
    decreases |paths|
  {
    if paths == [] then have else
    var n := |paths| - 1;
    WithTables(TablesAfter(have, paths[..n]), paths[n][..3])
  }

  function FramesFor(have: set<seq<nat>>, paths: seq<seq<nat>>): nat
    requires forall k :: 0 <= k < |paths| ==> |paths[k]| == 4
    decreases |paths|
  {
    if paths == [] then 0 else
    var n := |paths| - 1;
    FramesFor(have, paths[..n]) + 1 + Missing(TablesAfter(have, paths[..n]), paths[n][..3])
  }

  ghost predicate UserPages(paths: seq<seq<nat>>) {
    forall k :: 0 <= k < |paths| ==> UserPage(paths[k])
  }

  /** Each page lies in the frame that was next when its turn came, and its new tables in the frames behind it. */
  ghost predicate Placed(mem: Memory, root: nat, have: set<seq<nat>>, paths: seq<seq<nat>>, top: nat)
    requires UserPages(paths)
  {
    forall m :: 0 <= m < |paths| ==>
        PagePlaced(mem, root, TablesAfter(have, paths[..m]), paths[m], top + FramesFor(have, paths[..m]))
  }

  ghost predicate PagePlaced(mem: Memory, root: nat, have: set<seq<nat>>, q: seq<nat>, g: nat) {
    InPage(mem, root, q, g) && |q| == 4 && NewTables(mem, root, have, q[..3], g + 1)
  }

  lemma PagePlacedStays(mem: Memory, mem': Memory, root: nat, have: set<seq<nat>>, q: seq<nat>, g: nat)
    requires PagePlaced(mem, root, have, q, g) && UserPage(q) && KeepsReach(mem, mem', root)
    requires Walk(mem', root, q) == Walk(mem, root, q)
    ensures PagePlaced(mem', root, have, q, g)
  {
    hide Walk, KeepsReach, NewTables;
    NewTablesStay(mem, mem', root, have, q[..3], g + 1);
  }

  lemma PlacedStays(mem: Memory, mem': Memory, root: nat, have: set<seq<nat>>, paths: seq<seq<nat>>, top: nat)
    requires UserPages(paths) && Placed(mem, root, have, paths, top) && KeepsReach(mem, mem', root)
    requires forall m :: 0 <= m < |paths| ==> Walk(mem', root, paths[m]) == Walk(mem, root, paths[m])
    ensures Placed(mem', root, have, paths, top)
  {
    hide Walk, FramesFor, TablesAfter, PagePlaced, KeepsReach;
    forall m | 0 <= m < |paths|
      ensures PagePlaced(mem', root, TablesAfter(have, paths[..m]), paths[m], top + FramesFor(have, paths[..m]))
    {
      PagePlacedStays(mem, mem', root, TablesAfter(have, paths[..m]), paths[m], top + FramesFor(have, paths[..m]));
    }
  }

  lemma PlacedStep(mem: Memory, root: nat, have: set<seq<nat>>, paths: seq<seq<nat>>, top: nat)
    requires UserPages(paths) && paths != []
    requires Placed(mem, root, have, paths[..|paths| - 1], top)
    requires var n := |paths| - 1;
             PagePlaced(mem, root, TablesAfter(have, paths[..n]), paths[n], top + FramesFor(have, paths[..n]))
    ensures Placed(mem, root, have, paths, top)
  {
    hide PagePlaced, FramesFor, TablesAfter;
    var n := |paths| - 1;
    forall m | 0 <= m < |paths|
      ensures PagePlaced(mem, root, TablesAfter(have, paths[..m]), paths[m], top + FramesFor(have, paths[..m]))
    {
      if m < n {
        assert paths[..n][m] == paths[m] && paths[..n][..m] == paths[..m];
      }
    }
  }

  lemma NonePlaced(mem: Memory, root: nat, have: set<seq<nat>>, paths: seq<seq<nat>>, top: nat)
    requires UserPages(paths) && paths == []
    ensures Placed(mem, root, have, paths, top)
  {
  }

  lemma FewerPages(paths: seq<seq<nat>>, tags: seq<nat>)
    requires GoodPaths(paths, tags) && UserPages(paths) && paths != []
    ensures var n := |paths| - 1;
            && |tags| == |paths| && GoodPaths(paths[..n], tags[..n]) && UserPages(paths[..n]) && UserPage(paths[n])
            && Indices(paths[n]) && |paths[n]| == 4
            && forall m :: 0 <= m < n ==> |paths[m]| == 4 && Indices(paths[m]) && paths[m] != paths[n]
  {
  }

  /** `region_alloc` takes exactly those frames, and places the pages as computed. */
  ghost predicate RegionIsExact(vm: Vm, root: nat, paths: seq<seq<nat>>, top: nat, have: set<seq<nat>>)
    requires UserPages(paths)
  {
    var r := RegionAlloc(vm, root, paths);
    var k := FramesFor(have, paths);
    && (r.Some? <==> top + k <= |vm.pages|)
    && (r.Some? ==> |r.value.pages| == |vm.pages| && StandsAt(r.value, root, top + k, TablesAfter(have, paths))
                    && Placed(r.value.mem, root, have, paths, top) && KeepsReach(vm.mem, r.value.mem, root))
  }

  lemma {:induction false} RegionExact(vm: Vm, own: map<nat, Owner>, kroot: nat, root: nat, paths: seq<seq<nat>>,
                                       tags: seq<nat>, top: nat, have: set<seq<nat>>)
    requires TreeInv(vm, own, kroot) && IsRoot(own, root) && StandsAt(vm, root, top, have)
    requires GoodPaths(paths, tags) && UserPages(paths)
    ensures RegionIsExact(vm, root, paths, top, have)
    decreases |paths|
  {
    if paths == [] {
      hide StandsAt, Placed, KeepsReach;
      NonePlaced(vm.mem, root, have, paths, top);
      NoNewTables(vm.mem, root, have, top);
      RegionFits(vm, root, top, have);
    } else {
      hide TreeInv, StandsAt, RegionIsExact, GoodPaths, UserPages;
      FewerPages(paths, tags);
      RegionExact(vm, own, kroot, root, paths[..|paths| - 1], tags[..|paths| - 1], top, have);
      RegionExactStep(vm, own, kroot, root, paths, tags, top, have);
    }
  }

  lemma RegionExactStep(vm: Vm, own: map<nat, Owner>, kroot: nat, root: nat, paths: seq<seq<nat>>, tags: seq<nat>,
                        top: nat, have: set<seq<nat>>)
    requires TreeInv(vm, own, kroot) && IsRoot(own, root) && GoodPaths(paths, tags) && UserPages(paths) && paths != []
    requires RegionIsExact(vm, root, paths[..|paths| - 1], top, have)
    ensures RegionIsExact(vm, root, paths, top, have)
  {
    hide TreeInv, StandsAt, MapFresh, Missing, WithTables, InPage, Grows, FreshPage, Walk, Placed, GoodPaths, UserPages,
         UserPage, KeepsReach, NewTables;
    var n := |paths| - 1;
    FewerPages(paths, tags);
    var b := RegionAlloc(vm, root, paths[..n]);
    if b.Some? {
      var own1 := RegionTheorem(vm, own, kroot, root, paths[..n], tags[..n]);
      GrowsKeepsRoots(vm, own, b.value, own1);
      MapFreshExact(b.value, own1, kroot, root, paths[n], top + FramesFor(have, paths[..n]),
                    TablesAfter(have, paths[..n]));
      if RegionAlloc(vm, root, paths).Some? {
        var own2 := MapFreshTheorem(b.value, own1, kroot, root, paths[n], tags[n]);
        var mem' := RegionAlloc(vm, root, paths).value.mem;
        KeepsReachTrans(vm.mem, b.value.mem, mem', root);
        PlacedStays(b.value.mem, mem', root, have, paths[..n], top);
        PlacedStep(mem', root, have, paths, top);
      }
    }
  }

  // ---------------------------------------------------------------- a segment

  lemma SegmentUserPages(image: seq<byte>, s: Segment)
    requires SegmentOk(image, s)
    ensures UserPages(SegmentPaths(s))
  {
    hide PageCount;
    assert forall i :: 0 <= i < PageCount(s) ==> Indices(SegmentPaths(s)[i]);
  }

  /** Copying into data pages touches no table. */
  lemma CopyMissesTables(vm: Vm, own: map<nat, Owner>, kroot: nat, root: nat, locs: seq<Loc>, bytes: seq<byte>)
    requires TreeInv(vm, own, kroot) && IsRoot(own, root) && |locs| == |bytes| && AllHold(vm.mem, own, root, locs)
    ensures CopyAt(vm.mem, root, locs, bytes).Some?
    ensures var mem' := CopyAt(vm.mem, root, locs, bytes).value;
            forall t, i :: IsTable(own, t) && 0 <= i < ENTRIES ==> Word(mem', t, i) == Word(vm.mem, t, i)
  {
    CopyAtTheorem(vm, own, kroot, root, locs, bytes);
    var mem' := CopyAt(vm.mem, root, locs, bytes).value;
    forall t: nat, i | IsTable(own, t) && 0 <= i < ENTRIES ensures Word(mem', t, i) == Word(vm.mem, t, i) {
      forall k | 0 <= k < |locs| && Walk(vm.mem, root, locs[k].path).Some?
        ensures FrameOf(Walk(vm.mem, root, locs[k].path).value) != t
      {
        assert LocHolds(vm.mem, own, root, locs[k]);
      }
      assert Elsewhere(vm.mem, root, locs, t);
    }
  }

  lemma CopyKeepsAt(vm: Vm, own: map<nat, Owner>, kroot: nat, root: nat, locs: seq<Loc>, bytes: seq<byte>, top: nat,
                    have: set<seq<nat>>)
    requires TreeInv(vm, own, kroot) && IsRoot(own, root) && |locs| == |bytes| && AllHold(vm.mem, own, root, locs)
    requires StandsAt(vm, root, top, have)
    ensures CopyAt(vm.mem, root, locs, bytes).Some?
    ensures StandsAt(vm.(mem := CopyAt(vm.mem, root, locs, bytes).value), root, top, have)
    ensures KeepsReach(vm.mem, CopyAt(vm.mem, root, locs, bytes).value, root)
  {
    hide TreeInv, FreeSuffix, HasTables, CopyAt, KeepsReach;
    CopyMissesTables(vm, own, kroot, root, locs, bytes);
    TablesOnTables(vm, own, kroot, CopyAt(vm.mem, root, locs, bytes).value, root, have);
  }

  lemma FillExact(vm: Vm, own: map<nat, Owner>, kroot: nat, root: nat, paths: seq<seq<nat>>, tags: seq<nat>,
                  la: seq<Loc>, a: seq<byte>, lb: seq<Loc>, b: seq<byte>, top: nat, have: set<seq<nat>>)
    requires TreeInv(vm, own, kroot) && IsRoot(own, root) && StandsAt(vm, root, top, have)
    requires Parts(paths, tags, la, lb) && |la| == |a| && |lb| == |b| && UserPages(paths)
    ensures var r := Fill(vm, root, paths, la, a, lb, b);
            var k := FramesFor(have, paths);
            && !r.PageFault? && (r.Loaded? <==> top + k <= |vm.pages|)
            && (r.Loaded? ==> |r.vm.pages| == |vm.pages| && StandsAt(r.vm, root, top + k, TablesAfter(have, paths))
                              && Placed(r.vm.mem, root, have, paths, top) && KeepsReach(vm.mem, r.vm.mem, root))
  {
    hide KeepsReach, TreeInv, StandsAt, Walk, Grows, RegionAlloc, CopyAt, AllHold, PagesFresh, Placed, FramesFor,
         TablesAfter, FreshPage, SameWalks;
    RegionExact(vm, own, kroot, root, paths, tags, top, have);
    if RegionAlloc(vm, root, paths).Some? {
      var vm1 := RegionAlloc(vm, root, paths).value;
      var own' := FillKeepsTree(vm, own, kroot, root, paths, tags, la, a, lb, b);
      CopyKeepsAt(vm1, own', kroot, root, la, a, top + FramesFor(have, paths), TablesAfter(have, paths));
      var vm2 := vm1.(mem := CopyAt(vm1.mem, root, la, a).value);
      FreshOnWalks(own, own', vm1.mem, vm2.mem, root, lb);
      CopyKeepsAt(vm2, own', kroot, root, lb, b, top + FramesFor(have, paths), TablesAfter(have, paths));
      var mem' := Fill(vm, root, paths, la, a, lb, b).vm.mem;
      KeepsReachTrans(vm1.mem, vm2.mem, mem', root);
      KeepsReachTrans(vm.mem, vm1.mem, mem', root);
      PlacedOnWalks(own', vm1.mem, mem', root, have, paths, top);
    }
  }

  lemma PlacedOnWalks(own: map<nat, Owner>, mem: Memory, mem': Memory, root: nat, have: set<seq<nat>>,
                      paths: seq<seq<nat>>, top: nat)
    requires IsRoot(own, root) && SameWalks(own, mem, mem') && KeepsReach(mem, mem', root)
    requires UserPages(paths) && Placed(mem, root, have, paths, top)
    ensures Placed(mem', root, have, paths, top)
  {
    hide Walk, Placed, KeepsReach;
    forall m | 0 <= m < |paths| ensures Walk(mem', root, paths[m]) == Walk(mem, root, paths[m]) {
      assert UserPage(paths[m]);
    }
    PlacedStays(mem, mem', root, have, paths, top);
  }

  /** One loadable segment takes exactly the frames of its pages and of their missing tables. */
  lemma SegmentExact(vm: Vm, own: map<nat, Owner>, kroot: nat, root: nat, image: seq<byte>, s: Segment, top: nat,
                     have: set<seq<nat>>)
    requires TreeInv(vm, own, kroot) && IsRoot(own, root) && StandsAt(vm, root, top, have) && SegmentOk(image, s)
    ensures UserPages(SegmentPaths(s))
    ensures var r := LoadSegment(vm, root, image, s);
            var k := FramesFor(have, SegmentPaths(s));
            && !r.PageFault? && (r.Loaded? <==> top + k <= |vm.pages|)
            && (r.Loaded? ==>
                  |r.vm.pages| == |vm.pages| && StandsAt(r.vm, root, top + k, TablesAfter(have, SegmentPaths(s)))
                              && Placed(r.vm.mem, root, have, SegmentPaths(s), top)
                              && KeepsReach(vm.mem, r.vm.mem, root))
  {
    hide KeepsReach, TreeInv, StandsAt, Fill, Locate, SegmentPaths, SegmentPages, Parts, Placed, FramesFor, TablesAfter,
         UserPages;
    SegmentUserPages(image, s);
    SegmentParts(s);
    FillExact(vm, own, kroot, root, SegmentPaths(s), SegmentPages(s), Locations(s.vaddr, s.filesz), FileBytes(image, s),
              Locations(s.vaddr + s.filesz, Padding(s)), Zeros(Padding(s)), top, have);
  }

  // ---------------------------------------------------------------- a new process

  /** Stacks lie in slot 481, frame by frame behind page 0xF_FFFF_0F08_0700, so no two of them share a byte. */
  lemma StackIsUserPage(f: nat)
    requires f < MAX_FRAMES
    ensures UserPage(Path(StackAddress(f))) && Path(StackAddress(f))[0] == 481
    ensures StackAddress(f) == (0xF_FFFF_0F08_0700 + f) * PAGE_SIZE
  {
    assert StackAddress(f) == STACK_BASE + f * PAGE_SIZE;
    assert StackAddress(f) / 0x80_0000_0000 == 0x1FF_FFE1;
  }

  /** The frames of a new process: root, task structure, stack page, and the three tables of the stack. */
  const SPACE_PAGES := 14
  const STACK_AT := 10

  /** The tables of a new process whose root is frame `top`. */
  function StackTables(top: nat): set<seq<nat>> {
    WithTables({}, Path(StackAddress(top + STACK_AT))[..3])
  }

  lemma {:induction false} EmptyRoot(mem: Memory, root: nat, p: seq<nat>)
    requires UserPath(p) && root < |mem|
    requires forall i :: 0 <= i < ENTRIES && i != KERNEL_SLOT ==> !Present(Word(mem, root, i))
    ensures Reach(mem, root, p).None?
    decreases |p|
  {
    if |p| == 1 {
      assert p[..0] == [];
    } else {
      EmptyRoot(mem, root, p[..|p| - 1]);
    }
  }

  lemma RootHasNone(vm: Vm, kroot: nat, root: nat)
    requires root < |vm.mem|
    ensures HasTables(RootOf(vm, kroot, root, None).mem, root, {})
  {
    var mem' := RootOf(vm, kroot, root, None).mem;
    assert forall i :: 0 <= i < ENTRIES && i != KERNEL_SLOT ==> Word(mem', root, i) == 0;
    hide RootOf, Reach;
    forall p: seq<nat> | UserPath(p) ensures Reach(mem', root, p).None? {
      EmptyRoot(mem', root, p);
    }
  }

  lemma FrameIsSmall(vm: Vm, own: map<nat, Owner>, kroot: nat, f: nat)
    requires TreeInv(vm, own, kroot) && f < |vm.pages|
    ensures f < MAX_FRAMES
  {
  }

  /** A stack takes the next frame for its page, and the frames behind for the tables that are missing. */
  lemma StackExact(vm: Vm, own: map<nat, Owner>, kroot: nat, root: nat, top: nat, have: set<seq<nat>>)
    requires TreeInv(vm, own, kroot) && IsRoot(own, root) && StandsAt(vm, root, top, have)
    ensures var r := KmallocStack(vm, root);
            var k := 1 + Missing(have, Path(StackAddress(top))[..3]);
            && (r.Some? <==> top + k <= |vm.pages|)
            && (r.Some? ==> r.value.1 == top && |r.value.0.pages| == |vm.pages|
                            && StandsAt(r.value.0, root, top + k, WithTables(have, Path(StackAddress(top))[..3])))
  {
    hide TreeInv, FreeSuffix, HasTables, AllocFrames, MapPath, Path, StackAddress, WellFormed, WithTables, Missing,
         Grows, KeepsReach, NewTables, UserPage;
    AllocTakes(vm, top, 1);
    var a := AllocFrames(vm, 1);
    if a.Some? {
      AllocKeepsTree(vm, own, kroot, 1);
      AllocKeepsTables(vm, own, kroot, root, 1, have);
      FrameIsSmall(vm, own, kroot, top);
      StackIsUserPage(top);
      MapPathExact(a.value.0, own, kroot, root, Path(StackAddress(top)), FrameAddress(top), top + 1, have);
    }
  }

  lemma ThreeMissing(p: seq<nat>)
    requires |p| == 3
    ensures Missing({}, p) == 3
  {
    assert Missing({}, p[..2][..1][..0]) == 0;
    assert Missing({}, p[..2][..1]) == 1;
    assert Missing({}, p[..2]) == 2;
  }

  /** A new process takes exactly fourteen frames; its root is the first of them. */
  lemma NewSpaceExact(vm: Vm, own: map<nat, Owner>, kroot: nat, top: nat)
    requires TreeInv(vm, own, kroot) && FreeSuffix(vm.pages, top)
    ensures var r := NewSpace(vm, kroot);
            && (r.Some? <==> top + SPACE_PAGES <= |vm.pages|)
            && (r.Some? ==> r.value.1 == top && r.value.2 == top + STACK_AT && |r.value.0.pages| == |vm.pages|
                            && StandsAt(r.value.0, top, top + SPACE_PAGES, StackTables(top)))
  {
    hide TreeInv, FreeSuffix, HasTables, AllocFrames, KmallocStack, PagesFor, Path, StackAddress, WithTables, RootOf,
         Grows, Missing;
    TaskPages();
    TwoTakes(vm, top, 1, TASK_PAGES);
    var a := NewFrames(vm);
    if a.Some? {
      var vm1 := a.value.0;
      NewFramesKeepTree(vm, own, kroot);
      AddRoot(vm1, own, kroot, top, None);
      RootHasNone(vm1, kroot, top);
      RootUsesMem(vm1, kroot, top);
      ThreeMissing(Path(StackAddress(top + STACK_AT))[..3]);
      StackExact(RootOf(vm1, kroot, top, None), own[top := RootOwner(true)], kroot, top, top + 1 + TASK_PAGES, {});
    }
  }

  lemma RootUsesMem(vm: Vm, kroot: nat, root: nat)
    requires root < |vm.mem|
    ensures RootOf(vm, kroot, root, None) == vm.(mem := vm.mem[root := CopyRoot(vm.mem, kroot, None)])
  {
  }

  // ---------------------------------------------------------------- a forked child

  /** Where `sys_fork` puts the child's root and stack, behind the task structure, list node and stack copies. */
  const CHILD_ROOT_AT := 10
  const CHILD_STACK_AT := 13

  lemma ForkFramesExact(vm: Vm, top: nat)
    requires FreeSuffix(vm.pages, top)
    ensures ForkFrames(vm).Some? <==> top + CHILD_STACK_AT <= |vm.pages|
    ensures ForkFrames(vm).Some? ==>
              && ForkFrames(vm).value.1 == top + CHILD_ROOT_AT && |ForkFrames(vm).value.0.pages| == |vm.pages|
              && FreeSuffix(ForkFrames(vm).value.0.pages, top + CHILD_STACK_AT)
  {
    hide FreeSuffix, AllocFrames, PagesFor;
    TaskPages();
    AllocTakes(vm, top, TASK_PAGES);
    if AllocFrames(vm, TASK_PAGES).Some? {
      var a := AllocFrames(vm, TASK_PAGES).value.0;
      AllocTakes(a, top + TASK_PAGES, 1);
      if AllocFrames(a, 1).Some? {
        var b := AllocFrames(a, 1).value.0;
        AllocTakes(b, top + TASK_PAGES + 1, 1);
        if AllocFrames(b, 1).Some? {
          var c := AllocFrames(b, 1).value.0;
          AllocTakes(c, top + TASK_PAGES + 2, 1);
          if AllocFrames(c, 1).Some? {
            AllocTakes(AllocFrames(c, 1).value.0, top + TASK_PAGES + 3, 1);
          }
        }
      }
    }
  }

  /** A root with the parent's entries has the parent's tables. */
  lemma {:induction false} ChildReaches(vm: Vm, own: map<nat, Owner>, kroot: nat, root: nat, parent: nat, p: seq<nat>)
    requires TreeInv(vm, own, kroot) && IsRoot(own, parent) && root < |vm.mem| && root !in own
    requires 1 <= |p| <= 3 && Indices(p)
    ensures var mem' := RootOf(vm, kroot, root, Some(parent)).mem; Reach(mem', root, p) == Reach(vm.mem, parent, p)
    decreases |p|
  {
    var mem' := RootOf(vm, kroot, root, Some(parent)).mem;
    var k := |p| - 1;
    if k == 0 {
      assert p[..0] == [] && Reach(mem', root, []) == Some(root) && Reach(vm.mem, parent, []) == Some(parent);
      assert Word(mem', root, p[0]) == Word(vm.mem, parent, p[0]);
    } else {
      ChildReaches(vm, own, kroot, root, parent, p[..k]);
      if Reach(vm.mem, parent, p[..k]).Some? {
        ReachOwned(vm, own, kroot, parent, p[..k]);
        assert Word(mem', Reach(vm.mem, parent, p[..k]).value, p[k]) ==
                 Word(vm.mem, Reach(vm.mem, parent, p[..k]).value, p[k]);
      }
    }
  }

  lemma ChildHasTables(vm: Vm, own: map<nat, Owner>, kroot: nat, root: nat, parent: nat, have: set<seq<nat>>)
    requires TreeInv(vm, own, kroot) && IsRoot(own, parent) && root < |vm.mem| && root !in own
    requires HasTables(vm.mem, parent, have)
    ensures HasTables(RootOf(vm, kroot, root, Some(parent)).mem, root, have)
  {
    hide TreeInv, Reach, RootOf;
    forall p: seq<nat> | UserPath(p)
      ensures p in have <==> Reach(RootOf(vm, kroot, root, Some(parent)).mem, root, p).Some?
    {
      ChildReaches(vm, own, kroot, root, parent, p);
    }
  }

  lemma ForkFramesKeepTables(vm: Vm, own: map<nat, Owner>, kroot: nat, parent: nat, have: set<seq<nat>>)
    requires TreeInv(vm, own, kroot) && IsRoot(own, parent) && HasTables(vm.mem, parent, have) && ForkFrames(vm).Some?
    ensures HasTables(ForkFrames(vm).value.0.mem, parent, have)
  {
    hide TreeInv, HasTables, AllocFrames, PagesFor, Grows, KeepsReach;
    var k := PagesFor(TASK_BYTES);
    AllocMoreTables(vm, own, kroot, parent, k, have);
    var a := AllocFrames(vm, k).value.0;
    AllocMoreTables(a, own, kroot, parent, 1, have);
    var b := AllocFrames(a, 1).value.0;
    AllocMoreTables(b, own, kroot, parent, 1, have);
    var c := AllocFrames(b, 1).value.0;
    AllocMoreTables(c, own, kroot, parent, 1, have);
    AllocMoreTables(AllocFrames(c, 1).value.0, own, kroot, parent, 1, have);
  }

  lemma AllocMoreTables(vm: Vm, own: map<nat, Owner>, kroot: nat, root: nat, k: nat, have: set<seq<nat>>)
    requires TreeInv(vm, own, kroot) && IsRoot(own, root) && HasTables(vm.mem, root, have) && AllocFrames(vm, k).Some?
    ensures TreeInv(AllocFrames(vm, k).value.0, own, kroot) && HasTables(AllocFrames(vm, k).value.0.mem, root, have)
  {
    hide TreeInv, HasTables, AllocFrames, Grows, KeepsReach;
    AllocKeepsTree(vm, own, kroot, k);
    AllocKeepsTables(vm, own, kroot, root, k, have);
  }

  /** A fork takes exactly fourteen frames, and one for each table of the child's stack that its parent did not have. */
  lemma ForkSpaceExact(vm: Vm, own: map<nat, Owner>, kroot: nat, parent: nat, top: nat, have: set<seq<nat>>)
    requires TreeInv(vm, own, kroot) && IsRoot(own, parent) && own[parent].user && StandsAt(vm, parent, top, have)
    ensures var r := ForkSpace(vm, kroot, parent);
            var p := Path(StackAddress(top + CHILD_STACK_AT))[..3];
            var k := CHILD_STACK_AT + 1 + Missing(have, p);
            && (r.Some? <==> top + k <= |vm.pages|)
            && (r.Some? ==> r.value.1 == top + CHILD_ROOT_AT && r.value.2 == top + CHILD_STACK_AT
                            && |r.value.0.pages| == |vm.pages|
                            && StandsAt(r.value.0, top + CHILD_ROOT_AT, top + k, WithTables(have, p)))
  {
    hide TreeInv, FreeSuffix, HasTables, ForkFrames, KmallocStack, Path, StackAddress, WithTables, Grows, Missing,
         CopyRoot;
    ForkFramesExact(vm, top);
    if ForkFrames(vm).Some? {
      var (vm1, root) := ForkFrames(vm).value;
      ForkFramesKeepTree(vm, own, kroot);
      ForkFramesKeepTables(vm, own, kroot, parent, have);
      AddRoot(vm1, own, kroot, root, Some(parent));
      ChildHasTables(vm1, own, kroot, root, parent, have);
      StackExact(RootOf(vm1, kroot, root, Some(parent)), own[root := RootOwner(true)], kroot, root,
                 top + CHILD_STACK_AT, have);
    }
  }
}
