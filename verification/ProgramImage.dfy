/**
 A whole program image: segments and the nodes that describe them, in the order in which the
 loader's loop stores both.
 */
module ProgramImage {
  import opened Basics
  import opened Allocator
  import opened Addresses
  import opened Bytes
  import opened Paging
  import opened PageTree
  import opened Spaces
  import opened UserMemory
  import opened Loader
  import opened AreaList

  // ---------------------------------------------------------------- the program header loop

  datatype ImageResult = Image(vm: Vm, areas: Areas) | NoMemory | Fault

  const NO_AREAS := Areas(0, [])

  /** The headers the loop does not skip. */
  function Loadable(segs: seq<Segment>): (ss: seq<Segment>)
    decreases |segs|
  {
    if segs == [] then [] else
    var n := |segs| - 1;
    Loadable(segs[..n]) + if segs[n].kind == PT_LOAD then [segs[n]] else []
  }

  /** One turn of the loop: the segment, then its node. */
  function LoadWithNode(vm: Vm, areas: Areas, root: nat, image: seq<byte>, s: Segment, file: u64): (r: ImageResult)
  {
    var loaded := LoadSegment(vm, root, image, s);
    if loaded.OutOfMemory? then NoMemory else
    if loaded.PageFault? then Fault else
    var added := AddArea(loaded.vm, areas, s, file);
    if added.None? then NoMemory else Image(added.value.0, added.value.1)
  }

  function LoadList(vm: Vm, root: nat, image: seq<byte>, ss: seq<Segment>, file: u64): (r: ImageResult)
    decreases |ss|
  {
    if ss == [] then Image(vm, NO_AREAS) else
    var n := |ss| - 1;
    var before := LoadList(vm, root, image, ss[..n], file);
    if before.Image? then LoadWithNode(before.vm, before.areas, root, image, ss[n], file) else before
  }

  ghost predicate ListOk(image: seq<byte>, ss: seq<Segment>) {
    && (forall i :: 0 <= i < |ss| ==> SegmentOk(image, ss[i]))
    && (forall i, j :: 0 <= i < j < |ss| ==> PageDisjoint(ss[i], ss[j]))
  }

  ghost predicate ImageOk(image: seq<byte>, segs: seq<Segment>) {
    ListOk(image, Loadable(segs))
  }

  // ---------------------------------------------------------------- where nodes may land

  /** Frame `g` holds a page of one of the segments. */
  ghost predicate InSomePage(mem: Memory, root: nat, ss: seq<Segment>, g: nat) {
    exists i, j :: 0 <= i < |ss| && 0 <= j < PageCount(ss[i]) && InPage(mem, root, SegmentPaths(ss[i])[j], g)
  }

  /**
   Every node after the first lands in a page of the program itself.  With a single segment there
   is nothing to ask; otherwise the frame after the last node could be a page table.
   */
  ghost predicate NodesInPages(vm: Vm, root: nat, image: seq<byte>, ss: seq<Segment>, file: u64)
    decreases |ss|
  {
    ss != [] ==>
      var n := |ss| - 1;
      && NodesInPages(vm, root, image, ss[..n], file)
      && var before := LoadList(vm, root, image, ss[..n], file);
      (n > 0 && before.Image? && LoadSegment(before.vm, root, image, ss[n]).Loaded? ==>
         InSomePage(LoadSegment(before.vm, root, image, ss[n]).vm.mem, root, ss, before.areas.first + n))
  }

  lemma LoadStep(vm: Vm, root: nat, image: seq<byte>, ss: seq<Segment>, file: u64)
    requires ss != []
    ensures var n := |ss| - 1;
            var before := LoadList(vm, root, image, ss[..n], file);
            && (before.Image? ==>
                  LoadList(vm, root, image, ss, file) ==
                      LoadWithNode(before.vm, before.areas, root, image, ss[n], file))
            && (!before.Image? ==> LoadList(vm, root, image, ss, file) == before)
  {
    hide LoadWithNode;
  }

  lemma ClearStep(vm: Vm, root: nat, image: seq<byte>, ss: seq<Segment>, file: u64)
    requires ss != []
    requires NodesInPages(vm, root, image, ss[..|ss| - 1], file)
    requires var n := |ss| - 1;
             var before := LoadList(vm, root, image, ss[..n], file);
             n > 0 && before.Image? && LoadSegment(before.vm, root, image, ss[n]).Loaded? ==>
               InSomePage(LoadSegment(before.vm, root, image, ss[n]).vm.mem, root, ss, before.areas.first + n)
    ensures NodesInPages(vm, root, image, ss, file)
  {
    hide InSomePage, LoadSegment, LoadList;
  }

  lemma ClearUnfold(vm: Vm, root: nat, image: seq<byte>, ss: seq<Segment>, file: u64)
    requires ss != [] && NodesInPages(vm, root, image, ss, file)
    ensures var n := |ss| - 1;
            var before := LoadList(vm, root, image, ss[..n], file);
            && NodesInPages(vm, root, image, ss[..n], file)
            && (n > 0 && before.Image? && LoadSegment(before.vm, root, image, ss[n]).Loaded? ==>
                  InSomePage(LoadSegment(before.vm, root, image, ss[n]).vm.mem, root, ss, before.areas.first + n))
  {
    hide InSomePage, LoadSegment, LoadList;
  }

  lemma OneIsClear(vm: Vm, root: nat, image: seq<byte>, ss: seq<Segment>, file: u64)
    requires |ss| <= 1
    ensures NodesInPages(vm, root, image, ss, file)
  {
    if ss != [] {
      assert ss[..0] == [] && NodesInPages(vm, root, image, [], file);
    }
  }

  // ---------------------------------------------------------------- what is loaded

  /** Offset `o` of frame `f` is not part of a node. */
  predicate NoNodeAt(areas: Areas, f: nat, o: nat) {
    !(IsNode(areas, f) && 8 <= o < NODE_BYTES)
  }

  /** The byte lies in a data page of its own and reads as wanted, unless a node lies over it. */
  ghost predicate ByteSeen(mem: Memory, own: map<nat, Owner>, root: nat, l: Loc, v: byte, areas: Areas)
    requires |l.path| == 4
  {
    && LocHolds(mem, own, root, l)
    && (NoNodeAt(areas, FrameOf(Walk(mem, root, l.path).value), l.off) ==> ReadAt(mem, root, l.path, l.off) == Some(v))
  }

  ghost predicate BytesSeen(mem: Memory, own: map<nat, Owner>, root: nat, image: seq<byte>, s: Segment, areas: Areas)
  {
    forall k :: 0 <= k < Extent(s) ==> ByteSeen(mem, own, root, Locate(s.vaddr + k), Wanted(image, s, k), areas)
  }

  /** The frames of the nodes came into use since `vm`, hold no table, and the first belongs to no page. */
  ghost predicate NodesHeld(vm: Vm, vm': Vm, own': map<nat, Owner>, areas: Areas) {
    && |vm'.pages| == |vm.pages| == |vm'.mem|
    && (forall f: nat :: IsNode(areas, f) ==>
          f < |vm.pages| && vm.pages[f].used == 0 && vm'.pages[f].used == 1 && !IsTable(own', f))
    && (areas.list != [] ==> areas.first !in own')
  }

  ghost predicate OutsideAll(ss: seq<Segment>, q: seq<nat>) {
    forall i :: 0 <= i < |ss| ==> q !in SegmentPaths(ss[i])
  }

  ghost predicate WalksOutside(mem: Memory, mem': Memory, root: nat, ss: seq<Segment>) {
    forall q: seq<nat> :: |q| == 4 && Indices(q) && OutsideAll(ss, q) ==> Walk(mem', root, q) == Walk(mem, root, q)
  }

  /** The segments `ss` are loaded and the nodes `areas` are stored. */
  ghost predicate ImageLoaded(vm: Vm, own: map<nat, Owner>, vm': Vm, own': map<nat, Owner>, kroot: nat, root: nat,
                              image: seq<byte>, ss: seq<Segment>, areas: Areas, file: u64)
  {
    && TreeInv(vm', own', kroot) && Grows(vm, own, vm', own')
    && NodesHeld(vm, vm', own', areas) && Listed(vm'.mem, areas, file)
    && AllPagesFresh(vm'.mem, own, own', root, ss) && AllSeen(vm'.mem, own', root, image, ss, areas)
    && WalksOutside(vm.mem, vm'.mem, root, ss)
  }

  ghost predicate AllPagesFresh(mem: Memory, own: map<nat, Owner>, own': map<nat, Owner>, root: nat, ss: seq<Segment>) {
    forall i :: 0 <= i < |ss| ==> PagesFresh(mem, own, own', root, SegmentPaths(ss[i]), SegmentPages(ss[i]))
  }

  ghost predicate AllSeen(mem: Memory, own: map<nat, Owner>, root: nat, image: seq<byte>, ss: seq<Segment>,
                          areas: Areas)
  {
    forall i :: 0 <= i < |ss| ==> BytesSeen(mem, own, root, image, ss[i], areas)
  }

  lemma OneMoreSeen(mem: Memory, own: map<nat, Owner>, own': map<nat, Owner>, root: nat, image: seq<byte>,
                    ss: seq<Segment>, s: Segment, areas: Areas)
    requires AllPagesFresh(mem, own, own', root, ss) && AllSeen(mem, own', root, image, ss, areas)
    requires PagesFresh(mem, own, own', root, SegmentPaths(s), SegmentPages(s))
    requires BytesSeen(mem, own', root, image, s, areas)
    ensures AllPagesFresh(mem, own, own', root, ss + [s]) && AllSeen(mem, own', root, image, ss + [s], areas)
  {
    hide PagesFresh, BytesSeen, SegmentPaths, SegmentPages;
  }

  lemma LoadedTree(vm: Vm, own: map<nat, Owner>, vm': Vm, own': map<nat, Owner>, kroot: nat, root: nat,
                   image: seq<byte>, ss: seq<Segment>, areas: Areas, file: u64)
    requires ImageLoaded(vm, own, vm', own', kroot, root, image, ss, areas, file)
    ensures TreeInv(vm', own', kroot) && Grows(vm, own, vm', own')
  {
  }

  // ---------------------------------------------------------------- one more segment

  lemma ByteStays(vm: Vm, own: map<nat, Owner>, vm': Vm, own': map<nat, Owner>, kroot: nat, root: nat, l: Loc, v: byte,
                  areas: Areas)
    requires TreeInv(vm, own, kroot) && Grows(vm, own, vm', own') && GoodLoc(l)
    requires ByteSeen(vm.mem, own, root, l, v, areas)
    requires Walk(vm'.mem, root, l.path) == Walk(vm.mem, root, l.path)
    ensures ByteSeen(vm'.mem, own', root, l, v, areas)
  {
    GrowthKeepsByte(vm, own, vm', own', kroot, root, l);
  }

  /** Loading a segment leaves the bytes of page-disjoint segments as they were. */
  lemma EarlierSegmentStays(vm: Vm, own: map<nat, Owner>, vm': Vm, own': map<nat, Owner>, kroot: nat, root: nat,
                            image: seq<byte>, s: Segment, t: Segment, areas: Areas)
    requires TreeInv(vm, own, kroot) && Grows(vm, own, vm', own') && PageDisjoint(s, t) && Covered(s)
    requires BytesSeen(vm.mem, own, root, image, s, areas)
    requires forall q: seq<nat> :: |q| == 4 && Indices(q) && q !in SegmentPaths(t) ==>
                                   Walk(vm'.mem, root, q) == Walk(vm.mem, root, q)
    ensures BytesSeen(vm'.mem, own', root, image, s, areas)
  {
    hide Locate, SegmentPaths, TreeInv, Grows, PageDisjoint, ByteSeen, Walk, Wanted, Covered;
    forall k | 0 <= k < Extent(s)
      ensures ByteSeen(vm'.mem, own', root, Locate(s.vaddr + k), Wanted(image, s, k), areas)
    {
      DisjointPaths(s, t, k);
      LocateGood(s.vaddr + k, s.vaddr + k);
      ByteStays(vm, own, vm', own', kroot, root, Locate(s.vaddr + k), Wanted(image, s, k), areas);
    }
  }

  lemma DisjointPagePath(s: Segment, t: Segment, j: nat)
    requires PageDisjoint(s, t) && j < PageCount(s)
    ensures SegmentPaths(s)[j] !in SegmentPaths(t)
  {
    forall i | 0 <= i < PageCount(t) ensures SegmentPaths(t)[i] != SegmentPaths(s)[j] {
      assert SegmentPages(s)[j] != SegmentPages(t)[i];
      DigitsOfPages(s.vaddr / PAGE_SIZE + j, t.vaddr / PAGE_SIZE + i);
    }
  }

  lemma EarlierPagesStay(vm: Vm, own: map<nat, Owner>, vm1: Vm, own1: map<nat, Owner>, vm': Vm, own': map<nat, Owner>,
                         root: nat, s: Segment, t: Segment)
    requires Grows(vm1, own1, vm', own') && PageDisjoint(s, t) && s.memsz < 0x8000_0000
    requires PagesFresh(vm1.mem, own, own1, root, SegmentPaths(s), SegmentPages(s))
    requires forall q: seq<nat> :: |q| == 4 && Indices(q) && q !in SegmentPaths(t) ==>
                                   Walk(vm'.mem, root, q) == Walk(vm1.mem, root, q)
    ensures PagesFresh(vm'.mem, own, own', root, SegmentPaths(s), SegmentPages(s))
  {
    SegmentPathsGood(s);
    hide SegmentPaths, SegmentPages, PageDisjoint, Walk, Grows;
    forall j | 0 <= j < PageCount(s)
      ensures FreshPage(vm'.mem, own, own', root, SegmentPaths(s)[j], SegmentPages(s)[j])
    {
      DisjointPagePath(s, t, j);
      FreshStays(vm, own, vm1, own1, vm', own', root, SegmentPaths(s)[j], SegmentPages(s)[j]);
    }
  }

  lemma PagesFreshSince(vm: Vm, own: map<nat, Owner>, vm1: Vm, own1: map<nat, Owner>, mem': Memory,
                        own': map<nat, Owner>, root: nat, paths: seq<seq<nat>>, tags: seq<nat>)
    requires Grows(vm, own, vm1, own1) && PagesFresh(mem', own1, own', root, paths, tags)
    ensures PagesFresh(mem', own, own', root, paths, tags)
  {
  }

  lemma NodesStay(vm: Vm, own: map<nat, Owner>, vm1: Vm, own1: map<nat, Owner>, vm': Vm, own': map<nat, Owner>,
                  areas: Areas, file: u64)
    requires Grows(vm1, own1, vm', own') && NodesHeld(vm, vm1, own1, areas) && Listed(vm1.mem, areas, file)
    ensures NodesHeld(vm, vm', own', areas) && Listed(vm'.mem, areas, file)
  {
    forall f: nat | IsNode(areas, f)
      ensures f < |vm'.mem| && vm'.mem[f] == vm1.mem[f] && vm'.pages[f].used == 1
      ensures (f in own' ==> f in own1 && own'[f] == own1[f])
    {
      GrowsKeepsFrame(vm1, own1, vm', own', f);
    }
    forall j, i | 0 <= j < |areas.list| && 1 <= i < 8
      ensures Word(vm'.mem, areas.first + j, i) == AreaWord(areas, file, j, i)
    {
      assert IsNode(areas, areas.first + j);
      assert Word(vm'.mem, areas.first + j, i) == Word(vm1.mem, areas.first + j, i);
    }
  }

  lemma OutsideWalksStay(mem: Memory, mem1: Memory, mem': Memory, root: nat, ss: seq<Segment>, s: Segment)
    requires WalksOutside(mem, mem1, root, ss)
    requires forall q: seq<nat> :: |q| == 4 && Indices(q) && q !in SegmentPaths(s) ==>
               Walk(mem', root, q) == Walk(mem1, root, q)
    ensures WalksOutside(mem, mem', root, ss + [s])
  {
    hide Walk, SegmentPaths;
    forall q: seq<nat> | |q| == 4 && Indices(q) && OutsideAll(ss + [s], q)
      ensures Walk(mem', root, q) == Walk(mem, root, q)
    {
      assert (ss + [s])[|ss|] == s && q !in SegmentPaths(s);
      assert forall i :: 0 <= i < |ss| ==> (ss + [s])[i] == ss[i];
      assert OutsideAll(ss, q);
    }
  }

  lemma LoadedIsSeen(mem: Memory, own: map<nat, Owner>, root: nat, image: seq<byte>, s: Segment, areas: Areas)
    requires SegmentLoaded(mem, own, root, image, s)
    ensures BytesSeen(mem, own, root, image, s, areas)
  {
    hide Locate, Wanted;
    forall k | 0 <= k < Extent(s) ensures ByteSeen(mem, own, root, Locate(s.vaddr + k), Wanted(image, s, k), areas) {
      assert ByteLoaded(mem, own, root, image, s, k);
    }
  }

  /** The segment part of one turn of the loop. */
  lemma OneMoreSegment(vm: Vm, own: map<nat, Owner>, vm1: Vm, own1: map<nat, Owner>, kroot: nat, root: nat,
                       image: seq<byte>, ss: seq<Segment>, s: Segment, areas: Areas, file: u64)
    returns (own': map<nat, Owner>)
    requires TreeInv(vm, own, kroot) && IsRoot(own, root) && ListOk(image, ss + [s])
    requires ImageLoaded(vm, own, vm1, own1, kroot, root, image, ss, areas, file)
    requires RegionAlloc(vm1, root, SegmentPaths(s)).Some?
    ensures LoadSegment(vm1, root, image, s).Loaded?
    ensures ImageLoaded(vm, own, LoadSegment(vm1, root, image, s).vm, own', kroot, root, image, ss + [s], areas, file)
  {
    LastOfList(image, ss, s);
    hide SegmentPaths, SegmentPages, RegionAlloc, TreeInv, Grows, Walk, PageDisjoint, LoadSegment, SegmentLoaded,
         PagesFresh, BytesSeen, WalksOutside, NodesHeld, Listed, AllPagesFresh, AllSeen, ListOk, SegmentOk;
    GrowsKeepsRoots(vm, own, vm1, own1);
    own' := SegmentTheorem(vm1, own1, kroot, root, image, s);
    var vm' := LoadSegment(vm1, root, image, s).vm;
    GrowsTree(vm, own, vm1, own1, vm', own', kroot);
    OutsideWalksStay(vm.mem, vm1.mem, vm'.mem, root, ss, s);
    NodesStay(vm, own, vm1, own1, vm', own', areas, file);
    LoadedIsSeen(vm'.mem, own', root, image, s, areas);
    PagesFreshSince(vm, own, vm1, own1, vm'.mem, own', root, SegmentPaths(s), SegmentPages(s));
    EarlierSegmentsStay(vm, own, vm1, own1, vm', own', kroot, root, image, ss, s, areas);
    OneMoreSeen(vm'.mem, own, own', root, image, ss, s, areas);
  }

  lemma LastOfList(image: seq<byte>, ss: seq<Segment>, s: Segment)
    requires ListOk(image, ss + [s])
    ensures SegmentOk(image, s)
    ensures forall i :: 0 <= i < |ss| ==> SegmentOk(image, ss[i]) && PageDisjoint(ss[i], s)
  {
    assert (ss + [s])[|ss|] == s && forall i :: 0 <= i < |ss| ==> (ss + [s])[i] == ss[i];
  }

  lemma EarlierSegmentsStay(vm: Vm, own: map<nat, Owner>, vm1: Vm, own1: map<nat, Owner>, vm': Vm,
                            own': map<nat, Owner>, kroot: nat, root: nat, image: seq<byte>, ss: seq<Segment>,
                            s: Segment, areas: Areas)
    requires TreeInv(vm1, own1, kroot) && Grows(vm1, own1, vm', own')
    requires forall i :: 0 <= i < |ss| ==> SegmentOk(image, ss[i]) && PageDisjoint(ss[i], s)
    requires AllPagesFresh(vm1.mem, own, own1, root, ss) && AllSeen(vm1.mem, own1, root, image, ss, areas)
    requires forall q: seq<nat> :: |q| == 4 && Indices(q) && q !in SegmentPaths(s) ==>
               Walk(vm'.mem, root, q) == Walk(vm1.mem, root, q)
    ensures AllPagesFresh(vm'.mem, own, own', root, ss) && AllSeen(vm'.mem, own', root, image, ss, areas)
  {
    hide SegmentPaths, SegmentPages, TreeInv, Grows, Walk, PageDisjoint, PagesFresh, BytesSeen;
    forall i | 0 <= i < |ss|
      ensures BytesSeen(vm'.mem, own', root, image, ss[i], areas)
      ensures PagesFresh(vm'.mem, own, own', root, SegmentPaths(ss[i]), SegmentPages(ss[i]))
    {
      EarlierSegmentStays(vm1, own1, vm', own', kroot, root, image, ss[i], s, areas);
      EarlierPagesStay(vm, own, vm1, own1, vm', own', root, ss[i], s);
    }
  }

  // ---------------------------------------------------------------- one more node

  lemma SeenUnderNodes(vm: Vm, own: map<nat, Owner>, mem': Memory, root: nat, l: Loc, v: byte, areas: Areas,
                       areas': Areas)
    requires WellFormed(vm) && GoodLoc(l) && ByteSeen(vm.mem, own, root, l, v, areas)
    requires OnlyNodesDiffer(vm.mem, mem', areas') && Walk(mem', root, l.path) == Walk(vm.mem, root, l.path)
    requires forall f: nat :: IsNode(areas, f) ==> IsNode(areas', f)
    ensures ByteSeen(mem', own, root, l, v, areas')
  {
    var f := FrameOf(Walk(vm.mem, root, l.path).value);
    if NoNodeAt(areas', f, l.off) {
      assert Word(mem', f, l.off / 8) == Word(vm.mem, f, l.off / 8) by {
        if !IsNode(areas', f) && f < |vm.mem| {
          assert mem'[f] == vm.mem[f];
        }
      }
    }
  }

  lemma NodesGrow(vm: Vm, own: map<nat, Owner>, vm1: Vm, own1: map<nat, Owner>, kroot: nat, mem': Memory, areas: Areas)
    requires WellFormed(vm) && TreeInv(vm1, own1, kroot) && Grows(vm, own, vm1, own1) && NodesHeld(vm, vm1, own1, areas)
    requires OnlyNodesDiffer(vm1.mem, mem', areas)
    ensures var vm' := vm1.(mem := mem');
            && TreeInv(vm', own1, kroot) && Grows(vm, own, vm', own1) && SameWalks(own1, vm1.mem, mem')
            && NodesHeld(vm, vm', own1, areas)
  {
    var vm' := vm1.(mem := mem');
    assert forall t: nat :: IsTable(own1, t) ==> t < |vm1.mem| && !IsNode(areas, t) && mem'[t] == vm1.mem[t];
    TreeInvOnTables(vm1, own1, kroot, vm');
    assert forall t, i :: IsTable(own1, t) && 0 <= i < ENTRIES ==> Word(mem', t, i) == Word(vm1.mem, t, i);
    WalksOnTables(vm1, own1, kroot, mem');
    GrowsOverNodes(vm, own, vm1, own1, mem', areas);
  }

  lemma GrowsOverNodes(vm: Vm, own: map<nat, Owner>, vm1: Vm, own1: map<nat, Owner>, mem': Memory, areas: Areas)
    requires WellFormed(vm) && Grows(vm, own, vm1, own1) && NodesHeld(vm, vm1, own1, areas)
    requires OnlyNodesDiffer(vm1.mem, mem', areas)
    ensures Grows(vm, own, vm1.(mem := mem'), own1)
  {
    forall r, i | IsRoot(own, r) && 0 <= i < ENTRIES && Present(Word(vm.mem, r, i))
      ensures Word(mem', r, i) == Word(vm.mem, r, i)
    {
      assert Word(vm1.mem, r, i) == Word(vm.mem, r, i);
      assert IsTable(own1, r) && !IsNode(areas, r);
    }
  }

  lemma SegmentUnderNodes(vm: Vm, own: map<nat, Owner>, mem': Memory, root: nat, image: seq<byte>, s: Segment,
                          areas: Areas, areas': Areas)
    requires WellFormed(vm) && IsRoot(own, root) && BytesSeen(vm.mem, own, root, image, s, areas)
    requires OnlyNodesDiffer(vm.mem, mem', areas') && SameWalks(own, vm.mem, mem')
    requires forall f: nat :: IsNode(areas, f) ==> IsNode(areas', f)
    ensures BytesSeen(mem', own, root, image, s, areas')
  {
    hide Locate, Wanted, OnlyNodesDiffer, ByteSeen, Walk;
    forall k | 0 <= k < Extent(s)
      ensures ByteSeen(mem', own, root, Locate(s.vaddr + k), Wanted(image, s, k), areas')
    {
      LocateGood(s.vaddr + k, s.vaddr + k);
      assert Walk(mem', root, Locate(s.vaddr + k).path) == Walk(vm.mem, root, Locate(s.vaddr + k).path);
      SeenUnderNodes(vm, own, mem', root, Locate(s.vaddr + k), Wanted(image, s, k), areas, areas');
    }
  }

  lemma WalksOutsideStay(own: map<nat, Owner>, mem: Memory, mem1: Memory, mem': Memory, root: nat, ss: seq<Segment>)
    requires WalksOutside(mem, mem1, root, ss) && SameWalks(own, mem1, mem') && IsRoot(own, root)
    ensures WalksOutside(mem, mem', root, ss)
  {
    hide Walk, SegmentPaths;
    forall q: seq<nat> | |q| == 4 && Indices(q) && OutsideAll(ss, q) ensures Walk(mem', root, q) == Walk(mem, root, q) {
      assert Walk(mem', root, q) == Walk(mem1, root, q);
    }
  }

  /** Storing nodes in frames that hold no table: the image stays loaded, apart from the bytes under the nodes. */
  lemma OneMoreNode(vm: Vm, own: map<nat, Owner>, vm1: Vm, own1: map<nat, Owner>, kroot: nat, root: nat,
                    image: seq<byte>, ss: seq<Segment>, areas: Areas, areas': Areas, mem': Memory, file: u64)
    requires TreeInv(vm, own, kroot) && IsRoot(own, root) && ListOk(image, ss)
    requires ImageLoaded(vm, own, vm1, own1, kroot, root, image, ss, areas, file)
    requires NodesHeld(vm, vm1, own1, areas') && OnlyNodesDiffer(vm1.mem, mem', areas') && Listed(mem', areas', file)
    requires forall f: nat :: IsNode(areas, f) ==> IsNode(areas', f)
    ensures ImageLoaded(vm, own, vm1.(mem := mem'), own1, kroot, root, image, ss, areas', file)
    ensures SameWalks(own1, vm1.mem, mem')
  {
    assert WellFormed(vm) && WellFormed(vm1);
    assert forall i :: 0 <= i < |ss| ==> SegmentOk(image, ss[i]);
    hide TreeInv, Grows, Walk, PageDisjoint, SegmentPaths, SegmentPages, PagesFresh, BytesSeen, WalksOutside, NodesHeld,
         Listed, OnlyNodesDiffer, SameWalks;
    GrowsKeepsRoots(vm, own, vm1, own1);
    NodesGrow(vm, own, vm1, own1, kroot, mem', areas');
    WalksOutsideStay(own1, vm.mem, vm1.mem, mem', root, ss);
    forall i | 0 <= i < |ss|
      ensures BytesSeen(mem', own1, root, image, ss[i], areas')
      ensures PagesFresh(mem', own, own1, root, SegmentPaths(ss[i]), SegmentPages(ss[i]))
    {
      SegmentUnderNodes(vm1, own1, mem', root, image, ss[i], areas, areas');
      SegmentPathsGood(ss[i]);
      PagesFreshOnWalks(own, own1, vm1.mem, mem', root, SegmentPaths(ss[i]), SegmentPages(ss[i]));
    }
  }

  /** Growth that moves no page keeps the image loaded. */
  lemma LoadedAfterGrowth(vm: Vm, own: map<nat, Owner>, vm1: Vm, own1: map<nat, Owner>, vm2: Vm, kroot: nat, root: nat,
                          image: seq<byte>, ss: seq<Segment>, areas: Areas, file: u64)
    requires TreeInv(vm, own, kroot) && IsRoot(own, root) && ListOk(image, ss)
    requires ImageLoaded(vm, own, vm1, own1, kroot, root, image, ss, areas, file)
    requires TreeInv(vm2, own1, kroot) && Grows(vm1, own1, vm2, own1) && SameWalks(own1, vm1.mem, vm2.mem)
    ensures ImageLoaded(vm, own, vm2, own1, kroot, root, image, ss, areas, file)
  {
    assert forall i :: 0 <= i < |ss| ==> SegmentOk(image, ss[i]);
    hide TreeInv, Grows, Walk, PageDisjoint, SegmentPaths, SegmentPages, PagesFresh, WalksOutside, SameWalks, BytesSeen,
         NodesHeld, Listed;
    GrowsKeepsRoots(vm, own, vm1, own1);
    GrowsTree(vm, own, vm1, own1, vm2, own1, kroot);
    NodesStay(vm, own, vm1, own1, vm2, own1, areas, file);
    WalksOutsideStay(own1, vm.mem, vm1.mem, vm2.mem, root, ss);
    forall i | 0 <= i < |ss|
      ensures BytesSeen(vm2.mem, own1, root, image, ss[i], areas)
      ensures PagesFresh(vm2.mem, own, own1, root, SegmentPaths(ss[i]), SegmentPages(ss[i]))
    {
      SegmentPathsGood(ss[i]);
      PagesFreshOnWalks(own, own1, vm1.mem, vm2.mem, root, SegmentPaths(ss[i]), SegmentPages(ss[i]));
      SeenAfterGrowth(vm1, own1, vm2, kroot, root, image, ss[i], areas);
    }
  }

  /** A page for the first node belongs to nobody. */
  lemma PageForNode(vm: Vm, own: map<nat, Owner>, vm1: Vm, own1: map<nat, Owner>, kroot: nat, s: Segment)
    requires TreeInv(vm, own, kroot) && TreeInv(vm1, own1, kroot) && Grows(vm, own, vm1, own1)
    requires AllocFrames(vm1, 1).Some?
    ensures var (vm2, f) := AllocFrames(vm1, 1).value;
            && TreeInv(vm2, own1, kroot) && Grows(vm1, own1, vm2, own1) && SameWalks(own1, vm1.mem, vm2.mem)
            && f < |vm2.mem| && |vm2.mem[f]| == ENTRIES && NodesHeld(vm, vm2, own1, Areas(f, [s]))
  {
    hide AllocFrames, SameWalks, Walk, TreeInv, Grows, WellFormed, NodesHeld;
    TreeIsWellFormed(vm, own, kroot);
    AllocKeepsTree(vm1, own1, kroot, 1);
    AllocKeepsWalks(vm1, own1, kroot, 1);
    var (vm2, f) := AllocFrames(vm1, 1).value;
    TreeIsWellFormed(vm2, own1, kroot);
    FreeBefore(vm, own, vm1, own1, f);
    OneHeld(vm, vm2, own1, f, s);
  }

  lemma OneHeld(vm: Vm, vm2: Vm, own: map<nat, Owner>, f: nat, s: Segment)
    requires WellFormed(vm2) && |vm2.pages| == |vm.pages| && f < |vm2.mem|
    requires vm.pages[f].used == 0 && vm2.pages[f].used == 1 && f !in own
    ensures |vm2.mem[f]| == ENTRIES && NodesHeld(vm, vm2, own, Areas(f, [s]))
  {
  }

  lemma SeenAfterGrowth(vm: Vm, own: map<nat, Owner>, vm': Vm, kroot: nat, root: nat, image: seq<byte>, s: Segment,
                        areas: Areas)
    requires TreeInv(vm, own, kroot) && Grows(vm, own, vm', own) && SameWalks(own, vm.mem, vm'.mem) && IsRoot(own, root)
    requires BytesSeen(vm.mem, own, root, image, s, areas)
    ensures BytesSeen(vm'.mem, own, root, image, s, areas)
  {
    hide Locate, TreeInv, Grows, ByteSeen, Walk, Wanted;
    forall k | 0 <= k < Extent(s)
      ensures ByteSeen(vm'.mem, own, root, Locate(s.vaddr + k), Wanted(image, s, k), areas)
    {
      LocateGood(s.vaddr + k, s.vaddr + k);
      assert Walk(vm'.mem, root, Locate(s.vaddr + k).path) == Walk(vm.mem, root, Locate(s.vaddr + k).path);
      ByteStays(vm, own, vm', own, kroot, root, Locate(s.vaddr + k), Wanted(image, s, k), areas);
    }
  }

  lemma FirstNode(vm: Vm, own: map<nat, Owner>, vm1: Vm, own1: map<nat, Owner>, kroot: nat, root: nat, image: seq<byte>,
                  ss: seq<Segment>, s: Segment, file: u64)
    requires TreeInv(vm, own, kroot) && IsRoot(own, root) && ListOk(image, ss)
    requires ImageLoaded(vm, own, vm1, own1, kroot, root, image, ss, NO_AREAS, file)
    requires AddArea(vm1, NO_AREAS, s, file).Some?
    ensures var (vm', areas') := AddArea(vm1, NO_AREAS, s, file).value;
            ImageLoaded(vm, own, vm', own1, kroot, root, image, ss, areas', file) && areas'.list == [s]
  {
    assert TreeInv(vm1, own1, kroot) && Grows(vm, own, vm1, own1);
    hide ImageLoaded, TreeInv, ListOk, AllocFrames, NodesHeld, StoreNode, Grows, SameWalks;
    PageForNode(vm, own, vm1, own1, kroot, s);
    var (vm2, f) := AllocFrames(vm1, 1).value;
    LoadedAfterGrowth(vm, own, vm1, own1, vm2, kroot, root, image, ss, NO_AREAS, file);
    FirstNodeStored(vm2.mem, f, s, file);
    hide OnlyNodesDiffer, Listed;
    OneMoreNode(vm, own, vm2, own1, kroot, root, image, ss, NO_AREAS, Areas(f, [s]), StoreNode(vm2.mem, f, s, file),
                file);
  }

  /** A frame that holds a page of the program holds no table, and came into use since `vm`. */
  lemma PageIsNoTable(vm: Vm, own: map<nat, Owner>, vm1: Vm, own1: map<nat, Owner>, kroot: nat, root: nat,
                      ss: seq<Segment>, g: nat)
    requires TreeInv(vm1, own1, kroot) && Grows(vm, own, vm1, own1) && InSomePage(vm1.mem, root, ss, g)
    requires AllPagesFresh(vm1.mem, own, own1, root, ss)
    ensures g < |vm.pages| && vm.pages[g].used == 0 && g < |vm1.pages| && vm1.pages[g].used == 1 && g in own1
    ensures own1[g].Data?
  {
    hide SegmentPaths, SegmentPages;
    var i, j :| 0 <= i < |ss| && 0 <= j < PageCount(ss[i]) && InPage(vm1.mem, root, SegmentPaths(ss[i])[j], g);
    assert FreshPage(vm1.mem, own, own1, root, SegmentPaths(ss[i])[j], SegmentPages(ss[i])[j]);
  }

  lemma RoomForNode(vm: Vm, own: map<nat, Owner>, vm1: Vm, own1: map<nat, Owner>, kroot: nat, root: nat,
                    ss: seq<Segment>, areas: Areas, s: Segment)
    requires TreeInv(vm1, own1, kroot) && Grows(vm, own, vm1, own1) && NodesHeld(vm, vm1, own1, areas)
    requires areas.list != [] && InSomePage(vm1.mem, root, ss, areas.first + |areas.list|)
    requires AllPagesFresh(vm1.mem, own, own1, root, ss)
    ensures areas.first + |areas.list| < |vm1.mem| <= MAX_FRAMES && forall f :: 0 <= f < |vm1.mem| ==>
              |vm1.mem[f]| == ENTRIES
    ensures NodesHeld(vm, vm1, own1, areas.(list := areas.list + [s]))
  {
    TreeIsWellFormed(vm1, own1, kroot);
    PageIsNoTable(vm, own, vm1, own1, kroot, root, ss, areas.first + |areas.list|);
    hide TreeInv, Grows, InSomePage, AllPagesFresh, Countdown;
    OneMoreHeld(vm, vm1, own1, areas, s);
  }

  lemma OneMoreHeld(vm: Vm, vm1: Vm, own1: map<nat, Owner>, areas: Areas, s: Segment)
    requires NodesHeld(vm, vm1, own1, areas) && areas.list != []
    requires var g := areas.first + |areas.list|;
             g < |vm.pages| && vm.pages[g].used == 0 && g < |vm1.pages| && vm1.pages[g].used == 1 && !IsTable(own1, g)
    ensures NodesHeld(vm, vm1, own1, areas.(list := areas.list + [s]))
  {
  }

  lemma FurtherNode(vm: Vm, own: map<nat, Owner>, vm1: Vm, own1: map<nat, Owner>, kroot: nat, root: nat,
                    image: seq<byte>, ss: seq<Segment>, areas: Areas, s: Segment, file: u64)
    requires TreeInv(vm, own, kroot) && IsRoot(own, root) && ListOk(image, ss)
    requires ImageLoaded(vm, own, vm1, own1, kroot, root, image, ss, areas, file)
    requires areas.list != [] && InSomePage(vm1.mem, root, ss, areas.first + |areas.list|)
    ensures var (vm', areas') := AddArea(vm1, areas, s, file).value;
            ImageLoaded(vm, own, vm', own1, kroot, root, image, ss, areas', file) && SameWalks(own1, vm1.mem, vm'.mem)
  {
    hide TreeInv, ListOk, NodesHeld, AppendNode, OnlyNodesDiffer, Listed, Grows, AllSeen, AllPagesFresh, WalksOutside,
         InSomePage;
    var g := areas.first + |areas.list|;
    var areas' := areas.(list := areas.list + [s]);
    RoomForNode(vm, own, vm1, own1, kroot, root, ss, areas, s);
    NodeAppended(vm1.mem, areas, s, file);
    hide ImageLoaded;
    OneMoreNode(vm, own, vm1, own1, kroot, root, image, ss, areas, areas', AppendNode(vm1.mem, g - 1, s, file), file);
  }

  // ---------------------------------------------------------------- the whole image

  lemma ListPrefix(image: seq<byte>, ss: seq<Segment>)
    requires ListOk(image, ss) && ss != []
    ensures ListOk(image, ss[..|ss| - 1])
    ensures ss[..|ss| - 1] + [ss[|ss| - 1]] == ss
  {
    hide PageDisjoint;
  }

  /** One turn of the loop. */
  lemma OneMoreTurn(vm: Vm, own: map<nat, Owner>, vm1: Vm, own1: map<nat, Owner>, kroot: nat, root: nat,
                    image: seq<byte>, ss: seq<Segment>, s: Segment, areas: Areas, file: u64)
    returns (own': map<nat, Owner>)
    requires TreeInv(vm, own, kroot) && IsRoot(own, root) && ListOk(image, ss + [s])
    requires areas.list == ss && (ss == [] ==> areas == NO_AREAS)
    requires ImageLoaded(vm, own, vm1, own1, kroot, root, image, ss, areas, file)
    requires ss != [] && LoadSegment(vm1, root, image, s).Loaded? ==>
               InSomePage(LoadSegment(vm1, root, image, s).vm.mem, root, ss + [s], areas.first + |ss|)
    ensures LoadWithNode(vm1, areas, root, image, s, file) != Fault
    ensures var r := LoadWithNode(vm1, areas, root, image, s, file);
            r.Image? ==> r.areas.list == ss + [s]
                         && ImageLoaded(vm, own, r.vm, own', kroot, root, image, ss + [s], r.areas, file)
  {
    hide ImageLoaded, TreeInv, ListOk, RegionAlloc, CopyAt, Locate, SegmentPaths;
    own' := own1;
    if RegionAlloc(vm1, root, SegmentPaths(s)).Some? {
      own' := OneMoreSegment(vm, own, vm1, own1, kroot, root, image, ss, s, areas, file);
      hide LoadSegment, AppendNode, AllocFrames, StoreNode;
      var vm2 := LoadSegment(vm1, root, image, s).vm;
      if ss != [] {
        FurtherNode(vm, own, vm2, own', kroot, root, image, ss + [s], areas, s, file);
      } else if AddArea(vm2, areas, s, file).Some? {
        FirstNode(vm, own, vm2, own', kroot, root, image, ss + [s], s, file);
      }
    }
  }

  lemma NothingLoaded(vm: Vm, own: map<nat, Owner>, kroot: nat, root: nat, image: seq<byte>, file: u64)
    requires TreeInv(vm, own, kroot) && IsRoot(own, root)
    ensures ImageLoaded(vm, own, vm, own, kroot, root, image, [], NO_AREAS, file)
  {
    PathBase(vm, own, kroot, root);
  }

  /**
   Loading an image whose loadable segments share no page, when no node lands outside the program's
   own pages: it never faults, and if memory suffices then every byte of every segment reads through
   the new root as the file byte or as zero, except under the nodes, which are all in memory; pages
   outside keep their translation, and nothing in use before has changed.
   */
  lemma {:induction false} LoadTheorem(vm: Vm, own: map<nat, Owner>, kroot: nat, root: nat, image: seq<byte>,
                                       ss: seq<Segment>, file: u64)
    returns (own': map<nat, Owner>)
    requires TreeInv(vm, own, kroot) && IsRoot(own, root) && ListOk(image, ss)
    requires NodesInPages(vm, root, image, ss, file)
    ensures LoadList(vm, root, image, ss, file) != Fault
    ensures var r := LoadList(vm, root, image, ss, file);
            r.Image? ==> r.areas.list == ss && (ss == [] ==> r.areas == NO_AREAS)
                         && ImageLoaded(vm, own, r.vm, own', kroot, root, image, ss, r.areas, file)
    decreases |ss|
  {
    own' := own;
    hide TreeInv, ImageLoaded, InSomePage, LoadSegment, ListOk, LoadWithNode;
    if ss == [] {
      NothingLoaded(vm, own, kroot, root, image, file);
    } else {
      var n := |ss| - 1;
      ListPrefix(image, ss);
      own' := LoadTheorem(vm, own, kroot, root, image, ss[..n], file);
      var before := LoadList(vm, root, image, ss[..n], file);
      if before.Image? {
        own' := OneMoreTurn(vm, own, before.vm, own', kroot, root, image, ss[..n], ss[n], before.areas, file);
      }
    }
  }
}
