/**
 What a program reads after `elf_run_bin`, on memory from which no page was ever released: every node
 behind the first lies over a page of the program, or over one of its page tables.
 */
module ProgramBytes {
  import opened Basics
  import opened Allocator
  import opened AllocatorRuns
  import opened Addresses
  import opened Bytes
  import opened Paging
  import opened PageTree
  import opened Spaces
  import opened UserMemory
  import opened Loader
  import opened AreaList
  import opened ProgramImage
  import opened ProgramRun
  import opened Footprint
  import opened NodePlaces

  // ---------------------------------------------------------------- the call, from the state before it

  /** The nodes of a program fit its pages when the first free frame is `top`. */
  predicate ProgramFits(top: nat, ss: seq<Segment>) {
    NodesFit(StackTables(top), ss)
  }

  /** The frames that a call takes. */
  function ProgramFrames(top: nat, ss: seq<Segment>): nat {
    SPACE_PAGES + ImageFrames(StackTables(top), ss)
  }

  /** The frame of the first node. */
  function NodeStart(top: nat, ss: seq<Segment>): nat
    requires ss != []
  {
    FirstNodeFrame(StackTables(top), top + SPACE_PAGES, ss)
  }

  lemma StackTablesClosed(top: nat)
    ensures Closed(StackTables(top))
  {
    hide Path, StackAddress, WithTables;
    WithTablesClosed({}, Path(StackAddress(top + STACK_AT))[..3]);
  }

  /** The state in which the header loop starts. */
  lemma LoopStart(vm: Vm, own: map<nat, Owner>, kroot: nat, top: nat) returns (own1: map<nat, Owner>)
    requires TreeInv(vm, own, kroot) && FreeSuffix(vm.pages, top) && NewSpace(vm, kroot).Some?
    ensures var (vm1, root, stack) := NewSpace(vm, kroot).value;
            && root == top && stack == top + STACK_AT && |vm1.pages| == |vm.pages|
            && TreeInv(vm1, own1, kroot) && IsRoot(own1, root) && Grows(vm, own, vm1, own1)
            && own1[root] == RootOwner(true)
            && StandsAt(vm1, root, top + SPACE_PAGES, StackTables(top)) && Closed(StackTables(top))
  {
    hide TreeInv, FreeSuffix, NewSpace, Grows, StandsAt, Path, StackAddress, Walk, LeafEntry, Closed, StackTables;
    NewSpaceExact(vm, own, kroot, top);
    own1 := NewSpaceKeepsTree(vm, own, kroot);
    StackTablesClosed(top);
  }

  /** When the nodes fit, all of them lie over pages; when memory suffices as well, only then. */
  lemma NodesClearIff(vm: Vm, own: map<nat, Owner>, kroot: nat, image: seq<byte>, segs: seq<Segment>, file: u64,
                      top: nat)
    requires TreeInv(vm, own, kroot) && FreeSuffix(vm.pages, top) && ImageOk(image, segs)
    ensures ProgramFits(top, Loadable(segs)) ==> NodesClear(vm, kroot, image, segs, file)
    ensures top + ProgramFrames(top, Loadable(segs)) <= |vm.pages| ==>
              (NodesClear(vm, kroot, image, segs, file) <==> ProgramFits(top, Loadable(segs)))
  {
    hide TreeInv, FreeSuffix, NewSpace, Grows, StandsAt, ListOk, NodesInPages, NodesFit, StackTables, ImageFrames,
         Loadable, Closed;
    NewSpaceExact(vm, own, kroot, top);
    if NewSpace(vm, kroot).Some? {
      var own1 := LoopStart(vm, own, kroot, top);
      var (vm1, root, stack) := NewSpace(vm, kroot).value;
      NodesInPagesIff(vm1, own1, kroot, root, image, Loadable(segs), file, top + SPACE_PAGES, StackTables(top));
    }
  }

  /** Whether a call succeeds depends on the number of frames alone, as long as all nodes before the last one fit. */
  lemma RunBinaryFits(vm: Vm, own: map<nat, Owner>, kroot: nat, image: seq<byte>, segs: seq<Segment>, file: u64,
                      top: nat)
    requires TreeInv(vm, own, kroot) && FreeSuffix(vm.pages, top) && ImageOk(image, segs)
    requires Loadable(segs) != [] ==> ProgramFits(top, Loadable(segs)[..|Loadable(segs)| - 1])
    ensures RunBinary(vm, kroot, image, segs, file).Some? <==> top + ProgramFrames(top, Loadable(segs)) <= |vm.pages|
  {
    hide TreeInv, FreeSuffix, NewSpace, Grows, StandsAt, ListOk, LoadList, NodesInPages, NodesFit, StackTables,
         FramesFor, PagePaths, Loadable, Closed, LaidOut;
    NewSpaceExact(vm, own, kroot, top);
    if NewSpace(vm, kroot).Some? {
      var own1 := LoopStart(vm, own, kroot, top);
      var (vm1, root, stack) := NewSpace(vm, kroot).value;
      var ss := Loadable(segs);
      if ss == [] {
        NothingToLoad(vm1, root, image, file, StackTables(top));
      } else {
        ListPrefix(image, ss);
        NodesInPagesIff(vm1, own1, kroot, root, image, ss[..|ss| - 1], file, top + SPACE_PAGES, StackTables(top));
        LaidOutTheorem(vm1, own1, kroot, root, image, ss[..|ss| - 1], file, top + SPACE_PAGES, StackTables(top));
        ListFits(vm1, own1, kroot, root, image, ss, file, top + SPACE_PAGES, StackTables(top));
      }
    }
  }

  lemma NothingToLoad(vm: Vm, root: nat, image: seq<byte>, file: u64, have: set<seq<nat>>)
    ensures LoadList(vm, root, image, [], file) == Image(vm, NO_AREAS) && ImageFrames(have, []) == 0
  {
  }

  // ---------------------------------------------------------------- the byte that is read

  /** The page of byte `k` of segment `i`, counted over all segments. */
  function PageIndex(ss: seq<Segment>, i: nat, k: nat): nat
    requires i < |ss|
  {
    |PagePaths(ss[..i])| + ((ss[i].vaddr + k) / PAGE_SIZE - ss[i].vaddr / PAGE_SIZE)
  }

  /**
   The byte that byte `k` of segment `i` reads as: bytes 8 to 63 of the first pages behind the first
   segment are nodes, whose links depend on the frame `first` of the first node.
   */
  function ByteAfter(image: seq<byte>, ss: seq<Segment>, file: u64, first: nat, i: nat, k: nat): byte
    requires i < |ss|
  {
    var m, o := PageIndex(ss, i, k), (ss[i].vaddr + k) % PAGE_SIZE;
    if FirstPages(ss) <= m < FirstPages(ss) + |ss| - 1 && 8 <= o < NODE_BYTES
    then Byte(AreaWord(Areas(first, ss), file, m - FirstPages(ss) + 1, o / 8), o % 8)
    else Wanted(image, ss[i], k)
  }

  /** When the nodes fit, node `j` lies over the `j`-th page behind the first segment, and over no other. */
  lemma NodeOverPage(have: set<seq<nat>>, top: nat, ss: seq<Segment>, m: nat)
    requires Closed(have) && NodesFit(have, ss) && ss != [] && m < |PagePaths(ss)|
    ensures var first, p := FirstNodeFrame(have, top, ss), FirstPages(ss);
            && (IsNode(Areas(first, ss), PageFrame(have, top, ss, m)) <==> p <= m < p + |ss| - 1)
            && (p <= m < p + |ss| - 1 ==> PageFrame(have, top, ss, m) == first + (m - p + 1))
  {
    hide PagePaths, TablesAfter, SegmentPaths, NodesFit, Closed, FramesFor, NearPage;
    var p, n, a := FirstPages(ss), |ss|, PagePaths(ss);
    FirstPagesFirst(ss);
    forall x | p <= x < p + n - 2 ensures NearPage(have, ss, x) {
      FitIsNear(have, ss, x - p);
    }
    if m < p {
      assert a[..p][..m] == a[..m];
      FramesGrow(have, a[..p], m);
    } else if m < p + n - 1 {
      NearFrames(have, top, ss, m - p);
    } else if n > 1 {
      NearFrames(have, top, ss, n - 2);
      assert a[..m][..p + n - 2] == a[..p + n - 2];
      FramesGrow(have, a[..m], p + n - 2);
    } else {
      OnlyFirstPages(ss);
    }
  }

  lemma OnlyFirstPages(ss: seq<Segment>)
    requires |ss| == 1
    ensures |PagePaths(ss)| == FirstPages(ss)
  {
    assert ss[..0] == [] && PagePaths(ss[..0]) == [];
  }

  lemma PathOfByte(ss: seq<Segment>, i: nat, k: nat)
    requires i < |ss| && k < Extent(ss[i]) && Covered(ss[i])
    ensures PageIndex(ss, i, k) < |PagePaths(ss)| && PagePaths(ss)[PageIndex(ss, i, k)] == Locate(ss[i].vaddr + k).path
    ensures Locate(ss[i].vaddr + k).off == (ss[i].vaddr + k) % PAGE_SIZE
  {
    hide PagePaths, SegmentPaths, PageCount, Digits, Covered, Extent;
    var s := ss[i];
    PagesOfSegment(s, k);
    PathOfPage(ss, i, (s.vaddr + k) / PAGE_SIZE - s.vaddr / PAGE_SIZE);
  }

  lemma OneByte(mem: Memory, own: map<nat, Owner>, root: nat, image: seq<byte>, ss: seq<Segment>, file: u64, top: nat,
                have: set<seq<nat>>, i: nat, k: nat)
    requires Closed(have) && NodesFit(have, ss) && i < |ss| && k < Extent(ss[i]) && Covered(ss[i])
    requires PagesLaid(mem, root, have, top, ss)
    requires var areas := Areas(FirstNodeFrame(have, top, ss), ss);
             BytesSeen(mem, own, root, image, ss[i], areas) && Listed(mem, areas, file)
    ensures ReadByte(mem, root, ss[i].vaddr + k) ==
              Some(ByteAfter(image, ss, file, FirstNodeFrame(have, top, ss), i, k))
  {
    hide PagePaths, TablesAt, NodesFit, Closed, FirstNodeFrame, PageFrame, Locate, Walk, Wanted, Listed, PageIndex,
         NewTables, LocHolds, Byte, AreaWord, ReadAt;
    var first, m := FirstNodeFrame(have, top, ss), PageIndex(ss, i, k);
    var areas := Areas(first, ss);
    var l, v := Locate(ss[i].vaddr + k), Wanted(image, ss[i], k);
    PathOfByte(ss, i, k);
    NodeOverPage(have, top, ss, m);
    assert ByteSeen(mem, own, root, l, v, areas);
    SeenByte(mem, own, root, l, v, areas, file);
    assert PagePlaced(mem, root, TablesAt(have, ss, m), PagePaths(ss)[m], PageFrame(have, top, ss, m));
    assert FrameOf(Walk(mem, root, l.path).value) == PageFrame(have, top, ss, m);
  }

  /** What holds of a program after the call. */
  ghost predicate ReadsAs(p: Program, image: seq<byte>, ss: seq<Segment>, file: u64, first: nat) {
    forall i, k :: 0 <= i < |ss| && 0 <= k < Extent(ss[i]) ==> ByteReadsAs(p, image, ss, file, first, i, k)
  }

  ghost predicate ByteReadsAs(p: Program, image: seq<byte>, ss: seq<Segment>, file: u64, first: nat, i: nat, k: nat)
    requires i < |ss|
  {
    ReadByte(p.vm.mem, p.root, ss[i].vaddr + k) == Some(ByteAfter(image, ss, file, first, i, k))
  }

  /**
   A call of `elf_run_bin` for a program with any number of loadable segments whose nodes fit: where
   root, stack and nodes lie, and what every byte of every segment reads as.
   */
  lemma BytesAfterRun(vm: Vm, own: map<nat, Owner>, kroot: nat, image: seq<byte>, segs: seq<Segment>, file: u64,
                      top: nat)
    returns (own': map<nat, Owner>)
    requires TreeInv(vm, own, kroot) && FreeSuffix(vm.pages, top) && ImageOk(image, segs)
    requires ProgramFits(top, Loadable(segs)) && Loadable(segs) != [] && RunBinary(vm, kroot, image, segs, file).Some?
    ensures var p := RunBinary(vm, kroot, image, segs, file).value;
            var ss := Loadable(segs);
            && TreeInv(p.vm, own', kroot) && Grows(vm, own, p.vm, own') && IsRoot(own', p.root) && own'[p.root].user
            && p.root == top && p.stack == top + STACK_AT && p.areas == Areas(NodeStart(top, ss), ss)
            && Listed(p.vm.mem, p.areas, file)
            && FreeSuffix(p.vm.pages, top + ProgramFrames(top, ss))
            && ReadsAs(p, image, ss, file, NodeStart(top, ss))
  {
    hide TreeInv, FreeSuffix, NewSpace, Grows, ListOk, LoadList, NodesInPages, NodesFit, StackTables, FramesFor,
         PagePaths, Loadable, Closed, PagesLaid, HasTables, Listed, AllPagesFresh, WalksOutside, NodesHeld, ImageFrames,
         FirstNodeFrame, TablesAfter, AllSeen, ReadsAs;
    var ss, have := Loadable(segs), StackTables(top);
    var own1 := LoopStart(vm, own, kroot, top);
    var (vm1, root, stack) := NewSpace(vm, kroot).value;
    NodesInPagesIff(vm1, own1, kroot, root, image, ss, file, top + SPACE_PAGES, have);
    LaidOutTheorem(vm1, own1, kroot, root, image, ss, file, top + SPACE_PAGES, have);
    own' := LoadTheorem(vm1, own1, kroot, root, image, ss, file);
    var p := RunBinary(vm, kroot, image, segs, file).value;
    GrowsTree(vm, own, vm1, own1, p.vm, own', kroot);
    GrowsKeepsRoots(vm1, own1, p.vm, own');
    AllBytes(p, own', image, ss, file, top + SPACE_PAGES, have);
  }

  lemma AllBytes(p: Program, own: map<nat, Owner>, image: seq<byte>, ss: seq<Segment>, file: u64, top: nat,
                 have: set<seq<nat>>)
    requires Closed(have) && NodesFit(have, ss) && ss != [] && ListOk(image, ss)
    requires PagesLaid(p.vm.mem, p.root, have, top, ss)
    requires var areas := Areas(FirstNodeFrame(have, top, ss), ss);
             AllSeen(p.vm.mem, own, p.root, image, ss, areas) && Listed(p.vm.mem, areas, file)
    ensures ReadsAs(p, image, ss, file, FirstNodeFrame(have, top, ss))
  {
    hide Closed, NodesFit, PagesLaid, Listed, BytesSeen, FirstNodeFrame, ReadByte, ByteAfter, PageDisjoint,
         SegmentPaths, Covered, Extent;
    forall i, k | 0 <= i < |ss| && 0 <= k < Extent(ss[i])
      ensures ByteReadsAs(p, image, ss, file, FirstNodeFrame(have, top, ss), i, k)
    {
      assert SegmentOk(image, ss[i])
             && BytesSeen(p.vm.mem, own, p.root, image, ss[i], Areas(FirstNodeFrame(have, top, ss), ss));
      OneByte(p.vm.mem, own, p.root, image, ss, file, top, have, i, k);
    }
  }

  lemma RightIffSame(p: Program, image: seq<byte>, ss: seq<Segment>, file: u64, first: nat, i: nat)
    requires i < |ss| && ReadsAs(p, image, ss, file, first)
    ensures SegmentRight(p.vm.mem, p.root, image, ss[i])
            <==> forall k :: 0 <= k < Extent(ss[i]) ==>
                ByteAfter(image, ss, file, first, i, k) == Wanted(image, ss[i], k)
  {
    hide ReadByte, ByteAfter, Wanted, Extent;
    forall k | 0 <= k < Extent(ss[i])
      ensures ByteRight(p.vm.mem, p.root, image, ss[i], k)
              <==> ByteAfter(image, ss, file, first, i, k) == Wanted(image, ss[i], k)
    {
      assert ByteReadsAs(p, image, ss, file, first, i, k);
    }
  }

  /** The file holds the nodes' own fields wherever a node lies over its bytes. */
  predicate HoldsNodes(image: seq<byte>, ss: seq<Segment>, file: u64, first: nat) {
    forall i, k :: 0 <= i < |ss| && 0 <= k < Extent(ss[i]) ==>
        ByteAfter(image, ss, file, first, i, k) == Wanted(image, ss[i], k)
  }

  lemma AllRightIff(p: Program, image: seq<byte>, ss: seq<Segment>, file: u64, first: nat)
    requires ReadsAs(p, image, ss, file, first)
    ensures (forall i :: 0 <= i < |ss| ==> SegmentRight(p.vm.mem, p.root, image, ss[i]))
            <==> HoldsNodes(image, ss, file, first)
  {
    hide ReadsAs, SegmentRight, ByteAfter, Wanted, Extent;
    forall i | 0 <= i < |ss|
      ensures SegmentRight(p.vm.mem, p.root, image, ss[i])
              <==> forall k :: 0 <= k < Extent(ss[i]) ==>
                  ByteAfter(image, ss, file, first, i, k) == Wanted(image, ss[i], k)
    {
      RightIffSame(p, image, ss, file, first, i);
    }
  }

  /**
   When the nodes fit, all segments are in place exactly when the file happens to hold the nodes'
   own fields there.
   */
  lemma ProgramIntactIff(vm: Vm, own: map<nat, Owner>, kroot: nat, image: seq<byte>, segs: seq<Segment>, file: u64,
                         top: nat)
    requires TreeInv(vm, own, kroot) && FreeSuffix(vm.pages, top) && ImageOk(image, segs)
    requires ProgramFits(top, Loadable(segs)) && Loadable(segs) != [] && RunBinary(vm, kroot, image, segs, file).Some?
    ensures var p := RunBinary(vm, kroot, image, segs, file).value;
            var ss := Loadable(segs);
            (forall i :: 0 <= i < |ss| ==> SegmentRight(p.vm.mem, p.root, image, ss[i]))
            <==> HoldsNodes(image, ss, file, NodeStart(top, ss))
  {
    hide TreeInv, FreeSuffix, RunBinary, ImageOk, ProgramFits, Loadable, NodeStart, HoldsNodes, SegmentRight, ReadsAs,
         Grows, Listed, ProgramFrames;
    var own' := BytesAfterRun(vm, own, kroot, image, segs, file, top);
    AllRightIff(RunBinary(vm, kroot, image, segs, file).value, image, Loadable(segs), file,
                NodeStart(top, Loadable(segs)));
  }

  /** The stack page, when no segment covers it, is still mapped where it was and still zero. */
  lemma StackAfterRun(vm: Vm, own: map<nat, Owner>, kroot: nat, image: seq<byte>, segs: seq<Segment>, file: u64,
                      top: nat)
    requires TreeInv(vm, own, kroot) && FreeSuffix(vm.pages, top) && ImageOk(image, segs)
    requires ProgramFits(top, Loadable(segs)) && RunBinary(vm, kroot, image, segs, file).Some?
    requires OutsideAll(Loadable(segs), Path(StackAddress(top + STACK_AT)))
    ensures var p := RunBinary(vm, kroot, image, segs, file).value;
            var f := top + STACK_AT;
            && Walk(p.vm.mem, p.root, Path(StackAddress(f))) == Some(LeafEntry(FrameAddress(f), true))
            && f < |p.vm.mem| && p.vm.mem[f] == ZeroFrame()
  {
    hide TreeInv, FreeSuffix, NewSpace, Grows, StandsAt, LoadList, ImageOk, ProgramFits, NodesClear, OutsideAll, Path,
         StackAddress, Walk, LeafEntry, Loadable, Closed, StackTables;
    NodesClearIff(vm, own, kroot, image, segs, file, top);
    var own1 := LoopStart(vm, own, kroot, top);
    RunBinaryStack(vm, own, kroot, image, segs, file);
  }

  // ---------------------------------------------------------------- programs whose nodes fit

  /** With two segments the one further node fits as soon as the second segment has a page. */
  lemma TwoFit(have: set<seq<nat>>, ss: seq<Segment>)
    requires |ss| == 2
    ensures NodesFit(have, ss) <==> PageCount(ss[1]) > 0
  {
    hide TablesAfter;
    FirstPagesFirst(ss[..1]);
    assert ss[..2] == ss && ss[..1][0] == ss[0];
    OnlyFirstPages(ss[..1]);
    assert PagePaths(ss) == PagePaths(ss[..1]) + SegmentPaths(ss[1]);
    if NodesFit(have, ss) {
      assert NodeFits(have, ss, 1);
    }
  }

  const BLOCK_SIZE := 0x20_0000

  /** The segment is not empty and lies in block `b` of 2 MiB, the addresses of one leaf table. */
  predicate InBlock(s: Segment, b: nat) {
    s.memsz > 0 && s.vaddr / BLOCK_SIZE == b && (s.vaddr + s.memsz - 1) / BLOCK_SIZE == b
  }

  predicate InOneBlock(ss: seq<Segment>, b: nat) {
    forall i :: 0 <= i < |ss| ==> InBlock(ss[i], b)
  }

  lemma PagesInBlock(s: Segment, b: nat)
    requires InBlock(s, b)
    ensures PageCount(s) > 0
    ensures forall j :: 0 <= j < PageCount(s) ==>
              SegmentPaths(s)[j] == Digits(s.vaddr / PAGE_SIZE + j) && (s.vaddr / PAGE_SIZE + j) / ENTRIES == b
  {
    hide SegmentPaths, Digits;
    var last := s.vaddr + s.memsz - 1;
    assert s.vaddr / PAGE_SIZE / ENTRIES == b && last / PAGE_SIZE / ENTRIES == b;
    assert s.vaddr / PAGE_SIZE + PageCount(s) - 1 == last / PAGE_SIZE;
  }

  lemma {:induction false} WithTablesGrows(have: set<seq<nat>>, p: seq<nat>)
    ensures have <= WithTables(have, p) && (p != [] ==> p in WithTables(have, p))
    decreases |p|
  {
    if p != [] {
      WithTablesGrows(have, p[..|p| - 1]);
    }
  }

  lemma {:induction false} TablesOfPages(have: set<seq<nat>>, paths: seq<seq<nat>>, m: nat)
    requires m < |paths| && forall k :: 0 <= k < |paths| ==> |paths[k]| == 4
    ensures paths[m][..3] in TablesAfter(have, paths)
    decreases |paths|
  {
    hide WithTables;
    var n := |paths| - 1;
    WithTablesGrows(TablesAfter(have, paths[..n]), paths[n][..3]);
    if m < n {
      TablesOfPages(have, paths[..n], m);
    }
  }

  lemma {:induction false} PagesAtLeast(ss: seq<Segment>)
    requires ss != [] && forall i :: 0 <= i < |ss| ==> PageCount(ss[i]) > 0
    ensures |PagePaths(ss)| >= FirstPages(ss) + |ss| - 1
    decreases |ss|
  {
    hide PageCount, SegmentPaths;
    if |ss| == 1 {
      OnlyFirstPages(ss);
    } else {
      assert ss[..|ss| - 1][0] == ss[0];
      PagesAtLeast(ss[..|ss| - 1]);
    }
  }

  lemma BlockTable(ss: seq<Segment>, b: nat, m: nat)
    requires ss != [] && InOneBlock(ss, b) && m < |PagePaths(ss)|
    ensures PageCount(ss[0]) > 0 && PagePaths(ss)[m][..3] == SegmentPaths(ss[0])[0][..3]
  {
    hide PagePaths, PageCount, Digits, SegmentPaths;
    var i, j := SegmentOfPage(ss, m);
    PagesInBlock(ss[0], b);
    PagesInBlock(ss[i], b);
    assert SegmentPaths(ss[0])[0] == Digits(ss[0].vaddr / PAGE_SIZE + 0);
    SameTable(ss[i].vaddr / PAGE_SIZE + j, ss[0].vaddr / PAGE_SIZE);
  }

  lemma SameTable(v: nat, w: nat)
    requires v / ENTRIES == w / ENTRIES
    ensures Digits(v)[..3] == Digits(w)[..3]
  {
    assert v / 0x4_0000 == v / 512 / 512 && w / 0x4_0000 == w / 512 / 512;
    assert v / 0x800_0000 == v / 512 / 512 / 512 && w / 0x800_0000 == w / 512 / 512 / 512;
  }

  /** A program of any number of segments in one such block: all its nodes fit, whatever the first free frame. */
  lemma BlockFits(have: set<seq<nat>>, ss: seq<Segment>, b: nat)
    requires InOneBlock(ss, b)
    ensures NodesFit(have, ss)
  {
    hide PagePaths, PageCount, SegmentPaths, TablesAfter, InBlock;
    forall i | 0 <= i < |ss| ensures PageCount(ss[i]) > 0 {
      PagesInBlock(ss[i], b);
    }
    forall j | 1 <= j < |ss| ensures NodeFits(have, ss, j) {
      assert ss[..j + 1][0] == ss[0];
      PagesAtLeast(ss[..j + 1]);
      PagesPrefix(ss, j + 1);
      if j > 1 {
        var m := FirstPages(ss) + j - 2;
        assert PagePaths(ss[..j + 1])[m] == PagePaths(ss)[m];
        BlockTable(ss, b, m);
        TablesOfPages(have, SegmentPaths(ss[0]), 0);
      }
    }
  }
}
