/**
 Programs that do not survive loading: a node stored over bytes of the program, and a node stored
 over one of its page tables.  Both are calls that succeed.
 */
module ProgramDamage {
  import opened Basics
  import opened Allocator
  import opened AllocatorRuns
  import opened Addresses
  import opened Bytes
  import opened Paging
  import opened PageTree
  import opened Spaces
  import opened UserMemory
  import opened Loader
  import opened AreaList
  import opened ProgramImage
  import opened ProgramRun
  import opened Footprint
  import opened NodePlaces
  import opened ProgramBytes

  // ---------------------------------------------------------------- a node over a page table

  /**
   A program whose nodes fit up to the last one, which does not because the page before needs a new
   table: after the call the new root still uses that table, and words 1 to 7 of it are the node.
   */
  lemma TableOverwritten(vm: Vm, own: map<nat, Owner>, kroot: nat, image: seq<byte>, segs: seq<Segment>, file: u64,
                         top: nat)
    returns (q: seq<nat>)
    requires TreeInv(vm, own, kroot) && FreeSuffix(vm.pages, top) && ImageOk(image, segs) && |Loadable(segs)| > 2
    requires ProgramFits(top, Loadable(segs)[..|Loadable(segs)| - 1])
    requires !NearPage(StackTables(top), Loadable(segs), PageBefore(Loadable(segs)))
    requires top + ProgramFrames(top, Loadable(segs)) <= |vm.pages|
    ensures RunBinary(vm, kroot, image, segs, file).Some?
    ensures var ss := Loadable(segs);
            && PageBefore(ss) < |PagePaths(ss)| && 1 <= |q| <= 3 && q == PagePaths(ss)[PageBefore(ss)][..|q|]
            && q !in TablesAfter(StackTables(top), SegmentPaths(ss[0]))
    ensures var p := RunBinary(vm, kroot, image, segs, file).value;
            var n := |Loadable(segs)| - 1;
            && Reach(p.vm.mem, p.root, q) == Some(NodeStart(top, Loadable(segs)) + n)
            && forall i :: 1 <= i < 8 ==>
                 Word(p.vm.mem, NodeStart(top, Loadable(segs)) + n, i) == NodeWord(Loadable(segs)[n], file, i)
  {
    hide TreeInv, FreeSuffix, NewSpace, Grows, StandsAt, ListOk, LoadList, NodesFit, StackTables, FramesFor, PagePaths,
         Loadable, Closed, NearPage, FirstNodeFrame, TablesAfter, SegmentPaths, Reach, NodeWord, Word, ImageFrames;
    NewSpaceExact(vm, own, kroot, top);
    var own1 := LoopStart(vm, own, kroot, top);
    var (vm1, root, stack) := NewSpace(vm, kroot).value;
    q := LastNodeOverTable(vm1, own1, kroot, root, image, Loadable(segs), file, top + SPACE_PAGES, StackTables(top));
  }

  // ---------------------------------------------------------------- two segments

  lemma EmptyLoads(vm: Vm, root: nat, image: seq<byte>, s: Segment)
    requires Covered(s) && PageCount(s) == 0
    ensures Extent(s) == 0 && LoadSegment(vm, root, image, s) == Loaded(vm)
  {
    assert SegmentPaths(s) == [] && s.memsz == 0 && s.filesz == 0;
    assert Padding(s) == 0;
  }

  lemma DataOutside(vm: Vm, own: map<nat, Owner>, kroot: nat, root: nat, mem': Memory, l: Loc, v: byte, last: nat)
    requires TreeInv(vm, own, kroot) && IsRoot(own, root) && GoodLoc(l)
    requires LocHolds(vm.mem, own, root, l) && ReadAt(vm.mem, root, l.path, l.off) == Some(v)
    requires |mem'| == |vm.mem| && last !in own && last + 1 !in own
    requires forall g :: 0 <= g < |vm.mem| && g != last && g != last + 1 ==> mem'[g] == vm.mem[g]
    ensures ReadAt(mem', root, l.path, l.off) == Some(v)
  {
    assert forall t, i :: IsTable(own, t) && 0 <= i < ENTRIES ==> Word(mem', t, i) == Word(vm.mem, t, i);
    WalksOnTables(vm, own, kroot, mem');
    assert Walk(mem', root, l.path) == Walk(vm.mem, root, l.path);
  }

  lemma FreeIsUnowned(vm: Vm, own: map<nat, Owner>, kroot: nat, f: nat)
    requires TreeInv(vm, own, kroot) && FreeSuffix(vm.pages, f)
    ensures f !in own
  {
  }

  /**
   The node of a segment without pages goes to a free frame, or past the end of memory, and the
   first segment stays.
   */
  lemma EmptySecond(vm: Vm, own: map<nat, Owner>, kroot: nat, root: nat, image: seq<byte>, ss: seq<Segment>, file: u64,
                    top: nat, have: set<seq<nat>>)
    requires TreeInv(vm, own, kroot) && IsRoot(own, root) && |ss| == 2 && ListOk(image, ss)
    requires StandsAt(vm, root, top, have) && PageCount(ss[1]) == 0 && LoadList(vm, root, image, ss, file).Image?
    ensures Extent(ss[1]) == 0 && SegmentRight(LoadList(vm, root, image, ss, file).vm.mem, root, image, ss[0])
  {
    hide TreeInv, StandsAt, LoadList, LoadSegment, ListOk, NodesInPages, ImageLoaded, AppendNode, Grows, PageCount,
         SegmentPaths, Extent, LaidOut, LoadWithNode, SegmentRight;
    ListPrefix(image, ss);
    OneIsClear(vm, root, image, ss[..1], file);
    LoadStep(vm, root, image, ss, file);
    var b := LoadList(vm, root, image, ss[..1], file);
    SecondIsOk(image, ss);
    EmptyLoads(b.vm, root, image, ss[1]);
    TurnParts(b.vm, b.areas, root, image, ss[1], file);
    var own1 := LoadTheorem(vm, own, kroot, root, image, ss[..1], file);
    LoadedTree(vm, own, b.vm, own1, kroot, root, image, ss[..1], b.areas, file);
    GrowsKeepsRoots(vm, own, b.vm, own1);
    LaidOutTheorem(vm, own, kroot, root, image, ss[..1], file, top, have);
    FreeAfterFirst(vm, root, image, ss[..1], file, top, have);
    FreeIsUnowned(b.vm, own1, kroot, b.areas.first + 1);
    FirstStays(vm, own, b.vm, own1, kroot, root, image, ss[..1], b.areas, ss[1], file);
  }

  lemma SecondIsOk(image: seq<byte>, ss: seq<Segment>)
    requires |ss| == 2 && ListOk(image, ss)
    ensures Covered(ss[1])
  {
    hide PageDisjoint, SegmentPaths, Extent;
    assert SegmentOk(image, ss[1]);
  }

  /** The frame after the first node is free. */
  lemma FreeAfterFirst(vm: Vm, root: nat, image: seq<byte>, s: seq<Segment>, file: u64, top: nat, have: set<seq<nat>>)
    requires |s| == 1 && LaidOut(vm, root, image, s, file, top, have) && LoadList(vm, root, image, s, file).Image?
    ensures var r := LoadList(vm, root, image, s, file); FreeSuffix(r.vm.pages, r.areas.first + 1)
  {
    hide LoadList, PagesLaid, HasTables, FreeSuffix, PagePaths, SegmentPaths, FramesFor;
    FramesOfPrefix(have, s);
  }

  lemma FirstStays(vm: Vm, own: map<nat, Owner>, vm1: Vm, own1: map<nat, Owner>, kroot: nat, root: nat,
                   image: seq<byte>, a: seq<Segment>, areas: Areas, s: Segment, file: u64)
    requires IsRoot(own1, root) && |a| == 1 && areas.list == a && areas.first + 1 !in own1
    requires ImageLoaded(vm, own, vm1, own1, kroot, root, image, a, areas, file)
    ensures SegmentRight(AddArea(vm1, areas, s, file).value.0.mem, root, image, a[0])
  {
    hide Locate, Walk, Wanted, ReadAt, AppendNode, TreeInv, Grows, Listed, AllPagesFresh, WalksOutside, NodesHeld,
         LocHolds;
    NodeInRange(vm, vm1, own1, kroot, areas);
    assert BytesSeen(vm1.mem, own1, root, image, a[0], areas);
    OneSegmentRight(vm, vm1, own1, root, image, a[0], areas);
    AppendTouches(vm1.mem, areas.first, s, file);
    var mem' := AppendNode(vm1.mem, areas.first, s, file);
    forall k | 0 <= k < Extent(a[0]) ensures ByteRight(mem', root, image, a[0], k) {
      LocateGood(a[0].vaddr + k, a[0].vaddr + k);
      assert ByteRight(vm1.mem, root, image, a[0], k);
      assert ByteSeen(vm1.mem, own1, root, Locate(a[0].vaddr + k), Wanted(image, a[0], k), areas);
      DataOutside(vm1, own1, kroot, root, mem', Locate(a[0].vaddr + k), Wanted(image, a[0], k), areas.first);
    }
  }

  lemma NodeInRange(vm: Vm, vm1: Vm, own1: map<nat, Owner>, kroot: nat, areas: Areas)
    requires TreeInv(vm1, own1, kroot) && NodesHeld(vm, vm1, own1, areas) && areas.list != []
    ensures areas.first < MAX_FRAMES && areas.first !in own1
  {
    assert IsNode(areas, areas.first);
  }

  /** No node lies over the first segment. */
  lemma FirstIsUntouched(image: seq<byte>, ss: seq<Segment>, file: u64, first: nat, k: nat)
    requires ss != [] && k < Extent(ss[0]) && Covered(ss[0])
    ensures ByteAfter(image, ss, file, first, 0, k) == Wanted(image, ss[0], k)
  {
    hide Wanted, Byte, AreaWord, Covered, Extent, PageCount;
    PagesOfSegment(ss[0], k);
    assert ss[..0] == [] && PagePaths(ss[..0]) == [];
  }

  /**
   With two segments, whether or not the second has pages: both are in place exactly when the file
   holds the node there.
   */
  lemma TwoSegmentsIntactIff(vm: Vm, own: map<nat, Owner>, kroot: nat, image: seq<byte>, segs: seq<Segment>, file: u64,
                             top: nat)
    requires TreeInv(vm, own, kroot) && FreeSuffix(vm.pages, top) && ImageOk(image, segs)
    requires |Loadable(segs)| == 2 && RunBinary(vm, kroot, image, segs, file).Some?
    ensures var p := RunBinary(vm, kroot, image, segs, file).value;
            var ss := Loadable(segs);
            (forall i :: 0 <= i < |ss| ==> SegmentRight(p.vm.mem, p.root, image, ss[i]))
            <==> HoldsNodes(image, ss, file, NodeStart(top, ss))
  {
    hide TreeInv, FreeSuffix, RunBinary, ListOk, PageCount, Loadable, NodesFit, NodeStart, HoldsNodes, SegmentRight;
    TwoFit(StackTables(top), Loadable(segs));
    if PageCount(Loadable(segs)[1]) == 0 {
      EmptySecondRun(vm, own, kroot, image, segs, file, top);
    } else {
      ProgramIntactIff(vm, own, kroot, image, segs, file, top);
    }
  }

  lemma EmptySecondRun(vm: Vm, own: map<nat, Owner>, kroot: nat, image: seq<byte>, segs: seq<Segment>, file: u64,
                       top: nat)
    requires TreeInv(vm, own, kroot) && FreeSuffix(vm.pages, top) && ImageOk(image, segs)
    requires |Loadable(segs)| == 2 && PageCount(Loadable(segs)[1]) == 0 && RunBinary(vm, kroot, image, segs, file).Some?
    ensures var p := RunBinary(vm, kroot, image, segs, file).value;
            && (forall i :: 0 <= i < 2 ==> SegmentRight(p.vm.mem, p.root, image, Loadable(segs)[i]))
            && HoldsNodes(image, Loadable(segs), file, NodeStart(top, Loadable(segs)))
  {
    hide TreeInv, FreeSuffix, LoadList, NewSpace, ListOk, Grows, Path, Walk, PageCount, Loadable, Extent, StandsAt,
         StackTables, Closed, ByteAfter, Wanted, NodeStart;
    var ss := Loadable(segs);
    var own1 := LoopStart(vm, own, kroot, top);
    var (vm1, root, stack) := NewSpace(vm, kroot).value;
    EmptySecond(vm1, own1, kroot, root, image, ss, file, top + SPACE_PAGES, StackTables(top));
    FirstIsOk(image, ss);
    forall k | 0 <= k < Extent(ss[0])
      ensures ByteAfter(image, ss, file, NodeStart(top, ss), 0, k) == Wanted(image, ss[0], k)
    {
      FirstIsUntouched(image, ss, file, NodeStart(top, ss), k);
    }
  }

  lemma FirstIsOk(image: seq<byte>, ss: seq<Segment>)
    requires ss != [] && ListOk(image, ss)
    ensures Covered(ss[0])
  {
    hide PageDisjoint, SegmentPaths, Extent;
    assert SegmentOk(image, ss[0]);
  }

  // ---------------------------------------------------------------- examples

  /** Headers of sixteen bytes each, for 4 MiB, 6 MiB and the page behind; the file holds zeros. */
  const HEADERS := [Segment(1, 5, 0, 0x40_0000, 16, 16), Segment(1, 6, 16, 0x60_0000, 16, 16),
                    Segment(1, 6, 32, 0x60_1000, 16, 16)]
  const TWO_HEADERS := HEADERS[..2]

  lemma OneHeader(i: nat)
    requires i < 3
    ensures var s := HEADERS[i];
            && SegmentOk(Zeros(48), s) && PageCount(s) == 1 && SegmentPages(s) == [s.vaddr / PAGE_SIZE]
            && SegmentPaths(s) == [[0, 0, if i == 0 then 2 else 3, if i == 2 then 1 else 0]]
  {
    var s := HEADERS[i];
    var v := s.vaddr / PAGE_SIZE;
    assert v == if i == 0 then 0x400 else if i == 1 then 0x600 else 0x601;
    assert PageCount(s) == 1 && Covered(s) && v % PAGE_NUMBERS == v;
    assert Digits(v + 0) == [0, 0, if i == 0 then 2 else 3, if i == 2 then 1 else 0];
    hide PageCount, Covered, Digits;
    assert SegmentPaths(s)[0] == Digits(v + 0);
  }

  lemma HeadersLoadable()
    ensures Loadable(HEADERS) == HEADERS && Loadable(TWO_HEADERS) == TWO_HEADERS
  {
    assert HEADERS[..2][..1][..0] == [] && Loadable([]) == [];
    assert HEADERS[..2][..1] == [HEADERS[0]] && HEADERS[..2] == [HEADERS[0], HEADERS[1]];
    assert Loadable(HEADERS[..2][..1]) == [HEADERS[0]];
    assert Loadable(HEADERS[..2]) == [HEADERS[0], HEADERS[1]];
  }

  lemma HeadersOk()
    ensures ListOk(Zeros(48), HEADERS) && ListOk(Zeros(48), TWO_HEADERS)
  {
    OneHeader(0);
    OneHeader(1);
    OneHeader(2);
    hide SegmentPaths, SegmentPages, PageCount, SegmentOk;
    assert forall i, j :: 0 <= i < j < 3 ==> PageDisjoint(HEADERS[i], HEADERS[j]);
  }

  lemma HeaderPaths()
    ensures PagePaths(HEADERS) == [[0, 0, 2, 0], [0, 0, 3, 0], [0, 0, 3, 1]]
    ensures PagePaths(TWO_HEADERS) == [[0, 0, 2, 0], [0, 0, 3, 0]]
    ensures SegmentPaths(HEADERS[0]) == [[0, 0, 2, 0]] && PageCount(HEADERS[0]) == 1 && PageCount(HEADERS[1]) == 1
  {
    OneHeader(0);
    OneHeader(1);
    OneHeader(2);
    hide SegmentPaths, SegmentPages, PageCount, SegmentOk;
    assert HEADERS[..2][..1][..0] == [] && HEADERS[..2][..1] == [HEADERS[0]] && PagePaths(HEADERS[..2][..1][..0]) == [];
    assert PagePaths(HEADERS[..2][..1]) == [[0, 0, 2, 0]];
    assert PagePaths(HEADERS[..2]) == [[0, 0, 2, 0], [0, 0, 3, 0]];
  }

  /** The stack's tables lie in slot 481. */
  lemma StackSlot(top: nat, p: seq<nat>)
    requires top + STACK_AT < MAX_FRAMES && p in StackTables(top)
    ensures p != [] && p[0] == 481
  {
    var f := top + STACK_AT;
    StackIsUserPage(f);
    var q := Path(StackAddress(f))[..3];
    assert q[0] == 481 && q[..2][..1][..0] == [];
    hide Path, StackAddress;
    assert WithTables({}, q[..2][..1]) == {q[..2][..1]};
    assert WithTables({}, q[..2]) == {q[..2][..1], q[..2]};
  }

  /** The tables for the headers: three for the first page, one for the second, none for the third. */
  lemma HeaderTables(have: set<seq<nat>>)
    requires forall p :: p in have ==> p != [] && p[0] != 0
    ensures TablesAfter(have, [[0, 0, 2, 0]]) == have + {[0], [0, 0], [0, 0, 2]}
    ensures FramesFor(have, [[0, 0, 2, 0], [0, 0, 3, 0]]) == 6
    ensures FramesFor(have, [[0, 0, 2, 0], [0, 0, 3, 0], [0, 0, 3, 1]]) == 7
  {
    var q0: seq<nat>, q1: seq<nat>, q2: seq<nat> := [0, 0, 2, 0], [0, 0, 3, 0], [0, 0, 3, 1];
    var h, h' := have + {[0], [0, 0], [0, 0, 2]}, have + {[0], [0, 0], [0, 0, 2], [0, 0, 3]};
    OnePage(have, [], have, 2, 0, 3);
    OnePage(have, [q0], h, 3, 0, 1);
    assert h + {[0], [0, 0], [0, 0, 3]} == h';
    OnePage(have, [q0, q1], h', 3, 1, 0);
    assert [] + [q0] == [q0] && [q0] + [q1] == [q0, q1] && [q0, q1] + [q2] == [q0, q1, q2];
  }

  /** A page at `[0, 0, c, d]` after others, which makes `k` new tables. */
  lemma OnePage(have: set<seq<nat>>, paths: seq<seq<nat>>, h: set<seq<nat>>, c: nat, d: nat, k: nat)
    requires (forall i :: 0 <= i < |paths| ==> |paths[i]| == 4) && TablesAfter(have, paths) == h
    requires k == (if [0] in h then 0 else 1) + (if [0, 0] in h then 0 else 1) + (if [0, 0, c] in h then 0 else 1)
    ensures TablesAfter(have, paths + [[0, 0, c, d]]) == h + {[0], [0, 0], [0, 0, c]}
    ensures FramesFor(have, paths + [[0, 0, c, d]]) == FramesFor(have, paths) + 1 + k
  {
    hide Missing, WithTables;
    var q: seq<nat> := [0, 0, c, d];
    assert q[..3] == [0, 0, c] && (paths + [q])[..|paths|] == paths && (paths + [q])[|paths|] == q;
    DownThree(h, c);
  }

  lemma DownThree(have: set<seq<nat>>, c: nat)
    ensures var p: seq<nat> := [0, 0, c];
            && WithTables(have, p) == have + {[0], [0, 0], p}
            && Missing(have, p) ==
                 (if [0] in have then 0 else 1) + (if [0, 0] in have then 0 else 1) + (if p in have then 0 else 1)
  {
    var p: seq<nat> := [0, 0, c];
    assert p[..2] == [0, 0] && p[..2][..1] == [0] && p[..2][..1][..0] == [];
    assert WithTables(have, p[..2][..1][..0]) == have && Missing(have, p[..2][..1][..0]) == 0;
    assert WithTables(have, p[..2][..1]) == have + {[0]} && Missing(have, p[..2][..1]) == if [0] in have then 0 else 1;
  }

  lemma ExampleTables(vm: Vm, own: map<nat, Owner>, kroot: nat, top: nat)
    requires TreeInv(vm, own, kroot) && top + STACK_AT < |vm.pages|
    ensures forall p :: p in StackTables(top) ==> p != [] && p[0] != 0
  {
    hide StackTables, TreeInv;
    FrameIsSmall(vm, own, kroot, top + STACK_AT);
    forall p | p in StackTables(top) ensures p != [] && p[0] != 0 {
      StackSlot(top, p);
    }
  }

  lemma ExampleByte(file: u64, first: nat)
    ensures ByteAfter(Zeros(48), TWO_HEADERS, file, first, 1, 10) == 0x60 && Wanted(Zeros(48), TWO_HEADERS[1], 10) == 0
  {
    HeaderPaths();
    OneHeader(0);
    hide SegmentPaths, PagePaths, PageCount, SegmentPages, SegmentOk;
    assert TWO_HEADERS[..1] == [HEADERS[0]];
    OnlyFirstPages(TWO_HEADERS[..1]);
    assert PageIndex(TWO_HEADERS, 1, 10) == 1;
    assert Byte(0x60_0000, 2) == Byte(0x6000, 1) == Byte(0x60, 0) == 0x60;
  }

  /** Two headers, memory enough: after the call byte 10 of the second segment reads as 96 instead of 0. */
  lemma ExampleCorrupted(vm: Vm, own: map<nat, Owner>, kroot: nat, file: u64, top: nat)
    requires TreeInv(vm, own, kroot) && FreeSuffix(vm.pages, top) && top + 21 <= |vm.pages|
    ensures RunBinary(vm, kroot, Zeros(48), TWO_HEADERS, file).Some?
    ensures var p := RunBinary(vm, kroot, Zeros(48), TWO_HEADERS, file).value;
            && ReadByte(p.vm.mem, p.root, 0x60_000A) == Some(0x60)
            && !SegmentRight(p.vm.mem, p.root, Zeros(48), TWO_HEADERS[1])
  {
    hide TreeInv, FreeSuffix, ListOk, RunBinary, PageCount, Loadable, ByteAfter, Wanted, ReadByte, SegmentPaths,
         PagePaths, NodesFit, StackTables, FramesFor, TablesAfter, Grows, Listed, FirstNodeFrame;
    HeadersLoadable();
    HeadersOk();
    HeaderPaths();
    ExampleTables(vm, own, kroot, top);
    HeaderTables(StackTables(top));
    TwoFit(StackTables(top), TWO_HEADERS);
    OneFits(StackTables(top), TWO_HEADERS[..1]);
    RunBinaryFits(vm, own, kroot, Zeros(48), TWO_HEADERS, file, top);
    var own' := BytesAfterRun(vm, own, kroot, Zeros(48), TWO_HEADERS, file, top);
    var p := RunBinary(vm, kroot, Zeros(48), TWO_HEADERS, file).value;
    var first, k := NodeStart(top, TWO_HEADERS), 10;
    ExampleByte(file, first);
    assert ByteReadsAs(p, Zeros(48), TWO_HEADERS, file, first, 1, k);
    assert !ByteRight(p.vm.mem, p.root, Zeros(48), TWO_HEADERS[1], k);
  }

  lemma OneFits(have: set<seq<nat>>, ss: seq<Segment>)
    requires |ss| <= 1
    ensures NodesFit(have, ss)
  {
  }

  /** Behind the first header the second page needs a table, and the third node is stored over it. */
  lemma HeadersDoNotFit(have: set<seq<nat>>)
    requires forall p :: p in have ==> p != [] && p[0] != 0
    ensures NodesFit(have, HEADERS[..2]) && PageBefore(HEADERS) == 1 && !NearPage(have, HEADERS, 1)
  {
    hide SegmentPaths, PagePaths, PageCount, TablesAfter, NodesFit, FramesFor;
    HeaderPaths();
    HeaderTables(have);
    TwoFit(have, TWO_HEADERS);
    var q: seq<nat> := [0, 0, 3, 0];
    assert q[..3] == [0, 0, 3];
  }

  lemma TableOfSecond(have: set<seq<nat>>, q: seq<nat>)
    requires forall p :: p in have ==> p != [] && p[0] != 0
    requires 1 <= |q| <= 3 && |PagePaths(HEADERS)| == 3 && q == PagePaths(HEADERS)[1][..|q|]
    requires q !in TablesAfter(have, SegmentPaths(HEADERS[0]))
    ensures q == [0, 0, 3]
  {
    hide SegmentPaths, PagePaths, PageCount, TablesAfter, FramesFor;
    HeaderPaths();
    HeaderTables(have);
    var x: seq<nat> := [0, 0, 3, 0];
    assert x[..1] == [0] && x[..2] == [0, 0] && x[..3] == [0, 0, 3];
  }

  /** An entry that is the address of a page is not present. */
  lemma ThirdPageGone(mem: Memory, root: nat, g: nat, file: u64)
    requires Reach(mem, root, [0, 0, 3]) == Some(g) && Word(mem, g, 1) == NodeWord(HEADERS[2], file, 1)
    ensures ReadByte(mem, root, 0x60_1000) == None
  {
    var q: seq<nat> := [0, 0, 3, 1];
    assert Digits(0x601) == q && q[..3] == [0, 0, 3];
    assert Locate(0x60_1000).path == q;
    hide Reach, Digits, Locate;
    assert !Present(0x60_1000);
  }

  /** Three headers, memory enough: after the call the page of the third segment is not mapped any more. */
  lemma ExamplePageLost(vm: Vm, own: map<nat, Owner>, kroot: nat, file: u64, top: nat)
    requires TreeInv(vm, own, kroot) && FreeSuffix(vm.pages, top) && top + 22 <= |vm.pages|
    ensures RunBinary(vm, kroot, Zeros(48), HEADERS, file).Some?
    ensures var p := RunBinary(vm, kroot, Zeros(48), HEADERS, file).value;
            ReadByte(p.vm.mem, p.root, 0x60_1000) == None
  {
    hide TreeInv, FreeSuffix, ListOk, RunBinary, PageCount, Loadable, ReadByte, SegmentPaths, PagePaths, NodesFit,
         StackTables, FramesFor, TablesAfter, FirstNodeFrame, NearPage, Reach, Word, NodeWord;
    HeadersLoadable();
    HeadersOk();
    HeaderPaths();
    ExampleTables(vm, own, kroot, top);
    HeaderTables(StackTables(top));
    HeadersDoNotFit(StackTables(top));
    var q := TableOverwritten(vm, own, kroot, Zeros(48), HEADERS, file, top);
    TableOfSecond(StackTables(top), q);
    var p := RunBinary(vm, kroot, Zeros(48), HEADERS, file).value;
    ThirdPageGone(p.vm.mem, p.root, NodeStart(top, HEADERS) + 2, file);
  }
}
