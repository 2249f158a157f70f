/** The program loader and the roots it and `sys_fork` build, on the machine's memory. */
module ElfLoader {
  import opened Basics
  import opened Allocator
  import opened Addresses
  import opened Bytes
  import opened Paging
  import opened PageTree
  import opened Spaces
  import opened UserMemory
  import opened Loader
  import opened AreaList
  import opened ProgramImage
  import opened ProgramRun
  import opened Machine
  import opened Mapper

  // ---------------------------------------------------------------- stores through translations

  lemma DataInRange(vm: Vm, own: map<nat, Owner>, kroot: nat, root: nat, l: Loc)
    requires TreeInv(vm, own, kroot) && GoodLoc(l) && LocHolds(vm.mem, own, root, l)
    ensures Walk(vm.mem, root, l.path).Some? && FrameOf(Walk(vm.mem, root, l.path).value) < |vm.mem|
    ensures l.off / 8 < ENTRIES
  {
  }

  /** One byte stored by the processor at a mapped address. */
  method StoreOne(m: Machine, root: nat, l: Loc, b: byte, ghost own: map<nat, Owner>, ghost kroot: nat)
    requires m.Valid() && TreeInv(m.vm, own, kroot) && IsRoot(own, root) && GoodLoc(l)
    requires LocHolds(m.vm.mem, own, root, l)
    modifies m, m.words
    ensures m.Valid() && m.vm.pages == old(m.vm).pages
    ensures Some(m.vm.mem) == StoreAt(old(m.vm).mem, root, l.path, l.off, b)
  {
    DataInRange(m.vm, own, kroot, root, l);
    hide TreeInv, Walk, Word, Put, FrameOf, StoreInWord;
    var e := Translate(m, root, l.path, own, kroot);
    var f := FrameOf(e.value);
    var w := m.Load(f, l.off / 8);
    m.Store(f, l.off / 8, StoreInWord(w, l.off % 8, b));
  }

  lemma CopyPrefix(mem: Memory, root: nat, locs: seq<Loc>, bytes: seq<byte>, k: nat)
    requires |locs| == |bytes| && k < |bytes| && forall i :: 0 <= i < |locs| ==> |locs[i].path| == 4
    requires CopyAt(mem, root, locs[..k], bytes[..k]).Some?
    ensures CopyAt(mem, root, locs[..k + 1], bytes[..k + 1]) ==
            StoreAt(CopyAt(mem, root, locs[..k], bytes[..k]).value, root, locs[k].path, locs[k].off, bytes[k])
  {
    assert locs[..k + 1][..k] == locs[..k] && bytes[..k + 1][..k] == bytes[..k];
  }

  ghost predicate CopiedTo(m: Machine, vm0: Vm, root: nat, locs: seq<Loc>, bytes: seq<byte>, k: nat)
    requires |locs| == |bytes| && k <= |bytes| && forall i :: 0 <= i < |locs| ==> |locs[i].path| == 4
    reads m
  {
    m.vm.pages == vm0.pages && Some(m.vm.mem) == CopyAt(vm0.mem, root, locs[..k], bytes[..k])
  }

  /** One turn of a copy loop. */
  method CopyStep(m: Machine, root: nat, l: Loc, b: byte, k: nat, ghost vm0: Vm, ghost locs: seq<Loc>,
                  ghost bytes: seq<byte>, ghost own: map<nat, Owner>, ghost kroot: nat)
    requires m.Valid() && TreeInv(vm0, own, kroot) && IsRoot(own, root) && |locs| == |bytes| && k < |bytes|
    requires AllHold(vm0.mem, own, root, locs) && l == locs[k] && b == bytes[k]
    requires CopiedTo(m, vm0, root, locs, bytes, k)
    modifies m, m.words
    ensures m.Valid() && CopiedTo(m, vm0, root, locs, bytes, k + 1)
  {
    assert AllHold(vm0.mem, own, root, locs[..k]);
    CopyAtTheorem(vm0, own, kroot, root, locs[..k], bytes[..k]);
    assert m.vm == vm0.(mem := m.vm.mem);
    hide TreeInv, CopyAt, StoreAt, SameWalks, Holds;
    HoldsOnWalks(own, vm0.mem, m.vm.mem, root, locs[k]);
    CopyPrefix(vm0.mem, root, locs, bytes, k);
    StoreOne(m, root, l, b, own, kroot);
  }

  /** `memcpy` to a virtual address. */
  method MemCpy(m: Machine, root: nat, va: nat, bytes: seq<byte>, ghost own: map<nat, Owner>, ghost kroot: nat)
    requires m.Valid() && TreeInv(m.vm, own, kroot) && IsRoot(own, root)
    requires AllHold(m.vm.mem, own, root, Locations(va, |bytes|))
    modifies m, m.words
    ensures m.Valid() && m.vm.pages == old(m.vm).pages && Some(m.vm.mem) == CopyBytes(old(m.vm).mem, root, va, bytes)
  {
    ghost var vm0, locs := m.vm, Locations(va, |bytes|);
    assert CopyAt(vm0.mem, root, locs[..0], bytes[..0]) == Some(vm0.mem);
    hide TreeInv, CopyAt, Locate, Holds, GoodLoc, AllHold;
    for k := 0 to |bytes|
      invariant m.Valid() && CopiedTo(m, vm0, root, locs, bytes, k)
    {
      CopyStep(m, root, Locate(va + k), bytes[k], k, vm0, locs, bytes, own, kroot);
    }
    assert locs[..|bytes|] == locs && bytes[..|bytes|] == bytes;
  }

  /** `memset` of a virtual range to zero. */
  method MemZero(m: Machine, root: nat, va: nat, n: nat, ghost own: map<nat, Owner>, ghost kroot: nat)
    requires m.Valid() && TreeInv(m.vm, own, kroot) && IsRoot(own, root)
    requires AllHold(m.vm.mem, own, root, Locations(va, n))
    modifies m, m.words
    ensures m.Valid() && m.vm.pages == old(m.vm).pages && Some(m.vm.mem) == CopyBytes(old(m.vm).mem, root, va, Zeros(n))
  {
    ghost var vm0, locs, zeros := m.vm, Locations(va, n), Zeros(n);
    assert CopyAt(vm0.mem, root, locs[..0], zeros[..0]) == Some(vm0.mem);
    hide TreeInv, CopyAt, Locate, Holds, GoodLoc, AllHold;
    for k := 0 to n
      invariant m.Valid() && CopiedTo(m, vm0, root, locs, zeros, k)
    {
      CopyStep(m, root, Locate(va + k), 0, k, vm0, locs, zeros, own, kroot);
    }
    assert locs[..n] == locs && zeros[..n] == zeros;
  }

  // ---------------------------------------------------------------- fresh pages

  lemma PageAddress(w: nat)
    requires w * PAGE_SIZE < WORD_LIMIT
    ensures Path(w * PAGE_SIZE) == Digits(w)
  {
    LocateIsPath(w * PAGE_SIZE);
    Quotient(w * PAGE_SIZE, PAGE_SIZE, w, 0);
  }

  lemma PathRange(w: nat)
    requires w * PAGE_SIZE < WORD_LIMIT
    ensures Path(w * PAGE_SIZE)[3] + 1 <= ENTRIES
  {
  }

  /** One turn of `region_alloc`: a page from `kmalloc`, mapped for the user. */
  method MapOne(m: Machine, root: nat, w: nat, ghost own: map<nat, Owner>, ghost kroot: nat)
    requires m.Valid() && TreeInv(m.vm, own, kroot) && IsRoot(own, root) && w * PAGE_SIZE < WORD_LIMIT
    requires MapFresh(m.vm, root, Digits(w)).Some?
    modifies m, m.words, m.pages
    ensures m.Valid() && Some(m.vm) == MapFresh(old(m.vm), root, Digits(w))
  {
    assert PagesFor(1) == 1;
    PageAddress(w);
    PathRange(w);
    AllocKeepsTree(m.vm, own, kroot, 1);
    hide TreeInv, Path, Digits, MapPath, AllocFrames, PagesFor;
    var f := m.Kmalloc(1);
    InitMap(m, root, w * PAGE_SIZE, FrameAddress(f), 1, true, own, kroot);
  }

  lemma {:induction false} RegionPrefix(vm: Vm, root: nat, paths: seq<seq<nat>>, k: nat)
    requires k <= |paths| && (forall i :: 0 <= i < |paths| ==> |paths[i]| == 4) && RegionAlloc(vm, root, paths).Some?
    ensures RegionAlloc(vm, root, paths[..k]).Some?
    ensures k < |paths| ==>
              RegionAlloc(vm, root, paths[..k + 1]) == MapFresh(RegionAlloc(vm, root, paths[..k]).value, root, paths[k])
    decreases |paths|
  {
    hide MapFresh;
    if k == |paths| {
      assert paths[..k] == paths;
    } else {
      var n := |paths| - 1;
      if k < n {
        RegionPrefix(vm, root, paths[..n], k);
        assert paths[..n][..k] == paths[..k];
      }
      assert paths[..k + 1][..k] == paths[..k];
    }
  }

  lemma SegmentAddresses(s: Segment, i: nat)
    requires s.vaddr + s.memsz + PAGE_SIZE <= WORD_LIMIT && i < PageCount(s)
    ensures (s.vaddr / PAGE_SIZE + i) * PAGE_SIZE < WORD_LIMIT
  {
  }

  lemma GoodPathsPrefix(paths: seq<seq<nat>>, tags: seq<nat>, k: nat)
    requires GoodPaths(paths, tags) && k <= |paths|
    ensures GoodPaths(paths[..k], tags[..k])
  {
    hide Indices;
  }

  ghost predicate RegionTo(m: Machine, vm0: Vm, root: nat, paths: seq<seq<nat>>, k: nat)
    reads m
  {
    && k <= |paths| && (forall i :: 0 <= i < |paths| ==> |paths[i]| == 4)
    && Some(m.vm) == RegionAlloc(vm0, root, paths[..k])
  }

  method RegionStep(m: Machine, root: nat, w: nat, k: nat, ghost vm0: Vm, ghost paths: seq<seq<nat>>,
                    ghost tags: seq<nat>, ghost own: map<nat, Owner>, ghost kroot: nat)
    requires m.Valid() && TreeInv(vm0, own, kroot) && IsRoot(own, root) && GoodPaths(paths, tags) && k < |paths|
    requires RegionAlloc(vm0, root, paths).Some? && RegionTo(m, vm0, root, paths, k)
    requires paths[k] == Digits(w) && w * PAGE_SIZE < WORD_LIMIT
    modifies m, m.words, m.pages
    ensures m.Valid() && RegionTo(m, vm0, root, paths, k + 1)
  {
    hide TreeInv, RegionAlloc, MapFresh, Digits, Grows, FreshPage, Walk, Indices;
    RegionPrefix(vm0, root, paths, k);
    RegionPrefix(vm0, root, paths, k + 1);
    GoodPathsPrefix(paths, tags, k);
    ghost var own1 := RegionTheorem(vm0, own, kroot, root, paths[..k], tags[..k]);
    GrowsKeepsRoots(vm0, own, m.vm, own1);
    MapOne(m, root, w, own1, kroot);
  }

  /** The paths are those of the pages from number `first` on. */
  ghost predicate PagesFrom(paths: seq<seq<nat>>, first: nat) {
    forall i :: 0 <= i < |paths| ==> paths[i] == Digits(first + i) && (first + i) * PAGE_SIZE < WORD_LIMIT
  }

  method RegionPages(m: Machine, root: nat, first: nat, last: nat, ghost paths: seq<seq<nat>>, ghost tags: seq<nat>,
                     ghost own: map<nat, Owner>, ghost kroot: nat)
    requires m.Valid() && TreeInv(m.vm, own, kroot) && IsRoot(own, root) && GoodPaths(paths, tags)
    requires first <= last && last - first == |paths| && PagesFrom(paths, first)
    requires RegionAlloc(m.vm, root, paths).Some?
    modifies m, m.words, m.pages
    ensures m.Valid() && Some(m.vm) == RegionAlloc(old(m.vm), root, paths)
  {
    hide TreeInv, RegionAlloc, RegionTo, GoodPaths, Digits, PagesFrom, IsRoot;
    ghost var vm0 := m.vm;
    RegionStart(m, root, paths, tags);
    for v := first to last
      invariant m.Valid() && RegionTo(m, vm0, root, paths, v - first)
    {
      PageAt(paths, first, v - first);
      RegionStep(m, root, v, v - first, vm0, paths, tags, own, kroot);
    }
    RegionDone(m, vm0, root, paths);
  }

  lemma RegionStart(m: Machine, root: nat, paths: seq<seq<nat>>, tags: seq<nat>)
    requires GoodPaths(paths, tags)
    ensures RegionTo(m, m.vm, root, paths, 0)
  {
    hide Indices;
  }

  lemma PageAt(paths: seq<seq<nat>>, first: nat, i: nat)
    requires PagesFrom(paths, first) && i < |paths|
    ensures paths[i] == Digits(first + i) && (first + i) * PAGE_SIZE < WORD_LIMIT
  {
  }

  lemma SegmentPagesFrom(s: Segment)
    requires s.vaddr + s.memsz + PAGE_SIZE <= WORD_LIMIT
    ensures PagesFrom(SegmentPaths(s), s.vaddr / PAGE_SIZE)
  {
    var first := s.vaddr / PAGE_SIZE;
    forall i | 0 <= i < |SegmentPaths(s)|
      ensures SegmentPaths(s)[i] == Digits(first + i) && (first + i) * PAGE_SIZE < WORD_LIMIT
    {
      SegmentAddresses(s, i);
    }
  }

  /** `region_alloc` for a segment: from the page of its first byte up to the page after its last. */
  method RegionLoop(m: Machine, root: nat, s: Segment, ghost own: map<nat, Owner>, ghost kroot: nat)
    requires m.Valid() && TreeInv(m.vm, own, kroot) && IsRoot(own, root)
    requires s.memsz < 0x8000_0000 && s.vaddr + s.memsz + PAGE_SIZE <= WORD_LIMIT
    requires RegionAlloc(m.vm, root, SegmentPaths(s)).Some?
    modifies m, m.words, m.pages
    ensures m.Valid() && Some(m.vm) == RegionAlloc(old(m.vm), root, SegmentPaths(s))
  {
    SegmentPathsGood(s);
    SegmentPagesFrom(s);
    var first := s.vaddr / PAGE_SIZE;
    var last := (s.vaddr + s.memsz + PAGE_SIZE - 1) / PAGE_SIZE;
    hide TreeInv, RegionAlloc, SegmentPaths, SegmentPages, GoodPaths, PagesFrom;
    RegionPages(m, root, first, last, SegmentPaths(s), SegmentPages(s), own, kroot);
  }

  lemma RegionDone(m: Machine, vm0: Vm, root: nat, paths: seq<seq<nat>>)
    requires RegionTo(m, vm0, root, paths, |paths|)
    ensures forall i :: 0 <= i < |paths| ==> |paths[i]| == 4
    ensures Some(m.vm) == RegionAlloc(vm0, root, paths)
  {
    assert paths[..|paths|] == paths;
  }

  // ---------------------------------------------------------------- segments

  lemma RegionReady(vm: Vm, own: map<nat, Owner>, kroot: nat, root: nat, s: Segment)
    returns (own': map<nat, Owner>)
    requires TreeInv(vm, own, kroot) && IsRoot(own, root) && Extent(s) < 0x8000_0000 && Covered(s)
    requires RegionAlloc(vm, root, SegmentPaths(s)).Some?
    ensures var vm1 := RegionAlloc(vm, root, SegmentPaths(s)).value;
            && TreeInv(vm1, own', kroot) && IsRoot(own', root)
            && AllHold(vm1.mem, own', root, Locations(s.vaddr, s.filesz))
            && AllHold(vm1.mem, own', root, Locations(s.vaddr + s.filesz, Padding(s)))
  {
    hide TreeInv, RegionAlloc, Locate, SegmentPaths, SegmentPages, Grows, Distinct, AgreesWith, Covered, Extent,
         Padding;
    SegmentParts(s);
    own' := RegionTheorem(vm, own, kroot, root, SegmentPaths(s), SegmentPages(s));
    var vm1 := RegionAlloc(vm, root, SegmentPaths(s)).value;
    GrowsKeepsRoots(vm, own, vm1, own');
    InsideIsFresh(vm1.mem, own, own', root, SegmentPaths(s), SegmentPages(s), Locations(s.vaddr, s.filesz));
    InsideIsFresh(vm1.mem, own, own', root, SegmentPaths(s), SegmentPages(s),
                  Locations(s.vaddr + s.filesz, Padding(s)));
  }

  lemma HoldAfterCopy(vm: Vm, own: map<nat, Owner>, kroot: nat, root: nat, la: seq<Loc>, a: seq<byte>, lb: seq<Loc>)
    requires TreeInv(vm, own, kroot) && IsRoot(own, root) && |la| == |a|
    requires AllHold(vm.mem, own, root, la) && AllHold(vm.mem, own, root, lb)
    ensures CopyAt(vm.mem, root, la, a).Some?
    ensures var mem' := CopyAt(vm.mem, root, la, a).value;
            TreeInv(vm.(mem := mem'), own, kroot) && AllHold(mem', own, root, lb)
  {
    CopyAtTheorem(vm, own, kroot, root, la, a);
    var mem' := CopyAt(vm.mem, root, la, a).value;
    hide TreeInv, CopyAt, Holds, SameWalks;
    forall k | 0 <= k < |lb| ensures LocHolds(mem', own, root, lb[k]) {
      HoldsOnWalks(own, vm.mem, mem', root, lb[k]);
    }
  }

  lemma SegmentIs(vm: Vm, root: nat, image: seq<byte>, s: Segment, vm1: Vm, m1: Memory, m2: Memory)
    requires RegionAlloc(vm, root, SegmentPaths(s)) == Some(vm1)
    requires CopyBytes(vm1.mem, root, s.vaddr, FileBytes(image, s)) == Some(m1)
    requires CopyBytes(m1, root, s.vaddr + s.filesz, Zeros(Padding(s))) == Some(m2)
    ensures LoadSegment(vm, root, image, s) == Loaded(vm1.(mem := m2))
  {
    hide RegionAlloc, CopyAt, Locate, SegmentPaths;
  }

  lemma SegmentNeedsRegion(vm: Vm, root: nat, image: seq<byte>, s: Segment)
    requires LoadSegment(vm, root, image, s).Loaded?
    ensures RegionAlloc(vm, root, SegmentPaths(s)).Some?
  {
    hide RegionAlloc, CopyAt, Locate, SegmentPaths;
  }

  lemma NothingToZero(mem: Memory, root: nat, va: nat)
    ensures CopyBytes(mem, root, va, Zeros(0)) == Some(mem)
  {
    assert Zeros(0) == [];
  }

  lemma ReadyToZero(vm: Vm, own: map<nat, Owner>, kroot: nat, root: nat, image: seq<byte>, s: Segment)
    requires TreeInv(vm, own, kroot) && IsRoot(own, root)
    requires AllHold(vm.mem, own, root, Locations(s.vaddr, s.filesz))
    requires AllHold(vm.mem, own, root, Locations(s.vaddr + s.filesz, Padding(s)))
    ensures CopyBytes(vm.mem, root, s.vaddr, FileBytes(image, s)).Some?
    ensures var mem1 := CopyBytes(vm.mem, root, s.vaddr, FileBytes(image, s)).value;
            && TreeInv(vm.(mem := mem1), own, kroot)
            && AllHold(mem1, own, root, Locations(s.vaddr + s.filesz, Padding(s)))
  {
    hide Locate, TreeInv, AllHold;
    HoldAfterCopy(vm, own, kroot, root, Locations(s.vaddr, s.filesz), FileBytes(image, s),
                  Locations(s.vaddr + s.filesz, Padding(s)));
  }

  lemma FileSlice(image: seq<byte>, s: Segment)
    requires s.offset + s.filesz <= |image|
    ensures image[s.offset..s.offset + s.filesz] == FileBytes(image, s)
  {
  }

  /** File bytes, then zeros, into pages that are mapped. */
  method FillPages(m: Machine, root: nat, image: seq<byte>, s: Segment, ghost own: map<nat, Owner>, ghost kroot: nat)
    requires m.Valid() && TreeInv(m.vm, own, kroot) && IsRoot(own, root) && s.offset + s.filesz <= |image|
    requires AllHold(m.vm.mem, own, root, Locations(s.vaddr, s.filesz))
    requires AllHold(m.vm.mem, own, root, Locations(s.vaddr + s.filesz, Padding(s)))
    modifies m, m.words
    ensures m.Valid() && m.vm.pages == old(m.vm).pages
    ensures CopyBytes(old(m.vm).mem, root, s.vaddr, FileBytes(image, s)).Some?
    ensures Some(m.vm.mem) ==
            CopyBytes(CopyBytes(old(m.vm).mem, root, s.vaddr, FileBytes(image, s)).value, root, s.vaddr + s.filesz,
                      Zeros(Padding(s)))
  {
    hide TreeInv, CopyBytes, Locations, AllHold, IsRoot, FileBytes;
    ghost var vm1 := m.vm;
    ReadyToZero(vm1, own, kroot, root, image, s);
    FileSlice(image, s);
    MemCpy(m, root, s.vaddr, image[s.offset..s.offset + s.filesz], own, kroot);
    assert m.vm == vm1.(mem := m.vm.mem);
    if s.filesz < s.memsz {
      MemZero(m, root, s.vaddr + s.filesz, s.memsz - s.filesz, own, kroot);
    } else {
      NothingToZero(m.vm.mem, root, s.vaddr + s.filesz);
    }
  }

  /** The memory of one loadable segment. */
  method LoadOne(m: Machine, root: nat, image: seq<byte>, s: Segment, ghost own: map<nat, Owner>, ghost kroot: nat)
    requires m.Valid() && TreeInv(m.vm, own, kroot) && IsRoot(own, root)
    requires SegmentOk(image, s) && LoadSegment(m.vm, root, image, s).Loaded?
    modifies m, m.words, m.pages
    ensures m.Valid() && Loaded(m.vm) == LoadSegment(old(m.vm), root, image, s)
  {
    hide TreeInv, RegionAlloc, CopyBytes, Locations, SegmentPaths, AllHold, LoadSegment, IsRoot, FileBytes, Zeros,
         Covered, Padding;
    SegmentNeedsRegion(m.vm, root, image, s);
    ghost var own' := RegionReady(m.vm, own, kroot, root, s);
    RegionLoop(m, root, s, own, kroot);
    ghost var vm1 := m.vm;
    FillPages(m, root, image, s, own', kroot);
    SegmentIs(old(m.vm), root, image, s, vm1, CopyBytes(vm1.mem, root, s.vaddr, FileBytes(image, s)).value, m.vm.mem);
    assert m.vm == vm1.(mem := m.vm.mem);
  }

  // ---------------------------------------------------------------- nodes

  /** The pointer `mm->mmap`: null before the first node. */
  function MmapOf(areas: Areas): u64 {
    if areas.list == [] then 0 else NodeAddress(areas.first)
  }

  /** The seven stores behind `vma_malloc`. */
  method StoreFields(m: Machine, f: nat, s: Segment, file: u64)
    requires m.Valid() && f < |m.vm.mem|
    modifies m, m.words
    ensures m.Valid() && m.vm == old(m.vm).(mem := StoreNode(old(m.vm).mem, f, s, file))
  {
    hide NodeWord;
    m.Store(f, 1, s.vaddr % WORD_LIMIT);
    m.Store(f, 2, (s.vaddr + s.memsz) % WORD_LIMIT);
    m.Store(f, 6, s.memsz % WORD_LIMIT);
    m.Store(f, 7, 0);
    m.Store(f, 3, file);
    m.Store(f, 5, s.flags % WORD_LIMIT);
    m.Store(f, 4, s.offset % WORD_LIMIT);
    FieldsAre(s, file);
  }

  lemma FieldsAre(s: Segment, file: u64)
    ensures NodeWord(s, file, 1) == s.vaddr % WORD_LIMIT && NodeWord(s, file, 2) == (s.vaddr + s.memsz) % WORD_LIMIT
    ensures NodeWord(s, file, 3) == file && NodeWord(s, file, 4) == s.offset % WORD_LIMIT
    ensures NodeWord(s, file, 5) == s.flags % WORD_LIMIT && NodeWord(s, file, 6) == s.memsz % WORD_LIMIT
    ensures NodeWord(s, file, 7) == 0
  {
  }

  lemma LinkAt(mem: Memory, areas: Areas, file: u64, j: nat)
    requires Listed(mem, areas, file) && j < |areas.list| && areas.first + |areas.list| <= MAX_FRAMES
    ensures Word(mem, areas.first + j, 7) == if j + 1 < |areas.list| then NodeAddress(areas.first + j + 1) else 0
    ensures j + 1 < |areas.list| ==>
              NodeAddress(areas.first + j + 1) != 0 && FrameAt(NodeAddress(areas.first + j + 1)) == areas.first + j + 1
  {
    assert Word(mem, areas.first + j, 7) == AreaWord(areas, file, j, 7);
    if j + 1 < |areas.list| {
      NodeAddresses(areas.first + j + 1);
    }
  }

  /** The walk of `vma_malloc` to the last node. */
  method LastNode(m: Machine, first: nat, ghost areas: Areas, ghost file: u64) returns (last: nat)
    requires m.Valid() && areas.list != [] && first == areas.first && Listed(m.vm.mem, areas, file)
    requires areas.first + |areas.list| <= |m.vm.mem| <= MAX_FRAMES
    ensures last == areas.first + |areas.list| - 1
  {
    hide Listed, NodeAddress, FrameAt, Word;
    last := first;
    LinkAt(m.vm.mem, areas, file, 0);
    var next := m.Load(last, 7);
    while next != 0
      invariant areas.first <= last < areas.first + |areas.list|
      invariant next == Word(m.vm.mem, last, 7)
      decreases areas.first + |areas.list| - last
    {
      LinkAt(m.vm.mem, areas, file, last - areas.first);
      last := FrameAt(next);
      next := m.Load(last, 7);
    }
    LinkAt(m.vm.mem, areas, file, last - areas.first);
  }

  /** A node for segment `s`: a page for the first one, else the page after the last node. */
  method AddNode(m: Machine, mmap: u64, s: Segment, file: u64, ghost areas: Areas) returns (mmap': u64)
    requires m.Valid() && mmap == MmapOf(areas) && AddArea(m.vm, areas, s, file).Some? && |m.vm.mem| <= MAX_FRAMES
    requires areas.list == [] ==> AllocFrames(m.vm, 1).value.1 < |m.vm.mem|
    requires areas.list != [] ==> Listed(m.vm.mem, areas, file) && areas.first + |areas.list| < |m.vm.mem|
    modifies m, m.words, m.pages
    ensures m.Valid() && m.vm == AddArea(old(m.vm), areas, s, file).value.0
    ensures mmap' == MmapOf(AddArea(old(m.vm), areas, s, file).value.1)
  {
    hide AllocFrames, Listed, StoreNode, NodeAddress, NextNode, FrameAt, Word, Put;
    MmapNull(m.vm.mem, areas);
    if mmap == 0 {
      assert PagesFor(NODE_BYTES) == 1;
      var f := m.Kmalloc(NODE_BYTES);
      StoreFields(m, f, s, file);
      mmap' := NodeAddress(f);
    } else {
      NodeAddresses(areas.first);
      var last := LastNode(m, FrameAt(mmap), areas, file);
      NextNodeIsNextFrame(last);
      var next := NextNode(NodeAddress(last));
      m.Store(last, 7, next);
      StoreFields(m, FrameAt(next), s, file);
      mmap' := mmap;
    }
  }

  lemma MmapNull(mem: Memory, areas: Areas)
    requires areas.list != [] ==> areas.first < MAX_FRAMES
    ensures MmapOf(areas) == 0 <==> areas.list == []
  {
    if areas.list != [] {
      NodeAddresses(areas.first);
    }
  }

  // ---------------------------------------------------------------- the program header loop

  /** The list of segments `ss` and their nodes are in memory, as the loop has left them so far. */
  ghost predicate LoadedTo(m: Machine, mmap: u64, vm0: Vm, root: nat, image: seq<byte>, ss: seq<Segment>, file: u64)
    reads m
  {
    var r := LoadList(vm0, root, image, ss, file);
    r.Image? && m.vm == r.vm && mmap == MmapOf(r.areas)
  }

  /** What a turn of the loop finds: the tree before the segment, and after it a list with room for a node. */
  lemma TurnReady(vm0: Vm, own: map<nat, Owner>, kroot: nat, root: nat, image: seq<byte>, ss: seq<Segment>, file: u64)
    returns (own1: map<nat, Owner>)
    requires TreeInv(vm0, own, kroot) && IsRoot(own, root) && ss != [] && ListOk(image, ss)
    requires NodesInPages(vm0, root, image, ss, file) && LoadList(vm0, root, image, ss, file).Image?
    ensures var n := |ss| - 1;
            var b := LoadList(vm0, root, image, ss[..n], file);
            && b.Image? && TreeInv(b.vm, own1, kroot) && IsRoot(own1, root) && SegmentOk(image, ss[n])
            && LoadSegment(b.vm, root, image, ss[n]).Loaded?
            && var vm2 := LoadSegment(b.vm, root, image, ss[n]).vm;
            && AddArea(vm2, b.areas, ss[n], file) ==
                 Some((LoadList(vm0, root, image, ss, file).vm, LoadList(vm0, root, image, ss, file).areas))
            && RoomInList(vm2, b.areas, file)
  {
    hide TreeInv, ListOk, LoadList, LoadSegment, InSomePage, ImageLoaded, AddArea, SegmentOk, Grows, RegionAlloc,
         SegmentPaths, RoomInList, NodesInPages;
    var n := |ss| - 1;
    ListPrefix(image, ss);
    LastOfList(image, ss[..n], ss[n]);
    LoadStep(vm0, root, image, ss, file);
    ClearUnfold(vm0, root, image, ss, file);
    var b := LoadList(vm0, root, image, ss[..n], file);
    own1 := LoadTheorem(vm0, own, kroot, root, image, ss[..n], file);
    LoadedTree(vm0, own, b.vm, own1, kroot, root, image, ss[..n], b.areas, file);
    GrowsKeepsRoots(vm0, own, b.vm, own1);
    SegmentNeedsRegion(b.vm, root, image, ss[n]);
    var own2 := OneMoreSegment(vm0, own, b.vm, own1, kroot, root, image, ss[..n], ss[n], b.areas, file);
    ListHasRoom(vm0, own, LoadSegment(b.vm, root, image, ss[n]).vm, own2, kroot, root, image, ss, b.areas, ss[n], file);
  }

  ghost predicate RoomInList(vm: Vm, areas: Areas, file: u64) {
    && |vm.mem| <= MAX_FRAMES
    && (areas.list == [] && AllocFrames(vm, 1).Some? ==> AllocFrames(vm, 1).value.1 < |vm.mem|)
    && (areas.list != [] ==> Listed(vm.mem, areas, file) && areas.first + |areas.list| < |vm.mem|)
  }

  lemma ListHasRoom(vm: Vm, own: map<nat, Owner>, vm1: Vm, own1: map<nat, Owner>, kroot: nat, root: nat,
                    image: seq<byte>, ss: seq<Segment>, areas: Areas, s: Segment, file: u64)
    requires ImageLoaded(vm, own, vm1, own1, kroot, root, image, ss, areas, file)
    requires areas.list != [] ==> InSomePage(vm1.mem, root, ss, areas.first + |areas.list|)
    ensures RoomInList(vm1, areas, file)
  {
    hide TreeInv, Grows, Listed, AllSeen, AllPagesFresh, WalksOutside, NodesHeld, InSomePage, AllocFrames, WellFormed;
    TreeIsWellFormed(vm1, own1, kroot);
    SmallMemory(vm1);
    if areas.list != [] {
      RoomForNode(vm, own, vm1, own1, kroot, root, ss, areas, s);
    } else if AllocFrames(vm1, 1).Some? {
      AllocOne(vm1);
    }
  }

  lemma SmallMemory(vm: Vm)
    requires WellFormed(vm)
    ensures |vm.mem| <= MAX_FRAMES
  {
  }

  /** One turn of the loop for a loadable header. */
  method LoadTurn(m: Machine, root: nat, image: seq<byte>, s: Segment, file: u64, mmap: u64, ghost vm0: Vm,
                  ghost ss: seq<Segment>, ghost own: map<nat, Owner>, ghost kroot: nat)
    returns (mmap': u64)
    requires m.Valid() && TreeInv(vm0, own, kroot) && IsRoot(own, root) && ss != [] && ListOk(image, ss)
    requires s == ss[|ss| - 1]
    requires NodesInPages(vm0, root, image, ss, file) && LoadList(vm0, root, image, ss, file).Image?
    requires LoadedTo(m, mmap, vm0, root, image, ss[..|ss| - 1], file)
    modifies m, m.words, m.pages
    ensures m.Valid() && LoadedTo(m, mmap', vm0, root, image, ss, file)
  {
    hide TreeInv, ListOk, LoadList, LoadSegment, NodesInPages, AddArea, SegmentOk, MmapOf, AllocFrames, Listed;
    ghost var own1 := TurnReady(vm0, own, kroot, root, image, ss, file);
    ghost var areas := LoadList(vm0, root, image, ss[..|ss| - 1], file).areas;
    LoadOne(m, root, image, s, own1, kroot);
    AreaNeedsPage(m.vm, areas, s, file);
    mmap' := AddNode(m, mmap, s, file, areas);
  }

  lemma AreaNeedsPage(vm: Vm, areas: Areas, s: Segment, file: u64)
    requires AddArea(vm, areas, s, file).Some?
    ensures areas.list == [] ==> AllocFrames(vm, 1).Some?
  {
  }

  lemma LoadableStep(segs: seq<Segment>, k: nat)
    requires k < |segs|
    ensures Loadable(segs[..k + 1]) ==
              if segs[k].kind == PT_LOAD then Loadable(segs[..k]) + [segs[k]] else Loadable(segs[..k])
  {
    assert segs[..k + 1][..k] == segs[..k];
  }

  lemma {:induction false} LoadablePrefix(segs: seq<Segment>, k: nat)
    requires k <= |segs|
    ensures Loadable(segs[..k]) <= Loadable(segs)
    decreases |segs| - k
  {
    if k == |segs| {
      assert segs[..k] == segs;
    } else {
      LoadableStep(segs, k);
      LoadablePrefix(segs, k + 1);
    }
  }

  /** Everything asked of a list holds of its prefixes. */
  lemma {:induction false} PrefixLoads(vm: Vm, root: nat, image: seq<byte>, ss: seq<Segment>, file: u64,
                                       a: seq<Segment>)
    requires ListOk(image, ss) && NodesInPages(vm, root, image, ss, file) && LoadList(vm, root, image, ss, file).Image?
    requires a <= ss
    ensures ListOk(image, a) && NodesInPages(vm, root, image, a, file) && LoadList(vm, root, image, a, file).Image?
    decreases |ss|
  {
    hide ListOk, LoadSegment, InSomePage, LoadWithNode;
    if a == ss {
    } else {
      var n := |ss| - 1;
      ListPrefix(image, ss);
      LoadStep(vm, root, image, ss, file);
      assert a <= ss[..n];
      PrefixLoads(vm, root, image, ss[..n], file, a);
    }
  }

  /** The loop over the program headers: other kinds are skipped. */
  method LoadHeaders(m: Machine, root: nat, image: seq<byte>, segs: seq<Segment>, file: u64, ghost own: map<nat, Owner>,
                     ghost kroot: nat)
    returns (mmap: u64)
    requires m.Valid() && TreeInv(m.vm, own, kroot) && IsRoot(own, root) && ImageOk(image, segs)
    requires NodesInPages(m.vm, root, image, Loadable(segs), file)
    requires LoadList(m.vm, root, image, Loadable(segs), file).Image?
    modifies m, m.words, m.pages
    ensures m.Valid() && LoadedTo(m, mmap, old(m.vm), root, image, Loadable(segs), file)
  {
    hide TreeInv, LoadList, LoadedTo, ImageOk, NodesInPages, Loadable;
    ghost var vm0 := m.vm;
    mmap := 0;
    NothingYet(m, root, image, segs, file);
    for k := 0 to |segs|
      invariant m.Valid() && LoadedTo(m, mmap, vm0, root, image, Loadable(segs[..k]), file)
    {
      mmap := HeaderStep(m, root, image, segs, k, file, mmap, vm0, own, kroot);
    }
    assert segs[..|segs|] == segs;
  }

  lemma NothingYet(m: Machine, root: nat, image: seq<byte>, segs: seq<Segment>, file: u64)
    ensures LoadedTo(m, 0, m.vm, root, image, Loadable(segs[..0]), file)
  {
    assert segs[..0] == [] && Loadable([]) == [];
  }

  method HeaderStep(m: Machine, root: nat, image: seq<byte>, segs: seq<Segment>, k: nat, file: u64, mmap: u64,
                    ghost vm0: Vm, ghost own: map<nat, Owner>, ghost kroot: nat)
    returns (mmap': u64)
    requires m.Valid() && TreeInv(vm0, own, kroot) && IsRoot(own, root) && ImageOk(image, segs) && k < |segs|
    requires NodesInPages(vm0, root, image, Loadable(segs), file)
    requires LoadList(vm0, root, image, Loadable(segs), file).Image?
    requires LoadedTo(m, mmap, vm0, root, image, Loadable(segs[..k]), file)
    modifies m, m.words, m.pages
    ensures m.Valid() && LoadedTo(m, mmap', vm0, root, image, Loadable(segs[..k + 1]), file)
  {
    hide TreeInv, LoadList, LoadedTo, ListOk, NodesInPages, Loadable;
    LoadableStep(segs, k);
    mmap' := mmap;
    if segs[k].kind == PT_LOAD {
      ghost var ss := Loadable(segs[..k + 1]);
      LoadablePrefix(segs, k + 1);
      PrefixLoads(vm0, root, image, Loadable(segs), file, ss);
      assert ss[..|ss| - 1] == Loadable(segs[..k]);
      mmap' := LoadTurn(m, root, image, segs[k], file, mmap, vm0, ss, own, kroot);
    }
  }

  // ---------------------------------------------------------------- roots and stacks

  /** `kmalloc_stack` for one page. */
  method StackPage(m: Machine, root: nat, ghost own: map<nat, Owner>, ghost kroot: nat) returns (f: nat)
    requires m.Valid() && TreeInv(m.vm, own, kroot) && IsRoot(own, root) && KmallocStack(m.vm, root).Some?
    modifies m, m.words, m.pages
    ensures m.Valid() && Some((m.vm, f)) == KmallocStack(old(m.vm), root)
  {
    assert PagesFor(1) == 1;
    AllocKeepsTree(m.vm, own, kroot, 1);
    hide TreeInv, Path, AllocFrames, PagesFor, MapPath, Grows;
    f := m.Kmalloc(1);
    InitMap(m, root, StackAddress(f), FrameAddress(f), 1, true, own, kroot);
  }

  /** A new root: 512 empty entries, then the kernel's entry. */
  method FillRoot(m: Machine, root: nat, kroot: nat)
    requires m.Valid() && root < |m.vm.mem| && kroot < |m.vm.mem| && root != kroot
    modifies m, m.words
    ensures m.Valid() && |old(m.vm).mem| == |m.vm.mem| && m.vm == RootOf(old(m.vm), kroot, root, None)
  {
    ghost var mem := m.vm.mem;
    for i := 0 to ENTRIES
      invariant m.Valid() && m.vm.pages == old(m.vm).pages && |m.vm.mem| == |mem|
      invariant forall g :: 0 <= g < |mem| && g != root ==> m.vm.mem[g] == mem[g]
      invariant forall j :: 0 <= j < i ==> m.vm.mem[root][j] == 0
    {
      m.Store(root, i, 0);
    }
    var e := m.Load(kroot, KERNEL_SLOT);
    m.Store(root, KERNEL_SLOT, e);
    assert m.vm.mem[root] == CopyRoot(mem, kroot, None);
    assert m.vm.mem == mem[root := CopyRoot(mem, kroot, None)];
  }

  /** The copy loop of `sys_fork` over the root entries. */
  method CopyEntries(m: Machine, root: nat, kroot: nat, parent: nat)
    requires m.Valid() && root < |m.vm.mem| && parent < |m.vm.mem| && root != parent
    modifies m, m.words
    ensures m.Valid() && |old(m.vm).mem| == |m.vm.mem| && m.vm == RootOf(old(m.vm), kroot, root, Some(parent))
  {
    ghost var mem := m.vm.mem;
    for i := 0 to ENTRIES
      invariant m.Valid() && m.vm.pages == old(m.vm).pages && |m.vm.mem| == |mem|
      invariant forall g :: 0 <= g < |mem| && g != root ==> m.vm.mem[g] == mem[g]
      invariant forall j :: 0 <= j < i ==> m.vm.mem[root][j] == Word(mem, parent, j)
    {
      var e := m.Load(parent, i);
      m.Store(root, i, e);
    }
    assert m.vm.mem[root] == CopyRoot(mem, kroot, Some(parent));
    assert m.vm.mem == mem[root := CopyRoot(mem, kroot, Some(parent))];
  }

  // ---------------------------------------------------------------- whole operations

  lemma RootReady(vm: Vm, own: map<nat, Owner>, kroot: nat, vm1: Vm, root: nat, parent: Option<nat>)
    requires TreeInv(vm, own, kroot) && TreeInv(vm1, own, kroot)
    requires root < |vm1.mem| && vm1.pages[root].used == 1 && root !in own
    requires parent.Some? ==> IsRoot(own, parent.value) && own[parent.value].user
    ensures kroot < |vm1.mem| && root != kroot
    ensures parent.Some? ==> parent.value < |vm1.mem| && parent.value != root
    ensures TreeInv(RootOf(vm1, kroot, root, parent), own[root := RootOwner(true)], kroot)
  {
    AddRoot(vm1, own, kroot, root, parent);
  }

  /** The pages `elf_run_bin` takes first: the root and the task structure. */
  method NewPages(m: Machine) returns (root: nat)
    requires m.Valid() && NewFrames(m.vm).Some?
    modifies m, m.words, m.pages
    ensures m.Valid() && Some((m.vm, root)) == NewFrames(old(m.vm))
  {
    assert PagesFor(DESCRIPTOR_BYTES) == 1;
    hide AllocFrames, PagesFor;
    root := m.Kmalloc(DESCRIPTOR_BYTES);
    var task := m.Kmalloc(TASK_BYTES);
  }

  /** Root and stack of a new process, as `elf_run_bin` sets them up. */
  method SetUpSpace(m: Machine, kroot: nat, ghost own: map<nat, Owner>) returns (root: nat, stack: nat)
    requires m.Valid() && TreeInv(m.vm, own, kroot) && NewSpace(m.vm, kroot).Some?
    modifies m, m.words, m.pages
    ensures m.Valid() && Some((m.vm, root, stack)) == NewSpace(old(m.vm), kroot)
  {
    hide NewFrames, RootOf, KmallocStack, TreeInv, Grows;
    ghost var vm0 := m.vm;
    NewFramesKeepTree(vm0, own, kroot);
    root := NewPages(m);
    RootReady(vm0, own, kroot, m.vm, root, None);
    FillRoot(m, root, kroot);
    stack := StackPage(m, root, own[root := RootOwner(true)], kroot);
  }

  /** `elf_run_bin`: the memory it builds; `file` is the address of the image. */
  method ElfRunBin(m: Machine, kroot: nat, image: seq<byte>, segs: seq<Segment>, file: u64, ghost own: map<nat, Owner>)
    returns (root: nat, stack: nat, mmap: u64)
    requires m.Valid() && TreeInv(m.vm, own, kroot) && ImageOk(image, segs)
    requires RunBinary(m.vm, kroot, image, segs, file).Some? && NodesClear(m.vm, kroot, image, segs, file)
    modifies m, m.words, m.pages
    ensures var p := RunBinary(old(m.vm), kroot, image, segs, file).value;
            m.Valid() && m.vm == p.vm && root == p.root && stack == p.stack && mmap == MmapOf(p.areas)
  {
    hide NewSpace, LoadList, TreeInv, Grows, Walk, Path, ListOk, NodesInPages, Loadable;
    ghost var own1 := NewSpaceKeepsTree(m.vm, own, kroot);
    root, stack := SetUpSpace(m, kroot, own);
    mmap := LoadHeaders(m, root, image, segs, file, own1, kroot);
  }

  /** The pages `sys_fork` takes: task structure, list node, root, and copies of the two stacks. */
  method ForkPages(m: Machine) returns (root: nat)
    requires m.Valid() && ForkFrames(m.vm).Some?
    modifies m, m.words, m.pages
    ensures m.Valid() && Some((m.vm, root)) == ForkFrames(old(m.vm))
  {
    assert PagesFor(1) == 1;
    hide AllocFrames, PagesFor;
    var task := m.Kmalloc(TASK_BYTES);
    var node := m.Kmalloc(1);
    root := m.Kmalloc(1);
    var kernelStack := m.Kmalloc(1);
    var userStack := m.Kmalloc(1);
  }

  /**
   The address space of a forked child.  The zero fill of the child root is left out: the copy loop
   overwrites every one of its entries.
   */
  method ForkRoot(m: Machine, kroot: nat, parent: nat, ghost own: map<nat, Owner>) returns (root: nat, stack: nat)
    requires m.Valid() && TreeInv(m.vm, own, kroot) && IsRoot(own, parent) && own[parent].user
    requires ForkSpace(m.vm, kroot, parent).Some?
    modifies m, m.words, m.pages
    ensures m.Valid() && Some((m.vm, root, stack)) == ForkSpace(old(m.vm), kroot, parent)
  {
    hide ForkFrames, RootOf, KmallocStack, TreeInv, Grows;
    ghost var vm0 := m.vm;
    ForkFramesKeepTree(vm0, own, kroot);
    root := ForkPages(m);
    RootReady(vm0, own, kroot, m.vm, root, Some(parent));
    CopyEntries(m, root, kroot, parent);
    stack := StackPage(m, root, own[root := RootOwner(true)], kroot);
  }
}
