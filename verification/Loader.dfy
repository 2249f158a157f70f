/**
 The program loader, on values: every loadable segment is given fresh pages, copied in through the
 new root's own translations, and padded with zeros.
 */
module Loader {
  import opened Basics
  import opened Allocator
  import opened Addresses
  import opened Bytes
  import opened Paging
  import opened PageTree
  import opened UserMemory

  const PT_LOAD := 1

  /** A program header: where the segment lies in memory and in the file. */
  datatype Segment = Segment(kind: nat, flags: nat, offset: nat, vaddr: nat, filesz: nat, memsz: nat)

  datatype LoadResult = Loaded(vm: Vm) | OutOfMemory | PageFault

  /** The bytes that loading writes: a file size above the memory size is copied in full. */
  function Extent(s: Segment): (n: nat) {
    if s.filesz > s.memsz then s.filesz else s.memsz
  }

  function Padding(s: Segment): (n: nat) {
    if s.filesz < s.memsz then s.memsz - s.filesz else 0
  }

  function PageCount(s: Segment): (n: nat)
  {
    (s.vaddr + s.memsz + PAGE_SIZE - 1) / PAGE_SIZE - s.vaddr / PAGE_SIZE
  }

  /** The pages that `region_alloc` walks over for a segment: their paths and their numbers. */
  function SegmentPaths(s: Segment): (ps: seq<seq<nat>>)
    ensures |ps| == PageCount(s)
    ensures forall i :: 0 <= i < |ps| ==> ps[i] == Digits(s.vaddr / PAGE_SIZE + i)
    ensures forall i :: 0 <= i < |ps| ==> |ps[i]| == 4
  {
    seq(PageCount(s), i requires 0 <= i => Digits(s.vaddr / PAGE_SIZE + i))
  }

  function SegmentPages(s: Segment): (ts: seq<nat>)
    ensures |ts| == PageCount(s) && forall i :: 0 <= i < |ts| ==> ts[i] == (s.vaddr / PAGE_SIZE + i) % PAGE_NUMBERS
  {
    seq(PageCount(s), i requires 0 <= i => (s.vaddr / PAGE_SIZE + i) % PAGE_NUMBERS)
  }

  /** The bytes of the image from `offset` on; a file that is too short counts as continued by zeros. */
  function FileBytes(image: seq<byte>, s: Segment): (bs: seq<byte>)
    ensures |bs| == s.filesz && forall k :: 0 <= k < s.filesz ==> bs[k] == FileByte(image, s.offset + k)
  {
    seq<byte>(s.filesz, k requires 0 <= k => FileByte(image, s.offset + k))
  }

  function FileByte(image: seq<byte>, i: nat): byte {
    if i < |image| then image[i] else 0
  }

  /** Region, then `memcpy` of `a`, then `memset` standing for a copy of `b`. */
  function Fill(vm: Vm, root: nat, paths: seq<seq<nat>>, la: seq<Loc>, a: seq<byte>, lb: seq<Loc>,
                b: seq<byte>): (r: LoadResult)
    requires forall k :: 0 <= k < |paths| ==> |paths[k]| == 4
    requires |la| == |a| && |lb| == |b|
    requires forall k :: 0 <= k < |la| ==> |la[k].path| == 4
    requires forall k :: 0 <= k < |lb| ==> |lb[k].path| == 4
  {
    var region := RegionAlloc(vm, root, paths);
    if region.None? then OutOfMemory else
    var m1 := CopyAt(region.value.mem, root, la, a);
    if m1.None? then PageFault else
    var m2 := CopyAt(m1.value, root, lb, b);
    if m2.None? then PageFault else Loaded(region.value.(mem := m2.value))
  }

  /** The memory that one loadable segment gets. */
  function LoadSegment(vm: Vm, root: nat, image: seq<byte>, s: Segment): (r: LoadResult)
  {
    Fill(vm, root, SegmentPaths(s), Locations(s.vaddr, s.filesz), FileBytes(image, s),
         Locations(s.vaddr + s.filesz, Padding(s)), Zeros(Padding(s)))
  }

  // ---------------------------------------------------------------- filling one segment

  ghost predicate Inside(paths: seq<seq<nat>>, tags: seq<nat>, l: Loc)
    requires |paths| == |tags|
  {
    GoodLoc(l) && exists i :: 0 <= i < |paths| && paths[i] == l.path && tags[i] == l.page
  }

  ghost predicate AllInside(paths: seq<seq<nat>>, tags: seq<nat>, locs: seq<Loc>)
    requires |paths| == |tags|
  {
    forall k :: 0 <= k < |locs| ==> Inside(paths, tags, locs[k])
  }

  /** The locations lie in pages whose frames are newer than `own`. */
  ghost predicate AllFresh(mem: Memory, own: map<nat, Owner>, own': map<nat, Owner>, root: nat, locs: seq<Loc>) {
    AllHold(mem, own', root, locs)
    && forall k :: 0 <= k < |locs| ==> FreshPage(mem, own, own', root, locs[k].path, locs[k].page)
  }

  lemma CopyGrows(vm: Vm, own: map<nat, Owner>, vm1: Vm, own': map<nat, Owner>, kroot: nat, root: nat, locs: seq<Loc>,
                  bytes: seq<byte>)
    requires TreeInv(vm, own, kroot) && TreeInv(vm1, own', kroot) && IsRoot(own', root) && Grows(vm, own, vm1, own')
    requires |locs| == |bytes| && AllFresh(vm1.mem, own, own', root, locs)
    ensures CopyAt(vm1.mem, root, locs, bytes).Some?
    ensures var vm2 := vm1.(mem := CopyAt(vm1.mem, root, locs, bytes).value);
            && TreeInv(vm2, own', kroot) && Grows(vm, own, vm2, own') && SameWalks(own', vm1.mem, vm2.mem)
  {
    CopyAtTheorem(vm1, own', kroot, root, locs, bytes);
    var vm2 := vm1.(mem := CopyAt(vm1.mem, root, locs, bytes).value);
    forall f: nat | f < |vm1.mem| && (f in own || f !in own') ensures vm2.mem[f] == vm1.mem[f] {
      CopyMissesOldFrame(vm1, own, own', kroot, root, locs, bytes, f);
    }
    GrowsOnOldFrames(vm, own, vm1, own', vm2);
  }

  lemma CopyMissesOldFrame(vm1: Vm, own: map<nat, Owner>, own': map<nat, Owner>, kroot: nat, root: nat, locs: seq<Loc>,
                           bytes: seq<byte>, f: nat)
    requires TreeInv(vm1, own', kroot) && IsRoot(own', root)
    requires |locs| == |bytes| && AllFresh(vm1.mem, own, own', root, locs)
    requires f < |vm1.mem| && (f in own || f !in own')
    ensures CopyAt(vm1.mem, root, locs, bytes).Some? && |CopyAt(vm1.mem, root, locs, bytes).value| == |vm1.mem|
    ensures CopyAt(vm1.mem, root, locs, bytes).value[f] == vm1.mem[f]
  {
    CopyAtTheorem(vm1, own', kroot, root, locs, bytes);
    assert Elsewhere(vm1.mem, root, locs, f);
  }

  lemma GrowsOnOldFrames(vm: Vm, own: map<nat, Owner>, vm1: Vm, own': map<nat, Owner>, vm2: Vm)
    requires WellFormed(vm) && WellFormed(vm1) && Grows(vm, own, vm1, own') && vm2.pages == vm1.pages
    requires |vm2.mem| == |vm1.mem|
    requires forall f: nat :: f < |vm1.mem| && (f in own || f !in own') ==> vm2.mem[f] == vm1.mem[f]
    ensures Grows(vm, own, vm2, own')
  {
    forall r, i | IsRoot(own, r) && 0 <= i < ENTRIES && Present(Word(vm.mem, r, i))
      ensures Word(vm2.mem, r, i) == Word(vm.mem, r, i)
    {
      assert Word(vm1.mem, r, i) == Word(vm.mem, r, i);
    }
  }

  lemma FreshOnWalks(own: map<nat, Owner>, own': map<nat, Owner>, mem: Memory, mem': Memory, root: nat, locs: seq<Loc>)
    requires SameWalks(own', mem, mem') && IsRoot(own', root) && AllFresh(mem, own, own', root, locs)
    ensures AllFresh(mem', own, own', root, locs)
  {
    forall k | 0 <= k < |locs| ensures Walk(mem', root, locs[k].path) == Walk(mem, root, locs[k].path) {
      assert GoodLoc(locs[k]);
    }
  }

  lemma InsideIsFresh(mem: Memory, own: map<nat, Owner>, own': map<nat, Owner>, root: nat, paths: seq<seq<nat>>,
                      tags: seq<nat>, locs: seq<Loc>)
    requires GoodPaths(paths, tags) && AllInside(paths, tags, locs)
    requires forall k :: 0 <= k < |paths| ==> FreshPage(mem, own, own', root, paths[k], tags[k])
    ensures AllFresh(mem, own, own', root, locs)
  {
    forall k | 0 <= k < |locs|
      ensures GoodLoc(locs[k]) && LocHolds(mem, own', root, locs[k])
      ensures FreshPage(mem, own, own', root, locs[k].path, locs[k].page)
    {
      assert Inside(paths, tags, locs[k]);
    }
  }

  /** The tree after a segment is filled; pages outside it keep their translations. */
  lemma FillKeepsTree(vm: Vm, own: map<nat, Owner>, kroot: nat, root: nat, paths: seq<seq<nat>>, tags: seq<nat>,
                      la: seq<Loc>, a: seq<byte>, lb: seq<Loc>, b: seq<byte>)
    returns (own': map<nat, Owner>)
    requires TreeInv(vm, own, kroot) && IsRoot(own, root) && GoodPaths(paths, tags)
    requires |la| == |a| && |lb| == |b| && AllInside(paths, tags, la) && AllInside(paths, tags, lb)
    requires RegionAlloc(vm, root, paths).Some?
    ensures Fill(vm, root, paths, la, a, lb, b).Loaded?
    ensures var vm1 := RegionAlloc(vm, root, paths).value;
            var vm' := Fill(vm, root, paths, la, a, lb, b).vm;
            && TreeInv(vm1, own', kroot) && IsRoot(own', root)
            && AllFresh(vm1.mem, own, own', root, la) && AllFresh(vm1.mem, own, own', root, lb)
            && CopyAt(vm1.mem, root, la, a).Some?
            && TreeInv(vm1.(mem := CopyAt(vm1.mem, root, la, a).value), own', kroot)
            && SameWalks(own', vm1.mem, CopyAt(vm1.mem, root, la, a).value)
            && TreeInv(vm', own', kroot) && Grows(vm, own, vm', own') && SameWalks(own', vm1.mem, vm'.mem)
            && PagesFresh(vm'.mem, own, own', root, paths, tags)
            && (forall q: seq<nat> :: |q| == 4 && Indices(q) && q !in paths ==>
                  Walk(vm'.mem, root, q) == Walk(vm.mem, root, q))
  {
    hide TreeInv, Grows, Walk, RegionAlloc;
    own' := RegionTheorem(vm, own, kroot, root, paths, tags);
    var vm1 := RegionAlloc(vm, root, paths).value;
    GrowsKeepsRoots(vm, own, vm1, own');
    InsideIsFresh(vm1.mem, own, own', root, paths, tags, la);
    InsideIsFresh(vm1.mem, own, own', root, paths, tags, lb);
    CopyGrows(vm, own, vm1, own', kroot, root, la, a);
    var vm2 := vm1.(mem := CopyAt(vm1.mem, root, la, a).value);
    FreshOnWalks(own, own', vm1.mem, vm2.mem, root, lb);
    CopyGrows(vm, own, vm2, own', kroot, root, lb, b);
    var vm' := Fill(vm, root, paths, la, a, lb, b).vm;
    SameWalksTrans(own', own', vm1.mem, vm2.mem, vm'.mem);
    PagesFreshOnWalks(own, own', vm1.mem, vm'.mem, root, paths, tags);
  }

  /** Every page of a region lies in a frame of its own that is newer than `own`. */
  ghost predicate PagesFresh(mem: Memory, own: map<nat, Owner>, own': map<nat, Owner>, root: nat, paths: seq<seq<nat>>,
                             tags: seq<nat>) {
    && |paths| == |tags|
    && forall k :: 0 <= k < |paths| ==> |paths[k]| == 4 && FreshPage(mem, own, own', root, paths[k], tags[k])
  }

  lemma PagesFreshOnWalks(own: map<nat, Owner>, own': map<nat, Owner>, mem: Memory, mem': Memory, root: nat,
                          paths: seq<seq<nat>>, tags: seq<nat>)
    requires SameWalks(own', mem, mem') && IsRoot(own', root) && GoodPaths(paths, tags)
    requires PagesFresh(mem, own, own', root, paths, tags)
    ensures PagesFresh(mem', own, own', root, paths, tags)
  {
    hide Walk;
    forall k | 0 <= k < |paths| ensures FreshPage(mem', own, own', root, paths[k], tags[k]) {
      assert Walk(mem', root, paths[k]) == Walk(mem, root, paths[k]);
    }
  }

  ghost predicate Distinct(locs: seq<Loc>) {
    forall j, k :: 0 <= j < k < |locs| ==> locs[j] != locs[k]
  }

  /** Every filled byte reads back: the first part as copied, the second part as padded. */
  lemma FillReads(vm: Vm, own: map<nat, Owner>, kroot: nat, root: nat, paths: seq<seq<nat>>, tags: seq<nat>,
                  la: seq<Loc>, a: seq<byte>, lb: seq<Loc>, b: seq<byte>, x: Loc)
    requires TreeInv(vm, own, kroot) && IsRoot(own, root) && GoodPaths(paths, tags)
    requires |la| == |a| && |lb| == |b| && AllInside(paths, tags, la) && AllInside(paths, tags, lb)
    requires RegionAlloc(vm, root, paths).Some?
    requires Distinct(la) && Distinct(lb) && (x in la || x in lb) && !(x in la && x in lb)
    requires AgreesWith(la, x) && AgreesWith(lb, x)
    ensures Fill(vm, root, paths, la, a, lb, b).Loaded?
    ensures var mem' := Fill(vm, root, paths, la, a, lb, b).vm.mem;
            && (forall k :: 0 <= k < |la| && la[k] == x ==> ReadAt(mem', root, x.path, x.off) == Some(a[k]))
            && (forall k :: 0 <= k < |lb| && lb[k] == x ==> ReadAt(mem', root, x.path, x.off) == Some(b[k]))
  {
    hide TreeInv, Grows, ReadAt, Walk, RegionAlloc;
    var own' := FillKeepsTree(vm, own, kroot, root, paths, tags, la, a, lb, b);
    var vm1 := RegionAlloc(vm, root, paths).value;
    var vm2 := vm1.(mem := CopyAt(vm1.mem, root, la, a).value);
    assert GoodLoc(x) && LocHolds(vm1.mem, own', root, x);
    CopyAtReads(vm1, own', kroot, root, la, a, x);
    HoldsOnWalks(own', vm1.mem, vm2.mem, root, x);
    FreshOnWalks(own, own', vm1.mem, vm2.mem, root, lb);
    CopyAtReads(vm2, own', kroot, root, lb, b, x);
  }

  /** A byte of a page outside the segment, loaded before, still reads the same. */
  lemma GrowthKeepsByte(vm: Vm, own: map<nat, Owner>, vm': Vm, own': map<nat, Owner>, kroot: nat, root: nat, x: Loc)
    requires TreeInv(vm, own, kroot) && Grows(vm, own, vm', own') && GoodLoc(x) && LocHolds(vm.mem, own, root, x)
    requires Walk(vm'.mem, root, x.path) == Walk(vm.mem, root, x.path)
    ensures LocHolds(vm'.mem, own', root, x)
    ensures ReadAt(vm'.mem, root, x.path, x.off) == ReadAt(vm.mem, root, x.path, x.off)
  {
    var f := FrameOf(Walk(vm.mem, root, x.path).value);
    assert f in own && own[f].Data? && vm'.mem[f] == vm.mem[f];
  }

  // ---------------------------------------------------------------- segments and images

  /** What the loader assumes of one loadable segment: its bytes lie in the file and in the pages it gets. */
  ghost predicate SegmentOk(image: seq<byte>, s: Segment) {
    && Extent(s) < 0x8000_0000
    && s.offset + s.filesz <= |image|
    && s.vaddr + Extent(s) + PAGE_SIZE <= WORD_LIMIT
    && Covered(s)
    && (forall i :: 0 <= i < PageCount(s) ==> SegmentPaths(s)[i][0] != KERNEL_SLOT)
  }

  /** The bytes to write end in the last page of the region. */
  predicate Covered(s: Segment) {
    (s.vaddr + Extent(s) + PAGE_SIZE - 1) / PAGE_SIZE == (s.vaddr + s.memsz + PAGE_SIZE - 1) / PAGE_SIZE
  }

  ghost predicate PageDisjoint(s: Segment, t: Segment) {
    forall i, j :: 0 <= i < PageCount(s) && 0 <= j < PageCount(t) ==> SegmentPages(s)[i] != SegmentPages(t)[j]
  }

  /** The byte that byte `k` of a segment must hold: from the file, then zero. */
  function Wanted(image: seq<byte>, s: Segment, k: nat): byte
  {
    if k < s.filesz then FileByte(image, s.offset + k) else 0
  }

  /** A byte is in place: its page is a data page of its own, and it reads as `v`. */
  ghost predicate InPlace(mem: Memory, own: map<nat, Owner>, root: nat, l: Loc, v: byte)
    requires |l.path| == 4
  {
    LocHolds(mem, own, root, l) && ReadAt(mem, root, l.path, l.off) == Some(v)
  }

  ghost predicate ByteLoaded(mem: Memory, own: map<nat, Owner>, root: nat, image: seq<byte>, s: Segment, k: nat)
  {
    InPlace(mem, own, root, Locate(s.vaddr + k), Wanted(image, s, k))
  }

  lemma PagesOfSegment(s: Segment, k: nat)
    requires k < Extent(s) && Covered(s)
    ensures (s.vaddr + k) / PAGE_SIZE - s.vaddr / PAGE_SIZE < PageCount(s)
    ensures 0 <= (s.vaddr + k) / PAGE_SIZE - s.vaddr / PAGE_SIZE
  {
  }

  lemma SegmentInside(s: Segment, k: nat)
    requires k < Extent(s) && Covered(s)
    ensures Inside(SegmentPaths(s), SegmentPages(s), Locate(s.vaddr + k))
  {
    PagesOfSegment(s, k);
    LocateGood(s.vaddr + k, s.vaddr + k);
    var i := (s.vaddr + k) / PAGE_SIZE - s.vaddr / PAGE_SIZE;
    assert SegmentPaths(s)[i] == Locate(s.vaddr + k).path && SegmentPages(s)[i] == Locate(s.vaddr + k).page;
  }

  lemma PageCountSmall(s: Segment)
    requires s.memsz < 0x8000_0000
    ensures PageCount(s) < PAGE_NUMBERS
  {
  }

  lemma NearPagesDiffer(v: nat, i: nat, j: nat)
    requires i < j < PAGE_NUMBERS
    ensures (v + i) % PAGE_NUMBERS != (v + j) % PAGE_NUMBERS
  {
  }

  lemma SegmentPathsGood(s: Segment)
    requires s.memsz < 0x8000_0000
    ensures GoodPaths(SegmentPaths(s), SegmentPages(s))
  {
    PageCountSmall(s);
    forall i, j | 0 <= i < j < PageCount(s) ensures SegmentPaths(s)[i] != SegmentPaths(s)[j] {
      NearPagesDiffer(s.vaddr / PAGE_SIZE, i, j);
      DigitsOfPages(s.vaddr / PAGE_SIZE + i, s.vaddr / PAGE_SIZE + j);
    }
  }

  lemma NearLocationsDiffer(va: nat, i: nat, j: nat)
    requires i < j < i + 0x8000_0000
    ensures Locate(va + i) != Locate(va + j)
  {
    hide Locate, GoodLoc, Agree;
    LocateGood(va + i, va + j);
    NearAddressesDiffer(va + i, j - i);
  }

  lemma NearAddressesDiffer(x: nat, d: nat)
    requires 0 < d < 0x8000_0000
    ensures x % ADDRESSES != (x + d) % ADDRESSES
  {
    var q := (x + d) / ADDRESSES - x / ADDRESSES;
    assert (x + d) % ADDRESSES - x % ADDRESSES == d - q * ADDRESSES;
  }

  lemma SegmentLocations(s: Segment, from: nat, n: nat)
    requires from + n <= Extent(s) < 0x8000_0000 && Covered(s)
    ensures AllInside(SegmentPaths(s), SegmentPages(s), Locations(s.vaddr + from, n))
    ensures Distinct(Locations(s.vaddr + from, n))
  {
    hide Locate, SegmentPaths, SegmentPages, PageCount, Inside;
    var ls := Locations(s.vaddr + from, n);
    forall k | 0 <= k < n ensures Inside(SegmentPaths(s), SegmentPages(s), ls[k]) {
      SegmentInside(s, from + k);
      assert s.vaddr + from + k == s.vaddr + (from + k);
    }
    forall j, k | 0 <= j < k < n ensures ls[j] != ls[k] {
      NearLocationsDiffer(s.vaddr + from, j, k);
    }
  }

  lemma LocationsAgree(va: nat, n: nat, y: nat)
    ensures forall i :: 0 <= i < n ==> Agree(Locations(va, n)[i], Locate(y))
  {
    forall i | 0 <= i < n ensures Agree(Locations(va, n)[i], Locate(y)) {
      LocateGood(va + i, y);
    }
  }

  lemma LocationsMiss(va: nat, n: nat, y: nat)
    requires va + n <= y < va + 0x8000_0000 || y < va <= va + n <= y + 0x8000_0000
    ensures Locate(y) !in Locations(va, n)
  {
    hide Locate;
    forall i | 0 <= i < n ensures Locations(va, n)[i] != Locate(y) {
      if y < va {
        NearLocationsDiffer(y, 0, va + i - y);
        assert y + (va + i - y) == va + i;
      } else {
        NearLocationsDiffer(va, i, y - va);
      }
    }
  }

  /** The two parts of a segment: the locations to copy to and the locations to pad. */
  ghost predicate Parts(paths: seq<seq<nat>>, tags: seq<nat>, la: seq<Loc>, lb: seq<Loc>) {
    && GoodPaths(paths, tags) && AllInside(paths, tags, la) && AllInside(paths, tags, lb)
    && Distinct(la) && Distinct(lb)
    && (forall i :: 0 <= i < |la| ==> AgreesWith(la, la[i]) && AgreesWith(lb, la[i]) && la[i] !in lb)
    && (forall i :: 0 <= i < |lb| ==> AgreesWith(la, lb[i]) && AgreesWith(lb, lb[i]) && lb[i] !in la)
  }

  ghost predicate AgreesWith(locs: seq<Loc>, x: Loc) {
    forall k :: 0 <= k < |locs| ==> Agree(locs[k], x)
  }

  lemma SegmentParts(s: Segment)
    requires Extent(s) < 0x8000_0000 && Covered(s)
    ensures Parts(SegmentPaths(s), SegmentPages(s), Locations(s.vaddr, s.filesz),
              Locations(s.vaddr + s.filesz, Padding(s)))
  {
    hide Locate, Digits, PageNumber, SegmentPaths, SegmentPages, PageCount;
    var n, m := s.filesz, Padding(s);
    var la, lb := Locations(s.vaddr, n), Locations(s.vaddr + n, m);
    SegmentPathsGood(s);
    SegmentLocations(s, 0, n);
    SegmentLocations(s, n, m);
    forall i | 0 <= i < |la| ensures AgreesWith(la, la[i]) && AgreesWith(lb, la[i]) && la[i] !in lb {
      LocationsAgree(s.vaddr, n, s.vaddr + i);
      LocationsAgree(s.vaddr + n, m, s.vaddr + i);
      LocationsMiss(s.vaddr + n, m, s.vaddr + i);
    }
    forall i | 0 <= i < |lb| ensures AgreesWith(la, lb[i]) && AgreesWith(lb, lb[i]) && lb[i] !in la {
      LocationsAgree(s.vaddr, n, s.vaddr + n + i);
      LocationsAgree(s.vaddr + n, m, s.vaddr + n + i);
      LocationsMiss(s.vaddr, n, s.vaddr + n + i);
    }
  }

  lemma FillTheorem(vm: Vm, own: map<nat, Owner>, kroot: nat, root: nat, paths: seq<seq<nat>>, tags: seq<nat>,
                    la: seq<Loc>, a: seq<byte>, lb: seq<Loc>, b: seq<byte>)
    returns (own': map<nat, Owner>)
    requires TreeInv(vm, own, kroot) && IsRoot(own, root) && Parts(paths, tags, la, lb) && |la| == |a| && |lb| == |b|
    requires RegionAlloc(vm, root, paths).Some?
    ensures Fill(vm, root, paths, la, a, lb, b).Loaded?
    ensures var vm' := Fill(vm, root, paths, la, a, lb, b).vm;
            && TreeInv(vm', own', kroot) && Grows(vm, own, vm', own')
            && (forall k :: 0 <= k < |la| ==> InPlace(vm'.mem, own', root, la[k], a[k]))
            && (forall k :: 0 <= k < |lb| ==> InPlace(vm'.mem, own', root, lb[k], b[k]))
            && PagesFresh(vm'.mem, own, own', root, paths, tags)
            && (forall q: seq<nat> :: |q| == 4 && Indices(q) && q !in paths ==>
                  Walk(vm'.mem, root, q) == Walk(vm.mem, root, q))
  {
    hide TreeInv, Grows, RegionAlloc, ReadAt, Holds, PagesFresh;
    own' := FillKeepsTree(vm, own, kroot, root, paths, tags, la, a, lb, b);
    var vm1, vm' := RegionAlloc(vm, root, paths).value, Fill(vm, root, paths, la, a, lb, b).vm;
    forall k | 0 <= k < |la| ensures InPlace(vm'.mem, own', root, la[k], a[k]) {
      FillReads(vm, own, kroot, root, paths, tags, la, a, lb, b, la[k]);
      HoldsOnWalks(own', vm1.mem, vm'.mem, root, la[k]);
    }
    forall k | 0 <= k < |lb| ensures InPlace(vm'.mem, own', root, lb[k], b[k]) {
      FillReads(vm, own, kroot, root, paths, tags, la, a, lb, b, lb[k]);
      HoldsOnWalks(own', vm1.mem, vm'.mem, root, lb[k]);
    }
  }

  /** The effect of one loadable segment: its bytes are in place and nothing older has moved. */
  lemma SegmentTheorem(vm: Vm, own: map<nat, Owner>, kroot: nat, root: nat, image: seq<byte>, s: Segment)
    returns (own': map<nat, Owner>)
    requires TreeInv(vm, own, kroot) && IsRoot(own, root) && SegmentOk(image, s)
    requires RegionAlloc(vm, root, SegmentPaths(s)).Some?
    ensures LoadSegment(vm, root, image, s).Loaded?
    ensures var vm' := LoadSegment(vm, root, image, s).vm;
            && TreeInv(vm', own', kroot) && Grows(vm, own, vm', own')
            && SegmentLoaded(vm'.mem, own', root, image, s)
            && PagesFresh(vm'.mem, own, own', root, SegmentPaths(s), SegmentPages(s))
            && (forall q: seq<nat> :: |q| == 4 && Indices(q) && q !in SegmentPaths(s) ==>
                                      Walk(vm'.mem, root, q) == Walk(vm.mem, root, q))
  {
    hide Locate, Locations, SegmentPaths, SegmentPages, TreeInv, RegionAlloc, Fill, Grows, Parts, InPlace, Walk,
         PagesFresh;
    var n, m := s.filesz, Padding(s);
    var la, lb := Locations(s.vaddr, n), Locations(s.vaddr + n, m);
    SegmentParts(s);
    own' := FillTheorem(vm, own, kroot, root, SegmentPaths(s), SegmentPages(s), la, FileBytes(image, s), lb, Zeros(m));
    AllBytesInPlace(LoadSegment(vm, root, image, s).vm.mem, own', root, image, s, la, lb);
  }

  lemma AllBytesInPlace(mem: Memory, own: map<nat, Owner>, root: nat, image: seq<byte>, s: Segment, la: seq<Loc>,
                        lb: seq<Loc>)
    requires la == Locations(s.vaddr, s.filesz) && lb == Locations(s.vaddr + s.filesz, Padding(s))
    requires forall k :: 0 <= k < |la| ==> InPlace(mem, own, root, la[k], FileBytes(image, s)[k])
    requires forall k :: 0 <= k < |lb| ==> InPlace(mem, own, root, lb[k], 0)
    ensures SegmentLoaded(mem, own, root, image, s)
  {
    hide Locate, InPlace;
    forall k | 0 <= k < Extent(s) ensures ByteLoaded(mem, own, root, image, s, k) {
      assert if k < s.filesz then la[k] == Locate(s.vaddr + k) else lb[k - s.filesz] == Locate(s.vaddr + k);
    }
  }

  /** Pages of disjoint segments take different paths. */
  lemma DisjointPaths(s: Segment, t: Segment, k: nat)
    requires PageDisjoint(s, t) && k < Extent(s) && Covered(s)
    ensures Locate(s.vaddr + k).path !in SegmentPaths(t)
  {
    PagesOfSegment(s, k);
    var i := (s.vaddr + k) / PAGE_SIZE - s.vaddr / PAGE_SIZE;
    forall j | 0 <= j < PageCount(t) ensures SegmentPaths(t)[j] != Locate(s.vaddr + k).path {
      assert SegmentPages(s)[i] != SegmentPages(t)[j];
      DigitsOfPages((s.vaddr + k) / PAGE_SIZE, t.vaddr / PAGE_SIZE + j);
    }
  }

  ghost predicate SegmentLoaded(mem: Memory, own: map<nat, Owner>, root: nat, image: seq<byte>, s: Segment)
  {
    forall k :: 0 <= k < Extent(s) ==> ByteLoaded(mem, own, root, image, s, k)
  }
}
