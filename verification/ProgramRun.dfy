/**
 `elf_run_bin` as a whole, from the state before the call, on any heap: what a loaded program reads
 when no node landed outside its pages, which is certain with at most one loadable segment.
 */
module ProgramRun {
  import opened Basics
  import opened Addresses
  import opened Bytes
  import opened Paging
  import opened PageTree
  import opened Spaces
  import opened UserMemory
  import opened Loader
  import opened AreaList
  import opened ProgramImage

  datatype Program = Program(vm: Vm, root: nat, stack: nat, areas: Areas)

  /** A new root with its stack, then the segments with their nodes; `file` is the address of the image. */
  function RunBinary(vm: Vm, kroot: nat, image: seq<byte>, segs: seq<Segment>, file: u64): (r: Option<Program>)
  {
    var space := NewSpace(vm, kroot);
    if space.None? then None else
    var (vm1, root, stack) := space.value;
    var r := LoadList(vm1, root, image, Loadable(segs), file);
    if r.Image? then Some(Program(r.vm, root, stack, r.areas)) else None
  }

  /** No node of the call lands outside the program's own pages. */
  ghost predicate NodesClear(vm: Vm, kroot: nat, image: seq<byte>, segs: seq<Segment>, file: u64)
  {
    NewSpace(vm, kroot).Some? ==>
      NodesInPages(NewSpace(vm, kroot).value.0, NewSpace(vm, kroot).value.1, image, Loadable(segs), file)
  }

  /** Byte `k` of segment `s` reads as the file says, or as zero behind it. */
  ghost predicate ByteRight(mem: Memory, root: nat, image: seq<byte>, s: Segment, k: nat)
  {
    ReadByte(mem, root, s.vaddr + k) == Some(Wanted(image, s, k))
  }

  ghost predicate SegmentRight(mem: Memory, root: nat, image: seq<byte>, s: Segment)
  {
    forall k :: 0 <= k < Extent(s) ==> ByteRight(mem, root, image, s, k)
  }

  // ---------------------------------------------------------------- any number of segments

  /** The byte a program sees at `l`: the node over it, if there is one, else the byte that was loaded. */
  function UnderNodes(areas: Areas, file: u64, f: nat, o: nat, v: byte): byte {
    if NoNodeAt(areas, f, o) then v else Byte(AreaWord(areas, file, f - areas.first, o / 8), o % 8)
  }

  lemma SeenByte(mem: Memory, own: map<nat, Owner>, root: nat, l: Loc, v: byte, areas: Areas, file: u64)
    requires |l.path| == 4 && ByteSeen(mem, own, root, l, v, areas) && Listed(mem, areas, file)
    ensures Walk(mem, root, l.path).Some?
    ensures ReadAt(mem, root, l.path, l.off) ==
              Some(UnderNodes(areas, file, FrameOf(Walk(mem, root, l.path).value), l.off, v))
  {
    var f := FrameOf(Walk(mem, root, l.path).value);
    hide Walk, Byte, AreaWord;
    if !NoNodeAt(areas, f, l.off) {
      var j, i := f - areas.first, l.off / 8;
      assert 0 <= j < |areas.list| && 1 <= i < 8;
      assert Word(mem, areas.first + j, i) == AreaWord(areas, file, j, i);
    }
  }

  /** What one call establishes for the tree and for every loaded segment. */
  lemma ProgramLoaded(vm: Vm, own: map<nat, Owner>, kroot: nat, image: seq<byte>, segs: seq<Segment>, file: u64)
    returns (own1: map<nat, Owner>, own': map<nat, Owner>)
    requires TreeInv(vm, own, kroot) && ImageOk(image, segs)
    requires NodesClear(vm, kroot, image, segs, file) && RunBinary(vm, kroot, image, segs, file).Some?
    ensures NewSpace(vm, kroot).Some?
    ensures var p := RunBinary(vm, kroot, image, segs, file).value;
            var (vm1, root, stack) := NewSpace(vm, kroot).value;
            && TreeInv(vm1, own1, kroot) && IsRoot(own1, root) && Grows(vm, own, p.vm, own')
            && p.root in own' && own'[p.root] == RootOwner(true) && p.areas.list == Loadable(segs)
            && ImageLoaded(vm1, own1, p.vm, own', kroot, p.root, image, Loadable(segs), p.areas, file)
  {
    hide TreeInv, Grows, Walk, LoadList, NewSpace, ListOk, NodesInPages, Listed, AllSeen, AllPagesFresh, WalksOutside,
         NodesHeld, Path;
    own1 := NewSpaceKeepsTree(vm, own, kroot);
    var (vm1, root, stack) := NewSpace(vm, kroot).value;
    own' := LoadTheorem(vm1, own1, kroot, root, image, Loadable(segs), file);
    var vm' := RunBinary(vm, kroot, image, segs, file).value.vm;
    GrowsTree(vm, own, vm1, own1, vm', own', kroot);
    GrowsKeepsRoots(vm1, own1, vm', own');
  }

  /**
   After `elf_run_bin`, when no node landed outside the program's pages: the tree is sound, nothing
   older has changed, and every byte of every loadable segment reads as the file byte or as zero
   unless a node lies over it, and then as that node.
   */
  lemma RunBinaryTheorem(vm: Vm, own: map<nat, Owner>, kroot: nat, image: seq<byte>, segs: seq<Segment>, file: u64)
    returns (own': map<nat, Owner>)
    requires TreeInv(vm, own, kroot) && ImageOk(image, segs)
    requires NodesClear(vm, kroot, image, segs, file) && RunBinary(vm, kroot, image, segs, file).Some?
    ensures var p := RunBinary(vm, kroot, image, segs, file).value;
            var ss := Loadable(segs);
            && TreeInv(p.vm, own', kroot) && Grows(vm, own, p.vm, own')
            && p.root in own' && own'[p.root] == RootOwner(true)
            && p.areas.list == ss && Listed(p.vm.mem, p.areas, file)
            && forall i, k :: 0 <= i < |ss| && 0 <= k < Extent(ss[i]) ==> ByteAsSeen(p, file, image, ss[i], k)
  {
    hide TreeInv, Grows, NodesClear, RunBinary, ImageOk, Listed, AllPagesFresh, WalksOutside, NodesHeld, IsRoot,
         NewSpace;
    var own1;
    own1, own' := ProgramLoaded(vm, own, kroot, image, segs, file);
    var p := RunBinary(vm, kroot, image, segs, file).value;
    var ss := Loadable(segs);
    forall i, k | 0 <= i < |ss| && 0 <= k < Extent(ss[i]) ensures ByteAsSeen(p, file, image, ss[i], k) {
      assert BytesSeen(p.vm.mem, own', p.root, image, ss[i], p.areas);
      SeenIsRead(p, own', file, image, ss[i], k);
    }
  }

  ghost predicate ByteAsSeen(p: Program, file: u64, image: seq<byte>, s: Segment, k: nat)
  {
    var l := Locate(s.vaddr + k);
    && Walk(p.vm.mem, p.root, l.path).Some?
    && ReadByte(p.vm.mem, p.root, s.vaddr + k)
       == Some(UnderNodes(p.areas, file, FrameOf(Walk(p.vm.mem, p.root, l.path).value), l.off, Wanted(image, s, k)))
  }

  lemma SeenIsRead(p: Program, own: map<nat, Owner>, file: u64, image: seq<byte>, s: Segment, k: nat)
    requires k < Extent(s)
    requires BytesSeen(p.vm.mem, own, p.root, image, s, p.areas) && Listed(p.vm.mem, p.areas, file)
    ensures ByteAsSeen(p, file, image, s, k)
  {
    hide Locate, Walk, Wanted, UnderNodes, Listed;
    assert ByteSeen(p.vm.mem, own, p.root, Locate(s.vaddr + k), Wanted(image, s, k), p.areas);
    SeenByte(p.vm.mem, own, p.root, Locate(s.vaddr + k), Wanted(image, s, k), p.areas, file);
  }

  // ---------------------------------------------------------------- at most one segment

  /** A data page is never the page of the first node. */
  lemma FirstNodeMisses(vm: Vm, vm': Vm, own: map<nat, Owner>, root: nat, l: Loc, v: byte, areas: Areas)
    requires |l.path| == 4 && ByteSeen(vm'.mem, own, root, l, v, areas) && NodesHeld(vm, vm', own, areas)
    requires areas.list != []
    ensures FrameOf(Walk(vm'.mem, root, l.path).value) != areas.first
  {
  }

  lemma OneSegmentRight(vm: Vm, vm': Vm, own: map<nat, Owner>, root: nat, image: seq<byte>, s: Segment, areas: Areas)
    requires BytesSeen(vm'.mem, own, root, image, s, areas)
    requires NodesHeld(vm, vm', own, areas) && |areas.list| == 1
    ensures SegmentRight(vm'.mem, root, image, s)
  {
    hide Locate, Walk, Wanted, NodesHeld, ReadAt;
    forall k | 0 <= k < Extent(s) ensures ByteRight(vm'.mem, root, image, s, k) {
      assert ByteSeen(vm'.mem, own, root, Locate(s.vaddr + k), Wanted(image, s, k), areas);
      FirstNodeMisses(vm, vm', own, root, Locate(s.vaddr + k), Wanted(image, s, k), areas);
    }
  }

  lemma OneRunIsClear(vm: Vm, kroot: nat, image: seq<byte>, segs: seq<Segment>, file: u64)
    requires |Loadable(segs)| <= 1
    ensures NodesClear(vm, kroot, image, segs, file)
  {
    hide NewSpace, NodesInPages, Loadable;
    if NewSpace(vm, kroot).Some? {
      OneIsClear(NewSpace(vm, kroot).value.0, NewSpace(vm, kroot).value.1, image, Loadable(segs), file);
    }
  }

  /** With at most one loadable segment every byte is in place, whatever the state of memory before the call. */
  lemma AtMostOneSegment(vm: Vm, own: map<nat, Owner>, kroot: nat, image: seq<byte>, segs: seq<Segment>, file: u64)
    requires TreeInv(vm, own, kroot) && ImageOk(image, segs) && |Loadable(segs)| <= 1
    requires RunBinary(vm, kroot, image, segs, file).Some?
    ensures var p := RunBinary(vm, kroot, image, segs, file).value;
            forall i :: 0 <= i < |Loadable(segs)| ==> SegmentRight(p.vm.mem, p.root, image, Loadable(segs)[i])
  {
    hide TreeInv, Grows, NodesClear, RunBinary, ImageOk, Listed, AllPagesFresh, WalksOutside, NodesHeld, IsRoot,
         NewSpace, BytesSeen, SegmentRight, Loadable;
    OneRunIsClear(vm, kroot, image, segs, file);
    var own1, own' := ProgramLoaded(vm, own, kroot, image, segs, file);
    var p := RunBinary(vm, kroot, image, segs, file).value;
    if |Loadable(segs)| == 1 {
      OneSegmentRight(NewSpace(vm, kroot).value.0, p.vm, own', p.root, image, Loadable(segs)[0], p.areas);
    }
  }

  // ---------------------------------------------------------------- the stack

  /** The stack page, when no segment covers it, is still mapped where it was and still zero. */
  lemma RunBinaryStack(vm: Vm, own: map<nat, Owner>, kroot: nat, image: seq<byte>, segs: seq<Segment>, file: u64)
    requires TreeInv(vm, own, kroot) && ImageOk(image, segs)
    requires NodesClear(vm, kroot, image, segs, file) && RunBinary(vm, kroot, image, segs, file).Some?
    requires OutsideAll(Loadable(segs), Path(StackAddress(RunBinary(vm, kroot, image, segs, file).value.stack)))
    ensures var p := RunBinary(vm, kroot, image, segs, file).value;
            && Walk(p.vm.mem, p.root, Path(StackAddress(p.stack))) == Some(LeafEntry(FrameAddress(p.stack), true))
            && p.stack < |p.vm.mem| && p.vm.mem[p.stack] == ZeroFrame()
  {
    hide TreeInv, Grows, Path, StackAddress, Walk, LoadList, NewSpace, ListOk, NodesInPages, OutsideAll, Listed,
         AllSeen, AllPagesFresh, NodesHeld, LeafEntry, Loadable;
    var own1 := NewSpaceKeepsTree(vm, own, kroot);
    var (vm1, root, stack) := NewSpace(vm, kroot).value;
    TreeIsWellFormed(vm1, own1, kroot);
    assert IsRoot(own1, root);
    var own' := LoadTheorem(vm1, own1, kroot, root, image, Loadable(segs), file);
    GrowsKeepsFrame(vm1, own1, RunBinary(vm, kroot, image, segs, file).value.vm, own', stack);
  }
}
