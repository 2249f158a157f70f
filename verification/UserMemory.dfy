/**
 User memory seen through translations, on values: bytes are read and stored at virtual addresses,
 and regions are given fresh pages.
 */
module UserMemory {
  import opened Basics
  import opened Allocator
  import opened Addresses
  import opened Bytes
  import opened Paging
  import opened PageTree
  import opened Mapping
  import opened Spaces

  const PAGE_NUMBERS := 0x10_0000_0000

  // ---------------------------------------------------------------- bytes through translations

  function ByteInFrame(mem: Memory, f: nat, o: nat): byte {
    Byte(Word(mem, f, o / 8), o % 8)
  }

  /** The byte that the processor reads at offset `o` of the page at path `q`; `None` is a fault. */
  function ReadAt(mem: Memory, root: nat, q: seq<nat>, o: nat): (r: Option<byte>)
    requires q != []
  {
    var e := Walk(mem, root, q);
    if e.None? then None else Some(ByteInFrame(mem, FrameOf(e.value), o))
  }

  function StoreAt(mem: Memory, root: nat, q: seq<nat>, o: nat, b: byte): (r: Option<Memory>)
    requires q != []
  {
    var e := Walk(mem, root, q);
    if e.None? then None else
    var f := FrameOf(e.value);
    Some(Put(mem, f, o / 8, StoreInWord(Word(mem, f, o / 8), o % 8, b)))
  }

  /** Where an address points: the path of its page, the page number, and the offset. */
  datatype Loc = Loc(path: seq<nat>, page: nat, off: nat)

  function Locate(va: nat): (l: Loc)
    ensures |l.path| == 4
  {
    Loc(Digits(va / PAGE_SIZE), PageNumber(va), va % PAGE_SIZE)
  }

  function PageNumber(va: nat): (w: nat)
    ensures w < PAGE_NUMBERS
  {
    va / PAGE_SIZE % PAGE_NUMBERS
  }

  function ReadByte(mem: Memory, root: nat, va: nat): (r: Option<byte>) {
    ReadAt(mem, root, Locate(va).path, Locate(va).off)
  }

  /** Bytes stored one after the other, each at its own location; `None` is a page fault. */
  function CopyAt(mem: Memory, root: nat, locs: seq<Loc>, bytes: seq<byte>): (r: Option<Memory>)
    requires |locs| == |bytes| && forall k :: 0 <= k < |locs| ==> |locs[k].path| == 4
    decreases |bytes|
  {
    if bytes == [] then Some(mem) else
    var k := |bytes| - 1;
    var before := CopyAt(mem, root, locs[..k], bytes[..k]);
    if before.None? then None else StoreAt(before.value, root, locs[k].path, locs[k].off, bytes[k])
  }

  function Locations(va: nat, n: nat): (ls: seq<Loc>)
    ensures |ls| == n && forall k :: 0 <= k < n ==> ls[k] == Locate(va + k)
  {
    seq(n, k requires 0 <= k < n => Locate(va + k))
  }

  /** `memcpy` to a virtual address. */
  function CopyBytes(mem: Memory, root: nat, va: nat, bytes: seq<byte>): (r: Option<Memory>) {
    CopyAt(mem, root, Locations(va, |bytes|), bytes)
  }

  // ---------------------------------------------------------------- writes to data pages

  /** The page at path `q` is present and its frame is the data frame of page number `tag`. */
  ghost predicate Holds(mem: Memory, own: map<nat, Owner>, root: nat, q: seq<nat>, tag: nat)
    requires q != []
  {
    var e := Walk(mem, root, q);
    e.Some? && FrameOf(e.value) in own && own[FrameOf(e.value)] == Data(tag)
  }

  /** One byte stored in a data page: no table, no translation and no other frame changes. */
  lemma StoreAtTheorem(vm: Vm, own: map<nat, Owner>, kroot: nat, root: nat, q: seq<nat>, tag: nat, o: nat, b: byte)
    requires TreeInv(vm, own, kroot) && IsRoot(own, root) && |q| == 4 && Indices(q) && o < PAGE_SIZE
    requires Holds(vm.mem, own, root, q, tag)
    ensures StoreAt(vm.mem, root, q, o, b).Some?
    ensures var mem' := StoreAt(vm.mem, root, q, o, b).value;
            var f := FrameOf(Walk(vm.mem, root, q).value);
            && |mem'| == |vm.mem| && TreeInv(vm.(mem := mem'), own, kroot) && SameWalks(own, vm.mem, mem')
            && (forall g :: 0 <= g < |mem'| && g != f ==> mem'[g] == vm.mem[g])
            && (forall o' :: 0 <= o' < PAGE_SIZE ==>
                               ByteInFrame(mem', f, o') == if o' == o then b else ByteInFrame(vm.mem, f, o'))
  {
    var f := FrameOf(Walk(vm.mem, root, q).value);
    var mem' := StoreAt(vm.mem, root, q, o, b).value;
    var vm' := vm.(mem := mem');
    assert forall g :: 0 <= g < |mem'| ==> |mem'[g]| == |vm.mem[g]|;
    TreeInvOnTables(vm, own, kroot, vm');
    WalksOnTables(vm, own, kroot, mem');
    forall o' | 0 <= o' < PAGE_SIZE
      ensures ByteInFrame(mem', f, o') == if o' == o then b else ByteInFrame(vm.mem, f, o')
    {
      if o' / 8 == o / 8 {
        SetByteReads(Word(vm.mem, f, o / 8), o % 8, b, o' % 8);
        assert o' % 8 == o % 8 ==> o' == o;
      } else {
        assert Word(mem', f, o' / 8) == Word(vm.mem, f, o' / 8);
      }
    }
  }

  lemma StoreAtReads(vm: Vm, own: map<nat, Owner>, kroot: nat, root: nat, l: Loc, b: byte, x: Loc)
    requires TreeInv(vm, own, kroot) && IsRoot(own, root) && GoodLoc(l) && GoodLoc(x) && Agree(l, x)
    requires LocHolds(vm.mem, own, root, l) && LocHolds(vm.mem, own, root, x)
    ensures StoreAt(vm.mem, root, l.path, l.off, b).Some?
    ensures var mem' := StoreAt(vm.mem, root, l.path, l.off, b).value;
            ReadAt(mem', root, x.path, x.off) == if x == l then Some(b) else ReadAt(vm.mem, root, x.path, x.off)
  {
    StoreAtTheorem(vm, own, kroot, root, l.path, l.page, l.off, b);
    var mem' := StoreAt(vm.mem, root, l.path, l.off, b).value;
    assert Walk(mem', root, x.path) == Walk(vm.mem, root, x.path);
    var f, f' := FrameOf(Walk(vm.mem, root, l.path).value), FrameOf(Walk(vm.mem, root, x.path).value);
    if l.page != x.page {
      assert f != f' && mem'[f'] == vm.mem[f'];
    }
  }

  // ---------------------------------------------------------------- copying

  ghost predicate GoodLoc(l: Loc) {
    |l.path| == 4 && Indices(l.path) && l.off < PAGE_SIZE
  }

  /** Page numbers and paths name the same pages. */
  ghost predicate Agree(l: Loc, x: Loc) {
    l.page == x.page <==> l.path == x.path
  }

  ghost predicate LocHolds(mem: Memory, own: map<nat, Owner>, root: nat, l: Loc)
    requires |l.path| == 4
  {
    Holds(mem, own, root, l.path, l.page)
  }

  ghost predicate AllHold(mem: Memory, own: map<nat, Owner>, root: nat, locs: seq<Loc>) {
    forall k :: 0 <= k < |locs| ==> GoodLoc(locs[k]) && LocHolds(mem, own, root, locs[k])
  }

  ghost predicate Elsewhere(mem: Memory, root: nat, locs: seq<Loc>, g: nat)
    requires forall k :: 0 <= k < |locs| ==> |locs[k].path| == 4
  {
    forall k :: 0 <= k < |locs| ==> Walk(mem, root, locs[k].path).Some? ==>
        FrameOf(Walk(mem, root, locs[k].path).value) != g
  }

  /** Copying into data pages cannot fault, and leaves tables and translations alone. */
  lemma {:induction false} CopyAtTheorem(vm: Vm, own: map<nat, Owner>, kroot: nat, root: nat, locs: seq<Loc>,
                                         bytes: seq<byte>)
    requires TreeInv(vm, own, kroot) && IsRoot(own, root)
    requires |locs| == |bytes| && AllHold(vm.mem, own, root, locs)
    ensures CopyAt(vm.mem, root, locs, bytes).Some?
    ensures var mem' := CopyAt(vm.mem, root, locs, bytes).value;
            && |mem'| == |vm.mem| && TreeInv(vm.(mem := mem'), own, kroot) && SameWalks(own, vm.mem, mem')
            && (forall g: nat :: g < |mem'| && Elsewhere(vm.mem, root, locs, g) ==> mem'[g] == vm.mem[g])
    decreases |bytes|
  {
    if bytes != [] {
      var k := |bytes| - 1;
      CopyAtTheorem(vm, own, kroot, root, locs[..k], bytes[..k]);
      var vm1 := vm.(mem := CopyAt(vm.mem, root, locs[..k], bytes[..k]).value);
      HoldsOnWalks(own, vm.mem, vm1.mem, root, locs[k]);
      StoreAtTheorem(vm1, own, kroot, root, locs[k].path, locs[k].page, locs[k].off, bytes[k]);
      var mem' := CopyAt(vm.mem, root, locs, bytes).value;
      forall r: nat, q: seq<nat> | IsRoot(own, r) && |q| == 4 && Indices(q)
        ensures Walk(mem', r, q) == Walk(vm.mem, r, q)
      {
        assert Walk(vm1.mem, r, q) == Walk(vm.mem, r, q);
      }
      forall g: nat | g < |mem'| && Elsewhere(vm.mem, root, locs, g) ensures mem'[g] == vm.mem[g] {
        assert Elsewhere(vm.mem, root, locs[..k], g);
        assert Walk(vm1.mem, root, locs[k].path) == Walk(vm.mem, root, locs[k].path);
      }
    }
  }

  lemma HoldsOnWalks(own: map<nat, Owner>, mem: Memory, mem': Memory, root: nat, l: Loc)
    requires SameWalks(own, mem, mem') && IsRoot(own, root) && GoodLoc(l)
    ensures LocHolds(mem', own, root, l) == LocHolds(mem, own, root, l)
  {
    assert Walk(mem', root, l.path) == Walk(mem, root, l.path);
  }

  lemma CopyAtLast(vm: Vm, own: map<nat, Owner>, kroot: nat, root: nat, locs: seq<Loc>, bytes: seq<byte>, x: Loc)
    requires TreeInv(vm, own, kroot) && IsRoot(own, root)
    requires |locs| == |bytes| > 0 && AllHold(vm.mem, own, root, locs)
    requires GoodLoc(x) && LocHolds(vm.mem, own, root, x) && Agree(locs[|bytes| - 1], x)
    ensures var k := |bytes| - 1;
            && CopyAt(vm.mem, root, locs, bytes).Some? && CopyAt(vm.mem, root, locs[..k], bytes[..k]).Some?
            && ReadAt(CopyAt(vm.mem, root, locs, bytes).value, root, x.path, x.off) ==
               if x == locs[k] then Some(bytes[k])
               else ReadAt(CopyAt(vm.mem, root, locs[..k], bytes[..k]).value, root, x.path, x.off)
  {
    hide TreeInv, Holds, ReadAt, Byte;
    var k := |bytes| - 1;
    CopyAtTheorem(vm, own, kroot, root, locs[..k], bytes[..k]);
    var vm1 := vm.(mem := CopyAt(vm.mem, root, locs[..k], bytes[..k]).value);
    HoldsOnWalks(own, vm.mem, vm1.mem, root, locs[k]);
    HoldsOnWalks(own, vm.mem, vm1.mem, root, x);
    StoreAtReads(vm1, own, kroot, root, locs[k], bytes[k], x);
  }

  /** After a copy every byte reads as copied, or as before when it was not covered. */
  lemma {:induction false} CopyAtReads(vm: Vm, own: map<nat, Owner>, kroot: nat, root: nat, locs: seq<Loc>,
                                       bytes: seq<byte>, x: Loc)
    requires TreeInv(vm, own, kroot) && IsRoot(own, root)
    requires |locs| == |bytes| && AllHold(vm.mem, own, root, locs)
    requires GoodLoc(x) && LocHolds(vm.mem, own, root, x)
    requires forall k :: 0 <= k < |locs| ==> Agree(locs[k], x)
    requires forall j, k :: 0 <= j < k < |locs| ==> locs[j] != locs[k]
    ensures CopyAt(vm.mem, root, locs, bytes).Some?
    ensures var mem' := CopyAt(vm.mem, root, locs, bytes).value;
            && (forall k :: 0 <= k < |locs| && locs[k] == x ==> ReadAt(mem', root, x.path, x.off) == Some(bytes[k]))
            && (x !in locs ==> ReadAt(mem', root, x.path, x.off) == ReadAt(vm.mem, root, x.path, x.off))
    decreases |bytes|
  {
    hide TreeInv, ReadAt, StoreAt, Agree, GoodLoc;
    if bytes != [] {
      var k := |bytes| - 1;
      CopyAtReads(vm, own, kroot, root, locs[..k], bytes[..k], x);
      CopyAtLast(vm, own, kroot, root, locs, bytes, x);
      assert x in locs[..k] ==> x in locs && x != locs[k];
    }
  }

  // ---------------------------------------------------------------- fresh pages

  /** One turn of `region_alloc`: a zeroed page, mapped for the user at path `q`. */
  function MapFresh(vm: Vm, root: nat, q: seq<nat>): (r: Option<Vm>)
    requires |q| == 4
  {
    var a := AllocFrames(vm, 1);
    if a.None? then None else MapPath(a.value.0, root, q, FrameAddress(a.value.1), 1, true)
  }

  /** `region_alloc` over the pages at `paths`. */
  function RegionAlloc(vm: Vm, root: nat, paths: seq<seq<nat>>): (r: Option<Vm>)
    requires forall k :: 0 <= k < |paths| ==> |paths[k]| == 4
    decreases |paths|
  {
    if paths == [] then Some(vm) else
    var k := |paths| - 1;
    var before := RegionAlloc(vm, root, paths[..k]);
    if before.None? then None else MapFresh(before.value, root, paths[k])
  }

  lemma DataKeepsTree(vm: Vm, own: map<nat, Owner>, kroot: nat, f: nat, tag: nat)
    requires TreeInv(vm, own, kroot) && f < |vm.pages| && vm.pages[f].used == 1 && f !in own
    ensures TreeInv(vm, own[f := Data(tag)], kroot)
  {
    var own' := own[f := Data(tag)];
    forall t, i | IsTable(own', t) && 0 <= i < ENTRIES ensures EntryOk(vm.mem, own', t, i) {
      assert IsTable(own, t) && EntryOk(vm.mem, own, t, i);
    }
    assert forall r :: IsRoot(own', r) ==> IsRoot(own, r);
  }

  lemma FreshLeaf(f: nat)
    requires f < MAX_FRAMES
    ensures FrameAddress(f) == f * PAGE_SIZE && FrameOf(LeafAt(FrameAddress(f), 0, true)) == f
  {
    LeafEntryFields(f * PAGE_SIZE, true);
  }

  lemma MapFrameTheorem(vm: Vm, own: map<nat, Owner>, kroot: nat, root: nat, q: seq<nat>, pa: u64, f: nat, tag: nat)
    returns (own': map<nat, Owner>)
    requires TreeInv(vm, own, kroot) && IsRoot(own, root) && |q| == 4 && Indices(q) && q[3] + 1 <= ENTRIES
    requires f < |vm.pages| && vm.pages[f].used == 1 && f !in own && FrameOf(LeafAt(pa, 0, true)) == f
    requires MapPath(vm, root, q, pa, 1, true).Some?
    ensures var vm' := MapPath(vm, root, q, pa, 1, true).value;
            && TreeInv(vm', own', kroot) && Holds(vm'.mem, own', root, q, tag)
            && FrameOf(Walk(vm'.mem, root, q).value) == f
            && Grows(vm, own[f := Data(tag)], vm', own')
            && (forall q': seq<nat> :: |q'| == 4 && Indices(q') && q' != q ==>
                  Walk(vm'.mem, root, q') == Walk(vm.mem, root, q'))
  {
    hide TreeInv, Walk, MapPath;
    DataKeepsTree(vm, own, kroot, f, tag);
    var own1 := own[f := Data(tag)];
    var vm' := MapPath(vm, root, q, pa, 1, true).value;
    var pt;
    own', pt := MapPathTheorem(vm, own1, kroot, root, q, pa, 1, true);
    MapPathTranslates(vm, own1, kroot, root, q, pa, 1, true, 0);
    assert q[..3] + [q[3] + 0] == q;
    forall q': seq<nat> | |q'| == 4 && Indices(q') && q' != q
      ensures Walk(vm'.mem, root, q') == Walk(vm.mem, root, q')
    {
      MapPathOthers(vm, own1, kroot, root, q, pa, 1, true, root, q');
      assert q' == q'[..3] + [q'[3]] && q == q[..3] + [q[3]];
    }
  }

  ghost predicate FreshPage(mem: Memory, own: map<nat, Owner>, own': map<nat, Owner>, root: nat, q: seq<nat>, tag: nat)
    requires |q| == 4
  {
    Holds(mem, own', root, q, tag) && FrameOf(Walk(mem, root, q).value) !in own
  }

  lemma GrowsWithData(vm: Vm, own: map<nat, Owner>, vm1: Vm, f: nat, tag: nat)
    requires Grows(vm, own, vm1, own) && f !in own && f < |vm.pages| && vm.pages[f].used == 0
    ensures Grows(vm, own, vm1, own[f := Data(tag)])
  {
  }

  lemma MapFreshTheorem(vm: Vm, own: map<nat, Owner>, kroot: nat, root: nat, q: seq<nat>, tag: nat)
    returns (own': map<nat, Owner>)
    requires TreeInv(vm, own, kroot) && IsRoot(own, root) && |q| == 4 && Indices(q) && MapFresh(vm, root, q).Some?
    ensures var vm' := MapFresh(vm, root, q).value;
            && TreeInv(vm', own', kroot) && Grows(vm, own, vm', own') && FreshPage(vm'.mem, own, own', root, q, tag)
            && (forall q': seq<nat> :: |q'| == 4 && Indices(q') && q' != q ==>
                  Walk(vm'.mem, root, q') == Walk(vm.mem, root, q'))
  {
    AllocKeepsTree(vm, own, kroot, 1);
    var (vm1, f) := AllocFrames(vm, 1).value;
    FreshLeaf(f);
    var vm' := MapFresh(vm, root, q).value;
    own' := MapFrameTheorem(vm1, own, kroot, root, q, FrameAddress(f), f, tag);
    GrowsWithData(vm, own, vm1, f, tag);
    GrowsTrans(vm, own, vm1, own[f := Data(tag)], vm', own');
    AllocKeepsWalks(vm, own, kroot, 1);
  }

  ghost predicate GoodPaths(paths: seq<seq<nat>>, tags: seq<nat>) {
    && |tags| == |paths|
    && (forall k :: 0 <= k < |paths| ==> |paths[k]| == 4 && Indices(paths[k]))
    && (forall j, k :: 0 <= j < k < |paths| ==> paths[j] != paths[k])
  }

  lemma FreshStays(vm: Vm, own: map<nat, Owner>, vm1: Vm, own1: map<nat, Owner>, vm': Vm, own': map<nat, Owner>,
                   root: nat, q: seq<nat>, tag: nat)
    requires Grows(vm1, own1, vm', own') && |q| == 4 && FreshPage(vm1.mem, own, own1, root, q, tag)
    requires Walk(vm'.mem, root, q) == Walk(vm1.mem, root, q)
    ensures FreshPage(vm'.mem, own, own', root, q, tag)
  {
  }

  lemma FreshSince(vm: Vm, own: map<nat, Owner>, vm1: Vm, own1: map<nat, Owner>, mem': Memory, own': map<nat, Owner>,
                   root: nat, q: seq<nat>, tag: nat)
    requires Grows(vm, own, vm1, own1) && |q| == 4 && FreshPage(mem', own1, own', root, q, tag)
    ensures FreshPage(mem', own, own', root, q, tag)
  {
  }

  /** Every page of the region gets a fresh frame of its own; no other page moves. */
  lemma {:induction false} RegionTheorem(vm: Vm, own: map<nat, Owner>, kroot: nat, root: nat, paths: seq<seq<nat>>,
                                         tags: seq<nat>)
    returns (own': map<nat, Owner>)
    requires TreeInv(vm, own, kroot) && IsRoot(own, root) && GoodPaths(paths, tags)
    requires RegionAlloc(vm, root, paths).Some?
    ensures var vm' := RegionAlloc(vm, root, paths).value;
            && TreeInv(vm', own', kroot) && Grows(vm, own, vm', own')
            && (forall k :: 0 <= k < |paths| ==> FreshPage(vm'.mem, own, own', root, paths[k], tags[k]))
            && (forall q: seq<nat> :: |q| == 4 && Indices(q) && q !in paths ==>
                  Walk(vm'.mem, root, q) == Walk(vm.mem, root, q))
    decreases |paths|
  {
    hide TreeInv, Walk, MapFresh, Grows, FreshPage;
    if paths == [] {
      own' := own;
      PathBase(vm, own, kroot, root);
    } else {
      var n := |paths| - 1;
      var own1 := RegionTheorem(vm, own, kroot, root, paths[..n], tags[..n]);
      var vm1 := RegionAlloc(vm, root, paths[..n]).value;
      GrowsKeepsRoots(vm, own, vm1, own1);
      own' := MapFreshTheorem(vm1, own1, kroot, root, paths[n], tags[n]);
      var vm' := RegionAlloc(vm, root, paths).value;
      GrowsTree(vm, own, vm1, own1, vm', own', kroot);
      forall k | 0 <= k < |paths| ensures FreshPage(vm'.mem, own, own', root, paths[k], tags[k]) {
        if k < n {
          assert paths[..n][k] == paths[k] && tags[..n][k] == tags[k];
          FreshStays(vm, own, vm1, own1, vm', own', root, paths[k], tags[k]);
        } else {
          FreshSince(vm, own, vm1, own1, vm'.mem, own', root, paths[n], tags[n]);
        }
      }
      forall q: seq<nat> | |q| == 4 && Indices(q) && q !in paths
        ensures Walk(vm'.mem, root, q) == Walk(vm.mem, root, q)
      {
        assert q !in paths[..n] && q != paths[n];
      }
    }
  }

  /** Frame `g` holds the page at `q`. */
  ghost predicate InPage(mem: Memory, root: nat, q: seq<nat>, g: nat) {
    q != [] && Walk(mem, root, q).Some? && FrameOf(Walk(mem, root, q).value) == g
  }

  // ---------------------------------------------------------------- addresses as locations

  const ADDRESSES := 0x1_0000_0000_0000

  lemma SplitAddress(x: nat)
    ensures x % ADDRESSES == PageNumber(x) * PAGE_SIZE + x % PAGE_SIZE
  {
    Quotient(x, ADDRESSES, x / PAGE_SIZE / PAGE_NUMBERS, PageNumber(x) * PAGE_SIZE + x % PAGE_SIZE);
  }

  /** Two addresses name the same location exactly when they agree in the 48 bits the tables see. */
  lemma LocateGood(x: nat, y: nat)
    ensures GoodLoc(Locate(x)) && Agree(Locate(x), Locate(y))
    ensures Locate(x) == Locate(y) <==> x % ADDRESSES == y % ADDRESSES
  {
    DigitsOfPages(x / PAGE_SIZE, y / PAGE_SIZE);
    SplitAddress(x);
    SplitAddress(y);
  }

  /** The location of a 64-bit address is the one the processor's walk finds. */
  lemma LocateIsPath(va: u64)
    ensures Locate(va).path == Path(va)
  {
    PathIsDigits(va);
    DigitsPeriodic(va / PAGE_SIZE);
  }
}
