/** Whole runs of the page allocator: safety, conservation, and refinement of a bump allocator. */
module AllocatorRuns {
  import opened Basics
  import opened Allocator

  datatype Block = Block(start: nat, size: nat)

  /** The table together with the blocks handed out and not yet released, oldest first. */
  datatype Heap = Heap(pages: seq<Page>, live: seq<Block>)

  datatype Op = Alloc(size: nat) | Free(which: nat)

  function Apply(h: Heap, op: Op): (r: Option<Heap>) {
    match op
    case Alloc(size) =>
      var r := Kmalloc(h.pages, PagesFor(size));
      if r.None? then None
      else Some(Heap(r.value.0, h.live + [Block(r.value.1, PagesFor(size))]))
    case Free(which) =>
      if which >= |h.live| then None else
      var r := Release(h.pages, h.live[which].start);
      if r.None? then None
      else Some(Heap(r.value, RemoveAt(h.live, which)))
  }

  function Run(h: Heap, ops: seq<Op>): (r: Option<Heap>)
    decreases |ops|
  {
    if ops == [] then Some(h) else
    var h' := Apply(h, ops[0]);
    if h'.None? then None else Run(h'.value, ops[1..])
  }

  function FreeCount(ps: seq<Page>): nat {
    if ps == [] then 0
    else FreeCount(ps[..|ps| - 1]) + if IsFree(ps[|ps| - 1]) then 1 else 0
  }

  function LiveSize(live: seq<Block>): nat {
    if live == [] then 0 else LiveSize(live[..|live| - 1]) + live[|live| - 1].size
  }

  ghost predicate Disjoint(a: Block, b: Block) {
    a.start + a.size <= b.start || b.start + b.size <= a.start
  }

  ghost predicate PairwiseDisjoint(live: seq<Block>) {
    forall a, b :: 0 <= a < b < |live| ==> Disjoint(live[a], live[b])
  }

  /** A live block is a used block of its recorded size, and no other used block runs into it. */
  ghost predicate LiveBlock(ps: seq<Page>, b: Block) {
    && b.size > 0 && b.start + b.size <= |ps|
    && ps[b.start].blockSize == b.size
    && (forall j :: b.start <= j < b.start + b.size ==> ps[j].used == 1)
    && (b.start > 0 && ps[b.start - 1].used == 1 ==> ps[b.start - 1].blockSize == 1)
  }

  ghost predicate HeapInv(h: Heap, reserved: nat) {
    && Countdown(h.pages)
    && (forall a :: 0 <= a < |h.live| ==> LiveBlock(h.pages, h.live[a]))
    && PairwiseDisjoint(h.live)
    && FreeCount(h.pages) + LiveSize(h.live) + reserved == |h.pages|
  }

  lemma {:induction false} FreeCountSplit(a: seq<Page>, b: seq<Page>)
    ensures FreeCount(a + b) == FreeCount(a) + FreeCount(b)
    decreases |b|
  {
    if b == [] {
      assert a + b == a;
    } else {
      assert (a + b)[..|a + b| - 1] == a + b[..|b| - 1];
      FreeCountSplit(a, b[..|b| - 1]);
    }
  }

  lemma {:induction false} FreeCountUniform(ps: seq<Page>, flag: int)
    requires forall j :: 0 <= j < |ps| ==> ps[j].used == flag
    ensures FreeCount(ps) == if flag == 0 then |ps| else 0
    decreases |ps|
  {
    if ps != [] {
      FreeCountUniform(ps[..|ps| - 1], flag);
    }
  }

  /** Rewriting a uniformly used or uniformly free span moves exactly its pages. */
  lemma StampMovesFreeCount(ps: seq<Page>, i: nat, k: nat, was: int, flag: int)
    requires i + k <= |ps|
    requires forall j :: i <= j < i + k ==> ps[j].used == was
    ensures was == 0 && flag == 1 ==> FreeCount(Stamp(ps, i, k, flag)) + k == FreeCount(ps)
    ensures was == 1 && flag == 0 ==> FreeCount(Stamp(ps, i, k, flag)) == FreeCount(ps) + k
  {
    hide FreeCount, IsFree;
    var ps' := Stamp(ps, i, k, flag);
    assert ps == ps[..i] + ps[i..i + k] + ps[i + k..];
    assert ps' == ps[..i] + ps'[i..i + k] + ps[i + k..];
    FreeCountSplit(ps[..i] + ps[i..i + k], ps[i + k..]);
    FreeCountSplit(ps[..i], ps[i..i + k]);
    FreeCountSplit(ps[..i] + ps'[i..i + k], ps[i + k..]);
    FreeCountSplit(ps[..i], ps'[i..i + k]);
    FreeCountUniform(ps[i..i + k], was);
    FreeCountUniform(ps'[i..i + k], flag);
  }

  lemma {:induction false} LiveSizeWithout(live: seq<Block>, w: nat)
    requires w < |live|
    ensures LiveSize(RemoveAt(live, w)) + live[w].size == LiveSize(live)
    decreases |live|
  {
    var last := |live| - 1;
    if w == last {
      assert RemoveAt(live, w) == live[..last];
    } else {
      LiveSizeWithout(live[..last], w);
      assert RemoveAt(live, w)[..last - 1] == RemoveAt(live[..last], w);
    }
  }

  lemma AllocKeepsHeapInv(h: Heap, size: nat, reserved: nat)
    requires HeapInv(h, reserved) && Apply(h, Alloc(size)).Some?
    ensures HeapInv(Apply(h, Alloc(size)).value, reserved)
  {
    var k := PagesFor(size);
    var (ps', i) := Kmalloc(h.pages, k).value;
    var h' := Apply(h, Alloc(size)).value;
    KmallocKeepsCountdown(h.pages, k);
    NewBlockIsLive(h.pages, k);
    assert h'.live[..|h.live|] == h.live;
    var b := Block(i, k);
    hide Countdown, Kmalloc, LiveBlock, PagesFor;
    forall a | 0 <= a < |h.live| ensures Disjoint(h.live[a], b) && LiveBlock(ps', h.live[a]) {
      AllocMissesLiveBlock(h.pages, h.live[a], k);
    }
  }

  lemma NewBlockIsLive(ps: seq<Page>, k: nat)
    requires Countdown(ps) && Kmalloc(ps, k).Some?
    ensures var (ps', i) := Kmalloc(ps, k).value;
            LiveBlock(ps', Block(i, k)) && FreeCount(ps') + k == FreeCount(ps) && |ps'| == |ps|
  {
    var (ps', i) := Kmalloc(ps, k).value;
    CountSpan(ps, i);
    assert i > 0 ==> Counts(ps, i - 1);
    hide Countdown, Counts, FirstFit, FreeCount;
    StampMovesFreeCount(ps, i, k, 0, 1);
  }

  lemma AllocMissesLiveBlock(ps: seq<Page>, b: Block, k: nat)
    requires Countdown(ps) && LiveBlock(ps, b) && Kmalloc(ps, k).Some?
    ensures Disjoint(b, Block(Kmalloc(ps, k).value.1, k)) && LiveBlock(Kmalloc(ps, k).value.0, b)
  {
    var (ps', i) := Kmalloc(ps, k).value;
    CountSpan(ps, i);
    assert ps[i].used == 0 && ps[b.start].used == 1;
  }

  lemma ReleaseMissesLiveBlock(ps: seq<Page>, b: Block, c: Block)
    requires Countdown(ps) && LiveBlock(ps, b) && LiveBlock(ps, c) && Disjoint(b, c)
    ensures LiveBlock(Stamp(ps, b.start, b.size, 0), c)
  {
  }

  lemma RemainingBlocksStayLive(ps: seq<Page>, live: seq<Block>, which: nat, a: nat)
    requires Countdown(ps) && which < |live| && a < |live| - 1
    requires forall c :: 0 <= c < |live| ==> LiveBlock(ps, live[c])
    requires PairwiseDisjoint(live)
    ensures live[which].start + live[which].size <= |ps|
    ensures LiveBlock(Stamp(ps, live[which].start, live[which].size, 0), RemoveAt(live, which)[a])
  {
    var was := if a < which then a else a + 1;
    assert LiveBlock(ps, live[which]) && LiveBlock(ps, live[was]);
    assert Disjoint(live[which], live[was]);
    ReleaseMissesLiveBlock(ps, live[which], live[was]);
  }

  lemma FreeKeepsHeapInv(h: Heap, which: nat, reserved: nat)
    requires HeapInv(h, reserved) && which < |h.live|
    ensures Apply(h, Free(which)).Some?
    ensures HeapInv(Apply(h, Free(which)).value, reserved)
  {
    var b := h.live[which];
    assert LiveBlock(h.pages, b);
    ReleaseKeepsCountdown(h.pages, b.start);
    StampMovesFreeCount(h.pages, b.start, b.size, 1, 0);
    LiveSizeWithout(h.live, which);
    forall a | 0 <= a < |h.live| - 1
      ensures LiveBlock(Release(h.pages, b.start).value, RemoveAt(h.live, which)[a])
    {
      RemainingBlocksStayLive(h.pages, h.live, which, a);
    }
    assert PairwiseDisjoint(RemoveAt(h.live, which));
  }

  /**
   Safety and conservation of every run of allocations and of releases of live blocks: live blocks
   stay pairwise disjoint, counts stay honest, and no page is lost or handed out twice.
   */
  lemma {:induction false} RunKeepsHeapInv(h: Heap, ops: seq<Op>, reserved: nat)
    requires HeapInv(h, reserved) && Run(h, ops).Some?
    ensures HeapInv(Run(h, ops).value, reserved)
    decreases |ops|
  {
    if ops != [] {
      match ops[0] {
        case Alloc(size) => AllocKeepsHeapInv(h, size, reserved);
        case Free(which) => FreeKeepsHeapInv(h, which, reserved);
      }
      RunKeepsHeapInv(Apply(h, ops[0]).value, ops[1..], reserved);
    }
  }

  lemma BootEstablishesHeapInv(numPages: nat, usedPages: nat, tablePages: nat)
    requires usedPages + tablePages <= numPages
    ensures HeapInv(Heap(BootTable(numPages, usedPages, tablePages), []), usedPages + tablePages)
  {
    var ps := BootTable(numPages, usedPages, tablePages);
    var r := usedPages + tablePages;
    assert ps == ps[..r] + ps[r..];
    FreeCountSplit(ps[..r], ps[r..]);
    FreeCountUniform(ps[..r], 1);
    FreeCountUniform(ps[r..], 0);
  }

  /** Allocating a block and releasing it straight away gives every page back, with honest counts. */
  lemma FreeUndoesAlloc(h: Heap, size: nat, reserved: nat)
    requires HeapInv(h, reserved) && Apply(h, Alloc(size)).Some?
    ensures var h1 := Apply(h, Alloc(size)).value;
            && Apply(h1, Free(|h.live|)).Some?
            && var h2 := Apply(h1, Free(|h.live|)).value;
            && h2.live == h.live && |h2.pages| == |h.pages|
            && forall j :: 0 <= j < |h.pages| ==> h2.pages[j].used == h.pages[j].used
  {
    var h1 := Apply(h, Alloc(size)).value;
    AllocKeepsHeapInv(h, size, reserved);
    FreeKeepsHeapInv(h1, |h.live|, reserved);
    CountSpan(h.pages, Kmalloc(h.pages, PagesFor(size)).value.1);
  }

  // ---------------------------------------------------------------- runs without release

  /** The free pages are one suffix of memory, counting down to the end. */
  ghost predicate FreeSuffix(ps: seq<Page>, top: nat) {
    && top <= |ps|
    && (forall j :: 0 <= j < top ==> ps[j].used == 1)
    && (forall j :: top <= j < |ps| ==> ps[j].used == 0 && ps[j].blockSize == |ps| - j)
  }

  /** A bump allocator: it hands out the pages at `top` and moves `top`. */
  function BumpRun(top: nat, total: nat, sizes: seq<nat>): (r: Option<seq<Block>>)
    decreases |sizes|
  {
    if sizes == [] then Some([]) else
    var k := PagesFor(sizes[0]);
    if k == 0 || top + k > total then None else
    var rest := BumpRun(top + k, total, sizes[1..]);
    if rest.None? then None else Some([Block(top, k)] + rest.value)
  }

  function AllocAll(sizes: seq<nat>): (r: seq<Op>)
    ensures |r| == |sizes|
  {
    seq(|sizes|, i requires 0 <= i < |sizes| => Alloc(sizes[i]))
  }

  lemma KmallocTakesSuffixStart(ps: seq<Page>, top: nat, k: nat)
    requires FreeSuffix(ps, top) && k > 0
    ensures Kmalloc(ps, k).Some? <==> top + k <= |ps|
    ensures Kmalloc(ps, k).Some? ==>
              Kmalloc(ps, k).value.1 == top && FreeSuffix(Kmalloc(ps, k).value.0, top + k)
  {
    var at := FirstFit(ps, k, 0);
    assert top + k <= |ps| ==> Fits(ps[top], k);
    if at.Some? {
      var i := at.value;
      assert ps[i].used == 0 && i >= top && ps[i].blockSize == |ps| - i >= k;
      var ps' := Stamp(ps, top, k, 1);
      assert forall j :: top <= j < top + k ==> ps'[j].used == 1;
      assert forall j :: top + k <= j < |ps| ==> ps'[j] == ps[j];
    }
  }

  /** Runs with no release refine the bump allocator, down to which block each request gets. */
  lemma {:induction false} AllocRunIsBump(h: Heap, top: nat, sizes: seq<nat>)
    requires FreeSuffix(h.pages, top)
    ensures Run(h, AllocAll(sizes)).Some? <==> BumpRun(top, |h.pages|, sizes).Some?
    ensures Run(h, AllocAll(sizes)).Some? ==>
              var h' := Run(h, AllocAll(sizes)).value;
              && h'.live == h.live + BumpRun(top, |h.pages|, sizes).value
              && FreeSuffix(h'.pages, top + LiveSize(BumpRun(top, |h.pages|, sizes).value))
    decreases |sizes|
  {
    hide FreeSuffix, PagesFor, FirstFit, Stamp;
    if sizes != [] {
      var k := PagesFor(sizes[0]);
      assert AllocAll(sizes)[1..] == AllocAll(sizes[1..]);
      if k > 0 {
        KmallocTakesSuffixStart(h.pages, top, k);
      }
      if k > 0 && top + k <= |h.pages| {
        var h1 := Apply(h, Alloc(sizes[0])).value;
        assert |h1.pages| == |h.pages|;
        AllocRunIsBump(h1, top + k, sizes[1..]);
        var rest := BumpRun(top + k, |h.pages|, sizes[1..]);
        if rest.Some? {
          LiveSizeSplit([Block(top, k)], rest.value);
          assert h1.live + rest.value == h.live + ([Block(top, k)] + rest.value);
        }
      }
    }
  }

  lemma {:induction false} LiveSizeSplit(a: seq<Block>, b: seq<Block>)
    ensures LiveSize(a + b) == LiveSize(a) + LiveSize(b)
    decreases |b|
  {
    if b == [] {
      assert a + b == a;
    } else {
      assert (a + b)[..|a + b| - 1] == a + b[..|b| - 1];
      LiveSizeSplit(a, b[..|b| - 1]);
    }
  }

  lemma BootIsSuffix(numPages: nat, usedPages: nat, tablePages: nat)
    requires usedPages + tablePages <= numPages
    ensures FreeSuffix(BootTable(numPages, usedPages, tablePages), usedPages + tablePages)
  {
  }
}
