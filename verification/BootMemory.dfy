/**
 The memory of the descriptor table itself.  Boot reserves pages for the table, but the division that counts
 them rounds down, and the table need not start at a page: what is safe, and what is handed out.
 */
module BootMemory {
  import opened Basics
  import opened Allocator
  import opened AllocatorRuns

  // ---------------------------------------------------------------- reserved pages

  /** The first `reserved` of `n` pages are in use, and no live block reaches into them. */
  ghost predicate ReservedKept(h: Heap, n: nat, reserved: nat) {
    && reserved <= n == |h.pages| && (forall j :: 0 <= j < reserved ==> h.pages[j].used == 1)
    && forall a :: 0 <= a < |h.live| ==> h.live[a].start >= reserved
  }

  lemma AllocKeepsReserved(h: Heap, size: nat, n: nat, reserved: nat)
    requires Countdown(h.pages) && ReservedKept(h, n, reserved) && Apply(h, Alloc(size)).Some?
    ensures ReservedKept(Apply(h, Alloc(size)).value, n, reserved)
  {
    KmallocTakesAFreeRun(h.pages, PagesFor(size));
    hide PagesFor;
    var i := Kmalloc(h.pages, PagesFor(size)).value.1;
    assert IsFree(h.pages[i]);
  }

  lemma FreeKeepsReserved(h: Heap, which: nat, n: nat, reserved: nat)
    requires ReservedKept(h, n, reserved) && Apply(h, Free(which)).Some?
    ensures ReservedKept(Apply(h, Free(which)).value, n, reserved)
  {
    var h' := Apply(h, Free(which)).value;
    forall a | 0 <= a < |h'.live| ensures h'.live[a].start >= reserved {
      assert h'.live[a] == h.live[if a < which then a else a + 1];
    }
  }

  lemma CountsAreHonest(h: Heap, reserved: nat)
    requires HeapInv(h, reserved)
    ensures Countdown(h.pages)
  {
  }

  lemma ApplyKeepsBoth(h: Heap, op: Op, n: nat, reserved: nat)
    requires HeapInv(h, reserved) && ReservedKept(h, n, reserved) && Apply(h, op).Some?
    ensures HeapInv(Apply(h, op).value, reserved) && ReservedKept(Apply(h, op).value, n, reserved)
  {
    hide HeapInv, ReservedKept;
    CountsAreHonest(h, reserved);
    match op {
      case Alloc(size) =>
        AllocKeepsHeapInv(h, size, reserved);
        AllocKeepsReserved(h, size, n, reserved);
      case Free(which) =>
        FreeKeepsHeapInv(h, which, reserved);
        FreeKeepsReserved(h, which, n, reserved);
    }
  }

  /** No run of allocations and releases hands out a reserved page. */
  lemma {:induction false} RunKeepsReserved(h: Heap, ops: seq<Op>, n: nat, reserved: nat)
    requires HeapInv(h, reserved) && ReservedKept(h, n, reserved) && Run(h, ops).Some?
    ensures ReservedKept(Run(h, ops).value, n, reserved)
    decreases |ops|
  {
    hide HeapInv, ReservedKept;
    if ops != [] {
      ApplyKeepsBoth(h, ops[0], n, reserved);
      RunKeepsReserved(Apply(h, ops[0]).value, ops[1..], n, reserved);
    }
  }

  // ---------------------------------------------------------------- reference counts

  /** A page counts one reference when it is in use and none when it is free, but for those of the table itself. */
  ghost predicate RefsFollowUse(ps: seq<Page>, kernel: nat, reserved: nat) {
    forall j :: 0 <= j < |ps| ==> ps[j].refCount == if kernel <= j < reserved then 0 else ps[j].used
  }

  lemma ApplyKeepsRefs(h: Heap, op: Op, kernel: nat, n: nat, reserved: nat)
    requires Countdown(h.pages) && ReservedKept(h, n, reserved) && RefsFollowUse(h.pages, kernel, reserved)
    requires Apply(h, op).Some?
    ensures RefsFollowUse(Apply(h, op).value.pages, kernel, reserved)
  {
    if op.Alloc? {
      KmallocTakesAFreeRun(h.pages, PagesFor(op.size));
      hide PagesFor;
      var i := Kmalloc(h.pages, PagesFor(op.size)).value.1;
      assert IsFree(h.pages[i]);
    }
  }

  lemma {:induction false} RunKeepsRefs(h: Heap, ops: seq<Op>, kernel: nat, n: nat, reserved: nat)
    requires HeapInv(h, reserved) && ReservedKept(h, n, reserved) && RefsFollowUse(h.pages, kernel, reserved)
    requires Run(h, ops).Some?
    ensures RefsFollowUse(Run(h, ops).value.pages, kernel, reserved)
    decreases |ops|
  {
    hide HeapInv, ReservedKept, RefsFollowUse;
    if ops != [] {
      CountsAreHonest(h, reserved);
      ApplyKeepsRefs(h, ops[0], kernel, n, reserved);
      ApplyKeepsBoth(h, ops[0], n, reserved);
      RunKeepsRefs(Apply(h, ops[0]).value, ops[1..], kernel, n, reserved);
    }
  }

  // ---------------------------------------------------------------- the table

  /** The heap that boot leaves, for a kernel that ends at byte `physfree`. */
  function BootHeap(numPages: nat, physfree: nat): (h: Heap)
    requires physfree / PAGE_SIZE + TablePages(numPages) <= numPages
  {
    Heap(BootTable(numPages, physfree / PAGE_SIZE, TablePages(numPages)), [])
  }

  /** The first byte behind the pages that are in use after boot. */
  function ReservedEnd(numPages: nat, physfree: nat): nat {
    (physfree / PAGE_SIZE + TablePages(numPages)) * PAGE_SIZE
  }

  /** Where descriptor `i` starts: the table starts where the kernel ends. */
  function DescriptorAt(physfree: nat, i: nat): nat {
    physfree + i * 24
  }

  predicate Overlaps(b: Block, from: nat, to: nat) {
    b.start * PAGE_SIZE < to && from < (b.start + b.size) * PAGE_SIZE
  }

  /** The pages reserved for the table are as many as it fills completely. */
  lemma ReservedBounds(numPages: nat)
    ensures TablePages(numPages) * PAGE_SIZE <= 24 * numPages < (TablePages(numPages) + 1) * PAGE_SIZE
  {
  }

  lemma BootKeepsReserved(numPages: nat, physfree: nat)
    requires physfree / PAGE_SIZE + TablePages(numPages) <= numPages
    ensures var r := physfree / PAGE_SIZE + TablePages(numPages);
            HeapInv(BootHeap(numPages, physfree), r) && ReservedKept(BootHeap(numPages, physfree), numPages, r)
  {
    hide HeapInv;
    BootEstablishesHeapInv(numPages, physfree / PAGE_SIZE, TablePages(numPages));
  }

  /** After `ops` the live block `a`, if there is one, does not reach into descriptor `i`. */
  ghost predicate DescriptorSafe(h: Heap, physfree: nat, ops: seq<Op>, i: nat, a: nat) {
    var r := Run(h, ops);
    r.Some? && a < |r.value.live| ==>
      !Overlaps(r.value.live[a], DescriptorAt(physfree, i), DescriptorAt(physfree, i + 1))
  }

  /** A descriptor that lies below the end of the reserved pages is in no block that is ever handed out. */
  lemma DescriptorKept(numPages: nat, physfree: nat, ops: seq<Op>, i: nat, a: nat)
    requires physfree / PAGE_SIZE + TablePages(numPages) <= numPages
    requires DescriptorAt(physfree, i + 1) <= ReservedEnd(numPages, physfree)
    ensures DescriptorSafe(BootHeap(numPages, physfree), physfree, ops, i, a)
  {
    var r := physfree / PAGE_SIZE + TablePages(numPages);
    BootKeepsReserved(numPages, physfree);
    hide HeapInv, TablePages, BootHeap;
    var end := Run(BootHeap(numPages, physfree), ops);
    if end.Some? && a < |end.value.live| {
      RunKeepsReserved(BootHeap(numPages, physfree), ops, numPages, r);
      assert end.value.live[a].start >= r;
    }
  }

  /** The whole table is never handed out, by any run. */
  ghost predicate TableSafe(numPages: nat, physfree: nat)
    requires physfree / PAGE_SIZE + TablePages(numPages) <= numPages
  {
    forall ops, i: nat, a: nat :: i < numPages ==> DescriptorSafe(BootHeap(numPages, physfree), physfree, ops, i, a)
  }

  /** The first page that is handed out lies right behind the reserved ones. */
  lemma FirstBlock(numPages: nat, physfree: nat)
    requires physfree / PAGE_SIZE + TablePages(numPages) < numPages
    ensures var r := Run(BootHeap(numPages, physfree), [Alloc(1)]);
            r.Some? && r.value.live == [Block(physfree / PAGE_SIZE + TablePages(numPages), 1)]
  {
    var top := physfree / PAGE_SIZE + TablePages(numPages);
    BootIsSuffix(numPages, physfree / PAGE_SIZE, TablePages(numPages));
    KmallocTakesSuffixStart(BootHeap(numPages, physfree).pages, top, 1);
    assert PagesFor(1) == 1;
    hide Kmalloc, TablePages, FreeSuffix;
    var h := Apply(BootHeap(numPages, physfree), Alloc(1)).value;
    assert [Alloc(1)][1..] == [];
    assert Run(h, []) == Some(h);
  }

  /** The first descriptor that reaches beyond the reserved pages. */
  lemma ExposedDescriptor(numPages: nat, physfree: nat) returns (i: nat)
    requires DescriptorAt(physfree, numPages) > ReservedEnd(numPages, physfree) && numPages > 0
    ensures i < numPages && DescriptorAt(physfree, i + 1) > ReservedEnd(numPages, physfree)
    ensures DescriptorAt(physfree, i) < ReservedEnd(numPages, physfree) + PAGE_SIZE
  {
    var room := TablePages(numPages) * PAGE_SIZE - physfree % PAGE_SIZE;
    assert physfree == physfree / PAGE_SIZE * PAGE_SIZE + physfree % PAGE_SIZE;
    hide TablePages;
    i := if room < 0 then 0 else room / 24;
  }

  /** The end of the table and the end of the reserved pages agree only when both start and length fill pages. */
  lemma TableFitsIff(numPages: nat, physfree: nat)
    ensures DescriptorAt(physfree, numPages) <= ReservedEnd(numPages, physfree)
            <==> physfree % PAGE_SIZE == 0 && 24 * numPages % PAGE_SIZE == 0
  {
    assert physfree == physfree / PAGE_SIZE * PAGE_SIZE + physfree % PAGE_SIZE;
    assert 24 * numPages == 24 * numPages / PAGE_SIZE * PAGE_SIZE + 24 * numPages % PAGE_SIZE;
    assert TablePages(numPages) == 24 * numPages / PAGE_SIZE;
  }

  /**
   The descriptor table is safe from all runs of allocations and releases exactly when it starts at a page and
   fills whole pages, or when no page is left to hand out at all.
   */
  lemma TableSafeIff(numPages: nat, physfree: nat)
    requires physfree / PAGE_SIZE + TablePages(numPages) <= numPages
    ensures TableSafe(numPages, physfree)
            <==> || (physfree % PAGE_SIZE == 0 && 24 * numPages % PAGE_SIZE == 0)
                 || physfree / PAGE_SIZE + TablePages(numPages) == numPages
  {
    TableFitsIff(numPages, physfree);
    if physfree % PAGE_SIZE == 0 && 24 * numPages % PAGE_SIZE == 0 {
      WholeTableKept(numPages, physfree);
    } else if physfree / PAGE_SIZE + TablePages(numPages) == numPages {
      NothingHandedOut(numPages, physfree);
    } else {
      hide TablePages, BootHeap, Run, ReservedEnd;
      FirstBlock(numPages, physfree);
      var i := ExposedDescriptor(numPages, physfree);
      EndIsPage(numPages, physfree);
      var ops, a := [Alloc(1)], 0;
      assert !DescriptorSafe(BootHeap(numPages, physfree), physfree, ops, i, a);
    }
  }

  lemma EndIsPage(numPages: nat, physfree: nat)
    ensures ReservedEnd(numPages, physfree) == (physfree / PAGE_SIZE + TablePages(numPages)) * PAGE_SIZE
  {
  }

  lemma WholeTableKept(numPages: nat, physfree: nat)
    requires physfree / PAGE_SIZE + TablePages(numPages) <= numPages
    requires DescriptorAt(physfree, numPages) <= ReservedEnd(numPages, physfree)
    ensures TableSafe(numPages, physfree)
  {
    hide TablePages, BootHeap, Run, ReservedEnd, DescriptorSafe;
    forall ops, i: nat, a: nat | i < numPages
      ensures DescriptorSafe(BootHeap(numPages, physfree), physfree, ops, i, a)
    {
      DescriptorKept(numPages, physfree, ops, i, a);
    }
  }

  /** Without a free page behind the reserved ones no run has a live block. */
  lemma NothingHandedOut(numPages: nat, physfree: nat)
    requires physfree / PAGE_SIZE + TablePages(numPages) == numPages
    ensures TableSafe(numPages, physfree)
  {
    hide TablePages, BootHeap, Run, ReservedEnd, HeapInv, ReservedKept;
    BootKeepsReserved(numPages, physfree);
    var h := BootHeap(numPages, physfree);
    forall ops, i: nat, a: nat | i < numPages ensures DescriptorSafe(h, physfree, ops, i, a) {
      var r := Run(h, ops);
      if r.Some? && a < |r.value.live| {
        RunKeepsReserved(h, ops, numPages, numPages);
        RunKeepsHeapInv(h, ops, numPages);
        BlockBehindReserved(r.value, numPages, numPages, a);
        assert false;
      }
    }
  }

  lemma BlockBehindReserved(h: Heap, n: nat, reserved: nat, a: nat)
    requires HeapInv(h, reserved) && ReservedKept(h, n, reserved) && a < |h.live|
    ensures reserved <= h.live[a].start < h.live[a].start + h.live[a].size <= n
  {
    assert LiveBlock(h.pages, h.live[a]);
  }

  /**
   The descriptor behind the last one, which boot marks with -1 to end every scan, is in a page that the first
   allocation hands out: always, when the table starts at a page and a page is left.
   */
  lemma EndMarkerHandedOut(numPages: nat, physfree: nat)
    requires physfree % PAGE_SIZE == 0 && physfree / PAGE_SIZE + TablePages(numPages) < numPages
    ensures !DescriptorSafe(BootHeap(numPages, physfree), physfree, [Alloc(1)], numPages, 0)
  {
    FirstBlock(numPages, physfree);
    ReservedBounds(numPages);
    hide BootHeap, TablePages, Run;
    assert physfree == physfree / PAGE_SIZE * PAGE_SIZE;
  }

  /** After every run a page counts one reference exactly when it is in use, except for the pages of the table. */
  lemma RefCountsInEveryRun(numPages: nat, physfree: nat, ops: seq<Op>)
    requires physfree / PAGE_SIZE + TablePages(numPages) <= numPages && Run(BootHeap(numPages, physfree), ops).Some?
    ensures var kernel := physfree / PAGE_SIZE;
            RefsFollowUse(Run(BootHeap(numPages, physfree), ops).value.pages, kernel, kernel + TablePages(numPages))
  {
    var kernel, reserved := physfree / PAGE_SIZE, physfree / PAGE_SIZE + TablePages(numPages);
    BootKeepsReserved(numPages, physfree);
    assert RefsFollowUse(BootHeap(numPages, physfree).pages, kernel, reserved);
    hide HeapInv, ReservedKept, RefsFollowUse, BootHeap, TablePages;
    RunKeepsRefs(BootHeap(numPages, physfree), ops, kernel, numPages, reserved);
  }
}
