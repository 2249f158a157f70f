/**
 Physical memory and the descriptor table as the kernel updates them: two buffers written in place.
 The ghost field `vm` is their value, and every method is proved against a function of it.
 */
module Machine {
  import opened Basics
  import opened Allocator
  import opened Addresses
  import opened Paging

  /** The contents of the buffers, the end marker of the table left aside. */
  ghost predicate Backs(words: array2<u64>, pages: array<Page>, vm: Vm)
    reads words, pages
  {
    && words.Length1 == ENTRIES && |vm.mem| == words.Length0 && |vm.pages| == words.Length0 == pages.Length - 1
    && (forall f :: 0 <= f < |vm.mem| ==> |vm.mem[f]| == ENTRIES)
    && (forall f, o :: 0 <= f < words.Length0 && 0 <= o < ENTRIES ==> words[f, o] == vm.mem[f][o])
    && (forall i :: 0 <= i < |vm.pages| ==> pages[i] == vm.pages[i])
  }

  /** `free` on the whole machine: the released pages are also cleared. */
  function ReleaseFrames(vm: Vm, i: nat): (r: Option<Vm>) {
    var ps := Release(vm.pages, i);
    if ps.None? || i >= |vm.pages| then None else
    var k := vm.pages[i].blockSize;
    if k < 0 then None else Some(Vm(ZeroFrames(vm.mem, i, k), ps.value))
  }

  /**
   Allocate a block, store anything in it, release it: the block is erased, its pages are as free as they
   were, and no other frame has changed.
   */
  lemma ReleaseErases(vm: Vm, k: nat, mem: Memory)
    requires |vm.mem| == |vm.pages| == |mem| && Countdown(vm.pages) && AllocFrames(vm, k).Some?
    requires var (vm1, i) := AllocFrames(vm, k).value;
             forall f :: 0 <= f < |mem| && !(i <= f < i + k) ==> mem[f] == vm1.mem[f]
    ensures var (vm1, i) := AllocFrames(vm, k).value;
            var r := ReleaseFrames(Vm(mem, vm1.pages), i);
            && r.Some? && |r.value.mem| == |mem| && |r.value.pages| == |vm.pages|
            && (forall f :: 0 <= f < |mem| ==> r.value.mem[f] == if i <= f < i + k then ZeroFrame() else vm.mem[f])
            && (forall j :: 0 <= j < |vm.pages| ==> r.value.pages[j].used == vm.pages[j].used)
  {
    KmallocTakesAFreeRun(vm.pages, k);
    hide FirstFit, Countdown, ZeroFrame;
    var (vm1, i) := AllocFrames(vm, k).value;
    assert vm1.pages[i].blockSize == k;
  }

  class Machine {
    const words: array2<u64>
    const pages: array<Page>
    ghost var vm: Vm

    ghost predicate Valid()
      reads this, words, pages
    {
      Backs(words, pages, vm)
    }

    /**
     `calculate_free_list`: three passes over the table.  The last pass sets the reference count
     of the end marker, not of the pages it reserves.
     */
    constructor (numPages: nat, usedPages: nat)
      requires usedPages + TablePages(numPages) <= numPages
      ensures Valid() && fresh(words) && fresh(pages)
      ensures vm.pages == BootTable(numPages, usedPages, TablePages(numPages)) && pages[numPages].used == -1
    {
      var free := numPages - usedPages;
      var table := new Page[numPages + 1](_ => Page(0, 0, 0));
      var used := usedPages;
      var i := 0;
      while used != 0
        invariant 0 <= i <= usedPages && used == usedPages - i
        invariant forall j :: 0 <= j < i ==> table[j] == Page(1, usedPages - j, 1)
      {
        table[i] := Page(1, used, 1);
        used, i := used - 1, i + 1;
      }
      var freePtr := i;
      while free != 0
        invariant usedPages <= i <= numPages && free == numPages - i
        invariant forall j :: 0 <= j < usedPages ==> table[j] == Page(1, usedPages - j, 1)
        invariant forall j :: usedPages <= j < i ==> table[j] == Page(0, numPages - j, 0)
      {
        table[i] := Page(0, free, 0);
        free, i := free - 1, i + 1;
      }
      table[i] := Page(-1, table[i].blockSize, table[i].refCount);
      var reserve := TablePages(numPages);
      ghost var top := usedPages + reserve;
      while reserve != 0
        invariant usedPages <= freePtr <= top && reserve == top - freePtr && i == numPages
        invariant table[numPages].used == -1
        invariant forall j :: 0 <= j < usedPages ==> table[j] == Page(1, usedPages - j, 1)
        invariant forall j :: usedPages <= j < freePtr ==> table[j] == Page(1, top - j, 0)
        invariant forall j :: freePtr <= j < numPages ==> table[j] == Page(0, numPages - j, 0)
      {
        table[freePtr] := Page(1, reserve, table[freePtr].refCount);
        table[i] := table[i].(refCount := 1);
        freePtr, reserve := freePtr + 1, reserve - 1;
      }
      words := new u64[numPages, ENTRIES]((_, _) => 0);
      pages := table;
      ghost var ps := BootTable(numPages, usedPages, TablePages(numPages));
      vm := Vm(seq(numPages, _ => ZeroFrame()), ps);
    }

    // ------------------------------------------------------------ single words and descriptors

    method Load(f: nat, o: nat) returns (v: u64)
      requires Valid() && f < words.Length0 && o < ENTRIES
      ensures v == Word(vm.mem, f, o)
    {
      v := words[f, o];
    }

    method Store(f: nat, o: nat, v: u64)
      requires Valid() && f < words.Length0 && o < ENTRIES
      modifies this, words
      ensures Valid() && vm == old(vm).(mem := Put(old(vm).mem, f, o, v))
    {
      words[f, o] := v;
      vm := vm.(mem := Put(vm.mem, f, o, v));
    }

    method SetPage(i: nat, p: Page)
      requires Valid() && i < pages.Length - 1
      modifies this, pages
      ensures Valid() && vm.mem == old(vm).mem && |vm.pages| == |old(vm).pages| == pages.Length - 1
      ensures vm.pages == old(vm).pages[i := p]
    {
      pages[i] := p;
      vm := vm.(pages := vm.pages[i := p]);
    }

    // ------------------------------------------------------------ whole blocks

    /** The countdown that `kmalloc` and `free` write over a block. */
    method StampBlock(i: nat, k: nat, flag: int)
      requires Valid() && i + k < pages.Length
      modifies this, pages
      ensures Valid() && |old(vm).pages| == pages.Length - 1
      ensures vm == old(vm).(pages := Stamp(old(vm).pages, i, k, flag))
    {
      ghost var ps := vm.pages;
      var left := k;
      while left != 0
        invariant Valid() && 0 <= left <= k && vm.mem == old(vm).mem && |vm.pages| == |ps|
        invariant forall j :: 0 <= j < |ps| ==>
                    vm.pages[j] == if i <= j < i + k - left then Page(flag, i + k - j, flag) else ps[j]
      {
        SetPage(i + k - left, Page(flag, left, flag));
        left := left - 1;
      }
      assert vm.pages == Stamp(ps, i, k, flag);
    }

    method ZeroOne(f: nat)
      requires Valid() && f < words.Length0
      modifies this, words
      ensures Valid() && |old(vm).mem| == words.Length0 && vm == old(vm).(mem := old(vm).mem[f := ZeroFrame()])
    {
      ghost var mem := vm.mem;
      for o := 0 to ENTRIES
        invariant Valid() && vm.pages == old(vm).pages && |vm.mem| == |mem|
        invariant forall g :: 0 <= g < |mem| && g != f ==> vm.mem[g] == mem[g]
        invariant forall j :: 0 <= j < o ==> vm.mem[f][j] == 0
      {
        Store(f, o, 0);
      }
      assert vm.mem[f] == ZeroFrame();
      assert vm.mem == mem[f := ZeroFrame()];
    }

    /** `memset` of whole pages to zero. */
    method ZeroBlock(i: nat, k: nat)
      requires Valid() && i + k <= words.Length0
      modifies this, words
      ensures Valid() && vm == old(vm).(mem := ZeroFrames(old(vm).mem, i, k))
    {
      ghost var mem := vm.mem;
      for j := 0 to k
        invariant Valid() && vm.pages == old(vm).pages && |vm.mem| == |mem|
        invariant forall g :: 0 <= g < |mem| ==> vm.mem[g] == if i <= g < i + j then ZeroFrame() else mem[g]
      {
        ZeroOne(i + j);
      }
      assert vm.mem == ZeroFrames(mem, i, k);
    }

    // ------------------------------------------------------------ kmalloc and free

    /** The search of `kmalloc`. */
    method Search(k: nat) returns (count: nat)
      requires Valid() && FirstFit(vm.pages, k, 0).Some?
      ensures Some(count) == FirstFit(vm.pages, k, 0)
    {
      count := 0;
      while !(pages[count].used == 0 && pages[count].blockSize >= k)
        invariant count < |vm.pages| && FirstFit(vm.pages, k, count) == FirstFit(vm.pages, k, 0)
        decreases |vm.pages| - count
      {
        count := count + 1;
      }
    }

    /** `kmalloc` and `kmalloc_init`: first fit, countdown, zeroed pages. */
    method Kmalloc(size: nat) returns (frame: nat)
      requires Valid() && size > 0 && AllocFrames(vm, PagesFor(size)).Some?
      modifies this, words, pages
      ensures Valid() && Some((vm, frame)) == AllocFrames(old(vm), PagesFor(size))
    {
      hide FirstFit, Stamp, ZeroFrames;
      var k := if size % PAGE_SIZE > 0 then size / PAGE_SIZE + 1 else size / PAGE_SIZE;
      frame := Search(k);
      StampBlock(frame, k, 1);
      ZeroBlock(frame, k);
    }

    /** `free`, from the first descriptor of a block on. */
    method FreeBlock(i: nat)
      requires Valid() && ReleaseFrames(vm, i).Some?
      modifies this, words, pages
      ensures Valid() && Some(vm) == ReleaseFrames(old(vm), i)
    {
      hide Stamp, ZeroFrames;
      var k := pages[i].blockSize;
      ZeroBlock(i, k);
      StampBlock(i, k, 0);
    }
  }
}
