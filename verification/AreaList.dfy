/**
 The list of memory areas that the loader keeps beside each program.

 The next node of that list is placed by adding the size of a node to a node pointer, which moves
 it by that many nodes, a whole page, instead of by one node.
 */
module AreaList {
  import opened Basics
  import opened Allocator
  import opened Addresses
  import opened Paging
  import opened Loader

  const NODE_BYTES := 64

  /** The nodes of a list: the first has frame `first`, each further one the next frame. */
  datatype Areas = Areas(first: nat, list: seq<Segment>)

  // ---------------------------------------------------------------- addresses of nodes

  /** The kernel address of the start of frame `f`. */
  function NodeAddress(f: nat): u64 {
    (KERNEL_VADDR + f * PAGE_SIZE) % WORD_LIMIT
  }

  /** `vma + sizeof(struct vm_area_struct)` on a node pointer. */
  function NextNode(addr: u64): u64 {
    (addr + NODE_BYTES * NODE_BYTES) % WORD_LIMIT
  }

  function FrameAt(addr: u64): nat {
    (addr - KERNEL_VADDR) % WORD_LIMIT / PAGE_SIZE
  }

  lemma NodeAddresses(f: nat)
    requires f < MAX_FRAMES
    ensures FrameAt(NodeAddress(f)) == f && NodeAddress(f) != 0
  {
  }

  /** The next node lies exactly one page further. */
  lemma NextNodeIsNextFrame(f: nat)
    requires f + 1 < MAX_FRAMES
    ensures NextNode(NodeAddress(f)) == NodeAddress(f + 1) && FrameAt(NextNode(NodeAddress(f))) == f + 1
  {
    NodeAddresses(f + 1);
  }

  lemma NextFrame(f: nat)
    requires f < MAX_FRAMES
    ensures FrameAt(NextNode(NodeAddress(f))) == f + 1
  {
  }

  // ---------------------------------------------------------------- nodes in memory

  /** Word `i` of the node that describes segment `s`; the first word of a node is never written. */
  function NodeWord(s: Segment, file: u64, i: nat): (w: u64) {
    if i == 1 then s.vaddr % WORD_LIMIT
    else if i == 2 then (s.vaddr + s.memsz) % WORD_LIMIT
    else if i == 3 then file
    else if i == 4 then s.offset % WORD_LIMIT
    else if i == 5 then s.flags % WORD_LIMIT
    else if i == 6 then s.memsz % WORD_LIMIT
    else 0
  }

  /** The seven fields the loader writes at the start of frame `f`, in its order. */
  function StoreNode(mem: Memory, f: nat, s: Segment, file: u64): (r: Memory) {
    var m1 := Put(mem, f, 1, NodeWord(s, file, 1));
    var m2 := Put(m1, f, 2, NodeWord(s, file, 2));
    var m3 := Put(m2, f, 6, NodeWord(s, file, 6));
    var m4 := Put(m3, f, 7, NodeWord(s, file, 7));
    var m5 := Put(m4, f, 3, NodeWord(s, file, 3));
    var m6 := Put(m5, f, 5, NodeWord(s, file, 5));
    Put(m6, f, 4, NodeWord(s, file, 4))
  }

  lemma StoreNodeWords(mem: Memory, f: nat, s: Segment, file: u64)
    requires f < |mem| && |mem[f]| == ENTRIES
    ensures var r := StoreNode(mem, f, s, file);
            && |r| == |mem| && |r[f]| == ENTRIES
            && (forall g :: 0 <= g < |mem| && g != f ==> r[g] == mem[g])
            && (forall o: nat :: Word(r, f, o) == if 1 <= o < 8 then NodeWord(s, file, o) else Word(mem, f, o))
  {
    hide NodeWord;
  }

  /** A further node: the last one, in frame `last`, is linked to it. */
  function AppendNode(mem: Memory, last: nat, s: Segment, file: u64): (r: Memory) {
    var next := NextNode(NodeAddress(last));
    StoreNode(Put(mem, last, 7, next), FrameAt(next), s, file)
  }

  /** `vma_malloc` and the stores behind it: a page for the first node, the next page for each other one. */
  function AddArea(vm: Vm, areas: Areas, s: Segment, file: u64): (r: Option<(Vm, Areas)>) {
    if areas.list == [] then
      var a := AllocFrames(vm, 1);
      if a.None? then None else
      var (vm1, f) := a.value;
      Some((vm1.(mem := StoreNode(vm1.mem, f, s, file)), Areas(f, [s])))
    else
      Some((vm.(mem := AppendNode(vm.mem, areas.first + |areas.list| - 1, s, file)), areas.(list := areas.list + [s])))
  }

  /** Word `i` of node `j`: the fields of its segment, and the link to the node after it. */
  function AreaWord(areas: Areas, file: u64, j: nat, i: nat): u64
    requires j < |areas.list|
  {
    if i == 7 && j + 1 < |areas.list| then NodeAddress(areas.first + j + 1) else NodeWord(areas.list[j], file, i)
  }

  /** Memory holds the whole list. */
  ghost predicate Listed(mem: Memory, areas: Areas, file: u64) {
    forall j, i :: 0 <= j < |areas.list| && 1 <= i < 8 ==> Word(mem, areas.first + j, i) == AreaWord(areas, file, j, i)
  }

  predicate IsNode(areas: Areas, f: nat) {
    areas.first <= f < areas.first + |areas.list|
  }

  /** The memories differ only in the written words of the nodes. */
  ghost predicate OnlyNodesDiffer(mem: Memory, mem': Memory, areas: Areas) {
    && |mem'| == |mem|
    && (forall f :: 0 <= f < |mem| ==> |mem'[f]| == |mem[f]|)
    && (forall f :: 0 <= f < |mem| && !IsNode(areas, f) ==> mem'[f] == mem[f])
    && (forall f: nat, o: nat :: !(1 <= o < 8) ==> Word(mem', f, o) == Word(mem, f, o))
  }

  lemma FirstNodeStored(mem: Memory, f: nat, s: Segment, file: u64)
    requires f < |mem| && |mem[f]| == ENTRIES
    ensures var mem' := StoreNode(mem, f, s, file);
            OnlyNodesDiffer(mem, mem', Areas(f, [s])) && Listed(mem', Areas(f, [s]), file)
  {
    StoreNodeWords(mem, f, s, file);
    hide StoreNode, NodeWord;
    var mem' := StoreNode(mem, f, s, file);
    forall g: nat, o: nat | !(1 <= o < 8) ensures Word(mem', g, o) == Word(mem, g, o) {
      if g != f && g < |mem| {
        assert mem'[g] == mem[g];
      }
    }
  }

  lemma NodeAppended(mem: Memory, areas: Areas, s: Segment, file: u64)
    requires areas.list != [] && areas.first + |areas.list| < |mem| <= MAX_FRAMES
    requires forall f :: 0 <= f < |mem| ==> |mem[f]| == ENTRIES
    requires Listed(mem, areas, file)
    ensures var areas' := areas.(list := areas.list + [s]);
            var mem' := AppendNode(mem, areas.first + |areas.list| - 1, s, file);
            OnlyNodesDiffer(mem, mem', areas') && Listed(mem', areas', file)
  {
    hide StoreNode, NodeWord, NodeAddress, NextNode, FrameAt;
    var last := areas.first + |areas.list| - 1;
    NextNodeIsNextFrame(last);
    var mem1 := Put(mem, last, 7, NodeAddress(last + 1));
    StoreNodeWords(mem1, last + 1, s, file);
    var mem' := StoreNode(mem1, last + 1, s, file);
    var areas' := areas.(list := areas.list + [s]);
    forall g: nat, o: nat | !(1 <= o < 8) ensures Word(mem', g, o) == Word(mem, g, o) {
      if g != last + 1 && g < |mem| {
        assert mem'[g] == mem1[g];
      }
    }
    forall j, i | 0 <= j < |areas'.list| && 1 <= i < 8
      ensures Word(mem', areas'.first + j, i) == AreaWord(areas', file, j, i)
    {
      if j < |areas.list| {
        assert mem'[areas.first + j] == mem1[areas.first + j];
        assert Word(mem, areas.first + j, i) == AreaWord(areas, file, j, i);
      }
    }
  }

  /** A further node touches at most its own frame and that of the node before it. */
  lemma AppendTouches(mem: Memory, last: nat, s: Segment, file: u64)
    requires last < MAX_FRAMES
    ensures var mem' := AppendNode(mem, last, s, file);
            |mem'| == |mem| && forall g :: 0 <= g < |mem| && g != last && g != last + 1 ==> mem'[g] == mem[g]
  {
    NextFrame(last);
    hide NodeAddress, NextNode, FrameAt, NodeWord;
  }
}
