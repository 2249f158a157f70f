/** The kernel's own structures whose sizes and offsets the rest of the model uses as numbers. */
module Layout {
  import opened Basics
  import opened Allocator
  import opened Spaces
  import opened Loader
  import opened AreaList
  import opened Structs

  // ---------------------------------------------------------------- page descriptors

  datatype PageName = Next | Used | BlockSize | RefCount

  const PAGE_FIELDS := [Scalar(Next, 8), Scalar(Used, 4), Scalar(BlockSize, 4), Scalar(RefCount, 4)]

  /** Three integers behind a pointer, padded to the next pointer: 24 bytes. */
  lemma DescriptorLayout()
    ensures SizeOf(PAGE_FIELDS, 8) == DESCRIPTOR_BYTES
  {
    OffsetAfter(PAGE_FIELDS, 0, 0);
    OffsetAfter(PAGE_FIELDS, 1, 8);
    OffsetAfter(PAGE_FIELDS, 2, 12);
    OffsetAfter(PAGE_FIELDS, 3, 16);
    assert AlignUp(20, 8) == 24;
  }

  // ---------------------------------------------------------------- area nodes

  datatype AreaName = Mm | Start | End | File | FileOffset | Flags | Size | NextArea

  const AREA_FIELDS := [Scalar(Mm, 8), Scalar(Start, 8), Scalar(End, 8), Scalar(File, 8), Scalar(FileOffset, 8),
                        Scalar(Flags, 8), Scalar(Size, 8), Scalar(NextArea, 8)]

  lemma {:induction false} AreaOffset(i: nat)
    requires i <= 8
    ensures FieldOffset(AREA_FIELDS, i) == 8 * i
    decreases i
  {
    if i > 0 {
      AreaOffset(i - 1);
      OffsetAfter(AREA_FIELDS, i - 1, 8 * (i - 1));
      assert AREA_FIELDS[i - 1].size == 8 && (i < 8 ==> AREA_FIELDS[i].align == 8);
    }
  }

  /** What the loader stores in a field of a node. */
  function AreaValue(s: Segment, file: u64, name: AreaName): u64 {
    match name
    case Mm => 0
    case Start => s.vaddr % WORD_LIMIT
    case End => (s.vaddr + s.memsz) % WORD_LIMIT
    case File => file
    case FileOffset => s.offset % WORD_LIMIT
    case Flags => s.flags % WORD_LIMIT
    case Size => s.memsz % WORD_LIMIT
    case NextArea => 0
  }

  /** The words of a node are its fields, at the offsets the compiler gives them. */
  lemma NodeLayout(s: Segment, file: u64, i: nat)
    requires i < 8
    ensures SizeOf(AREA_FIELDS, 8) == NODE_BYTES
    ensures FieldOffset(AREA_FIELDS, i) == 8 * i && NodeWord(s, file, i) == AreaValue(s, file, AREA_FIELDS[i].name)
  {
    AreaOffset(i);
    AreaOffset(8);
  }

  // ---------------------------------------------------------------- tasks

  datatype TaskName = Rsp | Kstack | Ustack | Pid | Ppid | Cr3 | Tname | TaskMm | Pml4 | ExitStatus | Entry | IsWaiting
                    | SleepTime | IsSleeping | IsBg

  const STACK_WORDS := 4096
  const TASK_FIELDS := [Scalar(Rsp, 8), Field(Kstack, STACK_WORDS * 8, 8), Scalar(Ustack, 8), Scalar(Pid, 8),
                        Scalar(Ppid, 8), Scalar(Cr3, 8), Field(Tname, 100, 1), Scalar(TaskMm, 8), Scalar(Pml4, 8),
                        Scalar(ExitStatus, 4), Scalar(Entry, 8), Scalar(IsWaiting, 8), Scalar(SleepTime, 8),
                        Scalar(IsSleeping, 8), Scalar(IsBg, 8)]

  /** The kernel stack makes a task structure nine pages long. */
  lemma TaskLayout()
    ensures SizeOf(TASK_FIELDS, 8) == TASK_BYTES && PagesFor(TASK_BYTES) == 9
  {
    hide FieldOffset;
    OffsetOfFirst(TASK_FIELDS);
    TaskStep(0, 0, 8);
    TaskStep(1, 8, 32776);
    TaskStep(2, 32776, 32784);
    TaskStep(3, 32784, 32792);
    TaskStep(4, 32792, 32800);
    TaskStep(5, 32800, 32808);
    TaskStep(6, 32808, 32912);
    TaskSecondHalf();
  }

  lemma TaskSecondHalf()
    requires FieldOffset(TASK_FIELDS, 7) == 32912
    ensures FieldOffset(TASK_FIELDS, 15) == 32976
  {
    hide FieldOffset;
    TaskStep(7, 32912, 32920);
    TaskStep(8, 32920, 32928);
    TaskStep(9, 32928, 32936);
    TaskStep(10, 32936, 32944);
    TaskStep(11, 32944, 32952);
    TaskStep(12, 32952, 32960);
    TaskStep(13, 32960, 32968);
    TaskStep(14, 32968, 32976);
  }

  lemma TaskStep(i: nat, at: nat, next: nat)
    requires i < 15 && FieldOffset(TASK_FIELDS, i) == at
    requires next ==
               if i < 14 then AlignUp(at + TASK_FIELDS[i].size, TASK_FIELDS[i + 1].align) else at + TASK_FIELDS[i].size
    ensures FieldOffset(TASK_FIELDS, i + 1) == next
  {
    OffsetAfter(TASK_FIELDS, i, at);
  }
}
