/** A ustar writer, the inverse against which the index is checked. */
module ArchiveWriter {
  import opened Basics
  import opened Bytes
  import opened CStrings
  import opened Ustar
  import opened Tarfs
  import opened TarHeader

  function MemberBytes(m: Member): (s: seq<byte>)
    ensures |s| == BLOCK + RoundUp(|m.data|)
  {
    HeaderSize(m);
    HeaderBytes(m) + (m.data + Zeros(RoundUp(|m.data|) - |m.data|))
  }

  ghost predicate GoodMembers(ms: seq<Member>) {
    forall k :: 0 <= k < |ms| ==> GoodMember(ms[k])
  }

  function Written(ms: seq<Member>): (s: seq<byte>)
    requires GoodMembers(ms)
    decreases |ms|
  {
    if ms == [] then [] else Written(ms[..|ms| - 1]) + MemberBytes(ms[|ms| - 1])
  }

  /** The members, then two empty blocks. */
  function Archive(ms: seq<Member>): (s: seq<byte>)
    requires GoodMembers(ms)
  {
    Written(ms) + Zeros(2 * BLOCK)
  }

  lemma {:induction false} OffsetOfPrefix(ms: seq<Member>, n: nat, i: nat)
    requires i <= n <= |ms|
    ensures OffsetOf(ms[..n], i) == OffsetOf(ms, i)
    decreases i
  {
    if i > 0 {
      OffsetOfPrefix(ms, n, i - 1);
    }
  }

  lemma {:induction false} WrittenLength(ms: seq<Member>)
    requires GoodMembers(ms)
    ensures |Written(ms)| == OffsetOf(ms, |ms|)
    decreases |ms|
  {
    hide RoundUp, MemberBytes;
    if ms != [] {
      WrittenLength(ms[..|ms| - 1]);
      OffsetOfPrefix(ms, |ms| - 1, |ms| - 1);
    }
  }

  /** A field found in a block is found in every buffer that contains the block. */
  lemma Embedded(before: seq<byte>, block: seq<byte>, after: seq<byte>, at: nat, text: seq<byte>)
    requires FieldAt(block, at, text)
    ensures FieldAt(before + block + after, |before| + at, text)
  {
    var image := before + block + after;
    assert image[|before| + at..|before| + at + |text|] == block[at..at + |text|];
  }

  lemma MemberFound(before: seq<byte>, m: Member, after: seq<byte>)
    requires GoodMember(m)
    ensures MemberAt(before + MemberBytes(m) + after, |before|, m)
  {
    hide FieldAt, OctalField, RoundUp, HeaderBytes;
    HeaderSize(m);
    var h, body := HeaderBytes(m), m.data + Zeros(RoundUp(|m.data|) - |m.data|);
    HeaderHolds(m);
    Embedded(before, h, body + after, 0, m.name);
    Embedded(before, h, body + after, SIZE_FIELD, OctalField(|m.data|, SIZE_DIGITS));
    Embedded(before, h, body + after, TYPE_FIELD, TypeText(m));
    var image := before + MemberBytes(m) + after;
    assert image == before + h + (body + after);
    assert image[|before| + BLOCK..|before| + BLOCK + |m.data|] == m.data;
  }

  lemma {:induction false} MembersFound(ms: seq<Member>, after: seq<byte>, i: nat)
    requires GoodMembers(ms) && i < |ms| && after != []
    ensures MemberAt(Written(ms) + after, OffsetOf(ms, i), ms[i])
    decreases |ms|
  {
    hide MemberAt, MemberBytes, OffsetOf;
    var n := |ms| - 1;
    var last := MemberBytes(ms[n]);
    WrittenLength(ms[..n]);
    OffsetOfPrefix(ms, n, n);
    if i == n {
      MemberFound(Written(ms[..n]), ms[n], after);
    } else {
      MembersFound(ms[..n], last + after, i);
      OffsetOfPrefix(ms, n, i);
      assert Written(ms) + after == Written(ms[..n]) + (last + after);
    }
  }

  /** What the writer writes is an archive of exactly those members, which `InitTarfs` then indexes. */
  lemma WriterMakesArchive(ms: seq<Member>)
    requires GoodMembers(ms)
    ensures IsArchive(Archive(ms), ms)
  {
    hide MemberAt, OffsetOf, GoodMember;
    WrittenLength(ms);
    forall i | 0 <= i < |ms| ensures MemberAt(Archive(ms), OffsetOf(ms, i), ms[i]) {
      MembersFound(ms, Zeros(2 * BLOCK), i);
    }
    assert Archive(ms)[|Written(ms)|] == Zeros(2 * BLOCK)[0];
  }

  // ---------------------------------------------------------------- write, index, open, read

  /** Member `i` is the first with that name. */
  ghost predicate FirstMember(ms: seq<Member>, name: seq<byte>, i: nat) {
    i < |ms| && ms[i].name == name && forall j :: 0 <= j < i ==> ms[j].name != name
  }

  /** The index of an archive opens exactly its members, each by its name. */
  lemma IndexMatches(ms: seq<Member>, start: nat, name: seq<byte>, i: nat)
    ensures FirstMatch(Index(ms, start), name, i) <==> FirstMember(ms, name, i)
  {
    hide OffsetOf;
    forall j | 0 <= j < |ms| ensures Opens(Index(ms, start)[j], name) <==> ms[j].name == name {
      assert Index(ms, start)[j] == EntryFor(ms, start, j);
    }
  }

  /** The bytes a file handle gives access to, one block behind its address. */
  function Contents(image: seq<byte>, start: nat, f: File): (bs: seq<byte>)
    requires 0 <= f.size && start <= f.addr && f.addr - start + BLOCK + f.size <= |image|
  {
    image[f.addr - start + BLOCK..f.addr - start + BLOCK + f.size]
  }

  /**
   Indexing what the writer wrote and opening a name gives exactly the data of the first member of
   that name, if it is a file; a directory or an unknown name does not open.
   */
  method OpenWritten(image: seq<byte>, start: nat, list: array<TarEntry>, filename: seq<byte>,
                     ghost ms: seq<Member>) returns (r: Option<File>)
    requires GoodMembers(ms) && image == Archive(ms) && |image| <= IMAGE_LIMIT && |ms| <= list.Length
    requires Terminated(filename, 0)
    modifies list
    ensures forall i: nat :: FirstMember(ms, Str(filename, 0), i) && ms[i].directory ==> r == None
    ensures forall i: nat :: FirstMember(ms, Str(filename, 0), i) && !ms[i].directory ==>
              && r.Some? && r.value.name == Str(filename, 0) && r.value.size == |ms[i].data|
              && start <= r.value.addr && r.value.addr - start + BLOCK + r.value.size <= |image|
              && Contents(image, start, r.value) == ms[i].data
    ensures (forall i: nat :: !FirstMember(ms, Str(filename, 0), i)) ==> r == None
  {
    hide Archive, IsArchive, Terminated, Str, Index, EntryFor, GoodMember;
    WriterMakesArchive(ms);
    var count := InitTarfs(image, start, list, ms);
    assert list[..count] == Index(ms, start);
    NamesClean(ms, start);
    r := Open(list[..count], filename);
    OpenedIs(image, ms, start, Str(filename, 0), r);
  }

  lemma NamesClean(ms: seq<Member>, start: nat)
    requires GoodMembers(ms)
    ensures forall i :: 0 <= i < |ms| ==> 0 !in Index(ms, start)[i].name
  {
    forall i | 0 <= i < |ms| ensures 0 !in Index(ms, start)[i].name {
      assert GoodMember(ms[i]) && Index(ms, start)[i] == EntryFor(ms, start, i);
    }
  }

  lemma OpenedIs(image: seq<byte>, ms: seq<Member>, start: nat, name: seq<byte>, r: Option<File>)
    requires IsArchive(image, ms)
    requires forall i: nat :: FirstMatch(Index(ms, start), name, i) ==>
               r == var e := Index(ms, start)[i]; if e.kind == TYPE_FILE then Some(File(name, e.size, e.addr)) else None
    requires (forall i: nat :: !FirstMatch(Index(ms, start), name, i)) ==> r == None
    ensures forall i: nat :: FirstMember(ms, name, i) && ms[i].directory ==> r == None
    ensures forall i: nat :: FirstMember(ms, name, i) && !ms[i].directory ==>
              && r.Some? && r.value.name == name && r.value.size == |ms[i].data|
              && start <= r.value.addr && r.value.addr - start + BLOCK + r.value.size <= |image|
              && Contents(image, start, r.value) == ms[i].data
    ensures (forall i: nat :: !FirstMember(ms, name, i)) ==> r == None
  {
    hide IsArchive, OffsetOf;
    forall i: nat ensures FirstMatch(Index(ms, start), name, i) <==> FirstMember(ms, name, i) {
      IndexMatches(ms, start, name, i);
    }
    forall i: nat | FirstMember(ms, name, i)
      ensures Index(ms, start)[i] == EntryFor(ms, start, i) && start <= Index(ms, start)[i].addr
      ensures Index(ms, start)[i].addr - start + BLOCK + Index(ms, start)[i].size <= |image|
      ensures Index(ms, start)[i].size == |ms[i].data|
      ensures image[Index(ms, start)[i].addr - start + BLOCK..Index(ms, start)[i].addr - start + BLOCK
              + Index(ms, start)[i].size] == ms[i].data
    {
      OpenedContents(image, ms, start, i);
    }
  }
}
