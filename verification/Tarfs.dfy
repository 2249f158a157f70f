/** The read-only file system: the index built from an archive, and `open`. */
module Tarfs {
  import opened Basics
  import opened Bytes
  import opened CStrings
  import opened Numbers
  import opened Ustar

  // ---------------------------------------------------------------- archives

  function RoundUp(n: nat): (r: nat)
    ensures n <= r < n + BLOCK && r % BLOCK == 0
  {
    (n + BLOCK - 1) / BLOCK * BLOCK
  }

  /** Where member `i` starts: headers and padded contents before it, summed up. */
  function OffsetOf(ms: seq<Member>, i: nat): (off: nat)
    requires i <= |ms|
    decreases i
  {
    if i == 0 then 0 else OffsetOf(ms, i - 1) + BLOCK + RoundUp(|ms[i - 1].data|)
  }

  ghost predicate GoodMember(m: Member) {
    && 1 <= |m.name| <= 99 && 0 !in m.name
    && |m.data| <= LARGEST_SIZE
  }

  ghost predicate FieldAt(image: seq<byte>, at: nat, text: seq<byte>) {
    at + |text| < |image| && image[at..at + |text|] == text && image[at + |text|] == 0
  }

  function TypeText(m: Member): seq<byte> {
    [ZERO + if m.directory then TYPE_DIRECTORY else TYPE_FILE]
  }

  /** The header fields the index reads, and the contents behind the header. */
  ghost predicate MemberAt(image: seq<byte>, at: nat, m: Member) {
    && GoodMember(m)
    && FieldAt(image, at, m.name)
    && FieldAt(image, at + SIZE_FIELD, OctalField(|m.data|, SIZE_DIGITS))
    && FieldAt(image, at + TYPE_FIELD, TypeText(m))
    && at + BLOCK + |m.data| <= |image|
    && image[at + BLOCK..at + BLOCK + |m.data|] == m.data
  }

  /** An archive of `ms`: the members one after the other, then a header with an empty name. */
  ghost predicate IsArchive(image: seq<byte>, ms: seq<Member>) {
    && (forall i :: 0 <= i < |ms| ==> MemberAt(image, OffsetOf(ms, i), ms[i]))
    && OffsetOf(ms, |ms|) < |image| && image[OffsetOf(ms, |ms|)] == 0
  }

  // ---------------------------------------------------------------- the index

  /** What the index must say about member `i` of an archive that is loaded at `start`. */
  function EntryFor(ms: seq<Member>, start: nat, i: nat): TarEntry
    requires i < |ms|
  {
    TarEntry(ms[i].name, |ms[i].data|, start + OffsetOf(ms, i), if ms[i].directory then TYPE_DIRECTORY else TYPE_FILE)
  }

  lemma FieldIsString(image: seq<byte>, at: nat, text: seq<byte>)
    requires FieldAt(image, at, text) && 0 !in text
    ensures Terminated(image, at) && Str(image, at) == text
  {
    StrIs(image, at, text);
  }

  lemma TypeDecodes(m: Member)
    ensures 0 !in TypeText(m) && AtoiValue(TypeText(m)) == if m.directory then TYPE_DIRECTORY else TYPE_FILE
  {
    var t := TypeText(m);
    assert t[..0] == [] && Accumulate([]) == 0;
    assert Accumulate(t) == Wrap32(Accumulate(t[..0]) * 10 + SignedChar(t[0]) - ZERO);
  }

  lemma OctalHasNoNul(s: seq<byte>)
    requires DigitsBelow(s, 8)
    ensures 0 !in s
  {
  }

  /** One header of `init_tarfs`. */
  method ReadHeader(image: seq<byte>, at: nat, start: nat, ghost m: Member) returns (e: TarEntry)
    requires MemberAt(image, at, m)
    ensures e == TarEntry(m.name, |m.data|, start + at, if m.directory then TYPE_DIRECTORY else TYPE_FILE)
  {
    hide OctalField, AtoiValue, OctToDec, Str;
    FieldIsString(image, at, m.name);
    OctalHasNoNul(OctalField(|m.data|, SIZE_DIGITS));
    FieldIsString(image, at + SIZE_FIELD, OctalField(|m.data|, SIZE_DIGITS));
    TypeDecodes(m);
    FieldIsString(image, at + TYPE_FIELD, TypeText(m));
    SizeDecodes(|m.data|);
    var octal := Atoi(image, at + SIZE_FIELD);
    var decoded := OctTodec(octal % WORD_LIMIT);
    var size := Wrap32(decoded);
    var kind := Atoi(image, at + TYPE_FIELD);
    var n := StrLen(image, at);
    e := TarEntry(image[at..at + n], size, start + at, kind);
  }

  /** The step from one header to the next. */
  function SkipFrom(size: nat): (r: nat)
    ensures r == BLOCK + RoundUp(size)
  {
    if size == 0 then BLOCK
    else if size % BLOCK == 0 then size + BLOCK
    else size + (BLOCK - size % BLOCK) + BLOCK
  }

  /** The archive is linked into the kernel, and the kernel lives in the last 2 GiB of addresses. */
  const IMAGE_LIMIT := 0x8000_0000

  /** The offset that `int temp_ptr` holds at member `i`. */
  function TempPtr(ms: seq<Member>, i: nat): (r: int)
    requires i <= |ms|
    decreases i
  {
    if i == 0 then 0 else Wrap32(TempPtr(ms, i - 1) + SkipFrom(|ms[i - 1].data|))
  }

  /** It holds the offset of the member exactly as long as that is below 2 GiB. */
  lemma {:induction false} TempPtrIff(ms: seq<Member>, i: nat)
    requires i <= |ms|
    ensures TempPtr(ms, i) == Wrap32(OffsetOf(ms, i))
    ensures TempPtr(ms, i) == OffsetOf(ms, i) <==> OffsetOf(ms, i) < IMAGE_LIMIT
    decreases i
  {
    if i == 0 {
      assert OffsetOf(ms, 0) == 0;
    } else {
      TempPtrIff(ms, i - 1);
      NextOffset(ms, i - 1);
      WrapAdd(OffsetOf(ms, i - 1), SkipFrom(|ms[i - 1].data|));
    }
  }

  lemma WrapAdd(x: int, y: int)
    ensures Wrap32(Wrap32(x) + y) == Wrap32(x + y)
  {
    var q := (x - Wrap32(x)) / 0x1_0000_0000;
    assert x == Wrap32(x) + q * 0x1_0000_0000;
    WrapMultiple(Wrap32(x) + y, q);
  }

  /** `init_tarfs`: on every archive of at most 1024 members it indexes exactly those members. */
  method InitTarfs(image: seq<byte>, start: nat, list: array<TarEntry>, ghost ms: seq<Member>) returns (count: nat)
    requires IsArchive(image, ms) && |ms| <= list.Length && |image| <= IMAGE_LIMIT
    modifies list
    ensures count == |ms| && forall i :: 0 <= i < |ms| ==> list[i] == EntryFor(ms, start, i)
  {
    hide IsArchive, MemberAt, OffsetOf, Str, Terminated, TempPtr, Wrap32;
    count := 0;
    var tempPtr := 0;
    HeaderHere(image, ms, 0);
    var len := StrLen(image, tempPtr);
    while len > 0
      invariant 0 <= count <= |ms| && tempPtr == OffsetOf(ms, count) == TempPtr(ms, count)
      invariant len > 0 <==> count < |ms|
      invariant forall i :: 0 <= i < count ==> list[i] == EntryFor(ms, start, i)
      decreases |ms| - count
    {
      MemberIn(image, ms, count);
      var e := ReadHeader(image, tempPtr, start, ms[count]);
      list[count] := e;
      NextTempPtr(ms, count);
      tempPtr := Wrap32(tempPtr + SkipFrom(e.size));
      count := count + 1;
      HeaderHere(image, ms, count);
      len := StrLen(image, tempPtr);
    }
  }

  lemma NextTempPtr(ms: seq<Member>, i: nat)
    requires i < |ms|
    ensures TempPtr(ms, i + 1) == Wrap32(TempPtr(ms, i) + SkipFrom(|ms[i].data|))
  {
  }

  lemma HeaderHere(image: seq<byte>, ms: seq<Member>, i: nat)
    requires IsArchive(image, ms) && i <= |ms| && |image| <= IMAGE_LIMIT
    ensures TempPtr(ms, i) == OffsetOf(ms, i) && (i == 0 ==> OffsetOf(ms, i) == 0)
    ensures Terminated(image, OffsetOf(ms, i)) && (|Str(image, OffsetOf(ms, i))| > 0 <==> i < |ms|)
  {
    hide IsArchive, Str, Wrap32, TempPtr;
    FirstOffset(ms);
    HeaderName(image, ms, i);
    TempPtrIff(ms, i);
  }

  lemma FirstOffset(ms: seq<Member>)
    ensures OffsetOf(ms, 0) == 0
  {
  }

  lemma NextOffset(ms: seq<Member>, i: nat)
    requires i < |ms|
    ensures OffsetOf(ms, i + 1) == OffsetOf(ms, i) + BLOCK + RoundUp(|ms[i].data|)
  {
  }

  lemma NameField(image: seq<byte>, at: nat, m: Member)
    requires MemberAt(image, at, m)
    ensures Terminated(image, at) && Str(image, at) == m.name && m.name != []
  {
    hide OctalField, Str;
    FieldIsString(image, at, m.name);
  }

  lemma HeaderName(image: seq<byte>, ms: seq<Member>, i: nat)
    requires IsArchive(image, ms) && i <= |ms|
    ensures Terminated(image, OffsetOf(ms, i)) && (|Str(image, OffsetOf(ms, i))| > 0 <==> i < |ms|)
  {
    hide OffsetOf, Str, OctalField;
    if i < |ms| {
      MemberIn(image, ms, i);
      NameField(image, OffsetOf(ms, i), ms[i]);
    } else {
      StrIs(image, OffsetOf(ms, i), []);
    }
  }

  // ---------------------------------------------------------------- open

  datatype File = File(name: seq<byte>, size: int, addr: nat)

  predicate Opens(e: TarEntry, name: seq<byte>) {
    e.name == name && (e.kind == TYPE_FILE || e.kind == TYPE_DIRECTORY)
  }

  ghost predicate FirstMatch(list: seq<TarEntry>, name: seq<byte>, i: nat) {
    i < |list| && Opens(list[i], name) && forall j :: 0 <= j < i ==> !Opens(list[j], name)
  }

  lemma FirstMatchIs(list: seq<TarEntry>, name: seq<byte>, i: nat)
    requires i < |list| && Opens(list[i], name) && forall j :: 0 <= j < i ==> !Opens(list[j], name)
    ensures forall k: nat :: FirstMatch(list, name, k) <==> k == i
  {
  }

  lemma SameName(filename: seq<byte>, name: seq<byte>)
    requires Terminated(filename, 0) && 0 !in name
    ensures Terminated(name + [0], 0)
    ensures StrCmp(filename, 0, name + [0], 0) == 1 <==> Str(filename, 0) == name
  {
    StrIs(name + [0], 0, name);
    StrCmpIsEquality(filename, 0, name + [0], 0);
  }

  /** `open`: the first entry of that name decides; a directory does not open. */
  method Open(list: seq<TarEntry>, filename: seq<byte>) returns (r: Option<File>)
    requires Terminated(filename, 0) && forall i :: 0 <= i < |list| ==> 0 !in list[i].name
    ensures forall i: nat :: FirstMatch(list, Str(filename, 0), i) ==>
              r == if list[i].kind == TYPE_FILE then Some(File(Str(filename, 0), list[i].size, list[i].addr)) else None
    ensures (forall i: nat :: !FirstMatch(list, Str(filename, 0), i)) ==> r == None
  {
    hide Str, StrCmp, Terminated;
    ghost var name := Str(filename, 0);
    var i := 0;
    while i < |list|
      invariant 0 <= i <= |list| && forall j :: 0 <= j < i ==> !Opens(list[j], name)
    {
      var entry := list[i];
      SameName(filename, entry.name);
      var cmp := StrCmp(filename, 0, entry.name + [0], 0);
      if cmp == 1 && entry.kind == TYPE_FILE {
        FirstMatchIs(list, name, i);
        return Some(File(entry.name, entry.size, entry.addr));
      } else if cmp == 1 && entry.kind == TYPE_DIRECTORY {
        FirstMatchIs(list, name, i);
        return None;
      }
      i := i + 1;
    }
    return None;
  }

  function Index(ms: seq<Member>, start: nat): (r: seq<TarEntry>)
    ensures |r| == |ms| && forall i :: 0 <= i < |ms| ==> r[i] == EntryFor(ms, start, i)
  {
    seq(|ms|, i requires 0 <= i < |ms| => EntryFor(ms, start, i))
  }

  /** A file opened from the index of an archive has its member's contents one block after its address. */
  lemma OpenedContents(image: seq<byte>, ms: seq<Member>, start: nat, i: nat)
    requires IsArchive(image, ms) && i < |ms|
    ensures var e := Index(ms, start)[i];
            && start <= e.addr && e.addr - start + BLOCK + e.size <= |image| && e.size == |ms[i].data|
            && image[e.addr - start + BLOCK..e.addr - start + BLOCK + e.size] == ms[i].data
  {
    hide IsArchive, OffsetOf, FieldAt, GoodMember;
    MemberIn(image, ms, i);
    assert Index(ms, start)[i].addr - start == OffsetOf(ms, i);
  }

  lemma MemberIn(image: seq<byte>, ms: seq<Member>, i: nat)
    requires IsArchive(image, ms) && i < |ms|
    ensures MemberAt(image, OffsetOf(ms, i), ms[i])
  {
    hide MemberAt, OffsetOf;
  }
}
