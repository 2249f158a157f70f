/** The ustar header, field by field, as an archiver writes it. */
module TarHeader {
  import opened Bytes
  import opened Structs
  import opened Ustar
  import opened Tarfs

  datatype HeaderName = Name | Mode | Uid | Gid | FileSize | Mtime | Checksum | TypeFlag | LinkName | Magic | Version
                      | Uname | Gname | DevMajor | DevMinor | Prefix | Pad

  function Chars(name: HeaderName, width: nat): Field<HeaderName> {
    Field(name, width, 1)
  }

  const HEADER := [
    Chars(Name, 100), Chars(Mode, 8), Chars(Uid, 8), Chars(Gid, 8), Chars(FileSize, 12), Chars(Mtime, 12),
    Chars(Checksum, 8), Chars(TypeFlag, 1), Chars(LinkName, 100), Chars(Magic, 6), Chars(Version, 2),
    Chars(Uname, 32), Chars(Gname, 32), Chars(DevMajor, 8), Chars(DevMinor, 8), Chars(Prefix, 155), Chars(Pad, 12)
  ]

  /** What the archiver writes into a field; the fields that nobody reads here stay empty. */
  function FieldText(m: Member, name: HeaderName): seq<byte> {
    match name
    case Name => m.name
    case FileSize => OctalField(|m.data|, SIZE_DIGITS)
    case TypeFlag => if m.directory then ['5' as byte] else ['0' as byte]
    case _ => []
  }

  /** The text in its field, filled up with NUL bytes. */
  function Padded(text: seq<byte>, width: nat): (s: seq<byte>)
    ensures |s| == width
  {
    if |text| <= width then text + Zeros(width - |text|) else text[..width]
  }

  /** The first `k` fields of a header. */
  function HeaderUpTo(m: Member, k: nat): (s: seq<byte>)
    requires k <= |HEADER|
    decreases k
  {
    if k == 0 then [] else HeaderUpTo(m, k - 1) + Padded(FieldText(m, HEADER[k - 1].name), HEADER[k - 1].size)
  }

  lemma Unaligned(i: nat)
    requires i < |HEADER|
    ensures HEADER[i].align == 1
  {
  }

  lemma OffsetStep(k: nat)
    requires k < |HEADER|
    ensures FieldOffset(HEADER, k + 1) == FieldOffset(HEADER, k) + HEADER[k].size
  {
    OffsetAfter(HEADER, k, FieldOffset(HEADER, k));
    hide FieldOffset, HEADER;
    if k + 1 < |HEADER| {
      Unaligned(k + 1);
    }
  }

  lemma {:induction false} HeaderLength(m: Member, k: nat)
    requires k <= |HEADER|
    ensures |HeaderUpTo(m, k)| == FieldOffset(HEADER, k)
    decreases k
  {
    hide HEADER, FieldText;
    if k == 0 {
      OffsetOfFirst(HEADER);
    } else {
      HeaderLength(m, k - 1);
      OffsetStep(k - 1);
    }
  }

  /** The header that the archiver writes for a member. */
  function HeaderBytes(m: Member): (s: seq<byte>) {
    HeaderUpTo(m, |HEADER|)
  }

  // ---------------------------------------------------------------- offsets

  /** The offsets and the size that the index uses are those of the structure. */
  lemma HeaderOffsets()
    ensures |HEADER| == 17 && HEADER[0].name == Name && HEADER[4].name == FileSize && HEADER[7].name == TypeFlag
    ensures FieldOffset(HEADER, 0) == 0 && FieldOffset(HEADER, 4) == SIZE_FIELD && FieldOffset(HEADER, 7) == TYPE_FIELD
    ensures FieldOffset(HEADER, 17) == SizeOf(HEADER, 1) == BLOCK
  {
    hide FieldOffset;
    OffsetOfFirst(HEADER);
    OffsetStep(0);
    OffsetStep(1);
    OffsetStep(2);
    OffsetStep(3);
    OffsetStep(4);
    OffsetStep(5);
    OffsetStep(6);
    LaterOffsets();
  }

  lemma LaterOffsets()
    requires FieldOffset(HEADER, 7) == 156
    ensures FieldOffset(HEADER, 17) == 512
  {
    hide FieldOffset;
    OffsetStep(7);
    OffsetStep(8);
    OffsetStep(9);
    OffsetStep(10);
    OffsetStep(11);
    OffsetStep(12);
    OffsetStep(13);
    OffsetStep(14);
    OffsetStep(15);
    OffsetStep(16);
  }

  lemma HeaderSize(m: Member)
    ensures |HeaderBytes(m)| == BLOCK
  {
    hide HeaderUpTo, FieldOffset;
    HeaderOffsets();
    HeaderLength(m, 17);
  }

  // ---------------------------------------------------------------- fields in place

  /** A field found in the first fields is found in all of them. */
  lemma {:induction false} FoundInAll(m: Member, k: nat, n: nat, at: nat, text: seq<byte>)
    requires k <= n <= |HEADER| && FieldAt(HeaderUpTo(m, k), at, text)
    ensures FieldAt(HeaderUpTo(m, n), at, text)
    decreases n - k
  {
    hide FieldText;
    if k < n {
      var s, t := HeaderUpTo(m, k), HeaderUpTo(m, k + 1);
      assert t[..|s|] == s;
      assert t[at..at + |text|] == s[at..at + |text|];
      FoundInAll(m, k + 1, n, at, text);
    }
  }

  lemma InLastField(a: seq<byte>, text: seq<byte>, width: nat)
    requires |text| < width
    ensures FieldAt(a + Padded(text, width), |a|, text)
  {
    var s := a + Padded(text, width);
    assert s[|a|..|a| + |text|] == text && s[|a| + |text|] == 0;
  }

  /** A text that is shorter than its field is terminated inside it. */
  lemma ShortField(m: Member, k: nat)
    requires k < |HEADER| && |FieldText(m, HEADER[k].name)| < HEADER[k].size
    ensures FieldAt(HeaderBytes(m), FieldOffset(HEADER, k), FieldText(m, HEADER[k].name))
  {
    hide FieldOffset, FieldText, HEADER;
    HeaderLength(m, k);
    InLastField(HeaderUpTo(m, k), FieldText(m, HEADER[k].name), HEADER[k].size);
    FoundInAll(m, k + 1, |HEADER|, FieldOffset(HEADER, k), FieldText(m, HEADER[k].name));
  }

  /** A text that fills its field is terminated by the empty field behind it. */
  lemma FullField(m: Member, k: nat)
    requires k + 1 < |HEADER| && |FieldText(m, HEADER[k].name)| == HEADER[k].size
    requires FieldText(m, HEADER[k + 1].name) == [] && HEADER[k + 1].size > 0
    ensures FieldAt(HeaderBytes(m), FieldOffset(HEADER, k), FieldText(m, HEADER[k].name))
  {
    hide FieldOffset, FieldText;
    HeaderLength(m, k);
    var a, text := HeaderUpTo(m, k), FieldText(m, HEADER[k].name);
    var b, c := a + Padded(text, HEADER[k].size), Padded([], HEADER[k + 1].size);
    assert Padded(text, HEADER[k].size) == text;
    assert HeaderUpTo(m, k + 1) == b && HeaderUpTo(m, k + 2) == b + c;
    assert (b + c)[|a|..|a| + |text|] == text && (b + c)[|a| + |text|] == c[0] == 0;
    FoundInAll(m, k + 2, |HEADER|, FieldOffset(HEADER, k), text);
  }

  /** The three fields that the index reads are where it looks for them. */
  lemma HeaderHolds(m: Member)
    requires |m.name| <= 99
    ensures FieldAt(HeaderBytes(m), 0, m.name)
    ensures FieldAt(HeaderBytes(m), SIZE_FIELD, OctalField(|m.data|, SIZE_DIGITS))
    ensures FieldAt(HeaderBytes(m), TYPE_FIELD, TypeText(m))
  {
    hide FieldOffset, HeaderBytes, FieldAt, OctalField;
    HeaderOffsets();
    ShortField(m, 0);
    ShortField(m, 4);
    FullField(m, 7);
  }
}
