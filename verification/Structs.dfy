/** C structures, laid out by the x86-64 rules. */
module Structs {
  /** A field: what it is called, its size, and its alignment. */
  datatype Field<N> = Field(name: N, size: nat, align: nat)

  /** Alignments are 1, 4 and 8 bytes. */
  function AlignUp(n: nat, a: nat): (r: nat)
    ensures n <= r
  {
    if a == 8 then (n + 7) / 8 * 8 else if a == 4 then (n + 3) / 4 * 4 else n
  }

  /** Where field `i` starts; for `i` the number of fields, where the last one ends. */
  function FieldOffset<N>(fs: seq<Field<N>>, i: nat): (o: nat)
    requires i <= |fs|
    decreases i
  {
    if i == 0 then 0
    else
      var end := FieldOffset(fs, i - 1) + fs[i - 1].size;
      if i < |fs| then AlignUp(end, fs[i].align) else end
  }

  function SizeOf<N>(fs: seq<Field<N>>, align: nat): nat {
    AlignUp(FieldOffset(fs, |fs|), align)
  }

  function Scalar<N>(name: N, size: nat): Field<N> {
    Field(name, size, size)
  }

  lemma OffsetAfter<N>(fs: seq<Field<N>>, i: nat, at: nat)
    requires i < |fs| && FieldOffset(fs, i) == at
    ensures FieldOffset(fs, i + 1) ==
              if i + 1 < |fs| then AlignUp(at + fs[i].size, fs[i + 1].align) else at + fs[i].size
  {
  }

  lemma OffsetOfFirst<N>(fs: seq<Field<N>>)
    ensures FieldOffset(fs, 0) == 0
  {
  }
}
