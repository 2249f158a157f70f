/** Small shared definitions: optional values and 64-bit machine words. */
module Basics {

  datatype Option<+T> = None | Some(value: T)

  const WORD_LIMIT: int := 0x1_0000_0000_0000_0000

  /** An unsigned 64-bit value (`uint64_t`). */
  type u64 = x: int | 0 <= x < 0x1_0000_0000_0000_0000

  /** The sequence without the element at `i`. */
  function RemoveAt<T>(s: seq<T>, i: nat): (r: seq<T>)
    requires i < |s|
    ensures |r| == |s| - 1
    ensures forall k :: 0 <= k < |r| ==> r[k] == s[if k < i then k else k + 1]
  {
    s[..i] + s[i + 1..]
  }
}
