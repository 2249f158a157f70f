/** NUL-terminated strings in byte buffers. */
module CStrings {
  import opened Bytes

  /** The bytes from `i` up to the first NUL, or to the end of the buffer when there is none. */
  function Str(s: seq<byte>, i: nat): (r: seq<byte>)
    requires i <= |s|
    ensures i + |r| <= |s| && r == s[i..i + |r|]
    ensures forall k :: 0 <= k < |r| ==> r[k] != 0
    ensures i + |r| < |s| ==> s[i + |r|] == 0
    decreases |s| - i
  {
    if i == |s| || s[i] == 0 then [] else [s[i]] + Str(s, i + 1)
  }

  ghost predicate Terminated(s: seq<byte>, i: nat) {
    i <= |s| && i + |Str(s, i)| < |s|
  }

  /** A NUL-free run that is followed by a NUL is the string there. */
  lemma {:induction false} StrIs(s: seq<byte>, i: nat, t: seq<byte>)
    requires i + |t| < |s| && s[i..i + |t|] == t && s[i + |t|] == 0 && 0 !in t
    ensures Str(s, i) == t && Terminated(s, i)
    decreases |t|
  {
    if t != [] {
      assert s[i] == t[0] && s[i + 1..i + |t|] == t[1..];
      StrIs(s, i + 1, t[1..]);
    }
  }

  /** The NUL is found at the end of the string and not before. */
  lemma EndsAt(s: seq<byte>, i: nat, k: nat)
    requires Terminated(s, i) && k <= |Str(s, i)|
    ensures s[i + k] == 0 <==> k == |Str(s, i)|
    ensures k < |Str(s, i)| ==> s[i + k] == Str(s, i)[k]
  {
  }

  /** `str_len`. */
  method StrLen(s: seq<byte>, from: nat) returns (n: nat)
    requires Terminated(s, from)
    ensures n == |Str(s, from)|
  {
    n := 0;
    ghost var t := Str(s, from);
    EndsAt(s, from, 0);
    while s[from + n] != 0
      invariant n <= |t| && (s[from + n] == 0 <==> n == |t|)
      decreases |t| - n
    {
      n := n + 1;
      EndsAt(s, from, n);
    }
  }

  /** `str_cmp`: 1 for equal strings and -1 otherwise. */
  function StrCmp(a: seq<byte>, i: nat, b: seq<byte>, j: nat): (r: int)
    requires Terminated(a, i) && Terminated(b, j)
    ensures r == 1 || r == -1
    decreases |a| - i
  {
    if a[i] == b[j] && a[i] == 0 then 1
    else if a[i] == b[j] then
      assert Str(a, i) == [a[i]] + Str(a, i + 1) && Str(b, j) == [b[j]] + Str(b, j + 1);
      StrCmp(a, i + 1, b, j + 1)
    else -1
  }

  lemma {:induction false} StrCmpIsEquality(a: seq<byte>, i: nat, b: seq<byte>, j: nat)
    requires Terminated(a, i) && Terminated(b, j)
    ensures StrCmp(a, i, b, j) == 1 <==> Str(a, i) == Str(b, j)
    decreases |a| - i
  {
    if a[i] == b[j] && a[i] != 0 {
      assert Str(a, i) == [a[i]] + Str(a, i + 1) && Str(b, j) == [b[j]] + Str(b, j + 1);
      StrCmpIsEquality(a, i + 1, b, j + 1);
      assert Str(a, i)[1..] == Str(a, i + 1) && Str(b, j)[1..] == Str(b, j + 1);
    } else {
      assert a[i] != 0 ==> Str(a, i)[0] == a[i];
      assert b[j] != 0 ==> Str(b, j)[0] == b[j];
    }
  }

  /** `str_cpy`. */
  method StrCpy(to: array<byte>, from: seq<byte>, start: nat)
    requires Terminated(from, start) && |Str(from, start)| < to.Length
    modifies to
    ensures Terminated(to[..], 0) && Str(to[..], 0) == Str(from, start)
    ensures forall k :: |Str(from, start)| < k < to.Length ==> to[k] == old(to[k])
  {
    ghost var t := Str(from, start);
    var i := 0;
    EndsAt(from, start, 0);
    while from[start + i] != 0
      invariant 0 <= i <= |t| && (from[start + i] == 0 <==> i == |t|)
      invariant forall k :: 0 <= k < i ==> to[k] == t[k]
      invariant forall k :: i <= k < to.Length ==> to[k] == old(to[k])
      decreases |t| - i
    {
      to[i] := from[start + i];
      i := i + 1;
      EndsAt(from, start, i);
    }
    to[i] := 0;
    StrIs(to[..], 0, t);
  }

  function Reversed(s: seq<byte>): (r: seq<byte>)
    ensures |r| == |s| && forall k :: 0 <= k < |s| ==> r[k] == s[|s| - 1 - k]
  {
    seq(|s|, k requires 0 <= k < |s| => s[|s| - 1 - k])
  }

  /** `str_reverse`. */
  method StrReverse(s: seq<byte>, dest: array<byte>)
    requires Terminated(s, 0) && |Str(s, 0)| < dest.Length
    modifies dest
    ensures Terminated(dest[..], 0) && Str(dest[..], 0) == Reversed(Str(s, 0))
  {
    var len := StrLen(s, 0);
    ghost var t := Str(s, 0);
    var i := 0;
    while i < len
      invariant 0 <= i <= len
      invariant forall k :: 0 <= k < i ==> dest[k] == t[len - 1 - k]
    {
      dest[i] := s[len - 1 - i];
      i := i + 1;
    }
    dest[i] := 0;
    StrIs(dest[..], 0, Reversed(t));
  }
}
