/** Bytes inside 64-bit words, least significant first. */
module Bytes {
  import opened Basics

  type byte = x: int | 0 <= x < 256

  const NEWLINE: byte := 10

  function Byte(w: nat, k: nat): byte {
    if k == 0 then w % 256 else Byte(w / 256, k - 1)
  }

  function Zeros(n: nat): (bs: seq<byte>)
    ensures |bs| == n && forall i :: 0 <= i < n ==> bs[i] == 0
  {
    seq(n, _ => 0)
  }

  function SetByte(w: nat, k: nat, b: byte): nat {
    if k == 0 then w / 256 * 256 + b else SetByte(w / 256, k - 1, b) * 256 + w % 256
  }

  function Limit(n: nat): nat {
    if n == 0 then 1 else 256 * Limit(n - 1)
  }

  lemma {:induction false} SetByteBound(w: nat, k: nat, b: byte, n: nat)
    requires k < n && w < Limit(n)
    ensures SetByte(w, k, b) < Limit(n)
    decreases k
  {
    var top := Limit(n - 1);
    assert w / 256 < top;
    if k > 0 {
      SetByteBound(w / 256, k - 1, b, n - 1);
    }
  }

  lemma WordLimit()
    ensures Limit(8) == WORD_LIMIT
  {
    assert Limit(2) == 0x1_0000;
    assert Limit(4) == 0x1_0000_0000;
    assert Limit(6) == 0x1_0000_0000_0000;
  }

  /** A stored byte reads back, and the other bytes of the word stay. */
  lemma {:induction false} SetByteReads(w: nat, k: nat, b: byte, j: nat)
    ensures Byte(SetByte(w, k, b), j) == if j == k then b else Byte(w, j)
    decreases k
  {
    if k > 0 && j > 0 {
      SetByteReads(w / 256, k - 1, b, j - 1);
    }
  }

  function StoreInWord(w: u64, k: nat, b: byte): u64
    requires k < 8
  {
    WordLimit();
    SetByteBound(w, k, b, 8);
    SetByte(w, k, b)
  }

  lemma {:induction false} ZeroBytes(k: nat)
    ensures Byte(0, k) == 0
  {
    if k > 0 {
      ZeroBytes(k - 1);
    }
  }
}
