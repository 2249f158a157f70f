/** Reading a file line by line: one cursor, shared by all open files, moved by `readline` and reset by `close`. */
module TarReader {
  import opened Basics
  import opened Bytes
  import opened CStrings

  const INT_LIMIT := 0x8000_0000

  // ---------------------------------------------------------------- one call

  /** The number of bytes before the first newline among the first `limit` bytes from `pos` on. */
  function LineLength(data: seq<byte>, pos: nat, limit: nat): (k: nat)
    requires pos + limit <= |data|
    ensures k <= limit && NEWLINE !in data[pos..pos + k]
    ensures k < limit ==> data[pos + k] == NEWLINE
    decreases limit
  {
    if limit == 0 || data[pos] == NEWLINE then 0
    else
      var k := 1 + LineLength(data, pos + 1, limit - 1);
      assert data[pos..pos + k] == [data[pos]] + data[pos + 1..pos + k];
      k
  }

  function Budget(data: seq<byte>, pos: nat, bytes: nat): nat
    requires pos <= |data|
  {
    if bytes <= |data| - pos then bytes else |data| - pos
  }

  /** The bytes `readline` leaves in the buffer: the line, cut at the first NUL. */
  function Piece(data: seq<byte>, pos: nat, bytes: nat): (p: seq<byte>)
    requires pos <= |data|
  {
    Str(data[pos..pos + LineLength(data, pos, Budget(data, pos, bytes))], 0)
  }

  /** Whether the call meets a newline, which it consumes. */
  predicate MeetsNewline(data: seq<byte>, pos: nat, bytes: nat)
    requires pos <= |data|
  {
    LineLength(data, pos, Budget(data, pos, bytes)) < Budget(data, pos, bytes)
  }

  function Advance(data: seq<byte>, pos: nat, bytes: nat): nat
    requires pos <= |data|
  {
    pos + |Piece(data, pos, bytes)| + if MeetsNewline(data, pos, bytes) then 1 else 0
  }

  /** The loop of `readline`. */
  method CopyLine(data: seq<byte>, pos: nat, limit: nat, buf: array<byte>) returns (i: nat, met: bool)
    requires pos + limit <= |data| && limit < buf.Length
    modifies buf
    ensures i == LineLength(data, pos, limit) && (met <==> i < limit) && buf[..i] == data[pos..pos + i]
  {
    ghost var k := LineLength(data, pos, limit);
    hide LineLength;
    i, met := 0, false;
    while i < limit && !met
      invariant 0 <= i <= k && (met ==> i == k < limit)
      invariant forall j :: 0 <= j < i ==> buf[j] == data[pos + j]
      decreases limit - i, !met
    {
      NextByte(data, pos, limit, i);
      if data[pos + i] == NEWLINE {
        met := true;
      } else {
        buf[i] := data[pos + i];
        i := i + 1;
      }
    }
  }

  lemma CallIs(data: seq<byte>, pos: nat, bytes: nat, i: nat)
    requires pos <= |data| && i == LineLength(data, pos, Budget(data, pos, bytes))
    ensures Piece(data, pos, bytes) == Str(data[pos..pos + i], 0)
    ensures MeetsNewline(data, pos, bytes) <==> i < Budget(data, pos, bytes)
    ensures Advance(data, pos, bytes) == pos + |Piece(data, pos, bytes)| + if i < Budget(data, pos, bytes) then 1 else 0
  {
  }

  /** The NUL behind the line, and the length the caller gets to see. */
  method Finish(buf: array<byte>, i: nat, ghost line: seq<byte>) returns (n: nat)
    requires i < buf.Length && buf[..i] == line && |line| == i
    modifies buf
    ensures Terminated(buf[..], 0) && Str(buf[..], 0) == Str(line, 0) && n == |Str(line, 0)|
  {
    buf[i] := 0;
    CutAtNul(buf[..], line);
    n := StrLen(buf[..], 0);
  }

  /** What a call sees: the file, or with a cursor behind its end everything in memory. */
  function Visible(mem: seq<byte>, size: nat, pos: nat): (data: seq<byte>)
    requires size <= |mem|
    ensures pos <= |mem| ==> pos <= |data|
  {
    if pos <= size then mem[..size] else mem
  }

  /** The number of bytes to read: the smaller of the limit and of the rest of the file, which is taken as unsigned. */
  function BytesToRead(size: nat, pos: nat, bytes: nat): nat {
    var left := (size - pos) % WORD_LIMIT;
    if bytes <= left then bytes else left
  }

  lemma BudgetOfCall(mem: seq<byte>, size: nat, pos: nat, bytes: nat)
    requires size <= |mem| && (pos > size ==> pos + bytes <= |mem|) && size < INT_LIMIT && pos < INT_LIMIT
    requires bytes < INT_LIMIT
    ensures var data := Visible(mem, size, pos);
            data <= mem && BytesToRead(size, pos, bytes) <= bytes && pos + BytesToRead(size, pos, bytes) <= |data|
              && Budget(data, pos, bytes) == BytesToRead(size, pos, bytes)
  {
    if pos > size {
      assert (size - pos) % WORD_LIMIT == size - pos + WORD_LIMIT;
    } else {
      assert (size - pos) % WORD_LIMIT == size - pos;
    }
  }

  lemma {:induction false} SameLine(mem: seq<byte>, data: seq<byte>, pos: nat, limit: nat)
    requires data <= mem && pos + limit <= |data|
    ensures LineLength(mem, pos, limit) == LineLength(data, pos, limit)
    ensures mem[pos..pos + LineLength(data, pos, limit)] == data[pos..pos + LineLength(data, pos, limit)]
    decreases limit
  {
    assert limit > 0 ==> mem[pos] == data[pos];
    if limit > 0 && data[pos] != NEWLINE {
      SameLine(mem, data, pos + 1, limit - 1);
    }
  }

  /** The rest of `readline`, once it is known how many bytes to read. */
  method ReadFrom(mem: seq<byte>, pos: nat, limit: nat, buf: array<byte>, ghost data: seq<byte>, ghost bytes: nat)
    returns (n: nat, met: bool)
    requires data <= mem && pos + limit <= |data| && limit == Budget(data, pos, bytes) && limit < buf.Length
    modifies buf
    ensures Terminated(buf[..], 0) && Str(buf[..], 0) == Piece(data, pos, bytes) && n == |Piece(data, pos, bytes)|
    ensures Advance(data, pos, bytes) == pos + n + if met then 1 else 0
  {
    hide LineLength, Str, Terminated, Piece, MeetsNewline, Advance;
    SameLine(mem, data, pos, limit);
    var i;
    i, met := CopyLine(mem, pos, limit, buf);
    CallIs(data, pos, bytes, i);
    n := Finish(buf, i, mem[pos..pos + i]);
  }

  class Reader {
    var bytesdone: nat

    constructor ()
      ensures bytesdone == 0
    {
      bytesdone := 0;
    }

    /**
     `readline` on a file of `size` bytes at the start of `mem`, which is all that follows in memory.
     A cursor behind the end of the file makes the difference of the two an enormous unsigned number:
     the call then reads on in memory as if the file went on.
     */
    method ReadLine(mem: seq<byte>, size: nat, buf: array<byte>, bytes: nat) returns (n: nat)
      requires size <= |mem| && size < INT_LIMIT && bytesdone < INT_LIMIT && bytes < INT_LIMIT
      requires bytes < buf.Length && (bytesdone > size > 0 ==> bytesdone + bytes <= |mem|)
      modifies this, buf
      ensures size == 0 || old(bytesdone) == size ==> n == 0 && bytesdone == old(bytesdone)
      ensures size > 0 && old(bytesdone) != size ==>
                var data := Visible(mem, size, old(bytesdone));
                && bytesdone == Advance(data, old(bytesdone), bytes)
                && Terminated(buf[..], 0) && Str(buf[..], 0) == Piece(data, old(bytesdone), bytes)
                && n == |Str(buf[..], 0)|
    {
      if size == 0 || bytesdone == size {
        return 0;
      }
      hide Str, Terminated, Piece, Visible, Budget, Advance, BytesToRead;
      BudgetOfCall(mem, size, bytesdone, bytes);
      var met;
      n, met := ReadFrom(mem, bytesdone, BytesToRead(size, bytesdone, bytes), buf, Visible(mem, size, bytesdone),
                         bytes);
      bytesdone := bytesdone + n;
      if met {
        bytesdone := bytesdone + 1;
      }
    }

    /** `close`: the part that matters here. */
    method Close()
      modifies this
      ensures bytesdone == 0
    {
      bytesdone := 0;
    }
  }

  lemma NextByte(data: seq<byte>, pos: nat, limit: nat, i: nat)
    requires pos + limit <= |data| && i < limit && i <= LineLength(data, pos, limit)
    ensures data[pos + i] == NEWLINE <==> i == LineLength(data, pos, limit)
  {
    var k := LineLength(data, pos, limit);
    assert i < k ==> data[pos..pos + k][i] == data[pos + i];
  }

  lemma {:induction false} CutAtNul(buf: seq<byte>, line: seq<byte>)
    requires |line| < |buf| && buf[..|line|] == line && buf[|line|] == 0
    ensures Terminated(buf, 0) && Str(buf, 0) == Str(line, 0)
  {
    CutFrom(buf, line, 0);
  }

  lemma {:induction false} CutFrom(buf: seq<byte>, line: seq<byte>, i: nat)
    requires |line| < |buf| && buf[..|line|] == line && buf[|line|] == 0 && i <= |line|
    ensures Terminated(buf, i) && Str(buf, i) == Str(line, i)
    decreases |line| - i
  {
    if i < |line| {
      assert buf[i] == line[i];
      if line[i] != 0 {
        CutFrom(buf, line, i + 1);
      }
    }
  }

  // ---------------------------------------------------------------- a whole file

  lemma {:induction false} NoNulIsWhole(line: seq<byte>)
    requires 0 !in line
    ensures Str(line, 0) == line
  {
    var r := Str(line, 0);
    assert |r| == |line|;
    assert line[0..|line|] == line;
  }

  /** What one call takes from the file, the newline included. */
  function Taken(data: seq<byte>, pos: nat, bytes: nat): (t: seq<byte>)
    requires pos <= |data|
  {
    Piece(data, pos, bytes) + if MeetsNewline(data, pos, bytes) then [NEWLINE] else []
  }

  /** On a file without NUL bytes a call takes exactly the bytes it moves over, and always some. */
  lemma CallIsExact(data: seq<byte>, pos: nat, bytes: nat)
    requires pos < |data| && 0 !in data[pos..] && bytes > 0
    ensures pos < Advance(data, pos, bytes) <= |data|
    ensures Taken(data, pos, bytes) == data[pos..Advance(data, pos, bytes)]
  {
    var k := LineLength(data, pos, Budget(data, pos, bytes));
    assert data[pos..pos + k] == data[pos..][..k];
    NoNulIsWhole(data[pos..pos + k]);
  }

  /** The pieces and newlines of successive calls, one limit per call. */
  function TakenBy(data: seq<byte>, pos: nat, limits: seq<nat>): (t: seq<byte>)
    requires pos <= |data|
    decreases |limits|
  {
    if limits == [] || pos == |data| || Advance(data, pos, limits[0]) > |data| then []
    else Taken(data, pos, limits[0]) + TakenBy(data, Advance(data, pos, limits[0]), limits[1..])
  }

  function CursorAfter(data: seq<byte>, pos: nat, limits: seq<nat>): nat
    requires pos <= |data|
    decreases |limits|
  {
    if limits == [] || pos == |data| || Advance(data, pos, limits[0]) > |data| then pos
    else CursorAfter(data, Advance(data, pos, limits[0]), limits[1..])
  }

  /**
   Any sequence of calls with positive limits reads the file from the start with nothing lost and
   nothing repeated, each call makes progress, and as many calls as the file has bytes reach its end.
   */
  lemma {:induction false} CallsReadTheFile(data: seq<byte>, pos: nat, limits: seq<nat>)
    requires pos <= |data| && 0 !in data[pos..] && forall i :: 0 <= i < |limits| ==> limits[i] > 0
    ensures pos <= CursorAfter(data, pos, limits) <= |data|
    ensures TakenBy(data, pos, limits) == data[pos..CursorAfter(data, pos, limits)]
    ensures CursorAfter(data, pos, limits) >= pos + |limits| || CursorAfter(data, pos, limits) == |data|
    decreases |limits|
  {
    hide Advance, Taken;
    if limits == [] || pos == |data| {
      assert TakenBy(data, pos, limits) == [];
    } else {
      CallIsExact(data, pos, limits[0]);
      var next := Advance(data, pos, limits[0]);
      assert data[next..] == data[pos..][next - pos..];
      CallsReadTheFile(data, next, limits[1..]);
      CallThenCalls(data, pos, limits);
      var end := CursorAfter(data, pos, limits);
      hide TakenBy, CursorAfter;
      assert data[pos..next] + data[next..end] == data[pos..end];
    }
  }

  lemma CallThenCalls(data: seq<byte>, pos: nat, limits: seq<nat>)
    requires limits != [] && pos < |data| && Advance(data, pos, limits[0]) <= |data|
    ensures var next := Advance(data, pos, limits[0]);
            && TakenBy(data, pos, limits) == Taken(data, pos, limits[0]) + TakenBy(data, next, limits[1..])
            && CursorAfter(data, pos, limits) == CursorAfter(data, next, limits[1..])
  {
    hide Advance, Taken;
  }

  // ---------------------------------------------------------------- NUL bytes

  /**
   A call is exact precisely when the stretch it reads has no NUL, or stops without a newline and
   does not start with a NUL: at a NUL the cursor falls behind the bytes that were read.
   */
  lemma CallIsExactIff(data: seq<byte>, pos: nat, bytes: nat)
    requires pos < |data| && bytes > 0
    ensures var line := data[pos..pos + LineLength(data, pos, Budget(data, pos, bytes))];
            (pos < Advance(data, pos, bytes) <= |data|
             && Taken(data, pos, bytes) == data[pos..Advance(data, pos, bytes)])
            <==> (0 !in line || (line[0] != 0 && !MeetsNewline(data, pos, bytes)))
  {
    var k := LineLength(data, pos, Budget(data, pos, bytes));
    var line := data[pos..pos + k];
    var piece := Piece(data, pos, bytes);
    hide LineLength, Str;
    if 0 !in line {
      NoNulIsWhole(line);
    } else {
      assert piece == line[..|piece|] && line[..k] == line;
      assert |piece| < k && line[|piece|] == 0 == data[pos + |piece|];
      assert piece == data[pos..pos + |piece|];
      if MeetsNewline(data, pos, bytes) {
        assert data[pos..Advance(data, pos, bytes)][|piece|] == 0;
        assert Taken(data, pos, bytes)[|piece|] == NEWLINE;
      }
    }
  }

  function Ones(n: nat): (limits: seq<nat>)
    ensures |limits| == n && forall i :: 0 <= i < n ==> limits[i] == 1
  {
    seq(n, _ => 1)
  }

  /** Read byte by byte, the cursor never gets past a NUL. */
  lemma {:induction false} StuckAtNul(data: seq<byte>, pos: nat, n: nat, j: nat)
    requires pos <= j < |data| && data[j] == 0
    ensures CursorAfter(data, pos, Ones(n)) <= j
    decreases n
  {
    if n > 0 {
      var k := LineLength(data, pos, 1);
      assert Budget(data, pos, 1) == 1 && |Piece(data, pos, 1)| <= k <= 1;
      if pos == j {
        assert data[pos..pos + k] == if k == 0 then [] else [0];
      }
      assert Advance(data, pos, 1) <= j + (if pos < j then 1 else 0) && Advance(data, pos, 1) <= pos + 1;
      assert Ones(n)[1..] == Ones(n - 1);
      StuckAtNul(data, Advance(data, pos, 1), n - 1, j);
    }
  }

  ghost predicate ReachesEnd(data: seq<byte>, limits: seq<nat>) {
    CursorAfter(data, 0, limits) >= |limits| || CursorAfter(data, 0, limits) == |data|
  }

  /**
   Whatever the limits of the calls, reading gets to the end of the file: true of exactly the files
   without NUL bytes.
   */
  lemma ReadsToTheEndIff(data: seq<byte>)
    ensures (forall limits: seq<nat> :: (forall i :: 0 <= i < |limits| ==> limits[i] > 0) ==> ReachesEnd(data, limits))
            <==> 0 !in data
  {
    if 0 in data {
      var j :| 0 <= j < |data| && data[j] == 0;
      StuckAtNul(data, 0, |data|, j);
      assert !ReachesEnd(data, Ones(|data|));
    } else {
      forall limits: seq<nat> | forall i :: 0 <= i < |limits| ==> limits[i] > 0
        ensures ReachesEnd(data, limits)
      {
        assert data[0..] == data;
        CallsReadTheFile(data, 0, limits);
      }
    }
  }

  // ---------------------------------------------------------------- one cursor for all files

  ghost predicate Positive(limits: seq<nat>) {
    forall i :: 0 <= i < |limits| ==> limits[i] > 0
  }

  /** Calls of one byte each move the cursor by one byte each. */
  lemma {:induction false} OnesMove(data: seq<byte>, pos: nat, n: nat)
    requires pos + n <= |data| && 0 !in data[pos..]
    ensures CursorAfter(data, pos, Ones(n)) == pos + n
    decreases n
  {
    if n > 0 {
      CallIsExact(data, pos, 1);
      assert Budget(data, pos, 1) == 1 && Advance(data, pos, 1) == pos + 1;
      assert Ones(n)[1..] == Ones(n - 1) && data[pos + 1..] == data[pos..][1..];
      OnesMove(data, pos + 1, n - 1);
      CallThenCalls(data, pos, Ones(n));
    }
  }

  /** What successive calls deliver, wherever the cursor stands; behind the end it stays there. */
  function Delivered(mem: seq<byte>, size: nat, pos: nat, limits: seq<nat>): seq<byte>
    requires size <= |mem| && pos <= |mem|
  {
    TakenBy(Visible(mem, size, pos), pos, limits)
  }

  /**
   Calls on a text file can deliver it whole exactly when the shared cursor starts at 0, as `close`
   leaves it, or when it was left behind the end of this file by a longer one and the memory there
   happens to repeat the file.
   */
  lemma WholeFileIff(mem: seq<byte>, size: nat, pos: nat)
    requires 0 < size <= |mem| && pos <= |mem| && 0 !in mem[..size] && (pos > size ==> 0 !in mem[pos..])
    ensures (exists limits :: Positive(limits) && Delivered(mem, size, pos, limits) == mem[..size])
            <==> pos == 0 || (size < pos && pos + size <= |mem| && mem[pos..pos + size] == mem[..size])
  {
    hide TakenBy, CursorAfter;
    var data := Visible(mem, size, pos);
    assert 0 !in data[pos..];
    if pos == 0 || (size < pos && pos + size <= |mem| && mem[pos..pos + size] == mem[..size]) {
      CallsReadTheFile(data, pos, Ones(size));
      OnesMove(data, pos, size);
      assert mem[..size][0..size] == mem[..size];
      assert Positive(Ones(size)) && Delivered(mem, size, pos, Ones(size)) == mem[..size];
    } else {
      forall limits | Positive(limits) ensures Delivered(mem, size, pos, limits) != mem[..size] {
        CallsReadTheFile(data, pos, limits);
      }
    }
  }
}
