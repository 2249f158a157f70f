/**
 The boot loader's line reader: a file arrives in chunks of any size, and lines are put together
 from a buffer.  The chunks still to come stand for what `fread` will return.
 */
module LineReader {
  import opened Bytes

  // ---------------------------------------------------------------- plain splitting

  /** The bytes before the first newline. */
  function UpTo(s: seq<byte>): (r: seq<byte>)
    ensures |r| <= |s| && r == s[..|r|] && NEWLINE !in r
    ensures |r| < |s| ==> s[|r|] == NEWLINE
  {
    if s == [] || s[0] == NEWLINE then [] else [s[0]] + UpTo(s[1..])
  }

  /** Splitting on newlines, empty pieces included. */
  function Split(s: seq<byte>): (ps: seq<seq<byte>>)
    decreases |s|
  {
    var line := UpTo(s);
    if |line| == |s| then [line] else [line] + Split(s[|line| + 1..])
  }

  function NonEmpty(ps: seq<seq<byte>>): (r: seq<seq<byte>>) {
    if ps == [] then []
    else if ps[|ps| - 1] == [] then NonEmpty(ps[..|ps| - 1])
    else NonEmpty(ps[..|ps| - 1]) + [ps[|ps| - 1]]
  }

  lemma {:induction false} NonEmptyAppends(a: seq<seq<byte>>, b: seq<seq<byte>>)
    ensures NonEmpty(a + b) == NonEmpty(a) + NonEmpty(b)
    decreases |b|
  {
    if b == [] {
      assert a + b == a;
    } else {
      assert (a + b)[..|a + b| - 1] == a + b[..|b| - 1];
      NonEmptyAppends(a, b[..|b| - 1]);
    }
  }

  lemma NonEmptyOne(p: seq<byte>)
    ensures NonEmpty([p]) == if p == [] then [] else [p]
  {
    assert [p][..0] == [];
  }

  /** The non-empty lines of a text. */
  function Lines(s: seq<byte>): (ps: seq<seq<byte>>) {
    NonEmpty(Split(s))
  }

  lemma LinesOfEmpty()
    ensures Lines([]) == []
  {
    assert Split([]) == [[]];
    NonEmptyOne([]);
  }

  /** The first line, when it is not empty, and then the lines of what follows it. */
  lemma LinesStep(s: seq<byte>)
    ensures Lines(s) == NonEmpty([UpTo(s)]) + Lines(s[|UpTo(s)|..])
  {
    hide NonEmpty, Split;
    var line := UpTo(s);
    var rest := s[|line|..];
    SplitStep(s);
    if |line| == |s| {
      assert rest == [];
      LinesOfEmpty();
    } else {
      var after := s[|line| + 1..];
      assert rest[0] == NEWLINE && rest[1..] == after;
      LinesSkipNewline(rest);
      NonEmptyAppends([line], Split(after));
    }
  }

  lemma SplitStep(s: seq<byte>)
    ensures var line := UpTo(s);
            Split(s) == if |line| == |s| then [line] else [line] + Split(s[|line| + 1..])
  {
  }

  lemma LinesSkipNewline(s: seq<byte>)
    requires s != [] && s[0] == NEWLINE
    ensures Lines(s) == Lines(s[1..])
  {
    hide NonEmpty, Split;
    assert UpTo(s) == [];
    SplitStep(s);
    NonEmptyAppends([[]], Split(s[1..]));
    NonEmptyOne([]);
  }

  function Joined(chunks: seq<seq<byte>>): (s: seq<byte>) {
    if chunks == [] then [] else chunks[0] + Joined(chunks[1..])
  }

  lemma {:induction false} UpToContinues(a: seq<byte>, b: seq<byte>)
    requires NEWLINE !in a
    ensures UpTo(a + b) == a + UpTo(b)
    decreases |a|
  {
    if a == [] {
      assert a + b == b;
    } else {
      assert (a + b)[1..] == a[1..] + b;
      UpToContinues(a[1..], b);
    }
  }

  // ---------------------------------------------------------------- the reader

  lemma TakePart(buffer: seq<byte>, p: nat, r: nat, line: seq<byte>, tail: seq<byte>)
    requires p <= r <= |buffer|
    ensures (line + buffer[p..r]) + (buffer[r..] + tail) == line + (buffer[p..] + tail)
  {
    assert buffer[p..] == buffer[p..r] + buffer[r..];
  }

  class Reader {
    var readBuffer: seq<byte>
    var readBufferPtr: nat
    var lineBuffer: seq<byte>
    var endOfFile: bool
    var chunks: seq<seq<byte>>

    ghost predicate Valid()
      reads this
    {
      && readBufferPtr <= |readBuffer|
      && (forall i :: 0 <= i < |chunks| ==> chunks[i] != [])
      && (endOfFile ==> chunks == [] && readBufferPtr == |readBuffer|)
    }

    /** The part of the file that no line has taken yet. */
    ghost function Rest(): seq<byte>
      reads this
      requires readBufferPtr <= |readBuffer|
    {
      readBuffer[readBufferPtr..] + Joined(chunks)
    }

    /** A reader before the first line: nothing buffered, the whole file to come. */
    constructor (file: seq<seq<byte>>)
      requires forall i :: 0 <= i < |file| ==> file[i] != []
      ensures Valid() && !endOfFile && Rest() == Joined(file) && readBufferPtr == |readBuffer|
    {
      readBuffer, readBufferPtr, lineBuffer, endOfFile, chunks := [], 0, [], false, file;
    }

    method SkipNewlines()
      requires Valid()
      modifies this`readBufferPtr
      ensures Valid() && old(readBufferPtr) <= readBufferPtr <= |readBuffer|
      ensures Lines(Rest()) == Lines(old(Rest())) && |Rest()| == |old(Rest())| - (readBufferPtr - old(readBufferPtr))
      ensures readBufferPtr < |readBuffer| ==> readBuffer[readBufferPtr] != NEWLINE
    {
      hide Lines;
      while |readBuffer| > readBufferPtr && readBuffer[readBufferPtr] == NEWLINE
        invariant Valid() && old(readBufferPtr) <= readBufferPtr <= |readBuffer|
        invariant Lines(Rest()) == Lines(old(Rest()))
        invariant |Rest()| == |old(Rest())| - (readBufferPtr - old(readBufferPtr))
      {
        ghost var rest := Rest();
        LinesSkipNewline(rest);
        readBufferPtr := readBufferPtr + 1;
        assert Rest() == rest[1..];
      }
    }

    /** `scan_buffer`: where the next newline of the buffer is, or its end. */
    method ScanBuffer() returns (r: nat)
      requires Valid()
      ensures readBufferPtr <= r <= |readBuffer| && NEWLINE !in readBuffer[readBufferPtr..r]
      ensures r < |readBuffer| ==> readBuffer[r] == NEWLINE
    {
      r := readBufferPtr;
      while |readBuffer| > r && readBuffer[r] != NEWLINE
        invariant readBufferPtr <= r <= |readBuffer| && NEWLINE !in readBuffer[readBufferPtr..r]
      {
        assert readBuffer[readBufferPtr..r + 1] == readBuffer[readBufferPtr..r] + [readBuffer[r]];
        r := r + 1;
      }
    }

    /** `read_from_buffer`: what lies before the next newline of the buffer joins the line. */
    method ReadFromBuffer()
      requires Valid()
      modifies this`readBufferPtr, this`lineBuffer
      ensures Valid() && lineBuffer + Rest() == old(lineBuffer) + old(Rest())
      ensures NEWLINE !in old(lineBuffer) ==> NEWLINE !in lineBuffer
      ensures readBufferPtr < |readBuffer| ==> readBuffer[readBufferPtr] == NEWLINE
      ensures |Rest()| <= |old(Rest())|
      ensures old(readBufferPtr < |readBuffer| && readBuffer[readBufferPtr] != NEWLINE) ==> |Rest()| < |old(Rest())|
    {
      hide Joined;
      var r := ScanBuffer();
      TakePart(readBuffer, readBufferPtr, r, lineBuffer, Joined(chunks));
      lineBuffer := lineBuffer + readBuffer[readBufferPtr..r];
      readBufferPtr := r;
    }

    /** `refill_buffer`: the next chunk, or the end of the file when `fread` returns nothing. */
    method RefillBuffer()
      requires Valid() && readBufferPtr == |readBuffer| && !endOfFile
      modifies this`readBuffer, this`readBufferPtr, this`endOfFile, this`chunks
      ensures Valid() && Rest() == old(Rest()) && |chunks| <= |old(chunks)|
      ensures endOfFile || |chunks| < |old(chunks)|
    {
      readBufferPtr := 0;
      if chunks == [] {
        readBuffer, endOfFile := [], true;
      } else {
        readBuffer, chunks := chunks[0], chunks[1..];
      }
    }

    /**
     `read_line`: the line is what lies before the next newline of the whole remaining file, after
     any newlines at hand; the file is at its end exactly when nothing remains.
     */
    method ReadLine()
      requires Valid() && !endOfFile
      modifies this
      ensures Valid()
      ensures Lines(old(Rest())) == NonEmpty([lineBuffer]) + Lines(Rest())
      ensures endOfFile ==> Rest() == []
      ensures !endOfFile ==> readBufferPtr < |readBuffer| && readBuffer[readBufferPtr] == NEWLINE
      ensures |Rest()| <= |old(Rest())|
      ensures old(readBufferPtr < |readBuffer|) ==> |Rest()| < |old(Rest())|
    {
      hide Lines, NonEmpty, UpTo;
      lineBuffer := [];
      SkipNewlines();
      ghost var start := Rest();
      assert [] + start == start;
      ReadFromBuffer();
      while readBufferPtr == |readBuffer| && !endOfFile
        invariant Valid() && NEWLINE !in lineBuffer && lineBuffer + Rest() == start
        invariant readBufferPtr < |readBuffer| ==> readBuffer[readBufferPtr] == NEWLINE
        invariant old(readBufferPtr < |readBuffer|) ==> |Rest()| < |old(Rest())|
        decreases !endOfFile, |chunks|
      {
        RefillBuffer();
        ReadFromBuffer();
      }
      WholeLine(start, lineBuffer, Rest());
      LinesStep(start);
    }

  }

  lemma WholeLine(start: seq<byte>, line: seq<byte>, rest: seq<byte>)
    requires line + rest == start && NEWLINE !in line && (rest == [] || rest[0] == NEWLINE)
    ensures UpTo(start) == line && start[|line|..] == rest
  {
    UpToContinues(line, rest);
    assert UpTo(rest) == [];
  }

  /** The loop of `process_conf`: it reads lines until the file ends. */
  method ReadAll(reader: Reader, ghost file: seq<seq<byte>>) returns (lines: seq<seq<byte>>)
    requires reader.Valid() && !reader.endOfFile && reader.Rest() == Joined(file)
    modifies reader
    ensures NonEmpty(lines) == NonEmpty(Split(Joined(file)))
  {
    hide Lines, NonEmpty, Split;
    lines := [];
    NoLines();
    while !reader.endOfFile
      invariant reader.Valid() && NonEmpty(lines) + Lines(reader.Rest()) == Lines(Joined(file))
      invariant reader.endOfFile ==> reader.Rest() == []
      decreases |reader.Rest()| + (if reader.readBufferPtr == |reader.readBuffer| then 1 else 0)
                + (if reader.endOfFile then 0 else 1)
    {
      ghost var rest := reader.Rest();
      reader.ReadLine();
      NonEmptyAppends(lines, [reader.lineBuffer]);
      lines := lines + [reader.lineBuffer];
    }
    LinesOfEmpty();
    LinesIs(Joined(file));
  }

  lemma NoLines()
    ensures NonEmpty([]) == []
  {
  }

  lemma LinesIs(s: seq<byte>)
    ensures Lines(s) == NonEmpty(Split(s))
  {
  }
}
