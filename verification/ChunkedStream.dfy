/**
 The decoder over a stream that may answer every read with less than was asked for.  The
 line reader keeps short lines in a fixed buffer and longer ones in a growing string.
 */
module ChunkedStream {
  import opened Common
  import opened Text
  import opened ChunkedCoding

  /** A stream over a fixed text; `patience` decides how short each read comes back. */
  class Stream {
    const data: string
    const patience: nat -> nat
    var pos: nat
    var calls: nat

    ghost predicate Valid()
      reads this
    {
      pos <= |data|
    }

    ghost function Rest(): string
      reads this
      requires Valid()
    {
      data[pos..]
    }

    constructor (data: string, patience: nat -> nat)
      ensures Valid() && Rest() == data
    {
      this.data, this.patience := data, patience;
      pos, calls := 0, 0;
    }

    /** At least one character if any was asked for and is left; nothing otherwise. */
    method Read(size: nat) returns (piece: string)
      requires Valid()
      modifies this
      ensures Valid() && old(Rest()) == piece + Rest()
      ensures |piece| <= size && (size > 0 && old(Rest()) != "" ==> piece != "")
      ensures pos == old(pos) + |piece|
    {
      var most := Min(size, |data| - pos);
      var n := if most == 0 then 0 else 1 + patience(calls) % most;
      piece := data[pos..pos + n];
      assert data[pos..] == data[pos..pos + n] + data[pos + n..];
      pos, calls := pos + n, calls + 1;
    }
  }

  class StreamLineReader {
    const strm: Stream
    const fixedBuffer: array<char>
    var used: nat
    var growable: string

    /** The fixed buffer keeps room for the NUL; it is full once the other one is in use. */
    ghost predicate Valid()
      reads this, fixedBuffer
    {
      && used < fixedBuffer.Length && fixedBuffer.Length >= 2
      && (used > 0 ==> fixedBuffer[used] == '\0')
      && (growable != "" ==> used == fixedBuffer.Length - 1)
    }

    /** The line so far: both buffers together are one string that is only appended to. */
    ghost function Contents(): string
      reads this, fixedBuffer
      requires Valid()
    {
      if growable == "" then fixedBuffer[..used] else growable
    }

    constructor (strm: Stream, fixedBuffer: array<char>)
      requires fixedBuffer.Length >= 2
      ensures Valid() && Contents() == "" && this.strm == strm && this.fixedBuffer == fixedBuffer
    {
      this.strm, this.fixedBuffer := strm, fixedBuffer;
      used, growable := 0, "";
    }

    method Size() returns (n: nat)
      requires Valid()
      ensures n == |Contents()|
    {
      n := if growable == "" then used else |growable|;
    }

    /** What `strtoul` and `strcmp` see when they are given `ptr()`. */
    method CStr() returns (s: string)
      requires Valid() && Contents() != ""
      ensures s == CString(Contents())
    {
      var i := 0;
      if growable == "" {
        while fixedBuffer[i] != '\0'
          invariant 0 <= i <= used
          invariant forall k :: 0 <= k < i ==> fixedBuffer[k] != '\0'
          decreases used - i
        {
          i := i + 1;
        }
        s := fixedBuffer[..i];
        assert fixedBuffer[..used][..i] == s;
      } else {
        while i < |growable| && growable[i] != '\0'
          invariant 0 <= i <= |growable|
          invariant forall k :: 0 <= k < i ==> growable[k] != '\0'
        {
          i := i + 1;
        }
        s := growable[..i];
      }
      CStringIsPrefix(Contents(), i);
    }

    method Append(c: char)
      requires Valid()
      modifies this`used, this`growable, fixedBuffer
      ensures Valid() && Contents() == old(Contents()) + [c]
    {
      if used < fixedBuffer.Length - 1 {
        fixedBuffer[used] := c;
        used := used + 1;
        fixedBuffer[used] := '\0';
      } else {
        if growable == "" {
          assert fixedBuffer[used] == '\0';
          growable := fixedBuffer[..used];
        }
        growable := growable + [c];
      }
    }

    method Clear()
      modifies this`used, this`growable
      requires fixedBuffer.Length >= 2
      ensures Valid() && Contents() == ""
    {
      used, growable := 0, "";
    }

    /** Read one character and append it, unless the stream has ended. */
    method ReadByte() returns (byte: Option<char>)
      requires Valid() && strm.Valid()
      modifies this`used, this`growable, fixedBuffer, strm
      ensures Valid() && strm.Valid()
      ensures byte.None? <==> old(strm.Rest()) == ""
      ensures byte.None? ==> Contents() == old(Contents()) && strm.Rest() == "" && strm.pos == old(strm.pos)
      ensures byte.Some? ==> Contents() == old(Contents()) + [byte.value]
                             && old(strm.Rest()) == [byte.value] + strm.Rest() && strm.pos == old(strm.pos) + 1
    {
      var piece := strm.Read(1);
      if piece == "" {
        return None;
      }
      Append(piece[0]);
      return Some(piece[0]);
    }

    /** Read up to and including the next line break, one character at a time. */
    method GetLine() returns (ok: bool)
      requires Valid() && strm.Valid()
      modifies this`used, this`growable, fixedBuffer, strm
      ensures Valid() && strm.Valid()
      ensures ok == NextLine(old(strm.Rest())).Some?
      ensures ok ==> var line := NextLine(old(strm.Rest())).value;
                     Contents() == line && strm.Rest() == old(strm.Rest())[|line|..]
      ensures strm.pos >= old(strm.pos) && (ok ==> strm.pos > old(strm.pos))
    {
      ghost var rest := strm.Rest();
      Clear();
      var prev := '\0';
      var i := 0;
      NothingRead(rest);
      hide NextLine, LineSoFar, Contents, Stream.Rest;
      while true
        invariant Valid() && strm.Valid()
        invariant LineSoFar(rest, i, Contents(), strm.Rest(), prev)
        invariant strm.pos == old(strm.pos) + i
        decreases MAX_LINE_LENGTH - i
      {
        var size := Size();
        LineSize(rest, i, Contents(), strm.Rest(), prev);
        if size >= MAX_LINE_LENGTH {
          return false;
        }
        ghost var line, left := Contents(), strm.Rest();
        var byte := ReadByte();
        if byte.None? {
          LineAtEnd(rest, i, line, prev);
          return i != 0;
        }
        NextCharacter(rest, i, line, left, prev, byte.value, strm.Rest());
        i := i + 1;
        if prev == '\r' && byte.value == '\n' {
          return true;
        }
        prev := byte.value;
      }
    }
  }

  lemma {:induction false} CStringIsPrefix(s: string, i: nat)
    requires i <= |s| && (i < |s| ==> s[i] == '\0') && forall k :: 0 <= k < i ==> s[k] != '\0'
    ensures CString(s) == s[..i]
  {
    if i > 0 {
      CStringIsPrefix(s[1..], i - 1);
      assert s[..i] == [s[0]] + s[1..][..i - 1];
    }
  }

  /** No line break ends within the first `i` characters. */
  ghost predicate NoBreakBefore(rest: string, i: nat) {
    forall k: nat :: k + 2 <= i ==> !OccursAt(rest, CRLF, k)
  }

  /** The reader has taken `i` characters and seen no line break; `prev` is the last one. */
  ghost predicate LineSoFar(rest: string, i: nat, line: string, left: string, prev: char) {
    && i <= |rest| && i <= MAX_LINE_LENGTH
    && line == rest[..i] && left == rest[i..]
    && prev == (if i == 0 then '\0' else rest[i - 1])
    && NoBreakBefore(rest, i)
  }

  lemma NothingRead(rest: string)
    ensures LineSoFar(rest, 0, "", rest, '\0')
  {
  }

  lemma LineSize(rest: string, i: nat, line: string, left: string, prev: char)
    requires LineSoFar(rest, i, line, left, prev)
    ensures |line| == i <= MAX_LINE_LENGTH
    ensures i == MAX_LINE_LENGTH ==> NextLine(rest).None?
  {
  }

  lemma LineAtEnd(rest: string, i: nat, line: string, prev: char)
    requires LineSoFar(rest, i, line, "", prev) && i < MAX_LINE_LENGTH
    ensures NextLine(rest) == if i == 0 then None else Some(line)
    ensures rest == line && rest[|line|..] == ""
  {
  }

  lemma NextCharacter(rest: string, i: nat, line: string, left: string, prev: char, c: char, later: string)
    requires LineSoFar(rest, i, line, left, prev) && i < MAX_LINE_LENGTH && left == [c] + later
    ensures |line + [c]| == i + 1 && rest[|line + [c]|..] == later
    ensures if prev == '\r' && c == '\n' then NextLine(rest) == Some(line + [c])
            else LineSoFar(rest, i + 1, line + [c], later, c)
  {
    hide NextLine;
    assert rest[i] == rest[i..][0] == c && rest[i + 1..] == rest[i..][1..] == later;
    assert rest[..i + 1] == line + [c];
    if i > 0 {
      assert rest[i - 1..i + 1] == [prev, c];
      if prev == '\r' && c == '\n' {
        LineDone(rest, i + 1);
      }
    }
  }

  lemma LineDone(rest: string, i: nat)
    requires 2 <= i <= |rest| && i <= MAX_LINE_LENGTH
    requires NoBreakBefore(rest, i - 1) && OccursAt(rest, CRLF, i - 2)
    ensures NextLine(rest) == Some(rest[..i])
  {
  }

  class ChunkedDecoder {
    const strm: Stream
    const lineBuf: array<char>
    var remaining: nat
    var finished: bool
    var lastTotal: nat
    var lastOffset: nat

    ghost predicate Valid()
      reads this, strm
    {
      strm.Valid() && lineBuf.Length == 64
    }

    ghost function View(): Decoder
      reads this, strm
      requires Valid()
    {
      Decoder(strm.Rest(), remaining, finished, lastTotal, lastOffset)
    }

    constructor (strm: Stream)
      requires strm.Valid()
      ensures Valid() && this.strm == strm && fresh(lineBuf)
      ensures View() == Decoder(strm.Rest(), 0, false, 0, 0)
    {
      this.strm := strm;
      lineBuf := new char[64];
      remaining, finished, lastTotal, lastOffset := 0, false, 0, 0;
    }

    /** The size line of the next chunk, if no chunk is open. */
    method Open() returns (ok: bool)
      requires Valid() && !finished
      modifies this`remaining, this`finished, this`lastTotal, this`lastOffset, strm, lineBuf
      ensures Valid() && ok == OpenChunk(old(View())).Some?
      ensures ok ==> View() == OpenChunk(old(View())).value
      ensures strm.pos >= old(strm.pos)
    {
      if remaining > 0 {
        return true;
      }
      var lr := new StreamLineReader(strm, lineBuf);
      ok := lr.GetLine();
      if !ok {
        return false;
      }
      ghost var line := lr.Contents();
      var text := lr.CStr();
      CStringTwice(line);
      var size := StrToUl(text);
      if size.None? || size.value == ULONG_MAX {
        return false;
      }
      if size.value == 0 {
        finished := true;
        return true;
      }
      remaining, lastTotal, lastOffset := size.value, size.value, 0;
      return true;
    }

    /** The line break after the last character of a chunk. */
    method Close() returns (ok: bool)
      requires Valid()
      modifies strm, lineBuf
      ensures Valid()
      ensures ok == AfterChunk(old(strm.Rest())).Some?
      ensures ok ==> strm.Rest() == AfterChunk(old(strm.Rest())).value
      ensures strm.pos >= old(strm.pos)
    {
      var lr := new StreamLineReader(strm, lineBuf);
      ok := lr.GetLine();
      if ok {
        var text := lr.CStr();
        ok := text == CRLF;
      }
    }

    /** Read from the open chunk, as much as the stream gives at once. */
    method Take(len: nat) returns (n: int, data: string)
      requires Valid() && remaining > 0
      modifies this`remaining, this`lastOffset, strm, lineBuf
      ensures Valid() && strm.pos >= old(strm.pos) && (n > 0 ==> strm.pos > old(strm.pos))
      ensures n == -1 || n > 0
      ensures n > 0 ==> Taken(old(View()), View(), n, data) && n <= len
      ensures n < 0 ==> CannotTake(old(View()), len)
    {
      hide AfterChunk, Stream.Rest;
      ghost var before := View();
      var toRead := Min(remaining, len);
      data := strm.Read(toRead);
      if data == "" {
        return -1, data;
      }
      Reading(before.rest, data, strm.Rest());
      lastOffset := lastOffset + |data|;
      remaining := remaining - |data|;
      if remaining == 0 {
        var ok := Close();
        if !ok {
          assert TakePayload(before, |data|).None?;
          return -1, data;
        }
      }
      return |data|, data;
    }

    /**
     0 when the body has ended, -1 on an error, otherwise the number of payload characters
     in `data`, with their place in their chunk.
     */
    method ReadPayload(len: nat) returns (n: int, data: string, chunkOffset: nat, chunkTotal: nat)
      requires Valid()
      modifies this`remaining, this`finished, this`lastTotal, this`lastOffset, strm, lineBuf
      ensures Valid() && -1 <= n <= len && (n > 0 ==> |data| == n)
      ensures strm.pos >= old(strm.pos) && (n > 0 ==> strm.pos > old(strm.pos))
      ensures PayloadRead(old(View()), View(), len, n, data, chunkOffset, chunkTotal)
    {
      data, chunkOffset, chunkTotal := "", 0, 0;
      if finished {
        return 0, data, 0, 0;
      }
      var ok := Open();
      if !ok {
        return -1, data, 0, 0;
      }
      if finished {
        return 0, data, 0, 0;
      }
      chunkOffset, chunkTotal := lastOffset, lastTotal;
      n, data := Take(len);
    }
  }

  lemma Reading(before: string, data: string, after: string)
    requires before == data + after
    ensures |data| <= |before| && before[..|data|] == data && before[|data|..] == after
  {
  }

  /** `n` payload characters of the open chunk were read. */
  ghost predicate Taken(before: Decoder, after: Decoder, n: int, data: string) {
    && 0 < n <= before.remaining && n <= |before.rest|
    && TakePayload(before, n) == Some(after)
    && data == before.rest[..n]
  }

  /** No room, no input, or no line break where a chunk ends. */
  ghost predicate CannotTake(d: Decoder, len: nat) {
    || len == 0 || d.rest == ""
    || exists k: nat :: k <= d.remaining && k <= |d.rest| && 0 < k && TakePayload(d, k).None?
  }

  /** One call of `read_payload`. */
  ghost predicate PayloadRead(before: Decoder, after: Decoder, len: nat, n: int, data: string,
                              chunkOffset: nat, chunkTotal: nat)
  {
    if before.finished then n == 0 && after == before
    else
      var ready := OpenChunk(before);
      if n < 0 then ready.None? || (!ready.value.finished && CannotTake(ready.value, len))
      else if n == 0 then ready == Some(after) && after.finished
      else ready.Some? && !ready.value.finished && Taken(ready.value, after, n, data)
           && chunkOffset == ready.value.offset && chunkTotal == ready.value.total
  }

  lemma {:induction false} CStringTwice(s: string)
    ensures CString(CString(s)) == CString(s) && StrToUl(CString(s)) == StrToUl(s)
  {
    if s != "" && s[0] != '\0' {
      CStringTwice(s[1..]);
      assert CString(s)[1..] == CString(s[1..]);
    }
  }

  /** What `read_content_chunked` reports; a trailer section that is not empty is not modelled. */
  datatype ReadContentResult = Success | PayloadTooLarge | Failed | TrailerSection

  lemma StartHolds(d: Decoder, writes: seq<string>)
    requires Writable(writes) && d == Decoder(Encoded(writes), 0, false, 0, 0)
    ensures Holds(d, "", writes, CRLF) && Pending(d, "", writes) == Flatten(writes)
  {
    assert Encoded(writes) == Later(writes, CRLF);
    assert "" + Later(writes, CRLF) == Later(writes, CRLF) && "" + Flatten(writes) == Flatten(writes);
  }

  lemma NeverStuck(d: Decoder, chunk: string, writes: seq<string>, tail: string, len: nat)
    requires Holds(d, chunk, writes, tail) && d.remaining > 0 && len > 0
    ensures !CannotTake(d, len)
  {
    TakeKeepsPending(d, chunk, writes, tail, 1);
    forall k: nat | 0 < k <= d.remaining && k <= |d.rest|
      ensures TakePayload(d, k).Some?
    {
      TakeKeepsPending(d, chunk, writes, tail, k);
    }
  }

  /**
   One call on the encoder's output: it never fails, it ends the body exactly when nothing is
   pending, and otherwise it delivers the next pending characters with their true place.
   */
  lemma {:induction false} PayloadIsNextPending(before: Decoder, after: Decoder, len: nat,
                                                n: int, data: string, off: nat, total: nat,
                                                chunk: string, writes: seq<string>, tail: string)
    returns (chunk': string, writes': seq<string>)
    requires Holds(before, chunk, writes, tail) && len > 0
    requires PayloadRead(before, after, len, n, data, off, total)
    ensures n >= 0
    ensures n == 0 ==> after.rest == tail && Pending(before, chunk, writes) == ""
    ensures n > 0 ==> Holds(after, chunk', writes', tail)
    ensures n > 0 ==> data + Pending(after, chunk', writes') == Pending(before, chunk, writes)
    ensures n > 0 ==> |data| == n && total == |chunk'| && off + n <= |chunk'| && data == chunk'[off..off + n]
  {
    chunk', writes' := OpenKeepsPending(before, chunk, writes, tail);
    var ready := OpenChunk(before).value;
    if !ready.finished {
      NeverStuck(ready, chunk', writes', tail, len);
      hide OpenChunk, CannotTake, Holds, Pending, TakePayload;
      if n > 0 {
        TakeKeepsPending(ready, chunk', writes', tail, n);
      }
    }
  }

  /** An empty line ends the body; any other line starts a trailer section. */
  function AfterLastChunk(rest: string): ReadContentResult {
    var line := NextLine(rest);
    if line.None? then Failed else if CString(line.value) == CRLF then Success else TrailerSection
  }

  lemma NothingAfterLastChunk()
    ensures AfterLastChunk(CRLF) == Success && NextLine(CRLF) == Some(CRLF) && CRLF[|CRLF|..] == ""
  {
    CloseChunk("");
    assert CRLF + "" == CRLF;
  }
}
