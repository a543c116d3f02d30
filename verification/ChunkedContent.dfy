/**
 Reading a whole chunked body: the loop with its payload limit and its receiving callback.
 */
module ChunkedContent {
  import opened Common
  import opened Text
  import opened ChunkedCoding
  import opened ChunkedStream
  import opened ChunkedSyntax

  /** The line after the last chunk. */
  method ReadTrailers(strm: Stream, lineBuf: array<char>) returns (result: ReadContentResult)
    requires strm.Valid() && lineBuf.Length == 64
    modifies strm, lineBuf
    ensures strm.Valid() && result == AfterLastChunk(old(strm.Rest()))
    ensures result != Failed ==>
              var line := NextLine(old(strm.Rest())).value; strm.Rest() == old(strm.Rest())[|line|..]
  {
    var lr := new StreamLineReader(strm, lineBuf);
    var ok := lr.GetLine();
    if !ok {
      return Failed;
    }
    var text := lr.CStr();
    result := if text == CRLF then Success else TrailerSection;
  }

  /** What was delivered and what is pending make up the writes, and the limit is kept. */
  ghost predicate OnTrack(d: Decoder, chunk: string, later: seq<string>, body: string, payloadMax: nat,
                          writes: seq<string>)
  {
    && Holds(d, chunk, later, CRLF)
    && body + Pending(d, chunk, later) == Flatten(writes)
    && |body| <= payloadMax
  }

  lemma Grows(body: string, data: string, pending: string)
    ensures body + (data + pending) == (body + data) + pending
    ensures body + data <= body + (data + pending)
  {
  }

  lemma StaysOnTrack(before: Decoder, after: Decoder, len: nat, n: int, data: string, off: nat, total: nat,
                     chunk: string, later: seq<string>, body: string, payloadMax: nat, writes: seq<string>)
    returns (chunk': string, later': seq<string>)
    requires OnTrack(before, chunk, later, body, payloadMax, writes) && len > 0
    requires PayloadRead(before, after, len, n, data, off, total)
    ensures n >= 0
    ensures n == 0 ==> after.rest == CRLF && body == Flatten(writes)
    ensures n > 0 ==> |data| == n && body + data <= Flatten(writes)
    ensures n > 0 && |body| + n <= payloadMax ==> OnTrack(after, chunk', later', body + data, payloadMax, writes)
  {
    chunk', later' := PayloadIsNextPending(before, after, len, n, data, off, total, chunk, later, CRLF);
    hide Holds, Pending, PayloadRead, Flatten;
    if n > 0 {
      Grows(body, data, Pending(after, chunk', later'));
    } else if n == 0 {
      assert body + "" == body;
    }
  }

  /** A call of the receiving callback: the characters, and their place in their chunk. */
  datatype Piece = Piece(data: string, offset: nat, total: nat)

  function Concatenated(pieces: seq<Piece>): string {
    if pieces == [] then "" else Concatenated(pieces[..|pieces| - 1]) + pieces[|pieces| - 1].data
  }

  lemma OneMorePiece(pieces: seq<Piece>, last: Piece)
    ensures Concatenated(pieces + [last]) == Concatenated(pieces) + last.data
  {
    assert (pieces + [last])[..|pieces|] == pieces;
  }

  /** Some piece of the body, right after what was accepted, is one that `out` refuses. */
  ghost predicate Refuses(out: (string, nat, nat) -> bool, body: string, whole: string) {
    exists piece, offset, total :: piece != "" && body + piece <= whole && !out(piece, offset, total)
  }

  /**
   The read loop with its payload limit and its receiving callback.  On the encoder's output
   it delivers exactly the concatenation of the writes, whatever the stream's reads look like,
   unless that is longer than the limit or the callback refuses a piece of it.  On any text at
   all, success means that the text was a chunked body with exactly this payload.
   */
  method ReadContentChunked(strm: Stream, bufSize: nat, payloadMax: nat, out: (string, nat, nat) -> bool,
                            ghost writes: seq<string>)
    returns (result: ReadContentResult, body: string, pieces: seq<Piece>)
    requires strm.Valid() && bufSize > 0
    modifies strm
    ensures strm.Valid()
    ensures Writable(writes) && old(strm.Rest()) == Encoded(writes) ==>
              match result
              case Success => body == Flatten(writes) && |body| <= payloadMax && strm.Rest() == ""
              case PayloadTooLarge => body <= Flatten(writes) && |Flatten(writes)| > payloadMax
              case Failed => Refuses(out, body, Flatten(writes))
              case TrailerSection => false
    ensures result == Success ==> exists after :: Chunked(old(strm.Rest()), body, after) && "\r\n" <= after
    ensures |body| <= payloadMax
    ensures body == Concatenated(pieces) && forall p :: p in pieces ==> out(p.data, p.offset, p.total)
  {
    ghost var text := strm.Rest();
    ghost var encoded := Writable(writes) && strm.Rest() == Encoded(writes);
    var dec := new ChunkedDecoder(strm);
    body, pieces := "", [];
    assert Concatenated([]) == "";
    ghost var chunk, later := "", writes;
    if encoded {
      StartHolds(dec.View(), writes);
      assert "" + Flatten(writes) == Flatten(writes);
    }
    assert encoded ==> OnTrack(dec.View(), chunk, later, body, payloadMax, writes);
    NothingAfterLastChunk();
    StartIsOnlyChunked(text);
    hide Concatenated, OnTrack, OnlyChunked, Chunked, PayloadRead, Flatten, Encoded, Writable, AfterLastChunk, NextLine;
    while true
      invariant dec.Valid() && dec.strm == strm && fresh(dec) && fresh(dec.lineBuf)
      invariant encoded ==> OnTrack(dec.View(), chunk, later, body, payloadMax, writes)
      invariant OnlyChunked(text, dec.View(), body) && !dec.finished
      invariant |body| <= payloadMax
      invariant body == Concatenated(pieces) && forall p :: p in pieces ==> out(p.data, p.offset, p.total)
      decreases |strm.data| - strm.pos
    {
      ghost var before := dec.View();
      var n, data, chunkOffset, chunkTotal := dec.ReadPayload(bufSize);
      if encoded {
        chunk, later := StaysOnTrack(before, dec.View(), bufSize, n, data, chunkOffset, chunkTotal,
                                     chunk, later, body, payloadMax, writes);
      }
      if n < 0 {
        return Failed, body, pieces;
      }
      StaysOnlyChunked(text, before, dec.View(), bufSize, n, data, chunkOffset, chunkTotal, body);
      if n == 0 {
        BodyEndsExactly(strm.Rest());
        result := ReadTrailers(strm, dec.lineBuf);
        return result, body, pieces;
      }
      if |body| > payloadMax || payloadMax - |body| < n {
        return PayloadTooLarge, body, pieces;
      }
      if !out(data, chunkOffset, chunkTotal) {
        return Failed, body, pieces;
      }
      OneMorePiece(pieces, Piece(data, chunkOffset, chunkTotal));
      body, pieces := body + data, pieces + [Piece(data, chunkOffset, chunkTotal)];
    }
  }
}
