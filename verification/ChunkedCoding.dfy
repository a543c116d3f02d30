/**
 The chunked transfer coding (section 7.1 of RFC 9112): the encoder's text, the number
 syntax on both sides, and the decoder as steps on values.
 */
module ChunkedCoding {
  import opened Common
  import opened Text

  const ULONG_MAX: nat := 0xFFFF_FFFF_FFFF_FFFF
  const MAX_LINE_LENGTH: nat := 32768

  // --- numbers ---

  function ToHex(n: nat): string {
    if n < 16 then [HexDigit(n)] else ToHex(n / 16) + [HexDigit(n % 16)]
  }

  /** The do-while loop that puts the low digit in front. */
  method FromIToHex(n: nat) returns (ret: string)
    ensures ret == ToHex(n)
  {
    var left := n;
    ret := [HexDigit(left % 16)];
    left := left / 16;
    while left > 0
      invariant left == 0 ==> ret == ToHex(n)
      invariant left > 0 ==> ToHex(left) + ret == ToHex(n)
    {
      ret := [HexDigit(left % 16)] + ret;
      left := left / 16;
    }
  }

  function HexValue(c: char): Option<nat> {
    if '0' <= c <= '9' then Some((c - '0') as nat)
    else if 'a' <= c <= 'f' then Some((c - 'a') as nat + 10)
    else if 'A' <= c <= 'F' then Some((c - 'A') as nat + 10)
    else None
  }

  /** What C sees of a character buffer: everything before the first NUL. */
  function CString(s: string): string {
    if s == "" || s[0] == '\0' then "" else [s[0]] + CString(s[1..])
  }

  function LeadingHex(s: string): string {
    if s != "" && HexValue(s[0]).Some? then [s[0]] + LeadingHex(s[1..]) else ""
  }

  function HexNumber(digits: string): nat {
    if digits == "" then 0
    else
      var last := HexValue(digits[|digits| - 1]);
      HexNumber(digits[..|digits| - 1]) * 16 + (if last.Some? then last.value else 0)
  }

  function AfterSign(s: string): string {
    if s != "" && (s[0] == '-' || s[0] == '+') then s[1..] else s
  }

  function AfterPrefix(s: string): string {
    if |s| >= 3 && s[0] == '0' && (s[1] == 'x' || s[1] == 'X') && HexValue(s[2]).Some? then s[2..] else s
  }

  /** `strtoul` in base 16: `None` when there is nothing to convert. */
  function StrToUl(s: string): Option<nat> {
    var t := DropSpaces(CString(s));
    SignedNumber(t != "" && t[0] == '-', LeadingHex(AfterPrefix(AfterSign(t))))
  }

  function SignedNumber(negative: bool, digits: string): Option<nat> {
    var n := HexNumber(digits);
    if digits == "" then None
    else if n > ULONG_MAX then Some(ULONG_MAX)
    else if negative then Some((ULONG_MAX + 1 - n) % (ULONG_MAX + 1))
    else Some(n)
  }

  predicate AllHex(s: string) {
    forall i :: 0 <= i < |s| ==> HexValue(s[i]).Some?
  }

  lemma HexNumberSnoc(s: string, d: nat)
    requires d < 16
    ensures HexValue(HexDigit(d)) == Some(d)
    ensures HexNumber(s + [HexDigit(d)]) == HexNumber(s) * 16 + d
  {
    assert (s + [HexDigit(d)])[..|s|] == s;
  }

  lemma {:induction false} ToHexIsReadBack(n: nat)
    ensures AllHex(ToHex(n)) && ToHex(n) != "" && HexNumber(ToHex(n)) == n
  {
    if n < 16 {
      HexNumberSnoc("", n);
      assert "" + [HexDigit(n)] == [HexDigit(n)];
    } else {
      ToHexIsReadBack(n / 16);
      HexNumberSnoc(ToHex(n / 16), n % 16);
    }
  }

  function Power16(k: nat): nat {
    if k == 0 then 1 else 16 * Power16(k - 1)
  }

  lemma {:induction false} ToHexIsShort(n: nat, k: nat)
    requires k > 0 && n < Power16(k)
    ensures |ToHex(n)| <= k
  {
    if n >= 16 {
      assert k > 1 by {
        assert Power16(1) == 16 * Power16(0) == 16;
      }
      ToHexIsShort(n / 16, k - 1);
    }
  }

  lemma SixteenDigitsAreEnough()
    ensures Power16(16) == ULONG_MAX + 1
  {
    assert Power16(4) == 0x1_0000 by {
      assert Power16(2) == 256;
    }
    assert Power16(8) == 0x1_0000_0000 by {
      assert Power16(6) == 256 * Power16(4);
    }
    assert Power16(12) == 0x1_0000_0000_0000 by {
      assert Power16(10) == 256 * Power16(8);
    }
    assert Power16(14) == 256 * Power16(12);
  }

  lemma {:induction false} CStringOfHex(s: string, t: string)
    requires AllHex(s)
    ensures CString(s + t) == s + CString(t)
  {
    if s == "" {
      assert s + t == t && s + CString(t) == CString(t);
    } else {
      assert s[0] != '\0' && (s + t)[1..] == s[1..] + t;
      CStringOfHex(s[1..], t);
    }
  }

  lemma {:induction false} LeadingHexOf(s: string, t: string)
    requires AllHex(s) && (t == "" || HexValue(t[0]).None?)
    ensures LeadingHex(s + t) == s
  {
    if s == "" {
      assert s + t == t;
    } else {
      assert (s + t)[1..] == s[1..] + t;
      LeadingHexOf(s[1..], t);
    }
  }

  lemma CStringOfCrlf()
    ensures CString(CRLF) == CRLF
  {
    assert CRLF[1..] == "\n" && CString("\n") == "\n" + CString("");
  }

  /** A line that starts with digits and a line break is read as these digits. */
  lemma ReadPlainHex(s: string)
    requires AllHex(s) && s != "" && HexNumber(s) <= ULONG_MAX
    ensures StrToUl(s + CRLF) == Some(HexNumber(s))
  {
    var line := s + CRLF;
    CStringOfCrlf();
    CStringOfHex(s, CRLF);
    assert HexValue(line[0]).Some?;
    assert DropSpaces(line) == line && AfterSign(line) == line;
    assert AfterPrefix(line) == line by {
      assert |s| > 1 ==> HexValue(line[1]).Some?;
    }
    LeadingHexOf(s, CRLF);
  }

  /** Printing a size and reading the line back are inverse. */
  lemma {:induction false} HexRoundTrip(n: nat)
    requires n <= ULONG_MAX
    ensures StrToUl(ToHex(n) + CRLF) == Some(n)
    ensures |ToHex(n)| <= 16
  {
    ToHexIsReadBack(n);
    ReadPlainHex(ToHex(n));
    SixteenDigitsAreEnough();
    ToHexIsShort(n, 16);
  }

  // --- encoding ---

  function Chunk(payload: string): string {
    ToHex(|payload|) + CRLF + payload + CRLF
  }

  /** An empty write emits nothing. */
  function Chunks(writes: seq<string>): string {
    if writes == [] then ""
    else (if writes[0] == "" then "" else Chunk(writes[0])) + Chunks(writes[1..])
  }

  /** The chunks, the last chunk and the empty trailer section. */
  function Encoded(writes: seq<string>): string {
    Chunks(writes) + "0" + CRLF + CRLF
  }

  /** `write` for every piece, then `done`, without compression and trailers. */
  method WriteContentChunked(writes: seq<string>) returns (text: string)
    ensures text == Encoded(writes)
  {
    text := "";
    for i := 0 to |writes|
      invariant text + Chunks(writes[i..]) == Chunks(writes)
    {
      ghost var before, later := text, Chunks(writes[i + 1..]);
      assert writes[i..][1..] == writes[i + 1..];
      if writes[i] != "" {
        var size := FromIToHex(|writes[i]|);
        var chunk := size + CRLF + writes[i] + CRLF;
        text := text + chunk;
        assert text + later == before + (chunk + later);
      } else {
        assert "" + later == later;
      }
    }
    assert text + "" == text;
    text := text + "0" + CRLF;
    text := text + CRLF;
  }

  // --- decoding, on values ---

  /** The next line with its line break; `None` at the end of the text and for overlong lines. */
  function NextLine(rest: string): (line: Option<string>)
    ensures line.Some? ==> line.value != "" && |line.value| <= |rest| && line.value == rest[..|line.value|]
  {
    var pos := Find(rest, CRLF);
    if pos < |rest| then
      if pos + |CRLF| <= MAX_LINE_LENGTH then Some(rest[..pos + |CRLF|]) else None
    else if 0 < |rest| < MAX_LINE_LENGTH then Some(rest)
    else None
  }

  /** The unread text, what is left of the current chunk, and its size and position. */
  datatype Decoder = Decoder(rest: string, remaining: nat, finished: bool, total: nat, offset: nat)

  /** Make sure that a chunk is open: read a size line if there is none. */
  function OpenChunk(d: Decoder): Option<Decoder> {
    if d.remaining > 0 then Some(d)
    else
      var line := NextLine(d.rest);
      if line.None? then None
      else
        var size := StrToUl(line.value);
        var rest := d.rest[|line.value|..];
        if size.None? || size.value == ULONG_MAX then None
        else if size.value == 0 then Some(d.(rest := rest, finished := true))
        else Some(d.(rest := rest, remaining := size.value, total := size.value, offset := 0))
  }

  /** Consume `n` payload characters, and the line break after the last of a chunk. */
  function TakePayload(d: Decoder, n: nat): Option<Decoder>
    requires n <= d.remaining && n <= |d.rest|
  {
    var taken := d.(rest := d.rest[n..], remaining := d.remaining - n, offset := d.offset + n);
    if taken.remaining > 0 then Some(taken)
    else
      var rest := AfterChunk(taken.rest);
      if rest.Some? then Some(taken.(rest := rest.value)) else None
  }

  /** What follows the line break at the end of a chunk. */
  function AfterChunk(rest: string): Option<string> {
    var line := NextLine(rest);
    if line.Some? && CString(line.value) == CRLF then Some(rest[|line.value|..]) else None
  }

  // --- what a decoder still holds ---

  /** Sizes that a size_t can hold and that are not mistaken for an overflow. */
  predicate Writable(writes: seq<string>) {
    forall w :: w in writes ==> |w| < ULONG_MAX
  }

  /**
   The decoder is inside `chunk`, or between chunks, with `writes` still to come and `tail`
   after the last chunk.
   */
  ghost predicate Holds(d: Decoder, chunk: string, writes: seq<string>, tail: string) {
    && !d.finished && Writable(writes)
    && d.rest == OpenPart(d, chunk) + Later(writes, tail)
    && (d.remaining > 0 ==> d.total == |chunk| == d.offset + d.remaining)
  }

  /** The chunks still to come, the last chunk, and what follows it. */
  function Later(writes: seq<string>, tail: string): string {
    Chunks(writes) + ("0" + CRLF + tail)
  }

  function OpenPart(d: Decoder, chunk: string): string {
    if d.remaining > 0 && d.offset <= |chunk| then chunk[d.offset..] + CRLF else ""
  }

  /** The payload still to be delivered. */
  function Pending(d: Decoder, chunk: string, writes: seq<string>): string {
    (if d.remaining > 0 && d.offset <= |chunk| then chunk[d.offset..] else "") + Flatten(writes)
  }

  lemma NextLineOf(line: string, tail: string)
    requires '\r' !in line && |line| + 2 <= MAX_LINE_LENGTH
    ensures NextLine(line + CRLF + tail) == Some(line + CRLF)
    ensures (line + CRLF + tail)[|line + CRLF|..] == tail
  {
    var s := line + CRLF + tail;
    CrlfCannotOverlap();
    NoCrNoLineBreak(line);
    assert s + "" == s;
    FindInPart(s, "", line, CRLF, tail);
    assert s[..|line| + |CRLF|] == line + CRLF;
  }

  lemma NoCrInHex(s: string)
    requires AllHex(s)
    ensures '\r' !in s
  {
  }

  lemma OpenChunkText(d: Decoder, w: string, after: string)
    requires d.remaining == 0 && 0 < |w| < ULONG_MAX && d.rest == ToHex(|w|) + CRLF + after
    ensures OpenChunk(d) == Some(d.(rest := after, remaining := |w|, total := |w|, offset := 0))
  {
    ToHexIsReadBack(|w|);
    HexRoundTrip(|w|);
    NoCrInHex(ToHex(|w|));
    NextLineOf(ToHex(|w|), after);
  }

  lemma OpenNextChunk(d: Decoder, w: string, writes: seq<string>, tail: string)
    requires d.remaining == 0 && Holds(d, "", [w] + writes, tail) && w != ""
    ensures var o := OpenChunk(d);
            o.Some? && !o.value.finished && o.value.remaining == |w| && o.value.offset == 0
            && Holds(o.value, w, writes, tail)
  {
    assert w in [w] + writes;
    assert forall x :: x in writes ==> x in [w] + writes;
    LaterUnfold(w, writes, tail);
    assert d.rest == Later([w] + writes, tail);
    OpenChunkText(d, w, w + CRLF + Later(writes, tail));
    assert w[0..] == w;
  }

  lemma LaterUnfold(w: string, writes: seq<string>, tail: string)
    requires w != ""
    ensures Later([w] + writes, tail) == ToHex(|w|) + CRLF + (w + CRLF + Later(writes, tail))
  {
    assert ([w] + writes)[1..] == writes;
    Regroup(ToHex(|w|), CRLF, w, Chunks(writes), "0" + CRLF + tail);
  }

  lemma Regroup(size: string, eol: string, w: string, chunks: string, end: string)
    ensures (size + eol + w + eol + chunks) + end == size + eol + (w + eol + (chunks + end))
  {
  }

  lemma OpenLastChunk(d: Decoder, tail: string)
    requires d.remaining == 0 && Holds(d, "", [], tail)
    ensures OpenChunk(d) == Some(d.(rest := tail, finished := true))
  {
    assert ToHex(0) == "0";
    HexRoundTrip(0);
    assert d.rest == "0" + CRLF + tail;
    NextLineOf("0", tail);
  }

  /** Leading empty writes have left no trace in the text. */
  lemma {:induction false} SkipEmptyWrites(writes: seq<string>) returns (i: nat)
    ensures i <= |writes| && (i < |writes| ==> writes[i] != "")
    ensures Chunks(writes) == Chunks(writes[i..]) && Flatten(writes) == Flatten(writes[i..])
    decreases |writes|
  {
    i := 0;
    if writes != [] && writes[0] == "" {
      var k := SkipEmptyWrites(writes[1..]);
      i := k + 1;
      assert writes[i..] == writes[1..][k..];
      assert "" + Chunks(writes[1..]) == Chunks(writes[1..]);
      assert "" + Flatten(writes[1..]) == Flatten(writes[1..]);
    }
  }

  lemma FlatUnfold(writes: seq<string>, i: nat)
    requires i < |writes|
    ensures writes[i..] == [writes[i]] + writes[i + 1..]
    ensures Flatten(writes[i..]) == writes[i] + Flatten(writes[i + 1..])
  {
    assert writes[i..][1..] == writes[i + 1..];
  }

  /** The chunk a decoder works on after opening one, and the writes after it. */
  ghost predicate Opened(d: Decoder, o: Option<Decoder>, before: string, chunk: string, writes: seq<string>,
                         tail: string)
  {
    && o.Some?
    && (if o.value.finished then o.value.rest == tail && before == ""
        else o.value.remaining > 0 && Holds(o.value, chunk, writes, tail) && Pending(o.value, chunk, writes) == before)
  }

  /** Opening a chunk loses nothing: what is pending stays pending, or nothing was left. */
  lemma {:induction false} OpenKeepsPending(d: Decoder, chunk: string, writes: seq<string>, tail: string)
    returns (chunk': string, writes': seq<string>)
    requires Holds(d, chunk, writes, tail)
    ensures Opened(d, OpenChunk(d), Pending(d, chunk, writes), chunk', writes', tail)
  {
    chunk', writes' := chunk, writes;
    if d.remaining == 0 {
      var i := SkipEmptyWrites(writes);
      assert forall w :: w in writes[i..] ==> w in writes;
      assert Pending(d, chunk, writes) == "" + Flatten(writes) == Flatten(writes[i..]);
      if i == |writes| {
        OpenLastChunk(d, tail);
      } else {
        chunk', writes' := writes[i], writes[i + 1..];
        FlatUnfold(writes, i);
        OpenNextChunk(d, chunk', writes', tail);
        assert chunk'[0..] == chunk';
      }
    }
  }

  lemma TakeText(chunk: string, off: nat, n: nat, later: string)
    requires off + n <= |chunk|
    ensures var text := chunk[off..] + CRLF + later;
            && text[..n] == chunk[off..off + n]
            && text[n..] == chunk[off + n..] + CRLF + later
            && (off + n == |chunk| ==> text[n..] == CRLF + later)
  {
    var text := chunk[off..] + CRLF + later;
    assert text[n..] == chunk[off + n..] + CRLF + later;
    assert off + n == |chunk| ==> chunk[off + n..] == "" && "" + CRLF == CRLF;
  }

  lemma SplitText(chunk: string, off: nat, n: nat, flat: string)
    requires off + n <= |chunk|
    ensures chunk[off..off + n] + (chunk[off + n..] + flat) == chunk[off..] + flat
    ensures off + n == |chunk| ==> chunk[off..off + n] + flat == chunk[off..] + flat
  {
  }

  lemma CloseChunk(later: string)
    ensures NextLine(CRLF + later) == Some(CRLF) && (CRLF + later)[|CRLF|..] == later && CString(CRLF) == CRLF
    ensures AfterChunk(CRLF + later) == Some(later)
  {
    NextLineOf("", later);
    assert "" + CRLF == CRLF;
    CStringOfCrlf();
  }

  lemma HoldsText(d: Decoder, chunk: string, writes: seq<string>, tail: string)
    requires Holds(d, chunk, writes, tail) && d.remaining > 0
    ensures d.offset + d.remaining == |chunk|
    ensures d.rest == chunk[d.offset..] + CRLF + Later(writes, tail)
    ensures Pending(d, chunk, writes) == chunk[d.offset..] + Flatten(writes)
  {
  }

  lemma TakeInside(d: Decoder, chunk: string, writes: seq<string>, tail: string, n: nat)
    requires Holds(d, chunk, writes, tail) && 0 < n < d.remaining
    requires |d.rest| >= n && d.rest[n..] == chunk[d.offset + n..] + CRLF + Later(writes, tail)
    ensures var t := TakePayload(d, n);
            && t.Some? && Holds(t.value, chunk, writes, tail)
            && Pending(t.value, chunk, writes) == chunk[d.offset + n..] + Flatten(writes)
  {
    hide AfterChunk, Flatten, Later;
  }

  lemma TakeLast(d: Decoder, chunk: string, writes: seq<string>, tail: string)
    requires Holds(d, chunk, writes, tail) && 0 < d.remaining <= |d.rest|
    requires d.rest[d.remaining..] == CRLF + Later(writes, tail)
    ensures var t := TakePayload(d, d.remaining);
            && t.Some? && Holds(t.value, chunk, writes, tail)
            && Pending(t.value, chunk, writes) == Flatten(writes)
  {
    var later := Later(writes, tail);
    CloseChunk(later);
    hide AfterChunk, Flatten, Later;
    assert "" + later == later && "" + Flatten(writes) == Flatten(writes);
  }

  /** Any number of payload characters may be taken; they are the next ones. */
  lemma {:induction false} TakeKeepsPending(d: Decoder, chunk: string, writes: seq<string>, tail: string, n: nat)
    requires Holds(d, chunk, writes, tail) && 0 < n <= d.remaining
    ensures n <= |d.rest| && d.rest[..n] == chunk[d.offset..d.offset + n]
    ensures var t := TakePayload(d, n);
            && t.Some? && Holds(t.value, chunk, writes, tail)
            && d.rest[..n] + Pending(t.value, chunk, writes) == Pending(d, chunk, writes)
  {
    hide Holds, Pending, TakePayload, Flatten, Later;
    var off, later := d.offset, Later(writes, tail);
    HoldsText(d, chunk, writes, tail);
    TakeText(chunk, off, n, later);
    SplitText(chunk, off, n, Flatten(writes));
    if n == d.remaining {
      TakeLast(d, chunk, writes, tail);
    } else {
      TakeInside(d, chunk, writes, tail, n);
    }
  }
}
