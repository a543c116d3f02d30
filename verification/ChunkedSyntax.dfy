/**
 The chunked syntax apart from the encoder: which lines are read, which sizes they say, and
 that nothing but chunked text is decoded to its end.
 */
module ChunkedSyntax {
  import opened Common
  import opened Text
  import opened ChunkedCoding
  import opened ChunkedStream

  // --- sizes ---

  predicate StartsHex(s: string) {
    s != "" && HexValue(s[0]).Some?
  }

  lemma {:induction false} NoNulNoEnd(s: string)
    requires '\0' !in s
    ensures CString(s) == s
  {
    if s != "" {
      NoNulNoEnd(s[1..]);
    }
  }

  /** A NUL hides what follows it in the line. */
  lemma {:induction false} NulEndsTheLine(s: string, t: string)
    requires '\0' !in s
    ensures CString(s + "\0" + t) == s
  {
    if s == "" {
      assert (s + "\0" + t)[0] == '\0';
    } else {
      assert (s + "\0" + t)[0] == s[0] && (s + "\0" + t)[1..] == s[1..] + "\0" + t;
      NulEndsTheLine(s[1..], t);
    }
  }

  /** The value of a size with its sign: what does not fit 64 bits is the largest number. */
  function Signed(sign: string, n: nat): nat {
    if n > 0xFFFF_FFFF_FFFF_FFFF then 0xFFFF_FFFF_FFFF_FFFF
    else if sign == "-" && n > 0 then 0x1_0000_0000_0000_0000 - n
    else n
  }

  /**
   A size is read behind blanks, a sign and `0x`, up to the first character that is no
   hexadecimal digit.
   */
  lemma SizeIsRead(blanks: string, sign: string, prefix: string, digits: string, rest: string)
    requires Blank(blanks) && (sign == "" || sign == "+" || sign == "-")
    requires prefix == "" || prefix == "0x" || prefix == "0X"
    requires AllHex(digits) && digits != "" && !StartsHex(rest)
    requires prefix == "" && digits == "0" && rest != "" ==> rest[0] != 'x' && rest[0] != 'X'
    requires '\0' !in rest
    ensures StrToUl(blanks + sign + prefix + digits + rest) == Some(Signed(sign, HexNumber(digits)))
  {
    hide *;
    var number := prefix + (digits + rest);
    var t := sign + number;
    Together(blanks, sign, prefix, digits, rest);
    NumberStartsWithADigit(prefix, digits, rest);
    NoNulNoEnd(blanks + t);
    SignIsDropped(sign, number);
    StartsVisibly(sign, number);
    BlanksAreDropped(blanks, t);
    PrefixIsDropped(prefix, digits, rest);
    NotAHexCharacter(rest);
    LeadingHexOf(digits, rest);
    ReadInSteps(blanks + t, t, sign, number, digits + rest, digits);
  }

  lemma NotAHexCharacter(rest: string)
    requires !StartsHex(rest)
    ensures rest == "" || HexValue(rest[0]).None?
  {
  }

  lemma ReadInSteps(s: string, t: string, sign: string, number: string, tail: string, digits: string)
    requires CString(s) == s && DropSpaces(s) == t && AfterSign(t) == number && AfterPrefix(number) == tail
    requires LeadingHex(tail) == digits && digits != "" && t != "" && (t[0] == '-' <==> sign == "-")
    ensures StrToUl(s) == Some(Signed(sign, HexNumber(digits)))
  {
    hide CString, DropSpaces, AfterSign, AfterPrefix, LeadingHex, HexNumber;
  }

  lemma Together(blanks: string, sign: string, prefix: string, digits: string, rest: string)
    requires Blank(blanks) && (sign == "" || sign == "+" || sign == "-")
    requires (prefix == "" || prefix == "0x" || prefix == "0X") && AllHex(digits) && '\0' !in rest
    ensures blanks + sign + prefix + digits + rest == blanks + (sign + (prefix + (digits + rest)))
    ensures '\0' !in blanks + (sign + (prefix + (digits + rest)))
  {
    assert forall i :: 0 <= i < |digits| ==> HexValue(digits[i]).Some?;
    assert '\0' !in blanks && '\0' !in sign && '\0' !in prefix && '\0' !in digits;
  }

  lemma NumberStartsWithADigit(prefix: string, digits: string, rest: string)
    requires (prefix == "" || prefix == "0x" || prefix == "0X") && AllHex(digits) && digits != ""
    ensures StartsHex(prefix + (digits + rest))
  {
    var t := prefix + (digits + rest);
    assert t[0] == if prefix == "" then digits[0] else '0';
  }

  lemma StartsVisibly(sign: string, number: string)
    requires (sign == "" || sign == "+" || sign == "-") && StartsHex(number)
    ensures sign + number != "" && !Blank((sign + number)[..1])
  {
    var t := sign + number;
    assert t[..1][0] == t[0] == if sign == "" then number[0] else sign[0];
  }

  lemma SignIsDropped(sign: string, t: string)
    requires (sign == "" || sign == "+" || sign == "-") && StartsHex(t)
    ensures AfterSign(sign + t) == t && (sign != "" ==> (sign + t)[0] == sign[0])
    ensures (sign + t)[0] == '-' <==> sign == "-"
  {
    assert sign == "" ==> sign + t == t;
  }

  lemma PrefixIsDropped(prefix: string, digits: string, rest: string)
    requires prefix == "" || prefix == "0x" || prefix == "0X"
    requires AllHex(digits) && digits != "" && !StartsHex(rest)
    requires prefix == "" && digits == "0" && rest != "" ==> rest[0] != 'x' && rest[0] != 'X'
    ensures AfterPrefix(prefix + (digits + rest)) == digits + rest
  {
    var t := prefix + (digits + rest);
    if prefix == "" {
      assert t == digits + rest;
      if |digits| > 1 {
        assert t[1] == digits[1] && HexValue(digits[1]).Some?;
      } else if rest != "" {
        assert t[1] == rest[0] && t[0] == digits[0];
        assert digits[0] == '0' ==> digits == "0";
      }
    } else {
      assert t[2] == digits[0] && t[2..] == digits + rest;
    }
  }

  /** Without a digit behind blanks, sign and `0x` there is no size. */
  lemma NoSizeIsRead(blanks: string, sign: string, rest: string)
    requires Blank(blanks) && (sign == "" || sign == "+" || sign == "-")
    requires rest == "" || (!StartsHex(rest) && !Blank(rest[..1]) && rest[0] != '+' && rest[0] != '-')
    requires '\0' !in rest
    ensures StrToUl(blanks + sign + rest) == None
  {
    var t := sign + rest;
    assert blanks + sign + rest == blanks + t;
    assert '\0' !in blanks + t;
    NoNulNoEnd(blanks + t);
    if t != "" {
      assert t[..1][0] == t[0] && (rest != "" ==> rest[..1][0] == rest[0]);
    }
    BlanksAreDropped(blanks, t);
    assert AfterSign(t) == rest by {
      assert sign == "" ==> t == rest;
    }
    hide DropSpaces, CString;
  }

  // --- case ---

  function UpperOf(c: char): char {
    if 'a' <= c <= 'z' then (c - 'a') + 'A' else c
  }

  function Upper(s: string): (u: string)
    ensures |u| == |s|
  {
    seq(|s|, i requires 0 <= i < |s| => UpperOf(s[i]))
  }

  lemma UpperTail(s: string)
    requires s != ""
    ensures Upper(s)[0] == UpperOf(s[0]) && Upper(s)[1..] == Upper(s[1..])
    ensures Upper(s) == [UpperOf(s[0])] + Upper(s[1..])
  {
  }

  lemma UpperKeepsClasses(c: char)
    ensures HexValue(UpperOf(c)) == HexValue(c) && IsSpace(UpperOf(c)) == IsSpace(c)
    ensures (UpperOf(c) == '\0' <==> c == '\0') && (UpperOf(c) == '-' <==> c == '-')
    ensures (UpperOf(c) == '+' <==> c == '+') && (UpperOf(c) == '0' <==> c == '0')
    ensures UpperOf(c) == 'X' <==> c == 'x' || c == 'X'
    ensures UpperOf(c) != 'x'
  {
  }

  lemma {:induction false} UpperCString(s: string)
    ensures CString(Upper(s)) == Upper(CString(s))
  {
    if s != "" {
      UpperTail(s);
      UpperKeepsClasses(s[0]);
      UpperCString(s[1..]);
      if s[0] != '\0' {
        UpperTail(CString(s));
        assert CString(s)[1..] == CString(s[1..]);
      }
    }
  }

  lemma {:induction false} UpperDropSpaces(s: string)
    ensures DropSpaces(Upper(s)) == Upper(DropSpaces(s))
  {
    if s != "" {
      UpperTail(s);
      UpperKeepsClasses(s[0]);
      UpperDropSpaces(s[1..]);
    }
  }

  lemma {:induction false} UpperLeadingHex(s: string)
    ensures LeadingHex(Upper(s)) == Upper(LeadingHex(s))
  {
    if s != "" {
      UpperTail(s);
      UpperKeepsClasses(s[0]);
      UpperLeadingHex(s[1..]);
      if HexValue(s[0]).Some? {
        UpperTail(LeadingHex(s));
        assert LeadingHex(s)[1..] == LeadingHex(s[1..]);
      }
    }
  }

  lemma {:induction false} UpperHexNumber(s: string)
    ensures HexNumber(Upper(s)) == HexNumber(s)
  {
    if s != "" {
      var n := |s| - 1;
      assert Upper(s)[..n] == Upper(s[..n]) && Upper(s)[n] == UpperOf(s[n]);
      UpperKeepsClasses(s[n]);
      UpperHexNumber(s[..n]);
    }
  }

  lemma UpperSignAndPrefix(s: string)
    ensures AfterSign(Upper(s)) == Upper(AfterSign(s)) && AfterPrefix(Upper(s)) == Upper(AfterPrefix(s))
  {
    if s != "" {
      UpperKeepsClasses(s[0]);
      assert Upper(s)[0] == UpperOf(s[0]) && Upper(s)[1..] == Upper(s[1..]);
    }
    if |s| >= 3 {
      UpperKeepsClasses(s[1]);
      UpperKeepsClasses(s[2]);
      assert Upper(s)[1] == UpperOf(s[1]) && Upper(s)[2] == UpperOf(s[2]) && Upper(s)[2..] == Upper(s[2..]);
    }
  }

  /** The size in a line does not depend on the case of its letters. */
  lemma CaseDoesNotMatter(s: string)
    ensures StrToUl(Upper(s)) == StrToUl(s)
  {
    var t := DropSpaces(CString(s));
    hide *;
    UpperCString(s);
    UpperDropSpaces(CString(s));
    UpperSignAndPrefix(t);
    UpperSignAndPrefix(AfterSign(t));
    UpperLeadingHex(AfterPrefix(AfterSign(t)));
    UpperHexNumber(LeadingHex(AfterPrefix(AfterSign(t))));
    SameSign(t);
    SameNumber(t != "" && t[0] == '-', LeadingHex(AfterPrefix(AfterSign(t))));
    StrToUlInSteps(s);
    StrToUlInSteps(Upper(s));
  }

  lemma StrToUlInSteps(s: string)
    ensures var t := DropSpaces(CString(s));
            StrToUl(s) == SignedNumber(t != "" && t[0] == '-', LeadingHex(AfterPrefix(AfterSign(t))))
  {
    hide CString, DropSpaces, AfterSign, AfterPrefix, LeadingHex, SignedNumber;
  }

  lemma SameSign(t: string)
    ensures (Upper(t) != "" && Upper(t)[0] == '-') <==> (t != "" && t[0] == '-')
  {
    if t != "" {
      UpperKeepsClasses(t[0]);
      assert Upper(t)[0] == UpperOf(t[0]);
    }
  }

  lemma SameNumber(negative: bool, digits: string)
    requires HexNumber(Upper(digits)) == HexNumber(digits)
    ensures SignedNumber(negative, Upper(digits)) == SignedNumber(negative, digits)
  {
    assert Upper(digits) == "" <==> digits == "";
    hide HexNumber, Upper;
  }

  // --- lines ---

  lemma OccursEarly(rest: string, pos: nat)
    requires OccursAt(rest, CRLF, pos) && pos + 2 <= 32768 <= |rest|
    ensures Occurs(rest[..32768], CRLF)
  {
    assert rest[..32768][pos..pos + 2] == rest[pos..pos + 2];
    assert OccursAt(rest[..32768], CRLF, pos);
  }

  lemma OccursInFront(rest: string, k: nat)
    requires k <= |rest| && Occurs(rest[..k], CRLF)
    ensures Find(rest, CRLF) + 2 <= k
  {
    var i: nat :| i <= k && OccursAt(rest[..k], CRLF, i);
    assert rest[i..i + 2] == rest[..k][i..i + 2];
    assert OccursAt(rest, CRLF, i);
  }

  /**
   No line is read exactly at the end of the text, and when there is no line break within the
   first 32768 of at least as many characters.  Otherwise it is the text up to the first line
   break, or all of the text if there is none.
   */
  lemma NextLineExactly(rest: string)
    ensures NextLine(rest).None? <==> rest == "" || (|rest| >= 32768 && !Occurs(rest[..32768], CRLF))
    ensures NextLine(rest).Some? ==>
              var line := NextLine(rest).value;
              && line <= rest && line != ""
              && (if Occurs(rest, CRLF)
                  then |line| >= 2 && line[|line| - 2..] == "\r\n" && !Occurs(line[..|line| - 1], CRLF)
                  else line == rest)
  {
    var pos := Find(rest, CRLF);
    if |rest| >= 32768 {
      if Occurs(rest[..32768], CRLF) {
        OccursInFront(rest, 32768);
      } else if pos < |rest| && pos + 2 <= 32768 {
        OccursEarly(rest, pos);
      }
    }
    if NextLine(rest).Some? && Occurs(rest, CRLF) {
      OccursInFront(rest[..|rest|], |rest|) by {
        assert rest[..|rest|] == rest;
      }
      var line := NextLine(rest).value;
      if Occurs(line[..|line| - 1], CRLF) {
        assert line[..|line| - 1] == rest[..|line| - 1];
        OccursInFront(rest, |line| - 1);
      }
    }
  }

  lemma StartsLikeABreak(line: string)
    requires CString(line) == CRLF
    ensures |line| >= 2 && line[..2] == CRLF
  {
    assert CString(line)[0] == '\r' && CString(line)[1..] == CString(line[1..]);
    assert CString(line[1..])[0] == '\n';
    assert line[0] == '\r' && line[1] == '\n';
  }

  /** A line that starts with a line break is that line break. */
  lemma BreakAtOnce(rest: string)
    requires NextLine(rest).Some? && |rest| >= 2 && rest[..2] == CRLF
    ensures NextLine(rest) == Some(CRLF)
  {
    assert rest[0..2] == rest[..2] && OccursAt(rest, CRLF, 0);
  }

  /** A chunk ends with a line break and with nothing else. */
  lemma ChunkEndsExactly(rest: string, later: string)
    ensures AfterChunk(rest) == Some(later) <==> rest == "\r\n" + later
  {
    CloseChunk(later);
    if AfterChunk(rest) == Some(later) {
      hide CString, NextLine;
      var line := NextLine(rest).value;
      StartsLikeABreak(line);
      assert rest[..2] == line[..2];
      BreakAtOnce(rest);
      assert rest == line + rest[|line|..];
    }
  }

  /** The body ends exactly at an empty line. */
  lemma BodyEndsExactly(rest: string)
    ensures AfterLastChunk(rest) == Success <==> "\r\n" <= rest
  {
    if "\r\n" <= rest {
      ChunkEndsExactly(rest, rest[2..]);
      assert rest == "\r\n" + rest[2..];
    } else if AfterLastChunk(rest) == Success {
      ChunkEndsExactly(rest, rest[|NextLine(rest).value|..]);
    }
  }

  /** Sizes that are missing or too large end the decoding. */
  lemma BadSizesAreRefused(d: Decoder, line: string)
    requires d.remaining == 0 && NextLine(d.rest) == Some(line)
    requires StrToUl(line) == None || StrToUl(line) == Some(0xFFFF_FFFF_FFFF_FFFF)
    ensures OpenChunk(d) == None
  {
  }

  /** A few characters in one write, character by character. */
  lemma OneChunk(writes: seq<string>)
    requires writes == ["abc"]
    ensures Encoded(writes) == "3\r\n" + "abc\r\n" + "0\r\n\r\n"
  {
    assert writes[1..] == [];
    assert ToHex(3) == "3";
    assert Chunk("abc") == "3\r\n" + "abc\r\n";
    assert Chunks(writes) == Chunk("abc") + "" == Chunk("abc");
    hide Chunk, ToHex;
  }

  // --- only chunked text is decoded ---

  /** `text` is a chunked body with the payload `body`, followed by `after`. */
  ghost predicate Chunked(text: string, body: string, after: string)
    decreases |text|
  {
    var line := NextLine(text);
    && line.Some? && StrToUl(line.value).Some?
    && var size, rest := StrToUl(line.value).value, text[|line.value|..];
       if size == 0 then body == "" && after == rest
       else && size < 0xFFFF_FFFF_FFFF_FFFF && size <= |body| && size + 2 <= |rest|
            && rest[..size] == body[..size] && rest[size..size + 2] == "\r\n"
            && Chunked(rest[size + 2..], body[size..], after)
  }

  /** `rest` is what is left of a chunk of which `size` characters are missing, and what follows it. */
  ghost predicate InChunk(rest: string, size: nat, body: string, after: string) {
    && size <= |body| && size + 2 <= |rest|
    && rest[..size] == body[..size] && rest[size..size + 2] == "\r\n"
    && Chunked(rest[size + 2..], body[size..], after)
  }

  /** What the decoder has still to read is the rest of a chunked body with the payload `body`. */
  ghost predicate Continues(d: Decoder, body: string, after: string) {
    if d.finished then body == "" && after == d.rest
    else if d.remaining == 0 then Chunked(d.rest, body, after)
    else InChunk(d.rest, d.remaining, body, after)
  }

  lemma ChunkedOpens(text: string, size: nat, body: string, after: string)
    requires NextLine(text).Some? && StrToUl(NextLine(text).value) == Some(size)
    ensures var rest := text[|NextLine(text).value|..];
            Chunked(text, body, after) <==>
              if size == 0 then body == "" && after == rest
              else size < 0xFFFF_FFFF_FFFF_FFFF && InChunk(rest, size, body, after)
  {
    hide NextLine, StrToUl;
  }

  lemma SizesFit(s: string)
    ensures StrToUl(s).Some? ==> StrToUl(s).value <= 0xFFFF_FFFF_FFFF_FFFF
  {
    hide CString, DropSpaces, AfterSign, AfterPrefix, LeadingHex, HexNumber;
  }

  lemma OpeningContinues(d: Decoder, body: string, after: string)
    requires !d.finished && OpenChunk(d).Some? && Continues(OpenChunk(d).value, body, after)
    ensures Continues(d, body, after)
  {
    hide NextLine, StrToUl, Chunked, InChunk;
    if d.remaining == 0 {
      SizesFit(NextLine(d.rest).value);
      ChunkedOpens(d.rest, StrToUl(NextLine(d.rest).value).value, body, after);
    }
  }

  lemma TakingContinues(d: Decoder, n: nat, body: string, after: string)
    requires !d.finished && 0 < n <= d.remaining && n <= |d.rest|
    ensures TakePayload(d, n).Some? && Continues(TakePayload(d, n).value, body, after) ==>
              Continues(d, d.rest[..n] + body, after)
  {
    hide Chunked, InChunk, AfterChunk;
    if n == d.remaining {
      WholeChunk(d.rest, n, body, after);
    } else {
      PartOfChunk(d.rest, n, d.remaining, body, after);
    }
  }

  lemma WholeChunk(rest: string, n: nat, body: string, after: string)
    requires n <= |rest|
    ensures var later := AfterChunk(rest[n..]);
            later.Some? && Chunked(later.value, body, after) ==> InChunk(rest, n, rest[..n] + body, after)
  {
    hide Chunked, AfterChunk;
    var later := AfterChunk(rest[n..]);
    if later.Some? {
      ChunkEndsExactly(rest[n..], later.value);
      WholeText(rest, n, later.value, body);
    }
  }

  lemma WholeText(rest: string, n: nat, later: string, body: string)
    requires n <= |rest| && rest[n..] == "\r\n" + later
    ensures n + 2 <= |rest| && rest[n..n + 2] == "\r\n" && rest[n + 2..] == later
    ensures (rest[..n] + body)[..n] == rest[..n] && (rest[..n] + body)[n..] == body
  {
    assert rest[n..n + 2] == rest[n..][..2];
    assert rest[n + 2..] == rest[n..][2..] == later;
  }

  lemma PartOfChunk(rest: string, n: nat, m: nat, body: string, after: string)
    requires n < m && n <= |rest|
    ensures InChunk(rest[n..], m - n, body, after) ==> InChunk(rest, m, rest[..n] + body, after)
  {
    if InChunk(rest[n..], m - n, body, after) {
      PartOfText(rest, n, m, body);
    }
    hide Chunked;
  }

  lemma PartOfText(rest: string, n: nat, m: nat, body: string)
    requires n < m && m + 2 <= |rest| && m - n <= |body| && rest[n..][..m - n] == body[..m - n]
    ensures (rest[..n] + body)[..m] == rest[..m] && (rest[..n] + body)[m..] == body[m - n..]
    ensures rest[n..][m - n..m - n + 2] == rest[m..m + 2] && rest[n..][m - n + 2..] == rest[m + 2..]
  {
    assert rest[..m] == rest[..n] + rest[n..][..m - n];
    assert (rest[..n] + body)[..m] == rest[..n] + body[..m - n];
    assert rest[m..m + 2] == rest[n..][m - n..m - n + 2];
    assert rest[m + 2..] == rest[n..][m - n + 2..] && (rest[..n] + body)[m..] == body[m - n..];
  }

  /** One call of `read_payload` that did not fail, seen backwards. */
  lemma PayloadContinues(before: Decoder, after: Decoder, len: nat, n: int, data: string, off: nat, total: nat,
                         body: string, end: string)
    requires PayloadRead(before, after, len, n, data, off, total) && n >= 0 && !before.finished
    requires Continues(after, body, end)
    ensures Continues(before, (if n == 0 then "" else data) + body, end)
  {
    var ready := OpenChunk(before).value;
    if n == 0 {
      assert "" + body == body;
      OpeningContinues(before, body, end);
    } else {
      TakingContinues(ready, n, body, end);
      OpeningContinues(before, data + body, end);
    }
  }

  /** Every completion of what is left completes the whole text. */
  ghost predicate OnlyChunked(text: string, d: Decoder, delivered: string) {
    forall body, end :: Continues(d, body, end) ==> Chunked(text, delivered + body, end)
  }

  lemma StartIsOnlyChunked(text: string)
    ensures OnlyChunked(text, Decoder(text, 0, false, 0, 0), "")
  {
    forall body, end | Continues(Decoder(text, 0, false, 0, 0), body, end)
      ensures Chunked(text, "" + body, end)
    {
      assert "" + body == body;
    }
  }

  lemma StaysOnlyChunked(text: string, before: Decoder, after: Decoder, len: nat, n: int, data: string,
                         off: nat, total: nat, delivered: string)
    requires OnlyChunked(text, before, delivered) && !before.finished
    requires PayloadRead(before, after, len, n, data, off, total) && n >= 0
    ensures OnlyChunked(text, after, if n == 0 then delivered else delivered + data)
    ensures n == 0 ==> Chunked(text, delivered, after.rest)
    ensures n > 0 ==> !after.finished
  {
    var more := if n == 0 then "" else data;
    FinishedOrNot(before, after, len, n, data, off, total);
    assert delivered + "" == delivered;
    hide PayloadRead, Chunked, Continues;
    forall body, end | Continues(after, body, end)
      ensures Chunked(text, delivered + more + body, end)
    {
      StepBack(text, before, after, len, n, data, off, total, delivered, body, end);
    }
    if n == 0 {
      NothingIsLeft(after);
      assert delivered + more + "" == delivered;
    }
  }

  lemma NothingIsLeft(d: Decoder)
    requires d.finished
    ensures Continues(d, "", d.rest)
  {
  }

  lemma StepBack(text: string, before: Decoder, after: Decoder, len: nat, n: int, data: string, off: nat, total: nat,
                 delivered: string, body: string, end: string)
    requires OnlyChunked(text, before, delivered) && !before.finished
    requires PayloadRead(before, after, len, n, data, off, total) && n >= 0
    requires Continues(after, body, end)
    ensures Chunked(text, delivered + (if n == 0 then "" else data) + body, end)
  {
    var more := if n == 0 then "" else data;
    hide PayloadRead, Chunked, Continues;
    PayloadContinues(before, after, len, n, data, off, total, body, end);
    assert delivered + more + body == delivered + (more + body);
  }

  lemma FinishedOrNot(before: Decoder, after: Decoder, len: nat, n: int, data: string, off: nat, total: nat)
    requires PayloadRead(before, after, len, n, data, off, total) && n >= 0 && !before.finished
    ensures after.finished <==> n == 0
  {
    hide OpenChunk, AfterChunk;
    assert n > 0 ==> !OpenChunk(before).value.finished;
  }
}
