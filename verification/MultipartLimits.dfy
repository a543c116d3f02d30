/**
 Exactly when the multipart round trip holds.  A text without items never makes the parser
 valid, a header line of 8192 characters or more can be cut so that the length check meets
 it before its line break has arrived, and content that holds the boundary is cut short.
 */
module MultipartLimits {
  import opened Common
  import opened Text
  import opened Multipart
  import opened MultipartRoundTrip

  // --- no items ---

  /** The closing boundary alone: still looking for a first boundary, or past a false one. */
  ghost predicate NoEntryYet(cfg: Config, s: State, rest: string) {
    && !s.valid
    && ((s.stage == Preamble && s.buf + rest == Finish(cfg.boundary)) || (s.stage == NewEntry && s.buf + rest == ""))
  }

  lemma FalseBoundaryEndsTheText(cfg: Config, buf: string, rest: string)
    requires '\r' !in cfg.boundary && buf + rest == Finish(cfg.boundary)
    ensures var pos := Find(buf, cfg.DashBoundaryCrlf());
            pos == |buf| || (pos + |cfg.DashBoundaryCrlf()| == |buf| && rest == "")
  {
    var needle, text := cfg.DashBoundaryCrlf(), Finish(cfg.boundary);
    var pos := Find(buf, needle);
    if pos < |buf| {
      OccursInPart(buf, rest, needle, pos);
      var cr := |cfg.boundary| + 2;
      assert text[pos..pos + |needle|][cr] == text[pos + cr] == '\r';
      assert forall i :: 0 <= i < |text| && text[i] == '\r' ==> i == cr + 2;
      assert |needle| == cr + 2 && |text| == cr + 4;
    }
  }

  lemma {:induction false} LoopFindsNoEntry(cfg: Config, s: State, rest: string)
    requires '\r' !in cfg.boundary && NoEntryYet(cfg, s, rest)
    ensures Loop(cfg, s).1 && NoEntryYet(cfg, Loop(cfg, s).0, rest)
  {
    if s.buf != "" {
      FalseBoundaryEndsTheText(cfg, s.buf, rest);
      var o := Turn(cfg, s);
      if o.more {
        assert o.state.buf == "";
      }
    }
  }

  lemma {:induction false} NoItemsIsNeverValid(cfg: Config, s: State, pieces: seq<string>)
    requires '\r' !in cfg.boundary && NoEntryYet(cfg, s, Flatten(pieces))
    ensures var (r, ok) := ParseAll(cfg, s, pieces); ok && !r.valid
    decreases |pieces|
  {
    if pieces != [] {
      var fed := s.(buf := s.buf + pieces[0]);
      assert fed.buf + Flatten(pieces[1..]) == s.buf + Flatten(pieces);
      LoopFindsNoEntry(cfg, fed, Flatten(pieces[1..]));
      NoItemsIsNeverValid(cfg, Loop(cfg, fed).0, pieces[1..]);
    }
  }

  // --- feeding the text line by line ---

  /** A piece that one turn uses up leaves nothing to do. */
  lemma OneTurn(cfg: Config, s: State, piece: string)
    requires s.buf == "" && piece != ""
    ensures var o := Turn(cfg, s.(buf := piece));
            o.more && o.state.buf == "" ==> Parse(cfg, s, piece) == (o.state, true)
  {
    var fed := s.(buf := piece);
    var o := Turn(cfg, fed);
    assert "" + piece == piece;
    if o.more && o.state.buf == "" {
      assert Loop(cfg, o.state) == (o.state, true);
      assert Loop(cfg, fed) == Loop(cfg, o.state);
    }
  }

  lemma FeedRefusedLine(cfg: Config, s: State, line: string)
    requires s.stage == Headers && s.buf == "" && LineOk(line) && cfg.readLine(s.file, line).None?
    ensures !Parse(cfg, s, line + CRLF).1
  {
    assert "" + (line + CRLF) == line + CRLF;
    CrlfCannotOverlap();
    FindInPart(line + CRLF, "", line, CRLF, "");
    assert (line + CRLF)[..|line|] == line;
  }

  /** Feeding exactly one complete header line leaves nothing unread. */
  lemma FeedLine(cfg: Config, s: State, line: string)
    requires s.stage == Headers && s.buf == "" && LineOk(line) && cfg.readLine(s.file, line).Some?
    ensures Parse(cfg, s, line + CRLF) == (s.(file := cfg.readLine(s.file, line).value), true)
  {
    var fed := s.(buf := line + CRLF);
    assert "" + (line + CRLF) == line + CRLF;
    CrlfCannotOverlap();
    FindInPart(line + CRLF, "", line, CRLF, "");
    assert (line + CRLF)[..|line|] == line && (line + CRLF)[|line| + 2..] == "";
    var o := ReadHeaderLine(cfg, fed, |line|);
    assert ReadHeaders(cfg, o.state) == Return(o.state, true);
  }

  lemma FeedBlankLine(cfg: Config, s: State)
    requires Agreeable(cfg) && s.stage == Headers && s.buf == ""
    ensures Parse(cfg, s, CRLF) == (s.(stage := Body, log := s.log + [Header(s.file)]), true)
  {
    FindInPart(CRLF, "", "", CRLF, "");
    assert CRLF[|CRLF|..] == "";
    OneTurn(cfg, s, CRLF);
  }

  lemma FeedBody(cfg: Config, s: State, content: string)
    requires Agreeable(cfg) && s.stage == Body && s.buf == "" && !Occurs(content, cfg.CrlfDashBoundary())
    ensures Parse(cfg, s, content + cfg.CrlfDashBoundary())
         == (s.(stage := Boundary, log := s.log + [Content(content)]), true)
  {
    var end := cfg.CrlfDashBoundary();
    DelimitersCannotOverlap(cfg);
    var piece := content + end;
    assert piece == piece + "" && piece[|content| + |end|..] == "" && piece[..|content|] == content;
    FindInPart(piece, "", content, end, "");
    OneTurn(cfg, s, piece);
  }

  lemma FeedBoundaryEnd(cfg: Config, s: State)
    requires s.stage == Boundary && s.buf == ""
    ensures Parse(cfg, s, CRLF) == (s.(stage := NewEntry), true)
  {
    assert CRLF[0..|CRLF|] == CRLF && CRLF[|CRLF|..] == "";
    OneTurn(cfg, s, CRLF);
  }

  /** The check refuses a line whose first 8193 characters, or whose end without its LF, arrived. */
  lemma FeedLongLine(cfg: Config, s: State, line: string, tail: string)
    requires s.stage == Headers && s.buf == "" && LineShaped(line) && |line| >= HEADER_MAX_LENGTH
    ensures !Parse(cfg, s, (line + CRLF + tail)[..HEADER_MAX_LENGTH + 1]).1
  {
    var text := line + CRLF + tail;
    var part := text[..HEADER_MAX_LENGTH + 1];
    CrlfCannotOverlap();
    assert part + text[HEADER_MAX_LENGTH + 1..] == text;
    FindInPart(part, text[HEADER_MAX_LENGTH + 1..], line, CRLF, tail);
    assert "" + part == part;
  }

  lemma EntryIsHeader(cfg: Config, s: State, pieces: seq<string>)
    requires s.stage == NewEntry && s.buf == "" && pieces != [] && pieces[0] != ""
    ensures ParseAll(cfg, s, pieces) == ParseAll(cfg, s.(stage := Headers, file := NO_FILE), pieces)
  {
    assert "" + pieces[0] == pieces[0];
  }

  /** The state at the boundary after the content. */
  function AtEndOf(s: State, content: string): State {
    s.(stage := Boundary, log := s.log + [Header(s.file)] + [Content(content)])
  }

  lemma CollectItem(s: State, content: string)
    ensures Collect(AtEndOf(s, content).log) == Collect(s.log) + [(s.file, content)]
  {
    CollectOne(s.log, Header(s.file));
    CollectOne(s.log + [Header(s.file)], Content(content));
    assert "" + content == content;
  }

  /** The blank line and the content, up to and including the boundary. */
  lemma FedToBoundary(cfg: Config, s: State, content: string, later: seq<string>)
    requires Agreeable(cfg) && s.stage == Headers && s.buf == "" && !Occurs(content, cfg.CrlfDashBoundary())
    ensures var body := content + cfg.CrlfDashBoundary();
            && ParseAll(cfg, s, [CRLF] + ([body] + later)) == ParseAll(cfg, AtEndOf(s, content), later)
            && Flatten([CRLF] + ([body] + later)) == CRLF + (body + Flatten(later))
  {
    var body := content + cfg.CrlfDashBoundary();
    var blank := Parse(cfg, s, CRLF).0;
    FeedBlankLine(cfg, s);
    FeedBody(cfg, blank, content);
    ParseFirst(cfg, s, CRLF, [body] + later);
    ParseFirst(cfg, blank, body, later);
  }

  lemma ParseFirst(cfg: Config, s: State, piece: string, later: seq<string>)
    requires Parse(cfg, s, piece).1
    ensures ParseAll(cfg, s, [piece] + later) == ParseAll(cfg, Parse(cfg, s, piece).0, later)
    ensures Flatten([piece] + later) == piece + Flatten(later)
  {
    assert ([piece] + later)[1..] == later;
  }

  // --- what was collected before the current item is final ---

  ghost predicate Final(s: State, entries: seq<Entry>) {
    && entries <= Collect(s.log)
    && (s.stage == Body ==> |entries| < |Collect(s.log)|)
    && s.stage != Preamble
  }

  lemma DeliverStaysFinal(cfg: Config, s: State, n: nat, skip: nat, next: Stage, more: bool, entries: seq<Entry>)
    requires Final(s, entries) && s.stage == Body && n + skip <= |s.buf| && next != Preamble
    ensures Final(Deliver(cfg, s, n, skip, next, more).state, entries)
  {
    CollectOne(s.log, Content(s.buf[..n]));
    var before := Collect(s.log);
    assert entries <= AddContent(before, s.buf[..n]);
    hide Collect;
  }

  lemma BodyStaysFinal(cfg: Config, s: State, entries: seq<Entry>)
    requires Final(s, entries) && s.stage == Body
    ensures Final(ReadBody(cfg, s).state, entries)
  {
    var end := cfg.CrlfDashBoundary();
    var pos := Find(s.buf, end);
    if |end| <= |s.buf| && pos < |s.buf| {
      DeliverStaysFinal(cfg, s, pos, |end|, Boundary, true, entries);
    } else if |end| < |s.buf| {
      DeliverStaysFinal(cfg, s, |s.buf| - |end|, 0, Body, false, entries);
    }
    hide Final, Deliver, Find, Config.CrlfDashBoundary;
  }

  lemma {:induction false} HeadersStayFinal(cfg: Config, s: State, entries: seq<Entry>)
    requires Final(s, entries) && s.stage == Headers
    ensures Final(ReadHeaders(cfg, s).state, entries)
    decreases |s.buf|
  {
    var pos := Find(s.buf, CRLF);
    if pos == 0 < |s.buf| {
      CollectOne(s.log, Header(s.file));
    } else if pos < |s.buf| {
      var o := ReadHeaderLine(cfg, s, pos);
      if o.more {
        HeadersStayFinal(cfg, o.state, entries);
      }
    }
  }

  lemma TurnStaysFinal(cfg: Config, s: State, entries: seq<Entry>)
    requires Final(s, entries) && s.buf != ""
    ensures Final(Turn(cfg, s).state, entries)
  {
    hide Collect, Find, ReadHeaders, ReadBody;
    match s.stage {
      case Headers => HeadersStayFinal(cfg, s, entries);
      case Body => BodyStaysFinal(cfg, s, entries);
      case _ =>
    }
  }

  lemma {:induction false} LoopStaysFinal(cfg: Config, s: State, entries: seq<Entry>)
    requires Final(s, entries)
    ensures Final(Loop(cfg, s).0, entries)
    decreases Measure(s)
  {
    if s.buf != "" {
      TurnStaysFinal(cfg, s, entries);
      var o := Turn(cfg, s);
      if o.more {
        LoopStaysFinal(cfg, o.state, entries);
      }
    }
  }

  lemma {:induction false} PiecesStayFinal(cfg: Config, s: State, pieces: seq<string>, entries: seq<Entry>)
    requires Final(s, entries)
    ensures Final(ParseAll(cfg, s, pieces).0, entries)
    decreases |pieces|
  {
    if pieces != [] {
      var fed := s.(buf := s.buf + pieces[0]);
      LoopStaysFinal(cfg, fed, entries);
      PiecesStayFinal(cfg, Loop(cfg, fed).0, pieces[1..], entries);
    }
  }

  // --- spoiling the round trip ---

  ghost predicate AllShaped(items: seq<Item>) {
    forall item :: item in items ==> ItemShaped(item)
  }

  predicate LongLineIn(lines: seq<string>) {
    exists line :: line in lines && |line| >= 8192
  }

  /** A header line is too long or not accepted. */
  predicate BadLineIn(cfg: Config, file: FormData, lines: seq<string>) {
    LongLineIn(lines) || Filed(cfg, file, lines).None?
  }

  predicate Breaks(cfg: Config, file: FormData, lines: seq<string>, content: string) {
    BadLineIn(cfg, file, lines) || Occurs(content, cfg.CrlfDashBoundary())
  }

  /** Some item has a bad header line, or content that holds the boundary. */
  predicate HasBreaker(cfg: Config, items: seq<Item>) {
    exists item :: item in items && Breaks(cfg, NO_FILE, HeaderLines(item), item.content)
  }

  /** The data of an item's header lines, if they are accepted, and its content. */
  type Expectation = (Option<FormData>, string)

  function Expected(cfg: Config, items: seq<Item>): seq<Expectation> {
    seq(|items|, i requires 0 <= i < |items| => (Filed(cfg, NO_FILE, HeaderLines(items[i])), items[i].content))
  }

  /** Entries that were collected, as expectations that were met. */
  function Met(entries: seq<Entry>): seq<Expectation> {
    seq(|entries|, i requires 0 <= i < |entries| => (Some(entries[i].0), entries[i].1))
  }

  /** Only a bad header line can break something here. */
  predicate Clean(cfg: Config, content: string, more: seq<Item>) {
    && !Occurs(content, cfg.CrlfDashBoundary())
    && forall item :: item in more ==> !Occurs(item.content, cfg.CrlfDashBoundary())
  }

  /**
   `pieces` are a way of cutting `text` that is refused or does not bring the entries in
   `want`, and certainly refused if `clean`.
   */
  ghost predicate Spoils(cfg: Config, s: State, pieces: seq<string>, text: string,
                         want: seq<Expectation>, clean: bool)
  {
    && pieces != [] && pieces[0] != ""
    && Flatten(pieces) == text
    && var (r, ok) := ParseAll(cfg, s, pieces);
       && !(ok && Met(Collect(r.log)) == want)
       && (clean ==> !ok)
  }

  lemma SpoiledByLongLine(cfg: Config, s: State, line: string, tail: string, want: seq<Expectation>, clean: bool)
    returns (pieces: seq<string>)
    requires s.stage == Headers && s.buf == "" && LineShaped(line) && |line| >= HEADER_MAX_LENGTH
    ensures Spoils(cfg, s, pieces, line + CRLF + tail, want, clean)
  {
    var text := line + CRLF + tail;
    FeedLongLine(cfg, s, line, tail);
    pieces := [text[..HEADER_MAX_LENGTH + 1], text[HEADER_MAX_LENGTH + 1..]];
    assert Flatten(pieces[1..]) == text[HEADER_MAX_LENGTH + 1..] + Flatten([]);
  }

  lemma SpoiledByRefusedLine(cfg: Config, s: State, line: string, tail: string, want: seq<Expectation>, clean: bool)
    returns (pieces: seq<string>)
    requires s.stage == Headers && s.buf == "" && LineOk(line) && cfg.readLine(s.file, line).None?
    ensures Spoils(cfg, s, pieces, line + CRLF + tail, want, clean)
  {
    pieces := [line + CRLF, tail];
    FeedRefusedLine(cfg, s, line);
    assert Flatten(pieces[1..]) == tail + Flatten([]);
  }

  /** The delimiter in the content ends it early, and what was collected then is final. */
  lemma SpoiledByContent(cfg: Config, s: State, content: string, after: string, want: seq<Expectation>)
    returns (pieces: seq<string>)
    requires Agreeable(cfg) && s.stage == Headers && s.buf == "" && Occurs(content, cfg.CrlfDashBoundary())
    requires |want| > |Collect(s.log)| && want[|Collect(s.log)|].1 == content
    ensures Spoils(cfg, s, pieces, CRLF + (content + cfg.CrlfDashBoundary() + after), want, false)
  {
    var end := cfg.CrlfDashBoundary();
    var pos := FirstOccurrence(content, end);
    var short, rest := content[..pos], content[pos + |end|..] + end + after;
    pieces := [CRLF] + ([short + end] + [rest]);
    FedToBoundary(cfg, s, short, [rest]);
    CollectItem(s, short);
    var entries := Collect(s.log) + [(s.file, short)];
    PiecesStayFinal(cfg, AtEndOf(s, short), [rest], entries);
    hide Collect, ParseAll, Occurs;
    assert content == short + end + content[pos + |end|..];
    CutRegroups(short, end, content[pos + |end|..], after);
    assert entries[|Collect(s.log)|].1 == short != content;
  }

  lemma CutRegroups(short: string, end: string, left: string, after: string)
    ensures CRLF + ((short + end) + Flatten([left + end + after])) == CRLF + ((short + end + left) + end + after)
  {
    assert Flatten([left + end + after]) == left + end + after + Flatten([]);
  }

  lemma FirstOccurrence(content: string, end: string) returns (pos: nat)
    requires end != "" && Occurs(content, end)
    ensures OccursAt(content, end, pos) && !Occurs(content[..pos], end)
  {
    pos := Find(content, end);
    var i: nat :| i <= |content| && OccursAt(content, end, i);
    forall k: nat | k <= pos && OccursAt(content[..pos], end, k)
      ensures false
    {
      assert content[..pos][k..k + |end|] == content[k..k + |end|];
      assert OccursAt(content, end, k);
    }
  }

  lemma SpoiledAfterLine(cfg: Config, s: State, line: string, later: seq<string>, tail: string,
                         want: seq<Expectation>, clean: bool)
    requires s.stage == Headers && s.buf == "" && LineOk(line) && cfg.readLine(s.file, line).Some?
    requires Spoils(cfg, s.(file := cfg.readLine(s.file, line).value), later, tail, want, clean)
    ensures Spoils(cfg, s, [line + CRLF] + later, line + CRLF + tail, want, clean)
  {
    FeedLine(cfg, s, line);
    ParseFirst(cfg, s, line + CRLF, later);
  }

  /** The state at the first header line of the item that follows. */
  function AtNextItem(s: State, content: string): State {
    AtEndOf(s, content).(stage := Headers, file := NO_FILE)
  }

  lemma SpoiledAfterItem(cfg: Config, s: State, content: string, later: seq<string>, tail: string,
                         want: seq<Expectation>, clean: bool)
    returns (pieces: seq<string>)
    requires Agreeable(cfg) && s.stage == Headers && s.buf == "" && !Occurs(content, cfg.CrlfDashBoundary())
    requires Spoils(cfg, AtNextItem(s, content), later, tail, want, clean)
    ensures Spoils(cfg, s, pieces, CRLF + (content + cfg.CrlfDashBoundary() + (CRLF + tail)), want, clean)
  {
    pieces := [CRLF] + ([content + cfg.CrlfDashBoundary()] + ([CRLF] + later));
    FedToBoundary(cfg, s, content, [CRLF] + later);
    FeedBoundaryEnd(cfg, AtEndOf(s, content));
    ParseFirst(cfg, AtEndOf(s, content), CRLF, later);
    EntryIsHeader(cfg, AtEndOf(s, content).(stage := NewEntry), later);
  }

  /** What is expected of the whole text, when the parser stands before the header lines `lines`. */
  function Wanted(cfg: Config, lines: seq<string>, content: string, more: seq<Item>, s: State): seq<Expectation> {
    Met(Collect(s.log)) + [(Filed(cfg, s.file, lines), content)] + Expected(cfg, more)
  }

  lemma ExpectedFirst(cfg: Config, items: seq<Item>)
    requires items != []
    ensures Expected(cfg, items)
         == [(Filed(cfg, NO_FILE, HeaderLines(items[0])), items[0].content)] + Expected(cfg, items[1..])
  {
  }

  lemma MetOneMore(entries: seq<Entry>, e: Entry)
    ensures Met(entries + [e]) == Met(entries) + [(Some(e.0), e.1)]
  {
  }

  lemma WantedAtNextItem(cfg: Config, content: string, more: seq<Item>, s: State)
    requires more != []
    ensures Wanted(cfg, [], content, more, s)
         == Wanted(cfg, HeaderLines(more[0]), more[0].content, more[1..], AtNextItem(s, content))
  {
    hide HeaderLines, Expected, Collect, Met;
    ExpectedFirst(cfg, more);
    CollectItem(s, content);
    MetOneMore(Collect(s.log), (s.file, content));
    assert Filed(cfg, s.file, []) == Some(s.file);
  }

  /** From the start of a header line on, with a breaker still to come, some pieces spoil the round trip. */
  lemma {:induction false} SpoiledFromHeader(cfg: Config, lines: seq<string>, content: string, more: seq<Item>,
                                             s: State)
    returns (pieces: seq<string>)
    requires Agreeable(cfg) && s.stage == Headers && s.buf == ""
    requires (forall line :: line in lines ==> LineShaped(line)) && AllShaped(more)
    requires Breaks(cfg, s.file, lines, content) || HasBreaker(cfg, more)
    ensures Spoils(cfg, s, pieces, SectionText(cfg, lines, content, more), Wanted(cfg, lines, content, more, s),
                   Clean(cfg, content, more))
    decreases |more|, |lines|
  {
    hide DispositionLine, HeaderLines, Occurs, Expected, Met, Collect;
    var want, clean := Wanted(cfg, lines, content, more, s), Clean(cfg, content, more);
    if lines == [] {
      assert SectionText(cfg, lines, content, more) == CRLF + (content + cfg.CrlfDashBoundary() + After(cfg, more));
      if Occurs(content, cfg.CrlfDashBoundary()) {
        WantedContent(cfg, lines, content, more, s);
        pieces := SpoiledByContent(cfg, s, content, After(cfg, more), want);
      } else {
        BreakerIsNext(cfg, more);
        WantedAtNextItem(cfg, content, more, s);
        ShapedFirst(more);
        var item, text := more[0], SectionText(cfg, HeaderLines(more[0]), more[0].content, more[1..]);
        var later := SpoiledFromHeader(cfg, HeaderLines(item), item.content, more[1..], AtNextItem(s, content));
        pieces := SpoiledAfterItem(cfg, s, content, later, text, want, clean);
      }
    } else {
      var line, tail := lines[0], SectionText(cfg, lines[1..], content, more);
      FirstLineText(cfg, lines, content, more);
      if |line| >= HEADER_MAX_LENGTH {
        pieces := SpoiledByLongLine(cfg, s, line, tail, want, clean);
      } else if cfg.readLine(s.file, line).None? {
        pieces := SpoiledByRefusedLine(cfg, s, line, tail, want, clean);
      } else {
        var read := s.(file := cfg.readLine(s.file, line).value);
        var later := SpoiledFromHeader(cfg, lines[1..], content, more, read);
        pieces := [line + CRLF] + later;
        SpoiledAfterLine(cfg, s, line, later, tail, want, clean);
      }
    }
  }

  lemma WantedContent(cfg: Config, lines: seq<string>, content: string, more: seq<Item>, s: State)
    ensures var want, n := Wanted(cfg, lines, content, more, s), |Collect(s.log)|;
            |want| > n && want[n].1 == content
  {
  }

  lemma BreakerIsNext(cfg: Config, more: seq<Item>)
    requires HasBreaker(cfg, more)
    ensures more != []
    ensures Breaks(cfg, NO_FILE, HeaderLines(more[0]), more[0].content) || HasBreaker(cfg, more[1..])
  {
    var item :| item in more && Breaks(cfg, NO_FILE, HeaderLines(item), item.content);
    assert item == more[0] || item in more[1..];
  }

  lemma FeedFirstBoundary(cfg: Config)
    ensures Parse(cfg, START, cfg.DashBoundaryCrlf()) == (START.(stage := NewEntry), true)
  {
    var needle := cfg.DashBoundaryCrlf();
    assert needle == "" + needle + "" == needle + "";
    FindInPart(needle, "", "", needle, "");
    assert needle[|needle|..] == "";
    OneTurn(cfg, START, needle);
  }

  lemma SerializedStartsWithBoundary(cfg: Config, items: seq<Item>)
    requires items != []
    ensures Serialized(items, cfg.boundary)
         == cfg.DashBoundaryCrlf() + SectionText(cfg, HeaderLines(items[0]), items[0].content, items[1..])
  {
    SerializedIsBoundaryAfter(cfg, items);
    FirstBoundaryText(cfg, items);
  }

  lemma SpoiledAfterBoundary(cfg: Config, later: seq<string>, tail: string, want: seq<Expectation>, clean: bool)
    requires Spoils(cfg, START.(stage := Headers), later, tail, want, clean)
    ensures Spoils(cfg, START, [cfg.DashBoundaryCrlf()] + later, cfg.DashBoundaryCrlf() + tail, want, clean)
  {
    FeedFirstBoundary(cfg);
    ParseFirst(cfg, START, cfg.DashBoundaryCrlf(), later);
    EntryIsHeader(cfg, START.(stage := NewEntry), later);
    hide Parse, ParseAll, Flatten, Collect;
  }

  lemma WantedFromStart(cfg: Config, items: seq<Item>)
    requires items != []
    ensures Wanted(cfg, HeaderLines(items[0]), items[0].content, items[1..], START.(stage := Headers))
         == Expected(cfg, items)
  {
    hide HeaderLines, Filed;
    ExpectedFirst(cfg, items);
  }

  lemma ShapedFirst(items: seq<Item>)
    requires items != [] && AllShaped(items)
    ensures AllShaped(items[1..]) && forall line :: line in HeaderLines(items[0]) ==> LineShaped(line)
  {
    assert ItemShaped(items[0]);
    assert forall item :: item in items[1..] ==> item in items;
    hide HeaderLines, LineShaped;
  }

  /**
   With a breaker among the items some way of cutting the text is refused or loses something;
   if the breaker is not some content, it is refused.
   */
  lemma BreakerSpoilsSomeSplit(cfg: Config, items: seq<Item>) returns (pieces: seq<string>)
    requires Agreeable(cfg) && AllShaped(items) && HasBreaker(cfg, items)
    ensures Spoils(cfg, START, pieces, Serialized(items, cfg.boundary), Expected(cfg, items), Clean(cfg, "", items))
  {
    var item, first := items[0], START.(stage := Headers);
    BreakerIsNext(cfg, items);
    WantedFromStart(cfg, items);
    ShapedFirst(items);
    CleanItems(cfg, items);
    hide HeaderLines, SectionText, Breaks, Filed, LineShaped, Serialized, Expected, Wanted, AllShaped;
    hide Clean, ParseAll, Collect, Flatten, Config.DashBoundaryCrlf;
    var later := SpoiledFromHeader(cfg, HeaderLines(item), item.content, items[1..], first);
    pieces := [cfg.DashBoundaryCrlf()] + later;
    SerializedStartsWithBoundary(cfg, items);
    SpoiledAfterBoundary(cfg, later, SectionText(cfg, HeaderLines(item), item.content, items[1..]),
                         Expected(cfg, items), Clean(cfg, item.content, items[1..]));
  }

  lemma CleanItems(cfg: Config, items: seq<Item>)
    requires items != []
    ensures Clean(cfg, "", items) ==> Clean(cfg, items[0].content, items[1..])
  {
  }

  predicate HasBadLine(cfg: Config, items: seq<Item>) {
    exists item :: item in items && BadLineIn(cfg, NO_FILE, HeaderLines(item))
  }

  /** Wherever a header line that is too long or not accepted stands, some way of cutting the text is refused. */
  lemma BadLineIsRefusedSomewhere(cfg: Config, items: seq<Item>) returns (pieces: seq<string>)
    requires Agreeable(cfg) && AllShaped(items) && HasBadLine(cfg, items)
    requires forall item :: item in items ==> !Occurs(item.content, cfg.CrlfDashBoundary())
    ensures Flatten(pieces) == Serialized(items, cfg.boundary) && !ParseAll(cfg, START, pieces).1
  {
    var item :| item in items && BadLineIn(cfg, NO_FILE, HeaderLines(item));
    assert Breaks(cfg, NO_FILE, HeaderLines(item), item.content);
    assert !Occurs("", cfg.CrlfDashBoundary());
    pieces := BreakerSpoilsSomeSplit(cfg, items);
  }

  /** Every way of cutting the serialised text gives back the items. */
  ghost predicate RoundTrips(cfg: Config, items: seq<Item>) {
    forall pieces :: Flatten(pieces) == Serialized(items, cfg.boundary) ==> GivesBack(cfg, items, pieces)
  }

  ghost predicate GivesBack(cfg: Config, items: seq<Item>, pieces: seq<string>) {
    var (r, ok) := ParseAll(cfg, START, pieces);
    ok && r.valid && Met(Collect(r.log)) == Expected(cfg, items)
  }

  lemma GoodItemsComeBack(cfg: Config, items: seq<Item>, pieces: seq<string>)
    requires Agreeable(cfg) && items != [] && AllOk(cfg, items)
    requires Flatten(pieces) == Serialized(items, cfg.boundary)
    ensures GivesBack(cfg, items, pieces)
  {
    assert !Occurs("", cfg.DashBoundaryCrlf());
    assert "" + Serialized(items, cfg.boundary) == Serialized(items, cfg.boundary);
    RoundTripUnderAnySplit(cfg, "", items, pieces);
    hide ParseAll, Flatten, Serialized, Collect, HeaderLines, Filed;
    forall item | item in items
      ensures Filed(cfg, NO_FILE, HeaderLines(item)).Some?
    {
      assert ItemOk(cfg, item);
    }
    EntriesMeet(cfg, items);
  }

  lemma EntriesMeet(cfg: Config, items: seq<Item>)
    requires forall item :: item in items ==> Filed(cfg, NO_FILE, HeaderLines(item)).Some?
    ensures Met(Entries(cfg, items)) == Expected(cfg, items)
  {
    hide HeaderLines, Filed;
    forall i | 0 <= i < |items|
      ensures Met(Entries(cfg, items))[i] == Expected(cfg, items)[i]
    {
      assert items[i] in items;
    }
  }

  /**
   The exact condition: for items whose header lines can be told apart, the round trip holds
   under every split if and only if there is an item, every header line is accepted and
   shorter than 8192 characters, and no content holds the boundary behind a line break.
   */
  lemma RoundTripsExactly(cfg: Config, items: seq<Item>)
    requires Agreeable(cfg) && AllShaped(items)
    ensures RoundTrips(cfg, items) <==> items != [] && !HasBreaker(cfg, items)
  {
    if items == [] {
      var whole := [Serialized(items, cfg.boundary)];
      assert Flatten(whole) == whole[0] + Flatten([]) == whole[0];
      assert START.buf + Flatten(whole) == Flatten(whole);
      NoItemsIsNeverValid(cfg, START, whole);
      assert !GivesBack(cfg, items, whole);
    } else if HasBreaker(cfg, items) {
      var pieces := BreakerSpoilsSomeSplit(cfg, items);
      assert !GivesBack(cfg, items, pieces);
    } else {
      forall item | item in items
        ensures ItemOk(cfg, item)
      {
        assert ItemShaped(item) && !Breaks(cfg, NO_FILE, HeaderLines(item), item.content);
      }
      forall pieces | Flatten(pieces) == Serialized(items, cfg.boundary)
        ensures GivesBack(cfg, items, pieces)
      {
        GoodItemsComeBack(cfg, items, pieces);
      }
    }
  }
}
