/**
 Serialising form items and parsing the text again, in any pieces.  The proof follows a
 place in the grammar of the text: what is still to be read (the buffer and the pieces not
 yet fed) is always the text from some place on, and what the callbacks received together
 with what that text will still bring is always the whole list of items.
 */
module MultipartRoundTrip {
  import opened Common
  import opened Text
  import opened Multipart

  datatype Item = Item(name: string, filename: string, contentType: string, content: string)

  function DispositionLine(item: Item): string {
    "Content-Disposition: form-data; name=\"" + item.name + "\""
    + (if item.filename == "" then "" else "; filename=\"" + item.filename + "\"")
  }

  function HeaderLines(item: Item): seq<string> {
    [DispositionLine(item)]
    + (if item.contentType == "" then [] else ["Content-Type: " + item.contentType])
  }

  function ItemBegin(item: Item, boundary: string): string {
    DASH + boundary + CRLF + DispositionLine(item) + CRLF
    + (if item.contentType == "" then "" else "Content-Type: " + item.contentType + CRLF) + CRLF
  }

  function Finish(boundary: string): string {
    DASH + boundary + DASH + CRLF
  }

  /** The text of all items and the closing boundary. */
  function Serialized(items: seq<Item>, boundary: string): string {
    if items == [] then Finish(boundary)
    else ItemText(items[0], boundary) + Serialized(items[1..], boundary)
  }

  function ItemText(item: Item, boundary: string): string {
    ItemBegin(item, boundary) + (item.content + CRLF)
  }

  /** The concatenation of the original, item by item from the front. */
  method Serialize(items: seq<Item>, boundary: string) returns (body: string)
    ensures body == Serialized(items, boundary)
  {
    hide ItemBegin, Finish;
    body := "";
    for i := 0 to |items|
      invariant body + Serialized(items[i..], boundary) == Serialized(items, boundary)
    {
      ghost var before, text, rest := body, ItemText(items[i], boundary), Serialized(items[i + 1..], boundary);
      assert items[i..][1..] == items[i + 1..];
      body := body + ItemBegin(items[i], boundary);
      body := body + (items[i].content + CRLF);
      AppendIsAssociative(before, ItemBegin(items[i], boundary), items[i].content + CRLF);
      AppendIsAssociative(before, text, rest);
    }
    body := body + Finish(boundary);
  }

  lemma AppendIsAssociative(a: string, b: string, c: string)
    ensures (a + b) + c == a + (b + c)
  {
  }

  predicate BoundaryCharValid(c: char) {
    '0' <= c <= '9' || 'a' <= c <= 'z' || 'A' <= c <= 'Z' || c == '-' || c == '_'
  }

  method IsBoundaryValid(boundary: string) returns (valid: bool)
    ensures valid == forall i :: 0 <= i < |boundary| ==> BoundaryCharValid(boundary[i])
  {
    valid := true;
    for i := 0 to |boundary|
      invariant valid && forall j :: 0 <= j < i ==> BoundaryCharValid(boundary[j])
    {
      if !BoundaryCharValid(boundary[i]) {
        valid := false;
        break;
      }
    }
  }

  // --- the text, from any place on ---

  function HeaderText(lines: seq<string>): string {
    if lines == [] then "" else lines[0] + CRLF + HeaderText(lines[1..])
  }

  function SectionText(cfg: Config, lines: seq<string>, content: string, more: seq<Item>): string
    decreases |more|, 2
  {
    HeaderText(lines) + CRLF + BodyText(cfg, content, more)
  }

  function BodyText(cfg: Config, content: string, more: seq<Item>): string
    decreases |more|, 1
  {
    content + cfg.CrlfDashBoundary() + After(cfg, more)
  }

  /** What follows a boundary. */
  function After(cfg: Config, items: seq<Item>): string
    decreases |items|, 0
  {
    if items == [] then DASH + CRLF
    else CRLF + SectionText(cfg, HeaderLines(items[0]), items[0].content, items[1..])
  }

  lemma HeaderTextOf(item: Item)
    ensures HeaderText(HeaderLines(item)) == DispositionLine(item) + CRLF
              + (if item.contentType == "" then "" else "Content-Type: " + item.contentType + CRLF)
  {
    var lines := HeaderLines(item);
    if item.contentType != "" {
      var typeLine := "Content-Type: " + item.contentType;
      assert lines[1..] == [typeLine];
      assert HeaderText([typeLine]) == typeLine + CRLF + "" == typeLine + CRLF;
    }
  }

  lemma Regroup(b: string, h: string, content: string, after: string)
    ensures (b + CRLF + h + CRLF) + (content + CRLF) + (b + after)
         == b + (CRLF + (h + CRLF + (content + (CRLF + b) + after)))
  {
  }

  lemma {:induction false} SerializedIsBoundaryAfter(cfg: Config, items: seq<Item>)
    ensures Serialized(items, cfg.boundary) == DASH + cfg.boundary + After(cfg, items)
  {
    var b := DASH + cfg.boundary;
    if items == [] {
      assert b + (DASH + CRLF) == Finish(cfg.boundary);
    } else {
      var item, more := items[0], items[1..];
      var h := HeaderText(HeaderLines(item));
      SerializedIsBoundaryAfter(cfg, more);
      HeaderTextOf(item);
      Regroup(b, h, item.content, After(cfg, more));
      assert ItemBegin(item, cfg.boundary) == b + CRLF + h + CRLF;
      assert ItemText(item, cfg.boundary) == (b + CRLF + h + CRLF) + (item.content + CRLF);
      assert cfg.CrlfDashBoundary() == CRLF + b;
      assert BodyText(cfg, item.content, more) == item.content + (CRLF + b) + After(cfg, more);
      assert After(cfg, items) == CRLF + (h + CRLF + BodyText(cfg, item.content, more));
    }
  }

  // --- what the items must satisfy, and what comes out ---

  /** The form data after a number of header lines, if every line is accepted. */
  function Filed(cfg: Config, file: FormData, lines: seq<string>): Option<FormData>
    decreases |lines|
  {
    if lines == [] then Some(file)
    else match cfg.readLine(file, lines[0])
      case None => None
      case Some(next) => Filed(cfg, next, lines[1..])
  }

  predicate LineShaped(line: string) {
    line != "" && !Occurs(line, CRLF)
  }

  /** A header line is not empty, holds no line break, and stays below the length limit. */
  predicate LineOk(line: string) {
    LineShaped(line) && |line| < HEADER_MAX_LENGTH
  }

  /** Header lines that can be told apart. */
  ghost predicate ItemShaped(item: Item) {
    forall line :: line in HeaderLines(item) ==> LineShaped(line)
  }

  /** The lines are accepted, none is too long, and the content does not hold the boundary. */
  ghost predicate ItemOk(cfg: Config, item: Item) {
    && Filed(cfg, NO_FILE, HeaderLines(item)).Some?
    && (forall line :: line in HeaderLines(item) ==> LineOk(line))
    && !Occurs(item.content, cfg.CrlfDashBoundary())
  }

  ghost predicate Agreeable(cfg: Config) {
    && '\r' !in cfg.boundary
    && (forall file :: cfg.onHeader(file))
    && (forall data :: cfg.onContent(data))
  }

  type Entry = (FormData, string)

  function ItemEntry(cfg: Config, item: Item): Entry
    requires Filed(cfg, NO_FILE, HeaderLines(item)).Some?
  {
    (Filed(cfg, NO_FILE, HeaderLines(item)).value, item.content)
  }

  ghost predicate AllOk(cfg: Config, items: seq<Item>) {
    forall item :: item in items ==> ItemOk(cfg, item)
  }

  function Entries(cfg: Config, items: seq<Item>): seq<Entry>
    requires forall item :: item in items ==> Filed(cfg, NO_FILE, HeaderLines(item)).Some?
  {
    seq(|items|, i requires 0 <= i < |items| => ItemEntry(cfg, items[i]))
  }

  /** What the callbacks received: each header with all content that followed it. */
  function Collect(log: seq<Event>): seq<Entry> {
    if log == [] then []
    else
      var before := Collect(log[..|log| - 1]);
      match log[|log| - 1]
      case Header(file) => before + [(file, "")]
      case Content(data) => if before == [] then [] else AddContent(before, data)
  }

  function AddContent(entries: seq<Entry>, data: string): seq<Entry>
    requires entries != []
  {
    var last := entries[|entries| - 1];
    entries[..|entries| - 1] + [(last.0, last.1 + data)]
  }

  lemma CollectOne(log: seq<Event>, e: Event)
    ensures Collect(log + [e]) ==
            if e.Header? then Collect(log) + [(e.file, "")]
            else if Collect(log) == [] then [] else AddContent(Collect(log), e.data)
  {
    assert (log + [e])[..|log|] == log;
  }

  // --- places ---

  datatype Place =
    | AtStart(preamble: string, items: seq<Item>)
    | AtEntry(items: seq<Item>)
    | AtHeader(lines: seq<string>, content: string, more: seq<Item>)
    | AtBody(content: string, more: seq<Item>)
    | AtBoundary(more: seq<Item>)
    | AtEnd

  ghost predicate PlaceOk(cfg: Config, place: Place, file: FormData) {
    match place
    case AtStart(preamble, items) => items != [] && AllOk(cfg, items) && !Occurs(preamble, cfg.DashBoundaryCrlf())
    case AtEntry(items) => items != [] && AllOk(cfg, items)
    case AtHeader(lines, content, more) =>
      && (forall line :: line in lines ==> LineOk(line))
      && Filed(cfg, file, lines).Some?
      && !Occurs(content, cfg.CrlfDashBoundary())
      && AllOk(cfg, more)
    case AtBody(content, more) => !Occurs(content, cfg.CrlfDashBoundary()) && AllOk(cfg, more)
    case AtBoundary(more) => AllOk(cfg, more)
    case AtEnd => true
  }

  /** What is still to be read at a place; at the end a part of the last line break may be left. */
  ghost predicate TextAt(cfg: Config, place: Place, stage: Stage, text: string) {
    match place
    case AtStart(preamble, items) => stage == Preamble && text == preamble + (DASH + cfg.boundary + After(cfg, items))
    case AtEntry(items) =>
      stage == NewEntry && items != [] && text == SectionText(cfg, HeaderLines(items[0]), items[0].content, items[1..])
    case AtHeader(lines, content, more) => stage == Headers && text == SectionText(cfg, lines, content, more)
    case AtBody(content, more) => stage == Body && text == BodyText(cfg, content, more)
    case AtBoundary(more) => stage == Boundary && text == After(cfg, more)
    case AtEnd =>
      (stage == NewEntry && text == "") || (stage == Boundary && (text == "" || text == "\n" || text == CRLF))
  }

  /** The entries the text from a place on will add to those collected so far. */
  ghost predicate Owes(cfg: Config, place: Place, s: State, total: seq<Entry>)
    requires PlaceOk(cfg, place, s.file)
  {
    var done := Collect(s.log);
    match place
    case AtStart(_, items) => done + Entries(cfg, items) == total
    case AtEntry(items) => done + Entries(cfg, items) == total
    case AtHeader(lines, content, more) =>
      done + [(Filed(cfg, s.file, lines).value, content)] + Entries(cfg, more) == total
    case AtBody(content, more) => done != [] && AddContent(done, content) + Entries(cfg, more) == total
    case AtBoundary(more) => done + Entries(cfg, more) == total
    case AtEnd => s.valid && done == total
  }

  /** The parser stands at `place`, with `rest` not yet fed, on the way to `total`. */
  ghost predicate StandsAt(cfg: Config, place: Place, s: State, rest: string, total: seq<Entry>) {
    && PlaceOk(cfg, place, s.file)
    && TextAt(cfg, place, s.stage, s.buf + rest)
    && Owes(cfg, place, s, total)
  }

  /** After a turn the parser stands at `next`; it stops early only for want of input. */
  ghost predicate TurnOk(cfg: Config, o: Outcome, next: Place, rest: string, total: seq<Entry>) {
    && o.ok
    && StandsAt(cfg, next, o.state, rest, total)
    && (!o.more && rest == "" ==> next.AtEnd?)
  }

  lemma TurnInPreamble(cfg: Config, s: State)
    requires s.buf != "" && s.stage == Preamble
    ensures var needle := cfg.DashBoundaryCrlf();
            var pos := Find(s.buf, needle);
            Turn(cfg, s) == if pos == |s.buf| then Return(s, true)
                            else Again(s.(buf := s.buf[pos + |needle|..], stage := NewEntry))
  {
    hide Find, Config.DashBoundaryCrlf;
  }

  lemma FromStartToEntry(cfg: Config, preamble: string, items: seq<Item>, s: State, t: State, rest: string,
                         total: seq<Entry>)
    requires StandsAt(cfg, AtStart(preamble, items), s, rest, total)
    requires t.log == s.log && t.stage == NewEntry
    requires t.buf + rest == SectionText(cfg, HeaderLines(items[0]), items[0].content, items[1..])
    ensures StandsAt(cfg, AtEntry(items), t, rest, total)
  {
    hide SectionText, HeaderLines, Entries, AllOk, Collect;
  }

  lemma DelimitersCannotOverlap(cfg: Config)
    requires Agreeable(cfg)
    ensures CannotOverlapItself(cfg.CrlfDashBoundary()) && CannotOverlapItself(cfg.DashBoundaryCrlf())
  {
    FirstCharacterIsUnique(cfg.CrlfDashBoundary());
    LineEndIsUnique(DASH + cfg.boundary);
  }

  lemma StandsAtStart(cfg: Config, preamble: string, items: seq<Item>, s: State, rest: string, total: seq<Entry>)
    requires Agreeable(cfg) && StandsAt(cfg, AtStart(preamble, items), s, rest, total)
    ensures items != [] && s.stage == Preamble && !Occurs(preamble, cfg.DashBoundaryCrlf())
    ensures s.buf + rest == preamble + cfg.DashBoundaryCrlf()
                            + SectionText(cfg, HeaderLines(items[0]), items[0].content, items[1..])
  {
    FirstBoundaryText(cfg, items);
    hide SectionText, HeaderLines, After, Entries, AllOk, Collect, Occurs, Config.DashBoundaryCrlf;
  }

  lemma TurnAtStart(cfg: Config, preamble: string, items: seq<Item>, s: State, rest: string, total: seq<Entry>)
    returns (next: Place)
    requires Agreeable(cfg) && s.buf != "" && StandsAt(cfg, AtStart(preamble, items), s, rest, total)
    ensures TurnOk(cfg, Turn(cfg, s), next, rest, total)
  {
    var needle := cfg.DashBoundaryCrlf();
    hide SectionText, HeaderLines, After, StandsAt, Find, Turn, Occurs, CannotOverlapItself, Config.DashBoundaryCrlf;
    StandsAtStart(cfg, preamble, items, s, rest, total);
    DelimitersCannotOverlap(cfg);
    TurnInPreamble(cfg, s);
    var section := SectionText(cfg, HeaderLines(items[0]), items[0].content, items[1..]);
    CutInPart(s.buf, rest, preamble, needle, section);
    if |preamble| + |needle| <= |s.buf| {
      next := AtEntry(items);
      var read := Again(s.(buf := s.buf[|preamble| + |needle|..], stage := NewEntry)).state;
      FromStartToEntry(cfg, preamble, items, s, read, rest, total);
    } else {
      next := AtStart(preamble, items);
    }
  }

  lemma FirstBoundaryText(cfg: Config, items: seq<Item>)
    requires items != []
    ensures cfg.DashBoundaryCrlf() != ""
    ensures DASH + cfg.boundary + After(cfg, items)
         == cfg.DashBoundaryCrlf() + SectionText(cfg, HeaderLines(items[0]), items[0].content, items[1..])
  {
    hide HeaderLines, SectionText;
    var section := SectionText(cfg, HeaderLines(items[0]), items[0].content, items[1..]);
    assert After(cfg, items) == CRLF + section;
  }

  lemma TurnAtEntry(cfg: Config, items: seq<Item>, s: State, rest: string, total: seq<Entry>) returns (next: Place)
    requires Agreeable(cfg) && s.buf != "" && StandsAt(cfg, AtEntry(items), s, rest, total)
    ensures TurnOk(cfg, Turn(cfg, s), next, rest, total)
  {
    next := AtHeader(HeaderLines(items[0]), items[0].content, items[1..]);
    assert ItemOk(cfg, items[0]);
    EntriesUnfold(cfg, items);
    hide SectionText, HeaderLines, Entries;
  }

  lemma EntriesFirst(cfg: Config, items: seq<Item>)
    requires items != [] && forall item :: item in items ==> Filed(cfg, NO_FILE, HeaderLines(item)).Some?
    ensures items[0] in items && forall item :: item in items[1..] ==> item in items
    ensures Entries(cfg, items) == [ItemEntry(cfg, items[0])] + Entries(cfg, items[1..])
  {
  }

  lemma EntriesUnfold(cfg: Config, items: seq<Item>)
    requires items != [] && AllOk(cfg, items)
    ensures AllOk(cfg, items[1..])
    ensures Entries(cfg, items) == [ItemEntry(cfg, items[0])] + Entries(cfg, items[1..])
  {
    hide Filed, HeaderLines, LineOk, LineShaped, Occurs;
    EntriesFirst(cfg, items);
  }

  /** Where the next line break is in the part of the headers that arrived. */
  lemma FindLineEnd(cfg: Config, lines: seq<string>, content: string, more: seq<Item>, buf: string, rest: string)
    requires forall line :: line in lines ==> LineOk(line)
    requires buf + rest == SectionText(cfg, lines, content, more)
    ensures var line := if lines == [] then "" else lines[0];
            var tail := if lines == [] then BodyText(cfg, content, more)
                        else SectionText(cfg, lines[1..], content, more);
            && Find(buf, CRLF) == (if |line| + |CRLF| <= |buf| then |line| else |buf|)
            && (|line| + |CRLF| <= |buf| ==> buf[..|line|] == line && buf[|line| + |CRLF|..] + rest == tail)
            && (|buf| < |line| + |CRLF| ==> rest != "")
  {
    var line := if lines == [] then "" else lines[0];
    var tail := if lines == [] then BodyText(cfg, content, more) else SectionText(cfg, lines[1..], content, more);
    CrlfCannotOverlap();
    assert line == "" || LineOk(line);
    FirstLineText(cfg, lines, content, more);
    hide SectionText, BodyText;
    CutInPart(buf, rest, line, CRLF, tail);
  }

  lemma FirstLineText(cfg: Config, lines: seq<string>, content: string, more: seq<Item>)
    ensures lines == [] ==> SectionText(cfg, lines, content, more) == "" + CRLF + BodyText(cfg, content, more)
    ensures lines != [] ==>
              SectionText(cfg, lines, content, more) == lines[0] + CRLF + SectionText(cfg, lines[1..], content, more)
  {
    hide BodyText;
    if lines != [] {
      var headers, body := HeaderText(lines[1..]), CRLF + BodyText(cfg, content, more);
      assert SectionText(cfg, lines, content, more)
          == (lines[0] + CRLF + headers) + CRLF + BodyText(cfg, content, more);
      assert SectionText(cfg, lines[1..], content, more) == headers + CRLF + BodyText(cfg, content, more);
    }
  }

  lemma BlankLineStartsTheBody(cfg: Config, content: string, more: seq<Item>, s: State, rest: string, total: seq<Entry>)
    requires Agreeable(cfg) && StandsAt(cfg, AtHeader([], content, more), s, rest, total)
    requires |CRLF| <= |s.buf| && s.buf[|CRLF|..] + rest == BodyText(cfg, content, more)
    ensures TurnOk(cfg, ReadBlankLine(cfg, s), AtBody(content, more), rest, total)
  {
    CollectOne(s.log, Header(s.file));
    hide BodyText, Entries;
    assert "" + content == content;
    assert AddContent(Collect(s.log) + [(s.file, "")], content) == Collect(s.log) + [(s.file, content)];
  }

  lemma LineIsFiled(cfg: Config, lines: seq<string>, content: string, more: seq<Item>,
                    s: State, rest: string, total: seq<Entry>)
    requires StandsAt(cfg, AtHeader(lines, content, more), s, rest, total)
    requires lines != [] && |lines[0]| + |CRLF| <= |s.buf| && s.buf[..|lines[0]|] == lines[0]
    requires s.buf[|lines[0]| + |CRLF|..] + rest == SectionText(cfg, lines[1..], content, more)
    ensures var o := ReadHeaderLine(cfg, s, |lines[0]|);
            o.more && StandsAt(cfg, AtHeader(lines[1..], content, more), o.state, rest, total)
  {
    hide SectionText, Entries, AllOk;
  }

  lemma {:induction false} ReadHeadersAt(cfg: Config, lines: seq<string>, content: string, more: seq<Item>,
                                         s: State, rest: string, total: seq<Entry>) returns (next: Place)
    requires Agreeable(cfg) && StandsAt(cfg, AtHeader(lines, content, more), s, rest, total)
    ensures TurnOk(cfg, ReadHeaders(cfg, s), next, rest, total)
    decreases |lines|
  {
    next := AtHeader(lines, content, more);
    FindLineEnd(cfg, lines, content, more, s.buf, rest);
    assert lines != [] ==> LineOk(lines[0]);
    hide StandsAt, SectionText, BodyText;
    if Find(s.buf, CRLF) < |s.buf| {
      if lines == [] {
        next := AtBody(content, more);
        BlankLineStartsTheBody(cfg, content, more, s, rest, total);
      } else {
        LineIsFiled(cfg, lines, content, more, s, rest, total);
        var o := ReadHeaderLine(cfg, s, |lines[0]|);
        next := ReadHeadersAt(cfg, lines[1..], content, more, o.state, rest, total);
      }
    }
  }

  lemma TurnAtHeader(cfg: Config, lines: seq<string>, content: string, more: seq<Item>,
                     s: State, rest: string, total: seq<Entry>) returns (next: Place)
    requires Agreeable(cfg) && s.buf != "" && StandsAt(cfg, AtHeader(lines, content, more), s, rest, total)
    ensures TurnOk(cfg, Turn(cfg, s), next, rest, total)
  {
    FindLineEnd(cfg, lines, content, more, s.buf, rest);
    assert lines != [] ==> LineOk(lines[0]);
    hide StandsAt, SectionText, BodyText;
    next := ReadHeadersAt(cfg, lines, content, more, s, rest, total);
  }

  lemma DeliveredContent(log: seq<Event>, data: string, left: string)
    requires Collect(log) != []
    ensures var done := Collect(log + [Content(data)]);
            done != [] && AddContent(done, left) == AddContent(Collect(log), data + left)
  {
    CollectOne(log, Content(data));
    var done := Collect(log);
    assert done[|done| - 1].1 + data + left == done[|done| - 1].1 + (data + left);
    assert AddContent(AddContent(done, data), left) == AddContent(done, data + left);
  }

  lemma AddNothing(entries: seq<Entry>)
    requires entries != []
    ensures AddContent(entries, "") == entries
  {
    var last := entries[|entries| - 1];
    assert last.1 + "" == last.1;
  }

  /** The boundary has arrived: the rest of the body is delivered. */
  lemma BodyEnds(cfg: Config, content: string, more: seq<Item>, s: State, rest: string, total: seq<Entry>)
    requires Agreeable(cfg) && StandsAt(cfg, AtBody(content, more), s, rest, total)
    requires |content| + |cfg.CrlfDashBoundary()| <= |s.buf| && s.buf[..|content|] == content
    requires s.buf[|content| + |cfg.CrlfDashBoundary()|..] + rest == After(cfg, more)
    ensures var o := Deliver(cfg, s, |content|, |cfg.CrlfDashBoundary()|, Boundary, true);
            TurnOk(cfg, o, AtBoundary(more), rest, total)
  {
    hide BodyText, After, Entries;
    assert content + "" == content;
    DeliveredContent(s.log, content, "");
    AddNothing(Collect(s.log + [Content(content)]));
  }

  lemma BodyTextFrom(cfg: Config, content: string, more: seq<Item>, buf: string, rest: string, n: nat)
    requires buf + rest == BodyText(cfg, content, more) && n <= |content| && n <= |buf|
    ensures buf[..n] == content[..n] && buf[n..] + rest == BodyText(cfg, content[n..], more)
  {
    var text := content + cfg.CrlfDashBoundary() + After(cfg, more);
    hide After;
    assert buf[..n] == text[..n] == content[..n];
    assert buf[n..] + rest == text[n..] == content[n..] + cfg.CrlfDashBoundary() + After(cfg, more);
  }

  /** No boundary yet: everything but the last characters is delivered. */
  lemma BodyGoesOn(cfg: Config, content: string, more: seq<Item>, s: State, rest: string, total: seq<Entry>, n: nat)
    requires Agreeable(cfg) && StandsAt(cfg, AtBody(content, more), s, rest, total) && rest != ""
    requires n + |cfg.CrlfDashBoundary()| == |s.buf| < |content| + |cfg.CrlfDashBoundary()|
    ensures TurnOk(cfg, Deliver(cfg, s, n, 0, Body, false), AtBody(content[n..], more), rest, total)
  {
    var o := Deliver(cfg, s, n, 0, Body, false);
    DeliverPart(cfg, s, n);
    hide Deliver;
    BodyTextFrom(cfg, content, more, s.buf, rest, n);
    OccursInSuffix(content, cfg.CrlfDashBoundary(), n);
    hide BodyText, Entries, Occurs, Collect, AddContent, Config.CrlfDashBoundary;
    assert content[..n] + content[n..] == content;
    DeliveredContent(s.log, content[..n], content[n..]);
  }

  lemma DeliverPart(cfg: Config, s: State, n: nat)
    requires Agreeable(cfg) && n <= |s.buf|
    ensures Deliver(cfg, s, n, 0, Body, false)
         == Outcome(s.(log := s.log + [Content(s.buf[..n])], buf := s.buf[n..], stage := Body), false, true)
  {
  }

  lemma StandsInBody(cfg: Config, content: string, more: seq<Item>, s: State, rest: string, total: seq<Entry>)
    requires Agreeable(cfg) && StandsAt(cfg, AtBody(content, more), s, rest, total)
    ensures var end := cfg.CrlfDashBoundary();
            && end != "" && CannotOverlapItself(end) && !Occurs(content, end)
            && s.stage == Body && s.buf + rest == content + end + After(cfg, more)
  {
    DelimitersCannotOverlap(cfg);
    hide After, Occurs, Entries;
  }

  lemma TurnInBody(cfg: Config, s: State)
    requires s.buf != "" && s.stage == Body
    ensures Turn(cfg, s) == ReadBody(cfg, s)
  {
  }

  lemma TurnAtBody(cfg: Config, content: string, more: seq<Item>, s: State, rest: string, total: seq<Entry>)
    returns (next: Place)
    requires Agreeable(cfg) && s.buf != "" && StandsAt(cfg, AtBody(content, more), s, rest, total)
    ensures TurnOk(cfg, Turn(cfg, s), next, rest, total)
  {
    var end, tail := cfg.CrlfDashBoundary(), After(cfg, more);
    hide StandsAt, BodyText, After, Find, Occurs, Turn, Deliver;
    hide Agreeable, CannotOverlapItself, Config.CrlfDashBoundary;
    StandsInBody(cfg, content, more, s, rest, total);
    CutInPart(s.buf, rest, content, end, tail);
    TurnInBody(cfg, s);
    if |content| + |end| <= |s.buf| {
      next := AtBoundary(more);
      BodyEnds(cfg, content, more, s, rest, total);
    } else if |end| < |s.buf| {
      next := AtBody(content[|s.buf| - |end|..], more);
      BodyGoesOn(cfg, content, more, s, rest, total, |s.buf| - |end|);
    } else {
      next := AtBody(content, more);
    }
  }

  lemma TurnAtBoundary(cfg: Config, more: seq<Item>, s: State, rest: string, total: seq<Entry>) returns (next: Place)
    requires Agreeable(cfg) && s.buf != "" && StandsAt(cfg, AtBoundary(more), s, rest, total)
    ensures TurnOk(cfg, Turn(cfg, s), next, rest, total)
  {
    var text := s.buf + rest;
    assert text == After(cfg, more);
    if |s.buf| < 2 {
      next := AtBoundary(more);
    } else if more != [] {
      next := AtEntry(more);
      assert s.buf[..2] == text[..2] == CRLF;
      assert s.buf[2..] + rest == text[2..];
    } else {
      next := AtEnd;
      assert text == DASH + CRLF;
      assert s.buf[..2] == text[..2] == DASH;
      assert Entries(cfg, more) == [];
      assert "" + rest == rest == text[|s.buf|..];
    }
  }

  lemma TurnAtEnd(cfg: Config, s: State, rest: string, total: seq<Entry>)
    requires s.buf != "" && StandsAt(cfg, AtEnd, s, rest, total)
    ensures TurnOk(cfg, Turn(cfg, s), AtEnd, rest, total)
  {
    assert s.stage == Boundary;
    if |s.buf| == 2 {
      assert s.buf == CRLF && s.buf[0..2] == CRLF;
    }
  }

  lemma TurnKeepsThePlace(cfg: Config, place: Place, s: State, rest: string, total: seq<Entry>) returns (next: Place)
    requires Agreeable(cfg) && s.buf != "" && StandsAt(cfg, place, s, rest, total)
    ensures TurnOk(cfg, Turn(cfg, s), next, rest, total)
  {
    match place {
      case AtStart(preamble, items) => next := TurnAtStart(cfg, preamble, items, s, rest, total);
      case AtEntry(items) => next := TurnAtEntry(cfg, items, s, rest, total);
      case AtHeader(lines, content, more) => next := TurnAtHeader(cfg, lines, content, more, s, rest, total);
      case AtBody(content, more) => next := TurnAtBody(cfg, content, more, s, rest, total);
      case AtBoundary(more) => next := TurnAtBoundary(cfg, more, s, rest, total);
      case AtEnd =>
        TurnAtEnd(cfg, s, rest, total);
        next := AtEnd;
    }
  }

  lemma OnlyTheEndIsEmpty(cfg: Config, place: Place, stage: Stage)
    requires TextAt(cfg, place, stage, "")
    ensures place.AtEnd?
  {
  }

  lemma {:induction false} LoopKeepsThePlace(cfg: Config, place: Place, s: State, rest: string, total: seq<Entry>)
    returns (next: Place)
    requires Agreeable(cfg) && StandsAt(cfg, place, s, rest, total)
    ensures var (r, ok) := Loop(cfg, s);
            ok && StandsAt(cfg, next, r, rest, total) && (rest == "" ==> next.AtEnd?)
    decreases Measure(s)
  {
    if s.buf == "" {
      next := place;
      if rest == "" {
        OnlyTheEndIsEmpty(cfg, place, s.stage);
      }
    } else {
      next := TurnKeepsThePlace(cfg, place, s, rest, total);
      var o := Turn(cfg, s);
      if o.more {
        next := LoopKeepsThePlace(cfg, next, o.state, rest, total);
      }
    }
  }

  lemma {:induction false} PiecesKeepThePlace(cfg: Config, place: Place, s: State, pieces: seq<string>,
                                              total: seq<Entry>)
    returns (next: Place)
    requires Agreeable(cfg) && StandsAt(cfg, place, s, Flatten(pieces), total)
    requires pieces == [] ==> place.AtEnd?
    ensures var (r, ok) := ParseAll(cfg, s, pieces);
            ok && StandsAt(cfg, next, r, "", total) && next.AtEnd?
    decreases |pieces|
  {
    if pieces == [] {
      next := place;
    } else {
      var rest := Flatten(pieces[1..]);
      var fed := s.(buf := s.buf + pieces[0]);
      assert fed.buf + rest == s.buf + Flatten(pieces);
      next := LoopKeepsThePlace(cfg, place, fed, rest, total);
      next := PiecesKeepThePlace(cfg, next, Loop(cfg, fed).0, pieces[1..], total);
    }
  }

  /**
   The round trip, under every split: however the serialised text of at least one item, behind
   any preamble that does not hold the first boundary, is cut into pieces, no piece is
   refused, the parser ends valid, and the callbacks received for every item, in order, the
   data of its header lines and exactly its content.
   */
  lemma RoundTripUnderAnySplit(cfg: Config, preamble: string, items: seq<Item>, pieces: seq<string>)
    requires Agreeable(cfg) && items != [] && AllOk(cfg, items)
    requires !Occurs(preamble, cfg.DashBoundaryCrlf())
    requires Flatten(pieces) == preamble + Serialized(items, cfg.boundary)
    ensures var (r, ok) := ParseAll(cfg, START, pieces);
            ok && r.valid && Collect(r.log) == Entries(cfg, items)
  {
    SerializedIsBoundaryAfter(cfg, items);
    assert START.buf + Flatten(pieces) == Flatten(pieces);
    assert [] + Entries(cfg, items) == Entries(cfg, items);
    var _ := PiecesKeepThePlace(cfg, AtStart(preamble, items), START, pieces, Entries(cfg, items));
  }
}
