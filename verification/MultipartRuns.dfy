/** What holds of the parser on any text: what it keeps back, whom it calls and why it stops. */
module MultipartRuns {
  import opened Common
  import opened Text
  import opened Multipart

  // --- nothing is kept back without need ---

  /** Nothing more can be made of the unread text before more of it arrives. */
  predicate Settled(cfg: Config, s: State) {
    match s.stage
    case Preamble => !Occurs(s.buf, cfg.DashBoundaryCrlf())
    case NewEntry => s.buf == ""
    case Headers => !Occurs(s.buf, CRLF)
    case Body => |s.buf| <= |cfg.boundary| + 4 && !Occurs(s.buf, cfg.CrlfDashBoundary())
    case Boundary => |s.buf| < 2 || (s.buf[..2] != "\r\n" && s.buf[..2] != "--")
  }

  lemma FindNothing(s: string, needle: string)
    requires needle != ""
    ensures Find(s, needle) == |s| <==> !Occurs(s, needle)
  {
  }

  lemma NothingInShort(s: string, needle: string)
    requires |s| < |needle|
    ensures !Occurs(s, needle)
  {
  }

  lemma {:induction false} HeadersSettle(cfg: Config, s: State)
    requires s.stage == Headers
    ensures var o := ReadHeaders(cfg, s); !o.more && o.ok ==> Settled(cfg, o.state)
    decreases |s.buf|
  {
    FindNothing(s.buf, CRLF);
    var pos := Find(s.buf, CRLF);
    if 0 < pos < |s.buf| {
      var o := ReadHeaderLine(cfg, s, pos);
      if o.more {
        HeadersSettle(cfg, o.state);
      }
    }
  }

  /** Holding back the length of the boundary is enough: none is in what is held back. */
  lemma TailHoldsNoBoundary(buf: string, end: string)
    requires |buf| > |end| > 0 && !Occurs(buf, end)
    ensures !Occurs(buf[|buf| - |end|..], end)
  {
    OccursInSuffix(buf, end, |buf| - |end|);
  }

  lemma BodySettles(cfg: Config, s: State)
    requires s.stage == Body
    ensures var o := ReadBody(cfg, s); !o.more && o.ok ==> Settled(cfg, o.state)
  {
    var end := cfg.CrlfDashBoundary();
    assert |end| == |cfg.boundary| + 4;
    FindNothing(s.buf, end);
    hide Find, Occurs;
    if |s.buf| < |end| {
      NothingInShort(s.buf, end);
    } else if |end| < |s.buf| && Find(s.buf, end) == |s.buf| {
      TailHoldsNoBoundary(s.buf, end);
    }
  }

  lemma TurnSettles(cfg: Config, s: State)
    requires s.buf != ""
    ensures var o := Turn(cfg, s); !o.more && o.ok ==> Settled(cfg, o.state)
  {
    match s.stage {
      case Preamble => FindNothing(s.buf, cfg.DashBoundaryCrlf());
      case NewEntry =>
      case Headers => HeadersSettle(cfg, s);
      case Body => BodySettles(cfg, s);
      case Boundary =>
    }
    hide Find, Occurs, ReadHeaders, ReadBody, Config.CrlfDashBoundary, Config.DashBoundaryCrlf;
  }

  /**
   After every accepted piece the parser has made of the text all that can be made of it; in
   particular it never holds back more of a body than the length of the boundary.
   */
  lemma {:induction false} LoopSettles(cfg: Config, s: State)
    ensures Loop(cfg, s).1 ==> Settled(cfg, Loop(cfg, s).0)
    decreases Measure(s)
  {
    if s.buf == "" {
      NothingInShort("", cfg.DashBoundaryCrlf());
      NothingInShort("", cfg.CrlfDashBoundary());
      NothingInShort("", CRLF);
    } else {
      TurnSettles(cfg, s);
      hide Turn, Settled;
      var o := Turn(cfg, s);
      if o.more {
        LoopSettles(cfg, o.state);
      }
    }
  }

  // --- callbacks and refusals ---

  predicate Takes(cfg: Config, e: Event) {
    match e
    case Header(file) => cfg.onHeader(file)
    case Content(data) => cfg.onContent(data)
  }

  predicate AllTaken(cfg: Config, log: seq<Event>) {
    forall i :: 0 <= i < |log| ==> Takes(cfg, log[i])
  }

  /** The last call was refused, or a header line was not accepted, or one is too long. */
  predicate Stopped(cfg: Config, s: State) {
    || (s.log != [] && !Takes(cfg, s.log[|s.log| - 1]) && AllTaken(cfg, s.log[..|s.log| - 1]) && !s.valid)
    || (AllTaken(cfg, s.log) && RefusesLine(cfg, s) && !s.valid)
    || (AllTaken(cfg, s.log) && s.stage == Headers && Find(s.buf, CRLF) > 8192)
  }

  predicate RefusesLine(cfg: Config, s: State) {
    var pos := Find(s.buf, CRLF);
    s.stage == Headers && 0 < pos < |s.buf| && cfg.readLine(s.file, s.buf[..pos]).None?
  }

  predicate Disciplined(cfg: Config, s: State, ok: bool) {
    if ok then AllTaken(cfg, s.log) else Stopped(cfg, s)
  }

  lemma OneCall(cfg: Config, log: seq<Event>, e: Event)
    requires AllTaken(cfg, log)
    ensures AllTaken(cfg, log + [e]) <==> Takes(cfg, e)
    ensures (log + [e])[|log + [e]| - 1] == e && (log + [e])[..|log + [e]| - 1] == log
  {
    assert (log + [e])[|log|] == e;
  }

  lemma {:induction false} HeadersAreDisciplined(cfg: Config, s: State)
    requires s.stage == Headers && AllTaken(cfg, s.log)
    ensures var o := ReadHeaders(cfg, s); Disciplined(cfg, o.state, o.ok) && (o.more ==> o.ok)
    decreases |s.buf|
  {
    var pos := Find(s.buf, CRLF);
    if pos == 0 < |s.buf| {
      OneCall(cfg, s.log, Header(s.file));
    } else if pos < |s.buf| {
      var o := ReadHeaderLine(cfg, s, pos);
      if o.more {
        HeadersAreDisciplined(cfg, o.state);
      } else {
        assert RefusesLine(cfg, o.state);
      }
    }
  }

  lemma TurnIsDisciplined(cfg: Config, s: State)
    requires s.buf != "" && AllTaken(cfg, s.log)
    ensures var o := Turn(cfg, s); Disciplined(cfg, o.state, o.ok) && (o.more ==> o.ok)
  {
    hide Find, ReadHeaders, AllTaken, Takes;
    match s.stage {
      case Headers => HeadersAreDisciplined(cfg, s);
      case Body => BodyIsDisciplined(cfg, s);
      case _ =>
    }
  }

  lemma BodyIsDisciplined(cfg: Config, s: State)
    requires AllTaken(cfg, s.log)
    ensures var o := ReadBody(cfg, s); Disciplined(cfg, o.state, o.ok) && (o.more ==> o.ok)
  {
    var end := cfg.CrlfDashBoundary();
    var pos := Find(s.buf, end);
    hide AllTaken, Find, Deliver, Stopped, Config.CrlfDashBoundary;
    if |end| <= |s.buf| && pos < |s.buf| {
      DeliveryIsDisciplined(cfg, s, pos, |end|, Boundary, true);
    } else if |end| < |s.buf| {
      DeliveryIsDisciplined(cfg, s, |s.buf| - |end|, 0, Body, false);
    }
  }

  lemma DeliveryIsDisciplined(cfg: Config, s: State, n: nat, skip: nat, next: Stage, more: bool)
    requires AllTaken(cfg, s.log) && n + skip <= |s.buf|
    ensures var o := Deliver(cfg, s, n, skip, next, more); Disciplined(cfg, o.state, o.ok) && (o.more ==> o.ok)
  {
    OneCall(cfg, s.log, Content(s.buf[..n]));
    hide AllTaken, Find;
  }

  lemma {:induction false} LoopIsDisciplined(cfg: Config, s: State)
    requires AllTaken(cfg, s.log)
    ensures Disciplined(cfg, Loop(cfg, s).0, Loop(cfg, s).1)
    decreases Measure(s)
  {
    if s.buf != "" {
      TurnIsDisciplined(cfg, s);
      hide Turn, Stopped, AllTaken;
      var o := Turn(cfg, s);
      if o.more {
        LoopIsDisciplined(cfg, o.state);
      }
    }
  }

  /**
   Over every text in any pieces: the callbacks are called until the first of them refuses and
   no longer.  The parser refuses a piece only because of such a call, of a header line that
   is not accepted or of one that is too long, and for the first two it is not valid then.
   */
  lemma {:induction false} CallsStopAtTheFirstRefusal(cfg: Config, s: State, pieces: seq<string>)
    requires AllTaken(cfg, s.log)
    ensures var (r, ok) := ParseAll(cfg, s, pieces); Disciplined(cfg, r, ok)
    decreases |pieces|
  {
    if pieces != [] {
      LoopIsDisciplined(cfg, s.(buf := s.buf + pieces[0]));
      hide Loop, Stopped, AllTaken;
      var (next, ok) := Parse(cfg, s, pieces[0]);
      if ok {
        CallsStopAtTheFirstRefusal(cfg, next, pieces[1..]);
      }
    }
  }

  // --- behind a boundary ---

  /** Anything but a line break or two dashes behind a boundary stalls the parser for good. */
  lemma {:induction false} NothingComesAfterAFalseBoundary(cfg: Config, s: State, pieces: seq<string>)
    requires s.stage == Boundary && |s.buf| >= 2 && s.buf[..2] != "\r\n" && s.buf[..2] != "--"
    ensures ParseAll(cfg, s, pieces) == (s.(buf := s.buf + Flatten(pieces)), true)
    decreases |pieces|
  {
    if pieces == [] {
      assert s.buf + Flatten(pieces) == s.buf;
    } else {
      var fed := s.(buf := s.buf + pieces[0]);
      assert fed.buf[0..2] == fed.buf[..2] == s.buf[..2];
      assert Turn(cfg, fed) == Return(fed, true);
      assert Parse(cfg, s, pieces[0]) == (fed, true);
      assert Flatten(pieces) == pieces[0] + Flatten(pieces[1..]);
      NothingComesAfterAFalseBoundary(cfg, fed, pieces[1..]);
      assert (s.buf + pieces[0]) + Flatten(pieces[1..]) == s.buf + (pieces[0] + Flatten(pieces[1..]));
    }
  }

  /** What arrives together with the two dashes of the closing boundary is dropped. */
  lemma EpilogueIsDropped(cfg: Config, s: State, piece: string)
    requires s.stage == Boundary && "--" <= s.buf + piece
    ensures Parse(cfg, s, piece) == (s.(buf := "", valid := true), true)
  {
    var fed := s.(buf := s.buf + piece);
    assert fed.buf[..2] == "--" && fed.buf[0..2] == fed.buf[..2];
    assert Turn(cfg, fed) == Again(fed.(buf := "", valid := true));
    assert Loop(cfg, fed) == Loop(cfg, fed.(buf := "", valid := true));
  }
}
