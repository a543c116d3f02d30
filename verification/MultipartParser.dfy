/** The parser with its character buffer, moved and grown in place. */
module MultipartParser {
  import opened Text
  import opened Multipart

  class FormDataParser {
    const cfg: Config
    var stage: Stage
    var isValid: bool
    var file: FormData
    var log: seq<Event>
    var buf: array<char>
    var spos: nat
    var epos: nat

    ghost predicate Valid()
      reads this, buf
    {
      spos <= epos <= buf.Length
    }

    /** The unread input. */
    ghost function Unread(): string
      reads this, buf
      requires Valid()
    {
      buf[spos..epos]
    }

    ghost function View(): State
      reads this, buf
      requires Valid()
    {
      State(stage, Unread(), file, isValid, log)
    }

    constructor (cfg: Config)
      ensures Valid() && View() == START && this.cfg == cfg && fresh(buf)
    {
      this.cfg := cfg;
      stage, isValid, file, log := Preamble, false, NO_FILE, [];
      buf := new char[0];
      spos, epos := 0, 0;
    }

    method MoveToFront()
      requires Valid()
      modifies this`spos, this`epos, buf
      ensures Valid() && spos == 0 && Unread() == old(Unread())
    {
      ghost var was := Unread();
      var remaining := epos - spos;
      if remaining > 0 && spos > 0 {
        for i := 0 to remaining
          invariant Valid() && spos == old(spos) && epos == old(epos)
          invariant forall k :: 0 <= k < i ==> buf[k] == was[k]
          invariant forall k :: i <= k < remaining ==> buf[spos + k] == was[k]
        {
          buf[i] := buf[spos + i];
        }
      }
      spos, epos := 0, remaining;
    }

    method GrowTo(size: nat)
      requires Valid() && spos == 0
      modifies this`buf
      ensures Valid() && Unread() == old(Unread()) && size <= buf.Length
      ensures buf == old(buf) || fresh(buf)
    {
      if size > buf.Length {
        var grown := new char[size];
        for i := 0 to epos
          invariant Valid() && buf == old(buf) && spos == 0 && epos == old(epos)
          invariant forall k :: 0 <= k < i ==> grown[k] == buf[k]
        {
          grown[i] := buf[i];
        }
        buf := grown;
      }
    }

    method CopyIn(data: string)
      requires Valid() && spos == 0 && epos + |data| <= buf.Length
      modifies this`epos, buf
      ensures Valid() && Unread() == old(Unread()) + data
    {
      ghost var was := buf[..epos];
      for i := 0 to |data|
        invariant epos == |was| && epos + |data| <= buf.Length
        invariant forall k :: 0 <= k < epos ==> buf[k] == was[k]
        invariant forall k :: 0 <= k < i ==> buf[epos + k] == data[k]
      {
        buf[epos + i] := data[i];
      }
      epos := epos + |data|;
      assert buf[|was|..epos] == data;
      assert buf[..|was|] == was;
      assert buf[..epos] == buf[..|was|] + buf[|was|..epos];
    }

    /** Move the unread characters to the front, grow if needed, and append. */
    method BufAppend(data: string)
      requires Valid()
      modifies this`buf, this`spos, this`epos, buf
      ensures Valid() && (buf == old(buf) || fresh(buf))
      ensures Unread() == old(Unread()) + data
    {
      MoveToFront();
      GrowTo(epos + |data|);
      CopyIn(data);
    }

    method BufHead(n: nat) returns (head: string)
      requires Valid() && n <= |Unread()|
      ensures head == Unread()[..n]
    {
      head := buf[spos..spos + n];
    }

    method BufErase(n: nat)
      requires Valid() && n <= |Unread()|
      modifies this`spos
      ensures Valid() && Unread() == old(Unread())[n..]
    {
      spos := spos + n;
    }

    method StartWith(at: nat, s: string) returns (yes: bool)
      requires Valid() && spos <= at <= epos
      ensures yes == OccursAt(Unread(), s, at - spos)
    {
      if epos - at < |s| {
        return false;
      }
      ghost var here := Unread()[at - spos..at - spos + |s|];
      for i := 0 to |s|
        invariant here[..i] == s[..i]
      {
        if buf[i + at] != s[i] {
          assert here[i] != s[i];
          return false;
        }
      }
      assert here[..|s|] == here && s[..|s|] == s;
      return true;
    }

    /** The first occurrence of `s`: look for its first character, then compare. */
    method BufFind(s: string) returns (found: nat)
      requires Valid() && s != ""
      ensures found == Find(Unread(), s)
    {
      var off := spos;
      while off < epos
        invariant spos <= off <= epos
        invariant Find(Unread(), s) == FindFrom(Unread(), s, off - spos)
        decreases epos - off
      {
        var pos := off;
        while pos < epos && buf[pos] != s[0]
          invariant off <= pos <= epos
          invariant Find(Unread(), s) == FindFrom(Unread(), s, pos - spos)
        {
          assert Unread()[pos - spos] == buf[pos];
          pos := pos + 1;
        }
        if pos == epos {
          return epos - spos;
        }
        if |s| > epos - pos {
          return epos - spos;
        }
        var here := StartWith(pos, s);
        if here {
          return pos - spos;
        }
        off := pos + 1;
      }
      return epos - spos;
    }

    method AcceptBlankLine() returns (ok: bool)
      requires Valid() && |CRLF| <= |Unread()|
      modifies this`stage, this`isValid, this`log, this`spos
      ensures Valid()
      ensures Outcome(View(), ok, ok) == ReadBlankLine(cfg, old(View()))
    {
      log := log + [Header(file)];
      if !cfg.onHeader(file) {
        isValid := false;
        return false;
      }
      BufErase(|CRLF|);
      stage := Body;
      return true;
    }

    method AcceptHeaderLine(pos: nat) returns (ok: bool)
      requires Valid() && pos + |CRLF| <= |Unread()|
      modifies this`isValid, this`file, this`spos
      ensures Valid()
      ensures Outcome(View(), ok, ok) == ReadHeaderLine(cfg, old(View()), pos)
    {
      var line := BufHead(pos);
      var read := cfg.readLine(file, line);
      if read.None? {
        isValid := false;
        return false;
      }
      file := read.value;
      BufErase(pos + |CRLF|);
      return true;
    }

    /** The header loop; `blank` tells whether it ended with the empty line. */
    method ReadHeaderLines() returns (ok: bool, blank: bool)
      requires Valid() && stage == Headers
      modifies this`stage, this`isValid, this`file, this`log, this`spos
      ensures Valid()
      ensures Outcome(View(), blank, ok) == ReadHeaders(cfg, old(View()))
    {
      ghost var start := View();
      var pos := BufFind(CRLF);
      while pos < epos - spos
        invariant Valid() && stage == Headers && pos == Find(Unread(), CRLF)
        invariant ReadHeaders(cfg, View()) == ReadHeaders(cfg, start)
        decreases epos - spos
      {
        if pos == 0 {
          ok := AcceptBlankLine();
          return ok, ok;
        }
        ok := AcceptHeaderLine(pos);
        if !ok {
          return false, false;
        }
        pos := BufFind(CRLF);
      }
      return true, false;
    }

    method DeliverHead(n: nat, skip: nat, next: Stage, more: bool) returns (ok: bool)
      requires Valid() && n + skip <= |Unread()|
      modifies this`stage, this`isValid, this`log, this`spos
      ensures Valid()
      ensures Outcome(View(), ok && more, ok) == Deliver(cfg, old(View()), n, skip, next, more)
    {
      var data := BufHead(n);
      log := log + [Content(data)];
      if !cfg.onContent(data) {
        isValid := false;
        return false;
      }
      BufErase(n + skip);
      stage := next;
      return true;
    }

    method ReadBodyPart() returns (ok: bool, more: bool)
      requires Valid() && stage == Body
      modifies this`stage, this`isValid, this`log, this`spos
      ensures Valid()
      ensures Outcome(View(), more, ok) == ReadBody(cfg, old(View()))
    {
      var end := cfg.CrlfDashBoundary();
      if |end| > epos - spos {
        return true, false;
      }
      var pos := BufFind(end);
      if pos < epos - spos {
        ok := DeliverHead(pos, |end|, Boundary, true);
        return ok, ok;
      } else {
        var len := epos - spos - |end|;
        ok := true;
        if len > 0 {
          ok := DeliverHead(len, 0, Body, false);
        }
        return ok, false;
      }
    }

    method ReadBoundaryEnd() returns (more: bool)
      requires Valid() && stage == Boundary
      modifies this`stage, this`isValid, this`spos
      ensures Valid()
      ensures Outcome(View(), more, true) == ReadBoundary(old(View()))
    {
      if |CRLF| > epos - spos {
        return false;
      }
      var crlf := StartWith(spos, CRLF);
      if crlf {
        BufErase(|CRLF|);
        stage := NewEntry;
        return true;
      }
      var dash := StartWith(spos, DASH);
      if dash {
        BufErase(|DASH|);
        isValid := true;
        BufErase(epos - spos);
        return true;
      }
      return false;
    }

    /** One turn of the loop; `more` tells whether to go on. */
    method TakeTurn() returns (ok: bool, more: bool)
      requires Valid() && Unread() != ""
      modifies this`stage, this`isValid, this`file, this`log, this`spos
      ensures Valid()
      ensures Outcome(View(), more, ok) == Turn(cfg, old(View()))
    {
      match stage {
        case Preamble =>
          var pos := BufFind(cfg.DashBoundaryCrlf());
          if pos == epos - spos {
            return true, false;
          }
          BufErase(pos + |cfg.DashBoundaryCrlf()|);
          stage := NewEntry;
          return true, true;
        case NewEntry =>
          file := NO_FILE;
          stage := Headers;
          return true, true;
        case Headers =>
          var pos := BufFind(CRLF);
          if pos > HEADER_MAX_LENGTH {
            return false, false;
          }
          ok, more := ReadHeaderLines();
        case Body =>
          ok, more := ReadBodyPart();
        case Boundary =>
          more := ReadBoundaryEnd();
          ok := true;
      }
    }

    /** The in-place parser does what `Parse` says, piece by piece. */
    method ParsePiece(data: string) returns (ok: bool)
      requires Valid()
      modifies this, buf
      ensures Valid() && (buf == old(buf) || fresh(buf))
      ensures (View(), ok) == Parse(cfg, old(View()), data)
    {
      BufAppend(data);
      ghost var start := View();
      while epos - spos > 0
        invariant Valid() && (buf == old(buf) || fresh(buf))
        invariant Loop(cfg, View()) == Loop(cfg, start)
        decreases Measure(View())
      {
        var more: bool;
        ok, more := TakeTurn();
        if !more {
          return ok;
        }
      }
      return true;
    }
  }
}
