/**
 What one undisturbed round of time-out and answer achieves, from every state that runs in
 which anybody may send anything to the session can reach.
 */
module Recovery {
  import opened Common
  import opened Protocol
  import opened Transfer
  import opened HonestTransfer
  import Sender
  import Receiver

  function Last<T>(s: seq<T>): T
    requires s != []
  {
    s[|s| - 1]
  }

  /**
   One time-out whose packet reaches the sender, and whose answer, if there is one, reaches
   the receiver.  Everything sent before may be lost.
   */
  function RoundEvents(cfg: Config, s: System): seq<Event>
    requires s.snd.offset <= |cfg.env.file|
  {
    var waited := Step(cfg, s, RcvTimeout);
    var nudge := ToSender(Receiver.Nudge(cfg.rcv, s.rcv.current));
    var answered := Step(cfg, waited, nudge);
    [RcvTimeout, nudge] + (if |answered.wire| <= |waited.wire| then [] else [ToReceiver(Last(answered.wire).message)])
  }

  function Round(cfg: Config, s: System): (r: System)
    requires s.snd.offset <= |cfg.env.file|
    ensures r.snd.offset <= |cfg.env.file|
  {
    Exec(cfg, s, RoundEvents(cfg, s))
  }

  function Rounds(cfg: Config, s: System, n: nat): (r: System)
    requires s.snd.offset <= |cfg.env.file|
    ensures r.snd.offset <= |cfg.env.file|
    decreases n
  {
    if n == 0 then s else Rounds(cfg, Round(cfg, s), n - 1)
  }

  lemma ExecThree(cfg: Config, s: System, a: Event, b: Event, c: Event)
    requires s.snd.offset <= |cfg.env.file|
    ensures Exec(cfg, s, [a, b]) == Step(cfg, Step(cfg, s, a), b)
    ensures Exec(cfg, s, [a, b, c]) == Step(cfg, Step(cfg, Step(cfg, s, a), b), c)
  {
    assert [a][..0] == [] && [a, b][..1] == [a] && [a, b, c][..2] == [a, b];
    assert Exec(cfg, s, [a]) == Step(cfg, s, a);
  }

  // --- an invariant that survives arbitrary packets at the session ---

  /** What a session at `offset` may have sent: its hello, and what the file holds up to there. */
  ghost predicate OnFile(cfg: Config, offset: nat, m: Sent) {
    match m.message
    case Hs(_) => FromHandshake(cfg, m)
    case Ctl(Data(_, off, _)) =>
      m.to == cfg.home && off < |cfg.env.file| && off <= offset && m.message.control == At(cfg, off)
    case Ctl(c) => m.to == cfg.home && offset == |cfg.env.file| && c == At(cfg, offset)
  }

  /** The session has admitted the receiver's hello; it may have run ahead of the receiver. */
  ghost predicate Joined(cfg: Config, s: System) {
    var file := cfg.env.file;
    && s.snd.phase != Sender.WaitingHello
    && s.snd.remote == cfg.home && s.snd.meta == Meta(cfg)
    && Boundary(file, s.snd.offset) && Boundary(file, s.rcv.current)
    && s.snd.offset <= |file| && s.rcv.current <= |file|
    && (s.rcv.current <= s.snd.offset || s.rcv.current == NextOffset(file, s.snd.offset))
    && s.rcv.out == file[..s.rcv.current]
    && (s.snd.phase == Sender.Authenticated ==>
          s.snd.offset == s.rcv.current == 0 && forall m :: m in s.wire ==> m.message.Hs?)
    && (forall m :: m in s.wire ==> OnFile(cfg, s.snd.offset, m))
    && (forall p :: p in s.rcv.sent ==> p == Get(cfg.rcv.id) || (p.Ack? && p.nextOffset <= s.rcv.current))
    && (s.rcv.status == Receiver.Running ==> s.rcv.retries < MAX_RETRIES)
  }

  lemma WindowIsJoined(cfg: Config, s: System)
    requires Window(cfg, s)
    ensures Joined(cfg, s) && InReach(cfg, s)
    ensures s.rcv.status == Receiver.Running && s.snd.phase == Sender.Closed ==> DoneIsOut(cfg, s)
  {
    BoundaryNext(cfg.env.file, s.snd.offset);
    forall m | m in s.wire
      ensures OnFile(cfg, s.snd.offset, m)
    {
      assert Behind(cfg, s.snd.offset, m);
    }
    forall p | p in s.rcv.sent
      ensures p == Get(cfg.rcv.id) || (p.Ack? && p.nextOffset <= s.rcv.current)
    {
      assert Acknowledged(cfg, s.rcv, p);
    }
  }

  lemma SenderStaysJoined(cfg: Config, s: System, d: Datagram, from: Endpoint)
    requires Deployed(cfg) && Joined(cfg, s)
    ensures Joined(cfg, SenderGets(cfg, s, d, from))
  {
    BoundaryNext(cfg.env.file, s.snd.offset);
  }

  lemma ReceiverStaysJoined(cfg: Config, s: System, m: Message)
    requires Deployed(cfg) && Joined(cfg, s) && Sent(cfg.home, m) in s.wire
    ensures Joined(cfg, ReceiverGets(cfg, s, Receiver.Received(cfg.rcv.peer, Some(ControlView(m)))))
  {
    var file := cfg.env.file;
    assert OnFile(cfg, s.snd.offset, Sent(cfg.home, m));
    if m.Ctl? && m.control.Data? && m.control.offset == s.rcv.current {
      BoundaryNext(file, s.rcv.current);
      if s.rcv.current < s.snd.offset {
        BoundariesAreApart(file, s.rcv.current, s.snd.offset);
      }
      assert s.rcv.out + m.control.payload == file[..NextOffset(file, s.rcv.current)];
    }
  }

  lemma StepKeepsJoined(cfg: Config, s: System, e: Event)
    requires Deployed(cfg) && Joined(cfg, s)
    ensures Joined(cfg, Step(cfg, s, e))
  {
    match e {
      case ToSender(p) => SenderStaysJoined(cfg, s, AsDatagram(Ctl(p)), cfg.home);
      case Inject(d, from) => SenderStaysJoined(cfg, s, d, from);
      case ToReceiver(m) =>
        if Sent(cfg.home, m) in s.wire {
          ReceiverStaysJoined(cfg, s, m);
        }
      case _ =>
    }
  }

  lemma {:induction false} JoinedFrom(cfg: Config, s: System, events: seq<Event>)
    requires Deployed(cfg) && Joined(cfg, s)
    ensures Joined(cfg, Exec(cfg, s, events))
  {
    if events != [] {
      JoinedFrom(cfg, s, events[..|events| - 1]);
      StepKeepsJoined(cfg, Exec(cfg, s, events[..|events| - 1]), events[|events| - 1]);
    }
  }

  /** Every run from the admitted hello on, whoever sends whatever to the session. */
  lemma JoinedHolds(cfg: Config, before: seq<Event>, events: seq<Event>)
    requires Deployed(cfg) && StillWaiting(cfg, before)
    ensures Joined(cfg, Exec(cfg, Admitted(cfg, before), events))
  {
    AdmittedIsInWindow(cfg, before);
    WindowIsJoined(cfg, Admitted(cfg, before));
    JoinedFrom(cfg, Admitted(cfg, before), events);
  }

  // --- one round ---

  /** The sender has nothing left but DONE, and the file is not empty. */
  predicate DoneIsOut(cfg: Config, s: System) {
    s.snd.offset == |cfg.env.file| > 0
  }

  /** The receiver waits for the packet the sender stands at, or for the next one. */
  predicate InReach(cfg: Config, s: System) {
    && s.snd.offset <= |cfg.env.file|
    && (s.rcv.current == s.snd.offset || s.rcv.current == NextOffset(cfg.env.file, s.snd.offset))
  }

  /** The session can answer with the packet the receiver waits for. */
  predicate CanAnswer(cfg: Config, s: System) {
    s.snd.phase != Sender.Closed && InReach(cfg, s) && !DoneIsOut(cfg, s)
  }

  /** What one successful round brings: the next payload, or the end. */
  ghost predicate Advanced(cfg: Config, s: System, r: System)
    requires s.rcv.current <= |cfg.env.file|
  {
    && r.snd.phase == Sender.Transferring
    && r.snd.offset == s.rcv.current
    && r.rcv.retries == 0
    && r.rcv.current == NextOffset(cfg.env.file, s.rcv.current)
    && r.rcv.status == (if s.rcv.current == |cfg.env.file| then Receiver.Success else Receiver.Running)
  }

  /** The receiver after one more time-out. */
  function Waited(cfg: Config, s: System): Receiver.State {
    s.rcv.(retries := s.rcv.retries + 1,
           status := if s.rcv.retries + 1 < MAX_RETRIES then Receiver.Running else Receiver.TimedOut,
           sent := s.rcv.sent + [Receiver.Nudge(cfg.rcv, s.rcv.current)])
  }

  /**
   A time-out whose packet arrives: the session answers with the packet the receiver waits
   for exactly if it can; if only DONE is left it closes, and out of reach it stays where it is.
   */
  lemma NudgeIsAnswered(cfg: Config, s: System)
    requires Deployed(cfg) && Joined(cfg, s) && s.rcv.status == Receiver.Running
    ensures var waited := Step(cfg, s, RcvTimeout);
            var answered := Step(cfg, waited, ToSender(Receiver.Nudge(cfg.rcv, s.rcv.current)));
            && waited == s.(rcv := Waited(cfg, s)) && answered.rcv == Waited(cfg, s)
            && (CanAnswer(cfg, s) ==>
                  && answered.snd == s.snd.(phase := Sender.Transferring, offset := s.rcv.current)
                  && answered.wire == s.wire + [Sent(cfg.home, Ctl(At(cfg, s.rcv.current)))])
            && (InReach(cfg, s) && !CanAnswer(cfg, s) ==>
                  answered.wire == s.wire && answered.snd == s.snd.(phase := Sender.Closed))
            && (!InReach(cfg, s) ==> answered.snd == s.snd)
  {
    assert Receiver.Nudge(cfg.rcv, s.rcv.current) in Waited(cfg, s).sent;
  }

  /** When the packet it waits for arrives, the receiver has the next payload, or returns true. */
  lemma AnswerIsTaken(cfg: Config, s: System, w: System)
    requires Deployed(cfg) && Joined(cfg, s) && w.rcv.status == Receiver.Running
    requires w.rcv.current == s.rcv.current && w.rcv.out == s.rcv.out
    requires w.snd.phase == Sender.Transferring && w.snd.offset == s.rcv.current
    requires Sent(cfg.home, Ctl(At(cfg, s.rcv.current))) in w.wire
    ensures Advanced(cfg, s, Step(cfg, w, ToReceiver(Ctl(At(cfg, s.rcv.current)))))
  {
    assert cfg.env.file[..|cfg.env.file|] == cfg.env.file;
  }

  /** The delivery that ends a round leaves the sender alone, and a receiver that timed out. */
  lemma RoundEnds(cfg: Config, s: System)
    requires s.snd.offset <= |cfg.env.file|
    ensures var answered := Step(cfg, Step(cfg, s, RcvTimeout), ToSender(Receiver.Nudge(cfg.rcv, s.rcv.current)));
            && Round(cfg, s).snd == answered.snd && Round(cfg, s).wire == answered.wire
            && (answered.rcv.status != Receiver.Running ==> Round(cfg, s) == answered)
            && (|answered.wire| <= |Step(cfg, s, RcvTimeout).wire| ==> Round(cfg, s) == answered)
  {
    var nudge := ToSender(Receiver.Nudge(cfg.rcv, s.rcv.current));
    var answered := Step(cfg, Step(cfg, s, RcvTimeout), nudge);
    if |answered.wire| <= |Step(cfg, s, RcvTimeout).wire| {
      ExecThree(cfg, s, RcvTimeout, nudge, nudge);
      assert RoundEvents(cfg, s) == [RcvTimeout, nudge];
    } else {
      var last := ToReceiver(Last(answered.wire).message);
      ExecThree(cfg, s, RcvTimeout, nudge, last);
      assert RoundEvents(cfg, s) == [RcvTimeout, nudge, last];
    }
  }

  /** The round whose nudge the session can answer, while another time-out would be left. */
  lemma RoundWithAnswer(cfg: Config, s: System)
    requires Deployed(cfg) && Joined(cfg, s) && s.rcv.status == Receiver.Running
    requires CanAnswer(cfg, s) && s.rcv.retries + 1 < MAX_RETRIES
    ensures Advanced(cfg, s, Round(cfg, s))
  {
    var nudge := ToSender(Receiver.Nudge(cfg.rcv, s.rcv.current));
    var answer := ToReceiver(Ctl(At(cfg, s.rcv.current)));
    var answered := Step(cfg, Step(cfg, s, RcvTimeout), nudge);
    NudgeIsAnswered(cfg, s);
    ExecThree(cfg, s, RcvTimeout, nudge, answer);
    assert RoundEvents(cfg, s) == [RcvTimeout, nudge, answer];
    AnswerIsTaken(cfg, s, answered);
  }

  /**
   The exact condition for recovery.  From every state of every run, whoever sends what to
   the session, one undisturbed round brings the next payload or the end if and only if the
   receiver has more than one time-out left, the session is still open, the receiver waits
   for the sender's packet or the next one, and not only DONE is left of a non-empty file.
   */
  lemma RoundAdvancesExactly(cfg: Config, s: System)
    requires Deployed(cfg) && Joined(cfg, s) && s.rcv.status == Receiver.Running
    ensures Joined(cfg, Round(cfg, s))
    ensures Advanced(cfg, s, Round(cfg, s)) <==> CanAnswer(cfg, s) && s.rcv.retries + 1 < MAX_RETRIES
    ensures s.rcv.retries + 1 == MAX_RETRIES ==> Round(cfg, s).rcv == Waited(cfg, s)
    ensures InReach(cfg, s) && !CanAnswer(cfg, s) ==>
              Round(cfg, s) == System(s.snd.(phase := Sender.Closed), Waited(cfg, s), s.wire)
  {
    JoinedFrom(cfg, s, RoundEvents(cfg, s));
    NudgeIsAnswered(cfg, s);
    RoundEnds(cfg, s);
    if CanAnswer(cfg, s) && s.rcv.retries + 1 < MAX_RETRIES {
      RoundWithAnswer(cfg, s);
    }
    hide Step, Round, RoundEvents, Deployed, OnFile;
  }

  // --- out of reach ---

  /** Sender, write offset and output have not moved, and the receiver has not returned true. */
  predicate Unmoved(s: System, r: System) {
    && r.snd == s.snd && r.rcv.current == s.rcv.current && r.rcv.out == s.rcv.out
    && (r.rcv.status == Receiver.Success ==> s.rcv.status == Receiver.Success)
  }

  lemma NudgeOutOfReach(cfg: Config, s: System)
    requires Deployed(cfg) && Joined(cfg, s) && !InReach(cfg, s)
    ensures var waited := Step(cfg, s, RcvTimeout);
            var answered := Step(cfg, waited, ToSender(Receiver.Nudge(cfg.rcv, s.rcv.current)));
            && waited.wire == s.wire && Unmoved(s, answered)
            && (answered.wire == s.wire || answered.wire == s.wire + [Sent(cfg.home, Ctl(At(cfg, s.snd.offset)))])
  {
  }

  lemma AnswerOutOfReach(cfg: Config, s: System)
    requires Deployed(cfg) && Joined(cfg, s) && !InReach(cfg, s)
    ensures Unmoved(s, Step(cfg, s, ToReceiver(Ctl(At(cfg, s.snd.offset)))))
  {
  }

  lemma RoundOutOfReach(cfg: Config, s: System)
    requires Deployed(cfg) && Joined(cfg, s) && !InReach(cfg, s)
    ensures Joined(cfg, Round(cfg, s)) && Unmoved(s, Round(cfg, s))
  {
    var nudge := ToSender(Receiver.Nudge(cfg.rcv, s.rcv.current));
    var answer := ToReceiver(Ctl(At(cfg, s.snd.offset)));
    var answered := Step(cfg, Step(cfg, s, RcvTimeout), nudge);
    JoinedFrom(cfg, s, RoundEvents(cfg, s));
    JoinedFrom(cfg, s, [RcvTimeout, nudge]);
    ExecThree(cfg, s, RcvTimeout, nudge, answer);
    NudgeOutOfReach(cfg, s);
    assert RoundEvents(cfg, s) == [RcvTimeout, nudge] || RoundEvents(cfg, s) == [RcvTimeout, nudge, answer];
    hide Joined, Deployed, Step, RoundEvents;
    AnswerOutOfReach(cfg, answered);
  }

  /** Out of reach, no number of undisturbed rounds moves either peer. */
  lemma {:induction false} RoundsOutOfReach(cfg: Config, s: System, n: nat)
    requires Deployed(cfg) && Joined(cfg, s) && !InReach(cfg, s)
    ensures Joined(cfg, Rounds(cfg, s, n)) && Unmoved(s, Rounds(cfg, s, n))
    decreases n
  {
    if n > 0 {
      RoundOutOfReach(cfg, s);
      RoundsOutOfReach(cfg, Round(cfg, s), n - 1);
    }
  }

  /** Out of reach means that the sender has run ahead. */
  lemma OutOfReachIsBehind(cfg: Config, s: System)
    requires Joined(cfg, s)
    ensures !InReach(cfg, s) <==> s.rcv.current < s.snd.offset
  {
    if s.rcv.current < s.snd.offset {
      BoundariesAreApart(cfg.env.file, s.rcv.current, s.snd.offset);
    }
  }

  /** The DATA the receiver waits for, sent earlier, arrives as event `i` while it still waits. */
  ghost predicate LateDataArrives(cfg: Config, s: System, events: seq<Event>, i: nat)
    requires s.snd.offset <= |cfg.env.file| && s.rcv.current <= |cfg.env.file|
  {
    var late := Ctl(At(cfg, s.rcv.current));
    && i < |events|
    && events[i] == ToReceiver(late) && Sent(cfg.home, late) in s.wire
    && Exec(cfg, s, events[..i]).rcv.status == Receiver.Running
  }

  lemma AheadStaysAhead(cfg: Config, s: System, e: Event)
    requires Deployed(cfg) && Joined(cfg, s) && s.rcv.current < s.snd.offset
    ensures var r, late := Step(cfg, s, e), Sent(cfg.home, Ctl(At(cfg, s.rcv.current)));
            && r.snd.offset >= s.snd.offset && (late in r.wire <==> late in s.wire)
            && s.rcv.current <= r.rcv.current
            && (s.rcv.current != r.rcv.current <==>
                  e == ToReceiver(late.message) && late in s.wire && s.rcv.status == Receiver.Running)
  {
    BoundariesAreApart(cfg.env.file, s.rcv.current, s.snd.offset);
    if e.ToReceiver? && Sent(cfg.home, e.message) in s.wire {
      assert OnFile(cfg, s.snd.offset, Sent(cfg.home, e.message));
    }
  }

  lemma CurrentOnlyGrows(cfg: Config, s: System, e: Event)
    requires s.snd.offset <= |cfg.env.file|
    ensures s.rcv.current <= Step(cfg, s, e).rcv.current
  {
  }

  /**
   A receiver out of reach gets on if and only if a DATA for its offset was still under way
   and arrives while it waits; nothing that anybody sends from now on helps it.
   */
  lemma {:induction false} OnlyALateDataRescues(cfg: Config, s: System, events: seq<Event>)
    requires Deployed(cfg) && Joined(cfg, s) && !InReach(cfg, s)
    ensures s.rcv.current <= Exec(cfg, s, events).rcv.current
    ensures Exec(cfg, s, events).rcv.current != s.rcv.current <==> exists i :: LateDataArrives(cfg, s, events, i)
    ensures var r, late := Exec(cfg, s, events), Sent(cfg.home, Ctl(At(cfg, s.rcv.current)));
            r.rcv.current == s.rcv.current ==> r.snd.offset >= s.snd.offset && (late in r.wire <==> late in s.wire)
  {
    OutOfReachIsBehind(cfg, s);
    if events != [] {
      var front, e := events[..|events| - 1], events[|events| - 1];
      var reached := Exec(cfg, s, front);
      hide Step, Joined, Deployed, InReach, LateDataArrives;
      assert events == front + [e];
      OnlyALateDataRescues(cfg, s, front);
      JoinedFrom(cfg, s, front);
      CurrentOnlyGrows(cfg, reached, e);
      LateDataInFrontOrLast(cfg, s, front, e);
      if reached.rcv.current == s.rcv.current {
        AheadStaysAhead(cfg, reached, e);
      }
    } else {
      assert forall i :: !LateDataArrives(cfg, s, events, i);
    }
  }

  lemma LateDataInFrontOrLast(cfg: Config, s: System, front: seq<Event>, e: Event)
    requires s.snd.offset <= |cfg.env.file| && s.rcv.current <= |cfg.env.file|
    ensures var late := Ctl(At(cfg, s.rcv.current));
            (exists i :: LateDataArrives(cfg, s, front + [e], i)) <==>
              || (exists i :: LateDataArrives(cfg, s, front, i))
              || (e == ToReceiver(late) && Sent(cfg.home, late) in s.wire
                  && Exec(cfg, s, front).rcv.status == Receiver.Running)
  {
    hide Exec, At;
    var all := front + [e];
    forall i: nat | i < |front|
      ensures LateDataArrives(cfg, s, all, i) == LateDataArrives(cfg, s, front, i)
    {
      assert all[..i] == front[..i];
    }
    assert all[..|front|] == front;
    var late := Ctl(At(cfg, s.rcv.current));
    assert LateDataArrives(cfg, s, all, |front|) <==>
           e == ToReceiver(late) && Sent(cfg.home, late) in s.wire
           && Exec(cfg, s, front).rcv.status == Receiver.Running;
  }

  /** The first GET, and then an ACK of the first payload that the receiver never sent. */
  function UnsentAck(cfg: Config, from: Endpoint): seq<Event> {
    var ack := Inject(Datagram(None, Some(Ack("", NextOffset(cfg.env.file, 0)))), from);
    [ToSender(Get(cfg.rcv.id)), ack]
  }

  lemma AwaitedDataIsTaken(cfg: Config, s: System)
    requires Deployed(cfg) && s.snd.offset <= |cfg.env.file| && s.rcv.status == Receiver.Running
    requires s.rcv.current < |cfg.env.file| && Sent(cfg.home, Ctl(At(cfg, s.rcv.current))) in s.wire
    ensures var r := Step(cfg, s, ToReceiver(Ctl(At(cfg, s.rcv.current))));
            r.snd == s.snd && r.rcv.current == NextOffset(cfg.env.file, s.rcv.current)
  {
  }

  lemma AfterUnsentAck(cfg: Config, from: Endpoint)
    requires Deployed(cfg)
    ensures var s, next := Exec(cfg, Connected(cfg), UnsentAck(cfg, from)), NextOffset(cfg.env.file, 0);
            && s.rcv == Receiver.Start(cfg.rcv) && s.snd.offset == next
            && Sent(cfg.home, Ctl(At(cfg, 0))) in s.wire
  {
    var get, ack := UnsentAck(cfg, from)[0], UnsentAck(cfg, from)[1];
    ConnectedIsInWindow(cfg);
    ExecThree(cfg, Connected(cfg), get, ack, ack);
    assert Get(cfg.rcv.id) in Connected(cfg).rcv.sent;
  }

  /**
   One such ACK takes the sender out of the receiver's reach exactly if the file is not
   empty.  No round brings it back then; a late delivery of the first DATA does.
   */
  lemma AnUnsentAckOutruns(cfg: Config, from: Endpoint, n: nat)
    requires Deployed(cfg)
    ensures var s, late := Exec(cfg, Connected(cfg), UnsentAck(cfg, from)), Ctl(At(cfg, 0));
            && Joined(cfg, s) && s.rcv.status == Receiver.Running && s.rcv.current == 0
            && (!InReach(cfg, s) <==> |cfg.env.file| > 0)
            && (|cfg.env.file| > 0 ==>
                  && Rounds(cfg, s, n).rcv.current == 0 && Rounds(cfg, s, n).rcv.status != Receiver.Success
                  && Sent(cfg.home, late) in s.wire
                  && var rescued := Step(cfg, s, ToReceiver(late));
                     InReach(cfg, rescued) && rescued.rcv.current == NextOffset(cfg.env.file, 0))
  {
    var s, late := Exec(cfg, Connected(cfg), UnsentAck(cfg, from)), Ctl(At(cfg, 0));
    ConnectedIsInWindow(cfg);
    JoinedHolds(cfg, [], UnsentAck(cfg, from));
    AfterUnsentAck(cfg, from);
    hide Exec, Connected, Deployed, UnsentAck;
    if |cfg.env.file| > 0 {
      RoundsOutOfReach(cfg, s, n);
      hide Joined, Rounds;
      AwaitedDataIsTaken(cfg, s);
      hide Step;
    }
  }
}
