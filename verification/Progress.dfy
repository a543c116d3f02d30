/** Recovery after loss, the exact traffic of a loss-free transfer, and the run that loses DONE. */
module Progress {
  import opened Common
  import opened Protocol
  import opened Transfer
  import opened HonestTransfer
  import opened Recovery
  import Sender
  import Receiver

  /**
   From every state of every honest run in which the receiver waits: one round brings exactly
   the next payload, or DONE at the end, if and only if DONE is not already out for a
   non-empty file and this is not the last time-out.  When DONE is out, the nudge is taken for
   the final ACK: the session closes without an answer.
   */
  lemma HonestRoundAdvancesExactly(cfg: Config, s: System)
    requires Deployed(cfg) && Window(cfg, s) && s.rcv.status == Receiver.Running
    ensures Window(cfg, Round(cfg, s))
    ensures Advanced(cfg, s, Round(cfg, s)) <==> !DoneIsOut(cfg, s) && s.rcv.retries + 1 < MAX_RETRIES
    ensures s.rcv.retries + 1 == MAX_RETRIES ==> Round(cfg, s).rcv == Waited(cfg, s)
    ensures DoneIsOut(cfg, s) ==>
              && Round(cfg, s) == System(s.snd.(phase := Sender.Closed), Waited(cfg, s), s.wire)
              && s.rcv.out == cfg.env.file
  {
    WindowIsJoined(cfg, s);
    RoundAdvancesExactly(cfg, s);
    WindowFrom(cfg, s, RoundEvents(cfg, s));
    hide Round, RoundEvents, Joined, Deployed;
    assert cfg.env.file[..|cfg.env.file|] == cfg.env.file;
  }

  lemma RoundsUnfold(cfg: Config, s: System, n: nat)
    requires s.snd.offset <= |cfg.env.file| && n > 0
    ensures Rounds(cfg, s, n) == if n == 1 then Round(cfg, s) else Rounds(cfg, Round(cfg, s), n - 1)
  {
    hide Round;
  }

  lemma WindowPrefix(cfg: Config, s: System)
    requires Window(cfg, s)
    ensures s.snd.offset <= |cfg.env.file| && s.rcv.current <= |cfg.env.file|
    ensures s.rcv.out == cfg.env.file[..s.rcv.current]
  {
  }

  lemma NothingLeft()
    ensures ChunkCount(0) == 0
  {
  }

  lemma OnePayloadLess(file: Bytes, off: nat)
    requires off < |file|
    ensures off < NextOffset(file, off) <= |file|
    ensures ChunkCount(|file| - off) == ChunkCount(|file| - NextOffset(file, off)) + 1
  {
  }

  lemma OneRound(cfg: Config, s: System)
    requires Deployed(cfg) && Window(cfg, s) && !DoneIsOut(cfg, s)
    requires s.rcv.status == Receiver.Running && s.rcv.retries + 1 < MAX_RETRIES
    ensures var r := Round(cfg, s);
            if s.rcv.current == |cfg.env.file| then r.rcv.status == Receiver.Success && r.rcv.out == cfg.env.file
            else r.rcv.status == Receiver.Running && r.rcv.retries == 0 && !DoneIsOut(cfg, r)
                 && Window(cfg, r) && r.rcv.current == NextOffset(cfg.env.file, s.rcv.current)
  {
    HonestRoundAdvancesExactly(cfg, s);
    hide Round, Deployed;
    assert cfg.env.file[..|cfg.env.file|] == cfg.env.file;
  }

  /**
   However much was lost before, as many undisturbed rounds as there are payloads left, and
   one more, complete the transfer.
   */
  lemma {:induction false} RoundsComplete(cfg: Config, s: System)
    requires Deployed(cfg) && Window(cfg, s) && !DoneIsOut(cfg, s)
    requires s.rcv.status == Receiver.Running && s.rcv.retries + 1 < MAX_RETRIES
    ensures var r := Rounds(cfg, s, ChunkCount(|cfg.env.file| - s.rcv.current) + 1);
            r.rcv.status == Receiver.Success && r.rcv.out == cfg.env.file
    decreases |cfg.env.file| - s.rcv.current
  {
    hide *;
    WindowPrefix(cfg, s);
    OneRound(cfg, s);
    RoundsUnfold(cfg, s, ChunkCount(|cfg.env.file| - s.rcv.current) + 1);
    if s.rcv.current == |cfg.env.file| {
      NothingLeft();
    } else {
      OnePayloadLess(cfg.env.file, s.rcv.current);
      RoundsComplete(cfg, Round(cfg, s));
    }
  }

  lemma {:induction false} FinishedIsLeftAlone(cfg: Config, s: System, events: seq<Event>)
    requires s.snd.offset <= |cfg.env.file| && s.rcv.status != Receiver.Running
    ensures Exec(cfg, s, events).rcv == s.rcv
  {
    if events != [] {
      FinishedIsLeftAlone(cfg, s, events[..|events| - 1]);
    }
  }

  lemma {:induction false} RoundsAfterTheEnd(cfg: Config, s: System, n: nat)
    requires s.snd.offset <= |cfg.env.file| && s.rcv.status != Receiver.Running
    ensures Rounds(cfg, s, n).rcv == s.rcv
    decreases n
  {
    if n > 0 {
      FinishedIsLeftAlone(cfg, s, RoundEvents(cfg, s));
      RoundsAfterTheEnd(cfg, Round(cfg, s), n - 1);
    }
  }

  /** These rounds complete the transfer exactly if the first of them advances it. */
  lemma RoundsCompleteExactly(cfg: Config, s: System)
    requires Deployed(cfg) && Window(cfg, s) && s.rcv.status == Receiver.Running
    ensures var r := Rounds(cfg, s, ChunkCount(|cfg.env.file| - s.rcv.current) + 1);
            && (r.rcv.status == Receiver.Success ==> r.rcv.out == cfg.env.file)
            && (r.rcv.status == Receiver.Success <==> !DoneIsOut(cfg, s) && s.rcv.retries + 1 < MAX_RETRIES)
  {
    var left := ChunkCount(|cfg.env.file| - s.rcv.current);
    HonestRoundAdvancesExactly(cfg, s);
    RoundsUnfold(cfg, s, left + 1);
    if !DoneIsOut(cfg, s) && s.rcv.retries + 1 < MAX_RETRIES {
      RoundsComplete(cfg, s);
    } else if s.rcv.retries + 1 < MAX_RETRIES {
      NothingLeft();
    } else {
      RoundsAfterTheEnd(cfg, Round(cfg, s), left);
    }
  }

  /** Every payload from `off` on, with its ACK, in order. */
  function Ladder(cfg: Config, off: nat): seq<Event>
    requires off <= |cfg.env.file|
    decreases |cfg.env.file| - off
  {
    if off == |cfg.env.file| then []
    else
      var next := NextOffset(cfg.env.file, off);
      [ToReceiver(Ctl(At(cfg, off))), ToSender(Ack(cfg.rcv.id, next))] + Ladder(cfg, next)
  }

  /** The messages the sender answers the ladder with: every later payload, then DONE. */
  function Payloads(cfg: Config, off: nat): (r: seq<Sent>)
    requires off <= |cfg.env.file|
    ensures |r| == ChunkCount(|cfg.env.file| - off)
    ensures forall i :: 0 <= i < |r| ==> r[i].to == cfg.home && r[i].message.Ctl? && r[i].message.control.Data?
    decreases |cfg.env.file| - off
  {
    if off == |cfg.env.file| then []
    else [Sent(cfg.home, Ctl(At(cfg, off)))] + Payloads(cfg, NextOffset(cfg.env.file, off))
  }

  function Acks(cfg: Config, off: nat): (r: seq<Control>)
    requires off <= |cfg.env.file|
    ensures |r| == ChunkCount(|cfg.env.file| - off)
    ensures forall i :: 0 <= i < |r| ==> r[i].Ack?
    decreases |cfg.env.file| - off
  {
    if off == |cfg.env.file| then []
    else
      var next := NextOffset(cfg.env.file, off);
      [Ack(cfg.rcv.id, next)] + Acks(cfg, next)
  }

  function Whole(cfg: Config): Sent {
    Sent(cfg.home, Ctl(At(cfg, |cfg.env.file|)))
  }

  /** Sender and receiver both stand at `off`, and the packet for `off` was sent last. */
  ghost predicate InStep(cfg: Config, s: System, off: nat) {
    && off <= |cfg.env.file|
    && s.snd == Sender.State(Sender.Transferring, cfg.home, Meta(cfg), off)
    && s.rcv.current == off && s.rcv.out == cfg.env.file[..off] && s.rcv.retries == 0
    && s.rcv.status == Receiver.Running
    && Sent(cfg.home, Ctl(At(cfg, off))) in s.wire
  }

  /** One rung later: the payload at `off` is written and acknowledged, the next packet is sent. */
  function Climbed(cfg: Config, s: System, off: nat): System
    requires off < |cfg.env.file|
  {
    var next := NextOffset(cfg.env.file, off);
    System(s.snd.(offset := next),
           s.rcv.(out := cfg.env.file[..next], current := next, sent := s.rcv.sent + [Ack(cfg.rcv.id, next)]),
           s.wire + [Sent(cfg.home, Ctl(At(cfg, next)))])
  }

  lemma ClimbRung(cfg: Config, s: System, off: nat)
    requires Deployed(cfg) && InStep(cfg, s, off) && off < |cfg.env.file|
    ensures var next := NextOffset(cfg.env.file, off);
            var rung := [ToReceiver(Ctl(At(cfg, off))), ToSender(Ack(cfg.rcv.id, next))];
            Exec(cfg, s, rung) == Climbed(cfg, s, off) && InStep(cfg, Climbed(cfg, s, off), next)
  {
    var file := cfg.env.file;
    var next := NextOffset(file, off);
    var data, ack := ToReceiver(Ctl(At(cfg, off))), ToSender(Ack(cfg.rcv.id, next));
    var written := Step(cfg, s, data);
    assert s.rcv.out + Chunk(file, off) == file[..next];
    assert written.rcv == Climbed(cfg, s, off).rcv;
    assert Ack(cfg.rcv.id, next) in written.rcv.sent;
    ExecThree(cfg, s, data, ack, ack);
  }

  /** The sender's messages while the ladder is climbed from `off`. */
  function Answers(cfg: Config, off: nat): seq<Sent>
    requires off <= |cfg.env.file|
  {
    if off == |cfg.env.file| then [] else Payloads(cfg, NextOffset(cfg.env.file, off)) + [Whole(cfg)]
  }

  /** The top of the ladder. */
  function Top(cfg: Config, s: System, off: nat): System
    requires off <= |cfg.env.file|
  {
    System(s.snd.(offset := |cfg.env.file|),
           s.rcv.(out := cfg.env.file, current := |cfg.env.file|, sent := s.rcv.sent + Acks(cfg, off)),
           s.wire + Answers(cfg, off))
  }

  lemma TopIsAboveTheRung(cfg: Config, s: System, off: nat)
    requires off < |cfg.env.file|
    ensures Top(cfg, Climbed(cfg, s, off), NextOffset(cfg.env.file, off)) == Top(cfg, s, off)
  {
    var next := NextOffset(cfg.env.file, off);
    assert Answers(cfg, off) == [Sent(cfg.home, Ctl(At(cfg, next)))] + Answers(cfg, next);
    assert Acks(cfg, off) == [Ack(cfg.rcv.id, next)] + Acks(cfg, next);
  }

  lemma {:induction false} ClimbLadder(cfg: Config, s: System, off: nat)
    requires Deployed(cfg) && InStep(cfg, s, off)
    ensures Exec(cfg, s, Ladder(cfg, off)) == Top(cfg, s, off)
    ensures InStep(cfg, Top(cfg, s, off), |cfg.env.file|)
    decreases |cfg.env.file| - off
  {
    if off == |cfg.env.file| {
      assert cfg.env.file[..off] == cfg.env.file;
    } else {
      var next := NextOffset(cfg.env.file, off);
      ClimbRung(cfg, s, off);
      ExecAppend(cfg, s, [ToReceiver(Ctl(At(cfg, off))), ToSender(Ack(cfg.rcv.id, next))], Ladder(cfg, next));
      ClimbLadder(cfg, Climbed(cfg, s, off), next);
      TopIsAboveTheRung(cfg, s, off);
    }
  }

  /** The run up to the moment DONE was sent: the GET, then every payload and its ACK. */
  function UpToDone(cfg: Config): seq<Event> {
    [ToSender(Get(cfg.rcv.id))] + Ladder(cfg, 0)
  }

  /** The session after the first GET: the packet for offset 0 is out. */
  function Started(cfg: Config): System {
    System(Sender.State(Sender.Transferring, cfg.home, Meta(cfg), 0),
           Receiver.Start(cfg.rcv),
           Connected(cfg).wire + [Sent(cfg.home, Ctl(At(cfg, 0)))])
  }

  lemma GetStartsTheTransfer(cfg: Config)
    requires Deployed(cfg)
    ensures Exec(cfg, Connected(cfg), [ToSender(Get(cfg.rcv.id))]) == Started(cfg)
    ensures InStep(cfg, Started(cfg), 0)
  {
    var s, get := Connected(cfg), ToSender(Get(cfg.rcv.id));
    ConnectedIsInWindow(cfg);
    assert Get(cfg.rcv.id) in s.rcv.sent;
    assert [get][..0] == [] && Exec(cfg, s, [get]) == Step(cfg, s, get);
  }

  lemma AllAnswers(cfg: Config)
    ensures [Sent(cfg.home, Ctl(At(cfg, 0)))] + Answers(cfg, 0) == Payloads(cfg, 0) + [Whole(cfg)]
  {
  }

  lemma ReachDone(cfg: Config)
    requires Deployed(cfg)
    ensures Exec(cfg, Connected(cfg), UpToDone(cfg)) == Top(cfg, Started(cfg), 0)
    ensures InStep(cfg, Top(cfg, Started(cfg), 0), |cfg.env.file|)
  {
    GetStartsTheTransfer(cfg);
    ExecAppend(cfg, Connected(cfg), [ToSender(Get(cfg.rcv.id))], Ladder(cfg, 0));
    ClimbLadder(cfg, Started(cfg), 0);
    hide Exec, Connected, InStep, Top, Ladder;
  }

  lemma TrafficAtTheTop(cfg: Config)
    ensures var top := Top(cfg, Started(cfg), 0);
            && top.wire == Connected(cfg).wire + Payloads(cfg, 0) + [Whole(cfg)]
            && top.rcv.sent == [Get(cfg.rcv.id)] + Acks(cfg, 0)
  {
    AllAnswers(cfg);
    var wire, first := Connected(cfg).wire, [Sent(cfg.home, Ctl(At(cfg, 0)))];
    hide Connected, Answers, Payloads, Whole;
    assert Top(cfg, Started(cfg), 0).wire == (wire + first) + Answers(cfg, 0);
    assert (wire + first) + Answers(cfg, 0) == wire + (first + Answers(cfg, 0));
    assert wire + (Payloads(cfg, 0) + [Whole(cfg)]) == wire + Payloads(cfg, 0) + [Whole(cfg)];
  }

  lemma DoneAndFinalAck(cfg: Config, s: System)
    requires Deployed(cfg) && InStep(cfg, s, |cfg.env.file|)
    ensures var size := |cfg.env.file|;
            var r := Exec(cfg, s, [ToReceiver(Whole(cfg).message), ToSender(Ack(cfg.rcv.id, size))]);
            && r.rcv == s.rcv.(status := Receiver.Success, sent := s.rcv.sent + [Ack(cfg.rcv.id, size)])
            && r.snd == s.snd.(phase := Sender.Closed)
            && r.wire == s.wire
  {
    var size := |cfg.env.file|;
    var done, ack := ToReceiver(Whole(cfg).message), ToSender(Ack(cfg.rcv.id, size));
    ExecThree(cfg, s, done, ack, ack);
    assert cfg.env.file[..size] == cfg.env.file;
    assert Ack(cfg.rcv.id, size) in Step(cfg, s, done).rcv.sent;
  }

  /**
   A run in which every packet is delivered once and in order: the receiver returns true
   with the whole file, the session closes, and the traffic is exactly ceil(size / 1272)
   DATA, one DONE and ceil(size / 1272) + 1 ACKs, for empty files and exact multiples too.
   */
  lemma LossFreeRun(cfg: Config)
    requires Deployed(cfg)
    ensures var file, id := cfg.env.file, cfg.rcv.id;
            var final := [ToReceiver(Whole(cfg).message), ToSender(Ack(id, |file|))];
            var r := Exec(cfg, Connected(cfg), UpToDone(cfg) + final);
            && r.rcv.status == Receiver.Success && r.rcv.out == file
            && r.snd.phase == Sender.Closed
            && r.wire == Connected(cfg).wire + Payloads(cfg, 0) + [Whole(cfg)]
            && |Payloads(cfg, 0)| == (|file| + 1271) / 1272
            && r.rcv.sent == [Get(id)] + Acks(cfg, 0) + [Ack(id, |file|)]
            && |Acks(cfg, 0)| == (|file| + 1271) / 1272
  {
    var final := [ToReceiver(Whole(cfg).message), ToSender(Ack(cfg.rcv.id, |cfg.env.file|))];
    ReachDone(cfg);
    TrafficAtTheTop(cfg);
    ExecAppend(cfg, Connected(cfg), UpToDone(cfg), final);
    DoneAndFinalAck(cfg, Top(cfg, Started(cfg), 0));
    hide Exec, Connected, InStep;
  }

  function Timeouts(n: nat): seq<Event> {
    seq(n, _ => RcvTimeout)
  }

  lemma {:induction false} WaitOut(cfg: Config, s: System, n: nat)
    requires s.snd.offset <= |cfg.env.file| && s.rcv.status == Receiver.Running
    requires 0 < n && s.rcv.retries + n <= MAX_RETRIES
    ensures var r := Exec(cfg, s, Timeouts(n));
            && r.snd == s.snd && r.rcv.out == s.rcv.out && r.rcv.retries == s.rcv.retries + n
            && r.rcv.status == if s.rcv.retries + n == MAX_RETRIES then Receiver.TimedOut else Receiver.Running
  {
    assert Timeouts(n)[..n - 1] == Timeouts(n - 1);
    if n > 1 {
      WaitOut(cfg, s, n - 1);
    }
  }

  /** The last time-out is too late: a state in which only the budget stands in the way. */
  lemma TheLastTimeoutEndsTheWait(cfg: Config)
    requires Deployed(cfg)
    ensures var s := Exec(cfg, Connected(cfg), Timeouts(19));
            && Window(cfg, s) && s.rcv.status == Receiver.Running && !DoneIsOut(cfg, s)
            && !Advanced(cfg, s, Round(cfg, s)) && Round(cfg, s).rcv.status == Receiver.TimedOut
  {
    var s := Exec(cfg, Connected(cfg), Timeouts(19));
    ConnectedIsInWindow(cfg);
    WindowHolds(cfg, [], Timeouts(19));
    WaitOut(cfg, Connected(cfg), 19);
    HonestRoundAdvancesExactly(cfg, s);
  }

  lemma NudgeInsteadOfDone(cfg: Config, s: System)
    requires Deployed(cfg) && InStep(cfg, s, |cfg.env.file|) && |cfg.env.file| > 0
    ensures var r := Exec(cfg, s, [RcvTimeout, ToSender(Ack(cfg.rcv.id, |cfg.env.file|))]);
            && r.snd == s.snd.(phase := Sender.Closed)
            && r.rcv.status == Receiver.Running && r.rcv.out == cfg.env.file && r.rcv.retries == 1
  {
    var size := |cfg.env.file|;
    var ack := ToSender(Ack(cfg.rcv.id, size));
    ExecThree(cfg, s, RcvTimeout, ack, ack);
    assert cfg.env.file[..size] == cfg.env.file;
    assert Ack(cfg.rcv.id, size) in Step(cfg, s, RcvTimeout).rcv.sent;
  }

  /**
   A closed session does not mean that `receive_file` returned true.  For every non-empty
   file there is a run in which only DONE is lost: the time-out repeats the last ACK, which
   the session takes for the final one; it closes, nobody answers any more, and the receiver,
   with every byte of the file written, reports a time-out.
   */
  lemma LosingDoneClosesTheSessionButFailsTheReceiver(cfg: Config)
    requires Deployed(cfg) && |cfg.env.file| > 0
    ensures var nudged := UpToDone(cfg) + [RcvTimeout, ToSender(Ack(cfg.rcv.id, |cfg.env.file|))];
            var closed := Exec(cfg, Connected(cfg), nudged);
            var end := Exec(cfg, Connected(cfg), nudged + Timeouts(19));
            && closed.snd.phase == Sender.Closed && closed.rcv.status == Receiver.Running
            && closed.rcv.out == cfg.env.file
            && end.rcv.status == Receiver.TimedOut && end.rcv.out == cfg.env.file
  {
    var nudge := [RcvTimeout, ToSender(Ack(cfg.rcv.id, |cfg.env.file|))];
    ReachDone(cfg);
    ExecAppend(cfg, Connected(cfg), UpToDone(cfg), nudge);
    NudgeInsteadOfDone(cfg, Top(cfg, Started(cfg), 0));
    ExecAppend(cfg, Connected(cfg), UpToDone(cfg) + nudge, Timeouts(19));
    WaitOut(cfg, Exec(cfg, Connected(cfg), UpToDone(cfg) + nudge), 19);
  }

  lemma {:induction false} LadderIsHonest(cfg: Config, off: nat)
    requires off <= |cfg.env.file|
    ensures AllHonest(Ladder(cfg, off))
    decreases |cfg.env.file| - off
  {
    if off < |cfg.env.file| {
      LadderIsHonest(cfg, NextOffset(cfg.env.file, off));
    }
  }

  /** In every honest run, a session that has closed has a receiver that returned true. */
  ghost predicate ClosingMeansSuccess(cfg: Config) {
    forall events | AllHonest(events) ::
      var s := Exec(cfg, Connected(cfg), events);
      s.snd.phase == Sender.Closed ==> s.rcv.status == Receiver.Success
  }

  /** Closing tells that `receive_file` returned true for the empty file and for no other. */
  lemma ClosingMeansSuccessOnlyForTheEmptyFile(cfg: Config)
    requires Deployed(cfg)
    ensures ClosingMeansSuccess(cfg) <==> |cfg.env.file| == 0
  {
    ConnectedIsInWindow(cfg);
    if |cfg.env.file| == 0 {
      forall events | AllHonest(events)
        ensures var s := Exec(cfg, Connected(cfg), events);
                s.snd.phase == Sender.Closed ==> s.rcv.status == Receiver.Success
      {
        WindowHolds(cfg, [], events);
      }
    } else {
      var losing := UpToDone(cfg) + [RcvTimeout, ToSender(Ack(cfg.rcv.id, |cfg.env.file|))];
      LosingDoneClosesTheSessionButFailsTheReceiver(cfg);
      LadderIsHonest(cfg, 0);
      assert AllHonest(losing);
    }
  }

  /** A DONE sent earlier arrives as event `i`, and the receiver is still waiting. */
  ghost predicate DoneArrivesInTime(cfg: Config, s: System, events: seq<Event>, i: nat)
    requires s.snd.offset <= |cfg.env.file|
  {
    && i < |events|
    && events[i] == ToReceiver(Whole(cfg).message)
    && Exec(cfg, s, events[..i]).rcv.status == Receiver.Running
  }

  lemma StepAfterClose(cfg: Config, s: System, e: Event)
    requires Deployed(cfg) && Window(cfg, s) && s.snd.phase == Sender.Closed
    ensures Step(cfg, s, e).wire == s.wire && Step(cfg, s, e).snd == s.snd
    ensures s.rcv.status == Receiver.Running ==>
              (Step(cfg, s, e).rcv.status == Receiver.Success <==> e == ToReceiver(Whole(cfg).message))
    ensures s.rcv.status != Receiver.Running ==> Step(cfg, s, e).rcv == s.rcv
  {
    assert cfg.env.file[..|cfg.env.file|] == cfg.env.file;
    if e.ToReceiver? && Sent(cfg.home, e.message) in s.wire {
      assert Behind(cfg, s.snd.offset, Sent(cfg.home, e.message));
    }
  }

  /**
   After the session closed nothing more is sent, and the receiver returns true if and only
   if a DONE that is still under way arrives before its budget is spent.
   */
  lemma {:induction false} OnlyALateDoneHelps(cfg: Config, s: System, events: seq<Event>)
    requires Deployed(cfg) && Window(cfg, s) && AllHonest(events)
    requires s.snd.phase == Sender.Closed && s.rcv.status == Receiver.Running
    ensures var r := Exec(cfg, s, events);
            && r.wire == s.wire && r.snd == s.snd
            && (r.rcv.status == Receiver.Success <==> exists i :: DoneArrivesInTime(cfg, s, events, i))
  {
    if events != [] {
      var front, e := events[..|events| - 1], events[|events| - 1];
      assert events == front + [e];
      OnlyALateDoneHelps(cfg, s, front);
      WindowFrom(cfg, s, front);
      StepAfterClose(cfg, Exec(cfg, s, front), e);
      hide Step, Window, Deployed, DoneArrivesInTime;
      DoneInFrontOrLast(cfg, s, front, e);
    }
  }

  lemma DoneInFrontOrLast(cfg: Config, s: System, front: seq<Event>, e: Event)
    requires s.snd.offset <= |cfg.env.file|
    ensures (exists i :: DoneArrivesInTime(cfg, s, front + [e], i)) <==>
              || (exists i :: DoneArrivesInTime(cfg, s, front, i))
              || (e == ToReceiver(Whole(cfg).message) && Exec(cfg, s, front).rcv.status == Receiver.Running)
  {
    hide Exec, Whole;
    var all := front + [e];
    forall i: nat | i < |front|
      ensures DoneArrivesInTime(cfg, s, all, i) == DoneArrivesInTime(cfg, s, front, i)
    {
      assert all[..i] == front[..i];
    }
    assert all[..|front|] == front;
    assert DoneArrivesInTime(cfg, s, all, |front|) <==>
           e == ToReceiver(Whole(cfg).message) && Exec(cfg, s, front).rcv.status == Receiver.Running;
  }
}
