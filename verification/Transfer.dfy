/**
 The two peers joined by a network.  Everything that was ever sent stays deliverable, any
 number of times and in any order, and need not be delivered at all: this covers loss,
 duplication and reordering.  Time-outs may happen at any moment.
 */
module Transfer {
  import opened Common
  import opened Protocol
  import Sender
  import SenderRuns
  import Receiver

  /** Both peers' settings; the receiver's packets come from `home`, the sender's from `rcv.peer`. */
  datatype Config = Config(env: Sender.Env, rcv: Receiver.Config, home: Endpoint, greeted: Endpoint)

  datatype System = System(snd: Sender.State, rcv: Receiver.State, wire: seq<Sent>)

  datatype Event =
    | ToSender(packet: Control)                // a packet the receiver has sent arrives
    | Inject(d: Datagram, from: Endpoint)      // anything from anybody arrives at the session
    | ToReceiver(message: Message)             // a message sent to the receiver arrives
    | FromStranger(from: Endpoint, noise: Option<Control>)
    | PunchFromPeer                            // a hole-punching datagram of the peer; it does not parse
    | RcvTimeout

  function Init(cfg: Config): System {
    System(Sender.Start(cfg.greeted), Receiver.Start(cfg.rcv), [])
  }

  function SenderGets(cfg: Config, s: System, d: Datagram, from: Endpoint): System
    requires s.snd.offset <= |cfg.env.file|
  {
    var step := Sender.OnPacket(cfg.env, s.snd, d, from);
    s.(snd := step.next, wire := s.wire + step.sent)
  }

  function ReceiverGets(cfg: Config, s: System, e: Receiver.Event): System {
    s.(rcv := Receiver.OnEvent(cfg.rcv, s.rcv, e))
  }

  /** One event; a delivery of something that was never sent changes nothing. */
  function Step(cfg: Config, s: System, e: Event): (r: System)
    requires s.snd.offset <= |cfg.env.file|
    ensures r.snd.offset <= |cfg.env.file|
  {
    match e
    case ToSender(p) =>
      if p in s.rcv.sent then SenderGets(cfg, s, AsDatagram(Ctl(p)), cfg.home) else s
    case Inject(d, from) => SenderGets(cfg, s, d, from)
    case ToReceiver(m) =>
      if Sent(cfg.home, m) in s.wire
      then ReceiverGets(cfg, s, Receiver.Received(cfg.rcv.peer, Some(ControlView(m))))
      else s
    case FromStranger(from, packet) =>
      if from != cfg.rcv.peer then ReceiverGets(cfg, s, Receiver.Received(from, packet)) else s
    case PunchFromPeer => ReceiverGets(cfg, s, Receiver.Received(cfg.rcv.peer, None))
    case RcvTimeout => ReceiverGets(cfg, s, Receiver.Timeout)
  }

  function Exec(cfg: Config, s: System, events: seq<Event>): (r: System)
    requires s.snd.offset <= |cfg.env.file|
    ensures r.snd.offset <= |cfg.env.file|
  {
    if events == [] then s
    else Step(cfg, Exec(cfg, s, events[..|events| - 1]), events[|events| - 1])
  }

  lemma {:induction false} ExecAppend(cfg: Config, s: System, xs: seq<Event>, ys: seq<Event>)
    requires s.snd.offset <= |cfg.env.file|
    ensures Exec(cfg, s, xs + ys) == Exec(cfg, Exec(cfg, s, xs), ys)
    decreases |ys|
  {
    if ys == [] {
      assert xs + ys == xs;
    } else {
      ExecAppend(cfg, s, xs, ys[..|ys| - 1]);
      assert (xs + ys)[..|xs + ys| - 1] == xs + ys[..|ys| - 1];
    }
  }

  /** Whatever is registered under the receiver's transfer id has the size of the file. */
  ghost predicate RegistryAgrees(cfg: Config) {
    && cfg.rcv.id != ""
    && forall token :: cfg.env.lookup(token).Some? && cfg.env.lookup(token).value.id == cfg.rcv.id
                       ==> cfg.env.lookup(token).value.fileSize == |cfg.env.file|
  }

  /** What the session may have put on the wire, whoever drives it. */
  ghost predicate Truthful(cfg: Config, m: Message) {
    match m
    case Ctl(Data(_, off, payload)) => off < |cfg.env.file| && payload == Chunk(cfg.env.file, off)
    case Ctl(Done(id, size, _)) => id == cfg.rcv.id ==> size == |cfg.env.file|
    case Hs(HandshakeFinish(_)) => false
    case _ => true
  }

  ghost predicate Safe(cfg: Config, s: System) {
    && s.snd.offset <= |cfg.env.file|
    && (s.snd.meta.id == cfg.rcv.id ==> s.snd.meta.fileSize == |cfg.env.file|)
    && (forall m :: m in s.wire ==> Truthful(cfg, m.message))
    && s.rcv.current <= |cfg.env.file|
    && s.rcv.out == cfg.env.file[..s.rcv.current]
    && (s.rcv.status == Receiver.Success ==> s.rcv.out == cfg.env.file)
  }

  lemma SessionIsTruthful(cfg: Config, s: System, d: Datagram, from: Endpoint)
    requires RegistryAgrees(cfg) && Safe(cfg, s)
    ensures var step := Sender.OnPacket(cfg.env, s.snd, d, from);
            && (step.next.meta.id == cfg.rcv.id ==> step.next.meta.fileSize == |cfg.env.file|)
            && forall m :: m in step.sent ==> Truthful(cfg, m.message)
  {
  }

  lemma ReceiverExtendsThePrefix(cfg: Config, s: System, m: Message)
    requires RegistryAgrees(cfg) && Safe(cfg, s) && Truthful(cfg, m)
    ensures Safe(cfg, ReceiverGets(cfg, s, Receiver.Received(cfg.rcv.peer, Some(ControlView(m)))))
  {
    if m.Ctl? && m.control.Data? && m.control.offset == s.rcv.current {
      assert s.rcv.out + m.control.payload == cfg.env.file[..NextOffset(cfg.env.file, s.rcv.current)];
    }
    assert cfg.env.file[..|cfg.env.file|] == cfg.env.file;
  }

  lemma StepKeepsSafe(cfg: Config, s: System, e: Event)
    requires RegistryAgrees(cfg) && Safe(cfg, s)
    ensures Safe(cfg, Step(cfg, s, e))
  {
    match e {
      case ToSender(p) => SessionIsTruthful(cfg, s, AsDatagram(Ctl(p)), cfg.home);
      case Inject(d, from) => SessionIsTruthful(cfg, s, d, from);
      case ToReceiver(m) =>
        if Sent(cfg.home, m) in s.wire {
          ReceiverExtendsThePrefix(cfg, s, m);
        }
      case _ =>
    }
  }

  /**
   Prefix safety.  Over every run, with any packets from anybody reaching the session, the
   output is the first `current` bytes of the file, and a receiver that returned true has
   the whole file.  Nothing is assumed about the hash.
   */
  lemma {:induction false} OutputIsAlwaysAPrefix(cfg: Config, events: seq<Event>)
    requires RegistryAgrees(cfg)
    ensures Safe(cfg, Exec(cfg, Init(cfg), events))
  {
    if events != [] {
      OutputIsAlwaysAPrefix(cfg, events[..|events| - 1]);
      StepKeepsSafe(cfg, Exec(cfg, Init(cfg), events[..|events| - 1]), events[|events| - 1]);
    }
  }

  /** `e` delivers a packet to a peer that is still listening, or is a time-out. */
  predicate Stimulates(cfg: Config, s: System, e: Event) {
    match e
    case ToSender(p) => s.snd.phase != Sender.Closed && p in s.rcv.sent
    case Inject(_, _) => s.snd.phase != Sender.Closed
    case ToReceiver(m) => s.rcv.status == Receiver.Running && Sent(cfg.home, m) in s.wire
    case FromStranger(_, _) => false
    case PunchFromPeer => false
    case RcvTimeout => s.rcv.status == Receiver.Running
  }

  /** Packets delivered by the network plus time-outs, over a run from the start. */
  function Stimuli(cfg: Config, events: seq<Event>): nat {
    if events == [] then 0
    else
      var front := events[..|events| - 1];
      Stimuli(cfg, front)
      + (if Stimulates(cfg, Exec(cfg, Init(cfg), front), events[|events| - 1]) then 1 else 0)
  }

  lemma StepAnswersAtMostOnce(cfg: Config, s: System, e: Event)
    requires s.snd.offset <= |cfg.env.file|
    ensures var r := Step(cfg, s, e);
            |r.wire| + |r.rcv.sent| <= |s.wire| + |s.rcv.sent| + (if Stimulates(cfg, s, e) then 1 else 0)
  {
  }

  /**
   Traffic never multiplies: after the first GET every packet sent by either side answers
   its own delivery or time-out.
   */
  lemma {:induction false} TrafficIsConserved(cfg: Config, events: seq<Event>)
    ensures var s := Exec(cfg, Init(cfg), events);
            |s.wire| + |s.rcv.sent| <= 1 + Stimuli(cfg, events)
  {
    if events != [] {
      var front := events[..|events| - 1];
      TrafficIsConserved(cfg, front);
      StepAnswersAtMostOnce(cfg, Exec(cfg, Init(cfg), front), events[|events| - 1]);
      hide Step, Stimulates;
    }
  }

  // --- both peers of the joined system are the peers on their own ---

  /** What an event brings to a wait of the receiver, if anything. */
  function WaitOf(cfg: Config, s: System, e: Event): Option<Receiver.Event> {
    match e
    case ToReceiver(m) =>
      if Sent(cfg.home, m) in s.wire then Some(Receiver.Received(cfg.rcv.peer, Some(ControlView(m)))) else None
    case FromStranger(from, packet) => if from != cfg.rcv.peer then Some(Receiver.Received(from, packet)) else None
    case PunchFromPeer => Some(Receiver.Received(cfg.rcv.peer, None))
    case RcvTimeout => Some(Receiver.Timeout)
    case _ => None
  }

  /** The datagram an event brings to the session, if any. */
  function InputOf(cfg: Config, s: System, e: Event): Option<SenderRuns.Input> {
    match e
    case ToSender(p) =>
      if p in s.rcv.sent then Some(SenderRuns.Input(AsDatagram(Ctl(p)), cfg.home)) else None
    case Inject(d, from) => Some(SenderRuns.Input(d, from))
    case _ => None
  }

  function Waits(cfg: Config, events: seq<Event>): seq<Receiver.Event> {
    if events == [] then []
    else
      var front := events[..|events| - 1];
      var wait := WaitOf(cfg, Exec(cfg, Init(cfg), front), events[|events| - 1]);
      if wait.Some? then Waits(cfg, front) + [wait.value] else Waits(cfg, front)
  }

  function Inputs(cfg: Config, events: seq<Event>): seq<SenderRuns.Input> {
    if events == [] then []
    else
      var front := events[..|events| - 1];
      var input := InputOf(cfg, Exec(cfg, Init(cfg), front), events[|events| - 1]);
      if input.Some? then Inputs(cfg, front) + [input.value] else Inputs(cfg, front)
  }

  lemma StepServesBoth(cfg: Config, s: System, e: Event)
    requires s.snd.offset <= |cfg.env.file|
    ensures var r, wait, input := Step(cfg, s, e), WaitOf(cfg, s, e), InputOf(cfg, s, e);
            && r.rcv == (if wait.Some? then Receiver.OnEvent(cfg.rcv, s.rcv, wait.value) else s.rcv)
            && (input.None? ==> r.snd == s.snd && r.wire == s.wire)
            && (input.Some? ==>
                  var step := Sender.OnPacket(cfg.env, s.snd, input.value.datagram, input.value.from);
                  r.snd == step.next && r.wire == s.wire + step.sent)
  {
    hide Receiver.OnEvent, Sender.OnPacket, ControlView, AsDatagram;
  }

  /** The receiver of every run is the receive loop, fed with what its waits brought. */
  lemma {:induction false} ReceiverIsTheLoop(cfg: Config, events: seq<Event>)
    ensures Exec(cfg, Init(cfg), events).rcv == Receiver.Run(cfg.rcv, Waits(cfg, events))
  {
    if events != [] {
      var front, e := events[..|events| - 1], events[|events| - 1];
      var wait := WaitOf(cfg, Exec(cfg, Init(cfg), front), e);
      ReceiverIsTheLoop(cfg, front);
      StepServesBoth(cfg, Exec(cfg, Init(cfg), front), e);
      hide Step, WaitOf, InputOf, Receiver.OnEvent, Receiver.Run;
      if wait.Some? {
        Receiver.RunOneMore(cfg.rcv, Waits(cfg, front), wait.value);
      }
    }
  }

  /** The sender of every run is a session on its own, with everything it sent on the wire. */
  lemma {:induction false} SenderIsTheSession(cfg: Config, events: seq<Event>)
    ensures var s := Exec(cfg, Init(cfg), events);
            SenderRuns.Run(cfg.env, Sender.Start(cfg.greeted), Inputs(cfg, events)) == Sender.Step(s.snd, s.wire)
  {
    if events != [] {
      var front, e := events[..|events| - 1], events[|events| - 1];
      var input := InputOf(cfg, Exec(cfg, Init(cfg), front), e);
      SenderIsTheSession(cfg, front);
      StepServesBoth(cfg, Exec(cfg, Init(cfg), front), e);
      hide Step, WaitOf, InputOf, Sender.OnPacket, SenderRuns.Run;
      if input.Some? {
        SenderRuns.RunOneMore(cfg.env, Sender.Start(cfg.greeted), Inputs(cfg, front), input.value);
      }
    }
  }
}
