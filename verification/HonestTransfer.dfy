/**
 Runs between an admitted receiver and the session it talks to, when nobody else speaks to
 the session: only the receiver's own packets, and from anybody whatever is neither an ACK nor
 an error (repeated hellos, which read as GET, other packets, noise) reach it.  The network may
 still lose, repeat and reorder everything.
 */
module HonestTransfer {
  import opened Common
  import opened Protocol
  import opened Transfer
  import HandshakeRounds
  import Sender
  import Receiver

  /** The registered metadata is that of the file, and its id is the token. */
  ghost predicate Deployed(cfg: Config) {
    && cfg.env.canOpen
    && cfg.rcv.id != ""
    && cfg.env.lookup(cfg.rcv.id) == Some(Meta(cfg))
    && cfg.rcv.hash(cfg.env.file) == cfg.rcv.expectedHash
  }

  function Meta(cfg: Config): Metadata {
    Metadata(cfg.rcv.id, |cfg.env.file|, cfg.rcv.expectedHash)
  }

  /** Neither an ACK nor an error: anybody may send this to the session. */
  predicate Harmless(d: Datagram) {
    d.asControl.Some? ==> !d.asControl.value.Ack? && !d.asControl.value.Error?
  }

  predicate Honest(e: Event) {
    e.Inject? ==> Harmless(e.d)
  }

  predicate AllHonest(events: seq<Event>) {
    forall e :: e in events ==> Honest(e)
  }

  /** The receiver's hello reaches the session. */
  function Greeting(cfg: Config): Event {
    Inject(AsDatagram(HandshakeRounds.Hello(cfg.rcv.id)), cfg.home)
  }

  /** The state in which the receiver's hello was just admitted, after whatever happened `before`. */
  function Admitted(cfg: Config, before: seq<Event>): System {
    Step(cfg, Exec(cfg, Init(cfg), before), Greeting(cfg))
  }

  /** The same, when nothing happened before. */
  function Connected(cfg: Config): System {
    Admitted(cfg, [])
  }

  /** Anything from anybody reached the session, and it still waits for a hello. */
  ghost predicate StillWaiting(cfg: Config, before: seq<Event>) {
    && (forall e :: e in before ==> e.Inject?)
    && Exec(cfg, Init(cfg), before).snd.phase == Sender.WaitingHello
  }

  function At(cfg: Config, off: nat): Control
    requires off <= |cfg.env.file|
  {
    Sender.PacketAt(cfg.env, Meta(cfg), off)
  }

  /** What may be on its way to the receiver while the sender stands at `offset`. */
  ghost predicate Behind(cfg: Config, offset: nat, m: Sent) {
    match m.message
    case Hs(h) => FromHandshake(cfg, m)
    case Ctl(Data(_, off, _)) =>
      && m.to == cfg.home
      && off < |cfg.env.file| && off <= offset && Boundary(cfg.env.file, off) && m.message.control == At(cfg, off)
    case Ctl(c) => m.to == cfg.home && offset == |cfg.env.file| && c == At(cfg, offset)
  }

  /** The server hello, or the answer to a packet that was no hello. */
  predicate FromHandshake(cfg: Config, m: Sent) {
    && m.message.Hs?
    && (m.to == cfg.home ==>
          m.message.handshake == ServerHello(VERSION_1, cfg.rcv.id) || m.message.handshake == HandshakeError(BadPacket))
  }

  /** What may be on its way to the sender while the receiver has `current` bytes. */
  ghost predicate Acknowledged(cfg: Config, rcv: Receiver.State, p: Control) {
    || p == Get(cfg.rcv.id)
    || (p.Ack? && p.transferId == cfg.rcv.id && p.nextOffset <= rcv.current
        && Boundary(cfg.env.file, p.nextOffset)
        && (p.nextOffset == 0 ==> rcv.status == Receiver.Success))
  }

  /** The window: the receiver is at most one payload ahead of the sender, never behind it. */
  ghost predicate Window(cfg: Config, s: System) {
    var file := cfg.env.file;
    && s.snd.phase != Sender.WaitingHello
    && s.snd.remote == cfg.home && s.snd.meta == Meta(cfg)
    && s.snd.offset <= |file| && Boundary(file, s.snd.offset)
    && (s.rcv.current == s.snd.offset || s.rcv.current == NextOffset(file, s.snd.offset))
    && s.rcv.out == file[..s.rcv.current]
    && (s.snd.phase == Sender.Authenticated ==> s.snd.offset == s.rcv.current == 0)
    && (s.snd.phase == Sender.Authenticated ==> forall m :: m in s.wire ==> m.message.Hs?)
    && (s.snd.phase != Sender.Authenticated ==> Sent(cfg.home, Ctl(At(cfg, s.snd.offset))) in s.wire)
    && (s.snd.phase == Sender.Closed ==> s.snd.offset == |file|)
    && (s.snd.phase == Sender.Closed && |file| == 0 ==> s.rcv.status == Receiver.Success)
    && (forall m :: m in s.wire ==> Behind(cfg, s.snd.offset, m))
    && (forall p :: p in s.rcv.sent ==> Acknowledged(cfg, s.rcv, p))
    && Receiver.Nudge(cfg.rcv, s.rcv.current) in s.rcv.sent
    && (s.rcv.status == Receiver.Running ==> s.rcv.retries < MAX_RETRIES)
    && (s.rcv.status == Receiver.Running || s.rcv.status == Receiver.TimedOut
        || (s.rcv.status == Receiver.Success && s.rcv.current == |file|))
  }

  /** A session that still waits has only turned packets away, and knows nothing yet. */
  lemma {:induction false} WaitingKnowsNothing(cfg: Config, before: seq<Event>)
    requires StillWaiting(cfg, before)
    ensures var s := Exec(cfg, Init(cfg), before);
            && s.snd.offset == 0 && s.rcv == Receiver.Start(cfg.rcv)
            && forall m :: m in s.wire ==> m.message == Hs(HandshakeError(BadPacket))
  {
    if before != [] {
      var n := |before| - 1;
      assert before[n] in before;
      WaitingKnowsNothing(cfg, before[..n]);
    }
  }

  lemma AdmittedIsInWindow(cfg: Config, before: seq<Event>)
    requires Deployed(cfg) && StillWaiting(cfg, before)
    ensures Window(cfg, Admitted(cfg, before))
    ensures Admitted(cfg, before).wire
         == Exec(cfg, Init(cfg), before).wire + [Sent(cfg.home, Hs(ServerHello(VERSION_1, cfg.rcv.id)))]
  {
    WaitingKnowsNothing(cfg, before);
    BoundaryStart(cfg.env.file);
  }

  lemma ConnectedIsInWindow(cfg: Config)
    requires Deployed(cfg)
    ensures StillWaiting(cfg, []) && Window(cfg, Connected(cfg))
    ensures Connected(cfg).wire == [Sent(cfg.home, Hs(ServerHello(VERSION_1, cfg.rcv.id)))]
  {
    AdmittedIsInWindow(cfg, []);
  }

  lemma SenderKeepsWindow(cfg: Config, s: System, d: Datagram, from: Endpoint)
    requires Deployed(cfg) && Window(cfg, s)
    requires Harmless(d) || Acknowledged(cfg, s.rcv, d.asControl.value)
    ensures Window(cfg, SenderGets(cfg, s, d, from))
  {
    BoundaryNext(cfg.env.file, s.snd.offset);
  }

  lemma ReceiverKeepsWindow(cfg: Config, s: System, m: Message)
    requires Deployed(cfg) && Window(cfg, s) && Sent(cfg.home, m) in s.wire
    ensures Window(cfg, ReceiverGets(cfg, s, Receiver.Received(cfg.rcv.peer, Some(ControlView(m)))))
  {
    var file := cfg.env.file;
    BoundaryNext(file, s.snd.offset);
    assert Behind(cfg, s.snd.offset, Sent(cfg.home, m));
    if m.Ctl? && m.control.Data? && m.control.offset == s.rcv.current {
      assert s.rcv.out + m.control.payload == file[..NextOffset(file, s.rcv.current)];
    } else if m.Ctl? && m.control.Done? {
      assert file[..|file|] == file;
    }
  }

  lemma StepKeepsWindow(cfg: Config, s: System, e: Event)
    requires Deployed(cfg) && Window(cfg, s) && Honest(e)
    ensures Window(cfg, Step(cfg, s, e))
  {
    match e {
      case ToSender(p) =>
        if p in s.rcv.sent {
          SenderKeepsWindow(cfg, s, AsDatagram(Ctl(p)), cfg.home);
        }
      case Inject(d, from) => SenderKeepsWindow(cfg, s, d, from);
      case ToReceiver(m) =>
        if Sent(cfg.home, m) in s.wire {
          ReceiverKeepsWindow(cfg, s, m);
        }
      case FromStranger(_, _) =>
      case PunchFromPeer =>
      case RcvTimeout => BoundaryNext(cfg.env.file, s.snd.offset);
    }
  }

  lemma {:induction false} WindowFrom(cfg: Config, s: System, events: seq<Event>)
    requires Deployed(cfg) && Window(cfg, s) && AllHonest(events)
    ensures Window(cfg, Exec(cfg, s, events))
  {
    if events != [] {
      WindowFrom(cfg, s, events[..|events| - 1]);
      StepKeepsWindow(cfg, Exec(cfg, s, events[..|events| - 1]), events[|events| - 1]);
    }
  }

  /** The window invariant, over every honest run after any wait for the hello. */
  lemma WindowHolds(cfg: Config, before: seq<Event>, events: seq<Event>)
    requires Deployed(cfg) && StillWaiting(cfg, before) && AllHonest(events)
    ensures Window(cfg, Exec(cfg, Admitted(cfg, before), events))
  {
    AdmittedIsInWindow(cfg, before);
    WindowFrom(cfg, Admitted(cfg, before), events);
  }

  /**
   In every honest run: a DATA that can still arrive starts at or before the write offset, a
   DONE that can still arrive finds the receiver with the whole file, so neither mismatch
   branch is ever taken; and a closed session means that every byte has been written.
   */
  lemma FinalAckIsSound(cfg: Config, before: seq<Event>, events: seq<Event>, m: Sent)
    requires Deployed(cfg) && StillWaiting(cfg, before) && AllHonest(events)
    requires m in Exec(cfg, Admitted(cfg, before), events).wire
    ensures var s := Exec(cfg, Admitted(cfg, before), events);
            && (m.message.Ctl? && m.message.control.Data? ==> m.message.control.offset <= s.rcv.current)
            && (m.message.Ctl? && m.message.control.Done? ==>
                  && m.message.control.finalSize == s.rcv.current
                  && cfg.rcv.hash(s.rcv.out) == cfg.rcv.expectedHash)
            && (s.snd.phase == Sender.Closed ==> s.rcv.out == cfg.env.file)
            && s.rcv.status != Receiver.HashMismatch && s.rcv.status != Receiver.PeerError
  {
    WindowHolds(cfg, before, events);
    var s := Exec(cfg, Admitted(cfg, before), events);
    assert Behind(cfg, s.snd.offset, m);
    assert cfg.env.file[..|cfg.env.file|] == cfg.env.file;
  }
}
