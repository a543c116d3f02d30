/** What holds of a session over every sequence of datagrams from anybody. */
module SenderRuns {
  import opened Common
  import opened Protocol
  import opened Sender

  datatype Input = Input(datagram: Datagram, from: Endpoint)

  function Run(env: Env, start: State, inputs: seq<Input>): (step: Step)
    requires start.offset <= |env.file|
    ensures step.next.offset <= |env.file|
  {
    if inputs == [] then
      Step(start, [])
    else
      var before := Run(env, start, inputs[..|inputs| - 1]);
      var input := inputs[|inputs| - 1];
      var last := OnPacket(env, before.next, input.datagram, input.from);
      Step(last.next, before.sent + last.sent)
  }

  lemma RunOneMore(env: Env, start: State, xs: seq<Input>, x: Input)
    requires start.offset <= |env.file|
    ensures var before := Run(env, start, xs);
            var last := OnPacket(env, before.next, x.datagram, x.from);
            Run(env, start, xs + [x]) == Step(last.next, before.sent + last.sent)
  {
    hide OnPacket;
    assert (xs + [x])[..|xs|] == xs;
  }

  function Rank(p: Phase): nat {
    match p
    case WaitingHello => 0
    case Authenticated => 1
    case Transferring => 2
    case Closed => 3
  }

  /** A version 1 client hello with a token that the lookup knows. */
  predicate Admits(env: Env, input: Input) {
    && input.datagram.asHandshake.Some?
    && var packet := input.datagram.asHandshake.value;
       packet.ClientHello? && packet.version == VERSION_1 && packet.token != ""
       && env.lookup(packet.token).Some?
  }

  function AdmittedMeta(env: Env, input: Input): Metadata
    requires Admits(env, input)
  {
    env.lookup(input.datagram.asHandshake.value.token).value
  }

  /** Some input was an admitting hello from `peer` for the transfer `meta`. */
  ghost predicate AdmittedBy(env: Env, inputs: seq<Input>, peer: Endpoint, meta: Metadata) {
    exists i :: 0 <= i < |inputs| && Admits(env, inputs[i]) && inputs[i].from == peer
                && AdmittedMeta(env, inputs[i]) == meta
  }

  lemma Extend(a: seq<Sent>, b: seq<Sent>, more: seq<Sent>)
    requires a <= b
    ensures a <= b + more
    ensures forall k :: |b| <= k < |b + more| ==> (b + more)[k] in more
    ensures forall k :: 0 <= k < |b| ==> (b + more)[k] == b[k]
  {
  }

  lemma StepMovesForward(env: Env, s: State, input: Input)
    requires s.offset <= |env.file|
    ensures var step := OnPacket(env, s, input.datagram, input.from);
            && Rank(s.phase) <= Rank(step.next.phase)
            && s.offset <= step.next.offset
            && (s.phase.Closed? ==> step == Step(s, []))
            && (!s.phase.WaitingHello? ==>
                  && step.next.remote == s.remote && step.next.meta == s.meta
                  && forall m :: m in step.sent ==> m.to == s.remote)
  {
  }

  /**
   The phase, the offset and the list of sent packets only grow; a closed session is frozen;
   once the session has left WaitingHello its peer and its metadata are fixed and everything
   it still sends goes to that peer.
   */
  lemma {:induction false} RunOnlyMovesForward(env: Env, start: State, xs: seq<Input>, ys: seq<Input>)
    requires start.offset <= |env.file|
    ensures var a, b := Run(env, start, xs), Run(env, start, xs + ys);
            && Rank(a.next.phase) <= Rank(b.next.phase)
            && a.next.offset <= b.next.offset
            && a.sent <= b.sent
            && (a.next.phase.Closed? ==> b == a)
            && (!a.next.phase.WaitingHello? ==>
                  && b.next.remote == a.next.remote
                  && b.next.meta == a.next.meta
                  && forall k :: |a.sent| <= k < |b.sent| ==> b.sent[k].to == a.next.remote)
    decreases |ys|
  {
    if ys == [] {
      assert xs + ys == xs;
    } else {
      var front := ys[..|ys| - 1];
      RunOnlyMovesForward(env, start, xs, front);
      StepMovesForward(env, Run(env, start, xs + front).next, ys[|ys| - 1]);
      Extend(Run(env, start, xs).sent, Run(env, start, xs + front).sent,
             OnPacket(env, Run(env, start, xs + front).next, ys[|ys| - 1].datagram, ys[|ys| - 1].from).sent);
      hide OnPacket, Rank;
      assert (xs + ys)[..|xs + ys| - 1] == xs + front;
    }
  }

  /** At every moment the offset is `min(k * 1272, size)` for some `k`. */
  lemma {:induction false} OffsetIsAlwaysABoundary(env: Env, remote: Endpoint, inputs: seq<Input>)
    ensures Boundary(env.file, Run(env, Start(remote), inputs).next.offset)
  {
    if inputs == [] {
      BoundaryStart(env.file);
    } else {
      var front := inputs[..|inputs| - 1];
      OffsetIsAlwaysABoundary(env, remote, front);
      BoundaryNext(env.file, Run(env, Start(remote), front).next.offset);
    }
  }

  /**
   The answer to anything but an admitting hello: silence for what does not parse, a
   BAD_PACKET error for another kind of packet, and for a refused hello an error that names
   the version or the token and the end of the session.
   */
  function Refusal(s: State, packet: Option<Handshake>): Step {
    if packet.None? then Step(s, [])
    else if !packet.value.ClientHello? then Emit(s, Hs(HandshakeError(BadPacket)))
    else
      var code := if packet.value.version == VERSION_1 then InvalidToken else BadPacket;
      Emit(s.(phase := Closed), Hs(HandshakeError(code)))
  }

  /** A waiting session is let in by an admitting hello and by nothing else. */
  lemma OnlyAnAdmittingHelloAuthenticates(env: Env, s: State, input: Input)
    requires s.phase.WaitingHello? && s.offset <= |env.file|
    ensures var step := OnPacket(env, s, input.datagram, input.from);
            && (Admits(env, input) <==> step.next.phase.Authenticated?)
            && (Admits(env, input) ==>
                  && step.next == State(Authenticated, input.from, AdmittedMeta(env, input), s.offset)
                  && step.sent == [Sent(input.from, Hs(ServerHello(VERSION_1,
                                     input.datagram.asHandshake.value.transferId)))])
            && (!Admits(env, input) ==> step == Refusal(s.(remote := input.from), input.datagram.asHandshake))
  {
  }

  /**
   No DATA and no DONE leaves the session unless an admitting hello arrived before, and then
   it goes to the endpoint of such a hello and is what the file holds at some boundary.
   */
  lemma {:induction false} TransferNeedsAnAdmittingHello(env: Env, remote: Endpoint, inputs: seq<Input>)
    ensures var r := Run(env, Start(remote), inputs);
            && (r.next.phase.Authenticated? || r.next.phase.Transferring? ==>
                  AdmittedBy(env, inputs, r.next.remote, r.next.meta))
            && forall m :: m in r.sent && m.message.Ctl? && !m.message.control.Error? ==>
                 exists meta, off: nat ::
                   && off <= |env.file|
                   && AdmittedBy(env, inputs, m.to, meta)
                   && Boundary(env.file, off)
                   && m.message.control == PacketAt(env, meta, off)
  {
    if inputs != [] {
      var n := |inputs| - 1;
      var front := inputs[..n];
      TransferNeedsAnAdmittingHello(env, remote, front);
      var before := Run(env, Start(remote), front);
      forall peer, meta | AdmittedBy(env, front, peer, meta)
        ensures AdmittedBy(env, inputs, peer, meta)
      {
        var i :| 0 <= i < |front| && Admits(env, front[i]) && front[i].from == peer
                 && AdmittedMeta(env, front[i]) == meta;
        assert inputs[i] == front[i];
      }
      OffsetIsAlwaysABoundary(env, remote, inputs);
      if before.next.phase.WaitingHello? {
        OnlyAnAdmittingHelloAuthenticates(env, before.next, inputs[n]);
      }
    }
  }

  /** The receive loop of the server: hand over datagrams until the session is closed. */
  method Serve(session: Session, inputs: seq<Input>)
    requires session.Valid() && session.View() == Start(session.remote) && session.outbox == []
    modifies session, session.chunkBuffer
    ensures session.Valid()
    ensures var r := Run(session.env, old(session.View()), inputs);
            session.View() == r.next && session.outbox == r.sent
  {
    ghost var start := session.View();
    var i := 0;
    while i < |inputs| && !session.phase.Closed?
      invariant 0 <= i <= |inputs| && session.Valid()
      invariant Run(session.env, start, inputs[..i]) == Step(session.View(), session.outbox)
    {
      assert inputs[..i + 1][..i] == inputs[..i];
      session.HandlePacket(inputs[i].datagram, inputs[i].from);
      i := i + 1;
    }
    assert inputs[..i] + inputs[i..] == inputs == inputs[..|inputs|];
    RunOnlyMovesForward(session.env, start, inputs[..i], inputs[i..]);
  }
}
