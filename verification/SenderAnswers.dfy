/** What a session puts into its packets, when it answers and when it closes. */
module SenderAnswers {
  import opened Common
  import opened Protocol
  import opened Sender
  import opened SenderRuns

  /** The fields of a packet, as the file and the registered metadata give them. */
  ghost predicate WellFilled(env: Env, inputs: seq<Input>, m: Sent) {
    match m.message
    case Ctl(Data(id, off, payload)) =>
      && off < |env.file| && off % 1272 == 0
      && payload == env.file[off..Min(off + 1272, |env.file|)]
      && exists meta :: AdmittedBy(env, inputs, m.to, meta) && id == meta.id
    case Ctl(Done(id, size, hash)) =>
      exists meta :: AdmittedBy(env, inputs, m.to, meta)
                     && id == meta.id && size == meta.fileSize && hash == meta.fileHash
    case Ctl(Error(_, code)) => code == TransferNotFound && !env.canOpen
    case Ctl(_) => false
    case Hs(ServerHello(version, id)) =>
      version == 1 && exists i :: 0 <= i < |inputs| && AdmittedWithId(env, inputs[i], m.to, id)
    case Hs(HandshakeError(code)) => code == BadPacket || code == InvalidToken
    case Hs(_) => false
  }

  predicate AdmittedWithId(env: Env, input: Input, peer: Endpoint, id: string) {
    Admits(env, input) && input.from == peer && input.datagram.asHandshake.value.transferId == id
  }

  lemma BoundaryIsAMultiple(file: Bytes, off: nat)
    requires Boundary(file, off) && off < |file|
    ensures off % 1272 == 0
  {
    var k: nat :| k <= ChunkCount(|file|) && off == ChunkOffset(file, k);
    assert off == k * 1272;
  }

  lemma MoreInputsAdmitMore(env: Env, front: seq<Input>, x: Input, m: Sent)
    requires WellFilled(env, front, m)
    ensures WellFilled(env, front + [x], m)
  {
    var all := front + [x];
    forall peer, meta | AdmittedBy(env, front, peer, meta)
      ensures AdmittedBy(env, all, peer, meta)
    {
      var i :| 0 <= i < |front| && Admits(env, front[i]) && front[i].from == peer
               && AdmittedMeta(env, front[i]) == meta;
      assert all[i] == front[i];
    }
    if m.message.Hs? && m.message.handshake.ServerHello? {
      var i :| 0 <= i < |front| && AdmittedWithId(env, front[i], m.to, m.message.handshake.transferId);
      assert all[i] == front[i];
    }
  }

  /** One datagram: what a session that knows its peer, or still waits for it, answers. */
  lemma AnswerIsWellFilled(env: Env, front: seq<Input>, s: State, x: Input, m: Sent)
    requires Boundary(env.file, s.offset) && s.offset <= |env.file|
    requires s.phase.Authenticated? || s.phase.Transferring? ==> AdmittedBy(env, front + [x], s.remote, s.meta)
    requires m in OnPacket(env, s, x.datagram, x.from).sent
    ensures WellFilled(env, front + [x], m)
  {
    BoundaryNext(env.file, s.offset);
    if s.phase.WaitingHello? {
      OnlyAnAdmittingHelloAuthenticates(env, s, x);
      assert (front + [x])[|front|] == x;
    } else if m.message.Ctl? && m.message.control.Data? {
      BoundaryIsAMultiple(env.file, m.message.control.offset);
    }
  }

  /**
   Over every run: a DATA carries the registered id and exactly the next 1272 bytes, or what
   is left, at a multiple of 1272; a DONE carries the registered id, size and hash; both go
   to a peer whose hello was admitted with that metadata.  An error is sent only for a file
   that cannot be opened, a server hello only to an admitted peer, with the id it asked for.
   */
  lemma {:induction false} PacketsAreWellFilled(env: Env, remote: Endpoint, inputs: seq<Input>)
    ensures forall m :: m in Run(env, Start(remote), inputs).sent ==> WellFilled(env, inputs, m)
  {
    if inputs != [] {
      var front, x := inputs[..|inputs| - 1], inputs[|inputs| - 1];
      var before := Run(env, Start(remote), front);
      assert inputs == front + [x];
      PacketsAreWellFilled(env, remote, front);
      OffsetIsAlwaysABoundary(env, remote, front);
      TransferNeedsAnAdmittingHello(env, remote, front);
      AdmittedStays(env, front, x, before.next.remote, before.next.meta);
      RunOneMore(env, Start(remote), front, x);
      hide OnPacket, Run, WellFilled;
      forall m | m in Run(env, Start(remote), inputs).sent
        ensures WellFilled(env, inputs, m)
      {
        if m in before.sent {
          MoreInputsAdmitMore(env, front, x, m);
        } else {
          AnswerIsWellFilled(env, front, before.next, x, m);
        }
      }
    }
  }

  lemma AdmittedStays(env: Env, front: seq<Input>, x: Input, peer: Endpoint, meta: Metadata)
    ensures AdmittedBy(env, front, peer, meta) ==> AdmittedBy(env, front + [x], peer, meta)
  {
    if AdmittedBy(env, front, peer, meta) {
      var i :| 0 <= i < |front| && Admits(env, front[i]) && front[i].from == peer
               && AdmittedMeta(env, front[i]) == meta;
      assert (front + [x])[i] == front[i];
    }
  }

  // --- when it answers ---

  predicate Asks(s: State, d: Datagram) {
    d.asControl.Some? && d.asControl.value.Get?
  }

  /** An ACK of the current offset or the next one. */
  predicate Acknowledges(env: Env, s: State, d: Datagram) {
    && s.phase.Transferring? && d.asControl.Some? && d.asControl.value.Ack?
    && (d.asControl.value.nextOffset == s.offset
        || d.asControl.value.nextOffset == Min(s.offset + 1272, |env.file|))
  }

  /** The end is reached and acknowledged. */
  predicate IsFinalAck(env: Env, s: State, d: Datagram) {
    Acknowledges(env, s, d) && s.offset == |env.file|
  }

  /**
   A session answers a datagram with at most one packet.  A waiting one answers whatever
   parses as a handshake packet; later it answers exactly the GETs and the ACKs of its offset
   or the next one, except the final ACK.
   */
  lemma AnswersExactly(env: Env, s: State, d: Datagram, from: Endpoint)
    requires s.offset <= |env.file|
    ensures var sent := OnPacket(env, s, d, from).sent;
            && |sent| <= 1
            && (sent != [] <==>
                  || (s.phase.WaitingHello? && d.asHandshake.Some?)
                  || (!s.phase.WaitingHello? && !s.phase.Closed?
                      && (Asks(s, d) || (Acknowledges(env, s, d) && !IsFinalAck(env, s, d)))))
  {
  }

  /**
   A session closes exactly on a hello it does not admit, on an error of anybody, on the
   first GET if the file does not open, and on the final ACK.
   */
  lemma ClosesExactly(env: Env, s: State, x: Input)
    requires s.offset <= |env.file| && !s.phase.Closed?
    ensures OnPacket(env, s, x.datagram, x.from).next.phase.Closed? <==>
            if s.phase.WaitingHello?
            then x.datagram.asHandshake.Some? && x.datagram.asHandshake.value.ClientHello? && !Admits(env, x)
            else || (x.datagram.asControl.Some? && x.datagram.asControl.value.Error?)
                 || (s.phase.Authenticated? && !env.canOpen && Asks(s, x.datagram))
                 || IsFinalAck(env, s, x.datagram)
  {
  }

  /** The offset moves exactly on an ACK of the next packet, and then to it. */
  lemma MovesExactly(env: Env, s: State, d: Datagram, from: Endpoint)
    requires s.offset <= |env.file|
    ensures var r := OnPacket(env, s, d, from).next;
            r.offset == if Acknowledges(env, s, d) then d.asControl.value.nextOffset else s.offset
  {
  }

  /** A file that does not open is reported to whoever asked, under the id of the question. */
  lemma MissingFileIsReported(env: Env, s: State, d: Datagram, from: Endpoint)
    requires s.phase.Authenticated? && s.offset <= |env.file| && !env.canOpen && Asks(s, d)
    ensures OnPacket(env, s, d, from)
         == Step(s.(phase := Closed), [Sent(s.remote, Ctl(Error(d.asControl.value.transferId, TransferNotFound)))])
  {
  }
}
