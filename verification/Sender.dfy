/**
 The sending peer.  `Session` keeps the fields of the original, among them a cache of the
 last packet and a file stream that stays failed after a short read.  It is proved against
 a reference sender that has neither: a phase, an endpoint, an offset, and a file that is
 read afresh for every packet.
 */
module Sender {
  import opened Common
  import opened Protocol

  datatype Phase = WaitingHello | Authenticated | Transferring | Closed

  /** What the session cannot change: the file, whether it opens, and the token lookup. */
  datatype Env = Env(file: Bytes, canOpen: bool, lookup: string -> Option<Metadata>)

  datatype State = State(phase: Phase, remote: Endpoint, meta: Metadata, offset: nat)

  datatype Step = Step(next: State, sent: seq<Sent>)

  function Start(remote: Endpoint): State {
    State(WaitingHello, remote, NO_METADATA, 0)
  }

  /** The packet a fresh read at `off` produces. */
  function PacketAt(env: Env, meta: Metadata, off: nat): Control
    requires off <= |env.file|
  {
    if off == |env.file| then
      Done(meta.id, meta.fileSize, meta.fileHash)
    else
      Data(meta.id, off, Chunk(env.file, off))
  }

  function Emit(s: State, m: Message): Step {
    Step(s, [Sent(s.remote, m)])
  }

  /** Move to `off` and send what is there. */
  function SendAt(env: Env, s: State, off: nat): Step
    requires off <= |env.file|
  {
    Emit(s.(phase := Transferring, offset := off), Ctl(PacketAt(env, s.meta, off)))
  }

  function OnHandshake(env: Env, s: State, packet: Option<Handshake>): Step {
    match packet
    case None => Step(s, [])
    case Some(ClientHello(version, transferId, token)) =>
      if version != VERSION_1 then
        Emit(s.(phase := Closed), Hs(HandshakeError(BadPacket)))
      else if token == "" || env.lookup(token).None? then
        Emit(s.(phase := Closed), Hs(HandshakeError(InvalidToken)))
      else
        Emit(s.(phase := Authenticated, meta := env.lookup(token).value),
             Hs(ServerHello(VERSION_1, transferId)))
    case Some(_) => Emit(s, Hs(HandshakeError(BadPacket)))
  }

  function OnAck(env: Env, s: State, next: nat): Step
    requires s.offset <= |env.file|
  {
    if s.phase != Transferring then
      Step(s, [])
    else if next == |env.file| == s.offset then
      Step(s.(phase := Closed), [])
    else if next == s.offset || next == NextOffset(env.file, s.offset) then
      SendAt(env, s, next)
    else
      Step(s, [])
  }

  function OnControl(env: Env, s: State, packet: Control): Step
    requires s.offset <= |env.file|
  {
    match packet
    case Get(id) =>
      if s.phase == Authenticated && !env.canOpen then
        Emit(s.(phase := Closed), Ctl(Error(id, TransferNotFound)))
      else
        SendAt(env, s, s.offset)
    case Ack(_, next) => OnAck(env, s, next)
    case Error(_, _) => Step(s.(phase := Closed), [])
    case _ => Step(s, [])
  }

  /** The reference sender's reaction to one datagram. */
  function OnPacket(env: Env, s: State, d: Datagram, from: Endpoint): (step: Step)
    requires s.offset <= |env.file|
    ensures step.next.offset <= |env.file|
  {
    match s.phase
    case Closed => Step(s, [])
    case WaitingHello => OnHandshake(env, s.(remote := from), d.asHandshake)
    case _ => if d.asControl.None? then Step(s, []) else OnControl(env, s, d.asControl.value)
  }

  class Session {
    const env: Env
    const chunkBuffer: array<byte>
    var phase: Phase
    var remote: Endpoint
    var meta: Metadata
    var fileOpen: bool
    var streamGood: bool
    var offset: nat
    var lastChunkSize: nat
    var lastChunkDone: bool
    var lastPacketCache: Option<Control>
    var outbox: seq<Sent>

    /** Forget the cache and the stream: the reference sender's view of this session. */
    ghost function View(): State
      reads this
    {
      State(phase, remote, meta, offset)
    }

    /**
     Before the first GET nothing was read.  While transferring, the cache holds the packet
     a fresh read at `offset` would build, the last-chunk record describes that packet, and a
     failed stream means that only the end of the file is left to read.
     */
    ghost predicate Valid()
      reads this, chunkBuffer
    {
      && chunkBuffer.Length == MAX_PACKET_SIZE
      && Boundary(env.file, offset)
      && offset <= |env.file|
      && (phase.WaitingHello? || phase.Authenticated? ==>
            offset == lastChunkSize == 0 && !lastChunkDone && lastPacketCache.None?)
      && (phase.Transferring? ==> CacheCoherent())
    }

    ghost predicate CacheCoherent()
      reads this
    {
      && offset <= |env.file|
      && fileOpen
      && lastPacketCache == Some(PacketAt(env, meta, offset))
      && (lastChunkDone <==> offset == |env.file|)
      && offset + lastChunkSize == NextOffset(env.file, offset)
      && (!streamGood ==> offset + lastChunkSize == |env.file|)
    }

    constructor (env: Env, remote: Endpoint)
      ensures Valid() && View() == Start(remote) && outbox == [] && this.env == env
      ensures fresh(chunkBuffer)
    {
      this.env := env;
      this.remote := remote;
      phase, meta, fileOpen, streamGood := WaitingHello, NO_METADATA, false, false;
      offset, lastChunkSize, lastChunkDone, lastPacketCache := 0, 0, false, None;
      outbox := [];
      chunkBuffer := new byte[MAX_PACKET_SIZE](_ => 0);
      new;
      BoundaryStart(env.file);
    }

    method SendMessage(m: Message)
      modifies this`outbox
      ensures outbox == old(outbox) + [Sent(remote, m)]
    {
      outbox := outbox + [Sent(remote, m)];
    }

    /** `seekg` then `read`: a stream that failed before delivers nothing. */
    method ReadChunk() returns (count: nat)
      requires chunkBuffer.Length == MAX_PACKET_SIZE && offset <= |env.file|
      modifies this`streamGood, chunkBuffer
      ensures count == if old(streamGood) then |Chunk(env.file, offset)| else 0
      ensures offset + count <= |env.file| && count <= chunkBuffer.Length
      ensures chunkBuffer[..count] == env.file[offset..offset + count]
      ensures streamGood == (old(streamGood) && count == PAYLOAD_SIZE)
    {
      count := 0;
      if streamGood {
        while count < PAYLOAD_SIZE && offset + count < |env.file|
          invariant count <= PAYLOAD_SIZE && offset + count <= |env.file|
          invariant chunkBuffer[..count] == env.file[offset..offset + count]
          invariant streamGood
        {
          chunkBuffer[count] := env.file[offset + count];
          count := count + 1;
        }
        streamGood := count == PAYLOAD_SIZE;
      }
    }

    method SendNextChunk()
      requires chunkBuffer.Length == MAX_PACKET_SIZE && offset <= |env.file|
      requires fileOpen && !streamGood ==> offset == |env.file|
      modifies this`outbox, this`streamGood, this`lastChunkSize, this`lastChunkDone,
               this`lastPacketCache, chunkBuffer
      ensures fileOpen ==> CacheCoherent()
      ensures fileOpen ==> outbox == old(outbox) + [Sent(remote, Ctl(PacketAt(env, meta, offset)))]
      ensures !fileOpen ==> unchanged(this)
    {
      if !fileOpen {
        return;
      }
      var bytesRead := ReadChunk();
      if bytesRead == 0 {
        var done := Done(meta.id, meta.fileSize, meta.fileHash);
        SendMessage(Ctl(done));
        lastPacketCache, lastChunkDone, lastChunkSize := Some(done), true, 0;
        return;
      }
      lastChunkSize, lastChunkDone := bytesRead, false;
      var data := Data(meta.id, offset, chunkBuffer[..bytesRead]);
      lastPacketCache := Some(data);
      SendMessage(Ctl(data));
    }

    /** Repeating the cached packet is the same as reading the file again. */
    method ResendCurrentChunk()
      requires chunkBuffer.Length == MAX_PACKET_SIZE && offset <= |env.file| && fileOpen
      requires lastPacketCache.None? && !streamGood ==> offset == |env.file|
      requires lastPacketCache.Some? ==> CacheCoherent()
      modifies this`outbox, this`streamGood, this`lastChunkSize, this`lastChunkDone,
               this`lastPacketCache, chunkBuffer
      ensures CacheCoherent()
      ensures outbox == old(outbox) + [Sent(remote, Ctl(PacketAt(env, meta, offset)))]
    {
      if lastPacketCache.None? {
        SendNextChunk();
      } else {
        SendMessage(Ctl(lastPacketCache.value));
      }
    }

    method HandleHandshakePacket(packet: Option<Handshake>)
      requires Valid() && phase.WaitingHello?
      modifies this
      ensures Valid()
      ensures var step := OnHandshake(env, old(View()), packet);
              View() == step.next && outbox == old(outbox) + step.sent
    {
      if packet.None? {
        return;
      }
      if !packet.value.ClientHello? {
        SendMessage(Hs(HandshakeError(BadPacket)));
        return;
      }
      var hello := packet.value;
      if hello.version != VERSION_1 {
        SendMessage(Hs(HandshakeError(BadPacket)));
        phase := Closed;
        return;
      }
      if hello.token == "" {
        SendMessage(Hs(HandshakeError(InvalidToken)));
        phase := Closed;
        return;
      }
      var found := ValidateToken(hello.token);
      if !found {
        SendMessage(Hs(HandshakeError(InvalidToken)));
        phase := Closed;
        return;
      }
      phase := Authenticated;
      SendMessage(Hs(ServerHello(VERSION_1, hello.transferId)));
    }

    method ValidateToken(token: string) returns (found: bool)
      modifies this`meta
      ensures found == env.lookup(token).Some?
      ensures meta == if found then env.lookup(token).value else old(meta)
    {
      var answer := env.lookup(token);
      found := answer.Some?;
      if found {
        meta := answer.value;
      }
    }

    method HandleGetRequest(transferId: string)
      requires Valid() && (phase.Authenticated? || phase.Transferring?)
      modifies this, chunkBuffer
      ensures Valid()
      ensures var step := OnControl(env, old(View()), Get(transferId));
              View() == step.next && outbox == old(outbox) + step.sent
    {
      if phase.Authenticated? {
        fileOpen, streamGood := env.canOpen, env.canOpen;
        if !fileOpen {
          SendMessage(Ctl(Error(transferId, TransferNotFound)));
          phase := Closed;
          return;
        }
        phase := Transferring;
        SendNextChunk();
        return;
      }
      if phase.Transferring? {
        ResendCurrentChunk();
      }
    }

    method HandleAck(nextOffset: nat)
      requires Valid()
      modifies this, chunkBuffer
      ensures Valid()
      ensures var step := OnAck(env, old(View()), nextOffset);
              View() == step.next && outbox == old(outbox) + step.sent
    {
      if !phase.Transferring? {
        return;
      }
      var expectedOffset := offset + lastChunkSize;
      if nextOffset == expectedOffset {
        if lastChunkDone {
          phase := Closed;
        } else {
          BoundaryNext(env.file, offset);
          offset := expectedOffset;
          SendNextChunk();
        }
      } else if nextOffset == offset {
        ResendCurrentChunk();
      }
    }

    method HandleControlPacket(packet: Option<Control>)
      requires Valid() && (phase.Authenticated? || phase.Transferring?)
      modifies this, chunkBuffer
      ensures Valid()
      ensures var before := old(View());
              var step := if packet.None? then Step(before, []) else OnControl(env, before, packet.value);
              View() == step.next && outbox == old(outbox) + step.sent
    {
      if packet.None? {
        return;
      }
      if packet.value.Get? {
        HandleGetRequest(packet.value.transferId);
        return;
      }
      if packet.value.Ack? {
        HandleAck(packet.value.nextOffset);
        return;
      }
      if packet.value.Error? {
        phase := Closed;
      }
    }

    /** The session is a refinement of the reference sender, one datagram at a time. */
    method HandlePacket(d: Datagram, from: Endpoint)
      requires Valid()
      modifies this, chunkBuffer
      ensures Valid()
      ensures var step := OnPacket(env, old(View()), d, from);
              View() == step.next && outbox == old(outbox) + step.sent
    {
      if phase.Closed? {
        return;
      }
      if phase.WaitingHello? {
        remote := from;
        HandleHandshakePacket(d.asHandshake);
        return;
      }
      if phase.Authenticated? || phase.Transferring? {
        HandleControlPacket(d.asControl);
      }
    }
  }
}
