/**
 The messages the two peers exchange, the constants they share and the way a file is cut
 into payloads.  Parsing and serialising are an inverse pair: a datagram is represented by
 what its bytes parse to, once as a handshake packet and once as a control packet, because
 the same bytes are read one way or the other depending on the state of the reader.
 */
module Protocol {
  import opened Common

  const MAX_PACKET_SIZE: nat := 1400
  const HEADER_SIZE: nat := 128
  const PAYLOAD_SIZE: nat := MAX_PACKET_SIZE - HEADER_SIZE
  const MAX_RETRIES: nat := 20
  const VERSION_1: nat := 1

  datatype Endpoint = Endpoint(ip: string, port: nat)

  /** The part of the registered transfer that the file transfer reads. */
  datatype Metadata = Metadata(id: string, fileSize: nat, fileHash: string)

  /** The value-initialised record a session holds before a token was looked up. */
  const NO_METADATA := Metadata("", 0, "")

  datatype ErrorCode =
    | Unspecified | InvalidToken | HandshakeFailed | UnauthorizedPeer
    | BadPacket | TransferNotFound | OffsetMismatch | IntegrityCheckFailed

  datatype Control =
    | Get(transferId: string)
    | Ack(transferId: string, nextOffset: nat)
    | Data(transferId: string, offset: nat, payload: Bytes)
    | Done(transferId: string, finalSize: nat, fileHash: string)
    | Error(transferId: string, code: ErrorCode)
    | NoBody

  datatype Handshake =
    | ClientHello(version: nat, transferId: string, token: string)
    | ServerHello(version: nat, transferId: string)
    | HandshakeFinish(transferId: string)
    | HandshakeError(code: ErrorCode)
    | NoHandshakeBody

  /** The two readings of one received datagram; `None` where parsing fails. */
  datatype Datagram = Datagram(asHandshake: Option<Handshake>, asControl: Option<Control>)

  datatype Message = Hs(handshake: Handshake) | Ctl(control: Control)

  /** One `send_to`: the message and the endpoint it was addressed to. */
  datatype Sent = Sent(to: Endpoint, message: Message)

  /**
   How a receiver that expects control packets reads a message.  Both oneofs number their
   members from 1, and a field whose wire type differs from the declared one is skipped as
   unknown, so a hello reads as a GET, a server hello as an ACK of 0, a finish as an empty
   DATA, and a handshake error as a DONE without a transfer id.
   */
  function ControlView(m: Message): Control {
    match m
    case Ctl(c) => c
    case Hs(ClientHello(_, _, _)) => Get("")
    case Hs(ServerHello(_, _)) => Ack("", 0)
    case Hs(HandshakeFinish(id)) => Data(id, 0, [])
    case Hs(HandshakeError(_)) => Done("", 0, "")
    case Hs(NoHandshakeBody) => NoBody
  }

  /** How a session that expects a hello reads a control packet; a GET is a hello of version 0. */
  function HandshakeView(c: Control): Handshake {
    match c
    case Get(_) => ClientHello(0, "", "")
    case Ack(_, _) => ServerHello(0, "")
    case Data(id, _, _) => HandshakeFinish(id)
    case Done(_, _, _) => HandshakeError(Unspecified)
    case Error(_, _) => NoHandshakeBody
    case NoBody => NoHandshakeBody
  }

  /** A message as its reader sees it. */
  function AsDatagram(m: Message): Datagram {
    Datagram(Some(if m.Hs? then m.handshake else HandshakeView(m.control)), Some(ControlView(m)))
  }

  /** The offset that follows the payload starting at `off`. */
  function NextOffset(file: Bytes, off: nat): (next: nat)
    requires off <= |file|
  {
    Min(off + PAYLOAD_SIZE, |file|)
  }

  /** The bytes of the payload that starts at `off`; empty exactly at the end of the file. */
  function Chunk(file: Bytes, off: nat): Bytes
    requires off <= |file|
  {
    file[off..NextOffset(file, off)]
  }

  /** The number of DATA packets a loss-free transfer of `size` bytes needs. */
  function ChunkCount(size: nat): nat {
    (size + PAYLOAD_SIZE - 1) / PAYLOAD_SIZE
  }

  /** `off` is where some payload starts, or the end of the file. */
  predicate Boundary(file: Bytes, off: nat) {
    exists k: nat :: k <= ChunkCount(|file|) && off == ChunkOffset(file, k)
  }

  function ChunkOffset(file: Bytes, k: nat): nat {
    Min(k * PAYLOAD_SIZE, |file|)
  }

  lemma BoundaryStart(file: Bytes)
    ensures Boundary(file, 0)
  {
    assert ChunkOffset(file, 0) == 0;
  }

  /** Payloads tile the file: the offset after a boundary is again a boundary. */
  lemma BoundaryNext(file: Bytes, off: nat)
    requires Boundary(file, off)
    ensures off <= |file| && Boundary(file, NextOffset(file, off))
  {
    var k: nat :| k <= ChunkCount(|file|) && off == ChunkOffset(file, k);
    if off < |file| {
      assert k + 1 <= ChunkCount(|file|);
      assert NextOffset(file, off) == ChunkOffset(file, k + 1);
    }
  }

  /** No boundary lies strictly inside a payload. */
  lemma BoundariesAreApart(file: Bytes, a: nat, b: nat)
    requires Boundary(file, a) && Boundary(file, b) && a < b
    ensures a < |file| && NextOffset(file, a) <= b
  {
    var j: nat :| j <= ChunkCount(|file|) && a == ChunkOffset(file, j);
    var k: nat :| k <= ChunkCount(|file|) && b == ChunkOffset(file, k);
    assert j < k;
    assert (j + 1) * PAYLOAD_SIZE <= k * PAYLOAD_SIZE;
  }
}
