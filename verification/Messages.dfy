/**
 The messages as numbered fields, as the schemas declare them, and what a reader of the other
 schema makes of them.  A field that was not written, or whose kind differs from the declared
 one, reads as its default, so it makes no difference that defaults are not written.  Nonces,
 identities and signatures are left out: no control message declares a field of their number
 that could be mistaken for one.
 */
module Messages {
  import opened Common
  import opened Protocol

  datatype Value = Number(number: nat) | Text(text: string) | Octets(octets: Bytes)

  type Fields = map<nat, Value>

  /** The member of a oneof that is set, by its number, or 0. */
  datatype Packet = Packet(member: nat, fields: Fields)

  function GetNumber(fields: Fields, field: nat): nat {
    if field in fields && fields[field].Number? then fields[field].number else 0
  }

  function GetText(fields: Fields, field: nat): string {
    if field in fields && fields[field].Text? then fields[field].text else ""
  }

  function GetOctets(fields: Fields, field: nat): Bytes {
    if field in fields && fields[field].Octets? then fields[field].octets else []
  }

  function CodeNumber(code: ErrorCode): nat {
    match code
    case Unspecified => 0
    case InvalidToken => 1
    case HandshakeFailed => 2
    case UnauthorizedPeer => 3
    case BadPacket => 4
    case TransferNotFound => 5
    case OffsetMismatch => 6
    case IntegrityCheckFailed => 7
  }

  function CodeOf(n: nat): ErrorCode {
    match n
    case 1 => InvalidToken
    case 2 => HandshakeFailed
    case 3 => UnauthorizedPeer
    case 4 => BadPacket
    case 5 => TransferNotFound
    case 6 => OffsetMismatch
    case 7 => IntegrityCheckFailed
    case _ => Unspecified
  }

  function WriteControl(c: Control): Packet {
    match c
    case Get(id) => Packet(1, map[1 := Text(id)])
    case Ack(id, next) => Packet(2, map[1 := Text(id), 2 := Number(next)])
    case Data(id, offset, payload) => Packet(3, map[1 := Text(id), 2 := Number(offset), 3 := Octets(payload)])
    case Done(id, size, hash) => Packet(4, map[1 := Text(id), 2 := Number(size), 3 := Text(hash)])
    case Error(id, code) => Packet(5, map[1 := Text(id), 2 := Number(CodeNumber(code))])
    case NoBody => Packet(0, map[])
  }

  function ReadControl(p: Packet): Control {
    match p.member
    case 1 => Get(GetText(p.fields, 1))
    case 2 => Ack(GetText(p.fields, 1), GetNumber(p.fields, 2))
    case 3 => Data(GetText(p.fields, 1), GetNumber(p.fields, 2), GetOctets(p.fields, 3))
    case 4 => Done(GetText(p.fields, 1), GetNumber(p.fields, 2), GetText(p.fields, 3))
    case 5 => Error(GetText(p.fields, 1), CodeOf(GetNumber(p.fields, 2)))
    case _ => NoBody
  }

  function WriteHandshake(h: Handshake): Packet {
    match h
    case ClientHello(version, id, token) => Packet(1, map[1 := Number(version), 2 := Text(id), 3 := Text(token)])
    case ServerHello(version, id) => Packet(2, map[1 := Number(version), 2 := Text(id)])
    case HandshakeFinish(id) => Packet(3, map[1 := Text(id)])
    case HandshakeError(code) => Packet(4, map[1 := Number(CodeNumber(code))])
    case NoHandshakeBody => Packet(0, map[])
  }

  function ReadHandshake(p: Packet): Handshake {
    match p.member
    case 1 => ClientHello(GetNumber(p.fields, 1), GetText(p.fields, 2), GetText(p.fields, 3))
    case 2 => ServerHello(GetNumber(p.fields, 1), GetText(p.fields, 2))
    case 3 => HandshakeFinish(GetText(p.fields, 1))
    case 4 => HandshakeError(CodeOf(GetNumber(p.fields, 1)))
    case _ => NoHandshakeBody
  }

  function Write(m: Message): Packet {
    if m.Hs? then WriteHandshake(m.handshake) else WriteControl(m.control)
  }

  lemma {:induction false} CodesReadBack(code: ErrorCode)
    ensures CodeOf(CodeNumber(code)) == code
  {
  }

  /** Reading with the own schema gives the message back. */
  lemma {:induction false} ControlReadsBack(c: Control)
    ensures ReadControl(WriteControl(c)) == c
  {
    if c.Error? {
      CodesReadBack(c.code);
    }
    hide CodeOf, CodeNumber;
  }

  lemma {:induction false} HandshakeReadsBack(h: Handshake)
    ensures ReadHandshake(WriteHandshake(h)) == h
  {
    if h.HandshakeError? {
      CodesReadBack(h.code);
    }
    hide CodeOf, CodeNumber;
  }

  /**
   The two readings of a datagram: a hello that arrives late reads as a GET, a server hello as
   an ACK of nothing, an early GET as a hello without a version, and so on.
   */
  lemma {:induction false} BothReadings(m: Message)
    ensures AsDatagram(m) == Datagram(Some(ReadHandshake(Write(m))), Some(ReadControl(Write(m))))
  {
    if m.Hs? {
      HandshakeReadsBack(m.handshake);
      assert ReadControl(WriteHandshake(m.handshake)) == ControlView(m);
    } else {
      ControlReadsBack(m.control);
      assert ReadHandshake(WriteControl(m.control)) == HandshakeView(m.control);
    }
  }
}
