/** The walk over the attributes of a STUN response (sections 14 and 14.2 of RFC 8489). */
module Stun {
  import opened Common
  import opened Decimal

  type Octets = seq<bv8>

  const HEADER_LENGTH: nat := 20
  const XOR_MAPPED_ADDRESS: nat := 0x20

  /** The mapped address: IPv4 address and port. */
  datatype Mapped = Mapped(address: bv32, port: bv16)

  function U16(hi: bv8, lo: bv8): nat {
    hi as nat * 256 + lo as nat
  }

  function PaddingOf(length: nat): nat {
    (4 - length % 4) % 4
  }

  function KindAt(msg: Octets, i: nat): nat
    requires i + 4 <= |msg|
  {
    U16(msg[i], msg[i + 1])
  }

  function LengthAt(msg: Octets, i: nat): nat
    requires i + 4 <= |msg|
  {
    U16(msg[i + 2], msg[i + 3])
  }

  function NextAttribute(msg: Octets, i: nat): nat
    requires i + 4 <= |msg|
  {
    i + 4 + LengthAt(msg, i) + PaddingOf(LengthAt(msg, i))
  }

  /** From `i` on the message is a list of complete attributes. */
  predicate WellFormed(msg: Octets, i: nat)
    decreases |msg| - i
  {
    || i == |msg|
    || (i + 4 <= |msg| && NextAttribute(msg, i) <= |msg| && WellFormed(msg, NextAttribute(msg, i)))
  }

  function PortOf(hi: bv8, lo: bv8): bv16 {
    ((hi as bv16 << 8) | lo as bv16) ^ 0x2112
  }

  function AddressOf(a: bv8, b: bv8, c: bv8, d: bv8): bv32 {
    ((a as bv32 << 24) | (b as bv32 << 16) | (c as bv32 << 8) | d as bv32) ^ 0x2112A442
  }

  /** The value of a mapped-address attribute: two octets to skip, the port, the address. */
  function Decode(value: Octets): Mapped
    requires |value| >= 8
  {
    Mapped(AddressOf(value[4], value[5], value[6], value[7]), PortOf(value[2], value[3]))
  }

  function Walk(msg: Octets, i: nat): Option<Mapped>
    requires WellFormed(msg, i)
    decreases |msg| - i
  {
    if i + 8 > |msg| then None
    else if KindAt(msg, i) == XOR_MAPPED_ADDRESS && LengthAt(msg, i) >= 8 then Some(Decode(msg[i + 4..]))
    else Walk(msg, NextAttribute(msg, i))
  }

  /** The octets of an address, from the high one to the low one. */
  function OctetAt(a: bv32, k: nat): bv32 {
    match k
    case 0 => a >> 24
    case 1 => (a >> 16) & 0xFF
    case 2 => (a >> 8) & 0xFF
    case _ => a & 0xFF
  }

  function OctetText(octet: bv32): string {
    ToDecimal(octet as nat)
  }

  /** Dotted decimal notation. */
  function Dotted(a: bv32): string {
    OctetText(OctetAt(a, 0)) + "." + OctetText(OctetAt(a, 1)) + "."
    + OctetText(OctetAt(a, 2)) + "." + OctetText(OctetAt(a, 3))
  }

  function Unmasked(octet: bv8, mask: bv8): bv8 {
    octet ^ mask
  }

  /** The dotted address of four masked octets, in the order in which they are received. */
  function DottedOctets(a: bv8, b: bv8, c: bv8, d: bv8): string {
    ToDecimal(Unmasked(a, 0x21) as nat) + "." + ToDecimal(Unmasked(b, 0x12) as nat) + "."
    + ToDecimal(Unmasked(c, 0xA4) as nat) + "." + ToDecimal(Unmasked(d, 0x42) as nat)
  }

  lemma OctetsOfAddress(a: bv8, b: bv8, c: bv8, d: bv8)
    ensures var w := AddressOf(a, b, c, d);
            && OctetAt(w, 0) == Unmasked(a, 0x21) as bv32 && OctetAt(w, 1) == Unmasked(b, 0x12) as bv32
            && OctetAt(w, 2) == Unmasked(c, 0xA4) as bv32 && OctetAt(w, 3) == Unmasked(d, 0x42) as bv32
  {
  }

  lemma OctetTextOf(wide: bv32, octet: bv8)
    requires wide == octet as bv32
    ensures OctetText(wide) == ToDecimal(octet as nat)
  {
  }

  /** The text of the unmasked address is that of its octets, from the first to the last. */
  lemma DottedInOrder(a: bv8, b: bv8, c: bv8, d: bv8)
    ensures Dotted(AddressOf(a, b, c, d)) == DottedOctets(a, b, c, d)
  {
    var w := AddressOf(a, b, c, d);
    OctetsOfAddress(a, b, c, d);
    hide AddressOf, ToDecimal, OctetText, OctetAt, Unmasked;
    OctetTextOf(OctetAt(w, 0), Unmasked(a, 0x21));
    OctetTextOf(OctetAt(w, 1), Unmasked(b, 0x12));
    OctetTextOf(OctetAt(w, 2), Unmasked(c, 0xA4));
    OctetTextOf(OctetAt(w, 3), Unmasked(d, 0x42));
  }

  lemma PortBits(hi: bv8, lo: bv8)
    ensures PortOf(hi, lo) == (((hi ^ 0x21) as bv16) << 8) | (lo ^ 0x12) as bv16
  {
  }

  lemma Shifted(hi: bv8, lo: bv8)
    ensures (((hi as bv16) << 8) | lo as bv16) as nat == 256 * hi as nat + lo as nat
  {
    assert ((hi as bv16) << 8) | lo as bv16 == 256 * hi as bv16 + lo as bv16;
  }

  /** The port is the number of its two unmasked octets, the high one first. */
  lemma PortInOrder(hi: bv8, lo: bv8)
    ensures PortOf(hi, lo) as nat == 256 * Unmasked(hi, 0x21) as nat + Unmasked(lo, 0x12) as nat
  {
    PortBits(hi, lo);
    Shifted(hi ^ 0x21, lo ^ 0x12);
  }

  lemma DecodeAt(msg: Octets, i: nat)
    requires i + 12 <= |msg|
    ensures Decode(msg[i + 4..]) == Mapped(AddressOf(msg[i + 8], msg[i + 9], msg[i + 10], msg[i + 11]),
                                           PortOf(msg[i + 6], msg[i + 7]))
  {
  }

  lemma StaysAligned(i: nat, l: nat)
    requires i % 4 == 0
    ensures (i + 4 + l + PaddingOf(l)) % 4 == 0
  {
  }

  /** What the loop comes to on any octets; `Outside` is a read behind the end of the buffer. */
  datatype Scanned = NotFound | Found(mapped: Mapped) | Outside

  /** The first `n` octets of `buf` were received; an attribute may claim more than that. */
  function Scan(buf: Octets, n: nat, i: nat): Scanned
    requires n <= |buf|
    decreases n - i
  {
    if i + 8 > n then NotFound
    else if KindAt(buf, i) == XOR_MAPPED_ADDRESS && LengthAt(buf, i) >= 8 then
      if i + 12 <= |buf| then Found(Decode(buf[i + 4..])) else Outside
    else Scan(buf, n, NextAttribute(buf, i))
  }

  /** On complete attributes the loop reads nothing outside and finds what the walk finds. */
  lemma {:induction false} ScanIsWalk(buf: Octets, n: nat, i: nat)
    requires n <= |buf| && WellFormed(buf[..n], i)
    ensures Scan(buf, n, i) == match Walk(buf[..n], i) case None => NotFound case Some(m) => Found(m)
    decreases n - i
  {
    hide U16, Decode;
    var msg := buf[..n];
    if i + 8 <= n {
      assert KindAt(msg, i) == KindAt(buf, i) && LengthAt(msg, i) == LengthAt(buf, i);
      if KindAt(buf, i) == XOR_MAPPED_ADDRESS && LengthAt(buf, i) >= 8 {
        SamePrefix(buf[i + 4..], msg[i + 4..]);
      } else {
        ScanIsWalk(buf, n, NextAttribute(buf, i));
      }
    }
  }

  /** No attribute that starts at an aligned place within `n` octets can reach behind `size` octets. */
  predicate RoomBehind(n: nat, size: nat) {
    n < 28 || n / 4 * 4 + 4 <= size
  }

  lemma {:induction false} ReadsStayInside(buf: Octets, n: nat, i: nat)
    requires n <= |buf| && HEADER_LENGTH <= i && i % 4 == 0 && RoomBehind(n, |buf|)
    ensures Scan(buf, n, i) != Outside
    decreases n - i
  {
    if i + 8 <= n {
      StaysAligned(i, LengthAt(buf, i));
      ReadsStayInside(buf, n, NextAttribute(buf, i));
    }
  }

  /** Zeros, and then an attribute at `at` that claims eight octets of value. */
  function Truncated(size: nat, at: nat): (buf: Octets)
    requires at + 8 <= size
    ensures |buf| == size
  {
    seq(at, _ => 0) + [0, 0x20, 0, 8] + seq(size - at - 4, _ => 0)
  }

  lemma TruncatedAt(size: nat, at: nat, i: nat)
    requires at + 8 <= size && (i == at || i + 4 <= at)
    ensures var buf := Truncated(size, at);
            && KindAt(buf, i) == (if i < at then 0 else XOR_MAPPED_ADDRESS)
            && LengthAt(buf, i) == (if i < at then 0 else 8)
  {
    var buf := Truncated(size, at);
    if i == at {
      assert buf[i] == 0 && buf[i + 1] == 0x20 && buf[i + 2] == 0 && buf[i + 3] == 8;
    } else {
      assert buf[i] == 0 && buf[i + 1] == 0 && buf[i + 2] == 0 && buf[i + 3] == 0;
    }
  }

  lemma {:induction false} TruncatedIsReached(size: nat, k: nat, n: nat, j: nat)
    requires 4 * k + 8 <= n <= size < 4 * k + 12 && j <= k
    ensures Scan(Truncated(size, 4 * k), n, 4 * j) == Outside
    decreases k - j
  {
    hide KindAt, LengthAt, Truncated;
    TruncatedAt(size, 4 * k, 4 * j);
    if j < k {
      TruncatedIsReached(size, k, n, j + 1);
    }
  }

  /**
   The exact condition under which no message of `n` octets can make the loop read behind a
   buffer of `size` octets.  For 1024 octets it holds for all messages but those that fill it.
   */
  lemma ReadsStayInsideExactly(n: nat, size: nat)
    requires n <= size
    ensures (forall buf: Octets | |buf| == size :: Scan(buf, n, 20) != Outside) <==> RoomBehind(n, size)
  {
    if RoomBehind(n, size) {
      forall buf: Octets | |buf| == size
        ensures Scan(buf, n, HEADER_LENGTH) != Outside
      {
        hide Scan;
        ReadsStayInside(buf, n, HEADER_LENGTH);
      }
    } else {
      hide Scan, Truncated;
      TruncatedIsReached(size, n / 4 - 2, n, 5);
    }
  }

  lemma RoomInAnAlignedBuffer(n: nat, size: nat)
    requires 28 <= n <= size && size % 4 == 0
    ensures RoomBehind(n, size) <==> n < size
  {
  }

  lemma ScanStep(buf: Octets, n: nat, i: nat)
    requires i + 8 <= n <= |buf|
    ensures var kind, length := U16(buf[i], buf[i + 1]), U16(buf[i + 2], buf[i + 3]);
            Scan(buf, n, i) ==
              if kind == XOR_MAPPED_ADDRESS && length >= 8
              then (if i + 12 <= |buf| then Found(Decode(buf[i + 4..])) else Outside)
              else Scan(buf, n, i + 4 + length + PaddingOf(length))
  {
    hide U16, Decode;
  }

  /** The received octets of a mapped address at `i`, unmasked: its text and its port. */
  predicate SaysAt(buf: Octets, i: nat, ip: string, port: nat) {
    && i + 12 <= |buf|
    && U16(buf[i], buf[i + 1]) == 0x20 && U16(buf[i + 2], buf[i + 3]) >= 8
    && ip == DottedOctets(buf[i + 8], buf[i + 9], buf[i + 10], buf[i + 11])
    && port == 256 * Unmasked(buf[i + 6], 0x21) as nat + Unmasked(buf[i + 7], 0x12) as nat
  }

  method ReadMapped(buf: array<bv8>, i: nat) returns (ip: string, port: bv16)
    requires i + 12 <= buf.Length
    requires U16(buf[i], buf[i + 1]) == XOR_MAPPED_ADDRESS && U16(buf[i + 2], buf[i + 3]) >= 8
    ensures var m := Decode(buf[..][i + 4..]); ip == Dotted(m.address) && port == m.port
    ensures SaysAt(buf[..], i, ip, port as nat)
  {
    hide U16, PortOf, AddressOf, Dotted, DottedOctets, Unmasked;
    port := PortOf(buf[i + 6], buf[i + 7]);
    var a := AddressOf(buf[i + 8], buf[i + 9], buf[i + 10], buf[i + 11]);
    ip := Dotted(a);
    DecodeAt(buf[..], i);
    DottedInOrder(buf[i + 8], buf[i + 9], buf[i + 10], buf[i + 11]);
    PortInOrder(buf[i + 6], buf[i + 7]);
  }

  /**
   The loop over the receive buffer, on any octets.  `outside` stands for a read behind the
   buffer, which is undefined in the original and cannot happen with room behind the message.
   */
  method FindMappedAddress(buf: array<bv8>, n: nat) returns (found: bool, ip: string, port: bv16, outside: bool)
    requires n <= buf.Length
    ensures var r := Scan(buf[..], n, 20);
            && found == r.Found? && outside == r.Outside?
            && (found ==> ip == Dotted(r.mapped.address) && port == r.mapped.port)
    ensures found ==> exists i :: 20 <= i && i % 4 == 0 && i + 8 <= n && SaysAt(buf[..], i, ip, port as nat)
    ensures RoomBehind(n, buf.Length) ==> !outside
  {
    ReadsStayInsideExactly(n, buf.Length);
    hide U16, Dotted, Decode, RoomBehind, Scan, SaysAt;
    ghost var msg := buf[..];
    var i := HEADER_LENGTH;
    while i + 8 <= n
      invariant HEADER_LENGTH <= i && i % 4 == 0 && Scan(msg, n, i) == Scan(msg, n, HEADER_LENGTH)
      decreases n - i
    {
      var t, l := U16(buf[i], buf[i + 1]), U16(buf[i + 2], buf[i + 3]);
      ScanStep(msg, n, i);
      if t == XOR_MAPPED_ADDRESS && l >= 8 {
        if i + 12 > buf.Length {
          return false, "", 0, true;
        }
        ip, port := ReadMapped(buf, i);
        return true, ip, port, false;
      }
      StaysAligned(i, l);
      i := i + 4 + l + (4 - l % 4) % 4;
    }
    ScanEnds(msg, n, i);
    return false, "", 0, false;
  }

  lemma ScanEnds(buf: Octets, n: nat, i: nat)
    requires n <= |buf| && n < i + 8
    ensures Scan(buf, n, i) == NotFound
  {
  }

  // --- encoding ---

  /** An attribute as it is sent: the octets of its type and length, its value and its padding. */
  datatype Attribute = Attribute(kindHi: bv8, kindLo: bv8, lengthHi: bv8, lengthLo: bv8, value: Octets, padding: Octets)

  predicate Encodable(a: Attribute) {
    U16(a.lengthHi, a.lengthLo) == |a.value| && |a.padding| == PaddingOf(|a.value|)
  }

  function EncodeOne(a: Attribute): Octets {
    [a.kindHi, a.kindLo, a.lengthHi, a.lengthLo] + a.value + a.padding
  }

  function Encode(attributes: seq<Attribute>): Octets {
    if attributes == [] then [] else EncodeOne(attributes[0]) + Encode(attributes[1..])
  }

  predicate IsMapped(a: Attribute) {
    U16(a.kindHi, a.kindLo) == XOR_MAPPED_ADDRESS && |a.value| >= 8
  }

  /** The first mapped address in the list. */
  function FirstMapped(attributes: seq<Attribute>): Option<Mapped> {
    if attributes == [] then None
    else if IsMapped(attributes[0]) then Some(Decode(attributes[0].value))
    else FirstMapped(attributes[1..])
  }

  lemma AttributeAt(before: Octets, a: Attribute, after: Octets)
    requires Encodable(a)
    ensures var msg, i := before + EncodeOne(a) + after, |before|;
            StoredAt(msg, i, a) && NextAttribute(msg, i) == |before + EncodeOne(a)|
  {
    var msg, i := before + EncodeOne(a) + after, |before|;
    hide U16;
    assert msg[i] == EncodeOne(a)[0] && msg[i + 1] == EncodeOne(a)[1];
    assert msg[i + 2] == EncodeOne(a)[2] && msg[i + 3] == EncodeOne(a)[3];
    assert msg[i + 4..] == a.value + (a.padding + after);
  }

  /** The attribute's type, length and value stand at `i`. */
  ghost predicate StoredAt(msg: Octets, i: nat, a: Attribute) {
    && i + 4 + |a.value| <= |msg|
    && KindAt(msg, i) == U16(a.kindHi, a.kindLo) && LengthAt(msg, i) == |a.value|
    && a.value <= msg[i + 4..]
  }

  /**
   For any list of attributes of any lengths, with any padding: the walk terminates inside
   the message and finds the first mapped address, or none if there is none.
   */
  lemma {:induction false} WalkFindsTheFirst(before: Octets, attributes: seq<Attribute>)
    requires forall a :: a in attributes ==> Encodable(a)
    ensures var msg := before + Encode(attributes);
            WellFormed(msg, |before|) && Walk(msg, |before|) == FirstMapped(attributes)
    decreases |attributes|
  {
    if attributes != [] {
      var a, more := attributes[0], attributes[1..];
      WalkFindsTheFirst(before + EncodeOne(a), more);
      EncodeMore(before, attributes);
      AttributeAt(before, a, Encode(more));
      WalkOne(before + Encode(attributes), |before|, a);
    } else {
      assert before + Encode([]) == before;
    }
  }

  lemma EncodeMore(before: Octets, attributes: seq<Attribute>)
    requires attributes != []
    ensures var a, more := attributes[0], attributes[1..];
            && before + Encode(attributes) == before + EncodeOne(a) + Encode(more)
            && (more == [] ==> Encode(more) == []) && (more != [] ==> |Encode(more)| >= 4)
  {
    var more := attributes[1..];
    assert more != [] ==> |Encode(more)| >= |EncodeOne(more[0])| >= 4;
  }

  /** One step: stop at a mapped address, otherwise go on behind the attribute. */
  lemma WalkOne(msg: Octets, i: nat, a: Attribute)
    requires StoredAt(msg, i, a)
    requires NextAttribute(msg, i) <= |msg| && WellFormed(msg, NextAttribute(msg, i))
    requires NextAttribute(msg, i) == |msg| || NextAttribute(msg, i) + 4 <= |msg|
    ensures WellFormed(msg, i)
    ensures IsMapped(a) ==> Walk(msg, i) == Some(Decode(a.value))
    ensures !IsMapped(a) ==> Walk(msg, i) == Walk(msg, NextAttribute(msg, i))
  {
    hide U16, Decode;
    if IsMapped(a) {
      SamePrefix(msg[i + 4..], a.value);
    }
  }

  lemma SamePrefix(x: Octets, y: Octets)
    requires |x| >= |y| >= 8 && y <= x
    ensures Decode(x) == Decode(y)
  {
    hide AddressOf, PortOf;
  }

  function PortHi(p: bv16): bv8 { ((p ^ 0x2112) >> 8) as bv8 }

  function PortLo(p: bv16): bv8 { ((p ^ 0x2112) & 0xFF) as bv8 }

  function AddressA(a: bv32): bv8 { ((a ^ 0x2112A442) >> 24) as bv8 }

  function AddressB(a: bv32): bv8 { (((a ^ 0x2112A442) >> 16) & 0xFF) as bv8 }

  function AddressC(a: bv32): bv8 { (((a ^ 0x2112A442) >> 8) & 0xFF) as bv8 }

  function AddressD(a: bv32): bv8 { ((a ^ 0x2112A442) & 0xFF) as bv8 }

  /** The value of the attribute: a reserved octet, the IPv4 family, the masked port and address. */
  function EncodeMapped(m: Mapped): Octets {
    var a := m.address;
    [0, 1, PortHi(m.port), PortLo(m.port), AddressA(a), AddressB(a), AddressC(a), AddressD(a)]
  }

  lemma PortRoundTrip(p: bv16)
    ensures PortOf(PortHi(p), PortLo(p)) == p
  {
  }

  lemma AddressRoundTrip(a: bv32)
    ensures AddressOf(AddressA(a), AddressB(a), AddressC(a), AddressD(a)) == a
  {
  }

  lemma DecodeEncode(m: Mapped)
    ensures Decode(EncodeMapped(m)) == m
  {
    PortRoundTrip(m.port);
    AddressRoundTrip(m.address);
    hide PortOf, PortHi, PortLo, AddressOf, AddressA, AddressB, AddressC, AddressD;
  }

  function MappedAttribute(m: Mapped): (a: Attribute)
    ensures Encodable(a) && IsMapped(a)
  {
    Attribute(0, 0x20, 0, 8, EncodeMapped(m), [])
  }

  /** Encoding an address, behind any other attributes and before anything else, and parsing is the identity. */
  lemma {:induction false} ParseEncode(header: Octets, others: seq<Attribute>, m: Mapped, rest: seq<Attribute>)
    requires |header| == 20
    requires forall a :: a in others + rest ==> Encodable(a)
    requires forall a :: a in others ==> !IsMapped(a)
    ensures var mapped := MappedAttribute(m);
            var all := others + [mapped] + rest;
            && (forall a :: a in all ==> Encodable(a))
            && WellFormed(header + Encode(all), 20)
            && Walk(header + Encode(all), 20) == Some(m)
  {
    var mapped := MappedAttribute(m);
    DecodeEncode(m);
    forall a | a in others + [mapped] + rest
      ensures Encodable(a)
    {
      assert a != mapped ==> a in others + rest;
    }
    SkipOthers(others, mapped, rest);
    WalkFindsTheFirst(header, others + [mapped] + rest);
  }

  lemma {:induction false} SkipOthers(others: seq<Attribute>, mapped: Attribute, rest: seq<Attribute>)
    requires IsMapped(mapped) && forall a :: a in others ==> !IsMapped(a)
    ensures FirstMapped(others + [mapped] + rest) == Some(Decode(mapped.value))
  {
    if others != [] {
      assert (others + [mapped] + rest)[1..] == others[1..] + [mapped] + rest;
      SkipOthers(others[1..], mapped, rest);
    }
  }
}
