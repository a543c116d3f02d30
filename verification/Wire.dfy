/** The sizes of datagrams in the Protocol Buffers wire encoding. */
module Wire {
  import opened Common
  import opened Protocol

  const UINT64: nat := 0x1_0000_0000_0000_0000

  /** Seven bits to an octet, low ones first, the high bit set on all but the last. */
  function Varint(n: nat): Bytes {
    if n < 128 then [n] else [n % 128 + 128] + Varint(n / 128)
  }

  const VARINT: nat := 0
  const DELIMITED: nat := 2

  function Tag(field: nat, wireType: nat): Bytes {
    Varint(field * 8 + wireType)
  }

  function Delimited(field: nat, body: Bytes): Bytes {
    Tag(field, DELIMITED) + Varint(|body|) + body
  }

  /** Fields with their default value are left out. */
  function BytesField(field: nat, body: Bytes): Bytes {
    if body == [] then [] else Delimited(field, body)
  }

  function UintField(field: nat, n: nat): Bytes {
    if n == 0 then [] else Tag(field, VARINT) + Varint(n)
  }

  function DataChunk(id: Bytes, offset: nat, payload: Bytes): Bytes {
    BytesField(1, id) + UintField(2, offset) + BytesField(3, payload)
  }

  /** A control packet whose body is a DATA chunk. */
  function DataDatagram(id: Bytes, offset: nat, payload: Bytes): Bytes {
    Delimited(3, DataChunk(id, offset, payload))
  }

  function Power128(k: nat): nat {
    if k == 0 then 1 else 128 * Power128(k - 1)
  }

  /** `k` octets hold exactly the numbers below 128 to the power of `k`. */
  lemma {:induction false} VarintLength(n: nat, k: nat)
    requires k > 0
    ensures |Varint(n)| <= k <==> n < Power128(k)
  {
    if k == 1 {
      assert Power128(1) == 128 * Power128(0) == 128;
    } else if n >= 128 {
      VarintLength(n / 128, k - 1);
    } else {
      PowerGrows(k);
    }
  }

  lemma {:induction false} PowerGrows(k: nat)
    requires k > 0
    ensures Power128(k) >= 128
  {
    if k > 1 {
      PowerGrows(k - 1);
    }
  }

  lemma SmallPowers()
    ensures Power128(1) == 128 && Power128(2) == 16384
    ensures Power128(9) < UINT64 <= Power128(10)
  {
    assert Power128(1) == 128 * Power128(0) && Power128(2) == 128 * Power128(1);
    assert Power128(4) == 128 * Power128(3) && Power128(3) == 128 * Power128(2);
    assert Power128(6) == 128 * Power128(5) && Power128(5) == 128 * Power128(4);
    assert Power128(8) == 128 * Power128(7) && Power128(7) == 128 * Power128(6);
    assert Power128(10) == 128 * Power128(9) && Power128(9) == 128 * Power128(8);
  }

  lemma DelimitedLength(field: nat, body: Bytes)
    requires field < 16
    ensures |body| < 128 ==> |Delimited(field, body)| == |body| + 2
    ensures 128 <= |body| < 16384 ==> |Delimited(field, body)| == |body| + 3
    ensures |Delimited(field, body)| >= |body| + 2
  {
    SmallPowers();
    VarintLength(|body|, 1);
    VarintLength(|body|, 2);
  }

  /** A 64-bit number takes at most ten octets, and some take ten. */
  lemma OffsetLength(offset: nat)
    requires offset < UINT64
    ensures |UintField(2, offset)| <= 11
    ensures offset == UINT64 - 1 ==> |UintField(2, offset)| == 11
  {
    SmallPowers();
    VarintLength(offset, 9);
    VarintLength(offset, 10);
  }

  /** Every DATA datagram with this id fits the receive buffers of both peers. */
  ghost predicate AlwaysFits(id: Bytes) {
    forall offset: nat, payload: Bytes :: offset < UINT64 && |payload| <= PAYLOAD_SIZE ==>
      |DataDatagram(id, offset, payload)| <= MAX_PACKET_SIZE
  }

  lemma ShortIdFits(id: Bytes, offset: nat, payload: Bytes)
    requires |id| <= 109 && offset < UINT64 && |payload| <= PAYLOAD_SIZE
    ensures |DataDatagram(id, offset, payload)| <= MAX_PACKET_SIZE
  {
    DelimitedLength(1, id);
    OffsetLength(offset);
    DelimitedLength(3, payload);
    DelimitedLength(3, DataChunk(id, offset, payload));
  }

  lemma LongIdDoesNotFit(id: Bytes, payload: Bytes)
    requires |id| > 109 && |payload| == PAYLOAD_SIZE
    ensures |DataDatagram(id, UINT64 - 1, payload)| > MAX_PACKET_SIZE
  {
    DelimitedLength(1, id);
    OffsetLength(UINT64 - 1);
    DelimitedLength(3, payload);
    DelimitedLength(3, DataChunk(id, UINT64 - 1, payload));
  }

  /** The header allowance of 128 octets is enough exactly for ids of up to 109 octets. */
  lemma HeaderAllowanceIsExact(id: Bytes)
    ensures AlwaysFits(id) <==> |id| <= 109
  {
    if |id| <= 109 {
      forall offset: nat, payload: Bytes | offset < UINT64 && |payload| <= PAYLOAD_SIZE
        ensures |DataDatagram(id, offset, payload)| <= MAX_PACKET_SIZE
      {
        ShortIdFits(id, offset, payload);
      }
    } else {
      LongIdDoesNotFit(id, seq(PAYLOAD_SIZE, _ => 0));
    }
  }

  /** A serialised packet is never empty, so an empty cache means that nothing was sent. */
  lemma PacketsAreNotEmpty(field: nat, body: Bytes)
    requires field < 16
    ensures Delimited(field, body) != []
  {
    DelimitedLength(field, body);
  }

  // --- reading it back ---

  function ReadVarint(text: Bytes): Option<(nat, Bytes)> {
    if text == [] then None
    else if text[0] < 128 then Some((text[0], text[1..]))
    else
      match ReadVarint(text[1..])
      case None => None
      case Some((high, rest)) => Some((text[0] - 128 + 128 * high, rest))
  }

  lemma {:induction false} VarintReadsBack(n: nat, rest: Bytes)
    ensures ReadVarint(Varint(n) + rest) == Some((n, rest))
  {
    var text := Varint(n) + rest;
    if n < 128 {
      assert text[0] == n && text[1..] == rest;
    } else {
      assert text[0] == n % 128 + 128 && text[1..] == Varint(n / 128) + rest;
      VarintReadsBack(n / 128, rest);
    }
  }

  datatype Field = Number(field: nat, n: nat) | Text(field: nat, body: Bytes)

  function WriteField(f: Field): Bytes {
    match f
    case Number(field, n) => Tag(field, 0) + Varint(n)
    case Text(field, body) => Tag(field, 2) + Varint(|body|) + body
  }

  function ReadField(text: Bytes): Option<(Field, Bytes)> {
    match ReadVarint(text)
    case None => None
    case Some((tag, rest)) =>
      match ReadVarint(rest)
      case None => None
      case Some((n, more)) =>
        if tag % 8 == 0 then Some((Number(tag / 8, n), more))
        else if tag % 8 == 2 && n <= |more| then Some((Text(tag / 8, more[..n]), more[n..]))
        else None
  }

  lemma FieldReadsBack(f: Field, rest: Bytes)
    ensures ReadField(WriteField(f) + rest) == Some((f, rest))
  {
    hide Varint, ReadVarint;
    match f {
      case Number(field, n) =>
        var tail := Varint(n) + rest;
        assert WriteField(f) + rest == Varint(field * 8 + 0) + tail;
        VarintReadsBack(field * 8 + 0, tail);
        VarintReadsBack(n, rest);
      case Text(field, body) =>
        var tail := Varint(|body|) + (body + rest);
        assert WriteField(f) + rest == Varint(field * 8 + 2) + tail;
        VarintReadsBack(field * 8 + 2, tail);
        VarintReadsBack(|body|, body + rest);
        assert (body + rest)[..|body|] == body && (body + rest)[|body|..] == rest;
    }
  }

  function WriteFields(fields: seq<Field>): Bytes {
    if fields == [] then [] else WriteField(fields[0]) + WriteFields(fields[1..])
  }

  /** `text` is a list of fields, in this order. */
  predicate Holds(text: Bytes, fields: seq<Field>)
    decreases |fields|
  {
    if fields == [] then text == []
    else
      var first := ReadField(text);
      first.Some? && first.value.0 == fields[0] && Holds(first.value.1, fields[1..])
  }

  lemma {:induction false} FieldsReadBack(fields: seq<Field>)
    ensures Holds(WriteFields(fields), fields)
    decreases |fields|
  {
    if fields != [] {
      FieldReadsBack(fields[0], WriteFields(fields[1..]));
      FieldsReadBack(fields[1..]);
    }
  }

  // Defaults are left out.

  function TextIn(field: nat, body: Bytes): (fields: seq<Field>)
    ensures |fields| <= 1
  {
    if body == [] then [] else [Text(field, body)]
  }

  function NumberIn(field: nat, n: nat): (fields: seq<Field>)
    ensures |fields| <= 1
  {
    if n == 0 then [] else [Number(field, n)]
  }

  /** The fields of a DATA chunk. */
  function ChunkFields(id: Bytes, offset: nat, payload: Bytes): seq<Field> {
    TextIn(1, id) + NumberIn(2, offset) + TextIn(3, payload)
  }

  lemma WriteAppended(a: seq<Field>, b: seq<Field>)
    requires |a| <= 1
    ensures WriteFields(a + b) == WriteFields(a) + WriteFields(b)
  {
    if a == [] {
      assert a + b == b && [] + WriteFields(b) == WriteFields(b);
    } else {
      assert (a + b)[1..] == b && a[1..] == [] && WriteFields(a) == WriteField(a[0]) + [] == WriteField(a[0]);
    }
  }

  lemma ChunkIsItsFields(id: Bytes, offset: nat, payload: Bytes)
    ensures DataChunk(id, offset, payload) == WriteFields(ChunkFields(id, offset, payload))
  {
    var a, b, c := TextIn(1, id), NumberIn(2, offset), TextIn(3, payload);
    FieldIsWritten(1, id, offset);
    FieldIsWritten(2, id, offset);
    FieldIsWritten(3, payload, offset);
    WriteAppended(b, c);
    WriteAppended(a, b + c);
    assert a + b + c == a + (b + c);
    hide *;
    assert WriteFields(a) + WriteFields(b) + WriteFields(c) == WriteFields(a) + (WriteFields(b) + WriteFields(c));
  }

  lemma FieldIsWritten(field: nat, body: Bytes, n: nat)
    ensures WriteFields(TextIn(field, body)) == BytesField(field, body)
    ensures field == 2 ==> WriteFields(NumberIn(field, n)) == UintField(field, n)
  {
    OneWritten(TextIn(field, body));
    OneWritten(NumberIn(field, n));
    hide WriteFields, Varint;
  }

  lemma OneWritten(fields: seq<Field>)
    requires |fields| <= 1
    ensures WriteFields(fields) == if fields == [] then [] else WriteField(fields[0])
  {
    if fields != [] {
      assert fields[1..] == [] && WriteField(fields[0]) + [] == WriteField(fields[0]);
    }
  }

  /**
   A DATA datagram reads back: it is field 3, and in it the id is field 1, the offset field 2
   and the payload field 3, each with its value.
   */
  lemma DatagramReadsBack(id: Bytes, offset: nat, payload: Bytes)
    ensures var chunk := DataChunk(id, offset, payload);
            && Holds(DataDatagram(id, offset, payload), [Text(3, chunk)])
            && Holds(chunk, ChunkFields(id, offset, payload))
  {
    var chunk := DataChunk(id, offset, payload);
    var outer := [Text(3, chunk)];
    OneWritten(outer);
    FieldsReadBack(outer);
    ChunkIsItsFields(id, offset, payload);
    FieldsReadBack(ChunkFields(id, offset, payload));
    assert DataDatagram(id, offset, payload) == WriteFields(outer);
  }
}
