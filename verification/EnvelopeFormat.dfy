/**
 The GXE envelope: what the wire form of an envelope is, which byte strings are envelopes, and how the
 two directions fit together. The loops that compute these functions are in EnvelopeCodec.
 */
module EnvelopeFormat {
  import opened Bytes
  import opened Attributes
  import Identity

  const MAX_FRAME_BYTES: nat := 16 * 1024 * 1024
  const MAX_ATTRIBUTES: nat := 4096
  const WIRE_VERSION: Byte := 2
  const FIXED_BYTES: nat := 72

  datatype Envelope = Envelope(
    sequence: Uint64,
    timestampNs: Int64,
    kind: Text,
    traceId: Text,
    attributes: map<Text, Text>,
    payload: Text,
    messageId: Text,
    parentMessageId: Text,
    wireVersion: Byte)

  datatype WireError =
    | UnsupportedVersion
    | TooManyAttributes
    | TooLarge
    | StringTooLong
    | BadIdentity
    | Truncated
    | BadMagic
    | ZeroIdentity
    | DuplicateKey
    | TrailingBytes

  // ----- the fields of one wire image, records in wire order -----

  datatype Packet = Packet(
    sequence: Uint64,
    timestamp: Uint64,
    messageId: seq<Byte>,
    traceId: seq<Byte>,
    parentId: seq<Byte>,
    kind: Text,
    records: seq<Record>,
    payload: Text)

  function Unsigned(t: Int64): Uint64 {
    if t >= 0 then t else t + 0x1_0000_0000_0000_0000
  }

  function Signed(u: Uint64): Int64 {
    if u < 0x8000_0000_0000_0000 then u else u - 0x1_0000_0000_0000_0000
  }

  function StringBytes(s: Text): seq<Byte> {
    BigEndian(|s|, 4) + s
  }

  function OneRecord(r: Record): seq<Byte> {
    StringBytes(r.key) + StringBytes(r.value)
  }

  function RecordsBytes(records: seq<Record>): (bytes: seq<Byte>)
    ensures |bytes| == RecordBytes(records)
  {
    if records == [] then []
    else RecordsBytes(records[..|records| - 1]) + OneRecord(records[|records| - 1])
  }

  function HeadBytes(p: Packet): seq<Byte> {
    [71, 88, 69, WIRE_VERSION] + (BigEndian(p.sequence, 8) + (BigEndian(p.timestamp, 8)
      + (p.messageId + (p.traceId + p.parentId))))
  }

  function PacketBytes(p: Packet): seq<Byte> {
    HeadBytes(p) + (StringBytes(p.kind) + (BigEndian(|p.records|, 4)
      + (RecordsBytes(p.records) + StringBytes(p.payload))))
  }

  function PacketSize(p: Packet): nat {
    FIXED_BYTES + 4 + |p.kind| + RecordBytes(p.records) + 4 + |p.payload|
  }

  ghost predicate WellFormed(p: Packet) {
    && |p.messageId| == |p.traceId| == |p.parentId| == Identity.RAW_LENGTH
    && !Identity.AllZero(p.messageId) && !Identity.AllZero(p.traceId)
    && |p.records| <= MAX_ATTRIBUTES && DistinctKeys(p.records)
    && PacketSize(p) <= MAX_FRAME_BYTES
  }

  // ----- reading: each function consumes a prefix and returns the rest -----

  type Read<T> = Result<(T, seq<Byte>), WireError>

  function ReadBytes(bytes: seq<Byte>, count: nat): Read<seq<Byte>> {
    if count > |bytes| then Err(Truncated) else Ok((bytes[..count], bytes[count..]))
  }

  function ReadInteger(bytes: seq<Byte>, width: nat): (r: Read<nat>)
    ensures r.Ok? ==> r.value.0 < Power256(width)
  {
    var (raw, rest) :- ReadBytes(bytes, width);
    Ok((BigEndianValue(raw), rest))
  }

  function ReadString(bytes: seq<Byte>): Read<Text> {
    var (size, rest) :- ReadInteger(bytes, 4);
    ReadBytes(rest, size)
  }

  ghost function ReadIdentity(bytes: seq<Byte>, optional: bool): Read<seq<Byte>> {
    var (raw, rest) :- ReadBytes(bytes, Identity.RAW_LENGTH);
    if Identity.AllZero(raw) && !optional then Err(ZeroIdentity) else Ok((raw, rest))
  }

  ghost predicate HasKey(records: seq<Record>, key: Text) {
    exists i :: 0 <= i < |records| && records[i].key == key
  }

  /** Reads `count` more records behind those already read; a repeated key is an error at once. */
  ghost function ReadRecords(bytes: seq<Byte>, before: seq<Record>, count: nat): Read<seq<Record>>
    decreases count
  {
    if count == 0 then Ok((before, bytes))
    else
      var (key, rest) :- ReadString(bytes);
      var (value, rest') :- ReadString(rest);
      if HasKey(before, key) then Err(DuplicateKey)
      else ReadRecords(rest', before + [Record(key, value)], count - 1)
  }

  function ReadMagic(bytes: seq<Byte>): Read<()> {
    var (g, rest) :- ReadInteger(bytes, 1);
    if g != 71 then Err(BadMagic)
    else
      var (x, rest) :- ReadInteger(rest, 1);
      if x != 88 then Err(BadMagic)
      else
        var (e, rest) :- ReadInteger(rest, 1);
        if e != 69 then Err(BadMagic)
        else
          var (version, rest) :- ReadInteger(rest, 1);
          if version != WIRE_VERSION then Err(UnsupportedVersion) else Ok(((), rest))
  }

  ghost function ReadHead(bytes: seq<Byte>): Read<Packet> {
    var (_, rest) :- ReadMagic(bytes);
    var (sequence, rest) :- ReadInteger(rest, 8);
    var (timestamp, rest) :- ReadInteger(rest, 8);
    var (messageId, rest) :- ReadIdentity(rest, false);
    var (traceId, rest) :- ReadIdentity(rest, false);
    var (parentId, rest) :- ReadIdentity(rest, true);
    PowersOf256();
    Ok((Packet(sequence, timestamp, messageId, traceId, parentId, [], [], []), rest))
  }

  ghost function ReadBody(head: Packet, bytes: seq<Byte>): Result<Packet, WireError> {
    var (kind, rest) :- ReadString(bytes);
    var (count, rest) :- ReadInteger(rest, 4);
    if count > MAX_ATTRIBUTES then Err(TooManyAttributes)
    else
      var (records, rest) :- ReadRecords(rest, [], count);
      var (payload, rest) :- ReadString(rest);
      if rest != [] then Err(TrailingBytes)
      else Ok(head.(kind := kind, records := records, payload := payload))
  }

  ghost function ReadPacket(bytes: seq<Byte>): Result<Packet, WireError> {
    if |bytes| > MAX_FRAME_BYTES then Err(TooLarge)
    else
      var (head, rest) :- ReadHead(bytes);
      ReadBody(head, rest)
  }

  // ----- packets and well-formed byte strings are the same thing -----

  lemma PacketLength(p: Packet)
    requires |p.messageId| == |p.traceId| == |p.parentId| == Identity.RAW_LENGTH
    ensures |PacketBytes(p)| == PacketSize(p)
    ensures |HeadBytes(p)| == 68
  {
  }

  lemma ReadBytesPrefix(a: seq<Byte>, rest: seq<Byte>)
    ensures ReadBytes(a + rest, |a|) == Ok((a, rest))
  {
    assert (a + rest)[..|a|] == a && (a + rest)[|a|..] == rest;
  }

  lemma ReadIntegerPrefix(value: nat, width: nat, rest: seq<Byte>)
    requires value < Power256(width)
    ensures ReadInteger(BigEndian(value, width) + rest, width) == Ok((value, rest))
  {
    ReadBytesPrefix(BigEndian(value, width), rest);
    BigEndianRoundTrip(value, width);
  }

  lemma ReadIntegerExact(bytes: seq<Byte>, width: nat)
    requires ReadInteger(bytes, width).Ok?
    ensures bytes == BigEndian(ReadInteger(bytes, width).value.0, width) + ReadInteger(bytes, width).value.1
  {
    BigEndianInjective(bytes[..width]);
  }

  lemma ReadStringPrefix(s: Text, rest: seq<Byte>)
    requires |s| <= MAX_FRAME_BYTES
    ensures ReadString(StringBytes(s) + rest) == Ok((s, rest))
  {
    PowersOf256();
    ReadIntegerPrefix(|s|, 4, s + rest);
    ReadBytesPrefix(s, rest);
    assert StringBytes(s) + rest == BigEndian(|s|, 4) + (s + rest);
  }

  lemma ReadStringExact(bytes: seq<Byte>)
    requires ReadString(bytes).Ok?
    ensures bytes == StringBytes(ReadString(bytes).value.0) + ReadString(bytes).value.1
  {
    ReadIntegerExact(bytes, 4);
  }

  lemma ReadIdentityPrefix(raw: seq<Byte>, optional: bool, rest: seq<Byte>)
    requires |raw| == Identity.RAW_LENGTH && (optional || !Identity.AllZero(raw))
    ensures ReadIdentity(raw + rest, optional) == Ok((raw, rest))
  {
    ReadBytesPrefix(raw, rest);
  }

  lemma {:induction false} RecordsBytesAppend(a: seq<Record>, b: seq<Record>)
    ensures RecordsBytes(a + b) == RecordsBytes(a) + RecordsBytes(b)
  {
    if b == [] {
      assert a + b == a;
    } else {
      var front, last := b[..|b| - 1], b[|b| - 1];
      RecordsBytesAppend(a, front);
      SumFront(a, b);
      Associative(RecordsBytes(a), RecordsBytes(front), OneRecord(last));
    }
  }

  lemma {:induction false} RecordSizes(records: seq<Record>, i: nat)
    requires i < |records|
    ensures |records[i].key| + |records[i].value| <= RecordBytes(records)
  {
    if i < |records| - 1 {
      RecordSizes(records[..|records| - 1], i);
    }
  }

  lemma RecordBytesHead(r: Record, tail: seq<Record>)
    ensures RecordsBytes([r] + tail) == OneRecord(r) + RecordsBytes(tail)
  {
    RecordsBytesAppend([r], tail);
    assert [r][..0] == [];
    assert RecordsBytes([r]) == [] + OneRecord(r);
  }

  lemma ReadOneRecord(r: Record, rest: seq<Byte>)
    requires |r.key| <= MAX_FRAME_BYTES && |r.value| <= MAX_FRAME_BYTES
    ensures ReadString(OneRecord(r) + rest) == Ok((r.key, StringBytes(r.value) + rest))
    ensures ReadString(StringBytes(r.value) + rest) == Ok((r.value, rest))
  {
    ReadStringPrefix(r.key, StringBytes(r.value) + rest);
    ReadStringPrefix(r.value, rest);
    Associative(StringBytes(r.key), StringBytes(r.value), rest);
  }

  lemma KeyIsFresh(before: seq<Record>, r: Record, tail: seq<Record>)
    requires DistinctKeys(before + ([r] + tail))
    ensures !HasKey(before, r.key)
    ensures before + ([r] + tail) == (before + [r]) + tail
  {
    var all := before + ([r] + tail);
    assert all[|before|] == r;
    assert forall i :: 0 <= i < |before| ==> all[i] == before[i];
  }

  lemma {:induction false} ReadRecordsPrefix(before: seq<Record>, after: seq<Record>, rest: seq<Byte>)
    requires DistinctKeys(before + after)
    requires RecordBytes(after) <= MAX_FRAME_BYTES
    ensures ReadRecords(RecordsBytes(after) + rest, before, |after|) == Ok((before + after, rest))
    decreases |after|
  {
    if after == [] {
      assert before + after == before;
      assert RecordsBytes(after) + rest == rest;
    } else {
      var r, tail := after[0], after[1..];
      assert after == [r] + tail;
      RecordBytesHead(r, tail);
      RecordSizes(after, 0);
      RecordBytesSplit([r], tail);
      Associative(OneRecord(r), RecordsBytes(tail), rest);
      ReadOneRecord(r, RecordsBytes(tail) + rest);
      KeyIsFresh(before, r, tail);
      ReadRecordsPrefix(before + [r], tail, rest);
      assert Record(r.key, r.value) == r;
    }
  }

  lemma {:induction false} ReadRecordsExact(bytes: seq<Byte>, before: seq<Record>, count: nat)
    requires DistinctKeys(before)
    requires ReadRecords(bytes, before, count).Ok?
    ensures var (records, rest) := ReadRecords(bytes, before, count).value;
      && before <= records && |records| == |before| + count
      && DistinctKeys(records)
      && bytes == RecordsBytes(records[|before|..]) + rest
    decreases count
  {
    if count > 0 {
      var (key, rest) := ReadString(bytes).value;
      var (value, rest') := ReadString(rest).value;
      var r := Record(key, value);
      ReadStringExact(bytes);
      ReadStringExact(rest);
      Associative(StringBytes(key), StringBytes(value), rest');
      DistinctAppend(before, r);
      ReadRecordsExact(rest', before + [r], count - 1);
      var (records, last) := ReadRecords(rest', before + [r], count - 1).value;
      AppendedRecord(before, r, records);
      var tail := records[|before| + 1..];
      RecordBytesHead(r, tail);
      Associative(OneRecord(r), RecordsBytes(tail), last);
    }
  }

  lemma DistinctAppend(before: seq<Record>, r: Record)
    requires DistinctKeys(before) && !HasKey(before, r.key)
    ensures DistinctKeys(before + [r])
  {
  }

  lemma AppendedRecord(before: seq<Record>, r: Record, records: seq<Record>)
    requires before + [r] <= records
    ensures before <= records && records[|before|..] == [r] + records[|before| + 1..]
  {
    assert records[|before|] == (before + [r])[|before|];
    assert before <= before + [r];
  }

  lemma ReadMagicPrefix(rest: seq<Byte>)
    ensures ReadMagic([71, 88, 69, WIRE_VERSION] + rest) == Ok(((), rest))
  {
    PowersOf256();
    var magic: seq<Byte> := [71, 88, 69, WIRE_VERSION];
    var r3 := [WIRE_VERSION] + rest;
    var r2 := [69] + r3;
    var r1 := [88] + r2;
    assert magic + rest == [71] + r1;
    ReadBytePrefix(71, r1);
    ReadBytePrefix(88, r2);
    ReadBytePrefix(69, r3);
    ReadBytePrefix(WIRE_VERSION, rest);
  }

  lemma ReadBytePrefix(b: Byte, rest: seq<Byte>)
    ensures ReadInteger([b] + rest, 1) == Ok((b, rest))
  {
    PowersOf256();
    SingleByte(b);
    ReadIntegerPrefix(b, 1, rest);
  }

  lemma SingleByte(b: Byte)
    ensures BigEndian(b, 1) == [b]
  {
    assert BigEndian(b / 256, 0) == [];
  }

  lemma ReadByteExact(bytes: seq<Byte>)
    requires ReadInteger(bytes, 1).Ok?
    ensures bytes == [ReadInteger(bytes, 1).value.0] + ReadInteger(bytes, 1).value.1
  {
    ReadIntegerExact(bytes, 1);
    PowersOf256();
    SingleByte(ReadInteger(bytes, 1).value.0);
  }

  lemma ReadMagicExact(bytes: seq<Byte>)
    requires ReadMagic(bytes).Ok?
    ensures bytes == [71, 88, 69, WIRE_VERSION] + ReadMagic(bytes).value.1
  {
    ReadByteExact(bytes);
    var r1 := ReadInteger(bytes, 1).value.1;
    ReadByteExact(r1);
    var r2 := ReadInteger(r1, 1).value.1;
    ReadByteExact(r2);
    var r3 := ReadInteger(r2, 1).value.1;
    ReadByteExact(r3);
  }

  lemma ReadHeadPrefix(p: Packet, rest: seq<Byte>)
    requires WellFormed(p)
    ensures ReadHead(HeadBytes(p) + rest) == Ok((p.(kind := [], records := [], payload := []), rest))
  {
    PowersOf256();
    var b5 := p.parentId + rest;
    var b4 := p.traceId + b5;
    var b3 := p.messageId + b4;
    var b2 := BigEndian(p.timestamp, 8) + b3;
    var b1 := BigEndian(p.sequence, 8) + b2;
    assert HeadBytes(p) + rest == [71, 88, 69, WIRE_VERSION] + b1;
    ReadMagicPrefix(b1);
    ReadIntegerPrefix(p.sequence, 8, b2);
    ReadIntegerPrefix(p.timestamp, 8, b3);
    ReadIdentityPrefix(p.messageId, false, b4);
    ReadIdentityPrefix(p.traceId, false, b5);
    ReadIdentityPrefix(p.parentId, true, rest);
  }

  lemma ReadIdentityExact(bytes: seq<Byte>, optional: bool)
    requires ReadIdentity(bytes, optional).Ok?
    ensures var (raw, rest) := ReadIdentity(bytes, optional).value;
      bytes == raw + rest && |raw| == Identity.RAW_LENGTH && (optional || !Identity.AllZero(raw))
  {
  }

  lemma ReadHeadExact(bytes: seq<Byte>)
    requires ReadHead(bytes).Ok?
    ensures var (head, rest) := ReadHead(bytes).value;
      && bytes == HeadBytes(head) + rest
      && |head.messageId| == |head.traceId| == |head.parentId| == Identity.RAW_LENGTH
      && !Identity.AllZero(head.messageId) && !Identity.AllZero(head.traceId)
  {
    ReadMagicExact(bytes);
    var b1 := ReadMagic(bytes).value.1;
    ReadIntegerExact(b1, 8);
    var b2 := ReadInteger(b1, 8).value.1;
    ReadIntegerExact(b2, 8);
    var b3 := ReadInteger(b2, 8).value.1;
    ReadIdentityExact(b3, false);
    var (m, b4) := ReadIdentity(b3, false).value;
    ReadIdentityExact(b4, false);
    var (t, b5) := ReadIdentity(b4, false).value;
    ReadIdentityExact(b5, true);
    var (p, b6) := ReadIdentity(b5, true).value;
    var s, n := BigEndian(ReadInteger(b1, 8).value.0, 8), BigEndian(ReadInteger(b2, 8).value.0, 8);
    SixParts([71, 88, 69, WIRE_VERSION], s, n, m, t, p, b6);
  }

  lemma SixParts(a: seq<Byte>, b: seq<Byte>, c: seq<Byte>, d: seq<Byte>, e: seq<Byte>, f: seq<Byte>, rest: seq<Byte>)
    ensures a + (b + (c + (d + (e + (f + rest))))) == (a + (b + (c + (d + (e + f))))) + rest
  {
    FiveParts(b, c, d, e, f, rest);
    Associative(a, b + (c + (d + (e + f))), rest);
  }

  lemma FiveParts(a: seq<Byte>, b: seq<Byte>, c: seq<Byte>, d: seq<Byte>, e: seq<Byte>, rest: seq<Byte>)
    ensures a + (b + (c + (d + (e + rest)))) == (a + (b + (c + (d + e)))) + rest
  {
    Associative(d, e, rest);
    Associative(c, d + e, rest);
    Associative(b, c + (d + e), rest);
    Associative(a, b + (c + (d + e)), rest);
  }

  /** Every well-formed packet is read back from its bytes. */
  lemma PacketRoundTrip(p: Packet)
    requires WellFormed(p)
    ensures ReadPacket(PacketBytes(p)) == Ok(p)
  {
    PacketLength(p);
    PowersOf256();
    var b3 := StringBytes(p.payload);
    var b2 := RecordsBytes(p.records) + b3;
    var b1 := BigEndian(|p.records|, 4) + b2;
    ReadHeadPrefix(p, StringBytes(p.kind) + b1);
    ReadStringPrefix(p.kind, b1);
    ReadIntegerPrefix(|p.records|, 4, b2);
    assert [] + p.records == p.records;
    ReadRecordsPrefix([], p.records, b3);
    ReadStringPrefix(p.payload, []);
    assert b3 + [] == b3;
  }

  /** Every accepted byte string is the bytes of the packet read from it. */
  lemma PacketExact(bytes: seq<Byte>)
    requires ReadPacket(bytes).Ok?
    ensures WellFormed(ReadPacket(bytes).value)
    ensures bytes == PacketBytes(ReadPacket(bytes).value)
  {
    ReadHeadExact(bytes);
    var (head, body) := ReadHead(bytes).value;
    ReadBodyExact(head, body);
    var p := ReadPacket(bytes).value;
    assert HeadBytes(p) == HeadBytes(head);
    PacketLength(p);
  }

  lemma ReadBodyExact(head: Packet, body: seq<Byte>)
    requires ReadBody(head, body).Ok?
    ensures var p := ReadBody(head, body).value;
      && p == head.(kind := p.kind, records := p.records, payload := p.payload)
      && |p.records| <= MAX_ATTRIBUTES && DistinctKeys(p.records)
      && body == StringBytes(p.kind) + (BigEndian(|p.records|, 4) + (RecordsBytes(p.records) + StringBytes(p.payload)))
  {
    ReadStringExact(body);
    var b1 := ReadString(body).value.1;
    ReadIntegerExact(b1, 4);
    var (count, b2) := ReadInteger(b1, 4).value;
    ReadAllRecordsExact(b2, count);
    var b3 := ReadRecords(b2, [], count).value.1;
    ReadLastStringExact(b3);
  }

  lemma ReadAllRecordsExact(bytes: seq<Byte>, count: nat)
    requires ReadRecords(bytes, [], count).Ok?
    ensures var (records, rest) := ReadRecords(bytes, [], count).value;
      |records| == count && DistinctKeys(records) && bytes == RecordsBytes(records) + rest
  {
    ReadRecordsExact(bytes, [], count);
    WholeSlice(ReadRecords(bytes, [], count).value.0);
  }

  lemma ReadLastStringExact(bytes: seq<Byte>)
    requires ReadString(bytes).Ok? && ReadString(bytes).value.1 == []
    ensures bytes == StringBytes(ReadString(bytes).value.0)
  {
    ReadStringExact(bytes);
    assert StringBytes(ReadString(bytes).value.0) + [] == StringBytes(ReadString(bytes).value.0);
  }

  // ----- envelopes -----

  ghost function ToPacket(e: Envelope): (p: Packet)
    requires Identity.IsCanonical(e.messageId) && Identity.IsCanonical(e.traceId)
    requires e.parentMessageId == [] || Identity.IsCanonical(e.parentMessageId)
  {
    Packet(e.sequence, Unsigned(e.timestampNs), Identity.ToWire(e.messageId), Identity.ToWire(e.traceId),
           Identity.ToWire(e.parentMessageId), e.kind, Canonical(e.attributes), e.payload)
  }

  ghost function ToEnvelope(p: Packet): (e: Envelope)
    requires |p.messageId| == |p.traceId| == |p.parentId| == Identity.RAW_LENGTH
  {
    Envelope(p.sequence, Signed(p.timestamp), p.kind, Identity.FromWire(p.traceId), AsMap(p.records),
             p.payload, Identity.FromWire(p.messageId), Identity.FromWire(p.parentId), WIRE_VERSION)
  }

  ghost function EncodedSize(e: Envelope): nat {
    FIXED_BYTES + 4 + |e.kind| + RecordBytes(Canonical(e.attributes)) + 4 + |e.payload|
  }

  /** `serialized_size`: predicts the size without looking at the identities. */
  ghost function SerializedSize(e: Envelope): Result<nat, WireError> {
    if e.wireVersion != WIRE_VERSION then Err(UnsupportedVersion)
    else if |e.attributes| > MAX_ATTRIBUTES then Err(TooManyAttributes)
    else if EncodedSize(e) > MAX_FRAME_BYTES then Err(TooLarge)
    else Ok(EncodedSize(e))
  }

  ghost predicate IdentitiesValid(e: Envelope) {
    && Identity.IsCanonical(e.messageId) && Identity.IsCanonical(e.traceId)
    && (e.parentMessageId == [] || Identity.IsCanonical(e.parentMessageId))
  }

  ghost function Serialize(e: Envelope): Result<seq<Byte>, WireError> {
    var size :- SerializedSize(e);
    if !IdentitiesValid(e) then Err(BadIdentity) else Ok(PacketBytes(ToPacket(e)))
  }

  ghost function Deserialize(bytes: seq<Byte>): Result<Envelope, WireError> {
    var p :- ReadPacket(bytes);
    PacketExact(bytes);
    Ok(ToEnvelope(p))
  }

  lemma EnvelopeOfPacket(e: Envelope)
    requires IdentitiesValid(e) && e.wireVersion == WIRE_VERSION
    ensures ToEnvelope(ToPacket(e)) == e
  {
    Identity.FromWireToWire(e.messageId);
    Identity.FromWireToWire(e.traceId);
    Identity.FromWireToWire(e.parentMessageId);
    CanonicalCorrect(e.attributes);
  }

  lemma PacketOfEnvelope(p: Packet)
    requires WellFormed(p)
    ensures IdentitiesValid(ToEnvelope(p))
    ensures ToPacket(ToEnvelope(p)) == p.(records := Canonical(AsMap(p.records)))
  {
    Identity.ToWireFromWire(p.messageId);
    Identity.ToWireFromWire(p.traceId);
    Identity.ToWireFromWire(p.parentId);
  }

  ghost predicate Serializable(e: Envelope) {
    && e.wireVersion == WIRE_VERSION && |e.attributes| <= MAX_ATTRIBUTES
    && EncodedSize(e) <= MAX_FRAME_BYTES && IdentitiesValid(e)
  }

  lemma SerializableIsWellFormed(e: Envelope)
    requires Serializable(e)
    ensures WellFormed(ToPacket(e)) && PacketSize(ToPacket(e)) == EncodedSize(e)
  {
    Identity.FromWireToWire(e.messageId);
    Identity.FromWireToWire(e.traceId);
    CanonicalCorrect(e.attributes);
  }

  /**
   Main result, writing side: serialization succeeds exactly on a version-2 envelope within the limits
   with valid identities; it then yields the predicted number of bytes and deserializes to the same
   envelope, negative timestamp and absent parent included.
   */
  lemma SerializeRoundTrip(e: Envelope)
    ensures Serialize(e).Ok? <==> Serializable(e)
    ensures Serialize(e).Ok? ==>
      && SerializedSize(e) == Ok(|Serialize(e).value|)
      && |Serialize(e).value| >= FIXED_BYTES + 8
      && Deserialize(Serialize(e).value) == Ok(e)
  {
    if Serializable(e) {
      SerializableIsWellFormed(e);
      PacketLength(ToPacket(e));
      PacketRoundTrip(ToPacket(e));
      EnvelopeOfPacket(e);
    }
  }

  /** The attribute records of an accepted byte string, in wire order. */
  ghost function WireRecords(bytes: seq<Byte>): seq<Record>
    requires Deserialize(bytes).Ok?
  {
    ReadPacket(bytes).value.records
  }

  /**
   Main result, reading side: an accepted byte string re-serializes to the same length and meaning, and to
   the very same bytes exactly when its attribute records were in increasing key order.
   */
  lemma DeserializeRoundTrip(bytes: seq<Byte>)
    requires Deserialize(bytes).Ok?
    ensures var e := Deserialize(bytes).value;
      && Serialize(e).Ok?
      && |Serialize(e).value| == |bytes|
      && Deserialize(Serialize(e).value) == Ok(e)
      && (Serialize(e).value == bytes <==> StrictlySorted(WireRecords(bytes)))
  {
    ReadingIsWriting(bytes);
    SerializeRoundTrip(Deserialize(bytes).value);
    SameBytesIffSorted(bytes);
  }

  /** What was accepted can be written again, with the same number of bytes. */
  lemma ReadingIsWriting(bytes: seq<Byte>)
    requires Deserialize(bytes).Ok?
    ensures var e := Deserialize(bytes).value;
      && Serializable(e) && EncodedSize(e) == |bytes|
      && DistinctKeys(WireRecords(bytes)) && e.attributes == AsMap(WireRecords(bytes))
  {
    var p := ReadPacket(bytes).value;
    PacketExact(bytes);
    PacketOfEnvelope(p);
    PacketLength(p);
    EnumerationSize(p.records);
    SortIgnoresEnumerationOrder(p.records, AsMap(p.records));
  }

  lemma SameBytesIffSorted(bytes: seq<Byte>)
    requires Deserialize(bytes).Ok? && Serializable(Deserialize(bytes).value)
    ensures Serialize(Deserialize(bytes).value).value == bytes <==> StrictlySorted(WireRecords(bytes))
  {
    var p := ReadPacket(bytes).value;
    PacketExact(bytes);
    PacketOfEnvelope(p);
    SerializableIsWellFormed(ToEnvelope(p));
    CanonicalIffSorted(p.records);
    SamePacket(p, ToPacket(ToEnvelope(p)));
  }

  /** The bytes of a packet determine it. */
  lemma SamePacket(p: Packet, q: Packet)
    requires WellFormed(p) && WellFormed(q)
    ensures PacketBytes(p) == PacketBytes(q) <==> p == q
  {
    PacketRoundTrip(p);
    PacketRoundTrip(q);
  }

  /** Distinct envelopes have distinct wire forms. */
  lemma SerializeInjective(a: Envelope, b: Envelope)
    requires Serialize(a).Ok? && Serialize(b).Ok? && Serialize(a).value == Serialize(b).value
    ensures a == b
  {
    SerializeRoundTrip(a);
    SerializeRoundTrip(b);
  }
}
