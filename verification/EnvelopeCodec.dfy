/** The loops of the envelope codec: byte vectors grown in place and a reader that advances a position. */
module EnvelopeCodec {
  import opened Bytes
  import opened Attributes
  import opened EnvelopeFormat
  import Identity

  // ----- size prediction -----

  method CheckedAdd(total: nat, amount: nat) returns (r: Result<nat, WireError>)
    ensures r == if total + amount > MAX_FRAME_BYTES then Err(TooLarge) else Ok(total + amount)
  {
    if amount > MAX_FRAME_BYTES || total > MAX_FRAME_BYTES - amount {
      return Err(TooLarge);
    }
    return Ok(total + amount);
  }

  method CheckedStringSize(total: nat, size: nat) returns (r: Result<nat, WireError>)
    ensures r == if total + 4 + size > MAX_FRAME_BYTES then Err(TooLarge) else Ok(total + 4 + size)
  {
    var prefixed :- CheckedAdd(total, 4);
    r := CheckedAdd(prefixed, size);
  }

  lemma {:induction false} PartialRecordBytes(records: seq<Record>, n: nat)
    requires n <= |records|
    ensures RecordBytes(records[..n]) <= RecordBytes(records)
  {
    RecordBytesSplit(records[..n], records[n..]);
    assert records == records[..n] + records[n..];
  }

  method AddRecordSizes(start: nat, records: seq<Record>) returns (r: Result<nat, WireError>)
    ensures r == if start + RecordBytes(records) > MAX_FRAME_BYTES && records != [] then Err(TooLarge)
                 else Ok(start + RecordBytes(records))
  {
    var total := start;
    for i := 0 to |records|
      invariant total == start + RecordBytes(records[..i])
      invariant i > 0 ==> total <= MAX_FRAME_BYTES
    {
      PartialRecordBytes(records, i + 1);
      assert records[..i + 1][..i] == records[..i];
      total :- CheckedStringSize(total, |records[i].key|);
      total :- CheckedStringSize(total, |records[i].value|);
    }
    assert records[..|records|] == records;
    return Ok(total);
  }

  /** The map may be enumerated in any order: the predicted size does not depend on it. */
  method ComputeSerializedSize(e: Envelope, enumeration: seq<Record>) returns (r: Result<nat, WireError>)
    requires Enumerates(enumeration, e.attributes)
    ensures r == SerializedSize(e)
  {
    EnumerationBytes(enumeration, e.attributes);
    if e.wireVersion != WIRE_VERSION {
      return Err(UnsupportedVersion);
    }
    if |enumeration| > MAX_ATTRIBUTES {
      return Err(TooManyAttributes);
    }
    r := AddSizes(|e.kind|, enumeration, |e.payload|);
  }

  lemma EnumerationBytes(records: seq<Record>, m: map<Text, Text>)
    requires Enumerates(records, m)
    ensures RecordBytes(records) == RecordBytes(Canonical(m)) && |records| == |m|
  {
    SortIgnoresEnumerationOrder(records, m);
  }

  /** The sum of all parts, failing as soon as it passes the limit. */
  method AddSizes(kind: nat, records: seq<Record>, payload: nat) returns (r: Result<nat, WireError>)
    ensures var size := FIXED_BYTES + 4 + kind + RecordBytes(records) + 4 + payload;
      r == if size > MAX_FRAME_BYTES then Err(TooLarge) else Ok(size)
  {
    var total :- CheckedStringSize(FIXED_BYTES, kind);
    total :- AddRecordSizes(total, records);
    r := CheckedStringSize(total, payload);
  }

  // ----- writing -----

  method PutString(out: seq<Byte>, value: Text) returns (r: Result<seq<Byte>, WireError>)
    ensures r == if |value| > MAX_UINT32 then Err(StringTooLong) else Ok(out + StringBytes(value))
  {
    if |value| > MAX_UINT32 {
      return Err(StringTooLong);
    }
    var result := PutBigEndian(out, |value|, 4);
    for i := 0 to |value|
      invariant result == out + BigEndian(|value|, 4) + value[..i]
    {
      result := result + [value[i]];
    }
    WholeSlice(value);
    Associative(out, BigEndian(|value|, 4), value);
    return Ok(result);
  }

  method SortAttributes(records: seq<Record>) returns (sorted: seq<Record>)
    ensures sorted == Sort(records)
  {
    sorted := [];
    for i := 0 to |records|
      invariant sorted == Sort(records[..i])
    {
      sorted := Insert(sorted, records[i]);
      assert records[..i + 1][..i] == records[..i];
    }
    assert records[..|records|] == records;
  }

  ghost function IdentityBytes(e: Envelope): seq<Byte>
    requires IdentitiesValid(e)
  {
    Identity.ToWire(e.messageId) + (Identity.ToWire(e.traceId) + Identity.ToWire(e.parentMessageId))
  }

  method PutIdentities(out: seq<Byte>, e: Envelope) returns (r: Result<seq<Byte>, WireError>)
    ensures r.Ok? <==> IdentitiesValid(e)
    ensures r.Ok? ==> r.value == out + IdentityBytes(e)
    ensures r.Err? ==> r.error == BadIdentity
  {
    var message := Identity.PutIdentity(out, e.messageId, false);
    if message.Err? {
      return Err(BadIdentity);
    }
    var trace := Identity.PutIdentity(message.value, e.traceId, false);
    if trace.Err? {
      return Err(BadIdentity);
    }
    var parent := Identity.PutIdentity(trace.value, e.parentMessageId, true);
    if parent.Err? {
      return Err(BadIdentity);
    }
    return Ok(parent.value);
  }

  predicate StringsFit(records: seq<Record>) {
    forall i :: 0 <= i < |records| ==> |records[i].key| <= MAX_UINT32 && |records[i].value| <= MAX_UINT32
  }

  lemma RecordsGrow(out: seq<Byte>, records: seq<Record>, i: nat)
    requires i < |records|
    ensures out + RecordsBytes(records[..i]) + StringBytes(records[i].key) + StringBytes(records[i].value)
         == out + RecordsBytes(records[..i + 1])
  {
    PrefixGrows(records, i);
    assert records[..i + 1][..i] == records[..i];
    BodyParts(out, RecordsBytes(records[..i]), StringBytes(records[i].key), StringBytes(records[i].value), []);
  }

  method PutRecords(out: seq<Byte>, records: seq<Record>) returns (r: Result<seq<Byte>, WireError>)
    ensures r == if StringsFit(records) then Ok(out + RecordsBytes(records)) else Err(StringTooLong)
  {
    var result := out;
    for i := 0 to |records|
      invariant StringsFit(records[..i]) && result == out + RecordsBytes(records[..i])
    {
      result :- PutString(result, records[i].key);
      result :- PutString(result, records[i].value);
      RecordsGrow(out, records, i);
    }
    WholeSlice(records);
    return Ok(result);
  }

  lemma SmallRecordsFit(records: seq<Record>)
    requires RecordBytes(records) <= MAX_FRAME_BYTES
    ensures StringsFit(records)
  {
    forall i | 0 <= i < |records| ensures |records[i].key| <= MAX_UINT32 && |records[i].value| <= MAX_UINT32 {
      PartialRecordBytes(records, i + 1);
      assert records[..i + 1][..i] == records[..i];
    }
  }

  method PutHead(e: Envelope) returns (r: Result<seq<Byte>, WireError>)
    requires e.wireVersion == WIRE_VERSION
    ensures r.Ok? <==> IdentitiesValid(e)
    ensures r.Ok? ==> r.value == HeadBytes(ToPacket(e))
    ensures r.Err? ==> r.error == BadIdentity
  {
    var magic: seq<Byte> := [71, 88, 69, e.wireVersion];
    var sequenced := PutBigEndian(magic, e.sequence, 8);
    var stamped := PutBigEndian(sequenced, Unsigned(e.timestampNs), 8);
    r := PutIdentities(stamped, e);
    if r.Ok? {
      ghost var s, t, ids := BigEndian(e.sequence, 8), BigEndian(Unsigned(e.timestampNs), 8), IdentityBytes(e);
      assert r.value == magic + s + t + ids == magic + (s + (t + ids));
    }
  }

  method PutBody(out: seq<Byte>, kind: Text, sorted: seq<Record>, payload: Text)
    returns (r: Result<seq<Byte>, WireError>)
    ensures r == if |kind| <= MAX_UINT32 && StringsFit(sorted) && |payload| <= MAX_UINT32
                 then Ok(out + (StringBytes(kind) + (BigEndian(|sorted|, 4)
                   + (RecordsBytes(sorted) + StringBytes(payload)))))
                 else Err(StringTooLong)
  {
    var result :- PutString(out, kind);
    result := PutBigEndian(result, |sorted|, 4);
    result :- PutRecords(result, sorted);
    BodyParts(out, StringBytes(kind), BigEndian(|sorted|, 4), RecordsBytes(sorted), StringBytes(payload));
    r := PutString(result, payload);
  }

  lemma BodyParts(out: seq<Byte>, a: seq<Byte>, b: seq<Byte>, c: seq<Byte>, d: seq<Byte>)
    ensures out + a + b + c + d == out + (a + (b + (c + d)))
  {
    Associative(out + a + b, c, d);
    Associative(out + a, b, c + d);
    Associative(out, a, b + (c + d));
  }

  /** `serialize`: the result is a function of the envelope alone, whatever order the map is enumerated in. */
  method SerializeEnvelope(e: Envelope, enumeration: seq<Record>) returns (r: Result<seq<Byte>, WireError>)
    requires Enumerates(enumeration, e.attributes)
    ensures r == Serialize(e)
  {
    var size :- ComputeSerializedSize(e, enumeration);
    var head :- PutHead(e);
    SortIgnoresEnumerationOrder(enumeration, e.attributes);
    var attributes := SortAttributes(enumeration);
    SmallRecordsFit(attributes);
    r := PutBody(head, e.kind, attributes, e.payload);
  }

  // ----- reading -----

  lemma HexStep(raw: seq<Byte>, b: Byte)
    ensures Identity.HexText(raw + [b])
      == Identity.HexText(raw) + [HexDigit(b / 16)] + [HexDigit(b % 16)]
    ensures Identity.AllZero(raw + [b]) <==> Identity.AllZero(raw) && b == 0
  {
    Identity.HexTextAppend(raw, b);
    if Identity.AllZero(raw + [b]) {
      assert (raw + [b])[|raw|] == b && forall i :: 0 <= i < |raw| ==> (raw + [b])[i] == raw[i];
    }
  }

  class Reader {
    const bytes: seq<Byte>
    var position: nat

    ghost predicate Valid()
      reads this
    {
      position <= |bytes|
    }

    ghost function Rest(): seq<Byte>
      requires Valid()
      reads this
    {
      bytes[position..]
    }

    constructor (bytes: seq<Byte>)
      ensures Valid() && Rest() == bytes
    {
      this.bytes := bytes;
      position := 0;
    }

    /** Big-endian integer of `width` bytes: consumed whole, or not at all when the input is too short. */
    method Get(width: nat) returns (r: Result<nat, WireError>)
      requires Valid()
      modifies this
      ensures Valid()
      ensures match ReadInteger(old(Rest()), width)
              case Ok(read) => r == Ok(read.0) && Rest() == read.1
              case Err(e) => r == Err(e) && Rest() == old(Rest())
    {
      if width > |bytes| - position {
        return Err(Truncated);
      }
      ghost var start := position;
      var value: nat := 0;
      for i := 0 to width
        invariant Valid() && position == start + i <= |bytes|
        invariant value == BigEndianValue(bytes[start..start + i])
      {
        value := value * 256 + bytes[position];
        position := position + 1;
        assert bytes[start..start + i + 1][..i] == bytes[start..start + i];
      }
      assert bytes[start..][..width] == bytes[start..start + width];
      return Ok(value);
    }

    method String() returns (r: Result<Text, WireError>)
      requires Valid()
      modifies this
      ensures Valid()
      ensures match ReadString(old(Rest()))
              case Ok(read) => r == Ok(read.0) && Rest() == read.1
              case Err(e) => r == Err(e)
    {
      var size :- Get(4);
      if size > |bytes| - position {
        return Err(Truncated);
      }
      var text := bytes[position..position + size];
      assert text == Rest()[..size];
      position := position + size;
      return Ok(text);
    }

    /** Sixteen bytes as hexadecimal text, and whether they are all zero. */
    method TakeHex() returns (value: Text, zero: bool)
      requires Valid() && Identity.RAW_LENGTH <= |bytes| - position
      modifies this`position
      ensures Valid() && Rest() == old(Rest())[Identity.RAW_LENGTH..]
      ensures value == Identity.HexText(old(Rest())[..Identity.RAW_LENGTH])
      ensures zero <==> Identity.AllZero(old(Rest())[..Identity.RAW_LENGTH])
    {
      ghost var start, raw := position, [];
      zero, value := true, [];
      for i := 0 to Identity.RAW_LENGTH
        invariant Valid() && position == start + i <= |bytes| && raw == bytes[start..position]
        invariant value == Identity.HexText(raw)
        invariant zero <==> Identity.AllZero(raw)
      {
        var byte := bytes[position];
        SliceGrows(bytes, start, position);
        HexStep(raw, byte);
        raw := raw + [byte];
        position := position + 1;
        zero := zero && byte == 0;
        value := value + [HexDigit(byte / 16)];
        value := value + [HexDigit(byte % 16)];
      }
      SliceOfRest(bytes, start, Identity.RAW_LENGTH);
    }

    method ReadHexIdentity(optional: bool) returns (r: Result<Text, WireError>)
      requires Valid()
      modifies this
      ensures Valid()
      ensures match ReadIdentity(old(Rest()), optional)
              case Ok(read) => r == Ok(Identity.FromWire(read.0)) && Rest() == read.1
              case Err(e) => r == Err(e)
    {
      if Identity.RAW_LENGTH > |bytes| - position {
        return Err(Truncated);
      }
      var value, zero := TakeHex();
      if zero {
        return if optional then Ok([]) else Err(ZeroIdentity);
      }
      return Ok(value);
    }

    method Done() returns (done: bool)
      requires Valid()
      ensures done <==> Rest() == []
    {
      return position == |bytes|;
    }

    method CheckMagic() returns (r: Result<(), WireError>)
      requires Valid()
      modifies this
      ensures Valid()
      ensures match ReadMagic(old(Rest()))
              case Ok(read) => r == Ok(()) && Rest() == read.1
              case Err(e) => r == Err(e)
    {
      var g :- Get(1);
      if g != 71 {
        return Err(BadMagic);
      }
      var x :- Get(1);
      if x != 88 {
        return Err(BadMagic);
      }
      var e :- Get(1);
      if e != 69 {
        return Err(BadMagic);
      }
      var version :- Get(1);
      if version != WIRE_VERSION {
        return Err(UnsupportedVersion);
      }
      return Ok(());
    }

    /** Reads one record into the map built from the records seen so far. */
    method AddRecord(attributes: map<Text, Text>, ghost seen: seq<Record>, ghost left: nat)
      returns (r: Result<map<Text, Text>, WireError>, ghost next: Record)
      requires Valid() && left > 0 && attributes == AsMap(seen)
      modifies this
      ensures Valid()
      ensures r.Err? ==> ReadRecords(old(Rest()), seen, left) == Err(r.error)
      ensures r.Ok? ==> r.value == AsMap(seen + [next])
      ensures r.Ok? ==> ReadRecords(old(Rest()), seen, left) == ReadRecords(Rest(), seen + [next], left - 1)
    {
      next := Record([], []);
      ghost var r0 := Rest();
      var key := String();
      if key.Err? {
        return Err(key.error), next;
      }
      ghost var r1 := Rest();
      var value := String();
      if value.Err? {
        return Err(value.error), next;
      }
      RecordStep(r0, r1, Rest(), seen, left, key.value, value.value);
      if key.value in attributes {
        return Err(DuplicateKey), next;
      }
      next := Record(key.value, value.value);
      return Ok(attributes[key.value := value.value]), next;
    }

    /** Inserts `count` records into the hash map, failing on the first repeated key. */
    method Records(count: nat) returns (r: Result<map<Text, Text>, WireError>)
      requires Valid()
      modifies this
      ensures Valid()
      ensures match ReadRecords(old(Rest()), [], count)
              case Ok(read) => r == Ok(AsMap(read.0)) && Rest() == read.1
              case Err(e) => r == Err(e)
    {
      var attributes: map<Text, Text> := map[];
      ghost var seen: seq<Record> := [];
      ghost var whole, left := ReadRecords(Rest(), seen, count), count;
      for i := 0 to count
        invariant Valid() && left == count - i
        invariant attributes == AsMap(seen)
        invariant whole == ReadRecords(Rest(), seen, left)
      {
        ghost var next;
        attributes, next :- AddRecord(attributes, seen, left);
        seen, left := seen + [next], left - 1;
      }
      return Ok(attributes);
    }
  }

  /** One more record: a repeated key ends the reading, any other extends the map. */
  lemma RecordStep(r0: seq<Byte>, r1: seq<Byte>, r2: seq<Byte>, seen: seq<Record>, left: nat, key: Text, value: Text)
    requires left > 0 && ReadString(r0) == Ok((key, r1)) && ReadString(r1) == Ok((value, r2))
    ensures key in AsMap(seen) <==> HasKey(seen, key)
    ensures AsMap(seen + [Record(key, value)]) == AsMap(seen)[key := value]
    ensures ReadRecords(r0, seen, left)
      == if HasKey(seen, key) then Err(DuplicateKey) else ReadRecords(r2, seen + [Record(key, value)], left - 1)
  {
    var seen' := seen + [Record(key, value)];
    assert seen'[..|seen|] == seen;
  }

  method ReadFields(reader: Reader) returns (r: Result<Envelope, WireError>)
    requires reader.Valid()
    modifies reader
    ensures reader.Valid()
    ensures match ReadHead(old(reader.Rest()))
            case Ok(read) =>
              (ReadHeadExact(old(reader.Rest()));
               r == Ok(ToEnvelope(read.0)) && reader.Rest() == read.1)
            case Err(e) => r == Err(e)
  {
    ghost var start := reader.Rest();
    var _ :- reader.CheckMagic();
    var sequence :- reader.Get(8);
    var timestamp :- reader.Get(8);
    PowersOf256();
    var messageId :- reader.ReadHexIdentity(false);
    var traceId :- reader.ReadHexIdentity(false);
    var parentId :- reader.ReadHexIdentity(true);
    return Ok(Envelope(sequence, Signed(timestamp), [], traceId, map[], [], messageId, parentId, WIRE_VERSION));
  }

  /** `deserialize` agrees with the reading functions on every byte string, errors included. */
  method DeserializeBytes(bytes: seq<Byte>) returns (r: Result<Envelope, WireError>)
    ensures r == Deserialize(bytes)
  {
    if |bytes| > MAX_FRAME_BYTES {
      return Err(TooLarge);
    }
    var reader := new Reader(bytes);
    var e :- ReadFields(reader);
    ghost var (head, body) := ReadHead(bytes).value;
    var kind :- reader.String();
    var count :- reader.Get(4);
    if count > MAX_ATTRIBUTES {
      return Err(TooManyAttributes);
    }
    var attributes :- reader.Records(count);
    var payload :- reader.String();
    var done := reader.Done();
    if !done {
      return Err(TrailingBytes);
    }
    ReadHeadExact(bytes);
    return Ok(e.(kind := kind, attributes := attributes, payload := payload));
  }
}
