/** Length-prefixed frames and the envelope inside a frame. */
module Framing {
  import opened Bytes
  import opened EnvelopeFormat
  import EnvelopeCodec
  import Attributes

  datatype FrameError = FrameTooLarge | PrefixMismatch | Malformed(wire: WireError)

  const PREFIX_BYTES: nat := 4

  function FrameBytes(payload: seq<Byte>): seq<Byte> {
    BigEndian(|payload|, PREFIX_BYTES) + payload
  }

  method Frame(payload: seq<Byte>) returns (r: Result<seq<Byte>, FrameError>)
    ensures r == if |payload| > MAX_FRAME_BYTES then Err(FrameTooLarge) else Ok(FrameBytes(payload))
  {
    if |payload| > MAX_FRAME_BYTES {
      return Err(FrameTooLarge);
    }
    var out := PutBigEndian([], |payload|, PREFIX_BYTES);
    assert out == BigEndian(|payload|, PREFIX_BYTES);
    return Ok(out + payload);
  }

  function DecodedSize(prefix: seq<Byte>): Result<nat, FrameError>
    requires |prefix| == PREFIX_BYTES
  {
    var size := BigEndianValue(prefix);
    if size > MAX_FRAME_BYTES then Err(FrameTooLarge) else Ok(size)
  }

  method DecodeFrameSize(prefix: seq<Byte>) returns (r: Result<nat, FrameError>)
    requires |prefix| == PREFIX_BYTES
    ensures r == DecodedSize(prefix)
  {
    var size: nat := 0;
    for i := 0 to |prefix|
      invariant size == BigEndianValue(prefix[..i])
    {
      assert prefix[..i + 1][..i] == prefix[..i];
      size := size * 256 + prefix[i];
    }
    assert prefix[..|prefix|] == prefix;
    return if size > MAX_FRAME_BYTES then Err(FrameTooLarge) else Ok(size);
  }

  lemma PrefixDecodes(payload: seq<Byte>)
    requires |payload| <= MAX_FRAME_BYTES
    ensures DecodedSize(FrameBytes(payload)[..PREFIX_BYTES]) == Ok(|payload|)
    ensures FrameBytes(payload)[PREFIX_BYTES..] == payload
  {
    PowersOf256();
    BigEndianRoundTrip(|payload|, PREFIX_BYTES);
    assert FrameBytes(payload)[..PREFIX_BYTES] == BigEndian(|payload|, PREFIX_BYTES);
  }

  // ----- the frame of an envelope -----

  ghost function EnvelopeFrame(e: Envelope): (f: seq<Byte>)
    requires Serializable(e)
  {
    SerializeRoundTrip(e);
    FrameBytes(Serialize(e).value)
  }

  ghost predicate FrameIs(framed: seq<Byte>, e: Envelope) {
    Serializable(e) && framed == EnvelopeFrame(e)
  }

  lemma EnvelopePayload(e: Envelope)
    requires Serializable(e)
    ensures Serialize(e).Ok? && |Serialize(e).value| <= MAX_FRAME_BYTES
    ensures EnvelopeFrame(e) == FrameBytes(Serialize(e).value)
  {
    SerializeRoundTrip(e);
  }

  /** What a receiver makes of one whole frame. */
  ghost function OpenFrame(framed: seq<Byte>): Result<Envelope, FrameError> {
    if |framed| < PREFIX_BYTES then Err(PrefixMismatch)
    else
      var size :- DecodedSize(framed[..PREFIX_BYTES]);
      if size != |framed| - PREFIX_BYTES then Err(PrefixMismatch)
      else match Deserialize(framed[PREFIX_BYTES..])
        case Ok(e) => Ok(e)
        case Err(w) => Err(Malformed(w))
  }

  method OpenFramed(framed: seq<Byte>) returns (r: Result<Envelope, FrameError>)
    requires |framed| >= PREFIX_BYTES
    ensures r == OpenFrame(framed)
  {
    var size :- DecodeFrameSize(framed[..PREFIX_BYTES]);
    if size != |framed| - PREFIX_BYTES {
      return Err(PrefixMismatch);
    }
    var e := EnvelopeCodec.DeserializeBytes(framed[PREFIX_BYTES..]);
    return match e case Ok(v) => Ok(v) case Err(w) => Err(Malformed(w));
  }

  /** Serialization and framing as one step; fails exactly on what cannot be serialized. */
  method FrameEnvelope(e: Envelope, enumeration: seq<Attributes.Record>)
    returns (r: Result<seq<Byte>, FrameError>)
    requires Attributes.Enumerates(enumeration, e.attributes)
    ensures r.Ok? <==> Serializable(e)
    ensures r.Ok? ==> r.value == EnvelopeFrame(e) && |r.value| >= PREFIX_BYTES
  {
    SerializeRoundTrip(e);
    var bytes := EnvelopeCodec.SerializeEnvelope(e, enumeration);
    if bytes.Err? {
      return Err(Malformed(bytes.error));
    }
    r := Frame(bytes.value);
  }

  /** An envelope survives framing, and its frame's size is known in advance. */
  lemma FrameRoundTrip(e: Envelope)
    requires Serializable(e)
    ensures OpenFrame(EnvelopeFrame(e)) == Ok(e)
    ensures |EnvelopeFrame(e)| == PREFIX_BYTES + EncodedSize(e)
    ensures |EnvelopeFrame(e)| >= 84
  {
    SerializeRoundTrip(e);
    PrefixDecodes(Serialize(e).value);
  }
}
