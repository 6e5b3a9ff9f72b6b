/**
 The comment attached to each captured frame: the full metadata when it fits one option, a short form
 otherwise, so that recording a frame never fails on the comment's length.
 */
module CaptureComment {
  import opened Bytes
  import opened Pcapng
  import opened CaptureWriter
  import ConfigJson

  function Ascii(s: string): (t: Text)
    ensures |t| == |s|
  {
    seq(|s|, i requires 0 <= i < |s| => s[i] as int % 256)
  }

  // ----- escaping -----

  function EscapedByte(c: Byte): (e: Text)
    ensures 1 <= |e| <= 6
  {
    if c == 92 || c == 34 then [92, c]
    else if c == 10 then [92, 110]
    else if c == 13 then [92, 114]
    else if c == 9 then [92, 116]
    else if c < 32 || c >= 127 then [92, 117, 48, 48, HexDigit(c / 16), HexDigit(c % 16)]
    else [c]
  }

  function Escaped(s: Text): Text {
    if s == [] then [] else Escaped(s[..|s| - 1]) + EscapedByte(s[|s| - 1])
  }

  lemma {:induction false} EscapedMonotone(s: Text, n: nat)
    requires n <= |s|
    ensures |Escaped(s[..n])| <= |Escaped(s)|
    decreases |s|
  {
    if n == |s| {
      assert s[..n] == s;
    } else {
      EscapedMonotone(s[..|s| - 1], n);
      assert s[..|s| - 1][..n] == s[..n];
    }
  }

  lemma EscapedStep(output: Text, value: Text, i: nat)
    requires i < |value|
    ensures output + Escaped(value[..i + 1]) == output + Escaped(value[..i]) + EscapedByte(value[i])
    ensures |Escaped(value[..i + 1])| == |Escaped(value[..i])| + |EscapedByte(value[i])|
  {
    assert value[..i + 1][..i] == value[..i];
    Associative(output, Escaped(value[..i]), EscapedByte(value[i]));
  }

  // ----- bounded appending -----

  method AppendBounded(output: Text, value: Text) returns (ok: bool, result: Text)
    ensures ok <==> |output| + |value| <= MAX_OPTION
    ensures result == if ok then output + value else output
  {
    if |output| > MAX_OPTION || |value| > MAX_OPTION - |output| {
      return false, output;
    }
    return true, output + value;
  }

  /** All of the escaped text is appended, or the call fails; it fails exactly when that would not fit. */
  method AppendEscapedJson(output: Text, value: Text) returns (ok: bool, result: Text)
    requires |output| <= MAX_OPTION
    ensures ok <==> |output| + |Escaped(value)| <= MAX_OPTION
    ensures ok ==> result == output + Escaped(value)
  {
    result := output;
    for i := 0 to |value|
      invariant result == output + Escaped(value[..i]) && |result| <= MAX_OPTION
    {
      EscapedStep(output, value, i);
      EscapedMonotone(value, i + 1);
      ok, result := AppendBounded(result, EscapedByte(value[i]));
      if !ok {
        return;
      }
    }
    assert value[..|value|] == value;
    return true, result;
  }

  // ----- the comment -----

  /** One link of the appending chain. */
  datatype Piece = Plain(text: Text) | Escape(text: Text)

  function PieceText(p: Piece): Text {
    match p
    case Plain(text) => text
    case Escape(text) => Escaped(text)
  }

  function Joined(pieces: seq<Piece>): Text {
    if pieces == [] then [] else Joined(pieces[..|pieces| - 1]) + PieceText(pieces[|pieces| - 1])
  }

  lemma {:induction false} JoinedMonotone(pieces: seq<Piece>, n: nat)
    requires n <= |pieces|
    ensures |Joined(pieces[..n])| <= |Joined(pieces)|
    decreases |pieces|
  {
    if n == |pieces| {
      assert pieces[..n] == pieces;
    } else {
      JoinedMonotone(pieces[..|pieces| - 1], n);
      assert pieces[..|pieces| - 1][..n] == pieces[..n];
    }
  }

  /** The chain succeeds exactly when everything fits, and then it has appended everything. */
  method AppendAll(pieces: seq<Piece>) returns (ok: bool, result: Text)
    ensures ok <==> |Joined(pieces)| <= MAX_OPTION
    ensures ok ==> result == Joined(pieces)
  {
    result := [];
    for i := 0 to |pieces|
      invariant result == Joined(pieces[..i]) && |result| <= MAX_OPTION
    {
      assert pieces[..i + 1][..i] == pieces[..i];
      JoinedMonotone(pieces, i + 1);
      match pieces[i] {
        case Plain(text) => ok, result := AppendBounded(result, text);
        case Escape(text) => ok, result := AppendEscapedJson(result, text);
      }
      if !ok {
        return;
      }
    }
    assert pieces[..|pieces|] == pieces;
    return true, result;
  }

  datatype Metadata = Metadata(sequence: Uint64, wireVersion: Byte, messageId: Text, parentMessageId: Text,
                               traceId: Text, kind: Text)

  function Pieces(edge: Text, direction: Text, m: Metadata): seq<Piece> {
    [Plain(Ascii("{\"graphx\":{\"edge\":\"")), Escape(edge),
     Plain(Ascii("\",\"direction\":\"")), Escape(direction),
     Plain(Ascii("\",\"sequence\":")), Plain(ConfigJson.Digits(m.sequence)),
     Plain(Ascii(",\"wire_version\":")), Plain(ConfigJson.Digits(m.wireVersion)),
     Plain(Ascii(",\"message_id\":\"")), Escape(m.messageId),
     Plain(Ascii("\",\"parent_message_id\":\"")), Escape(m.parentMessageId),
     Plain(Ascii("\",\"trace_id\":\"")), Escape(m.traceId),
     Plain(Ascii("\",\"type\":\"")), Escape(m.kind), Plain(Ascii("\"}}"))]
  }

  function ShortForm(m: Metadata): Text {
    Ascii("{\"graphx\":{\"metadata_truncated\":true,\"sequence\":") + ConfigJson.Digits(m.sequence)
    + Ascii(",\"wire_version\":") + ConfigJson.Digits(m.wireVersion) + Ascii("}}")
  }

  function Power10(n: nat): nat {
    if n == 0 then 1 else 10 * Power10(n - 1)
  }

  lemma {:induction false} DigitsBound(n: nat, k: nat)
    requires k >= 1 && n < Power10(k)
    ensures |ConfigJson.Digits(n)| <= k
  {
    if n >= 10 {
      assert Power10(k) == 10 * Power10(k - 1);
      assert k == 1 ==> Power10(k) == 10;
      DigitsBound(n / 10, k - 1);
    }
  }

  lemma TwentyDigits()
    ensures Power10(20) == 100000000000000000000
  {
    assert Power10(5) == 100000;
    assert Power10(10) == 10000000000;
    assert Power10(15) == 1000000000000000;
  }

  lemma ShortFormFits(m: Metadata)
    ensures |ShortForm(m)| <= MAX_OPTION
  {
    TwentyDigits();
    DigitsBound(m.sequence, 20);
    DigitsBound(m.wireVersion, 20);
  }

  ghost function Comment(edge: Text, direction: Text, m: Metadata): Text {
    var full := Joined(Pieces(edge, direction, m));
    if |full| <= MAX_OPTION then full else ShortForm(m)
  }

  /** The full comment exactly when it fits an option, else the short form; either way it fits. */
  method CommentFor(edge: Text, direction: Text, m: Metadata) returns (comment: Text)
    ensures |comment| <= MAX_OPTION && comment == Comment(edge, direction, m)
  {
    var ok, result := AppendAll(Pieces(edge, direction, m));
    if ok {
      return result;
    }
    ShortFormFits(m);
    return ShortForm(m);
  }

  function Direction(sent: bool): Text {
    if sent then Ascii("sent") else Ascii("received")
  }

  /** The packet a frame is recorded as. */
  ghost function FramePacket(edge: Text, frame: seq<Byte>, snaplen: Uint32, nanoseconds: Int64, sent: bool,
                             m: Metadata): Packet {
    PacketFor(frame, snaplen, nanoseconds, Comment(edge, Direction(sent), m))
  }

  /**
   Recording a frame fails only on the packet limit, the file limit or a write error. The file keeps its shape
   when the block fits 32 bits, which up to `AMPLE` captured bytes it always does.
   */
  method RecordFrame(writer: Writer, edge: Text, frame: seq<Byte>, nanoseconds: Int64, sent: bool,
                     m: Metadata, io: Io) returns (outcome: Outcome)
    requires writer.Valid() && writer.Structured()
    modifies writer
    ensures outcome in {Recorded, PacketLimit, FileLimit, WriteFailed}
    ensures outcome.Recorded? ==> var b := PacketBlock(FramePacket(edge, frame, writer.snaplen, nanoseconds, sent, m));
      writer.blocks == old(writer.blocks) + [b] && (Fits(b.body) ==> writer.Valid() && writer.Structured())
    ensures outcome.Recorded? && Min(|frame|, writer.snaplen) <= AMPLE ==> writer.Valid() && writer.Structured()
    ensures !outcome.Recorded? && (io.truncates || !outcome.WriteFailed?) ==> writer.Valid() && writer.Structured()
    ensures writer.packets == old(writer.packets) + if outcome.Recorded? then 1 else 0
    ensures !outcome.Recorded? ==> writer.blocks == old(writer.blocks)
  {
    var comment := CommentFor(edge, Direction(sent), m);
    if Min(|frame|, writer.snaplen) <= AMPLE {
      AmpleFits(PacketFor(frame, writer.snaplen, nanoseconds, comment));
    }
    outcome := writer.Record(frame, nanoseconds, comment, io);
  }
}
