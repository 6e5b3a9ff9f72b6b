/** The capture file writer: bounded, with rollback of a block that could not be written whole. */
module CaptureWriter {
  import opened Bytes
  import opened Pcapng
  import opened PartialWrites

  datatype Outcome = Recorded | PacketLimit | OptionTooLarge | FileLimit | WriteFailed | BadLimits

  /** How the descriptor behaves during one call: the writes, and whether a rollback can truncate. */
  datatype Io = Io(script: seq<WriteEvent>, truncates: bool)

  // ----- building blocks -----

  method Pad32(out: seq<Byte>) returns (result: seq<Byte>)
    ensures result == Padded(out)
  {
    result := out;
    ghost var n := 0;
    while |result| % 4 != 0
      invariant result == out + Zeros(n) && n <= Padding(|out|)
      decreases Padding(|out|) - n
    {
      assert out + Zeros(n) + [0] == out + Zeros(n + 1);
      result := result + [0];
      n := n + 1;
    }
    assert n == Padding(|out|);
  }

  lemma OptionBehindAligned(out: seq<Byte>, code: nat, value: Text)
    requires |out| % 4 == 0
    ensures Padded(out + LittleEndian(code, 2) + LittleEndian(|value|, 2) + value) == out + OptionBytes(code, value)
  {
    OptionShape(out, LittleEndian(code, 2), LittleEndian(|value|, 2), value);
  }

  lemma OptionShape(out: seq<Byte>, c: seq<Byte>, l: seq<Byte>, value: seq<Byte>)
    requires |out| % 4 == 0 && |c| == |l| == 2
    ensures Padded(out + c + l + value) == out + (c + l + Padded(value))
  {
    PaddedBehindAligned(out + c + l, value);
    BracketRight(out, c, l, Padded(value));
  }

  lemma BracketRight(out: seq<Byte>, c: seq<Byte>, l: seq<Byte>, value: seq<Byte>)
    ensures out + c + l + value == out + (c + l + value)
  {
  }

  /** Appends an option; the text is refused exactly when its length does not fit sixteen bits. */
  method PutOption(out: seq<Byte>, code: nat, value: Text) returns (r: Result<seq<Byte>, Outcome>)
    ensures r.Ok? <==> |value| <= MAX_OPTION
    ensures r.Ok? && |out| % 4 == 0 ==> r.value == out + OptionBytes(code, value)
    ensures r.Err? ==> r.error == OptionTooLarge
  {
    if |value| > MAX_OPTION {
      return Err(OptionTooLarge);
    }
    var bytes := PutLittleEndian(out, code, 2);
    bytes := PutLittleEndian(bytes, |value|, 2);
    bytes := Pad32(bytes + value);
    if |out| % 4 == 0 {
      OptionBehindAligned(out, code, value);
    }
    return Ok(bytes);
  }

  method MakeBlock(kind: Uint32, body: seq<Byte>) returns (bytes: seq<Byte>)
    ensures bytes == BlockBytes(Block(kind, body))
  {
    var total := (|body| + 12) % 0x1_0000_0000;
    bytes := PutLittleEndian([], kind, 4);
    bytes := PutLittleEndian(bytes, total, 4);
    bytes := bytes + body;
    bytes := PutLittleEndian(bytes, total, 4);
    assert [] + LittleEndian(kind, 4) == LittleEndian(kind, 4);
  }

  function Min(a: nat, b: nat): nat {
    if a < b then a else b
  }

  function PacketFor(bytes: seq<Byte>, snaplen: Uint32, nanoseconds: Int64, comment: Text): Packet {
    Packet(if nanoseconds < 0 then 0 else nanoseconds, bytes[..Min(|bytes|, snaplen)],
           Min(|bytes|, MAX_UINT32), comment)
  }

  function PacketBlock(p: Packet): (b: Block)
    ensures b.kind == ENHANCED_PACKET && |b.body| % 4 == 0
  {
    Block(ENHANCED_PACKET, PacketBody(p))
  }

  method MakePacketBody(bytes: seq<Byte>, snaplen: Uint32, nanoseconds: Int64, comment: Text)
    returns (r: Result<seq<Byte>, Outcome>)
    ensures r.Ok? <==> |comment| <= MAX_OPTION
    ensures r.Ok? ==> r.value == PacketBody(PacketFor(bytes, snaplen, nanoseconds, comment))
    ensures r.Err? ==> r.error == OptionTooLarge
  {
    var captured := Min(|bytes|, snaplen);
    var tick := if nanoseconds < 0 then 0 else nanoseconds;
    var words := PutLittleEndian([], 0, 4);
    words := PutLittleEndian(words, tick / 0x1_0000_0000, 4);
    words := PutLittleEndian(words, tick % 0x1_0000_0000, 4);
    words := PutLittleEndian(words, captured, 4);
    words := PutLittleEndian(words, Min(|bytes|, MAX_UINT32), 4);
    assert [] + LittleEndian(0, 4) == LittleEndian(0, 4);
    var packet := Pad32(words + bytes[..captured]);
    PaddedBehindAligned(words, bytes[..captured]);
    ghost var p := PacketFor(bytes, snaplen, nanoseconds, comment);
    if comment != [] {
      packet :- PutOption(packet, 1, comment);
    } else {
      assert packet + CommentOption([]) == packet;
    }
    packet := PutEndOptions(packet);
    return Ok(packet);
  }

  method PutEndOptions(out: seq<Byte>) returns (result: seq<Byte>)
    ensures result == out + EndOptions()
  {
    result := PutLittleEndian(out, 0, 2);
    result := PutLittleEndian(result, 0, 2);
  }

  lemma PaddedBehindAligned(head: seq<Byte>, data: seq<Byte>)
    requires |head| % 4 == 0
    ensures Padded(head + data) == head + Padded(data)
  {
    assert Padding(|head| + |data|) == Padding(|data|);
  }

  method PutWords(a: nat, aWidth: nat, b: nat, bWidth: nat, c: nat, cWidth: nat) returns (out: seq<Byte>)
    ensures out == LittleEndian(a, aWidth) + LittleEndian(b, bWidth) + LittleEndian(c, cWidth)
  {
    out := PutLittleEndian([], a, aWidth);
    assert [] + LittleEndian(a, aWidth) == LittleEndian(a, aWidth);
    out := PutLittleEndian(out, b, bWidth);
    out := PutLittleEndian(out, c, cWidth);
  }

  /** The one-byte option that says timestamps count nanoseconds. */
  method PutResolution(out: seq<Byte>) returns (result: seq<Byte>)
    requires |out| % 4 == 0
    ensures result == out + OptionBytes(9, [9])
  {
    result := PutLittleEndian(out, 9, 2);
    result := PutLittleEndian(result, |[9 as Byte]|, 2);
    result := Pad32(result + [9]);
    OptionBehindAligned(out, 9, [9]);
  }

  method PutSectionPrefix() returns (out: seq<Byte>)
    ensures out == SectionPrefix()
  {
    out := PutWords(BYTE_ORDER_MAGIC, 4, 1, 2, 0, 2);
    out := PutLittleEndian(out, UNKNOWN_LENGTH, 8);
  }

  method MakeSectionBody(comment: Text) returns (r: Result<seq<Byte>, Outcome>)
    ensures r.Ok? <==> |comment| <= MAX_OPTION
    ensures r.Ok? ==> r.value == SectionBody(comment)
  {
    var body := PutSectionPrefix();
    body :- PutOption(body, 1, comment);
    body := PutEndOptions(body);
    return Ok(body);
  }

  method PutNames(out: seq<Byte>, name: Text, description: Text) returns (r: Result<seq<Byte>, Outcome>)
    requires |out| % 4 == 0
    ensures r.Ok? <==> |name| <= MAX_OPTION && |description| <= MAX_OPTION
    ensures r.Ok? ==> r.value == Joined(Joined(out, OptionBytes(2, name)), OptionBytes(3, description))
  {
    var body :- PutOption(out, 2, name);
    r := PutOption(body, 3, description);
  }

  method MakeInterfaceBody(linktype: nat, snaplen: Uint32, name: Text, description: Text)
    returns (r: Result<seq<Byte>, Outcome>)
    ensures r.Ok? <==> |name| <= MAX_OPTION && |description| <= MAX_OPTION
    ensures r.Ok? ==> r.value == InterfaceBody(linktype, snaplen, name, description)
  {
    var body := PutWords(linktype, 2, 0, 2, snaplen, 4);
    assert body == InterfacePrefix(linktype, snaplen);
    body :- PutNames(body, name, description);
    body := PutResolution(body);
    body := PutEndOptions(body);
    return Ok(body);
  }

  // ----- the writer -----

  ghost predicate WellKinded(blocks: seq<Block>) {
    && |blocks| >= 2 && blocks[0].kind == SECTION_HEADER && blocks[1].kind == INTERFACE_DESCRIPTION
    && |blocks[0].body| >= 20
    && forall i :: 2 <= i < |blocks| ==> blocks[i].kind == ENHANCED_PACKET
  }

  class Writer {
    const snaplen: Uint32
    const maxFileBytes: nat
    const maxPackets: nat
    var file: seq<Byte>
    var bytesWritten: nat
    var packets: nat
    var lastOffset: nat
    ghost var blocks: seq<Block>

    /** The file is its blocks, the counters describe it, and the bounds hold. */
    ghost predicate Valid()
      reads this
    {
      && AllSound(blocks) && file == FileBytes(blocks)
      && bytesWritten == |file| <= maxFileBytes
      && packets <= maxPackets
    }

    /** One section header, one interface, then exactly `packets` packets, the last at `lastOffset`. */
    ghost predicate Structured()
      reads this
    {
      && WellKinded(blocks) && |blocks| == 2 + packets
      && (packets > 0 ==> lastOffset == |FileBytes(blocks[..|blocks| - 1])|)
    }

    constructor (snaplen: Uint32, maxFileBytes: nat, maxPackets: nat)
      ensures Valid() && blocks == [] && packets == 0
      ensures this.snaplen == snaplen && this.maxFileBytes == maxFileBytes && this.maxPackets == maxPackets
    {
      this.snaplen := snaplen;
      this.maxFileBytes := maxFileBytes;
      this.maxPackets := maxPackets;
      file, bytesWritten, packets, lastOffset := [], 0, 0, 0;
      blocks := [];
    }

    /** `write_block`: all of the block, or, when the rollback can truncate, none of it. */
    method WriteBlock(ghost b: Block, bytes: seq<Byte>, io: Io) returns (outcome: Outcome, position: nat)
      requires Valid() && |b.body| % 4 == 0 && bytes == BlockBytes(b)
      modifies this`file, this`bytesWritten, this`blocks
      ensures position == |old(file)| && outcome in {Recorded, FileLimit, WriteFailed}
      ensures outcome.FileLimit? <==> |old(file)| + |bytes| > maxFileBytes
      ensures outcome.WriteFailed? ==> !Smooth(io.script, |bytes|)
      ensures outcome.Recorded? ==> file == old(file) + bytes && blocks == old(blocks) + [b]
      ensures outcome.Recorded? && Fits(b.body) ==> Valid()
      ensures !outcome.Recorded? ==> bytesWritten == old(bytesWritten) && blocks == old(blocks)
      ensures !outcome.Recorded? && (io.truncates || outcome.FileLimit?) ==> file == old(file)
      ensures outcome.WriteFailed? ==> old(file) <= file && file[|old(file)|..] < bytes
      ensures !outcome.Recorded? && file == old(file) ==> Valid()
    {
      position := |file|;
      if bytesWritten > maxFileBytes || |bytes| > maxFileBytes - bytesWritten {
        return FileLimit, position;
      }
      var ok, file' := WriteAll(file, bytes, io.script);
      if !ok {
        if io.truncates {
          BlockParts(b, []);
          return WriteFailed, position;
        }
        file := file';
        return WriteFailed, position;
      }
      file := file';
      bytesWritten := bytesWritten + |bytes|;
      FileAppend(blocks, b);
      blocks := blocks + [b];
      return Recorded, position;
    }

    /** `record`: the packet is the last block of the file afterwards, or nothing changed. */
    method Record(bytes: seq<Byte>, nanoseconds: Int64, comment: Text, io: Io) returns (outcome: Outcome)
      requires Valid() && Structured()
      modifies this
      ensures var p := PacketFor(bytes, snaplen, nanoseconds, comment);
        && (outcome.Recorded? ==>
              && blocks == old(blocks) + [PacketBlock(p)]
              && packets == old(packets) + 1 && lastOffset == |old(file)|
              && |old(file)| + |BlockBytes(PacketBlock(p))| <= maxFileBytes
              && (Fits(PacketBlock(p).body) ==> Valid() && Structured()))
        && (outcome.WriteFailed? ==>
              && old(file) <= file && !Smooth(io.script, |BlockBytes(PacketBlock(p))|)
              && file[|old(file)|..] < BlockBytes(PacketBlock(p)))
      ensures !outcome.Recorded? ==>
        blocks == old(blocks) && packets == old(packets) && bytesWritten == old(bytesWritten)
      ensures !outcome.Recorded? && (io.truncates || !outcome.WriteFailed?) ==> file == old(file)
      ensures !outcome.Recorded? && file == old(file) ==> Valid() && Structured()
      ensures outcome.PacketLimit? <==> old(packets) == maxPackets
      ensures outcome.OptionTooLarge? <==> old(packets) < maxPackets && |comment| > MAX_OPTION
      ensures outcome != BadLimits
    {
      if packets >= maxPackets {
        return PacketLimit;
      }
      var body := MakePacketBody(bytes, snaplen, nanoseconds, comment);
      if body.Err? {
        return OptionTooLarge;
      }
      ghost var b := PacketBlock(PacketFor(bytes, snaplen, nanoseconds, comment));
      var blockBytes := MakeBlock(ENHANCED_PACKET, body.value);
      outcome := WritePacket(b, blockBytes, io);
    }

    method WritePacket(ghost b: Block, bytes: seq<Byte>, io: Io) returns (outcome: Outcome)
      requires Valid() && Structured() && packets < maxPackets
      requires b.kind == ENHANCED_PACKET && |b.body| % 4 == 0 && bytes == BlockBytes(b)
      modifies this
      ensures outcome in {Recorded, FileLimit, WriteFailed}
      ensures outcome.FileLimit? <==> |old(file)| + |bytes| > maxFileBytes
      ensures outcome.WriteFailed? ==> !Smooth(io.script, |bytes|)
      ensures outcome.Recorded? ==> && blocks == old(blocks) + [b]
                                    && packets == old(packets) + 1 && lastOffset == |old(file)|
                                    && |old(file)| + |bytes| <= maxFileBytes
      ensures outcome.Recorded? && Fits(b.body) ==> Valid() && Structured()
      ensures !outcome.Recorded? ==>
        blocks == old(blocks) && packets == old(packets) && bytesWritten == old(bytesWritten)
      ensures !outcome.Recorded? && (io.truncates || outcome.FileLimit?) ==> file == old(file)
      ensures outcome.WriteFailed? ==> old(file) <= file && file[|old(file)|..] < bytes
      ensures !outcome.Recorded? && file == old(file) ==> Valid() && Structured()
    {
      var position;
      outcome, position := WriteBlock(b, bytes, io);
      if outcome.Recorded? {
        lastOffset := position;
        packets := packets + 1;
        assert blocks[..|blocks| - 1] == old(blocks);
      }
    }

    /** The section header and the interface description that start every file. */
    method WriteHeaders(linktype: nat, name: Text, description: Text, comment: Text, io1: Io, io2: Io)
      returns (outcome: Outcome)
      requires Valid() && blocks == [] && packets == 0
      modifies this`file, this`bytesWritten, this`blocks
      ensures outcome != BadLimits
      ensures outcome.Recorded? ==> |name| <= MAX_OPTION && |description| <= MAX_OPTION && |comment| <= MAX_OPTION
      ensures outcome.Recorded? ==> Valid() && Structured()
      ensures outcome.Recorded? ==> blocks == [Block(SECTION_HEADER, SectionBody(comment)),
        Block(INTERFACE_DESCRIPTION, InterfaceBody(linktype, snaplen, name, description))]
    {
      var section := MakeSectionBody(comment);
      if section.Err? {
        return OptionTooLarge;
      }
      var bytes := MakeBlock(SECTION_HEADER, section.value);
      var position;
      outcome, position := WriteBlock(Block(SECTION_HEADER, section.value), bytes, io1);
      if !outcome.Recorded? {
        return;
      }
      var interface := MakeInterfaceBody(linktype, snaplen, name, description);
      if interface.Err? {
        return OptionTooLarge;
      }
      bytes := MakeBlock(INTERFACE_DESCRIPTION, interface.value);
      outcome, position := WriteBlock(Block(INTERFACE_DESCRIPTION, interface.value), bytes, io2);
    }
  }

  /** A new capture file: the limits are checked before anything is written. */
  method Open(snaplen: Uint32, maxFileBytes: nat, maxPackets: nat, linktype: nat, name: Text,
              description: Text, comment: Text, io1: Io, io2: Io) returns (outcome: Outcome, writer: Writer?)
    ensures outcome.BadLimits? <==> snaplen == 0 || maxFileBytes < 65536 || maxPackets == 0
    ensures outcome.Recorded? <==> writer != null
    ensures outcome.Recorded? ==> |name| <= MAX_OPTION && |description| <= MAX_OPTION && |comment| <= MAX_OPTION
    ensures writer != null ==> fresh(writer) && writer.Valid() && writer.Structured() && writer.packets == 0
    ensures writer != null ==> (writer.snaplen, writer.maxFileBytes, writer.maxPackets)
                               == (snaplen, maxFileBytes, maxPackets)
    ensures writer != null ==> writer.blocks == [Block(SECTION_HEADER, SectionBody(comment)),
      Block(INTERFACE_DESCRIPTION, InterfaceBody(linktype, snaplen, name, description))]
  {
    if snaplen == 0 || maxFileBytes < 65536 || maxPackets == 0 {
      return BadLimits, null;
    }
    writer := new Writer(snaplen, maxFileBytes, maxPackets);
    outcome := writer.WriteHeaders(linktype, name, description, comment, io1, io2);
    if !outcome.Recorded? {
      writer := null;
    }
  }

  // ----- whole captures -----

  datatype Input = Input(bytes: seq<Byte>, nanoseconds: Int64, comment: Text, io: Io)

  function PacketOf(input: Input, snaplen: Uint32): Packet {
    PacketFor(input.bytes, snaplen, input.nanoseconds, input.comment)
  }

  /** The packet's block, if it gets as far as being written, has a length that fits 32 bits. */
  ghost predicate InputFits(input: Input, snaplen: Uint32) {
    |input.comment| <= MAX_OPTION ==> Fits(PacketBlock(PacketOf(input, snaplen)).body)
  }

  /** More than this is never captured by a snap length that leaves room for the longest comment. */
  const AMPLE: nat := 0xFFFE_0000

  /** Short of the last 128 KiB of the 32-bit range every packet fits, whatever its comment. */
  lemma AmpleFits(p: Packet)
    requires |p.captured| <= AMPLE && |p.comment| <= MAX_OPTION
    ensures Fits(PacketBlock(p).body)
  {
    assert |CommentOption(p.comment)| <= 4 + |p.comment| + 3;
  }

  ghost function PacketBlocks(ps: seq<Packet>): seq<Block> {
    seq(|ps|, i requires 0 <= i < |ps| => PacketBlock(ps[i]))
  }

  lemma PacketBlocksAppend(ps: seq<Packet>, p: Packet)
    ensures PacketBlocks(ps + [p]) == PacketBlocks(ps) + [PacketBlock(p)]
  {
  }

  /** One recording with a truncating rollback: the packet is appended or nothing happened. */
  method RecordOne(writer: Writer, input: Input) returns (outcome: Outcome)
    requires writer.Valid() && writer.Structured() && InputFits(input, writer.snaplen) && input.io.truncates
    modifies writer
    ensures writer.Valid() && writer.Structured()
    ensures outcome.Recorded? ==>
      writer.blocks == old(writer.blocks) + [PacketBlock(PacketOf(input, writer.snaplen))]
    ensures !outcome.Recorded? ==> writer.blocks == old(writer.blocks)
    ensures outcome.PacketLimit? <==> old(writer.packets) == writer.maxPackets
  {
    outcome := writer.Record(input.bytes, input.nanoseconds, input.comment, input.io);
  }

  /** The packets whose recording succeeded, in order. */
  ghost function RecordedOf(inputs: seq<Input>, outcomes: seq<Outcome>, snaplen: Uint32): seq<Packet>
    requires |inputs| == |outcomes|
  {
    if inputs == [] then []
    else
      var before := RecordedOf(inputs[..|inputs| - 1], outcomes[..|outcomes| - 1], snaplen);
      if outcomes[|outcomes| - 1].Recorded? then before + [PacketOf(inputs[|inputs| - 1], snaplen)] else before
  }

  lemma RecordedStep(inputs: seq<Input>, outcomes: seq<Outcome>, snaplen: Uint32, i: nat, outcome: Outcome)
    requires i < |inputs| && |outcomes| == i
    ensures var before := RecordedOf(inputs[..i], outcomes, snaplen);
      RecordedOf(inputs[..i + 1], outcomes + [outcome], snaplen)
      == if outcome.Recorded? then before + [PacketOf(inputs[i], snaplen)] else before
  {
    assert inputs[..i + 1][..i] == inputs[..i] && (outcomes + [outcome])[..i] == outcomes;
  }

  /**
   Records any run of packets whose blocks fit 32 bits, on a descriptor whose rollbacks truncate. The file then
   reads as its header blocks followed by exactly the packets whose recording succeeded, in order.
   */
  method RecordAll(writer: Writer, inputs: seq<Input>) returns (outcomes: seq<Outcome>)
    requires writer.Valid() && writer.Structured()
    requires forall i :: 0 <= i < |inputs| ==> InputFits(inputs[i], writer.snaplen) && inputs[i].io.truncates
    modifies writer
    ensures writer.Valid() && writer.Structured() && |outcomes| == |inputs|
    ensures writer.blocks == old(writer.blocks) + PacketBlocks(RecordedOf(inputs, outcomes, writer.snaplen))
    ensures ReadBlocks(writer.file) == Some(writer.blocks)
    ensures |writer.file| <= MAX_INT64 ==> IsComplete(writer.file)
  {
    outcomes := [];
    ghost var recorded := [];
    assert inputs[..0] == [] && writer.blocks == old(writer.blocks) + PacketBlocks([]);
    for i := 0 to |inputs|
      invariant writer.Valid() && writer.Structured() && |outcomes| == i
      invariant recorded == RecordedOf(inputs[..i], outcomes, writer.snaplen)
      invariant writer.blocks == old(writer.blocks) + PacketBlocks(recorded)
    {
      var outcome := RecordOne(writer, inputs[i]);
      RecordedStep(inputs, outcomes, writer.snaplen, i, outcome);
      if outcome.Recorded? {
        ghost var p := PacketOf(inputs[i], writer.snaplen);
        PacketBlocksAppend(recorded, p);
        Regroup(old(writer.blocks), PacketBlocks(recorded), PacketBlock(p));
        recorded := recorded + [p];
      }
      outcomes := outcomes + [outcome];
    }
    WholeSlice(inputs);
    FileIsReadable(writer.blocks);
  }

  lemma Regroup(head: seq<Block>, packets: seq<Block>, b: Block)
    ensures head + packets + [b] == head + (packets + [b])
  {
  }

  /** Every file the writer leaves behind reads as its blocks and passes the completeness check. */
  lemma FileIsReadable(blocks: seq<Block>)
    requires AllSound(blocks) && WellKinded(blocks)
    ensures ReadBlocks(FileBytes(blocks)) == Some(blocks)
    ensures |FileBytes(blocks)| <= MAX_INT64 ==> IsComplete(FileBytes(blocks))
  {
    FileReadsBack(blocks, []);
    assert FileBytes(blocks) + [] == FileBytes(blocks);
    if |FileBytes(blocks)| <= MAX_INT64 {
      FileIsComplete(blocks);
    }
  }

  // ----- the completeness check -----

  const MAX_INT64: nat := 0x7FFF_FFFF_FFFF_FFFF

  /** Some suffix of the file is exactly one block. */
  ghost predicate EndsInBlock(file: seq<Byte>) {
    exists n: nat :: n <= |file| && LastBlock(file, n)
  }

  ghost predicate LastBlock(file: seq<Byte>, n: nat)
    requires n <= |file|
  {
    ReadBlock(file[|file| - n..]).Some? && ReadBlock(file[|file| - n..]).value.1 == []
  }

  ghost predicate IsComplete(file: seq<Byte>) {
    && 28 <= |file| <= MAX_INT64
    && file[..4] == [0x0a, 0x0d, 0x0d, 0x0a]
    && EndsInBlock(file)
  }

  /** A suffix that is one block has the length its own last four bytes say. */
  lemma LastBlockLength(file: seq<Byte>, n: nat)
    requires n <= |file| && LastBlock(file, n)
    ensures n >= 12 && n % 4 == 0
    ensures LittleEndianValue(file[|file| - 4..]) == n == LittleEndianValue(file[|file| - n + 4..|file| - n + 8])
  {
    var suffix := file[|file| - n..];
    assert suffix[4..8] == file[|file| - n + 4..|file| - n + 8];
    assert suffix[n - 4..n] == file[|file| - 4..];
  }

  lemma LastBlockFound(file: seq<Byte>, n: nat)
    requires 12 <= n <= |file| && n % 4 == 0
    requires LittleEndianValue(file[|file| - 4..]) == n == LittleEndianValue(file[|file| - n + 4..|file| - n + 8])
    ensures LastBlock(file, n)
  {
    var suffix := file[|file| - n..];
    assert suffix[4..8] == file[|file| - n + 4..|file| - n + 8];
    assert suffix[n - 4..n] == file[|file| - 4..];
  }

  /** The three reads decide whether the file starts with a section header and ends in a whole block. */
  method CompletePcapngSnapshot(file: seq<Byte>) returns (complete: bool)
    ensures complete <==> IsComplete(file)
  {
    if |file| < 28 || |file| > MAX_INT64 {
      return false;
    }
    if file[..4] != [0x0a, 0x0d, 0x0d, 0x0a] {
      return false;
    }
    var length := LittleEndianValue(file[|file| - 4..]);
    forall n: nat | n <= |file| && LastBlock(file, n)
      ensures n == length && n >= 12 && n % 4 == 0
        && LittleEndianValue(file[|file| - n + 4..|file| - n + 8]) == n
    {
      LastBlockLength(file, n);
    }
    if length < 12 || length > |file| || length % 4 != 0 {
      return false;
    }
    complete := LittleEndianValue(file[|file| - length + 4..|file| - length + 8]) == length;
    if complete {
      LastBlockFound(file, length);
    }
  }

  /** Every file the writer leaves behind passes that check. */
  lemma FileIsComplete(blocks: seq<Block>)
    requires AllSound(blocks) && WellKinded(blocks) && |FileBytes(blocks)| <= MAX_INT64
    ensures IsComplete(FileBytes(blocks))
  {
    var file := FileBytes(blocks);
    FileHead(blocks);
    BlockParts(blocks[0], FileBytes(blocks[1..]));
    var last := blocks[|blocks| - 1];
    BlockParts(last, []);
    BlockReadsBack(last, []);
    assert BlockBytes(last) + [] == BlockBytes(last);
    var n := |BlockBytes(last)|;
    assert file[|file| - n..] == BlockBytes(last);
    assert LastBlock(file, n);
    SectionMagic();
  }

  lemma SectionMagic()
    ensures LittleEndian(SECTION_HEADER, 4) == [0x0a, 0x0d, 0x0d, 0x0a]
  {
    assert SECTION_HEADER / 256 == 0x0a0d0d && 0x0a0d0d / 256 == 0x0a0d && 0x0a0d / 256 == 0x0a;
    assert LittleEndian(0x0a, 1) == [0x0a];
    assert LittleEndian(0x0a0d, 2) == [0x0d, 0x0a];
    assert LittleEndian(0x0a0d0d, 3) == [0x0d, 0x0d, 0x0a];
  }
}
