/**
 The PCAPNG capture format as the writer produces it: blocks (draft-ietf-opsawg-pcapng, section 3.1), the
 section header, interface description and enhanced packet blocks (sections 4.1 to 4.3), and a reference
 reader for them.
 */
module Pcapng {
  import opened Bytes

  const SECTION_HEADER: Uint32 := 0x0a0d0d0a
  const INTERFACE_DESCRIPTION: Uint32 := 1
  const ENHANCED_PACKET: Uint32 := 6
  const BYTE_ORDER_MAGIC: Uint32 := 0x1a2b3c4d
  const UNKNOWN_LENGTH: Uint64 := 0xFFFF_FFFF_FFFF_FFFF
  const MAX_OPTION: nat := 65535

  // ----- blocks -----

  datatype Block = Block(kind: Uint32, body: seq<Byte>)

  function Total(body: seq<Byte>): Uint32 {
    (|body| + 12) % 0x1_0000_0000
  }

  function BlockBytes(b: Block): seq<Byte> {
    LittleEndian(b.kind, 4) + LittleEndian(Total(b.body), 4) + b.body + LittleEndian(Total(b.body), 4)
  }

  predicate Fits(body: seq<Byte>) {
    |body| + 12 < 0x1_0000_0000
  }

  predicate Sound(b: Block) {
    |b.body| % 4 == 0 && Fits(b.body)
  }

  /** Reads the block at the front: aligned, with equal leading and trailing lengths. */
  function ReadBlock(bytes: seq<Byte>): (r: Option<(Block, seq<Byte>)>)
    ensures r.Some? ==> |r.value.1| < |bytes|
  {
    if |bytes| < 12 then None
    else
      var total := LittleEndianValue(bytes[4..8]);
      if total < 12 || total % 4 != 0 || total > |bytes| then None
      else if LittleEndianValue(bytes[total - 4..total]) != total then None
      else
        PowersOf256();
        Some((Block(LittleEndianValue(bytes[..4]), bytes[8..total - 4]), bytes[total..]))
  }

  function ReadBlocks(bytes: seq<Byte>): Option<seq<Block>>
    decreases |bytes|
  {
    if bytes == [] then Some([])
    else
      match ReadBlock(bytes)
      case None => None
      case Some((b, rest)) =>
        match ReadBlocks(rest)
        case None => None
        case Some(bs) => Some([b] + bs)
  }

  function FileBytes(blocks: seq<Block>): seq<Byte> {
    if blocks == [] then [] else FileBytes(blocks[..|blocks| - 1]) + BlockBytes(blocks[|blocks| - 1])
  }

  lemma BlockParts(b: Block, rest: seq<Byte>)
    ensures var bytes := BlockBytes(b) + rest;
      && |BlockBytes(b)| == |b.body| + 12
      && bytes[..4] == LittleEndian(b.kind, 4) && bytes[4..8] == LittleEndian(Total(b.body), 4)
      && bytes[8..8 + |b.body|] == b.body
      && bytes[8 + |b.body|..12 + |b.body|] == LittleEndian(Total(b.body), 4)
      && bytes[12 + |b.body|..] == rest
  {
  }

  lemma Read32(value: Uint32)
    ensures LittleEndianValue(LittleEndian(value, 4)) == value
  {
    PowersOf256();
    LittleEndianRoundTrip(value, 4);
  }

  /** Reading takes off as many bytes as the leading length says. */
  lemma ReadConsumes(bytes: seq<Byte>)
    requires ReadBlock(bytes).Some?
    ensures |bytes| >= 12 && |ReadBlock(bytes).value.1| == |bytes| - LittleEndianValue(bytes[4..8])
  {
  }

  lemma ReadAccepts(bytes: seq<Byte>, total: nat)
    requires 12 <= total <= |bytes| && total % 4 == 0 && LittleEndianValue(bytes[4..8]) == total
    requires LittleEndianValue(bytes[total - 4..total]) == total && LittleEndianValue(bytes[..4]) < 0x1_0000_0000
    ensures ReadBlock(bytes) == Some((Block(LittleEndianValue(bytes[..4]), bytes[8..total - 4]), bytes[total..]))
  {
  }

  lemma SoundReadsBack(b: Block, rest: seq<Byte>)
    requires Sound(b)
    ensures ReadBlock(BlockBytes(b) + rest) == Some((b, rest))
  {
    BlockParts(b, rest);
    Read32(b.kind);
    Read32(Total(b.body));
    ReadAccepts(BlockBytes(b) + rest, |b.body| + 12);
  }

  lemma OversizeMisreads(b: Block, rest: seq<Byte>)
    requires !Fits(b.body)
    ensures ReadBlock(BlockBytes(b) + rest) != Some((b, rest))
  {
    var bytes := BlockBytes(b) + rest;
    BlockParts(b, rest);
    Read32(Total(b.body));
    assert Total(b.body) < |b.body| + 12;
    if ReadBlock(bytes).Some? {
      ReadConsumes(bytes);
    }
  }

  /** A block reads back exactly when its length fits the 32-bit field: the cast is the only obstacle. */
  lemma BlockReadsBack(b: Block, rest: seq<Byte>)
    requires |b.body| % 4 == 0
    ensures ReadBlock(BlockBytes(b) + rest) == Some((b, rest)) <==> Fits(b.body)
  {
    if Fits(b.body) {
      SoundReadsBack(b, rest);
    } else {
      OversizeMisreads(b, rest);
    }
  }

  lemma FileAppend(blocks: seq<Block>, b: Block)
    ensures FileBytes(blocks + [b]) == FileBytes(blocks) + BlockBytes(b)
  {
    assert (blocks + [b])[..|blocks|] == blocks;
  }

  lemma {:induction false} FileHead(blocks: seq<Block>)
    requires blocks != []
    ensures FileBytes(blocks) == BlockBytes(blocks[0]) + FileBytes(blocks[1..])
  {
    if |blocks| == 1 {
      assert blocks[..0] == [] && blocks[1..] == [];
      assert FileBytes(blocks) == [] + BlockBytes(blocks[0]) == BlockBytes(blocks[0]) + [];
    } else {
      var front, last := blocks[..|blocks| - 1], blocks[|blocks| - 1];
      FileHead(front);
      assert blocks[1..] == front[1..] + [last];
      FileAppend(front[1..], last);
      Associative(BlockBytes(blocks[0]), FileBytes(front[1..]), BlockBytes(last));
    }
  }

  ghost predicate AllSound(blocks: seq<Block>) {
    forall i :: 0 <= i < |blocks| ==> Sound(blocks[i])
  }

  /** Blocks in front of other bytes. */
  function Behind(blocks: seq<Block>, tail: Option<seq<Block>>): Option<seq<Block>> {
    match tail case None => None case Some(more) => Some(blocks + more)
  }

  /** Behind sound blocks a file reads on as the rest of it does. */
  lemma {:induction false} FileReadsOn(blocks: seq<Block>, tail: seq<Byte>)
    requires AllSound(blocks)
    ensures ReadBlocks(FileBytes(blocks) + tail) == Behind(blocks, ReadBlocks(tail))
    decreases |blocks|
  {
    if blocks == [] {
      assert FileBytes(blocks) + tail == tail;
      assert forall more: seq<Block> :: blocks + more == more;
    } else {
      FileHead(blocks);
      var rest := FileBytes(blocks[1..]) + tail;
      Associative(BlockBytes(blocks[0]), FileBytes(blocks[1..]), tail);
      SoundReadsBack(blocks[0], rest);
      FileReadsOn(blocks[1..], tail);
      HeadSplit(blocks);
      if ReadBlocks(tail).Some? {
        Associative([blocks[0]], blocks[1..], ReadBlocks(tail).value);
      }
    }
  }

  /** A file of sound blocks, followed by bytes that are no block, reads as those blocks or not at all. */
  lemma FileReadsBack(blocks: seq<Block>, tail: seq<Byte>)
    requires AllSound(blocks) && (tail == [] || ReadBlock(tail).None?)
    ensures ReadBlocks(FileBytes(blocks) + tail) == if tail == [] then Some(blocks) else None
  {
    FileReadsOn(blocks, tail);
    assert blocks + [] == blocks;
  }

  lemma ReadNeedsAll(bytes: seq<Byte>)
    requires |bytes| < 12 || LittleEndianValue(bytes[4..8]) > |bytes|
    ensures ReadBlock(bytes).None?
  {
  }

  lemma LeadingLength(b: Block)
    requires Sound(b)
    ensures |BlockBytes(b)| == |b.body| + 12 && LittleEndianValue(BlockBytes(b)[4..8]) == |b.body| + 12
  {
    BlockParts(b, []);
    assert BlockBytes(b) + [] == BlockBytes(b);
    Read32(Total(b.body));
  }

  /** No proper prefix of a sound block is a block: a torn write is always noticed. */
  lemma TornBlock(b: Block, torn: seq<Byte>)
    requires Sound(b) && torn < BlockBytes(b)
    ensures ReadBlock(torn).None?
  {
    LeadingLength(b);
    if |torn| >= 12 {
      PrefixSlice(torn, BlockBytes(b), 4, 8);
    }
    ReadNeedsAll(torn);
  }

  /** After a failed write, the file is a sequence of blocks exactly when nothing of the block is left. */
  lemma TornFile(blocks: seq<Block>, b: Block, torn: seq<Byte>)
    requires AllSound(blocks) && Sound(b) && torn < BlockBytes(b)
    ensures ReadBlocks(FileBytes(blocks) + torn).Some? <==> torn == []
  {
    TornBlock(b, torn);
    FileReadsBack(blocks, torn);
  }

  /** A file after `bytes` were written over it from an offset on. */
  function Overwritten(file: seq<Byte>, at: nat, bytes: seq<Byte>): seq<Byte>
    requires at <= |file|
  {
    file[..at] + bytes + if at + |bytes| <= |file| then file[at + |bytes|..] else []
  }

  /**
   A rollback that could not truncate but could seek lets the next block overwrite the torn bytes. The file is
   sound again when that block is at least as long; otherwise it reads exactly when the torn rest behind it does.
   */
  lemma OverwrittenTail(blocks: seq<Block>, torn: seq<Byte>, b: Block)
    requires AllSound(blocks) && Sound(b)
    ensures var file := Overwritten(FileBytes(blocks) + torn, |FileBytes(blocks)|, BlockBytes(b));
      var left := if |torn| > |BlockBytes(b)| then torn[|BlockBytes(b)|..] else [];
      && ReadBlocks(file) == Behind(blocks + [b], ReadBlocks(left))
      && (left == [] ==> ReadBlocks(file) == Some(blocks + [b]))
  {
    var f, bytes := FileBytes(blocks), BlockBytes(b);
    var left := if |torn| > |bytes| then torn[|bytes|..] else [];
    OverwrittenParts(f, torn, bytes);
    FileAppend(blocks, b);
    FileReadsOn(blocks + [b], left);
    assert blocks + [b] + [] == blocks + [b];
  }

  lemma OverwrittenParts(f: seq<Byte>, torn: seq<Byte>, bytes: seq<Byte>)
    ensures Overwritten(f + torn, |f|, bytes) == f + bytes + if |torn| > |bytes| then torn[|bytes|..] else []
  {
    assert (f + torn)[..|f|] == f;
    if |bytes| <= |torn| {
      assert (f + torn)[|f| + |bytes|..] == torn[|bytes|..];
    }
  }

  // ----- bodies -----

  function Zeros(count: nat): (z: seq<Byte>)
    ensures |z| == count
  {
    seq(count, i => 0)
  }

  function Padding(size: nat): (n: nat)
    ensures n < 4 && (size + n) % 4 == 0
  {
    (4 - size % 4) % 4
  }

  function Padded(bytes: seq<Byte>): (p: seq<Byte>)
    ensures |p| % 4 == 0 && bytes <= p && |p| < |bytes| + 4
  {
    bytes + Zeros(Padding(|bytes|))
  }

  /** An option behind an aligned prefix: code, length, value and padding. */
  function OptionBytes(code: nat, value: Text): (o: seq<Byte>)
    ensures |o| % 4 == 0
  {
    LittleEndian(code, 2) + LittleEndian(|value|, 2) + Padded(value)
  }

  function EndOptions(): (o: seq<Byte>)
    ensures |o| == 4
  {
    LittleEndian(0, 2) + LittleEndian(0, 2)
  }

  /** Aligned parts joined stay aligned. */
  function Joined(a: seq<Byte>, b: seq<Byte>): (c: seq<Byte>)
    requires |a| % 4 == 0 && |b| % 4 == 0
    ensures |c| % 4 == 0 && |c| == |a| + |b|
  {
    a + b
  }

  function InterfacePrefix(linktype: nat, snaplen: Uint32): (body: seq<Byte>)
    ensures |body| == 8
  {
    LittleEndian(linktype, 2) + LittleEndian(0, 2) + LittleEndian(snaplen, 4)
  }

  function SectionPrefix(): (body: seq<Byte>)
    ensures |body| == 16
  {
    LittleEndian(BYTE_ORDER_MAGIC, 4) + LittleEndian(1, 2) + LittleEndian(0, 2) + LittleEndian(UNKNOWN_LENGTH, 8)
  }

  function SectionBody(comment: Text): (body: seq<Byte>)
    ensures |body| % 4 == 0
  {
    Joined(Joined(SectionPrefix(), OptionBytes(1, comment)), EndOptions())
  }

  function InterfaceBody(linktype: nat, snaplen: Uint32, name: Text, description: Text): (body: seq<Byte>)
    ensures |body| % 4 == 0
  {
    var names := Joined(Joined(InterfacePrefix(linktype, snaplen), OptionBytes(2, name)), OptionBytes(3, description));
    Joined(Joined(names, OptionBytes(9, [9])), EndOptions())
  }

  datatype Packet = Packet(tick: Uint64, captured: seq<Byte>, original: Uint32, comment: Text)

  function CommentOption(comment: Text): (o: seq<Byte>)
    ensures |o| % 4 == 0
  {
    if comment == [] then [] else OptionBytes(1, comment)
  }

  function PacketBody(p: Packet): (body: seq<Byte>)
    ensures |body| % 4 == 0
  {
    LittleEndian(0, 4) + LittleEndian(p.tick / 0x1_0000_0000, 4) + LittleEndian(p.tick % 0x1_0000_0000, 4)
      + LittleEndian(|p.captured|, 4) + LittleEndian(p.original, 4)
      + Padded(p.captured) + CommentOption(p.comment) + EndOptions()
  }

  // ----- reading packets -----

  /** Timestamp, captured bytes and original length of an enhanced packet block. */
  function ReadPacket(body: seq<Byte>): Option<(Uint64, seq<Byte>, Uint32)> {
    if |body| < 20 then None
    else
      var captured := LittleEndianValue(body[12..16]);
      if captured > |body| - 20 then None
      else
        PowersOf256();
        Some((LittleEndianValue(body[4..8]) * 0x1_0000_0000 + LittleEndianValue(body[8..12]),
              body[20..20 + captured], LittleEndianValue(body[16..20])))
  }

  /** What was recorded can be read out of the packet block again. */
  lemma PacketReadsBack(p: Packet)
    requires |p.captured| < 0x1_0000_0000
    ensures ReadPacket(PacketBody(p)) == Some((p.tick, p.captured, p.original))
  {
    PacketLayout(p);
    Read32(p.tick / 0x1_0000_0000);
    Read32(p.tick % 0x1_0000_0000);
    Read32(|p.captured|);
    Read32(p.original);
  }

  lemma PacketLayout(p: Packet)
    ensures var body := PacketBody(p);
      && |body| >= 20 + |p.captured|
      && body[4..8] == LittleEndian(p.tick / 0x1_0000_0000, 4)
      && body[8..12] == LittleEndian(p.tick % 0x1_0000_0000, 4)
      && body[12..16] == LittleEndian(|p.captured|, 4) && body[16..20] == LittleEndian(p.original, 4)
      && body[20..20 + |p.captured|] == p.captured
  {
    var a, b, c, d, e := LittleEndian(0, 4), LittleEndian(p.tick / 0x1_0000_0000, 4),
      LittleEndian(p.tick % 0x1_0000_0000, 4), LittleEndian(|p.captured|, 4), LittleEndian(p.original, 4);
    var data, rest := Padded(p.captured), CommentOption(p.comment) + EndOptions();
    FiveWords(a, b, c, d, e, data + rest);
    Tail(a + b + c + d + e, data, CommentOption(p.comment), EndOptions());
    assert (data + rest)[..|p.captured|] == p.captured;
    var body := PacketBody(p);
    assert body[20..20 + |p.captured|] == body[20..][..|p.captured|];
  }

  lemma Tail(head: seq<Byte>, data: seq<Byte>, options: seq<Byte>, end: seq<Byte>)
    ensures head + data + options + end == head + (data + (options + end))
  {
  }

  lemma FiveWords(a: seq<Byte>, b: seq<Byte>, c: seq<Byte>, d: seq<Byte>, e: seq<Byte>, rest: seq<Byte>)
    requires |a| == |b| == |c| == |d| == |e| == 4
    ensures var all := a + b + c + d + e + rest;
      && all[4..8] == b && all[8..12] == c && all[12..16] == d && all[16..20] == e && all[20..] == rest
  {
  }

  // ----- reading options -----

  datatype Field = Field(code: nat, value: Text)

  predicate FieldOk(f: Field) {
    0 < f.code < 0x1_0000 && |f.value| <= MAX_OPTION
  }

  function OptionsBytes(fields: seq<Field>): seq<Byte> {
    if fields == [] then EndOptions() else OptionBytes(fields[0].code, fields[0].value) + OptionsBytes(fields[1..])
  }

  /** Options up to the end-of-options mark, which must be the last thing there is. */
  function ReadOptions(bytes: seq<Byte>): Option<seq<Field>>
    decreases |bytes|
  {
    if |bytes| < 4 then None
    else
      var code, size := LittleEndianValue(bytes[..2]), LittleEndianValue(bytes[2..4]);
      if code == 0 then (if size == 0 && |bytes| == 4 then Some([]) else None)
      else if 4 + size + Padding(size) > |bytes| then None
      else
        match ReadOptions(bytes[4 + size + Padding(size)..])
        case None => None
        case Some(more) => Some([Field(code, bytes[4..4 + size])] + more)
  }

  lemma Read16(value: nat)
    requires value < 0x1_0000
    ensures LittleEndianValue(LittleEndian(value, 2)) == value
  {
    assert Power256(2) == 0x1_0000;
    LittleEndianRoundTrip(value, 2);
  }

  lemma OptionParts(c: seq<Byte>, l: seq<Byte>, value: seq<Byte>, padding: seq<Byte>, rest: seq<Byte>)
    requires |c| == |l| == 2
    ensures var all := c + l + (value + padding) + rest;
      && all[..2] == c && all[2..4] == l && all[4..4 + |value|] == value
      && all[4 + |value| + |padding|..] == rest
  {
  }

  lemma OneOption(f: Field, rest: seq<Byte>)
    requires FieldOk(f)
    ensures ReadOptions(OptionBytes(f.code, f.value) + rest)
      == match ReadOptions(rest) case None => None case Some(more) => Some([f] + more)
  {
    OptionParts(LittleEndian(f.code, 2), LittleEndian(|f.value|, 2), f.value, Zeros(Padding(|f.value|)), rest);
    Read16(f.code);
    Read16(|f.value|);
  }

  lemma NoOption()
    ensures ReadOptions(EndOptions()) == Some([])
  {
    OptionParts(LittleEndian(0, 2), LittleEndian(0, 2), [], [], []);
    assert EndOptions() == LittleEndian(0, 2) + LittleEndian(0, 2) + ([] + []) + [];
    Read16(0);
  }

  lemma {:induction false} OptionsReadBack(fields: seq<Field>)
    requires forall i :: 0 <= i < |fields| ==> FieldOk(fields[i])
    ensures ReadOptions(OptionsBytes(fields)) == Some(fields)
  {
    if fields == [] {
      NoOption();
    } else {
      OptionsReadBack(fields[1..]);
      OneOption(fields[0], OptionsBytes(fields[1..]));
      HeadSplit(fields);
    }
  }

  lemma Read64(value: Uint64)
    ensures LittleEndianValue(LittleEndian(value, 8)) == value
  {
    PowersOf256();
    LittleEndianRoundTrip(value, 8);
  }

  lemma OneField(f: Field)
    ensures OptionsBytes([f]) == OptionBytes(f.code, f.value) + EndOptions()
  {
    assert [f][1..] == [];
  }

  lemma Prefixed(head: seq<Byte>, rest: seq<Byte>)
    ensures (head + rest)[..|head|] == head && (head + rest)[|head|..] == rest
  {
  }

  /** Byte order, unknown section length and comment are read back from a section header. */
  lemma SectionReadsBack(comment: Text)
    requires |comment| <= MAX_OPTION
    ensures var body := SectionBody(comment);
      && |body| >= 16
      && LittleEndianValue(body[..4]) == BYTE_ORDER_MAGIC && LittleEndianValue(body[8..16]) == UNKNOWN_LENGTH
      && ReadOptions(body[16..]) == Some([Field(1, comment)])
  {
    OneField(Field(1, comment));
    OptionsReadBack([Field(1, comment)]);
    var rest := OptionBytes(1, comment) + EndOptions();
    Associative(SectionPrefix(), OptionBytes(1, comment), EndOptions());
    SectionWords(LittleEndian(BYTE_ORDER_MAGIC, 4), LittleEndian(1, 2), LittleEndian(0, 2),
                 LittleEndian(UNKNOWN_LENGTH, 8), rest);
    Read32(BYTE_ORDER_MAGIC);
    Read64(UNKNOWN_LENGTH);
  }

  lemma SectionWords(a: seq<Byte>, b: seq<Byte>, c: seq<Byte>, d: seq<Byte>, rest: seq<Byte>)
    requires |a| == 4 && |b| == |c| == 2 && |d| == 8
    ensures var all := (a + b + c + d) + rest;
      all[..4] == a && all[8..16] == d && all[16..] == rest
  {
  }

  /** Link type, snap length, name, description and resolution are read back from an interface description. */
  lemma InterfaceReadsBack(linktype: nat, snaplen: Uint32, name: Text, description: Text)
    requires linktype < 0x1_0000 && |name| <= MAX_OPTION && |description| <= MAX_OPTION
    ensures var body := InterfaceBody(linktype, snaplen, name, description);
      && |body| >= 8
      && LittleEndianValue(body[..2]) == linktype && LittleEndianValue(body[4..8]) == snaplen
      && ReadOptions(body[8..]) == Some([Field(2, name), Field(3, description), Field(9, [9])])
  {
    var n, d, r := OptionBytes(2, name), OptionBytes(3, description), OptionBytes(9, [9]);
    ThreeFields(Field(2, name), Field(3, description), Field(9, [9]));
    OptionsReadBack([Field(2, name), Field(3, description), Field(9, [9])]);
    InterfaceShape(InterfacePrefix(linktype, snaplen), n, d, r, EndOptions());
    InterfaceWords(LittleEndian(linktype, 2), LittleEndian(0, 2), LittleEndian(snaplen, 4),
                   n + (d + (r + EndOptions())));
    Read16(linktype);
    Read32(snaplen);
  }

  lemma ThreeFields(a: Field, b: Field, c: Field)
    ensures OptionsBytes([a, b, c])
      == OptionBytes(a.code, a.value) + (OptionBytes(b.code, b.value) + (OptionBytes(c.code, c.value) + EndOptions()))
  {
    assert [a, b, c][1..] == [b, c] && [b, c][1..] == [c];
    OneField(c);
    assert OptionsBytes([b, c]) == OptionBytes(b.code, b.value) + OptionsBytes([c]);
  }

  lemma InterfaceShape(head: seq<Byte>, a: seq<Byte>, b: seq<Byte>, c: seq<Byte>, end: seq<Byte>)
    ensures (((head + a) + b) + c) + end == head + (a + (b + (c + end)))
  {
    Associative((head + a) + b, c, end);
    Associative(head + a, b, c + end);
    Associative(head, a, b + (c + end));
  }

  lemma InterfaceWords(a: seq<Byte>, b: seq<Byte>, c: seq<Byte>, rest: seq<Byte>)
    requires |a| == |b| == 2 && |c| == 4
    ensures var all := (a + b + c) + rest;
      all[..2] == a && all[4..8] == c && all[8..] == rest
  {
  }

  /** The comment is read back from behind the packet data; an empty comment is no option at all. */
  lemma PacketCommentReadsBack(p: Packet)
    requires |p.comment| <= MAX_OPTION
    ensures var body, data := PacketBody(p), 20 + |Padded(p.captured)|;
      && |body| >= data
      && ReadOptions(body[data..]) == Some(if p.comment == [] then [] else [Field(1, p.comment)])
  {
    var words := LittleEndian(0, 4) + LittleEndian(p.tick / 0x1_0000_0000, 4)
      + LittleEndian(p.tick % 0x1_0000_0000, 4) + LittleEndian(|p.captured|, 4) + LittleEndian(p.original, 4);
    var rest := CommentOption(p.comment) + EndOptions();
    Tail(words, Padded(p.captured), CommentOption(p.comment), EndOptions());
    Associative(words, Padded(p.captured), rest);
    Prefixed(words + Padded(p.captured), rest);
    CommentAlone(p.comment);
  }

  lemma CommentAlone(comment: Text)
    requires |comment| <= MAX_OPTION
    ensures ReadOptions(CommentOption(comment) + EndOptions()) == Some(if comment == [] then [] else [Field(1, comment)])
  {
    if comment == [] {
      assert CommentOption(comment) + EndOptions() == EndOptions();
      NoOption();
    } else {
      OneField(Field(1, comment));
      OptionsReadBack([Field(1, comment)]);
    }
  }
}
