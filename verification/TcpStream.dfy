/**
 The plain TCP transport: whole frames are written with partial writes and rebuilt from arbitrarily split
 reads. The socket's behaviour is a script; a script that runs out stands for a passed deadline.
 */
module TcpStream {
  import opened Bytes
  import opened Framing
  import opened PartialWrites
  import EnvelopeFormat

  // ----- the bytes of a connection -----

  /** A byte string whose length prefix describes exactly the rest of it. */
  ghost predicate IsFrame(f: seq<Byte>) {
    |f| >= PREFIX_BYTES && DecodedSize(f[..PREFIX_BYTES]) == Ok(|f| - PREFIX_BYTES)
  }

  ghost predicate AllFrames(frames: seq<seq<Byte>>) {
    forall i :: 0 <= i < |frames| ==> IsFrame(frames[i])
  }

  function Stream(frames: seq<seq<Byte>>): seq<Byte> {
    if frames == [] then [] else Stream(frames[..|frames| - 1]) + frames[|frames| - 1]
  }

  /** Nothing, or a proper prefix of one frame: what a failed write leaves behind. */
  ghost predicate IsPartial(tail: seq<Byte>) {
    tail == [] || exists f :: IsFrame(f) && tail < f
  }

  lemma FrameBytesIsFrame(payload: seq<Byte>)
    requires |payload| <= EnvelopeFormat.MAX_FRAME_BYTES
    ensures IsFrame(FrameBytes(payload))
  {
    PrefixDecodes(payload);
  }

  lemma StreamAppend(frames: seq<seq<Byte>>, f: seq<Byte>)
    ensures Stream(frames + [f]) == Stream(frames) + f
  {
    assert (frames + [f])[..|frames|] == frames;
  }

  lemma {:induction false} StreamSplit(frames: seq<seq<Byte>>, k: nat)
    requires k <= |frames|
    ensures Stream(frames) == Stream(frames[..k]) + Stream(frames[k..])
  {
    if k == |frames| {
      assert frames[..k] == frames && frames[k..] == [];
    } else {
      var front, last := frames[..|frames| - 1], frames[|frames| - 1];
      StreamSplit(front, k);
      SplitParts(frames, k);
      StreamAppend(front[k..], last);
      Associative(Stream(front[..k]), Stream(front[k..]), last);
    }
  }

  lemma SplitParts(frames: seq<seq<Byte>>, k: nat)
    requires k < |frames|
    ensures var front := frames[..|frames| - 1];
      front[..k] == frames[..k] && frames[k..] == front[k..] + [frames[|frames| - 1]]
  {
  }

  lemma StreamHead(frames: seq<seq<Byte>>)
    requires frames != []
    ensures Stream(frames) == frames[0] + Stream(frames[1..])
  {
    StreamSplit(frames, 1);
    assert frames[..1] == [] + [frames[0]];
    StreamAppend([], frames[0]);
  }

  // ----- sending -----

  /** `reported`: the trace sink takes the report of a whole write; otherwise it throws. */
  datatype Attempt = Attempt(connects: bool, script: seq<WriteEvent>, reported: bool)

  /** The attempt writes the whole frame on a connection that is there or made. */
  predicate WritesFrame(a: Attempt, connected: bool, outbound: bool, size: nat) {
    (connected || (outbound && a.connects)) && TakesAll(a.script, size)
  }

  /** Whether the attempts from k on end in a send that returns. */
  predicate Returns(attempts: seq<Attempt>, k: nat, connected: bool, outbound: bool, size: nat)
    requires k <= |attempts|
    decreases |attempts| - k
  {
    k < |attempts| &&
    ((WritesFrame(attempts[k], connected, outbound, size) && attempts[k].reported)
     || Returns(attempts, k + 1, false, outbound, size))
  }

  /** How many whole frames those attempts write whose report fails, so that the frame is sent again or given up. */
  function Unreported(attempts: seq<Attempt>, k: nat, connected: bool, outbound: bool, size: nat): nat
    requires k <= |attempts|
    decreases |attempts| - k
  {
    if k == |attempts| then 0
    else if !WritesFrame(attempts[k], connected, outbound, size) then Unreported(attempts, k + 1, false, outbound, size)
    else if attempts[k].reported then 0
    else Unreported(attempts, k + 1, false, outbound, size) + 1
  }

  predicate AllReported(attempts: seq<Attempt>) {
    forall k :: 0 <= k < |attempts| ==> attempts[k].reported
  }

  lemma {:induction false} ReportedOnce(attempts: seq<Attempt>, k: nat, connected: bool, outbound: bool, size: nat)
    requires k <= |attempts| && AllReported(attempts)
    ensures Unreported(attempts, k, connected, outbound, size) == 0
    decreases |attempts| - k
  {
    if k < |attempts| {
      ReportedOnce(attempts, k + 1, false, outbound, size);
    }
  }

  /** Attempts before k have written `copies` whole frames, and the send's result is what those from k on make it. */
  ghost predicate Remain(attempts: seq<Attempt>, was: bool, outbound: bool, size: nat, k: nat, connected: bool, copies: nat)
    requires k <= |attempts|
  {
    && Returns(attempts, 0, was, outbound, size) == Returns(attempts, k, connected, outbound, size)
    && Unreported(attempts, 0, was, outbound, size) == copies + Unreported(attempts, k, connected, outbound, size)
  }

  lemma RemainStep(attempts: seq<Attempt>, was: bool, outbound: bool, size: nat, k: nat, connected: bool, copies: nat)
    requires k < |attempts| && Remain(attempts, was, outbound, size, k, connected, copies)
    ensures var wrote := WritesFrame(attempts[k], connected, outbound, size);
      if wrote && attempts[k].reported
      then Returns(attempts, 0, was, outbound, size) && Unreported(attempts, 0, was, outbound, size) == copies
      else Remain(attempts, was, outbound, size, k + 1, false, copies + if wrote then 1 else 0)
  {
  }

  /** A sink that throws once: with reconnection the frame is written twice, without it a send that fails wrote it. */
  lemma ThrowingSinkRepeats(script: seq<WriteEvent>, size: nat)
    requires TakesAll(script, size)
    ensures var twice := [Attempt(true, script, false), Attempt(true, script, true)];
      Returns(twice, 0, false, true, size) && Unreported(twice, 0, false, true, size) == 1
    ensures var once := [Attempt(true, script, false)];
      !Returns(once, 0, false, true, size) && Unreported(once, 0, false, true, size) == 1
  {
    var twice := [Attempt(true, script, false), Attempt(true, script, true)];
    assert Returns(twice, 1, false, true, size) && Unreported(twice, 1, false, true, size) == 0;
  }

  function Times(framed: seq<Byte>, n: nat): (frames: seq<seq<Byte>>)
    ensures |frames| == n
  {
    seq(n, i => framed)
  }

  lemma TimesStep(before: seq<seq<Byte>>, framed: seq<Byte>, n: nat)
    ensures before + Times(framed, n) + [framed] == before + Times(framed, n + 1)
  {
    assert Times(framed, n) + [framed] == Times(framed, n + 1);
    Associative(before, Times(framed, n), [framed]);
  }

  /** One connection: the bytes written to it and the frames written whole. */
  datatype Wire = Wire(bytes: seq<Byte>, whole: seq<seq<Byte>>)

  /** Whole frames plus at most one proper prefix of a frame. */
  ghost predicate WireOk(w: Wire) {
    && AllFrames(w.whole)
    && Stream(w.whole) <= w.bytes
    && IsPartial(w.bytes[|Stream(w.whole)|..])
  }

  /** A connection still in use carries whole frames only. */
  ghost predicate WireClean(w: Wire) {
    AllFrames(w.whole) && w.bytes == Stream(w.whole)
  }

  /** The frames written whole, over all connections in order. */
  function AllWhole(wires: seq<Wire>): seq<seq<Byte>> {
    if wires == [] then [] else AllWhole(wires[..|wires| - 1]) + wires[|wires| - 1].whole
  }

  lemma AllWholeNewWire(wires: seq<Wire>)
    ensures AllWhole(wires + [Wire([], [])]) == AllWhole(wires)
  {
    assert (wires + [Wire([], [])])[..|wires|] == wires;
  }

  ghost predicate AllWiresOk(wires: seq<Wire>) {
    forall i :: 0 <= i < |wires| ==> WireOk(wires[i])
  }

  lemma ReplaceLast(wires: seq<Wire>, w: Wire)
    requires wires != [] && AllWiresOk(wires) && WireOk(w)
    ensures AllWiresOk(wires[|wires| - 1 := w])
    ensures AllWhole(wires[|wires| - 1 := w]) == AllWhole(wires[..|wires| - 1]) + w.whole
  {
    assert wires[|wires| - 1 := w][..|wires| - 1] == wires[..|wires| - 1];
  }

  lemma CompletedWire(w: Wire, framed: seq<Byte>)
    requires WireClean(w) && IsFrame(framed)
    ensures WireClean(Wire(w.bytes + framed, w.whole + [framed])) && WireOk(Wire(w.bytes + framed, w.whole + [framed]))
  {
    StreamAppend(w.whole, framed);
  }

  lemma TornWire(w: Wire, framed: seq<Byte>, bytes: seq<Byte>)
    requires WireClean(w) && IsFrame(framed)
    requires w.bytes <= bytes && bytes[|w.bytes|..] <= framed && bytes != w.bytes + framed
    ensures WireOk(Wire(bytes, w.whole))
  {
    var tail := bytes[|w.bytes|..];
    assert bytes == w.bytes + tail;
    assert tail < framed;
  }

  /** The last connection after a write that went through. */
  lemma AfterWholeWrite(wires: seq<Wire>, framed: seq<Byte>, bytes: seq<Byte>)
    requires wires != [] && AllWiresOk(wires) && WireClean(wires[|wires| - 1]) && IsFrame(framed)
    requires bytes == wires[|wires| - 1].bytes + framed
    ensures var w := Wire(bytes, wires[|wires| - 1].whole + [framed]);
      && AllWiresOk(wires[|wires| - 1 := w]) && WireClean(w)
      && AllWhole(wires[|wires| - 1 := w]) == AllWhole(wires) + [framed]
  {
    var w := wires[|wires| - 1];
    CompletedWire(w, framed);
    ReplaceLast(wires, Wire(bytes, w.whole + [framed]));
    var before := AllWhole(wires[..|wires| - 1]);
    assert before + (w.whole + [framed]) == (before + w.whole) + [framed];
  }

  lemma AfterTornWrite(wires: seq<Wire>, framed: seq<Byte>, bytes: seq<Byte>)
    requires wires != [] && AllWiresOk(wires) && WireClean(wires[|wires| - 1]) && IsFrame(framed)
    requires wires[|wires| - 1].bytes <= bytes && bytes[|wires[|wires| - 1].bytes|..] <= framed
    requires bytes != wires[|wires| - 1].bytes + framed
    ensures var w := Wire(bytes, wires[|wires| - 1].whole);
      AllWiresOk(wires[|wires| - 1 := w]) && AllWhole(wires[|wires| - 1 := w]) == AllWhole(wires)
  {
    TornWire(wires[|wires| - 1], framed, bytes);
    ReplaceLast(wires, Wire(bytes, wires[|wires| - 1].whole));
  }

  class Sender {
    const outbound: bool
    const reconnect: bool
    var wires: seq<Wire>  // every connection used so far, the current one last
    var connected: bool

    ghost predicate Valid()
      reads this
    {
      && AllWiresOk(wires)
      && (connected ==> wires != [] && WireClean(wires[|wires| - 1]))
    }

    constructor (outbound: bool, reconnect: bool)
      ensures Valid() && wires == [] && this.outbound == outbound && this.reconnect == reconnect
    {
      this.outbound := outbound;
      this.reconnect := reconnect;
      wires := [];
      connected := false;
    }

    /** Writes one frame to the current connection; a failure closes it. */
    method WriteFrame(framed: seq<Byte>, script: seq<WriteEvent>) returns (ok: bool)
      requires Valid() && connected && IsFrame(framed)
      modifies this
      ensures Valid() && connected == ok && (ok <==> TakesAll(script, |framed|)) && (Smooth(script, |framed|) ==> ok)
      ensures |wires| == |old(wires)| && AllWhole(wires) == if ok then AllWhole(old(wires)) + [framed] else AllWhole(old(wires))
    {
      var w := wires[|wires| - 1];
      var sent, bytes := WriteAll(w.bytes, framed, script);
      if sent {
        KeepWhole(framed, bytes);
      } else {
        KeepTorn(framed, bytes);
      }
      ok := sent;
    }

    method KeepWhole(framed: seq<Byte>, bytes: seq<Byte>)
      requires Valid() && connected && IsFrame(framed) && bytes == wires[|wires| - 1].bytes + framed
      modifies this`wires
      ensures Valid() && |wires| == |old(wires)| && AllWhole(wires) == AllWhole(old(wires)) + [framed]
    {
      AfterWholeWrite(wires, framed, bytes);
      ghost var before := wires;
      wires := wires[|wires| - 1 := Wire(bytes, wires[|wires| - 1].whole + [framed])];
      assert wires[|wires| - 1] == Wire(bytes, before[|wires| - 1].whole + [framed]);
    }

    method KeepTorn(framed: seq<Byte>, bytes: seq<Byte>)
      requires Valid() && connected && IsFrame(framed) && bytes != wires[|wires| - 1].bytes + framed
      requires wires[|wires| - 1].bytes <= bytes && bytes[|wires[|wires| - 1].bytes|..] <= framed
      modifies this
      ensures Valid() && !connected && |wires| == |old(wires)| && AllWhole(wires) == AllWhole(old(wires))
    {
      AfterTornWrite(wires, framed, bytes);
      connected := false;
      wires := wires[|wires| - 1 := Wire(bytes, wires[|wires| - 1].whole)];
    }

    /** One attempt: connects if need be and writes; whatever goes wrong closes the connection. */
    method Try(framed: seq<Byte>, attempt: Attempt) returns (wrote: bool, ok: bool)
      requires Valid() && IsFrame(framed)
      modifies this
      ensures Valid() && |old(wires)| <= |wires| && connected == ok
      ensures wrote == WritesFrame(attempt, old(connected), outbound, |framed|) && ok == (wrote && attempt.reported)
      ensures AllWhole(wires) == if wrote then AllWhole(old(wires)) + [framed] else AllWhole(old(wires))
    {
      if !connected && outbound && attempt.connects {
        AllWholeNewWire(wires);
        wires := wires + [Wire([], [])];
        connected := true;
      }
      wrote := false;
      if connected {
        wrote := WriteFrame(framed, attempt.script);
      }
      ok := wrote && attempt.reported;
      connected := ok;
    }

    /**
     `send`: one attempt, or two on an outbound connection that may reconnect. A failed attempt leaves its
     connection closed, so no later frame can follow a partial one. The frame is written once when the send
     returns and not at all when it fails, and once more for every whole write whose report throws.
     */
    method Send(framed: seq<Byte>, attempts: seq<Attempt>) returns (ok: bool)
      requires Valid() && IsFrame(framed)
      requires |attempts| == if outbound && reconnect then 2 else 1
      modifies this
      ensures Valid() && |old(wires)| <= |wires| && ok == connected
      ensures ok == Returns(attempts, 0, old(connected), outbound, |framed|)
      ensures var copies := Unreported(attempts, 0, old(connected), outbound, |framed|) + if ok then 1 else 0;
        AllWhole(wires) == AllWhole(old(wires)) + Times(framed, copies)
    {
      ok := false;
      ghost var before, copies, was := AllWhole(wires), 0, connected;
      assert before + Times(framed, 0) == before;
      for k := 0 to |attempts|
        invariant Valid() && |old(wires)| <= |wires| && !ok && (k == |attempts| ==> !connected)
        invariant Remain(attempts, was, outbound, |framed|, k, connected, copies)
        invariant AllWhole(wires) == before + Times(framed, copies)
      {
        RemainStep(attempts, was, outbound, |framed|, k, connected, copies);
        TimesStep(before, framed, copies);
        var wrote;
        wrote, ok := Try(framed, attempts[k]);
        copies := copies + if wrote then 1 else 0;
        if ok {
          return;
        }
      }
    }
  }

  // ----- receiving -----

  datatype ReadEvent = ReadRetry | Chunk(count: nat) | ReadTimeout | ReadError
  datatype ReadStatus = Complete | PeerClosed | TimedOut | SocketError

  datatype Received =
    | Frame(bytes: seq<Byte>)
    | Timeout
    | EndOfStream
    | Failed(reason: ReadFailure)
  datatype ReadFailure =
    | HeaderTimeout | HeaderClosed | HeaderError | HeaderInvalid
    | PayloadTimeout | PayloadClosed | PayloadError

  /** No read times out or fails, and between retries there are enough of them to see the peer close. */
  ghost predicate NeverStalls(incoming: seq<Byte>, script: seq<ReadEvent>) {
    Chunks(script) > |incoming| && forall i :: 0 <= i < |script| ==> !script[i].ReadTimeout? && !script[i].ReadError?
  }

  ghost function Chunks(script: seq<ReadEvent>): nat {
    if script == [] then 0 else Chunks(script[..|script| - 1]) + if script[|script| - 1].Chunk? then 1 else 0
  }

  lemma ChunksStep(script: seq<ReadEvent>, i: nat)
    requires i < |script|
    ensures Chunks(script[..i + 1]) == Chunks(script[..i]) + if script[i].Chunk? then 1 else 0
  {
    assert script[..i + 1][..i] == script[..i];
  }

  /** The length prefix at the front is over the limit. */
  ghost predicate HeaderRefused(rest: seq<Byte>) {
    |rest| >= PREFIX_BYTES && DecodedSize(rest[..PREFIX_BYTES]).Err?
  }

  /** The length prefix at the front promises more than there is. */
  ghost predicate CutShort(rest: seq<Byte>) {
    && |rest| >= PREFIX_BYTES && DecodedSize(rest[..PREFIX_BYTES]).Ok?
    && |rest| < PREFIX_BYTES + DecodedSize(rest[..PREFIX_BYTES]).value
  }

  class Receiver {
    const incoming: seq<Byte>  // everything the peer ever writes on this connection
    const script: seq<ReadEvent>
    var position: nat
    var used: nat
    var connected: bool

    ghost predicate Valid()
      reads this
    {
      position <= |incoming| && used <= |script|
    }

    constructor (incoming: seq<Byte>, script: seq<ReadEvent>)
      ensures Valid() && connected && position == 0 && used == 0
      ensures this.incoming == incoming && this.script == script
    {
      this.incoming := incoming;
      this.script := script;
      position, used, connected := 0, 0, true;
    }

    /** The rest of the script never stalls before the peer has closed. */
    ghost predicate Smooth()
      reads this
    {
      NeverStalls(incoming, script) && used <= |script| && Chunks(script[..used]) <= position
    }

    /** `read_all`: bytes are consumed in order however they are split. */
    method ReadAll(count: nat) returns (status: ReadStatus, bytes: seq<Byte>)
      requires Valid()
      modifies this`position, this`used
      ensures Valid() && position == old(position) + |bytes|
      ensures |bytes| <= count && bytes == incoming[old(position)..position]
      ensures status.Complete? <==> |bytes| == count
      ensures status.PeerClosed? ==> position == |incoming|
      ensures old(Smooth()) ==> (status.Complete? && Smooth()) || status.PeerClosed?
    {
      bytes := [];
      while |bytes| < count
        invariant Valid() && position == old(position) + |bytes|
        invariant |bytes| <= count && bytes == incoming[old(position)..position]
        invariant old(Smooth()) ==> Smooth()
        decreases |script| - used
      {
        if used == |script| {
          WholeSlice(script);
          return TimedOut, bytes;
        }
        ChunksStep(script, used);
        var event := script[used];
        used := used + 1;
        match event {
          case ReadRetry =>
          case ReadTimeout => return TimedOut, bytes;
          case ReadError => return SocketError, bytes;
          case Chunk(n) =>
            if position == |incoming| {
              return PeerClosed, bytes;
            }
            var left, wanted := |incoming| - position, count - |bytes|;
            var amount := Clamp(n, if left < wanted then left else wanted);
            bytes := bytes + incoming[position..position + amount];
            position := position + amount;
        }
      }
      return Complete, bytes;
    }

    /** `receive_result` on an accepted connection, up to the decoding of the envelope. */
    method Receive() returns (r: Received)
      requires Valid() && connected
      modifies this`position, this`used, this`connected
      ensures Valid() && old(position) <= position
      ensures connected <==> r.Frame? || r.Timeout?
      ensures r.Timeout? || r.EndOfStream? ==> position == old(position)
      ensures r.Frame? ==> r.bytes == incoming[old(position)..position] && IsFrame(r.bytes)
      ensures r.EndOfStream? ==> position == |incoming|
      ensures r == Failed(HeaderClosed) ==> 0 < |incoming| - old(position) < PREFIX_BYTES
      ensures r == Failed(HeaderInvalid) ==> HeaderRefused(incoming[old(position)..])
      ensures r == Failed(PayloadClosed) ==> CutShort(incoming[old(position)..])
      ensures old(Smooth()) ==> !r.Timeout? && (r.Frame? ==> Smooth())
      ensures old(Smooth()) && r.Failed? ==> r.reason in {HeaderClosed, HeaderInvalid, PayloadClosed}
    {
      var header, prefix := ReadAll(PREFIX_BYTES);
      if header.TimedOut? {
        if |prefix| == 0 {
          return Timeout;
        }
        connected := false;
        return Failed(HeaderTimeout);
      }
      if header.SocketError? {
        connected := false;
        return Failed(HeaderError);
      }
      if header.PeerClosed? {
        connected := false;
        return if |prefix| != 0 then Failed(HeaderClosed) else EndOfStream;
      }
      assert incoming[old(position)..][..PREFIX_BYTES] == prefix;
      var size := DecodeFrameSize(prefix);
      if size.Err? {
        connected := false;
        return Failed(HeaderInvalid);
      }
      var body, payload := ReadAll(size.value);
      if !body.Complete? {
        connected := false;
        return Failed(match body
                      case TimedOut => PayloadTimeout
                      case PeerClosed => PayloadClosed
                      case _ => PayloadError);
      }
      assert (prefix + payload)[..PREFIX_BYTES] == prefix;
      return Frame(prefix + payload);
    }
  }

  // ----- the two ends together -----

  /** At a frame boundary the next bytes are the next frame and what follows it. */
  lemma AtBoundary(frames: seq<seq<Byte>>, tail: seq<Byte>, k: nat)
    requires k < |frames|
    ensures |Stream(frames[..k])| <= |Stream(frames)|
    ensures frames[k] <= (Stream(frames) + tail)[|Stream(frames[..k])|..]
    ensures |Stream(frames[..k + 1])| == |Stream(frames[..k])| + |frames[k]|
  {
    StreamSplit(frames, k);
    StreamHead(frames[k..]);
    assert frames[..k + 1] == frames[..k] + [frames[k]];
    StreamAppend(frames[..k], frames[k]);
    assert (Stream(frames) + tail)[|Stream(frames[..k])|..] == Stream(frames[k..]) + tail;
  }

  /** Frames are self-delimiting. */
  lemma FrameDetermined(f: seq<Byte>, g: seq<Byte>, bytes: seq<Byte>)
    requires IsFrame(f) && IsFrame(g) && f <= bytes && g <= bytes
    ensures f == g
  {
    assert f[..PREFIX_BYTES] == bytes[..PREFIX_BYTES] == g[..PREFIX_BYTES];
    assert f == bytes[..|f|] && g == bytes[..|g|];
  }

  /** No prefix of a partial tail is a frame: a torn write never yields a message. */
  lemma PartialTailIsNoFrame(tail: seq<Byte>, f: seq<Byte>)
    requires IsPartial(tail) && f <= tail
    ensures !IsFrame(f)
  {
    if IsFrame(f) {
      var g :| IsFrame(g) && tail < g;
      FrameDetermined(f, g, g);
    }
  }

  lemma NextBytes(whole: seq<seq<Byte>>, tail: seq<Byte>, incoming: seq<Byte>, k: nat)
    requires incoming == Stream(whole) + tail && k <= |whole|
    ensures var start := |Stream(whole[..k])|;
      && start <= |incoming|
      && (k < |whole| ==> whole[k] <= incoming[start..] && |Stream(whole[..k + 1])| == start + |whole[k]|)
      && (k == |whole| ==> incoming[start..] == tail)
  {
    if k < |whole| {
      AtBoundary(whole, tail, k);
    } else {
      WholeSlice(whole);
    }
  }

  /**
   Reads one connection with any script. The frames returned are a prefix of the frames written whole, in
   order, and all of them when the reader gets to see the peer close, which it does when no read stalls.
   */
  method ReceiveRun(incoming: seq<Byte>, ghost whole: seq<seq<Byte>>, script: seq<ReadEvent>, calls: nat)
    returns (received: seq<seq<Byte>>, last: Received)
    requires WireOk(Wire(incoming, whole))
    ensures received <= whole
    ensures last.EndOfStream? ==> received == whole && incoming == Stream(whole)
    ensures last == Failed(HeaderClosed) || last == Failed(PayloadClosed) ==> received == whole
    ensures last != Failed(HeaderInvalid)
    ensures NeverStalls(incoming, script) && calls > |whole| ==> received == whole
  {
    var receiver := new Receiver(incoming, script);
    ghost var tail := incoming[|Stream(whole)|..];
    ghost var k := 0;
    received, last := [], Timeout;
    assert whole[..0] == [];
    for i := 0 to calls
      invariant fresh(receiver) && receiver.Valid() && receiver.connected && receiver.incoming == incoming
      invariant k <= |whole| && received == whole[..k]
      invariant receiver.position == |Stream(whole[..k])|
      invariant last.Timeout? || last.Frame?
      invariant NeverStalls(incoming, script) ==> receiver.Smooth() && k == i
    {
      ghost var start := receiver.position;
      ghost var rest := incoming[start..];
      NextBytes(whole, tail, incoming, k);
      last := receiver.Receive();
      if last.Frame? {
        assert last.bytes <= rest;
        if k == |whole| {
          PartialTailIsNoFrame(tail, last.bytes);
        }
        FrameDetermined(last.bytes, whole[k], rest);
        PrefixGrows(whole, k);
        received := received + [last.bytes];
        k := k + 1;
      } else if !last.Timeout? {
        NoFalseEnd(whole, tail, k, rest, last);
        return;
      }
    }
  }

  /** What a failed or ended read says about the position in the stream. */
  lemma NoFalseEnd(whole: seq<seq<Byte>>, tail: seq<Byte>, k: nat, rest: seq<Byte>, last: Received)
    requires AllFrames(whole) && IsPartial(tail) && k <= |whole|
    requires k < |whole| ==> whole[k] <= rest
    requires k == |whole| ==> rest == tail
    requires last.EndOfStream? ==> rest == []
    requires last == Failed(HeaderClosed) ==> |rest| < PREFIX_BYTES
    requires last == Failed(HeaderInvalid) ==> HeaderRefused(rest)
    requires last == Failed(PayloadClosed) ==> CutShort(rest)
    ensures last.EndOfStream? || last == Failed(HeaderClosed) || last == Failed(PayloadClosed) ==> k == |whole|
    ensures last != Failed(HeaderInvalid)
    ensures last.EndOfStream? ==> tail == []
  {
    if k < |whole| {
      assert IsFrame(whole[k]);
      assert whole[k][..PREFIX_BYTES] == rest[..PREFIX_BYTES];
    } else if |rest| >= PREFIX_BYTES {
      var f :| IsFrame(f) && tail < f;
      assert f[..PREFIX_BYTES] == rest[..PREFIX_BYTES];
    }
  }
}
