/** Codec and transports composed: what an application sends is what its peer receives. */
module Delivery {
  import opened Bytes
  import opened EnvelopeFormat
  import opened Framing
  import opened BoundedFifo
  import Attributes
  import SharedRing
  import SharedSegment
  import PartialWrites
  import TcpStream

  ghost predicate AllSerializable(es: seq<Envelope>) {
    forall i {:trigger Serializable(es[i])} :: 0 <= i < |es| ==> Serializable(es[i])
  }

  ghost function FramesOf(es: seq<Envelope>): (frames: seq<seq<Byte>>)
    requires AllSerializable(es)
    ensures |frames| == |es|
  {
    seq(|es|, i requires 0 <= i < |es| => EnvelopeFrame(es[i]))
  }

  ghost predicate Opens(framed: seq<Byte>, e: Envelope) {
    |framed| >= PREFIX_BYTES && OpenFrame(framed) == Ok(e)
  }

  /** The frames open to exactly these envelopes, one each. */
  ghost predicate OpensTo(frames: seq<seq<Byte>>, es: seq<Envelope>) {
    |frames| == |es| && forall i {:trigger Opens(frames[i], es[i])} :: 0 <= i < |es| ==> Opens(frames[i], es[i])
  }

  lemma FramesOpen(es: seq<Envelope>, frames: seq<seq<Byte>>)
    requires AllSerializable(es) && frames <= FramesOf(es)
    ensures |frames| <= |es| && OpensTo(frames, es[..|frames|])
  {
    forall i | 0 <= i < |frames| ensures Opens(frames[i], es[i]) {
      assert frames[i] == FramesOf(es)[i];
      FrameRoundTrip(es[i]);
    }
  }

  /**
   Shared memory, end to end: when every frame published is the frame of an envelope, the frames the
   consumer takes open to a prefix of those envelopes, and to all of them when it sees the end of the stream
   without a recovery.
   */
  lemma RingDeliversEnvelopes(l: SharedRing.Layout, actions: seq<SharedRing.Action>,
                              trace: seq<Event<seq<Byte>>>, last: SharedRing.Ring, es: seq<Envelope>)
    requires SharedRing.ValidLayout(l) && SharedRing.Reaches(l, actions, trace, last)
    requires AllSerializable(es) && Accepts(trace) == FramesOf(es)
    ensures |Deliveries(trace)| <= |es| && OpensTo(Deliveries(trace), es[..|Deliveries(trace)|])
    ensures trace != [] && trace[|trace| - 1].Ended? && Discards(trace) == [] ==> OpensTo(Deliveries(trace), es)
  {
    SharedRing.RingSafety(l, actions, trace, last);
    FramesOpen(es, Deliveries(trace));
    assert |Deliveries(trace)| == |es| ==> es[..|es|] == es;
  }

  lemma EnvelopeFrameIsFrame(e: Envelope)
    requires Serializable(e)
    ensures TcpStream.IsFrame(EnvelopeFrame(e))
  {
    EnvelopePayload(e);
    TcpStream.FrameBytesIsFrame(Serialize(e).value);
  }

  function Copies(e: Envelope, n: nat): (es: seq<Envelope>)
    ensures |es| == n
  {
    seq(n, i => e)
  }

  lemma FramesOfCopies(es: seq<Envelope>, e: Envelope, n: nat)
    requires AllSerializable(es) && Serializable(e)
    ensures AllSerializable(es + Copies(e, n))
    ensures FramesOf(es + Copies(e, n)) == FramesOf(es) + TcpStream.Times(EnvelopeFrame(e), n)
  {
    SerializableCopies(es, e, n);
    var frames := FramesOf(es) + TcpStream.Times(EnvelopeFrame(e), n);
    forall i | 0 <= i < |es| + n
      ensures FramesOf(es + Copies(e, n))[i] == frames[i]
    {
      AppendedFrame(es, e, n, i);
    }
  }

  lemma SerializableCopies(es: seq<Envelope>, e: Envelope, n: nat)
    requires AllSerializable(es) && Serializable(e)
    ensures AllSerializable(es + Copies(e, n))
  {
    forall i | 0 <= i < |es| + n
      ensures Serializable((es + Copies(e, n))[i])
    {
      assert i < |es| ==> (es + Copies(e, n))[i] == es[i] && Serializable(es[i]);
    }
  }

  lemma AppendedFrame(es: seq<Envelope>, e: Envelope, n: nat, i: nat)
    requires AllSerializable(es) && AllSerializable(es + Copies(e, n)) && Serializable(e) && i < |es| + n
    ensures FramesOf(es + Copies(e, n))[i] == (FramesOf(es) + TcpStream.Times(EnvelopeFrame(e), n))[i]
  {
    FrameAt(es + Copies(e, n), i);
    if i < |es| {
      FrameAt(es, i);
    }
  }

  lemma FrameAt(es: seq<Envelope>, i: nat)
    requires AllSerializable(es) && i < |es|
    ensures FramesOf(es)[i] == EnvelopeFrame(es[i])
  {
  }

  /** The envelopes whose send succeeded, in order. */
  function Chosen(es: seq<Envelope>, oks: seq<bool>): seq<Envelope>
    requires |es| == |oks|
  {
    if es == [] then []
    else Chosen(es[..|es| - 1], oks[..|oks| - 1]) + if oks[|oks| - 1] then [es[|es| - 1]] else []
  }

  /** Each envelope as often as it was written. */
  function Repeated(es: seq<Envelope>, counts: seq<nat>): seq<Envelope>
    requires |es| == |counts|
  {
    if es == [] then []
    else Repeated(es[..|es| - 1], counts[..|counts| - 1]) + Copies(es[|es| - 1], counts[|counts| - 1])
  }

  predicate OnceIfOk(oks: seq<bool>, counts: seq<nat>) {
    |oks| == |counts| && forall i :: 0 <= i < |oks| ==> counts[i] == if oks[i] then 1 else 0
  }

  lemma {:induction false} RepeatedOnce(es: seq<Envelope>, oks: seq<bool>, counts: seq<nat>)
    requires |es| == |oks| && OnceIfOk(oks, counts)
    ensures Repeated(es, counts) == Chosen(es, oks)
    decreases |es|
  {
    if es != [] {
      var n := |es| - 1;
      RepeatedOnce(es[..n], oks[..n], counts[..n]);
      assert Copies(es[n], 1) == [es[n]] && Copies(es[n], 0) == [];
    }
  }

  lemma RepeatedStep(es: seq<Envelope>, counts: seq<nat>, i: nat, count: nat)
    requires i < |es| && |counts| == i
    ensures Repeated(es[..i + 1], counts + [count]) == Repeated(es[..i], counts) + Copies(es[i], count)
  {
    assert es[..i + 1][..i] == es[..i] && (counts + [count])[..i] == counts;
  }

  /** A serializable envelope on a connection that is made, takes all its bytes and is reported. */
  ghost predicate MustSucceed(e: Envelope, attempts: seq<TcpStream.Attempt>) {
    && Serializable(e) && attempts != [] && attempts[0].connects && attempts[0].reported
    && PartialWrites.TakesAll(attempts[0].script, |EnvelopeFrame(e)|)
  }

  /** How often this envelope's frame is written without a report. */
  ghost function UnreportedOf(e: Envelope, attempts: seq<TcpStream.Attempt>, connected: bool): nat {
    if Serializable(e) then TcpStream.Unreported(attempts, 0, connected, true, |EnvelopeFrame(e)|) else 0
  }

  /** `send`: serializes, frames and writes one envelope. */
  method SendOne(sender: TcpStream.Sender, e: Envelope, enumeration: seq<Attributes.Record>,
                 attempts: seq<TcpStream.Attempt>) returns (ok: bool, count: nat)
    requires sender.Valid() && sender.outbound && Attributes.Enumerates(enumeration, e.attributes)
    requires |attempts| == if sender.reconnect then 2 else 1
    modifies sender
    ensures sender.Valid() && (count > 0 ==> Serializable(e))
    ensures count == UnreportedOf(e, attempts, old(sender.connected)) + if ok then 1 else 0
    ensures count > 0 ==>
      TcpStream.AllWhole(sender.wires)
      == old(TcpStream.AllWhole(sender.wires)) + TcpStream.Times(EnvelopeFrame(e), count)
    ensures count == 0 ==> TcpStream.AllWhole(sender.wires) == old(TcpStream.AllWhole(sender.wires))
    ensures TcpStream.AllReported(attempts) ==> count == if ok then 1 else 0
    ensures MustSucceed(e, attempts) ==> ok
  {
    var framed := FrameEnvelope(e, enumeration);
    if framed.Err? {
      return false, 0;
    }
    EnvelopeFrameIsFrame(e);
    ok, count := SendFrame(sender, framed.value, attempts);
  }

  method SendFrame(sender: TcpStream.Sender, framed: seq<Byte>, attempts: seq<TcpStream.Attempt>)
    returns (ok: bool, count: nat)
    requires sender.Valid() && sender.outbound && TcpStream.IsFrame(framed)
    requires |attempts| == if sender.reconnect then 2 else 1
    modifies sender
    ensures sender.Valid() && ok == TcpStream.Returns(attempts, 0, old(sender.connected), true, |framed|)
    ensures count == TcpStream.Unreported(attempts, 0, old(sender.connected), true, |framed|) + if ok then 1 else 0
    ensures TcpStream.AllWhole(sender.wires)
      == old(TcpStream.AllWhole(sender.wires)) + TcpStream.Times(framed, count)
    ensures count == 0 ==> TcpStream.AllWhole(sender.wires) == old(TcpStream.AllWhole(sender.wires))
    ensures TcpStream.AllReported(attempts) ==> count == if ok then 1 else 0
  {
    count := TcpStream.Unreported(attempts, 0, sender.connected, true, |framed|);
    if TcpStream.AllReported(attempts) {
      TcpStream.ReportedOnce(attempts, 0, sender.connected, true, |framed|);
    }
    ghost var before := TcpStream.AllWhole(sender.wires);
    ok := sender.Send(framed, attempts);
    count := count + if ok then 1 else 0;
    assert before + [] == before;
  }

  /** One more send after those that wrote `written`. */
  method SendNext(sender: TcpStream.Sender, e: Envelope, enumeration: seq<Attributes.Record>,
                  attempts: seq<TcpStream.Attempt>, ghost written: seq<Envelope>) returns (ok: bool, count: nat)
    requires sender.Valid() && sender.outbound && Attributes.Enumerates(enumeration, e.attributes)
    requires |attempts| == if sender.reconnect then 2 else 1
    requires AllSerializable(written) && TcpStream.AllWhole(sender.wires) == FramesOf(written)
    modifies sender
    ensures sender.Valid() && AllSerializable(written + Copies(e, count))
    ensures TcpStream.AllWhole(sender.wires) == FramesOf(written + Copies(e, count))
    ensures count >= (if ok then 1 else 0) && (TcpStream.AllReported(attempts) ==> count == if ok then 1 else 0)
  {
    ok, count := SendOne(sender, e, enumeration, attempts);
    if count > 0 {
      FramesOfCopies(written, e, count);
    } else {
      assert written + Copies(e, 0) == written;
    }
  }

  /**
   TCP, sending side: an application sends envelopes one after the other, whatever the socket and the trace sink
   do. The frames written whole, over all connections, are those of the envelopes in order, each as often as it
   was written, which is once for a send that succeeded and not at all for one that failed unless a report
   threw; every connection carries whole frames plus at most one torn one.
   */
  method SendAll(envelopes: seq<Envelope>, enumerate: map<Text, Text> -> seq<Attributes.Record>,
                 attempts: seq<seq<TcpStream.Attempt>>, reconnect: bool)
    returns (wires: seq<TcpStream.Wire>, oks: seq<bool>, written: seq<Envelope>, counts: seq<nat>)
    requires forall m :: Attributes.Enumerates(enumerate(m), m)
    requires |attempts| == |envelopes|
    requires forall i :: 0 <= i < |attempts| ==> |attempts[i]| == if reconnect then 2 else 1
    ensures forall i :: 0 <= i < |wires| ==> TcpStream.WireOk(wires[i])
    ensures AllSerializable(written) && TcpStream.AllWhole(wires) == FramesOf(written)
    ensures |oks| == |counts| == |envelopes| && written == Repeated(envelopes, counts)
    ensures forall i :: 0 <= i < |oks| ==> counts[i] >= if oks[i] then 1 else 0
    ensures (forall i :: 0 <= i < |attempts| ==> TcpStream.AllReported(attempts[i])) ==>
      OnceIfOk(oks, counts) && written == Chosen(envelopes, oks)
  {
    var sender := new TcpStream.Sender(true, reconnect);
    written, oks, counts := [], [], [];
    for i := 0 to |envelopes|
      invariant fresh(sender) && sender.Valid() && sender.outbound && sender.reconnect == reconnect
      invariant AllSerializable(written) && TcpStream.AllWhole(sender.wires) == FramesOf(written)
      invariant |oks| == |counts| == i && written == Repeated(envelopes[..i], counts)
      invariant forall j :: 0 <= j < i ==> counts[j] >= if oks[j] then 1 else 0
      invariant (forall j :: 0 <= j < i ==> TcpStream.AllReported(attempts[j])) ==> OnceIfOk(oks, counts)
    {
      var e := envelopes[i];
      var ok, count := SendNext(sender, e, enumerate(e.attributes), attempts[i], written);
      RepeatedStep(envelopes, counts, i, count);
      written := written + Copies(e, count);
      oks, counts := oks + [ok], counts + [count];
    }
    WholeSlice(envelopes);
    if OnceIfOk(oks, counts) {
      RepeatedOnce(envelopes, oks, counts);
    }
    wires := sender.wires;
  }

  method OpenOne(frames: seq<seq<Byte>>, ghost expected: seq<Envelope>, i: nat) returns (e: Envelope)
    requires OpensTo(frames, expected) && i < |frames|
    ensures e == expected[i]
  {
    assert Opens(frames[i], expected[i]);
    var r := OpenFramed(frames[i]);
    e := r.value;
  }

  method OpenAll(frames: seq<seq<Byte>>, ghost expected: seq<Envelope>) returns (result: seq<Envelope>)
    requires OpensTo(frames, expected)
    ensures result == expected
  {
    result := [];
    for i := 0 to |frames|
      invariant |result| == i
      invariant forall j :: 0 <= j < i ==> result[j] == expected[j]
    {
      var e := OpenOne(frames, expected, i);
      result := result + [e];
    }
  }

  /**
   TCP, receiving side: a connection that carries the frames of `whole` is read back, for every split into
   reads, as a prefix of those envelopes, and as all of them when the peer is seen to close.
   */
  method ReceiveAll(wire: TcpStream.Wire, ghost whole: seq<Envelope>, script: seq<TcpStream.ReadEvent>, calls: nat)
    returns (received: seq<Envelope>, last: TcpStream.Received)
    requires TcpStream.WireOk(wire) && AllSerializable(whole) && wire.whole == FramesOf(whole)
    ensures received <= whole
    ensures last.EndOfStream? ==> received == whole
    ensures TcpStream.NeverStalls(wire.bytes, script) && calls > |whole| ==> received == whole
    ensures last == TcpStream.Failed(TcpStream.HeaderClosed) || last == TcpStream.Failed(TcpStream.PayloadClosed)
      ==> received == whole
  {
    var frames;
    frames, last := TcpStream.ReceiveRun(wire.bytes, wire.whole, script, calls);
    FramesOpen(whole, frames);
    received := OpenAll(frames, whole[..|frames|]);
  }

  // ----- both ends of a TCP connection -----

  /** Which of all whole frames went over connection k. */
  lemma {:induction false} WireShare(wires: seq<TcpStream.Wire>, k: nat)
    requires k < |wires|
    ensures var first := |TcpStream.AllWhole(wires[..k])|;
      && first + |wires[k].whole| <= |TcpStream.AllWhole(wires)|
      && TcpStream.AllWhole(wires)[first..first + |wires[k].whole|] == wires[k].whole
    decreases |wires|
  {
    var front := wires[..|wires| - 1];
    if k == |front| {
      assert wires[..k] == front;
    } else {
      WireShare(front, k);
      assert front[..k] == wires[..k];
      PrefixSlice(TcpStream.AllWhole(front), TcpStream.AllWhole(wires), |TcpStream.AllWhole(wires[..k])|,
                  |TcpStream.AllWhole(wires[..k])| + |wires[k].whole|);
    }
  }

  lemma SliceSerializable(es: seq<Envelope>, i: nat, j: nat, part: seq<Envelope>)
    requires AllSerializable(es) && i <= j <= |es| && part == es[i..j]
    ensures AllSerializable(part)
  {
    forall t | 0 <= t < |part|
      ensures Serializable(part[t])
    {
      assert part[t] == es[i + t] && Serializable(es[i + t]);
    }
  }

  lemma SliceFrame(es: seq<Envelope>, i: nat, part: seq<Envelope>, t: nat)
    requires AllSerializable(es) && AllSerializable(part) && t < |part| && i + t < |es| && part[t] == es[i + t]
    ensures FramesOf(part)[t] == FramesOf(es)[i + t]
  {
    FrameAt(part, t);
    FrameAt(es, i + t);
  }

  lemma FramesOfSlice(es: seq<Envelope>, i: nat, j: nat, part: seq<Envelope>, frames: seq<seq<Byte>>)
    requires AllSerializable(es) && i <= j <= |es| && part == es[i..j] && AllSerializable(part)
    requires frames == FramesOf(es)[i..j]
    ensures FramesOf(part) == frames
  {
    forall t | 0 <= t < |part|
      ensures FramesOf(part)[t] == frames[t]
    {
      SliceFrame(es, i, part, t);
    }
  }

  /** The envelopes whose frames went over connection k. */
  ghost function Share(wires: seq<TcpStream.Wire>, sent: seq<Envelope>, k: nat): seq<Envelope>
    requires k < |wires| && |TcpStream.AllWhole(wires)| == |sent|
  {
    WireShare(wires, k);
    var first := |TcpStream.AllWhole(wires[..k])|;
    sent[first..first + |wires[k].whole|]
  }

  lemma WireCarries(wires: seq<TcpStream.Wire>, sent: seq<Envelope>, k: nat)
    requires AllSerializable(sent) && TcpStream.AllWhole(wires) == FramesOf(sent) && k < |wires|
    ensures AllSerializable(Share(wires, sent, k)) && wires[k].whole == FramesOf(Share(wires, sent, k))
  {
    var first := |TcpStream.AllWhole(wires[..k])|;
    var end := first + |wires[k].whole|;
    WireShare(wires, k);
    ShareIsSlice(wires, sent, k, first, end);
    SliceSerializable(sent, first, end, Share(wires, sent, k));
    FramesOfSlice(sent, first, end, Share(wires, sent, k), wires[k].whole);
  }

  lemma ShareIsSlice(wires: seq<TcpStream.Wire>, sent: seq<Envelope>, k: nat, first: nat, end: nat)
    requires k < |wires| && |TcpStream.AllWhole(wires)| == |sent|
    requires first == |TcpStream.AllWhole(wires[..k])| && end == first + |wires[k].whole|
    ensures end <= |sent| && Share(wires, sent, k) == sent[first..end]
  {
    WireShare(wires, k);
  }

  /**
   TCP, end to end: whatever the sockets do on either side, what is received on a connection is a prefix of the
   envelopes written whole to it, in order, and all of them when no read stalls. Those written are, unless a
   report threw, the envelopes whose sends succeeded.
   */
  method TcpRun(envelopes: seq<Envelope>, enumerate: map<Text, Text> -> seq<Attributes.Record>,
                attempts: seq<seq<TcpStream.Attempt>>, reconnect: bool,
                connection: nat, readScript: seq<TcpStream.ReadEvent>, calls: nat)
    returns (wires: seq<TcpStream.Wire>, oks: seq<bool>, received: seq<Envelope>,
             written: seq<Envelope>, counts: seq<nat>)
    requires forall m :: Attributes.Enumerates(enumerate(m), m)
    requires |attempts| == |envelopes|
    requires forall i :: 0 <= i < |attempts| ==> |attempts[i]| == if reconnect then 2 else 1
    ensures |oks| == |counts| == |envelopes| && written == Repeated(envelopes, counts)
    ensures forall i :: 0 <= i < |oks| ==> counts[i] >= if oks[i] then 1 else 0
    ensures (forall i :: 0 <= i < |attempts| ==> TcpStream.AllReported(attempts[i])) ==>
      written == Chosen(envelopes, oks)
    ensures |TcpStream.AllWhole(wires)| == |written|
    ensures connection < |wires| ==> received <= Share(wires, written, connection)
    ensures connection < |wires| && calls > |wires[connection].whole| ==>
      TcpStream.NeverStalls(wires[connection].bytes, readScript) ==> received == Share(wires, written, connection)
  {
    wires, oks, written, counts := SendAll(envelopes, enumerate, attempts, reconnect);
    received := [];
    if connection < |wires| {
      WireCarries(wires, written, connection);
      var last;
      received, last := ReceiveAll(wires[connection], Share(wires, written, connection), readScript, calls);
    }
  }
}
