/**
 The in-process channel and the transport over it. Each method body runs under the channel's mutex; a wait
 releases the mutex and, when it returns, the same tests are made again, so any interleaving of pushers,
 poppers and closers is some sequence of these calls.
 */
module InProcess {
  import opened Bytes
  import opened BoundedFifo
  import opened EnvelopeFormat
  import Attributes
  import EnvelopeCodec

  datatype PushStatus = PushAccepted | PushClosed | PushTimedOut | PushRejected | PushWaits
  datatype PopStatus = PopMessage(envelope: Envelope) | PopTimeout | PopClosed | PopWaits

  /** The event a push or a pop makes visible. */
  function PushEvent(e: Envelope, status: PushStatus): Event<Envelope> {
    if status.PushAccepted? then Accepted(e) else Quiet
  }

  function PopEvent(status: PopStatus): Event<Envelope> {
    match status
    case PopMessage(e) => Delivered(e)
    case PopClosed => Ended
    case _ => Quiet
  }

  class Channel {
    const capacity: nat
    const rejectWhenFull: bool
    var queue: seq<Envelope>
    var closed: bool

    ghost function Value(): Fifo<Envelope>
      reads this
    {
      Fifo(capacity, queue, closed)
    }

    ghost predicate Valid()
      reads this
    {
      1 <= capacity <= 65536 && |queue| <= capacity
    }

    constructor (capacity: nat, rejectWhenFull: bool)
      requires 1 <= capacity <= 65536
      ensures Valid() && Value() == Empty(capacity) && this.rejectWhenFull == rejectWhenFull
    {
      this.capacity := capacity;
      this.rejectWhenFull := rejectWhenFull;
      queue := [];
      closed := false;
    }

    /** One pass of `push`: accepted exactly when the channel is open and has room. */
    method Push(e: Envelope, deadlinePassed: bool) returns (status: PushStatus)
      requires Valid()
      modifies this
      ensures Valid()
      ensures Enabled(old(Value()), PushEvent(e, status))
      ensures Value() == After(old(Value()), PushEvent(e, status))
      ensures status.PushAccepted? <==> !old(closed) && |old(queue)| < capacity
      ensures status.PushClosed? <==> old(closed)
      ensures status.PushRejected? ==> rejectWhenFull && |old(queue)| == capacity
    {
      if closed {
        return PushClosed;
      }
      if |queue| >= capacity {
        if rejectWhenFull {
          return PushRejected;
        }
        return if deadlinePassed then PushTimedOut else PushWaits;
      }
      queue := queue + [e];
      return PushAccepted;
    }

    /** One pass of `pop`: closed is reported only once the queue is drained. */
    method Pop(deadlinePassed: bool) returns (status: PopStatus)
      requires Valid()
      modifies this
      ensures Valid()
      ensures Enabled(old(Value()), PopEvent(status))
      ensures Value() == After(old(Value()), PopEvent(status))
      ensures status.PopClosed? <==> old(closed) && old(queue) == []
      ensures status.PopMessage? <==> old(queue) != []
    {
      if !closed && queue == [] {
        return if deadlinePassed then PopTimeout else PopWaits;
      }
      if queue == [] {
        return PopClosed;
      }
      var e := queue[0];
      queue := queue[1..];
      return PopMessage(e);
    }

    method Close()
      requires Valid()
      modifies this
      ensures Valid()
      ensures Value() == After(old(Value()), Event<Envelope>.Closed)
    {
      closed := true;
    }
  }

  // ----- whole runs -----

  datatype Call = CallPush(e: Envelope, deadlinePassed: bool) | CallPop(deadlinePassed: bool) | CallClose

  lemma TraceStep(a: Fifo<Envelope>, trace: seq<Event<Envelope>>, ev: Event<Envelope>)
    requires Legal(a, trace) && Enabled(Final(a, trace), ev)
    ensures Legal(a, trace + [ev]) && Final(a, trace + [ev]) == After(Final(a, trace), ev)
    ensures Accepts(trace + [ev]) == Accepts(trace) + if ev.Accepted? then [ev.item] else []
    ensures Deliveries(trace + [ev]) == Deliveries(trace) + if ev.Delivered? then [ev.item] else []
    ensures Discards(trace + [ev]) == Discards(trace) + if ev.Discarded? then ev.items else []
  {
    assert (trace + [ev])[..|trace|] == trace;
  }

  /**
   Runs any interleaving on a new channel. Whatever the calls, the envelopes popped are a prefix of the
   envelopes accepted, at most `capacity` are outstanding, and a pop that reports "closed" comes only after
   everything accepted was popped.
   */
  method RunCalls(capacity: nat, rejectWhenFull: bool, calls: seq<Call>)
    returns (accepted: seq<Envelope>, popped: seq<Envelope>, sawClosed: bool, ghost trace: seq<Event<Envelope>>)
    requires 1 <= capacity <= 65536
    ensures Legal(Empty(capacity), trace) && Accepts(trace) == accepted && Deliveries(trace) == popped
    ensures popped <= accepted && |accepted| - |popped| <= capacity
    ensures sawClosed ==> popped == accepted
    ensures forall e :: e in accepted ==> CallPush(e, true) in calls || CallPush(e, false) in calls
  {
    var channel := new Channel(capacity, rejectWhenFull);
    accepted, popped, sawClosed, trace := [], [], false, [];
    for i := 0 to |calls|
      invariant channel.Valid() && fresh(channel) && channel.capacity == capacity
      invariant Legal(Empty(capacity), trace) && Final(Empty(capacity), trace) == channel.Value()
      invariant Accepts(trace) == accepted && Deliveries(trace) == popped && Discards(trace) == []
      invariant sawClosed ==> channel.closed && channel.queue == []
      invariant forall e :: e in accepted ==> CallPush(e, true) in calls || CallPush(e, false) in calls
    {
      ghost var ev: Event<Envelope>;
      match calls[i] {
        case CallPush(e, deadlinePassed) =>
          var status := channel.Push(e, deadlinePassed);
          ev := PushEvent(e, status);
          if status.PushAccepted? {
            accepted := accepted + [e];
          }
        case CallPop(deadlinePassed) =>
          var status := channel.Pop(deadlinePassed);
          ev := PopEvent(status);
          if status.PopMessage? {
            popped := popped + [status.envelope];
          } else if status.PopClosed? {
            sawClosed := true;
          }
        case CallClose =>
          channel.Close();
          ev := Event<Envelope>.Closed;
      }
      TraceStep(Empty(capacity), trace, ev);
      trace := trace + [ev];
    }
    Conservation(capacity, trace);
  }

  // ----- the transport -----

  ghost predicate AllSerializable(queue: seq<Envelope>) {
    forall e :: e in queue ==> Serializable(e)
  }

  datatype SendResult = Sent | SendWaits | SendThrows
  datatype ReceiveResult = Received(envelope: Envelope, wireBytes: nat) | NoMessage(status: PopStatus) | Cancelled

  class Transport {
    const channel: Channel
    var closed: bool

    constructor (channel: Channel)
      ensures this.channel == channel && !closed
    {
      this.channel := channel;
      closed := false;
    }

    /** The wire form is validated before the envelope is published. */
    method Send(e: Envelope, enumeration: seq<Attributes.Record>, deadlinePassed: bool) returns (r: SendResult)
      requires channel.Valid() && AllSerializable(channel.queue)
      requires Attributes.Enumerates(enumeration, e.attributes)
      modifies channel
      ensures channel.Valid() && AllSerializable(channel.queue)
      ensures r.Sent? <==> !closed && Serializable(e) && !old(channel.closed) && |old(channel.queue)| < channel.capacity
      ensures channel.queue == old(channel.queue) + if r.Sent? then [e] else []
      ensures channel.closed == old(channel.closed)
    {
      if closed {
        return SendThrows;
      }
      var bytes := EnvelopeCodec.SerializeEnvelope(e, enumeration);
      SerializeRoundTrip(e);
      if bytes.Err? {
        return SendThrows;
      }
      var status := channel.Push(e, deadlinePassed);
      match status {
        case PushAccepted => return Sent;
        case PushWaits => return SendWaits;
        case _ => return SendThrows;
      }
    }

    /**
     The transport may be closed while the call waits; a message that is there is still returned, an end is not.
     The size reported for a received envelope is always available: it was serializable when sent.
     */
    method Receive(deadlinePassed: bool, closedMeanwhile: bool, enumerate: map<Text, Text> -> seq<Attributes.Record>)
      returns (r: ReceiveResult)
      requires channel.Valid() && AllSerializable(channel.queue)
      requires forall m :: Attributes.Enumerates(enumerate(m), m)
      modifies channel
      ensures channel.Valid() && AllSerializable(channel.queue)
      ensures r.Cancelled? <==> closed || (closedMeanwhile && old(channel.queue) == [])
      ensures !closed && old(channel.queue) != [] ==>
        && r == Received(old(channel.queue)[0], EncodedSize(old(channel.queue)[0]))
        && channel.queue == old(channel.queue)[1..]
      ensures r == NoMessage(PopClosed) ==> old(channel.closed) && old(channel.queue) == []
    {
      if closed {
        return Cancelled;
      }
      var status := channel.Pop(deadlinePassed);
      if status.PopMessage? {
        var e := status.envelope;
        assert e in old(channel.queue);
        SerializeRoundTrip(e);
        var bytes := EnvelopeCodec.SerializeEnvelope(e, enumerate(e.attributes));
        assert bytes.Ok?;
        return Received(e, |bytes.value|);
      }
      if closedMeanwhile {
        return Cancelled;
      }
      return NoMessage(status);
    }

    method Close()
      requires channel.Valid()
      modifies this, channel
      ensures closed && channel.Valid() && channel.queue == old(channel.queue)
      ensures channel.closed == (old(channel.closed) || !old(closed))
    {
      if closed {
        return;
      }
      closed := true;
      channel.Close();
    }
  }
}
