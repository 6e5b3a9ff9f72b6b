/** Receiving datagrams: each carries one framed envelope, and every other datagram is reported and skipped. */
module UdpReceive {
  import opened Bytes
  import opened EnvelopeFormat
  import opened Framing
  import EnvelopeCodec
  import opened SequenceTracker

  /** What one turn of the receive loop finds on the socket. */
  datatype Arrival = Datagram(bytes: seq<Byte>) | Truncated | NothingReady | DeadlinePassed | Closing | SocketError

  datatype Received = Message(envelope: Envelope) | KeepWaiting | Timeout | Cancelled | Failed

  // ----- what a run of arrivals means -----

  /** What an arrival should amount to. */
  datatype Turn = Opened(envelope: Envelope) | Refused | Cut | Idle

  /** A datagram is accepted exactly when it is one whole frame of an envelope. */
  ghost function TurnOf(a: Arrival): Turn {
    match a
    case Datagram(bytes) => (match OpenFrame(bytes) case Ok(e) => Opened(e) case Err(_) => Refused)
    case Truncated => Cut
    case _ => Idle
  }

  ghost function Turns(script: seq<Arrival>): (turns: seq<Turn>)
    ensures |turns| == |script|
  {
    if script == [] then [] else Turns(script[..|script| - 1]) + [TurnOf(script[|script| - 1])]
  }

  ghost function Envelopes(turns: seq<Turn>): seq<Envelope> {
    if turns == [] then []
    else
      var before, last := Envelopes(turns[..|turns| - 1]), turns[|turns| - 1];
      if last.Opened? then before + [last.envelope] else before
  }

  ghost function MalformedIn(turns: seq<Turn>): nat {
    if turns == [] then 0
    else MalformedIn(turns[..|turns| - 1]) + if turns[|turns| - 1].Refused? then 1 else 0
  }

  ghost function CutIn(turns: seq<Turn>): nat {
    if turns == [] then 0 else CutIn(turns[..|turns| - 1]) + if turns[|turns| - 1].Cut? then 1 else 0
  }

  ghost function DatagramsIn(script: seq<Arrival>): nat {
    if script == [] then 0
    else DatagramsIn(script[..|script| - 1]) + if script[|script| - 1].Datagram? then 1 else 0
  }

  function Numbers(es: seq<Envelope>): (numbers: seq<Uint64>)
    ensures |numbers| == |es|
  {
    if es == [] then [] else Numbers(es[..|es| - 1]) + [es[|es| - 1].sequence]
  }

  /** Every datagram that was read whole is a message or was reported malformed, never both. */
  lemma {:induction false} EveryDatagramAccounted(script: seq<Arrival>)
    ensures DatagramsIn(script) == |Envelopes(Turns(script))| + MalformedIn(Turns(script))
  {
    if script != [] {
      EveryDatagramAccounted(script[..|script| - 1]);
      TurnsStep(Turns(script[..|script| - 1]), TurnOf(script[|script| - 1]));
    }
  }

  lemma TurnsStep(turns: seq<Turn>, t: Turn)
    ensures MalformedIn(turns + [t]) == MalformedIn(turns) + if t.Refused? then 1 else 0
    ensures CutIn(turns + [t]) == CutIn(turns) + if t.Cut? then 1 else 0
    ensures Envelopes(turns + [t]) == if t.Opened? then Envelopes(turns) + [t.envelope] else Envelopes(turns)
  {
    assert (turns + [t])[..|turns|] == turns;
  }

  lemma NumbersAppend(es: seq<Envelope>, e: Envelope)
    ensures Numbers(es + [e]) == Numbers(es) + [e.sequence]
  {
    assert (es + [e])[..|es|] == es;
  }

  lemma TurnsAppend(script: seq<Arrival>, i: nat)
    requires i < |script|
    ensures Turns(script[..i + 1]) == Turns(script[..i]) + [TurnOf(script[i])]
  {
    assert script[..i + 1][..i] == script[..i];
  }

  lemma NoTurns(script: seq<Arrival>)
    ensures Turns(script[..0]) == []
  {
  }

  ghost predicate Seen(log: seq<Turn>, delivered: seq<Envelope>, malformed: nat, truncated: nat) {
    delivered == Envelopes(log) && malformed == MalformedIn(log) && truncated == CutIn(log)
  }

  lemma EmptyPayloadIsMalformed()
    ensures Deserialize([]).Err?
  {
  }

  /** The checks made on one datagram; an empty payload is refused before it is decoded. */
  method OpenDatagram(bytes: seq<Byte>) returns (r: Result<Envelope, FrameError>)
    ensures r.Ok? <==> OpenFrame(bytes).Ok?
    ensures r.Ok? ==> r == OpenFrame(bytes)
  {
    if |bytes| < PREFIX_BYTES {
      return Err(PrefixMismatch);
    }
    var size := DecodeFrameSize(bytes[..PREFIX_BYTES]);
    if size.Err? {
      return Err(size.error);
    }
    if size.value == 0 || size.value + PREFIX_BYTES != |bytes| {
      EmptyPayloadIsMalformed();
      assert |bytes| == PREFIX_BYTES ==> bytes[PREFIX_BYTES..] == [];
      return Err(PrefixMismatch);
    }
    var e := EnvelopeCodec.DeserializeBytes(bytes[PREFIX_BYTES..]);
    return match e case Ok(v) => Ok(v) case Err(w) => Err(Malformed(w));
  }

  // ----- the receiver -----

  class Receiver {
    const monitor: Monitor
    var closed: bool
    var malformed: nat
    var truncated: nat
    ghost var log: seq<Turn>
    ghost var delivered: seq<Envelope>

    /** Messages, events and sequence totals are all determined by what arrived. */
    ghost predicate Valid()
      reads this, monitor, monitor.tracker, monitor.tracker.recent
    {
      && Seen(log, delivered, malformed, truncated)
      && monitor.Valid() && monitor.numbers == Numbers(delivered)
    }

    constructor ()
      ensures Valid() && log == [] && delivered == [] && !closed
      ensures fresh(monitor) && fresh(monitor.tracker) && fresh(monitor.tracker.recent)
    {
      monitor := new Monitor();
      closed, malformed, truncated := false, 0, 0;
      log, delivered := [], [];
    }

    method Deliver(e: Envelope)
      requires Valid()
      modifies this`log, this`delivered, monitor, monitor.tracker, monitor.tracker.recent
      ensures Valid() && log == old(log) + [Opened(e)] && delivered == old(delivered) + [e]
    {
      TurnsStep(log, Opened(e));
      NumbersAppend(delivered, e);
      monitor.Receive(e.sequence);
      log, delivered := log + [Opened(e)], delivered + [e];
    }

    method Skip(a: Arrival)
      requires Valid() && !TurnOf(a).Opened?
      modifies this`malformed, this`truncated, this`log
      ensures Valid() && log == old(log) + [TurnOf(a)]
    {
      TurnsStep(log, TurnOf(a));
      if a.Truncated? {
        truncated := truncated + 1;
      } else if a.Datagram? {
        malformed := malformed + 1;
      }
      log := log + [TurnOf(a)];
    }

    /** One turn of the loop: a good datagram is returned, anything else is recorded and skipped. */
    method Examine(a: Arrival) returns (r: Received)
      requires Valid()
      modifies this`malformed, this`truncated, this`log, this`delivered
      modifies monitor, monitor.tracker, monitor.tracker.recent
      ensures Valid() && log == old(log) + [TurnOf(a)]
      ensures delivered == if r.Message? then old(delivered) + [r.envelope] else old(delivered)
    {
      if a.Datagram? {
        var e := OpenDatagram(a.bytes);
        if e.Ok? {
          Deliver(e.value);
          return Message(e.value);
        }
      }
      Skip(a);
      return match a
        case DeadlinePassed => Timeout
        case Closing => Cancelled
        case SocketError => Failed
        case _ => KeepWaiting;
    }

    /**
     `receive_result`: consumes arrivals up to and including the first good datagram, whose envelope it
     returns; nothing good is skipped and nothing bad is returned.
     */
    method Receive(script: seq<Arrival>, from: nat) returns (r: Received, used: nat)
      requires Valid() && from <= |script| && log == Turns(script[..from])
      modifies this`malformed, this`truncated, this`log, this`delivered
      modifies monitor, monitor.tracker, monitor.tracker.recent
      ensures Valid()
      ensures from <= used <= |script| && log == Turns(script[..used]) && r != KeepWaiting
      ensures delivered == if r.Message? then old(delivered) + [r.envelope] else old(delivered)
      ensures closed ==> r == Cancelled && used == from
    {
      if closed {
        return Cancelled, from;
      }
      r, used := Poll(script, from);
    }

    method Advance(script: seq<Arrival>, from: nat) returns (r: Received, used: nat)
      requires Valid() && from < |script| && log == Turns(script[..from])
      modifies this`malformed, this`truncated, this`log, this`delivered
      modifies monitor, monitor.tracker, monitor.tracker.recent
      ensures Valid() && used == from + 1 && log == Turns(script[..used])
      ensures delivered == if r.Message? then old(delivered) + [r.envelope] else old(delivered)
    {
      TurnsAppend(script, from);
      r := Examine(script[from]);
      used := from + 1;
    }

    method Poll(script: seq<Arrival>, from: nat) returns (r: Received, used: nat)
      requires Valid() && from <= |script| && log == Turns(script[..from])
      modifies this`malformed, this`truncated, this`log, this`delivered
      modifies monitor, monitor.tracker, monitor.tracker.recent
      ensures Valid()
      ensures from <= used <= |script| && log == Turns(script[..used]) && r != KeepWaiting
      ensures delivered == if r.Message? then old(delivered) + [r.envelope] else old(delivered)
    {
      used := from;
      while used < |script|
        invariant from <= used <= |script| && Valid() && delivered == old(delivered)
        invariant log == Turns(script[..used])
      {
        r, used := Advance(script, used);
        if r != KeepWaiting {
          return;
        }
      }
      return Timeout, used;
    }
  }

  /**
   Any number of receive calls over any arrivals: the messages returned are exactly the good datagrams, in
   arrival order, and the reported gaps bound how many of the sender's numbers are missing among them.
   */
  method ReceiveRun(receiver: Receiver, script: seq<Arrival>, calls: nat)
    returns (messages: seq<Envelope>, used: nat)
    requires receiver.Valid() && receiver.log == [] && receiver.delivered == []
    modifies receiver, receiver.monitor, receiver.monitor.tracker, receiver.monitor.tracker.recent
    ensures receiver.Valid() && used <= |script|
    ensures messages == Envelopes(Turns(script[..used]))
    ensures messages != [] ==> LossBounded(Numbers(messages), receiver.monitor.totals)
  {
    messages, used := ReceiveCalls(receiver, script, calls);
    if messages != [] {
      DeliveredLoss(Numbers(messages));
    }
  }

  method ReceiveCalls(receiver: Receiver, script: seq<Arrival>, calls: nat)
    returns (messages: seq<Envelope>, used: nat)
    requires receiver.Valid() && receiver.log == [] && receiver.delivered == []
    modifies receiver, receiver.monitor, receiver.monitor.tracker, receiver.monitor.tracker.recent
    ensures receiver.Valid() && used <= |script|
    ensures messages == receiver.delivered && receiver.log == Turns(script[..used])
  {
    messages, used := [], 0;
    NoTurns(script);
    for i := 0 to calls
      invariant receiver.Valid() && used <= |script|
      invariant receiver.log == Turns(script[..used]) && receiver.delivered == messages
    {
      var r;
      r, used := receiver.Receive(script, used);
      if r.Message? {
        messages := messages + [r.envelope];
      }
    }
  }

  ghost predicate LossBounded(numbers: seq<Uint64>, totals: Totals)
    requires numbers != []
  {
    var missing := |MissingWithin(numbers[0], HighestReceived(numbers), numbers)|;
    missing <= totals.gaps <= missing + totals.outOfOrder
  }

  lemma DeliveredLoss(numbers: seq<Uint64>)
    requires numbers != []
    ensures LossBounded(numbers, TotalsOf(numbers))
  {
    GapsBoundLoss(numbers);
    TotalsMeaning(numbers);
  }
}
