/**
 Both ends of a shared-memory segment: the envelopes sent into it, those received from it, and what becomes of
 the others when a process dies inside a call.
 */
module SharedSession {
  import opened Bytes
  import opened EnvelopeFormat
  import opened Framing
  import Attributes
  import SharedRing
  import SharedSegment

  /**
   What one of the processes does next, between taking the mutex and releasing it, or where in that section it
   dies. Any other death under the mutex is a call that fails followed by `DieHoldingMutex`.
   */
  datatype Step =
    | Connect(pid: nat)
    | SendNext(envelope: Envelope, locallyClosed: bool, rejectWhenFull: bool, deadlinePassed: bool)
    | ReceiveNext(deadlinePassed: bool, closedOnEntry: bool, locallyClosed: bool)
    | CloseHandle(alreadyClosed: bool, producer: bool, self: nat)
    | DieHoldingMutex
    | DieInSend(envelope: Envelope, locallyClosed: bool, copied: nat, published: bool)
    | DieInReceive
    | DieRecovering(progress: SharedRing.Progress)

  predicate IsDeath(step: Step) {
    step.DieHoldingMutex? || step.DieInSend? || step.DieInReceive? || step.DieRecovering?
  }

  ghost predicate FramesAre(frames: seq<seq<Byte>>, es: seq<Envelope>) {
    |frames| == |es| && forall i {:trigger FrameIs(frames[i], es[i])} :: 0 <= i < |es| ==> FrameIs(frames[i], es[i])
  }

  lemma FramesAppend(frames: seq<seq<Byte>>, es: seq<Envelope>, framed: seq<Byte>, e: Envelope)
    requires FramesAre(frames, es) && FrameIs(framed, e)
    ensures FramesAre(frames + [framed], es + [e])
  {
    var frames', es' := frames + [framed], es + [e];
    forall i | 0 <= i < |es'|
      ensures FrameIs(frames'[i], es'[i])
    {
      if i < |es| {
        assert FrameIs(frames[i], es[i]);
      }
    }
  }

  lemma FramesTail(frames: seq<seq<Byte>>, es: seq<Envelope>)
    requires FramesAre(frames, es) && es != []
    ensures FramesAre(frames[1..], es[1..])
  {
    forall i | 0 <= i < |es| - 1
      ensures FrameIs(frames[1..][i], es[1..][i])
    {
      assert FrameIs(frames[i + 1], es[i + 1]);
    }
  }

  lemma FirstDecodes(frames: seq<seq<Byte>>, es: seq<Envelope>)
    requires FramesAre(frames, es) && es != []
    ensures SharedSegment.Decoded(frames[0]) == SharedSegment.Message(es[0])
  {
    assert FrameIs(frames[0], es[0]);
    FrameRoundTrip(es[0]);
  }

  /** Where the sent envelopes are: received, in the ring, or dropped by recovery. */
  ghost predicate Accounts(sent: seq<Envelope>, received: seq<Envelope>, pending: seq<Envelope>, dropped: seq<Envelope>) {
    sent == received + (pending + dropped)
  }

  lemma AccountSend(sent: seq<Envelope>, received: seq<Envelope>, pending: seq<Envelope>, e: Envelope)
    requires Accounts(sent, received, pending, [])
    ensures Accounts(sent + [e], received, pending + [e], [])
  {
    assert pending + [] == pending && (pending + [e]) + [] == pending + [e];
    Associative(received, pending, [e]);
  }

  lemma AccountTake(sent: seq<Envelope>, received: seq<Envelope>, pending: seq<Envelope>, dropped: seq<Envelope>)
    requires Accounts(sent, received, pending, dropped) && pending != []
    ensures Accounts(sent, received + [pending[0]], pending[1..], dropped)
  {
    HeadSplit(pending);
    Associative([pending[0]], pending[1..], dropped);
    Associative(received, [pending[0]], pending[1..] + dropped);
  }

  lemma AccountDrop(sent: seq<Envelope>, received: seq<Envelope>, pending: seq<Envelope>, dropped: seq<Envelope>)
    requires Accounts(sent, received, pending, dropped)
    ensures Accounts(sent, received, [], pending + dropped)
  {
    assert [] + (pending + dropped) == pending + dropped;
  }

  /** A segment together with what went in and what came out. */
  class Session {
    const segment: SharedSegment.Segment
    var sent: seq<Envelope>      // by sends that returned
    var limbo: seq<Envelope>     // by a send that stored its frame and died before it returned
    var received: seq<Envelope>
    var ended: bool
    var recovered: bool          // somebody emptied the ring of a dead holder
    var consumerGone: bool       // the consumer died inside a receive
    ghost var pending: seq<Envelope>
    ghost var dropped: seq<Envelope>
    ghost var lost: seq<Envelope>
    ghost var stored: seq<Envelope>  // all that ever got into the ring: sent, then limbo
    ghost var taken: seq<Envelope>   // all that ever came out of it: received, then lost
    ghost var claimed: bool      // a close took the mutex over from the dead sender, with its frame in the ring

    ghost predicate Valid()
      reads this, segment, segment.mapping
    {
      segment.Valid() && FramesAre(SharedRing.Frames(segment.Value()), pending) && Books() && Flags()
    }

    ghost predicate Books()
      reads this
    {
      && Accounts(stored, taken, pending, dropped)
      && (if limbo == [] then stored == sent else stored == sent + limbo)
      && (if lost == [] then taken == received else taken == received + lost)
    }

    ghost predicate Flags()
      reads this, segment
    {
      && |limbo| <= 1
      && (lost != [] ==> consumerGone && !ended)
      && (!recovered ==> dropped == [])
      && (recovered || ended ==> segment.closed && pending == [])
      && (limbo != [] ==> segment.closed || segment.ownerDied)
      && (claimed ==> limbo != [])
      && (limbo != [] && !claimed ==>
            (segment.ownerDied || pending == [] || consumerGone) && |pending| + |dropped| > 0)
    }

    /** The dead sender's mutex has not been taken over and its frame is in the ring. */
    ghost predicate Orphaned()
      reads this, segment
    {
      limbo != [] && segment.ownerDied && pending != [] && !claimed && !consumerGone
    }

    predicate Died()
      reads this, segment
    {
      segment.ownerDied || recovered || limbo != []
    }

    constructor (layout: SharedRing.Layout, consumer: nat)
      requires SharedRing.ValidLayout(layout)
      ensures Valid() && fresh(segment) && fresh(segment.mapping) && segment.layout == layout
      ensures sent == limbo == received == [] && !ended && !Died() && !consumerGone && !claimed
      ensures pending == [] && segment.consumerPid == consumer
      ensures segment.head == segment.tail && !segment.closed && !segment.ownerDied && layout.capacity > 0
    {
      segment := new SharedSegment.Segment(layout, consumer);
      sent, limbo, received, ended, recovered, consumerGone := [], [], [], false, false, false;
      pending, dropped, lost, stored, taken, claimed := [], [], [], [], [], false;
      new;
      assert SharedRing.Frames(segment.Value()) == [];
    }

    lemma Unmoved(frames: seq<seq<Byte>>)
      requires segment.Valid() && SharedRing.Frames(segment.Value()) == frames && FramesAre(frames, pending)
      requires Books() && Flags()
      ensures Valid()
    {
    }

    /** Recovery dropped whatever was in the ring. */
    method Drop()
      requires segment.Valid() && segment.closed && SharedRing.Frames(segment.Value()) == [] && Books()
      requires |limbo| <= 1 && (lost != [] ==> consumerGone && !ended) && (claimed ==> limbo != [])
      requires limbo != [] && !claimed ==> |pending| + |dropped| > 0
      modifies this`pending, this`dropped, this`recovered
      ensures Valid() && recovered && pending == []
    {
      AccountDrop(stored, taken, pending, dropped);
      pending, dropped, recovered := [], pending + dropped, true;
    }

    /** The oldest envelope in the ring was delivered. */
    method Take(e: Envelope, ghost frames: seq<seq<Byte>>)
      requires segment.Valid() && FramesAre(frames, pending) && frames != [] && e == pending[0]
      requires SharedRing.Frames(segment.Value()) == frames[1..]
      requires Books() && Flags() && !segment.ownerDied && !consumerGone
      modifies this`received, this`pending, this`taken
      ensures Valid() && received == old(received) + [e] && pending == old(pending)[1..]
    {
      FramesTail(frames, pending);
      AccountTake(stored, taken, pending, dropped);
      received, taken, pending := received + [e], taken + [e], pending[1..];
    }

    /** The frame of an envelope was stored by a send that returns. */
    method Put(e: Envelope, ghost frames: seq<seq<Byte>>)
      requires segment.Valid() && SharedRing.Frames(segment.Value()) == frames && FramesAre(frames, pending + [e])
      requires Books() && Flags() && limbo == [] && !segment.closed
      modifies this`sent, this`pending, this`stored
      ensures Valid() && sent == old(sent) + [e]
    {
      AccountSend(stored, taken, pending, e);
      sent, stored, pending := sent + [e], stored + [e], pending + [e];
      Unmoved(frames);
    }

    /** The frame of an envelope was stored by a send that died. */
    method Orphan(e: Envelope, ghost frames: seq<seq<Byte>>)
      requires segment.Valid() && SharedRing.Frames(segment.Value()) == frames && FramesAre(frames, pending + [e])
      requires Books() && limbo == [] && !recovered && !ended && !claimed && segment.ownerDied
      requires dropped == [] && (lost != [] ==> consumerGone)
      modifies this`limbo, this`pending, this`stored
      ensures Valid() && limbo == old(limbo) + [e] != [] && pending == old(pending) + [e]
    {
      AccountSend(stored, taken, pending, e);
      assert limbo + [e] == [e];
      limbo, stored, pending := [e], stored + [e], pending + [e];
      Unmoved(frames);
    }

    /** The consumer died with the oldest envelope. */
    ghost method Lose(frames: seq<seq<Byte>>)
      requires segment.Valid() && FramesAre(frames, pending) && frames != [] && !ended
      requires SharedRing.Frames(segment.Value()) == frames[1..]
      requires Books() && |limbo| <= 1 && lost == [] && (!recovered ==> dropped == []) && segment.ownerDied
      requires !recovered && (claimed <==> limbo != [])
      modifies this`lost, this`pending, this`taken
      ensures segment.Valid() && FramesAre(SharedRing.Frames(segment.Value()), pending) && Books()
      ensures lost == old(pending)[..1] && pending == old(pending)[1..]
    {
      FramesTail(frames, pending);
      AccountTake(stored, taken, pending, dropped);
      lost, taken, pending := [pending[0]], taken + [pending[0]], pending[1..];
    }

    method SendStep(e: Envelope, enumeration: seq<Attributes.Record>, locallyClosed: bool, alive: nat -> bool,
                    rejectWhenFull: bool, deadlinePassed: bool) returns (outcome: SharedSegment.SendOutcome)
      requires Valid() && Attributes.Enumerates(enumeration, e.attributes)
      modifies this`sent, this`pending, this`stored, this`dropped, this`recovered, segment, segment.mapping
      ensures Valid() && sent == if outcome.Sent? then old(sent) + [e] else old(sent)
      ensures Orphaned() ==> old(Orphaned()) && !SharedSegment.ReachesMutex(segment.layout, e, locallyClosed)
      ensures !old(Died()) ==> !Died()
    {
      ghost var frames := SharedRing.Frames(segment.Value());
      var recoveries := segment.recoveries;
      ghost var actions, trace;
      outcome, actions, trace :=
        segment.SendEnvelope(e, enumeration, locallyClosed, alive, rejectWhenFull, deadlinePassed);
      if outcome.Sent? {
        FramesAppend(frames, pending, EnvelopeFrame(e), e);
        Put(e, frames + [EnvelopeFrame(e)]);
      } else if segment.recoveries != recoveries {
        Drop();
      } else {
        Unmoved(frames);
      }
    }

    /** The sender dies while it stores; `ok` when its frame was in the ring by then. */
    method DieInSendStep(e: Envelope, enumeration: seq<Attributes.Record>, locallyClosed: bool, alive: nat -> bool,
                         copied: nat, published: bool) returns (ok: bool)
      requires Valid() && Attributes.Enumerates(enumeration, e.attributes)
      modifies this`limbo, this`pending, this`stored, this`dropped, this`recovered, segment, segment.mapping
      ensures Valid() && ok == (published && SharedSegment.ReachesMutex(segment.layout, e, locallyClosed) && old(segment.CanSend(alive)))
      ensures ok ==> pending == old(pending) + [e] && segment.ownerDied
      ensures limbo == if ok then old(limbo) + [e] else old(limbo)
      ensures Orphaned() ==> ok || (old(Orphaned()) && !SharedSegment.ReachesMutex(segment.layout, e, locallyClosed))
    {
      ghost var frames := SharedRing.Frames(segment.Value());
      var recoveries := segment.recoveries;
      var stored;
      ghost var actions, trace;
      stored, actions, trace := segment.DieInSend(e, enumeration, locallyClosed, alive, copied, published);
      ok := stored && published;
      if ok {
        FramesAppend(frames, pending, EnvelopeFrame(e), e);
        Orphan(e, frames + [EnvelopeFrame(e)]);
      } else if !stored && segment.recoveries != recoveries {
        Drop();
      } else {
        Unmoved(frames);
      }
    }

    /** What the outcome of a receive that did not have to recover says about the ring. */
    ghost predicate Fits(outcome: SharedSegment.ReceiveOutcome, frames: seq<seq<Byte>>)
      reads this, segment, segment.mapping
      requires segment.Valid()
    {
      if outcome.Message? then
        && pending != [] && frames != [] && SharedRing.Frames(segment.Value()) == frames[1..]
        && outcome.envelope == pending[0] && !segment.ownerDied
      else
        SharedRing.Frames(segment.Value()) == frames && (outcome.EndOfStream? ==> segment.closed && frames == [])
    }

    method Fetch(alive: nat -> bool, deadlinePassed: bool, closedOnEntry: bool, locallyClosed: bool)
      returns (outcome: SharedSegment.ReceiveOutcome, ghost frames: seq<seq<Byte>>)
      requires Valid() && !consumerGone && (closedOnEntry || !segment.ownerDied)
      modifies segment
      ensures segment.Valid() && FramesAre(frames, pending) && segment.ownerDied == old(segment.ownerDied)
      ensures Flags() && Fits(outcome, frames) && !outcome.ReceiveFailed?
      ensures outcome.Message? <==> !closedOnEntry && pending != []
    {
      frames := SharedRing.Frames(segment.Value());
      if frames != [] {
        FirstDecodes(frames, pending);
      }
      ghost var actions, trace;
      outcome, actions, trace := segment.Receive(alive, deadlinePassed, closedOnEntry, locallyClosed);
    }

    method Note(outcome: SharedSegment.ReceiveOutcome, ghost frames: seq<seq<Byte>>)
      requires segment.Valid() && FramesAre(frames, pending) && Books() && Flags() && !consumerGone
      requires Fits(outcome, frames)
      modifies this`received, this`ended, this`pending, this`taken
      ensures Valid() && ended == (old(ended) || outcome.EndOfStream?)
      ensures received == if outcome.Message? then old(received) + [outcome.envelope] else old(received)
      ensures pending == if outcome.Message? then old(pending)[1..] else old(pending)
    {
      if outcome.Message? {
        Take(outcome.envelope, frames);
      } else {
        ended := ended || outcome.EndOfStream?;
        Unmoved(frames);
      }
    }

    /** A receive that finds the holder of the mutex dead. */
    method Recover(alive: nat -> bool, deadlinePassed: bool, locallyClosed: bool)
      returns (outcome: SharedSegment.ReceiveOutcome)
      requires Valid() && segment.ownerDied
      modifies this`pending, this`dropped, this`recovered, segment
      ensures Valid() && recovered && pending == [] && outcome == SharedSegment.ReceiveFailed(SharedSegment.RecoveredMutex)
    {
      ghost var actions, trace;
      outcome, actions, trace := segment.Receive(alive, deadlinePassed, false, locallyClosed);
      Drop();
    }

    method ReceiveStep(alive: nat -> bool, deadlinePassed: bool, closedOnEntry: bool, locallyClosed: bool)
      returns (outcome: SharedSegment.ReceiveOutcome)
      requires Valid() && !consumerGone
      modifies this`received, this`ended, this`pending, this`taken, this`dropped, this`recovered, segment
      ensures Valid()
      ensures received == if outcome.Message? then old(received) + [outcome.envelope] else old(received)
      ensures ended == (old(ended) || outcome.EndOfStream?)
      ensures outcome != SharedSegment.ReceiveFailed(SharedSegment.BadFrame)
      ensures !closedOnEntry && !old(segment.ownerDied) && old(pending) != [] ==>
        outcome == SharedSegment.Message(old(pending)[0])
      ensures Orphaned() ==> old(Orphaned()) && closedOnEntry
      ensures !old(Died()) ==> !Died()
      ensures !old(segment.ownerDied) ==>
        && !segment.ownerDied && recovered == old(recovered)
        && pending == if !closedOnEntry && old(pending) != [] then old(pending)[1..] else old(pending)
    {
      if segment.ownerDied && !closedOnEntry {
        outcome := Recover(alive, deadlinePassed, locallyClosed);
      } else {
        ghost var frames;
        outcome, frames := Fetch(alive, deadlinePassed, closedOnEntry, locallyClosed);
        Note(outcome, frames);
      }
    }

    /** The consumer dies inside a receive: what it took out is lost, and nobody receives any more. */
    method DieInReceiveStep()
      requires Valid()
      modifies this`pending, this`lost, this`taken, this`consumerGone, segment
      ensures Valid() && consumerGone
    {
      if segment.ownerDied || segment.head == segment.tail || consumerGone {
        DeathStep();
        consumerGone := true;
        return;
      }
      ghost var frames := SharedRing.Frames(segment.Value());
      ghost var actions, trace := segment.DieInReceive();
      Lose(frames);
      consumerGone := true;
    }

    method ConnectStep(pid: nat, alive: nat -> bool) returns (ok: bool)
      requires Valid()
      modifies this`pending, this`dropped, this`recovered, segment
      ensures Valid() && !Orphaned() && (!old(Died()) ==> !Died())
    {
      var died := segment.ownerDied;
      ghost var actions, trace;
      ok, actions, trace := segment.Connect(pid, alive);
      if died {
        Drop();
      }
    }

    /** The close that takes over a dead sender's mutex keeps the sender's frame in the ring. */
    method CloseStep(alreadyClosed: bool, producer: bool, self: nat)
      requires Valid()
      modifies this`claimed, segment
      ensures Valid() && (alreadyClosed || !segment.ownerDied) && (!old(Died()) ==> !Died())
      ensures claimed == (old(claimed) || (!alreadyClosed && old(Orphaned())))
      ensures Orphaned() ==> old(Orphaned()) && alreadyClosed
    {
      if !alreadyClosed && Orphaned() {
        claimed := true;
      }
      var did;
      ghost var actions, trace;
      did, actions, trace := segment.Close(alreadyClosed, producer, self);
    }

    method DeathStep()
      requires Valid()
      modifies segment`ownerDied
      ensures Valid() && (Orphaned() ==> old(Orphaned()))
    {
      ghost var value := segment.Value();
      if !segment.ownerDied {
        SharedRing.OtherStep(value, SharedRing.HolderDies);
        segment.ownerDied := true;
        assert segment.Value() == value.(lock := SharedRing.Abandoned);
      }
    }

    method DieRecoveringStep(progress: SharedRing.Progress)
      requires Valid()
      modifies this`pending, this`dropped, this`recovered, segment
      ensures Valid() && (Orphaned() ==> old(Orphaned()) && progress.MarkedClosed?)
    {
      if segment.ownerDied {
        ghost var actions, trace := segment.DieRecovering(progress);
        if !progress.MarkedClosed? {
          Drop();
        }
      }
    }

    /** A step whose process lives on; a dead consumer receives nothing. */
    method PerformCall(step: Step, alive: nat -> bool, enumerate: map<Text, Text> -> seq<Attributes.Record>)
      returns (ok: bool)
      requires Valid() && !IsDeath(step) && forall m :: Attributes.Enumerates(enumerate(m), m)
      modifies this, segment, segment.mapping
      ensures Valid() && Leads(old(Now()), Now(), step, ok, segment.layout)
    {
      ok := false;
      match step {
        case SendNext(e, locallyClosed, rejectWhenFull, deadlinePassed) =>
          var outcome := SendStep(e, enumerate(e.attributes), locallyClosed, alive, rejectWhenFull, deadlinePassed);
          ok := outcome.Sent?;
        case ReceiveNext(deadlinePassed, closedOnEntry, locallyClosed) =>
          if !consumerGone {
            var outcome := ReceiveStep(alive, deadlinePassed, closedOnEntry, locallyClosed);
          }
        case Connect(pid) =>
          var connected := ConnectStep(pid, alive);
        case CloseHandle(alreadyClosed, producer, self) => CloseStep(alreadyClosed, producer, self);
      }
    }

    /** A death that leaves no envelope in limbo. */
    method PerformDeath(step: Step)
      requires Valid() && IsDeath(step) && !step.DieInSend?
      modifies this`pending, this`lost, this`taken, this`consumerGone, this`dropped, this`recovered, segment
      ensures Valid() && Leads(old(Now()), Now(), step, false, segment.layout)
    {
      match step {
        case DieHoldingMutex => DeathStep();
        case DieInReceive => DieInReceiveStep();
        case DieRecovering(progress) => DieRecoveringStep(progress);
      }
    }

    ghost function Now(): Standing
      reads this, segment
    {
      Standing(sent, limbo, Orphaned(), claimed, Died())
    }

    method PerformSendDeath(step: Step, alive: nat -> bool, enumerate: map<Text, Text> -> seq<Attributes.Record>)
      returns (ok: bool)
      requires Valid() && step.DieInSend? && forall m :: Attributes.Enumerates(enumerate(m), m)
      modifies this`limbo, this`pending, this`stored, this`dropped, this`recovered, segment, segment.mapping
      ensures Valid() && Leads(old(Now()), Now(), step, ok, segment.layout)
    {
      var e := step.envelope;
      ok := DieInSendStep(e, enumerate(e.attributes), step.locallyClosed, alive, step.copied, step.published);
    }

    method Perform(step: Step, alive: nat -> bool, enumerate: map<Text, Text> -> seq<Attributes.Record>)
      returns (ok: bool)
      requires Valid() && forall m :: Attributes.Enumerates(enumerate(m), m)
      modifies this, segment, segment.mapping
      ensures Valid() && Leads(old(Now()), Now(), step, ok, segment.layout)
    {
      if step.DieInSend? {
        ok := PerformSendDeath(step, alive, enumerate);
      } else if IsDeath(step) {
        PerformDeath(step);
        ok := false;
      } else {
        ok := PerformCall(step, alive, enumerate);
      }
    }

    /** A sender dies after it stored its frame, in a session that could take it. */
    method StoreAndDie(e: Envelope, enumeration: seq<Attributes.Record>)
      requires Valid() && pending == [] && !consumerGone && Attributes.Enumerates(enumeration, e.attributes)
      requires segment.CanSend(pid => true) && SharedSegment.ReachesMutex(segment.layout, e, false)
      modifies this`limbo, this`pending, this`stored, this`dropped, this`recovered, segment, segment.mapping
      ensures Valid() && pending == [e] && limbo == old(limbo) + [e] && segment.ownerDied && claimed == old(claimed)
    {
      var ok := DieInSendStep(e, enumeration, false, pid => true, 0, true);
    }

    /** Whenever a dead sender's frame is in the ring, a close and enough receives deliver it. */
    method CloseAndDrain(consumer: nat)
      requires Valid() && Orphaned()
      modifies this, segment
      ensures Valid() && sent == old(sent) && limbo == old(limbo) && received == sent + limbo
    {
      CloseStep(false, false, consumer);
      while segment.head != segment.tail
        invariant Valid() && !segment.ownerDied && !consumerGone && !recovered && limbo != []
        invariant sent == old(sent) && limbo == old(limbo)
        decreases |pending|
      {
        Occupied();
        var outcome := ReceiveStep(pid => true, false, false, true);
      }
      Occupied();
      assert pending + dropped == [] && taken + [] == taken;
    }

    lemma Occupied()
      requires Valid()
      ensures pending == [] <==> segment.head == segment.tail
    {
      assert |SharedRing.Frames(segment.Value())| == |pending|;
    }

    /** What the books say about what was received. */
    lemma Balance()
      requires Valid()
      ensures received <= sent + limbo
      ensures limbo == [] || !claimed ==> received <= sent
      ensures ended && !recovered ==> received == sent + limbo
    {
      assert stored == sent + limbo;
      assert received <= taken <= stored;
      if limbo != [] && !claimed {
        assert |received| <= |sent|;
      }
      if ended && !recovered {
        assert [] + [] == pending + dropped && taken + [] == taken;
      }
    }
  }

  // ----- what a script says about a dead sender's frame -----

  predicate Closes(step: Step) {
    step.CloseHandle? && !step.alreadyClosed
  }

  predicate NoDeaths(steps: seq<Step>) {
    forall i :: 0 <= i < |steps| ==> !IsDeath(steps[i])
  }

  /** The step takes the mutex over from a dead holder, or empties the ring while trying to. */
  ghost predicate TakesOver(step: Step, layout: SharedRing.Layout) {
    match step
    case Connect(_) => true
    case SendNext(e, locallyClosed, _, _) => SharedSegment.ReachesMutex(layout, e, locallyClosed)
    case DieInSend(e, locallyClosed, _, _) => SharedSegment.ReachesMutex(layout, e, locallyClosed)
    case ReceiveNext(_, closedOnEntry, _) => !closedOnEntry
    case CloseHandle(alreadyClosed, _, _) => !alreadyClosed
    case DieRecovering(progress) => !progress.MarkedClosed?
    case _ => false
  }

  /** A sender died with its frame stored, and nobody has taken the mutex over since. */
  ghost predicate Held(steps: seq<Step>, oks: seq<bool>, layout: SharedRing.Layout)
    requires |steps| == |oks|
  {
    steps != [] &&
    var n := |steps| - 1;
    ((steps[n].DieInSend? && oks[n]) || (Held(steps[..n], oks[..n], layout) && !TakesOver(steps[n], layout)))
  }

  /** The first to take a dead sender's mutex over was a close. */
  ghost predicate ClosedFirst(steps: seq<Step>, oks: seq<bool>, layout: SharedRing.Layout)
    requires |steps| == |oks|
  {
    steps != [] &&
    var n := |steps| - 1;
    (ClosedFirst(steps[..n], oks[..n], layout) || (Closes(steps[n]) && Held(steps[..n], oks[..n], layout)))
  }

  /** The envelopes of the sends that returned, in order. */
  function SentBy(steps: seq<Step>, oks: seq<bool>): seq<Envelope>
    requires |steps| == |oks|
  {
    if steps == [] then []
    else
      var n := |steps| - 1;
      var before := SentBy(steps[..n], oks[..n]);
      if steps[n].SendNext? && oks[n] then before + [steps[n].envelope] else before
  }

  /** The envelope of the send that stored its frame and died. */
  function LimboBy(steps: seq<Step>, oks: seq<bool>): seq<Envelope>
    requires |steps| == |oks|
  {
    if steps == [] then []
    else
      var n := |steps| - 1;
      var before := LimboBy(steps[..n], oks[..n]);
      if steps[n].DieInSend? && oks[n] then before + [steps[n].envelope] else before
  }

  /** Where a session stands, as far as its script tells. */
  datatype Standing =
    Standing(sent: seq<Envelope>, limbo: seq<Envelope>, orphaned: bool, claimed: bool, died: bool)

  ghost predicate Follows(s: Standing, steps: seq<Step>, oks: seq<bool>, layout: SharedRing.Layout)
    requires |steps| == |oks|
  {
    && s.sent == SentBy(steps, oks) && s.limbo == LimboBy(steps, oks)
    && (s.orphaned ==> Held(steps, oks, layout))
    && (s.claimed ==> ClosedFirst(steps, oks, layout))
    && (NoDeaths(steps) ==> !s.died)
  }

  /** What one step does to it. */
  ghost predicate Leads(before: Standing, after: Standing, step: Step, ok: bool, layout: SharedRing.Layout) {
    && after.sent == (if step.SendNext? && ok then before.sent + [step.envelope] else before.sent)
    && after.limbo == (if step.DieInSend? && ok then before.limbo + [step.envelope] else before.limbo)
    && (after.orphaned ==> (step.DieInSend? && ok) || (before.orphaned && !TakesOver(step, layout)))
    && (after.claimed ==> before.claimed || (Closes(step) && before.orphaned))
    && (after.died ==> before.died || IsDeath(step))
  }

  lemma FollowsStep(before: Standing, after: Standing, steps: seq<Step>, oks: seq<bool>, i: nat, ok: bool,
                    layout: SharedRing.Layout)
    requires i < |steps| && |oks| == i && Follows(before, steps[..i], oks, layout)
    requires Leads(before, after, steps[i], ok, layout)
    ensures Follows(after, steps[..i + 1], oks + [ok], layout)
  {
    SentStep(steps, oks, i, ok);
    HeldStep(steps, oks, i, ok, layout);
  }

  /** One more step of a script. */
  lemma ScriptGrows(steps: seq<Step>, oks: seq<bool>, i: nat, ok: bool)
    requires i < |steps| && |oks| == i
    ensures steps[..i + 1][..i] == steps[..i] && (oks + [ok])[..i] == oks && steps[..i + 1] == steps[..i] + [steps[i]]
  {
  }

  lemma SentStep(steps: seq<Step>, oks: seq<bool>, i: nat, ok: bool)
    requires i < |steps| && |oks| == i
    ensures var front, step := steps[..i], steps[i];
      && SentBy(steps[..i + 1], oks + [ok])
         == (if step.SendNext? && ok then SentBy(front, oks) + [step.envelope] else SentBy(front, oks))
      && LimboBy(steps[..i + 1], oks + [ok])
         == (if step.DieInSend? && ok then LimboBy(front, oks) + [step.envelope] else LimboBy(front, oks))
      && (NoDeaths(steps[..i + 1]) <==> NoDeaths(front) && !IsDeath(step))
  {
    ScriptGrows(steps, oks, i, ok);
  }

  lemma HeldStep(steps: seq<Step>, oks: seq<bool>, i: nat, ok: bool, layout: SharedRing.Layout)
    requires i < |steps| && |oks| == i
    ensures var front, step := steps[..i], steps[i];
      && (Held(steps[..i + 1], oks + [ok], layout)
          <==> (step.DieInSend? && ok) || (Held(front, oks, layout) && !TakesOver(step, layout)))
      && (ClosedFirst(steps[..i + 1], oks + [ok], layout)
          <==> ClosedFirst(front, oks, layout) || (Closes(step) && Held(front, oks, layout)))
  {
    ScriptGrows(steps, oks, i, ok);
  }

  /**
   Shared memory, end to end: over any sequence of sends, receives, closes, connections and deaths, in any order
   and by either side, with any view of who is alive at each step, the envelopes received are a prefix of those
   whose sends returned followed by at most one whose sender died after storing it. That one can arrive only if
   the first to take over the dead sender's mutex was a close. An end of stream without a recovery means that
   all of them were received.
   */
  method SharedMemoryRun(layout: SharedRing.Layout, consumer: nat, steps: seq<Step>, lives: nat -> nat -> bool,
                         enumerate: map<Text, Text> -> seq<Attributes.Record>)
    returns (sent: seq<Envelope>, limbo: seq<Envelope>, oks: seq<bool>, received: seq<Envelope>,
             ended: bool, recovered: bool)
    requires SharedRing.ValidLayout(layout) && forall m :: Attributes.Enumerates(enumerate(m), m)
    ensures |oks| == |steps| && sent == SentBy(steps, oks) && limbo == LimboBy(steps, oks) && |limbo| <= 1
    ensures received <= sent + limbo
    ensures limbo == [] || !ClosedFirst(steps, oks, layout) ==> received <= sent
    ensures ended && !recovered ==> received == sent + limbo && (received <= sent <==> limbo == [])
    ensures NoDeaths(steps) ==> limbo == [] && !recovered
  {
    var session := new Session(layout, consumer);
    oks := [];
    assert steps[..0] == [];
    for i := 0 to |steps|
      invariant fresh(session) && fresh(session.segment) && fresh(session.segment.mapping) && session.Valid()
      invariant session.segment.layout == layout && |oks| == i && Follows(session.Now(), steps[..i], oks, layout)
    {
      ghost var before := session.Now();
      var ok := session.Perform(steps[i], lives(i), enumerate);
      FollowsStep(before, session.Now(), steps, oks, i, ok, layout);
      oks := oks + [ok];
    }
    WholeSlice(steps);
    session.Balance();
    return session.sent, session.limbo, oks, session.received, session.ended, session.recovered;
  }

  /**
   A run in which a message arrives whose send never returned: the sender dies after advancing head, a control
   thread of the consumer closes the handle, and the receive that was waiting delivers. `Session.CloseAndDrain`
   does the same in every state with such a message in the ring.
   */
  method DeadSendersMessageArrives(layout: SharedRing.Layout, consumer: nat, e: Envelope,
                                   enumeration: seq<Attributes.Record>)
    returns (sent: seq<Envelope>, received: seq<Envelope>)
    requires SharedRing.ValidLayout(layout) && consumer > 0 && Attributes.Enumerates(enumeration, e.attributes)
    requires SharedSegment.ReachesMutex(layout, e, false)
    ensures sent == [] && received == [e]
  {
    var session := new Session(layout, consumer);
    session.StoreAndDie(e, enumeration);
    session.CloseAndDrain(consumer);
    sent, received := session.sent, session.received;
  }
}
