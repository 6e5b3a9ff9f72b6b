/**
 The shared-memory transport's own code: header fields and a byte mapping updated in place. A call that
 waits on a condition releases the mutex, so each method below is what runs between taking the mutex and
 giving it up; every method is shown to be a run of the protocol's actions.
 */
module SharedSegment {
  import opened Bytes
  import opened BoundedFifo
  import opened SharedRing
  import opened EnvelopeFormat
  import Framing
  import Attributes

  datatype SendOutcome = Sent | WouldBlock | SendFailed(reason: Failure)
  datatype ReceiveOutcome =
    | Message(envelope: Envelope)
    | EndOfStream
    | TimedOut
    | Cancelled
    | WouldWait
    | ReceiveFailed(reason: Failure)
  datatype Failure =
    | LocallyClosed
    | NotSerializable
    | FrameTooBig
    | RecoveredMutex
    | ClosedChannel
    | ConsumerGone
    | RingFull
    | SendTimeout
    | BadFrame

  lemma {:induction false} ExecutesAppend(
    r: Ring, actions: seq<Action>, trace: seq<Event<seq<Byte>>>, m: Ring, a: Action)
    requires Inv(r) && Executes(r, actions, trace, m)
    requires Inv(m) && Apply(m, a).Some?
    ensures Executes(r, actions + [a], trace + [Apply(m, a).value.1], Apply(m, a).value.0)
    decreases |actions|
  {
    var (m', ev) := Apply(m, a).value;
    StepRefines(m, a);
    if actions == [] {
      assert ([a] + [])[1..] == [] && (actions + [a])[1..] == [] && (trace + [ev])[1..] == [];
    } else {
      var r' := Apply(r, actions[0]).value.0;
      StepRefines(r, actions[0]);
      ExecutesAppend(r', actions[1..], trace[1..], m, a);
      assert (actions + [a])[1..] == actions[1..] + [a];
      assert (trace + [ev])[1..] == trace[1..] + [ev];
    }
  }

  lemma OneStep(r: Ring, a: Action)
    requires Inv(r) && Apply(r, a).Some?
    ensures var (r', ev) := Apply(r, a).value;
      Inv(r') && Executes(r, [a], [ev], r') && Abstract(r') == After(Abstract(r), ev)
  {
    StepRefines(r, a);
    ExecutesAppend(r, [], [], r, a);
    assert [] + [a] == [a] && [] + [Apply(r, a).value.1] == [Apply(r, a).value.1];
  }

  // ----- an uninterrupted send -----

  function Overwrite(memory: seq<Byte>, at: nat, bytes: seq<Byte>): (result: seq<Byte>)
    requires at + |bytes| <= |memory|
    ensures |result| == |memory|
  {
    memory[..at] + bytes + memory[at + |bytes|..]
  }

  lemma OverwriteNext(memory: seq<Byte>, at: nat, bytes: seq<Byte>, k: nat)
    requires at + |bytes| <= |memory| && k < |bytes|
    ensures Overwrite(memory, at, bytes[..k])[at + k := bytes[k]] == Overwrite(memory, at, bytes[..k + 1])
  {
  }

  lemma OverwriteTwice(memory: seq<Byte>, at: nat, a: seq<Byte>, b: seq<Byte>)
    requires at + |a| + |b| <= |memory|
    ensures Overwrite(Overwrite(memory, at, a), at + |a|, b) == Overwrite(memory, at, a + b)
  {
  }

  ghost predicate ReadyToSend(r: Ring, framed: seq<Byte>) {
    && Inv(r) && r.lock.Unlocked? && !r.closed && r.head - r.tail < r.layout.capacity
    && 4 <= |framed| <= r.layout.maxMessage
    && Offset(r.layout, r.head) + |Record(framed)| <= |r.memory|
  }

  ghost function AfterCopying(r: Ring, framed: seq<Byte>, k: nat): Ring
    requires ReadyToSend(r, framed) && k <= |Record(framed)|
  {
    r.(memory := Overwrite(r.memory, Offset(r.layout, r.head), Record(framed)[..k]), lock := Copying(framed, k))
  }

  ghost function AfterSend(r: Ring, framed: seq<Byte>): Ring
    requires ReadyToSend(r, framed)
  {
    r.(memory := Overwrite(r.memory, Offset(r.layout, r.head), Record(framed)), head := r.head + 1)
  }

  function CopyActions(framed: seq<Byte>, k: nat): seq<Action> {
    if k == 0 then [BeginSend(framed)] else CopyActions(framed, k - 1) + [CopyByte]
  }

  function CopyTrace(k: nat): seq<Event<seq<Byte>>> {
    if k == 0 then [Quiet] else CopyTrace(k - 1) + [Quiet]
  }

  lemma CopyStart(r: Ring, framed: seq<Byte>)
    requires ReadyToSend(r, framed)
    ensures AfterCopying(r, framed, 0) == r.(lock := Copying(framed, 0))
    ensures Inv(AfterCopying(r, framed, 0)) && Frames(AfterCopying(r, framed, 0)) == Frames(r)
    ensures Executes(r, [BeginSend(framed)], [Quiet], AfterCopying(r, framed, 0))
  {
    var at := Offset(r.layout, r.head);
    assert Overwrite(r.memory, at, Record(framed)[..0]) == r.memory;
    OneStep(r, BeginSend(framed));
  }

  lemma CopyNext(r: Ring, framed: seq<Byte>, k: nat)
    requires ReadyToSend(r, framed) && k < |Record(framed)| && Inv(AfterCopying(r, framed, k))
    ensures Apply(AfterCopying(r, framed, k), CopyByte) == Some((AfterCopying(r, framed, k + 1), Quiet))
  {
    OverwriteNext(r.memory, Offset(r.layout, r.head), Record(framed), k);
  }

  lemma {:induction false} Copies(r: Ring, framed: seq<Byte>, k: nat)
    requires ReadyToSend(r, framed) && k <= |Record(framed)|
    ensures Inv(AfterCopying(r, framed, k))
    ensures Frames(AfterCopying(r, framed, k)) == Frames(r)
    ensures Executes(r, CopyActions(framed, k), CopyTrace(k), AfterCopying(r, framed, k))
    decreases k
  {
    if k == 0 {
      CopyStart(r, framed);
    } else {
      Copies(r, framed, k - 1);
      var m := AfterCopying(r, framed, k - 1);
      CopyNext(r, framed, k - 1);
      CopyByteStep(m);
      ExecutesAppend(r, CopyActions(framed, k - 1), CopyTrace(k - 1), m, CopyByte);
    }
  }

  ghost function SendActions(framed: seq<Byte>): seq<Action> {
    CopyActions(framed, |Record(framed)|) + [Publish] + [FinishSend]
  }

  ghost function SendTrace(framed: seq<Byte>): seq<Event<seq<Byte>>> {
    CopyTrace(|Record(framed)|) + [Accepted(framed)] + [Quiet]
  }

  /** The byte-by-byte protocol, left alone, stores the whole record and appends the frame to the queue. */
  lemma UninterruptedSend(r: Ring, framed: seq<Byte>)
    requires ReadyToSend(r, framed)
    ensures Inv(AfterSend(r, framed)) && Frames(AfterSend(r, framed)) == Frames(r) + [framed]
    ensures Executes(r, SendActions(framed), SendTrace(framed), AfterSend(r, framed))
  {
    var n := |Record(framed)|;
    Copies(r, framed, n);
    var m := AfterCopying(r, framed, n);
    PublishAndUnlock(r, CopyActions(framed, n), CopyTrace(n), m);
    assert Record(framed)[..n] == Record(framed);
    assert AfterSend(r, framed) == m.(head := m.head + 1, lock := Unlocked);
  }

  /** `memcpy` into the mapping. */
  method CopyInto(mapping: array<Byte>, at: nat, bytes: seq<Byte>)
    requires at + |bytes| <= mapping.Length
    modifies mapping
    ensures mapping[..] == Overwrite(old(mapping[..]), at, bytes)
  {
    ghost var before := mapping[..];
    assert before == Overwrite(before, at, bytes[..0]);
    for k := 0 to |bytes|
      invariant mapping[..] == Overwrite(before, at, bytes[..k])
    {
      mapping[at + k] := bytes[k];
      OverwriteNext(before, at, bytes, k);
      assert mapping[..] == Overwrite(before, at, bytes[..k])[at + k := bytes[k]];
    }
    assert bytes[..|bytes|] == bytes;
  }

  method CopyRecord(mapping: array<Byte>, at: nat, framed: seq<Byte>)
    requires at + |Record(framed)| <= mapping.Length
    modifies mapping
    ensures mapping[..] == Overwrite(old(mapping[..]), at, Record(framed))
  {
    var length := PutLittleEndian([], |framed|, LENGTH_BYTES);
    CopyInto(mapping, at, length);
    CopyInto(mapping, at + LENGTH_BYTES, framed);
    OverwriteTwice(old(mapping[..]), at, length, framed);
    assert length == LittleEndian(|framed|, LENGTH_BYTES);
  }

  lemma PublishAndUnlock(start: Ring, actions: seq<Action>, trace: seq<Event<seq<Byte>>>, r: Ring)
    requires Inv(start) && Inv(r) && Executes(start, actions, trace, r)
    requires r.lock.Copying? && r.lock.copied == |Record(r.lock.framed)|
    ensures var done := r.(head := r.head + 1, lock := Unlocked);
      && Inv(done) && Frames(done) == Frames(r) + [r.lock.framed]
      && Executes(start, actions + [Publish] + [FinishSend], trace + [Accepted(r.lock.framed)] + [Quiet], done)
  {
    PublishRun(start, actions, trace, r);
    FinishSendRun(start, actions + [Publish], trace + [Accepted(r.lock.framed)],
                  r.(head := r.head + 1, lock := Published));
  }

  lemma PublishRun(start: Ring, actions: seq<Action>, trace: seq<Event<seq<Byte>>>, r: Ring)
    requires Inv(start) && Inv(r) && Executes(start, actions, trace, r)
    requires r.lock.Copying? && r.lock.copied == |Record(r.lock.framed)|
    ensures var published := r.(head := r.head + 1, lock := Published);
      && Inv(published) && Frames(published) == Frames(r) + [r.lock.framed]
      && Executes(start, actions + [Publish], trace + [Accepted(r.lock.framed)], published)
  {
    PublishApplies(r);
    ExecutesAppend(start, actions, trace, r, Publish);
  }

  lemma PublishApplies(r: Ring)
    requires Inv(r) && r.lock.Copying? && r.lock.copied == |Record(r.lock.framed)|
    ensures var published := r.(head := r.head + 1, lock := Published);
      && Apply(r, Publish) == Some((published, Accepted(r.lock.framed)))
      && Inv(published) && Frames(published) == Frames(r) + [r.lock.framed]
  {
    PublishStep(r);
  }

  lemma FinishSendRun(start: Ring, actions: seq<Action>, trace: seq<Event<seq<Byte>>>, r: Ring)
    requires Inv(start) && Inv(r) && Executes(start, actions, trace, r) && r.lock.Published?
    ensures var done := r.(lock := Unlocked);
      Inv(done) && Frames(done) == Frames(r) && Executes(start, actions + [FinishSend], trace + [Quiet], done)
  {
    OtherStep(r, FinishSend);
    ExecutesAppend(start, actions, trace, r, FinishSend);
  }

  lemma TakeAndUnlock(r: Ring)
    requires Inv(r) && r.lock.Unlocked? && r.head != r.tail
    ensures var done := r.(tail := r.tail + 1);
      && Frames(r) != [] && Frames(r)[0] == FrameOf(r.layout, Slot(r.layout, r.memory, r.tail))
      && Inv(done) && Frames(done) == Frames(r)[1..]
      && Executes(r, [Take] + [FinishTake], [Delivered(Frames(r)[0])] + [Quiet], done)
  {
    var r', ev := TakeOne(r);
    OneStep(r'.(lock := Taken), FinishTake);
    Prepend(r, Take, r'.(lock := Taken), ev, [FinishTake], [Quiet], r');
  }

  // ----- deaths inside a call -----

  lemma DeathRun(start: Ring, actions: seq<Action>, trace: seq<Event<seq<Byte>>>, r: Ring)
    requires Inv(start) && Inv(r) && Executes(start, actions, trace, r) && !r.lock.Abandoned?
    ensures var dead := r.(lock := Abandoned);
      Inv(dead) && Frames(dead) == Frames(r) && Executes(start, actions + [HolderDies], trace + [Quiet], dead)
  {
    OtherStep(r, HolderDies);
    ExecutesAppend(start, actions, trace, r, HolderDies);
  }

  /** The sender dies with k bytes copied: no frame has changed. */
  lemma DeadCopying(r: Ring, framed: seq<Byte>, k: nat)
    requires ReadyToSend(r, framed) && k <= |Record(framed)|
    ensures var dead := AfterCopying(r, framed, k).(lock := Abandoned);
      && Inv(dead) && Frames(dead) == Frames(r)
      && Executes(r, CopyActions(framed, k) + [HolderDies], CopyTrace(k) + [Quiet], dead)
  {
    Copies(r, framed, k);
    DeathRun(r, CopyActions(framed, k), CopyTrace(k), AfterCopying(r, framed, k));
  }

  /** The sender dies between advancing head and releasing the mutex: its frame is in the ring. */
  lemma DeadPublished(r: Ring, framed: seq<Byte>)
    requires ReadyToSend(r, framed)
    ensures var n, dead := |Record(framed)|, AfterSend(r, framed).(lock := Abandoned);
      && Inv(dead) && Frames(dead) == Frames(r) + [framed]
      && Executes(r, CopyActions(framed, n) + [Publish] + [HolderDies], CopyTrace(n) + [Accepted(framed)] + [Quiet], dead)
  {
    var n := |Record(framed)|;
    Copies(r, framed, n);
    var m := AfterCopying(r, framed, n);
    PublishAndDie(r, CopyActions(framed, n), CopyTrace(n), m);
    WholeSlice(Record(framed));
    assert AfterSend(r, framed).(lock := Abandoned) == m.(head := m.head + 1, lock := Abandoned);
  }

  lemma PublishAndDie(start: Ring, actions: seq<Action>, trace: seq<Event<seq<Byte>>>, r: Ring)
    requires Inv(start) && Inv(r) && Executes(start, actions, trace, r)
    requires r.lock.Copying? && r.lock.copied == |Record(r.lock.framed)|
    ensures var dead := r.(head := r.head + 1, lock := Abandoned);
      && Inv(dead) && Frames(dead) == Frames(r) + [r.lock.framed]
      && Executes(start, actions + [Publish] + [HolderDies], trace + [Accepted(r.lock.framed)] + [Quiet], dead)
  {
    PublishRun(start, actions, trace, r);
    DeathRun(start, actions + [Publish], trace + [Accepted(r.lock.framed)], r.(head := r.head + 1, lock := Published));
  }

  /** The consumer dies between advancing tail and releasing the mutex. */
  lemma DeadTaken(r: Ring)
    requires Inv(r) && r.lock.Unlocked? && r.head != r.tail
    ensures var dead := r.(tail := r.tail + 1, lock := Abandoned);
      && Frames(r) != [] && Inv(dead) && Frames(dead) == Frames(r)[1..]
      && Executes(r, [Take] + [HolderDies], [Delivered(Frames(r)[0])] + [Quiet], dead)
  {
    var r', ev := TakeOne(r);
    OneStep(r, Take);
    DeathRun(r, [Take], [ev], r'.(lock := Taken));
  }

  lemma SliceInside(s: seq<Byte>, from: nat, size: nat, skip: nat, count: nat)
    requires from + size <= |s| && skip + count <= size
    ensures s[from..from + size][skip..skip + count] == s[from + skip..from + skip + count]
  {
    var a, b := s[from..from + size][skip..skip + count], s[from + skip..from + skip + count];
    assert |a| == |b| && forall j :: 0 <= j < |a| ==> a[j] == b[j];
  }

  /** The frames are still there, or recovery dropped them all and closed the ring. */
  ghost predicate KeptOrDropped(before: Ring, after: Ring)
    requires Inv(before) && Inv(after)
  {
    || (Frames(after) == Frames(before) && after.recoveries == before.recoveries)
    || (after.closed && Frames(after) == [] && after.recoveries > before.recoveries)
  }

  /** What a receive reports for a frame. */
  ghost function Decoded(framed: seq<Byte>): ReceiveOutcome {
    match Framing.OpenFrame(framed) case Ok(e) => Message(e) case Err(_) => ReceiveFailed(BadFrame)
  }

  /** A send of this envelope is not refused before it takes the mutex. */
  ghost predicate ReachesMutex(layout: Layout, e: Envelope, locallyClosed: bool) {
    !locallyClosed && Serializable(e) && |Framing.EnvelopeFrame(e)| <= layout.maxMessage
  }

  class Segment {
    const layout: Layout
    const mapping: array<Byte>
    var head: nat
    var tail: nat
    var closed: bool
    var recoveries: nat
    var ownerDied: bool
    var producerPid: nat  // zero when no producer is attached
    var consumerPid: nat

    ghost function Value(): Ring
      reads this, mapping
    {
      Ring(layout, mapping[..], head, tail, closed, recoveries, if ownerDied then Abandoned else Unlocked)
    }

    ghost predicate Valid()
      reads this, mapping
    {
      Inv(Value())
    }

    /** `listen`: the creator is the consumer. */
    constructor (layout: Layout, consumer: nat)
      requires ValidLayout(layout)
      ensures Valid() && Value() == Fresh(layout) && fresh(mapping) && this.layout == layout
      ensures consumerPid == consumer && producerPid == 0
    {
      this.layout := layout;
      mapping := new Byte[MappingSize(layout).value](i => 0);
      head, tail, closed, recoveries, ownerDied := 0, 0, false, 0, false;
      producerPid, consumerPid := 0, consumer;
      new;
      assert mapping[..] == Fresh(layout).memory;
      FreshInv(layout);
    }

    /** `lock_header` and `wait_condition`: a dead owner closes the ring and drops its contents. */
    method LockHeader() returns (recovered: bool, ghost actions: seq<Action>, ghost trace: seq<Event<seq<Byte>>>)
      requires Valid()
      modifies this`tail, this`closed, this`recoveries, this`ownerDied
      ensures Valid() && !ownerDied && recovered == old(ownerDied)
      ensures recovered ==> closed && tail == head && recoveries == old(recoveries) + 1
      ensures !recovered ==> Value() == old(Value()) && actions == [] && trace == []
      ensures Executes(old(Value()), actions, trace, Value())
    {
      actions, trace := [], [];
      recovered := ownerDied;
      if ownerDied {
        ghost var before := Value();
        OneStep(before, Recover);
        closed := true;
        tail := head;
        recoveries := recoveries + 1;
        ownerDied := false;
        actions, trace := [Recover], [Discarded(Frames(before))];
      }
    }

    /** `connect` claims the producer's role, which only a dead producer's successor may do. */
    method Connect(pid: nat, alive: nat -> bool)
      returns (ok: bool, ghost actions: seq<Action>, ghost trace: seq<Event<seq<Byte>>>)
      requires Valid()
      modifies this`tail, this`closed, this`recoveries, this`ownerDied, this`producerPid
      ensures Valid() && Executes(old(Value()), actions, trace, Value())
      ensures ok <==> !old(ownerDied) && !old(closed) && !(old(producerPid) != 0 && ProcessAlive(old(producerPid), alive))
      ensures producerPid == if ok then pid else old(producerPid)
      ensures !old(ownerDied) ==> Value() == old(Value())
      ensures old(ownerDied) ==> closed && !ownerDied && Frames(Value()) == [] && recoveries == old(recoveries) + 1
    {
      var recovered;
      recovered, actions, trace := LockHeader();
      if recovered || closed || (producerPid != 0 && ProcessAlive(producerPid, alive)) {
        return false, actions, trace;
      }
      ghost var value := Value();
      producerPid := pid;
      assert Value() == value;
      ok := true;
    }

    /** Copies the length and the frame into the free slot and only then advances head. */
    method StoreRecord(framed: seq<Byte>) returns (ghost actions: seq<Action>, ghost trace: seq<Event<seq<Byte>>>)
      requires Valid() && !closed && !ownerDied && head - tail < layout.capacity
      requires 4 <= |framed| <= layout.maxMessage
      modifies this`head, mapping
      ensures Valid() && head == old(head) + 1
      ensures Frames(Value()) == old(Frames(Value())) + [framed]
      ensures Executes(old(Value()), actions, trace, Value())
    {
      ghost var start := Value();
      SlotInside(layout, head);
      var slot := Offset(layout, head);
      UninterruptedSend(start, framed);
      CopyRecord(mapping, slot, framed);
      head := head + 1;
      assert Value() == AfterSend(start, framed);
      actions, trace := SendActions(framed), SendTrace(framed);
    }

    /** Open, not abandoned, with a live consumer and a free slot. */
    predicate CanSend(alive: nat -> bool)
      reads this
    {
      !ownerDied && !closed && ProcessAlive(consumerPid, alive) && head - tail < layout.capacity
    }

    /** One pass of `send` under the mutex, on entry or after a wait. */
    method Send(framed: seq<Byte>, alive: nat -> bool, rejectWhenFull: bool, deadlinePassed: bool)
      returns (outcome: SendOutcome, ghost actions: seq<Action>, ghost trace: seq<Event<seq<Byte>>>)
      requires Valid() && |framed| >= 4
      modifies this`head, this`tail, this`closed, this`recoveries, this`ownerDied, mapping
      ensures Valid() && Executes(old(Value()), actions, trace, Value())
      ensures outcome.Sent? <==> old(CanSend(alive)) && |framed| <= layout.maxMessage
      ensures outcome.Sent? ==>
        Frames(Value()) == old(Frames(Value())) + [framed] && !closed && recoveries == old(recoveries)
      ensures !outcome.Sent? && !old(ownerDied) ==> Frames(Value()) == old(Frames(Value()))
      ensures outcome.WouldBlock? ==> Value() == old(Value()) && |Frames(Value())| == layout.capacity
      ensures !outcome.Sent? ==> KeptOrDropped(old(Value()), Value())
      ensures old(closed) ==> closed && !outcome.Sent?
      ensures old(ownerDied) && |framed| <= layout.maxMessage ==> closed && Frames(Value()) == [] && !outcome.Sent?
      ensures !old(ownerDied) ==> !ownerDied && recoveries == old(recoveries)
      ensures recoveries == old(recoveries) ==> ownerDied == old(ownerDied)
    {
      actions, trace := [], [];
      if |framed| > layout.maxMessage {
        return SendFailed(FrameTooBig), [], [];
      }
      var recovered;
      recovered, actions, trace := LockHeader();
      if recovered {
        return SendFailed(RecoveredMutex), actions, trace;
      }
      if closed {
        return SendFailed(ClosedChannel), actions, trace;
      }
      if !ProcessAlive(consumerPid, alive) {
        ghost var before := Value();
        OneStep(before, SeeConsumerDead);
        closed := true;
        return SendFailed(ConsumerGone), [SeeConsumerDead], [Closed];
      }
      if head - tail >= layout.capacity {
        if rejectWhenFull {
          return SendFailed(RingFull), actions, trace;
        }
        if deadlinePassed {
          return SendFailed(SendTimeout), actions, trace;
        }
        return WouldBlock, actions, trace;
      }
      actions, trace := StoreRecord(framed);
      outcome := Sent;
    }

    /** `send` from the envelope on: nothing reaches the ring unless it can be serialized. */
    method SendEnvelope(e: Envelope, enumeration: seq<Attributes.Record>, locallyClosed: bool, alive: nat -> bool,
                        rejectWhenFull: bool, deadlinePassed: bool)
      returns (outcome: SendOutcome, ghost actions: seq<Action>, ghost trace: seq<Event<seq<Byte>>>)
      requires Valid() && Attributes.Enumerates(enumeration, e.attributes)
      modifies this`head, this`tail, this`closed, this`recoveries, this`ownerDied, mapping
      ensures Valid() && Executes(old(Value()), actions, trace, Value())
      ensures outcome.Sent? <==> ReachesMutex(layout, e, locallyClosed) && old(CanSend(alive))
      ensures outcome.Sent? ==> && Frames(Value()) == old(Frames(Value())) + [Framing.EnvelopeFrame(e)]
                                && !closed && recoveries == old(recoveries)
      ensures !outcome.Sent? && !old(ownerDied) ==> Frames(Value()) == old(Frames(Value()))
      ensures !outcome.Sent? ==> KeptOrDropped(old(Value()), Value())
      ensures old(closed) ==> closed
      ensures old(ownerDied) && ReachesMutex(layout, e, locallyClosed) ==> closed && Frames(Value()) == []
      ensures outcome.Sent? || !old(ownerDied) ==> !ownerDied && recoveries == old(recoveries)
      ensures recoveries == old(recoveries) ==> ownerDied == old(ownerDied)
    {
      if locallyClosed {
        return SendFailed(LocallyClosed), [], [];
      }
      var framed := Framing.FrameEnvelope(e, enumeration);
      if framed.Err? {
        return SendFailed(NotSerializable), [], [];
      }
      outcome, actions, trace := Send(framed.value, alive, rejectWhenFull, deadlinePassed);
    }

    /** A send that dies while it copies, or after it advanced head and before it releases the mutex. */
    method DieStoring(framed: seq<Byte>, copied: nat, published: bool)
      returns (ghost actions: seq<Action>, ghost trace: seq<Event<seq<Byte>>>)
      requires Valid() && !closed && !ownerDied && head - tail < layout.capacity
      requires 4 <= |framed| <= layout.maxMessage
      modifies this`head, this`ownerDied, mapping
      ensures Valid() && ownerDied && Executes(old(Value()), actions, trace, Value())
      ensures Frames(Value()) == if published then old(Frames(Value())) + [framed] else old(Frames(Value()))
    {
      ghost var start := Value();
      SlotInside(layout, head);
      var slot := Offset(layout, head);
      var record := LittleEndian(|framed|, LENGTH_BYTES) + framed;
      if published {
        DeadPublished(start, framed);
        CopyInto(mapping, slot, record);
        head, ownerDied := head + 1, true;
        assert Value() == AfterSend(start, framed).(lock := Abandoned);
        actions := CopyActions(framed, |record|) + [Publish] + [HolderDies];
        trace := CopyTrace(|record|) + [Accepted(framed)] + [Quiet];
      } else {
        var k := if copied < |record| then copied else |record|;
        DeadCopying(start, framed, k);
        CopyInto(mapping, slot, record[..k]);
        ownerDied := true;
        assert Value() == AfterCopying(start, framed, k).(lock := Abandoned);
        actions, trace := CopyActions(framed, k) + [HolderDies], CopyTrace(k) + [Quiet];
      }
    }

    /** A send that dies while it stores; one that does not get that far has only the effects of one that fails. */
    method DieInSend(e: Envelope, enumeration: seq<Attributes.Record>, locallyClosed: bool, alive: nat -> bool,
                     copied: nat, published: bool)
      returns (stored: bool, ghost actions: seq<Action>, ghost trace: seq<Event<seq<Byte>>>)
      requires Valid() && Attributes.Enumerates(enumeration, e.attributes)
      modifies this`head, this`tail, this`closed, this`recoveries, this`ownerDied, mapping
      ensures Valid() && Executes(old(Value()), actions, trace, Value())
      ensures stored <==> ReachesMutex(layout, e, locallyClosed) && old(CanSend(alive))
      ensures stored ==> ownerDied && !closed && recoveries == old(recoveries)
      ensures stored && published ==> Frames(Value()) == old(Frames(Value())) + [Framing.EnvelopeFrame(e)]
      ensures stored && !published ==> Frames(Value()) == old(Frames(Value()))
      ensures !stored && !old(ownerDied) ==> Frames(Value()) == old(Frames(Value()))
      ensures !stored ==> KeptOrDropped(old(Value()), Value())
      ensures old(closed) ==> closed
      ensures old(ownerDied) && ReachesMutex(layout, e, locallyClosed) ==> closed && Frames(Value()) == []
      ensures !stored && recoveries == old(recoveries) ==> ownerDied == old(ownerDied)
    {
      var framed := Framing.FrameEnvelope(e, enumeration);
      if !locallyClosed && framed.Ok? && |framed.value| <= layout.maxMessage && CanSend(alive) {
        actions, trace := DieStoring(framed.value, copied, published);
        return true, actions, trace;
      }
      var outcome;
      outcome, actions, trace := SendEnvelope(e, enumeration, locallyClosed, alive, true, true);
      stored := false;
    }

    /** A receive that dies between advancing tail and releasing the mutex: the frame is gone. */
    method DieInReceive() returns (ghost actions: seq<Action>, ghost trace: seq<Event<seq<Byte>>>)
      requires Valid() && !ownerDied && head != tail
      modifies this`tail, this`ownerDied
      ensures Valid() && ownerDied && Executes(old(Value()), actions, trace, Value())
      ensures old(Frames(Value())) != [] && Frames(Value()) == old(Frames(Value()))[1..]
    {
      ghost var start := Value();
      DeadTaken(start);
      actions, trace := [Take] + [HolderDies], [Delivered(Frames(start)[0])] + [Quiet];
      tail, ownerDied := tail + 1, true;
      assert Value() == start.(tail := start.tail + 1, lock := Abandoned);
    }

    /** A process that dies while it recovers the mutex of another. */
    method DieRecovering(progress: Progress) returns (ghost actions: seq<Action>, ghost trace: seq<Event<seq<Byte>>>)
      requires Valid() && ownerDied
      modifies this`tail, this`closed, this`recoveries
      ensures Valid() && closed && Executes(old(Value()), actions, trace, Value())
      ensures Frames(Value()) == if progress.MarkedClosed? then old(Frames(Value())) else []
    {
      ghost var start, action := Value(), RecovererDies(progress);
      OneStep(start, action);
      DeadHoldersFrames(start, action);
      actions, trace := [action], [Apply(start, action).value.1];
      closed := true;
      if !progress.MarkedClosed? {
        tail := head;
      }
      if progress.Counted? {
        recoveries := recoveries + 1;
      }
      assert Value() == Apply(start, action).value.0;
    }

    method CopyOut(from: nat, length: nat) returns (bytes: seq<Byte>)
      requires from + length <= mapping.Length
      ensures bytes == mapping[from..from + length]
    {
      bytes := [];
      for k := 0 to length
        invariant bytes == mapping[from..from + k]
      {
        bytes := bytes + [mapping[from + k]];
      }
    }

    /** The frame in the oldest slot. */
    method ReadSlot() returns (framed: seq<Byte>)
      requires Sized(layout, mapping[..]) && ValidLength(layout, Slot(layout, mapping[..], tail))
      ensures framed == FrameOf(layout, Slot(layout, mapping[..], tail)) && |framed| >= 4
    {
      SlotInside(layout, tail);
      var slot := Offset(layout, tail);
      assert Slot(layout, mapping[..], tail)[..LENGTH_BYTES] == mapping[slot..slot + LENGTH_BYTES];
      var length := LittleEndianValue(mapping[slot..slot + LENGTH_BYTES]);
      // The "invalid frame length" branch of the source is dead: no reachable slot can trigger it.
      assert length == LengthOf(Slot(layout, mapping[..], tail));
      framed := CopyOut(slot + LENGTH_BYTES, length);
      SliceInside(mapping[..], slot, Stride(layout.maxMessage), LENGTH_BYTES, length);
    }

    /** Reads the oldest slot and advances tail; the slot is always one complete frame. */
    method TakeRecord()
      returns (framed: seq<Byte>, ghost actions: seq<Action>, ghost trace: seq<Event<seq<Byte>>>)
      requires Valid() && !ownerDied && head != tail
      modifies this`tail, this`closed
      ensures Valid() && closed == old(closed) && |framed| >= 4
      ensures old(Frames(Value())) != [] && framed == old(Frames(Value()))[0]
      ensures Frames(Value()) == old(Frames(Value()))[1..]
      ensures Executes(old(Value()), actions, trace, Value())
    {
      ghost var start := Value();
      TakeAndUnlock(start);
      actions, trace := [Take] + [FinishTake], [Delivered(Frames(start)[0])] + [Quiet];
      framed := ReadSlot();
      tail := tail + 1;
      assert Value() == start.(tail := start.tail + 1);
    }

    /** The body of the wait loop: the ring is empty. */
    method WhenEmpty(producerGone: bool, deadlinePassed: bool, locallyClosed: bool)
      returns (outcome: ReceiveOutcome, ghost actions: seq<Action>, ghost trace: seq<Event<seq<Byte>>>)
      requires Valid() && !ownerDied && head == tail
      modifies this`closed
      ensures Valid() && head == tail && Executes(old(Value()), actions, trace, Value())
      ensures !outcome.Message? && !outcome.ReceiveFailed? && (old(closed) ==> closed) && Frames(Value()) == []
      ensures outcome.EndOfStream? <==> !locallyClosed && (old(closed) || producerGone)
      ensures outcome.EndOfStream? ==> closed && trace == [Ended]
    {
      if locallyClosed {
        return Cancelled, [], [];
      }
      ghost var before := Value();
      assert Frames(before) == [];
      if closed {
        OneStep(before, SeeEnd);
        return EndOfStream, [SeeEnd], [Ended];
      }
      if producerGone {
        OneStep(before, SeeProducerDead);
        closed := true;
        return EndOfStream, [SeeProducerDead], [Ended];
      }
      return if deadlinePassed then TimedOut else WouldWait, [], [];
    }

    /** A producer was attached and its process no longer exists. */
    predicate ProducerGone(alive: nat -> bool)
      reads this
    {
      producerPid != 0 && !ProcessAlive(producerPid, alive)
    }

    /**
     One pass of `receive_result` under the mutex, on entry or after a wait. The oldest frame comes out
     first, and the end of the stream is reported only when no frame is left.
     */
    method Receive(alive: nat -> bool, deadlinePassed: bool, closedOnEntry: bool, locallyClosed: bool)
      returns (outcome: ReceiveOutcome, ghost actions: seq<Action>, ghost trace: seq<Event<seq<Byte>>>)
      requires Valid()
      modifies this`tail, this`closed, this`recoveries, this`ownerDied
      ensures Valid() && Executes(old(Value()), actions, trace, Value())
      ensures closedOnEntry ==> outcome == Cancelled && Value() == old(Value())
      ensures closedOnEntry || !old(ownerDied) ==> recoveries == old(recoveries)
      ensures ownerDied == (old(ownerDied) && closedOnEntry)
      ensures outcome.EndOfStream? ==> closed && old(Frames(Value())) == []
      ensures !closedOnEntry && old(ownerDied) ==>
        && outcome == ReceiveFailed(RecoveredMutex) && closed && Frames(Value()) == []
        && recoveries == old(recoveries) + 1
      ensures !closedOnEntry && !old(ownerDied) && old(Frames(Value())) == [] ==>
        && !outcome.Message? && !outcome.ReceiveFailed? && Frames(Value()) == []
        && (outcome.EndOfStream? <==> !locallyClosed && (old(closed) || ProducerGone(alive)))
      ensures old(closed) ==> closed
      ensures !closedOnEntry && !old(ownerDied) && old(Frames(Value())) != [] ==>
        && closed == old(closed)
        && Frames(Value()) == old(Frames(Value()))[1..]
        && outcome == Decoded(old(Frames(Value()))[0])
    {
      if closedOnEntry {
        return Cancelled, [], [];
      }
      var recovered;
      recovered, actions, trace := LockHeader();
      if recovered {
        return ReceiveFailed(RecoveredMutex), actions, trace;
      }
      if head == tail {
        outcome, actions, trace := WhenEmpty(ProducerGone(alive), deadlinePassed, locallyClosed);
        return;
      }
      outcome, actions, trace := TakeEnvelope();
    }

    /** Takes the oldest frame and decodes it outside the mutex. */
    method TakeEnvelope()
      returns (outcome: ReceiveOutcome, ghost actions: seq<Action>, ghost trace: seq<Event<seq<Byte>>>)
      requires Valid() && !ownerDied && head != tail
      modifies this`tail, this`closed
      ensures Valid() && closed == old(closed) && Executes(old(Value()), actions, trace, Value())
      ensures old(Frames(Value())) != [] && Frames(Value()) == old(Frames(Value()))[1..]
      ensures outcome == Decoded(old(Frames(Value()))[0])
    {
      var framed;
      framed, actions, trace := TakeRecord();
      var content := Framing.OpenFramed(framed);
      outcome := match content case Ok(e) => Message(e) case Err(_) => ReceiveFailed(BadFrame);
    }

    /**
     `request_close`, once per handle: closes the ring and detaches the caller but, unlike recovery, leaves the
     published frames readable.
     */
    method Close(alreadyClosed: bool, producer: bool, self: nat)
      returns (did: bool, ghost actions: seq<Action>, ghost trace: seq<Event<seq<Byte>>>)
      requires Valid()
      modifies this`closed, this`ownerDied, this`producerPid, this`consumerPid
      ensures Valid() && did == !alreadyClosed && Frames(Value()) == old(Frames(Value()))
      ensures Executes(old(Value()), actions, trace, Value())
      ensures did ==> closed && !ownerDied && trace == [Closed]
      ensures did ==> producerPid == if producer && old(producerPid) == self then 0 else old(producerPid)
      ensures did ==> consumerPid == if !producer && old(consumerPid) == self then 0 else old(consumerPid)
      ensures !did ==> Value() == old(Value()) && producerPid == old(producerPid) && consumerPid == old(consumerPid)
    {
      if alreadyClosed {
        return false, [], [];
      }
      ghost var before := Value();
      ghost var action := if ownerDied then CloseAbandoned else RequestClose;
      OneStep(before, action);
      if ownerDied {
        ownerDied := false;
      }
      closed := true;
      Detach(producer, self);
      return true, [action], [Closed];
    }

    /** Forgets the caller's process identifier, if the role is still its own. */
    method Detach(producer: bool, self: nat)
      modifies this`producerPid, this`consumerPid
      ensures producerPid == if producer && old(producerPid) == self then 0 else old(producerPid)
      ensures consumerPid == if !producer && old(consumerPid) == self then 0 else old(consumerPid)
    {
      if producer && producerPid == self {
        producerPid := 0;
      }
      if !producer && consumerPid == self {
        consumerPid := 0;
      }
    }
  }

  /** `process_alive`: process zero is nobody. */
  predicate ProcessAlive(pid: nat, alive: nat -> bool) {
    pid > 0 && alive(pid)
  }
}
