/**
 The POSIX shared-memory ring as a protocol: a byte mapping, head and tail counters, a robust mutex, and
 two processes either of which may die at any byte it copies.
 */
module SharedRing {
  import opened Bytes
  import opened BoundedFifo
  import EnvelopeFormat

  // ----- layout -----

  const ALIGNMENT: nat := 16
  const LENGTH_BYTES: nat := 4
  const MAX_CAPACITY: nat := 65536
  const MIN_MESSAGE: nat := 64
  const MAX_MESSAGE: nat := EnvelopeFormat.MAX_FRAME_BYTES + 4
  const MAX_MAPPING: nat := 256 * 1024 * 1024

  /** `headerBytes` is `sizeof(SharedHeader)`, which depends on the platform's mutex. */
  datatype Layout = Layout(headerBytes: nat, capacity: nat, maxMessage: nat)

  datatype LayoutError = BadCapacity | BadMessageSize | MappingTooLarge

  function Stride(maxMessage: nat): (s: nat)
    ensures LENGTH_BYTES + maxMessage <= s < LENGTH_BYTES + maxMessage + ALIGNMENT
    ensures s % ALIGNMENT == 0
  {
    (LENGTH_BYTES + maxMessage + ALIGNMENT - 1) / ALIGNMENT * ALIGNMENT
  }

  function MappingSize(l: Layout): Result<nat, LayoutError>
    requires l.headerBytes <= MAX_MAPPING
  {
    if l.capacity == 0 || l.capacity > MAX_CAPACITY then Err(BadCapacity)
    else if l.maxMessage < MIN_MESSAGE || l.maxMessage > MAX_MESSAGE then Err(BadMessageSize)
    else if l.capacity > (MAX_MAPPING - l.headerBytes) / Stride(l.maxMessage) then Err(MappingTooLarge)
    else Ok(l.headerBytes + l.capacity * Stride(l.maxMessage))
  }

  ghost predicate ValidLayout(l: Layout) {
    l.headerBytes <= MAX_MAPPING && MappingSize(l).Ok?
  }

  function Offset(l: Layout, n: nat): nat
    requires l.capacity > 0
  {
    l.headerBytes + (n % l.capacity) * Stride(l.maxMessage)
  }

  lemma MulMonotone(a: nat, b: nat, s: nat)
    requires a <= b
    ensures a * s <= b * s
  {
  }

  /** Every slot lies behind the header and inside the mapping, which is within the 256 MiB bound. */
  lemma SlotInside(l: Layout, n: nat)
    requires ValidLayout(l)
    ensures l.headerBytes <= Offset(l, n)
    ensures Offset(l, n) + Stride(l.maxMessage) <= MappingSize(l).value <= MAX_MAPPING
  {
    var s := Stride(l.maxMessage);
    MulMonotone(n % l.capacity + 1, l.capacity, s);
    assert (n % l.capacity + 1) * s == (n % l.capacity) * s + s;
    var room := MAX_MAPPING - l.headerBytes;
    MulMonotone(l.capacity, room / s, s);
    assert room / s * s <= room;
  }

  lemma NextMultiple(c: nat, q: nat)
    ensures c * (q + 1) == c * q + c
  {
  }

  lemma ModWindow(n: nat, m: nat, c: nat)
    requires c > 0 && n < m < n + c
    ensures n % c != m % c
  {
    var q, a, d := n / c, n % c, m - n;
    if a + d < c {
      DivModUnique(m, c, q, a + d);
    } else {
      NextMultiple(c, q);
      DivModUnique(m, c, q + 1, a + d - c);
    }
  }

  /** Two slots of one window of `capacity` messages do not overlap. */
  lemma SlotsDisjoint(l: Layout, n: nat, m: nat)
    requires ValidLayout(l) && n < m < n + l.capacity
    ensures Offset(l, n) + Stride(l.maxMessage) <= Offset(l, m)
         || Offset(l, m) + Stride(l.maxMessage) <= Offset(l, n)
  {
    var s, a, b := Stride(l.maxMessage), n % l.capacity, m % l.capacity;
    ModWindow(n, m, l.capacity);
    if a < b {
      MulMonotone(a + 1, b, s);
      assert (a + 1) * s == a * s + s;
    } else {
      MulMonotone(b + 1, a, s);
      assert (b + 1) * s == b * s + s;
    }
  }

  // ----- slots -----

  function Record(framed: seq<Byte>): seq<Byte> {
    LittleEndian(|framed|, LENGTH_BYTES) + framed
  }

  ghost predicate Sized(l: Layout, memory: seq<Byte>) {
    ValidLayout(l) && |memory| == MappingSize(l).value
  }

  /** The bytes of slot `n`. */
  function Slot(l: Layout, memory: seq<Byte>, n: nat): (slot: seq<Byte>)
    requires Sized(l, memory)
    ensures |slot| == Stride(l.maxMessage)
  {
    SlotInside(l, n);
    memory[Offset(l, n)..Offset(l, n) + Stride(l.maxMessage)]
  }

  function LengthOf(slot: seq<Byte>): nat
    requires |slot| >= LENGTH_BYTES
  {
    LittleEndianValue(slot[..LENGTH_BYTES])
  }

  predicate ValidLength(l: Layout, slot: seq<Byte>)
    requires |slot| >= LENGTH_BYTES
  {
    4 <= LengthOf(slot) <= l.maxMessage
  }

  function FrameOf(l: Layout, slot: seq<Byte>): seq<Byte>
    requires |slot| == Stride(l.maxMessage) && ValidLength(l, slot)
  {
    slot[LENGTH_BYTES..LENGTH_BYTES + LengthOf(slot)]
  }

  lemma RecordParts(slot: seq<Byte>, length: seq<Byte>, framed: seq<Byte>)
    requires |length| + |framed| <= |slot| && slot[..|length| + |framed|] == length + framed
    ensures slot[..|length|] == length && slot[|length|..|length| + |framed|] == framed
  {
    var both := slot[..|length| + |framed|];
    assert slot[..|length|] == both[..|length|];
    assert slot[|length|..|length| + |framed|] == both[|length|..];
  }

  lemma LengthWord(length: nat, maximum: Uint32)
    requires length <= maximum
    ensures LittleEndianValue(LittleEndian(length, LENGTH_BYTES)) == length
  {
    PowersOf256();
    LittleEndianRoundTrip(length, LENGTH_BYTES);
  }

  /** A slot that starts with a whole record reads back as that record's frame. */
  lemma RecordReadsBack(l: Layout, slot: seq<Byte>, framed: seq<Byte>)
    requires ValidLayout(l) && |slot| == Stride(l.maxMessage)
    requires 4 <= |framed| <= l.maxMessage
    requires slot[..LENGTH_BYTES + |framed|] == Record(framed)
    ensures ValidLength(l, slot) && FrameOf(l, slot) == framed
  {
    LengthWord(|framed|, l.maxMessage);
    RecordParts(slot, LittleEndian(|framed|, LENGTH_BYTES), framed);
  }

  // ----- the ring -----

  datatype Lock =
    | Unlocked
    | Copying(framed: seq<Byte>, copied: nat)  // the producer holds the mutex and has copied this many bytes
    | Published                                // the producer has advanced head and still holds the mutex
    | Taken                                    // the consumer has advanced tail and still holds the mutex
    | Abandoned                                // the holder died

  datatype Ring = Ring(
    layout: Layout,
    memory: seq<Byte>,
    head: nat,
    tail: nat,
    closed: bool,
    recoveries: nat,
    lock: Lock)

  /** How far a recovery got: it marks the ring closed, empties it, counts itself, then repairs the mutex. */
  datatype Progress = MarkedClosed | Emptied | Counted

  datatype Action =
    | BeginSend(framed: seq<Byte>)
    | CopyByte
    | Publish
    | FinishSend
    | Take
    | FinishTake
    | SeeEnd            // reader: empty and closed
    | SeeProducerDead   // reader: empty and the producer process is gone
    | SeeConsumerDead   // sender: the consumer process is gone
    | RequestClose
    | HolderDies
    | Recover           // lock_header or wait_condition returns EOWNERDEAD
    | CloseAbandoned    // request_close gets EOWNERDEAD
    | RecovererDies(progress: Progress)

  ghost predicate Inv(r: Ring) {
    && Sized(r.layout, r.memory)
    && r.tail <= r.head <= r.tail + r.layout.capacity
    && (forall n :: r.tail <= n < r.head ==> ValidLength(r.layout, Slot(r.layout, r.memory, n)))
    && (r.lock.Copying? ==>
          && !r.closed
          && r.head < r.tail + r.layout.capacity
          && 4 <= |r.lock.framed| <= r.layout.maxMessage
          && r.lock.copied <= |Record(r.lock.framed)|
          && Slot(r.layout, r.memory, r.head)[..r.lock.copied] == Record(r.lock.framed)[..r.lock.copied])
  }

  function Fresh(l: Layout): Ring
    requires l.headerBytes <= MAX_MAPPING && MappingSize(l).Ok?
  {
    Ring(l, seq(MappingSize(l).value, i => 0), 0, 0, false, 0, Unlocked)
  }

  /** The frames in the live slots, oldest first. */
  ghost function Frames(r: Ring): seq<seq<Byte>>
    requires Inv(r)
  {
    seq(r.head - r.tail, i requires 0 <= i < r.head - r.tail =>
      FrameOf(r.layout, Slot(r.layout, r.memory, r.tail + i)))
  }

  ghost function Abstract(r: Ring): Fifo<seq<Byte>>
    requires Inv(r)
  {
    Fifo(r.layout.capacity, Frames(r), r.closed)
  }

  /** The state an enabled action leads to and the event it makes visible. */
  ghost function Apply(r: Ring, a: Action): Option<(Ring, Event<seq<Byte>>)>
    requires Inv(r)
  {
    match a
    case BeginSend(framed) =>
      if r.lock.Unlocked? && !r.closed && 4 <= |framed| <= r.layout.maxMessage
         && r.head - r.tail < r.layout.capacity
      then Some((r.(lock := Copying(framed, 0)), Quiet)) else None
    case CopyByte =>
      if r.lock.Copying? && r.lock.copied < |Record(r.lock.framed)|
      then
        SlotInside(r.layout, r.head);
        var at := Offset(r.layout, r.head) + r.lock.copied;
        Some((r.(memory := r.memory[at := Record(r.lock.framed)[r.lock.copied]],
                 lock := Copying(r.lock.framed, r.lock.copied + 1)), Quiet))
      else None
    case Publish =>
      if r.lock.Copying? && r.lock.copied == |Record(r.lock.framed)|
      then Some((r.(head := r.head + 1, lock := Published), Accepted(r.lock.framed))) else None
    case FinishSend =>
      if r.lock.Published? then Some((r.(lock := Unlocked), Quiet)) else None
    case Take =>
      if !r.lock.Unlocked? || r.head == r.tail then None
      else
        var slot := Slot(r.layout, r.memory, r.tail);
        if ValidLength(r.layout, slot)
        then Some((r.(tail := r.tail + 1, lock := Taken), Delivered(FrameOf(r.layout, slot))))
        else Some((r.(closed := true), Closed))
    case FinishTake =>
      if r.lock.Taken? then Some((r.(lock := Unlocked), Quiet)) else None
    case SeeEnd =>
      if r.lock.Unlocked? && r.head == r.tail && r.closed then Some((r, Ended)) else None
    case SeeProducerDead =>
      if r.lock.Unlocked? && r.head == r.tail && !r.closed then Some((r.(closed := true), Ended)) else None
    case SeeConsumerDead =>
      if r.lock.Unlocked? && !r.closed then Some((r.(closed := true), Closed)) else None
    case RequestClose =>
      if r.lock.Unlocked? then Some((r.(closed := true), Closed)) else None
    case HolderDies =>
      // From Unlocked: somebody dies between taking the mutex and the first effect under it.
      if r.lock.Abandoned? then None else Some((r.(lock := Abandoned), Quiet))
    case Recover =>
      if r.lock.Abandoned?
      then
        Some((r.(closed := true, tail := r.head, recoveries := r.recoveries + 1, lock := Unlocked),
              Discarded(Frames(r)))) else None
    case CloseAbandoned =>
      if r.lock.Abandoned? then Some((r.(closed := true, lock := Unlocked), Closed)) else None
    case RecovererDies(progress) =>
      if !r.lock.Abandoned? then None
      else
        match progress
        case MarkedClosed => Some((r.(closed := true), Closed))
        case Emptied => Some((r.(closed := true, tail := r.head), Discarded(Frames(r))))
        case Counted => Some((r.(closed := true, tail := r.head, recoveries := r.recoveries + 1), Discarded(Frames(r))))
  }

  /** The actions that empty the ring. */
  predicate Drops(a: Action) {
    a.Recover? || (a.RecovererDies? && !a.progress.MarkedClosed?)
  }

  // ----- one step -----

  lemma SlotUntouched(l: Layout, memory: seq<Byte>, n: nat, m: nat, k: nat, b: Byte)
    requires Sized(l, memory) && n < m < n + l.capacity && k < Stride(l.maxMessage)
    requires SlotFits(l, memory, m)
    ensures Sized(l, memory[Offset(l, m) + k := b])
    ensures Slot(l, memory[Offset(l, m) + k := b], n) == Slot(l, memory, n)
  {
    SlotsDisjoint(l, n, m);
    SlotInside(l, n);
  }

  ghost predicate SlotFits(l: Layout, memory: seq<Byte>, n: nat)
    requires Sized(l, memory)
  {
    Offset(l, n) + Stride(l.maxMessage) <= |memory|
  }

  lemma FreshInv(l: Layout)
    requires ValidLayout(l)
    ensures Inv(Fresh(l)) && Abstract(Fresh(l)) == Empty(l.capacity)
  {
  }

  /** Copying a byte changes no live slot and extends the part of the record already in the free slot. */
  lemma CopyByteStep(r: Ring)
    requires Inv(r) && Apply(r, CopyByte).Some?
    ensures Inv(Apply(r, CopyByte).value.0)
    ensures Frames(Apply(r, CopyByte).value.0) == Frames(r)
  {
    var r' := Apply(r, CopyByte).value.0;
    var l, framed, k := r.layout, r.lock.framed, r.lock.copied;
    SlotInside(l, r.head);
    var at, b := Offset(l, r.head) + k, Record(framed)[k];
    forall n | r.tail <= n < r.head ensures Slot(l, r'.memory, n) == Slot(l, r.memory, n) {
      SlotUntouched(l, r.memory, n, r.head, k, b);
    }
    assert Slot(l, r'.memory, r.head) == Slot(l, r.memory, r.head)[k := b];
    var slot, slot' := Slot(l, r.memory, r.head), Slot(l, r'.memory, r.head);
    assert slot'[..k + 1] == slot[..k] + [b];
    assert Record(framed)[..k + 1] == Record(framed)[..k] + [b];
  }

  lemma PublishStep(r: Ring)
    requires Inv(r) && Apply(r, Publish).Some?
    ensures Inv(Apply(r, Publish).value.0)
    ensures Frames(Apply(r, Publish).value.0) == Frames(r) + [r.lock.framed]
  {
    var slot, framed := Slot(r.layout, r.memory, r.head), r.lock.framed;
    assert Record(framed)[..|Record(framed)|] == Record(framed);
    RecordReadsBack(r.layout, slot, framed);
  }

  lemma TakeStep(r: Ring)
    requires Inv(r) && Apply(r, Take).Some?
    ensures var (r', ev) := Apply(r, Take).value;
      Inv(r') && Frames(r) != [] && ev == Delivered(Frames(r)[0]) && Frames(r') == Frames(r)[1..]
  {
    var r' := Apply(r, Take).value.0;
    assert ValidLength(r.layout, Slot(r.layout, r.memory, r.tail));
    assert Frames(r') == Frames(r)[1..];
  }

  lemma RecoverStep(r: Ring, a: Action)
    requires Inv(r) && Apply(r, a).Some? && Drops(a)
    ensures var (r', ev) := Apply(r, a).value;
      Inv(r') && Frames(r') == [] && r'.closed && ev == Discarded(Frames(r))
  {
  }

  /** The other actions move no frame. */
  lemma OtherStep(r: Ring, a: Action)
    requires Inv(r) && Apply(r, a).Some? && !a.CopyByte? && !a.Publish? && !a.Take? && !Drops(a)
    ensures var r' := Apply(r, a).value.0;
      Inv(r') && Frames(r') == Frames(r)
  {
    var r' := Apply(r, a).value.0;
    assert Inv(r');
    assert Frames(r') == Frames(r);
  }

  /** Every action of every process is a step of the bounded queue. */
  lemma StepRefines(r: Ring, a: Action)
    requires Inv(r) && Apply(r, a).Some?
    ensures Inv(Apply(r, a).value.0) && Apply(r, a).value.0.layout == r.layout && Refines(r, a)
  {
    if a.CopyByte? || a.Publish? {
      SendRefines(r, a);
    } else if a.Take? || Drops(a) {
      OutRefines(r, a);
    } else {
      OtherRefines(r, a);
    }
  }

  /** What the action does to the frames is a step of the bounded queue. */
  ghost predicate Refines(r: Ring, a: Action)
    requires Inv(r) && Apply(r, a).Some? && Inv(Apply(r, a).value.0)
  {
    var (r', ev) := Apply(r, a).value;
    Enabled(Abstract(r), ev) && Abstract(r') == After(Abstract(r), ev)
  }

  lemma SendRefines(r: Ring, a: Action)
    requires Inv(r) && Apply(r, a).Some? && (a.CopyByte? || a.Publish?)
    ensures Inv(Apply(r, a).value.0) && Apply(r, a).value.0.layout == r.layout && Refines(r, a)
  {
    if a.CopyByte? {
      CopyByteStep(r);
    } else {
      PublishStep(r);
    }
  }

  lemma OutRefines(r: Ring, a: Action)
    requires Inv(r) && Apply(r, a).Some? && (a.Take? || Drops(a))
    ensures Inv(Apply(r, a).value.0) && Apply(r, a).value.0.layout == r.layout && Refines(r, a)
  {
    if a.Take? {
      TakeStep(r);
    } else {
      RecoverStep(r, a);
    }
  }

  lemma OtherRefines(r: Ring, a: Action)
    requires Inv(r) && Apply(r, a).Some? && !a.CopyByte? && !a.Publish? && !a.Take? && !Drops(a)
    ensures Inv(Apply(r, a).value.0) && Apply(r, a).value.0.layout == r.layout && Refines(r, a)
  {
    OtherStep(r, a);
  }

  // ----- whole runs -----

  /** `actions`, each enabled in turn, produce the events of `trace`. */
  ghost predicate Executes(r: Ring, actions: seq<Action>, trace: seq<Event<seq<Byte>>>, last: Ring)
    requires Inv(r)
    decreases |actions|
  {
    if actions == [] then trace == [] && last == r
    else
      Apply(r, actions[0]).Some? && trace != [] &&
      var (r', ev) := Apply(r, actions[0]).value;
      StepRefines(r, actions[0]);
      trace[0] == ev && Executes(r', actions[1..], trace[1..], last)
  }

  lemma {:induction false} FinalSplit(a: Fifo<seq<Byte>>, ev: Event<seq<Byte>>, rest: seq<Event<seq<Byte>>>)
    ensures Final(a, [ev] + rest) == Final(After(a, ev), rest)
    ensures Legal(a, [ev] + rest) <==> Enabled(a, ev) && Legal(After(a, ev), rest)
    decreases |rest|
  {
    if rest == [] {
      assert [ev] + rest == [ev] && [ev][..0] == [];
      assert Final(a, [ev][..0]) == a;
    } else {
      FinalSplit(a, ev, rest[..|rest| - 1]);
      assert ([ev] + rest)[..|rest|] == [ev] + rest[..|rest| - 1];
    }
  }

  lemma {:induction false} RunRefines(r: Ring, actions: seq<Action>, trace: seq<Event<seq<Byte>>>, last: Ring)
    requires Inv(r) && Executes(r, actions, trace, last)
    ensures Inv(last) && last.layout == r.layout
    ensures Legal(Abstract(r), trace) && Final(Abstract(r), trace) == Abstract(last)
    decreases |actions|
  {
    if actions != [] {
      var r', ev := FirstStep(r, actions, trace, last);
      RunRefines(r', actions[1..], trace[1..], last);
      FinalSplit(Abstract(r), ev, trace[1..]);
    }
  }

  lemma FirstStep(r: Ring, actions: seq<Action>, trace: seq<Event<seq<Byte>>>, last: Ring)
    returns (r': Ring, ev: Event<seq<Byte>>)
    requires Inv(r) && actions != [] && Executes(r, actions, trace, last)
    ensures trace != [] && trace == [ev] + trace[1..]
    ensures Inv(r') && r'.layout == r.layout && Executes(r', actions[1..], trace[1..], last)
    ensures Enabled(Abstract(r), ev) && Abstract(r') == After(Abstract(r), ev)
  {
    r', ev := Apply(r, actions[0]).value.0, Apply(r, actions[0]).value.1;
    StepRefines(r, actions[0]);
    HeadSplit(trace);
  }

  /** `trace` is what some interleaving on a fresh segment shows, ending in `last`. */
  ghost predicate Reaches(l: Layout, actions: seq<Action>, trace: seq<Event<seq<Byte>>>, last: Ring)
    requires ValidLayout(l)
  {
    FreshInv(l);
    Executes(Fresh(l), actions, trace, last)
  }

  /** The ring refines the bounded queue: its trace is one of the queue's, its live slots are the queue. */
  lemma RingRefinesFifo(l: Layout, actions: seq<Action>, trace: seq<Event<seq<Byte>>>, last: Ring)
    requires ValidLayout(l) && Reaches(l, actions, trace, last)
    ensures Inv(last) && last.head - last.tail <= l.capacity
    ensures Legal(Empty(l.capacity), trace)
    ensures Abstract(last) == Final(Empty(l.capacity), trace)
  {
    FreshInv(l);
    RunRefines(Fresh(l), actions, trace, last);
  }

  /**
   Main result: over every interleaving of sends, receives, closes, deaths and recoveries of a fresh
   segment, the frames taken out are a prefix of the frames published, so a partly copied slot is never
   read; what is outstanding sits in the live slots; and an end of stream not preceded by recovery comes
   only after everything published was taken.
   */
  lemma RingSafety(l: Layout, actions: seq<Action>, trace: seq<Event<seq<Byte>>>, last: Ring)
    requires ValidLayout(l) && Reaches(l, actions, trace, last)
    ensures Deliveries(trace) <= Accepts(trace)
    ensures Inv(last) && Accepts(trace) == Deliveries(trace) + (Frames(last) + Discards(trace))
    ensures trace != [] && trace[|trace| - 1].Ended? && Discards(trace) == [] ==>
      Deliveries(trace) == Accepts(trace)
  {
    RingRefinesFifo(l, actions, trace, last);
    Conservation(l.capacity, trace);
  }

  /** Once an abandoned mutex was recovered the ring is closed and empty for good. */
  lemma RecoveryIsFinal(l: Layout, actions: seq<Action>, trace: seq<Event<seq<Byte>>>, last: Ring, i: nat)
    requires ValidLayout(l) && Reaches(l, actions, trace, last)
    requires i < |trace| && trace[i].Discarded?
    ensures last.closed && last.head == last.tail
    ensures forall j :: i < j < |trace| ==> !trace[j].Accepted? && !trace[j].Delivered?
  {
    RingRefinesFifo(l, actions, trace, last);
    NothingAfterDiscard(Empty(l.capacity), trace, i);
    assert |Frames(last)| == 0;
  }

  /** While the holder of the mutex is dead, only a recovery, whole or cut short, or a close can happen next. */
  lemma AbandonedBlocksEveryone(r: Ring, a: Action)
    requires Inv(r) && r.lock.Abandoned? && Apply(r, a).Some?
    ensures a.Recover? || a.CloseAbandoned? || a.RecovererDies?
    ensures Apply(r, a).value.0.closed
  {
  }

  // ----- what becomes of the frames a dead holder leaves -----

  /** A close, unlike a recovery, leaves them. */
  lemma DeadHoldersFrames(r: Ring, a: Action)
    requires Inv(r) && r.lock.Abandoned? && Apply(r, a).Some?
    ensures var r' := Apply(r, a).value.0;
      && Inv(r') && Frames(r') == (if Drops(a) then [] else Frames(r))
      && (Frames(r') == [] <==> Drops(a) || Frames(r) == [])
  {
    if Drops(a) {
      RecoverStep(r, a);
    } else {
      OtherStep(r, a);
    }
  }

  /** Some run from here delivers exactly these frames. */
  ghost predicate CanDeliver(r: Ring, frames: seq<seq<Byte>>)
    requires Inv(r)
  {
    exists actions, trace, last :: Executes(r, actions, trace, last) && Deliveries(trace) == frames
  }

  function Shown(ev: Event<seq<Byte>>): seq<seq<Byte>> {
    if ev.Delivered? then [ev.item] else []
  }

  lemma DeliverBefore(r: Ring, a: Action, r': Ring, ev: Event<seq<Byte>>, frames: seq<seq<Byte>>)
    requires Inv(r) && Inv(r') && Apply(r, a) == Some((r', ev)) && CanDeliver(r', frames)
    ensures CanDeliver(r, Shown(ev) + frames)
  {
    var actions, trace, last :| Executes(r', actions, trace, last) && Deliveries(trace) == frames;
    Prepend(r, a, r', ev, actions, trace, last);
    DeliveriesFront(ev, trace);
  }

  lemma DeliveriesFront(ev: Event<seq<Byte>>, trace: seq<Event<seq<Byte>>>)
    ensures Deliveries([ev] + trace) == Shown(ev) + Deliveries(trace)
  {
    DeliveriesConcat([ev], trace);
    assert [ev][..0] == [];
  }

  /** Everything can be taken out of an unlocked ring. */
  lemma {:induction false} UnlockedCanDeliver(r: Ring)
    requires Inv(r) && r.lock.Unlocked?
    ensures CanDeliver(r, Frames(r))
    decreases r.head - r.tail
  {
    if r.head == r.tail {
      assert Executes(r, [], [], r) && Deliveries<seq<Byte>>([]) == Frames(r);
    } else {
      var r', ev := TakeOne(r);
      UnlockedCanDeliver(r');
      DeliverBefore(r'.(lock := Taken), FinishTake, r', Quiet, Frames(r'));
      assert Shown(Quiet) + Frames(r') == Frames(r');
      DeliverBefore(r, Take, r'.(lock := Taken), ev, Frames(r'));
      HeadSplit(Frames(r));
    }
  }

  lemma TakeOne(r: Ring) returns (r': Ring, ev: Event<seq<Byte>>)
    requires Inv(r) && r.lock.Unlocked? && r.head != r.tail
    ensures r' == r.(tail := r.tail + 1) && Inv(r') && Frames(r) != [] && Frames(r') == Frames(r)[1..]
    ensures ev == Delivered(Frames(r)[0]) && Apply(r, Take) == Some((r'.(lock := Taken), ev))
    ensures Inv(r'.(lock := Taken)) && Apply(r'.(lock := Taken), FinishTake) == Some((r', Quiet))
  {
    TakeGives(r);
    r', ev := r.(tail := r.tail + 1), Delivered(Frames(r)[0]);
    OtherStep(r'.(lock := Taken), FinishTake);
  }

  lemma TakeGives(r: Ring)
    requires Inv(r) && r.lock.Unlocked? && r.head != r.tail
    ensures var taken := r.(tail := r.tail + 1, lock := Taken);
      && Frames(r) != [] && Apply(r, Take) == Some((taken, Delivered(Frames(r)[0])))
      && Inv(taken) && Frames(taken) == Frames(r)[1..]
  {
    assert ValidLength(r.layout, Slot(r.layout, r.memory, r.tail));
    TakeStep(r);
  }

  lemma Prepend(r: Ring, a: Action, r': Ring, ev: Event<seq<Byte>>, actions: seq<Action>,
                trace: seq<Event<seq<Byte>>>, last: Ring)
    requires Inv(r) && Inv(r') && Apply(r, a) == Some((r', ev)) && Executes(r', actions, trace, last)
    ensures Executes(r, [a] + actions, [ev] + trace, last)
  {
    SumTail(a, actions);
    SumTail(ev, trace);
  }

  /**
   After a death under the mutex the frames in the ring, a dead sender's among them, can still reach the
   consumer exactly when what happens next does not empty the ring.
   */
  lemma DeadHoldersFramesArrive(r: Ring, a: Action)
    requires Inv(r) && r.lock.Abandoned? && Apply(r, a).Some? && Frames(r) != []
    ensures Inv(Apply(r, a).value.0)
    ensures CanDeliver(Apply(r, a).value.0, Frames(r)) <==> !Drops(a)
  {
    DeadHoldersFrames(r, a);
    if Drops(a) {
      RecoverStep(r, a);
      if CanDeliver(Apply(r, a).value.0, Frames(r)) {
        EmptyClosedDelivers(Apply(r, a).value.0, Frames(r));
      }
    } else {
      KeptFramesArrive(r, a);
    }
  }

  lemma EmptyClosedDelivers(r: Ring, frames: seq<seq<Byte>>)
    requires Inv(r) && r.closed && Frames(r) == [] && CanDeliver(r, frames)
    ensures frames == []
  {
    var actions, trace, last :| Executes(r, actions, trace, last) && Deliveries(trace) == frames;
    RunRefines(r, actions, trace, last);
    NothingFromEmptyClosed(Abstract(r), trace);
  }

  lemma KeptFramesArrive(r: Ring, a: Action)
    requires Inv(r) && r.lock.Abandoned? && Apply(r, a).Some? && !Drops(a)
    ensures Inv(Apply(r, a).value.0) && CanDeliver(Apply(r, a).value.0, Frames(r))
  {
    var r' := Apply(r, a).value.0;
    DeadHoldersFrames(r, a);
    if a.CloseAbandoned? {
      UnlockedCanDeliver(r');
    } else {
      var r'' := r'.(lock := Unlocked);
      DeadHoldersFrames(r', CloseAbandoned);
      UnlockedCanDeliver(r'');
      DeliverBefore(r', CloseAbandoned, r'', Closed, Frames(r));
      assert Shown(Closed) + Frames(r) == Frames(r);
    }
  }
}
