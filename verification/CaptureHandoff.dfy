/**
 The snapshot exporter: each round it seals a copy of every live capture and publishes it by renaming. The
 process may die between any two effects; files and the saved ledger survive, its memory does not.
 */
module CaptureHandoff {
  import opened Bytes
  import opened CaptureWriter

  datatype File = File(inode: nat, mode: nat, uid: nat, device: nat, content: seq<Byte>)

  datatype Slot = Absent | Present(file: File)

  /** What the ledger remembers about a capture's snapshot; zero means none. */
  datatype Record = Record(snapshot: nat, upcoming: nat)

  datatype Error = SnapshotReplaced | SnapshotMissing | InterruptedExport | ExportFailed | CannotSeal | SaveFailed

  datatype Outcome = Done | Crashed | Failed(error: Error) {
    predicate IsFailure() {
      !Done?
    }

    function PropagateFailure(): Outcome {
      this
    }
  }

  const PRIVATE: nat := 0x180  // 0600
  const SEALED: nat := 0x124  // 0444

  class Exporter {
    const uid: nat
    const device: nat
    const captures: nat
    var destination: seq<Slot>
    var pending: seq<Slot>
    var saved: seq<Record>
    var memory: seq<Record>

    constructor (uid: nat, device: nat, captures: nat)
      ensures Inv() && saved == memory && this.captures == captures
      ensures forall i :: 0 <= i < captures ==> destination[i] == Absent
    {
      this.uid, this.device, this.captures := uid, device, captures;
      destination, pending := seq(captures, i => Absent), seq(captures, i => Absent);
      saved, memory := seq(captures, i => Record(0, 0)), seq(captures, i => Record(0, 0));
    }

    ghost predicate Sealed(f: File)
      reads this
    {
      f.mode == SEALED && f.uid == uid && f.device == device && f.inode != 0 && IsComplete(f.content)
    }

    /** The published snapshot is absent and unrecorded, or sealed and recorded. */
    ghost predicate Accounted(slot: Slot, record: Record)
      reads this
    {
      match slot
      case Absent => record.snapshot == 0
      case Present(f) => Sealed(f) && f.inode in {record.snapshot, record.upcoming}
    }

    ghost predicate Inv()
      reads this
    {
      && |destination| == |pending| == |saved| == |memory| == captures
      && forall i :: 0 <= i < captures ==> Accounted(destination[i], saved[i])
    }

    /** The rest of a capture's turn may assume that memory and the saved ledger agree. */
    ghost predicate InStep()
      reads this
    {
      Inv() && saved == memory
    }

    /** The published snapshot is the one recorded as such. */
    ghost predicate Settled(i: nat)
      requires InStep() && i < captures
      reads this
    {
      destination[i].Present? ==> destination[i].file.inode == memory[i].snapshot
    }

    /** Nothing but this capture's files has changed. */
    predicate OnlyTouched(i: nat, destination': seq<Slot>, pending': seq<Slot>)
      reads this
    {
      && |destination| == |destination'| && |pending| == |pending'|
      && (forall j :: 0 <= j < |destination| && j != i ==> destination[j] == destination'[j])
      && (forall j :: 0 <= j < |pending| && j != i ==> pending[j] == pending'[j])
    }

    /** A capture whose pending file is there keeps both it and its published snapshot. */
    predicate Stuck(destination': seq<Slot>, pending': seq<Slot>)
      reads this
    {
      && |destination| == |destination'| == |pending| == |pending'|
      && forall j :: 0 <= j < |pending'| && pending'[j].Present? ==>
           pending[j] == pending'[j] && destination[j] == destination'[j]
    }

    // ----- effects -----

    method Save() returns (outcome: Outcome)
      modifies this`saved
      ensures saved == old(saved) || saved == memory
      ensures outcome.Done? ==> saved == memory
      ensures outcome.Failed? ==> outcome.error == SaveFailed
    {
      var written: bool := *;
      var survives: bool := *;
      if written {
        saved := memory;
      }
      return if !survives then Crashed else if written then Done else Failed(SaveFailed);
    }

    method Remember(i: nat, record: Record) returns (outcome: Outcome)
      requires InStep() && i < captures && Accounted(destination[i], record)
      modifies this`saved, this`memory
      ensures Inv()
      ensures outcome.Done? ==> saved == memory == old(memory)[i := record]
      ensures outcome.Failed? ==> outcome.error == SaveFailed
    {
      memory := memory[i := record];
      outcome := Save();
    }

    /**
     Copies a complete capture into a new private file. A failure removes the copy again, unless removing
     fails too; dying leaves whatever was copied.
     */
    method Export(i: nat, source: seq<Byte>) returns (outcome: Outcome)
      requires InStep() && i < captures
      modifies this`pending
      ensures InStep()
      ensures outcome.Done? ==> && pending[i].Present? && pending[i].file.uid == uid && pending[i].file.device == device
                                && pending[i].file.inode != 0 && pending[i].file.content == source && IsComplete(source)
      ensures forall j :: 0 <= j < |pending| && j != i ==> pending[j] == old(pending)[j]
      ensures old(pending)[i].Present? ==> pending == old(pending) && !outcome.Done?
      ensures outcome.Failed? ==> outcome.error == ExportFailed
    {
      var complete := CompletePcapngSnapshot(source);
      if !complete || pending[i].Present? {
        return Failed(ExportFailed);
      }
      var inode: int := *;
      var copied: int := *;
      var fate: int := *;
      if inode <= 0 || fate == 0 {
        return Failed(ExportFailed);
      }
      if 0 <= copied < |source| {
        if fate == 1 {
          return Failed(ExportFailed);
        }
        pending := pending[i := Present(File(inode, PRIVATE, uid, device, source[..copied]))];
        return if fate == 2 then Crashed else Failed(ExportFailed);
      }
      pending := pending[i := Present(File(inode, PRIVATE, uid, device, source))];
      return if fate == 2 then Crashed else Done;
    }

    method Seal(i: nat) returns (outcome: Outcome)
      requires InStep() && i < captures && pending[i].Present?
      modifies this`pending
      ensures InStep()
      ensures pending == old(pending) || pending == old(pending)[i := Present(old(pending)[i].file.(mode := SEALED))]
      ensures outcome.Done? ==> pending[i] == Present(old(pending)[i].file.(mode := SEALED))
      ensures outcome.Failed? ==> outcome.error == CannotSeal
    {
      var fate: int := *;
      if fate == 0 {
        return Failed(CannotSeal);
      }
      pending := pending[i := Present(pending[i].file.(mode := SEALED))];
      return if fate == 1 then Crashed else if fate == 2 then Failed(CannotSeal) else Done;
    }

    method Rename(i: nat) returns (outcome: Outcome)
      requires InStep() && i < captures && pending[i].Present?
      requires Sealed(pending[i].file) && memory[i].upcoming == pending[i].file.inode
      modifies this`pending, this`destination
      ensures InStep()
      ensures outcome.Done? ==> destination == old(destination)[i := old(pending)[i]] && pending[i] == Absent
      ensures outcome.Failed? ==> outcome.error == CannotSeal
      ensures !outcome.Done? ==> destination == old(destination) || destination == old(destination)[i := old(pending)[i]]
      ensures pending == old(pending) || pending == old(pending)[i := Absent]
    {
      var fate: int := *;
      if fate == 0 {
        return Crashed;
      } else if fate == 1 {
        return Failed(CannotSeal);
      }
      destination := destination[i := pending[i]];
      pending := pending[i := Absent];
      return if fate == 2 then Crashed else Done;
    }

    // ----- one capture -----

    /** Checks the published snapshot against the ledger; without interference it is always recognised. */
    method Recognise(i: nat) returns (outcome: Outcome)
      requires InStep() && i < captures
      modifies this`saved, this`memory
      ensures Inv() && (outcome.Done? ==> InStep() && Settled(i))
      ensures outcome.Done? || outcome.Crashed? || outcome == Failed(SaveFailed)
    {
      match destination[i] {
        case Present(f) =>
          if f.device != device || f.uid != uid || f.mode != SEALED
             || (f.inode != memory[i].snapshot && f.inode != memory[i].upcoming) {
            return Failed(SnapshotReplaced);
          }
          outcome := Remember(i, Record(f.inode, 0));
        case Absent =>
          if memory[i].snapshot != 0 {
            return Failed(SnapshotMissing);
          }
          return Done;
      }
    }

    /** Seals the exported file, records it, renames it into place and records that. */
    method Publish(i: nat) returns (outcome: Outcome)
      requires InStep() && i < captures && Settled(i) && pending[i].Present? && pending[i].file.uid == uid
      requires pending[i].file.device == device && pending[i].file.inode != 0 && IsComplete(pending[i].file.content)
      modifies this
      ensures Inv() && (outcome.Done? ==> InStep())
      ensures outcome.Done? ==> destination[i].Present? && destination[i].file.content == old(pending)[i].file.content
      ensures outcome != Failed(SnapshotReplaced) && outcome != Failed(SnapshotMissing)
      ensures OnlyTouched(i, old(destination), old(pending))
    {
      outcome := Seal(i);
      if !outcome.Done? {
        return;
      }
      var inode := pending[i].file.inode;
      :- Remember(i, memory[i].(upcoming := inode));
      :- Rename(i);
      outcome := Remember(i, Record(inode, 0));
    }

    /** One capture's turn. A live capture that is not complete is skipped, keeping the last snapshot. */
    method Turn(i: nat, source: seq<Byte>) returns (outcome: Outcome, published: bool)
      requires InStep() && i < captures
      modifies this
      ensures Inv() && (outcome.Done? ==> InStep())
      ensures outcome.Done? && published ==> destination[i].Present? && destination[i].file.content == source
      ensures outcome != Failed(SnapshotReplaced) && outcome != Failed(SnapshotMissing)
      ensures old(pending)[i].Present? ==>
        && pending == old(pending) && destination == old(destination)
        && (outcome.Crashed? || outcome in {Failed(InterruptedExport), Failed(SaveFailed)})
      ensures OnlyTouched(i, old(destination), old(pending))
    {
      published := false;
      :- Recognise(i);
      if pending[i].Present? {
        return Failed(InterruptedExport), false;
      }
      outcome := Export(i, source);
      if outcome.Failed? && pending[i].Absent? {
        return Done, false;
      }
      if !outcome.Done? {
        return;
      }
      outcome := Publish(i);
      published := true;
    }

    /** A round of a new or a continuing process starts from the saved ledger. */
    method Round(sources: seq<seq<Byte>>) returns (outcome: Outcome)
      requires Inv() && |sources| == captures
      modifies this
      ensures Inv()
      ensures outcome != Failed(SnapshotReplaced) && outcome != Failed(SnapshotMissing)
      ensures Stuck(old(destination), old(pending))
      ensures outcome.Done? ==> forall j :: 0 <= j < |old(pending)| ==> old(pending)[j].Absent?
    {
      memory := saved;
      for i := 0 to |sources|
        invariant InStep() && Stuck(old(destination), old(pending))
        invariant forall j :: 0 <= j < i ==> old(pending)[j].Absent?
      {
        var published :- Turn(i, sources[i]);
      }
      return Done;
    }
  }

  /**
   Any run of rounds, with a death or failure between any two effects and a restart after it: every published
   snapshot stays absent or a sealed complete capture recorded in the saved ledger, and no round ever reports
   a snapshot replaced or missing. A pending file that an interrupted export left is never touched again, its
   capture's snapshot stays as it is, and no round succeeds.
   */
  method Rounds(exporter: Exporter, rounds: seq<seq<seq<Byte>>>) returns (outcomes: seq<Outcome>)
    requires exporter.Inv() && forall r :: 0 <= r < |rounds| ==> |rounds[r]| == exporter.captures
    modifies exporter
    ensures exporter.Inv() && |outcomes| == |rounds|
    ensures forall r :: 0 <= r < |outcomes| ==>
      outcomes[r] != Failed(SnapshotReplaced) && outcomes[r] != Failed(SnapshotMissing)
    ensures exporter.Stuck(old(exporter.destination), old(exporter.pending))
    ensures (exists j :: 0 <= j < |old(exporter.pending)| && old(exporter.pending)[j].Present?) ==>
      forall r :: 0 <= r < |outcomes| ==> !outcomes[r].Done?
  {
    outcomes := [];
    for r := 0 to |rounds|
      invariant exporter.Inv() && |outcomes| == r
      invariant forall k :: 0 <= k < |outcomes| ==>
        outcomes[k] != Failed(SnapshotReplaced) && outcomes[k] != Failed(SnapshotMissing)
      invariant exporter.Stuck(old(exporter.destination), old(exporter.pending))
      invariant (exists j :: 0 <= j < |old(exporter.pending)| && old(exporter.pending)[j].Present?) ==>
        forall k :: 0 <= k < |outcomes| ==> !outcomes[k].Done?
    {
      var outcome := exporter.Round(rounds[r]);
      outcomes := outcomes + [outcome];
    }
  }
}
