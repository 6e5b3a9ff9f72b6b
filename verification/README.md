# GraphX in Dafny

GraphX moves typed envelopes between the nodes of a graph over in-process, shared-memory, TCP and UDP
transports, and it starts and stops graphs under a crash-recoverable ownership ledger. This project models
the parts of it that carry state, loops or arithmetic, and proves what they promise for every input, every
interleaving or every run.

`dafny verify dfyconfig.toml` checks the whole project.

## What is modelled

* **Envelopes and frames** (`Bytes`, `Attributes`, `Identity`, `EnvelopeFormat`, `EnvelopeCodec`, `Framing`).
  The wire format is a pure printer and a pure parser; the code's size prediction, writer and reader are
  methods proved equal to them. `serialize` and `deserialize` are inverse in both directions: every accepted
  byte string re-serializes to the same length and the same envelope, and to the same bytes exactly when its
  attribute records were in key order. The result does not depend on the hash map's enumeration order.
* **Queues and their transports** (`BoundedFifo`, `SharedRing`, `SharedSegment`, `SharedSession`, `InProcess`,
  `Delivery`). One abstract bounded closable queue; the shared-memory ring, with its send split into byte copies, an increment
  and an unlock, and with process death and mutex recovery at any point, refines it, and so does the
  in-process channel under any interleaving of calls. `SharedSession` and `Delivery` run the ring and TCP from the
  sending to the receiving application.
* **Streams and datagrams** (`PartialWrites`, `TcpStream`, `SequenceTracker`, `UdpReceive`). Frames are rebuilt
  from arbitrarily split reads; a partial tail never becomes a message. The UDP tracker's gap counter bounds
  the real loss from above, and from below up to the out-of-order count.
* **Configuration** (`Feedback`, `ConfigJson`). The shared-visited-set search decides whether an edge lies on a
  cycle; the rendered text of a value determines the value.
* **Captures** (`Pcapng`, `CaptureWriter`, `CaptureComment`, `CaptureHandoff`). Blocks follow sections 3.1 and
  4.1 to 4.3 of draft-ietf-opsawg-pcapng; a reference reader gets back exactly what was recorded, also after
  failed and rolled-back writes. The snapshot exporter keeps every published snapshot sealed, complete and
  recorded, with a crash between any two effects.
* **Lifecycles** (`Ledger`, `ComposeRunner`, `NativeRunner`, `ReadyLog`, `Admission`, `InfraPlan`). The ownership
  ledgers of Compose and native graphs, admission in front of the release barrier, and reverse-order
  compensation of a failed infrastructure plan.

The outside world appears in three ways. Reads and writes of a descriptor, and which Docker lookups of a stop
fail, follow an arbitrary script. Docker, the process table, files, clocks and crashes are otherwise arbitrary
choices inside the methods that meet them, so a verified postcondition holds for every behaviour. Commands of an infrastructure plan are arbitrary functions on
a machine state.

## Where the code and its promise differ

* Compose ledger: every failing `docker inspect`, not only one for a missing object, reads as absence. So the
  removal loop can erase the entry of an object that still exists. When nobody else touches Docker, a completed
  stop keeps the ledger covering exactly when no entry that is to be removed, whose removal lookup fails, resolves
  to an owned object (`ComposeRunner.Runner.Stop`); `ComposeRunner.RefusedRemovalLosesNetwork` is a run that loses
  a network. Failing lookups anywhere else do not hurt coverage (`ComposeRunner.Lifecycle`).
* The promise that nothing is removed when some entry resolves to another owner's object holds for every such
  entry whose first check answers (`Ledger.ContestedCheckFails`, `ComposeRunner.Runner.Stop`). When that check
  fails it reads as absence, and the entries behind it are removed before the conflict is seen: `Stop` says
  exactly which objects go, and `ComposeRunner.RefusedCheckRemovesFirst` is such a run.
* `application_ready` skips past each occurrence of the marker it rejects. It means "some whole line is the
  marker" exactly when the marker does not begin again behind one of its own newlines (`ReadyLog.ReadyExact`);
  without a newline in the name it always does (`ReadyLog.ReadyIsALine`). The function takes any name; the node
  names of a configuration match `^[a-z][a-z0-9_-]{0,63}$` (graphx.schema.json:1218-1219) and hold no newline, so
  no graph meets the failing case (`ReadyLog.HiddenName`).
* A PCAPNG block length is cast to 32 bits: a block reads back exactly when it fits (`Pcapng.BlockReadsBack`). A
  rollback whose truncation fails leaves a file that is a block sequence exactly when nothing of the block was
  written (`Pcapng.TornFile`). When the writer then goes on from the old end, the next block covers the torn part,
  and the file reads as that block followed by whatever longer torn bytes stick out (`Pcapng.OverwrittenTail`).
* The ring's "invalid frame length" branch cannot be reached (`SharedSegment.Segment.ReadSlot` needs no such
  branch on a valid ring).
* The survivor of a process that died under the ring's mutex should discard what is queued. `request_close` does
  not: the frames left by a dead holder, a dead sender's among them, can still be delivered exactly when what
  takes the mutex over does not empty the ring, as a recovery does and a close does not
  (`SharedRing.DeadHoldersFrames`, `SharedRing.DeadHoldersFramesArrive`). So at most one message can arrive whose
  send never returned, and only if a close was the first to take over (`SharedSession.SharedMemoryRun`); a close
  and enough receives always deliver it (`SharedSession.Session.CloseAndDrain`), and
  `SharedSession.DeadSendersMessageArrives` is such a run.
* A TCP send that fails should have sent nothing, and one that succeeds its frame once. Each whole write whose
  report the trace sink answers with an exception adds a frame, so this holds exactly when there is none
  (`TcpStream.Sender.Send`); `TcpStream.ThrowingSinkRepeats` has both failing cases.
* A Docker creation that was given up and lands later is covered exactly when the ledger still has its entry
  (`ComposeRunner.Runner.Arrive`); a stop in between has erased it (`ComposeRunner.LateNetworkEscapes`).
* A snapshot export that dies between recording and renaming is not resumed: as long as nobody removes the pending
  file, its capture's turn reports an interrupted export (`CaptureHandoff.Exporter.Turn`), no round succeeds and
  the last snapshot stays (`CaptureHandoff.Rounds`); no round reports a replaced or a missing snapshot.
* A repeated UDP number should be reported as a duplicate or as out of order. It is reported as nothing at all
  exactly when it is the highest number received and has left the 256-entry window
  (`SequenceTracker.SilentRepeat`); a number, 256 lower ones and the number again is such a run
  (`SequenceTracker.SilentRepeatExists`).

## Model

| member | source | states |
|---|---|---|
| `Bytes.PutBigEndian` | src/envelope.cpp:14-19 | the shift loop appends the big-endian bytes of the value |
| `Bytes.BigEndianRoundTrip` | src/envelope.cpp:100-107 | reading those bytes gives the value modulo the width |
| `Bytes.PutLittleEndian` | src/capture.cpp:24-37 | the shift loop appends the little-endian bytes of the value |
| `Bytes.LittleEndianRoundTrip` | src/infra/capture_resources.cpp:440-444 | reading those bytes gives the value modulo the width |
| `Attributes.SortCorrect` | src/envelope.cpp:216-218 | sorting distinct-key records gives the same records, strictly sorted, with the same total size |
| `Attributes.SortIgnoresEnumerationOrder` | src/envelope.cpp:216-224 | every enumeration of a map sorts to one canonical listing, so the encoding does not depend on hash order |
| `Attributes.CanonicalIffSorted` | src/envelope.cpp:216-224 | records are the canonical listing of the map they build exactly when they are in key order |
| `Identity.IsCanonicalIdentity` | src/envelope.cpp:147-156 | accepts exactly the non-zero 32-character lowercase hexadecimal texts |
| `Identity.PutIdentity` | src/envelope.cpp:47-59 | appends the sixteen wire bytes, zeros for an absent optional one, and refuses exactly the other texts |
| `Identity.FromWireToWire` | src/envelope.cpp:47-59 | a canonical or absent identity survives encoding and decoding |
| `Identity.ToWireFromWire` | src/envelope.cpp:117-133 | sixteen accepted wire bytes survive decoding and encoding |
| `EnvelopeFormat.PacketRoundTrip` | src/envelope.cpp:228-259 | every well-formed packet is read back from its bytes |
| `EnvelopeFormat.PacketExact` | src/envelope.cpp:228-259 | every accepted byte string is the bytes of the well-formed packet read from it |
| `EnvelopeFormat.SerializeRoundTrip` | src/envelope.cpp:196-226 | a serializable envelope yields exactly the predicted number of bytes and decodes to itself, negative timestamps and empty parents included |
| `EnvelopeFormat.DeserializeRoundTrip` | src/envelope.cpp:228-259 | what is accepted re-serializes to the same length and envelope, and to the same bytes exactly when its records were sorted |
| `EnvelopeFormat.SerializeInjective` | src/envelope.cpp:201-226 | two envelopes with the same encoding are equal |
| `EnvelopeCodec.CheckedAdd` | src/envelope.cpp:61-65 | adds, failing exactly when the sum passes 16 MiB |
| `EnvelopeCodec.ComputeSerializedSize` | src/envelope.cpp:72-82 | the early-failing additions compute the specified size and errors for any enumeration order |
| `EnvelopeCodec.PutString` | src/envelope.cpp:90-94 | length prefix and bytes, refused exactly past 32 bits |
| `EnvelopeCodec.SerializeEnvelope` | src/envelope.cpp:201-226 | the writer equals the specified encoding for every enumeration of the attributes |
| `EnvelopeCodec.Reader.Get` | src/envelope.cpp:100-107 | reads the next big-endian integer, or fails exactly when bytes are missing |
| `EnvelopeCodec.Reader.String` | src/envelope.cpp:109-115 | reads the next counted string as specified |
| `EnvelopeCodec.Reader.ReadHexIdentity` | src/envelope.cpp:117-133 | reads an identity as specified, refusing zeros unless optional |
| `EnvelopeCodec.Reader.Records` | src/envelope.cpp:250-255 | inserts the records, failing on the first repeated key |
| `EnvelopeCodec.DeserializeBytes` | src/envelope.cpp:228-259 | the reader equals the specified parser on every byte string, errors included |
| `Framing.Frame` | src/framing.cpp:7-18 | the frame bytes, or an error exactly past 16 MiB |
| `Framing.DecodeFrameSize` | src/framing.cpp:20-25 | the big-endian size, or an error exactly past 16 MiB |
| `Framing.FrameEnvelope` | src/shared_memory_transport.cpp:379-380 | serializing and framing succeeds exactly for serializable envelopes and gives their frame |
| `Framing.OpenFramed` | src/shared_memory_transport.cpp:477-489 | prefix check and decoding of a received frame as specified |
| `Framing.FrameRoundTrip` | src/framing.cpp:7-25 | the frame of a serializable envelope opens to that envelope |
| `BoundedFifo.Conservation` | src/in_process_transport.cpp:15-59 | over any legal trace, what was accepted is what was delivered, then what is queued, then what was discarded, in order, with at most `capacity` queued |
| `BoundedFifo.DeliveredIsPrefix` | src/in_process_transport.cpp:37-50 | deliveries are a prefix of acceptances |
| `BoundedFifo.ClosedStaysClosed` | src/in_process_transport.cpp:52-59 | after a close the queue stays closed and nothing more is accepted |
| `BoundedFifo.EndMeansDrained` | src/in_process_transport.cpp:44-44 | an end that no discard preceded means that everything accepted was delivered |
| `BoundedFifo.NothingAfterDiscard` | src/shared_memory_transport.cpp:123-149 | after a discard nothing is accepted or delivered any more |
| `SharedRing.SlotInside` | src/shared_memory_transport.cpp:67-83 | every slot lies behind the header and inside the mapping, which is within 256 MiB |
| `SharedRing.SlotsDisjoint` | src/shared_memory_transport.cpp:216-219 | slots of one window of `capacity` messages do not overlap |
| `SharedRing.RecordReadsBack` | src/shared_memory_transport.cpp:420-423 | a slot holding a whole record reads back as its frame, with a valid length |
| `SharedRing.CopyByteStep` | src/shared_memory_transport.cpp:420-423 | copying a byte into the slot at head changes no live frame |
| `SharedRing.PublishStep` | src/shared_memory_transport.cpp:424-424 | advancing head appends exactly the copied frame |
| `SharedRing.TakeStep` | src/shared_memory_transport.cpp:466-475 | taking delivers the oldest frame and leaves the others |
| `SharedRing.StepRefines` | src/shared_memory_transport.cpp:376-498 | every action of every process, and the death of a mutex holder at any point, keeps the invariant and is a step of the bounded queue |
| `SharedRing.RingRefinesFifo` | src/shared_memory_transport.cpp:376-498 | every interleaving on a fresh segment is a legal run of the bounded queue, with at most `capacity` frames outstanding |
| `SharedRing.RingSafety` | src/shared_memory_transport.cpp:376-498 | frames taken are a prefix of frames published whoever dies holding the mutex and wherever; without recovery, an end comes after everything published was taken |
| `SharedRing.RecoveryIsFinal` | src/shared_memory_transport.cpp:123-149 | once an abandoned mutex was recovered the ring stays closed and empty, and nothing is accepted or delivered |
| `SharedRing.AbandonedBlocksEveryone` | src/shared_memory_transport.cpp:227-245 | with a dead mutex holder only a recovery, whole or cut short by another death, or a close can happen, and each closes the ring |
| `SharedRing.DeadHoldersFrames` | src/shared_memory_transport.cpp:123-149 | the frames of a ring whose mutex holder died are gone after the next action exactly when it empties the ring or there were none |
| `SharedRing.DeadHoldersFramesArrive` | src/shared_memory_transport.cpp:227-245 | some continuation delivers all of those frames exactly when the next action does not empty the ring |
| `SharedSegment.Segment.constructor` | src/shared_memory_transport.cpp:269-354 | a fresh segment is an empty ring of the configured layout with its creator as the consumer |
| `SharedSegment.Segment.Connect` | src/shared_memory_transport.cpp:343-350 | claims the producer's role exactly when the mutex is sound, the ring open and no live producer is recorded |
| `SharedSegment.Segment.LockHeader` | src/shared_memory_transport.cpp:123-136 | taking an abandoned mutex closes and empties the ring as one recovery action |
| `SharedSegment.Segment.DieRecovering` | src/shared_memory_transport.cpp:123-136 | a death at any point of a recovery closes the ring, and empties it once the tail was set |
| `SharedSegment.Segment.Send` | src/shared_memory_transport.cpp:384-426 | between taking and releasing the mutex a send is a run of ring actions; it succeeds exactly when the ring is open, its mutex sound, its consumer not gone, a slot free and the frame small enough, and then appends the frame |
| `SharedSegment.Segment.SendEnvelope` | src/shared_memory_transport.cpp:376-431 | sent exactly when the handle is open, the envelope is serializable, its frame fits and the ring can take it; otherwise no frame is added |
| `SharedSegment.Segment.DieInSend` | src/shared_memory_transport.cpp:419-426 | a death inside a send, after any number of copied bytes or after the increment, is a run of ring actions that leaves the mutex abandoned and the frame in the ring exactly in the latter case |
| `SharedSegment.Segment.ReadSlot` | src/shared_memory_transport.cpp:466-474 | reads the length and the bytes of the oldest slot |
| `SharedSegment.Segment.TakeRecord` | src/shared_memory_transport.cpp:466-477 | takes exactly the oldest frame; the invalid-length branch is dead |
| `SharedSegment.Segment.DieInReceive` | src/shared_memory_transport.cpp:466-477 | a death after the tail was advanced takes the oldest frame out and leaves the mutex abandoned |
| `SharedSegment.Segment.WhenEmpty` | src/shared_memory_transport.cpp:443-464 | on an empty ring: cancelled, end of stream exactly when closed or the producer is gone, timeout, or wait |
| `SharedSegment.Segment.Receive` | src/shared_memory_transport.cpp:433-498 | a locally closed handle is cancelled at once; otherwise a receive is a run of ring actions that returns the oldest frame decoded, or the end exactly on an empty ring that is closed or whose producer is gone |
| `SharedSegment.Segment.Close` | src/shared_memory_transport.cpp:227-251 | once only: closes the ring without discarding anything and clears the process identifier of its own side |
| `InProcess.Channel.Push` | src/in_process_transport.cpp:15-35 | accepted, rejected, timed out or closed, as a step of the bounded queue |
| `InProcess.Channel.Pop` | src/in_process_transport.cpp:37-50 | the oldest envelope, timeout, or closed only when drained, as a step of the bounded queue |
| `InProcess.Channel.Close` | src/in_process_transport.cpp:52-59 | a close step |
| `InProcess.RunCalls` | src/in_process_transport.cpp:15-59 | any interleaving of pushes, pops and closes is a legal trace of the bounded queue within capacity |
| `InProcess.Transport.Send` | src/in_process_transport.cpp:61-84 | only serializable envelopes ever enter the queue |
| `InProcess.Transport.Receive` | src/in_process_transport.cpp:85-101 | returns the oldest envelope, whose serialization cannot fail; cancelled exactly when closed at entry, or closed meanwhile with nothing queued |
| `InProcess.Transport.Close` | src/in_process_transport.cpp:102-110 | closes the transport and its channel once |
| `PartialWrites.WriteAll` | src/tcp_transport.cpp:287-324 | what reached the descriptor is the prefix the script takes, and the call fails exactly when it is proper; any retries in between do no harm when enough writes follow |
| `TcpStream.Sender.WriteFrame` | src/tcp_transport.cpp:614-638 | a connection carries whole frames, or is closed after at most one proper frame prefix |
| `TcpStream.Sender.Send` | src/tcp_transport.cpp:614-638 | a send adds its frame once when it returns and not at all when it fails, plus once for every whole write whose report throws; when it returns is a function of the attempts |
| `TcpStream.ThrowingSinkRepeats` | src/tcp_transport.cpp:618-637 | a sink that throws once makes a send that returns write its frame twice, or one that fails write it once |
| `TcpStream.Receiver.ReadAll` | src/tcp_transport.cpp:240-285 | bytes are consumed in order however they are split |
| `TcpStream.Receiver.Receive` | src/tcp_transport.cpp:640-725 | consumes one whole frame or closes the connection; every other outcome is named |
| `TcpStream.FrameDetermined` | src/tcp_transport.cpp:614-725 | two frames at the front of the same bytes are equal |
| `TcpStream.PartialTailIsNoFrame` | src/tcp_transport.cpp:614-725 | a proper frame prefix never contains a frame |
| `TcpStream.ReceiveRun` | src/tcp_transport.cpp:640-725 | for every split into reads and any retries the frames returned are a prefix of the whole frames written, in order, all of them when the peer is seen to close, which happens when no read times out or fails; the tail yields nothing |
| `TcpStream.NoFalseEnd` | src/tcp_transport.cpp:661-712 | an end of stream or a cut frame is reported only behind the last whole frame, and an end only when there is no torn tail |
| `Delivery.RingDeliversEnvelopes` | src/shared_memory_transport.cpp:376-498 | if the frames published are those of envelopes, what the consumer opens is a prefix of those envelopes |
| `Delivery.SendOne` | src/tcp_transport.cpp:614-638 | adds the envelope's frame once when the send succeeds and not at all when it fails, plus once per unreported whole write, and succeeds on a connection that takes everything and is reported |
| `Delivery.SendAll` | src/tcp_transport.cpp:614-638 | sending any envelopes writes exactly their frames in order, each as often as it was written, which is once for those whose send succeeded and never for the others unless a report throws |
| `Delivery.ReceiveAll` | src/tcp_transport.cpp:640-725 | receiving from such a connection returns a prefix of those envelopes, in order, and all of them when no read times out or fails |
| `Delivery.TcpRun` | src/tcp_transport.cpp:614-725 | TCP end to end: whatever an application sends over any connections with any partial writes, the reader of one of them gets a prefix of the envelopes written whole to it, in order, all of them when no read times out or fails; those written are the ones whose send succeeded unless a report throws |
| `SharedSession.SharedMemoryRun` | src/shared_memory_transport.cpp:376-498 | shared memory end to end: over any sends, receives, closes, connections and deaths, also inside a send, a receive or a recovery, with any view of who is alive at each step, the envelopes received are a prefix of those whose send returned followed by at most one whose sender died after storing it; that one arrives only if a close took the mutex over first; an end without recovery means all were received |
| `SharedSession.Session.CloseAndDrain` | src/shared_memory_transport.cpp:227-245 | in every state with a dead sender's message in the ring, a close and enough receives deliver everything, that message included |
| `SharedSession.DeadSendersMessageArrives` | src/shared_memory_transport.cpp:227-245 | a run in which the only message received is one whose send never returned |
| `SequenceTracker.Tracker.IsRecent` | src/udp_transport.cpp:196-200 | a number is duplicate exactly when it is among the last 256 accepted ones |
| `SequenceTracker.Tracker.Remember` | src/udp_transport.cpp:211-216 | the circular store then holds exactly the last 256 accepted numbers |
| `SequenceTracker.Tracker.Track` | src/udp_transport.cpp:195-217 | the report and the store are functions of the numbers accepted so far |
| `SequenceTracker.WindowDistinct` | src/udp_transport.cpp:195-217 | any 256 consecutive accepted numbers are distinct |
| `SequenceTracker.HighestIsMaximum` | src/udp_transport.cpp:209-210 | the running maximum is the maximum of everything received |
| `SequenceTracker.GapsAndAdvances` | src/udp_transport.cpp:202-210 | reported gaps plus forward advances equal highest minus first |
| `SequenceTracker.GapsBoundLoss` | src/udp_transport.cpp:195-217 | missing <= gaps <= missing + out-of-order reports, for every run |
| `SequenceTracker.SilentRepeat` | src/udp_transport.cpp:195-210 | a repeated number is reported as nothing exactly when it is the highest received and outside the last 256 accepted |
| `SequenceTracker.SilentRepeatExists` | src/udp_transport.cpp:195-210 | a number, 256 lower ones and the number again: the repeat is reported as nothing |
| `SequenceTracker.TotalsMeaning` | src/udp_transport.cpp:195-217 | the event totals are the specified gap, out-of-order and duplicate counts |
| `SequenceTracker.TrackAll` | src/udp_transport.cpp:195-217 | tracking any run reports exactly those totals |
| `UdpReceive.OpenDatagram` | src/udp_transport.cpp:463-487 | a datagram is accepted exactly when it is one whole frame of an envelope |
| `UdpReceive.EveryDatagramAccounted` | src/udp_transport.cpp:458-487 | every datagram read whole is a message or reported malformed, never both |
| `UdpReceive.Receiver.Receive` | src/udp_transport.cpp:405-491 | consumes arrivals up to the first good datagram and returns its envelope; nothing good is skipped |
| `UdpReceive.ReceiveRun` | src/udp_transport.cpp:405-491 | over any calls and arrivals the messages are exactly the good datagrams in order, and reported gaps bound their real loss |
| `Feedback.OnCycleIffReachable` | src/config_v3.cpp:789-789 | an edge lies on a simple directed cycle exactly when its target reaches its source |
| `Feedback.Search` | src/config_v3.cpp:794-800 | the recursive search terminates; found means reachable, not found means every newly visited node has all its successors visited |
| `Feedback.Reaches` | src/config_v3.cpp:793-801 | the search from scratch decides reachability |
| `Feedback.BuildAdjacency` | src/config_v3.cpp:588-588 | the adjacency map has exactly the edges of the connections |
| `Feedback.CheckFeedback` | src/config_v3.cpp:789-811 | the check passes exactly when every edge lies on no cycle or both its ports allow feedback |
| `ConfigJson.RenderUnique` | src/config_document.cpp:41-85 | a rendered value followed by a delimiter can be read in one way only |
| `ConfigJson.JsonInjective` | src/config_document.cpp:88-93 | in either layout two values have the same text exactly when they are equal |
| `ConfigJson.RenderString` | src/config_document.cpp:23-39 | the escaping loop appends the specified quoted text |
| `ConfigJson.RenderInto` | src/config_document.cpp:41-85 | the recursive renderer appends the specified text |
| `ConfigJson.ConfigValueJson` | src/config_document.cpp:88-93 | the whole text, with a line break in the indented form |
| `ConfigJson.HasDuplicate` | src/config_document.cpp:336-340 | comparing texts finds a duplicate exactly when two items are equal values |
| `Pcapng.BlockReadsBack` | src/capture.cpp:130-139 | a block reads back exactly when its length fits 32 bits |
| `Pcapng.FileReadsBack` | src/capture.cpp:130-139 | a file of sound blocks reads as exactly those blocks |
| `Pcapng.TornBlock` | src/capture.cpp:141-153 | no proper prefix of a sound block is a block |
| `Pcapng.TornFile` | src/capture.cpp:288-306 | after a failed write the file is a block sequence exactly when nothing of the block is left |
| `Pcapng.OverwrittenTail` | src/capture.cpp:293-306 | after a failed write that could be rewound but not truncated, the next block overwrites the torn part and the file reads as it, followed by what the longer torn bytes read as |
| `Pcapng.PacketReadsBack` | src/capture.cpp:258-276 | timestamp, captured bytes and original length are read back from a packet block |
| `Pcapng.PacketCommentReadsBack` | src/capture.cpp:270-276 | the comment option is read back from a packet block |
| `Pcapng.SectionReadsBack` | src/capture.cpp:217-223 | byte order, unknown length and comment are read back from the section header |
| `Pcapng.InterfaceReadsBack` | src/capture.cpp:226-236 | link type, snapshot length, name, description and nanosecond resolution are read back from the interface block |
| `CaptureWriter.Pad32` | src/capture.cpp:43-45 | pads with zeros to the next multiple of four |
| `CaptureWriter.PutOption` | src/capture.cpp:47-53 | appends the option; refused exactly past 65535 bytes |
| `CaptureWriter.MakeBlock` | src/capture.cpp:130-139 | the block with its length, cast to 32 bits, on both sides |
| `CaptureWriter.MakePacketBody` | src/capture.cpp:253-275 | the packet body for the captured prefix, clamped length and non-negative timestamp |
| `CaptureWriter.MakeSectionBody` | src/capture.cpp:217-223 | writes the section header body that `SectionReadsBack` reads |
| `CaptureWriter.MakeInterfaceBody` | src/capture.cpp:226-236 | writes the interface description body that `InterfaceReadsBack` reads |
| `CaptureWriter.Open` | src/capture.cpp:158-243 | limits are checked first; a new file is one section header and one interface block |
| `CaptureWriter.Writer.WriteBlock` | src/capture.cpp:288-306 | all of the block, or none of it when the rollback truncates, or a proper prefix of it |
| `CaptureWriter.Writer.Record` | src/capture.cpp:249-279 | the packet becomes the last block and the counters describe it, or nothing changed; each limit is exact |
| `CaptureWriter.RecordAll` | src/capture.cpp:249-306 | after any run of packets whose blocks fit 32 bits, whatever the file limit, the file reads as its headers and exactly the packets whose recording succeeded, in order, and is complete |
| `CaptureWriter.AmpleFits` | src/capture.cpp:130-139 | every packet block of at most 4 GiB less 128 KiB captured bytes fits 32 bits |
| `CaptureWriter.CompletePcapngSnapshot` | src/infra/capture_resources.cpp:446-462 | the three reads decide whether the file starts with a section header and ends in a whole block |
| `CaptureWriter.FileIsComplete` | src/infra/capture_resources.cpp:446-462 | every file of the writer's shape passes that check |
| `CaptureComment.AppendEscapedJson` | src/capture.cpp:67-105 | appends all of the escaped text, failing exactly when it does not fit |
| `CaptureComment.CommentFor` | src/capture.cpp:107-128 | the full comment exactly when it fits an option, else the short form, which always fits |
| `CaptureComment.RecordFrame` | src/capture.cpp:335-341 | recording a frame never fails on the length of its comment; the packet becomes the last block, and the file keeps its shape when that block fits 32 bits |
| `CaptureHandoff.Exporter.Recognise` | src/infra/capture_handoff.cpp:68-79 | without interference the published snapshot is recognised or absent and unrecorded |
| `CaptureHandoff.Exporter.Export` | src/infra/lifecycle_coordinator.cpp:992-1035 | only a complete capture is copied; a failed copy is removed or left private |
| `CaptureHandoff.Exporter.Publish` | src/infra/capture_handoff.cpp:91-98 | seal, record, rename, record: every intermediate state keeps the snapshot sealed and recorded |
| `CaptureHandoff.Exporter.Turn` | src/infra/capture_handoff.cpp:63-99 | one capture's turn publishes the source's bytes or keeps the last snapshot; with a left-over pending file it changes no file and reports an interrupted export |
| `CaptureHandoff.Rounds` | src/infra/capture_handoff.cpp:32-104 | over any rounds with crashes anywhere, a published snapshot is absent or sealed, complete and in the saved ledger, and none is ever reported replaced or missing; a left-over pending file and its snapshot stay as they are and no round succeeds |
| `Ledger.ObserveKeeps` | src/infra/compose_execution.cpp:63-89 | observing changes how an object is looked up, not which; it keeps the ledger's laws and coverage |
| `Ledger.CreateKeeps` | src/infra/compose_execution.cpp:571-572 | creating a pending entry's object keeps coverage and points no other entry at it |
| `Ledger.ArriveKeeps` | src/infra/compose_execution.cpp:571-572 | an owned object that appears later keeps the ledger's laws, and coverage exactly when an entry still awaits it |
| `Ledger.EraseUncovers` | src/infra/compose_execution.cpp:344-344 | erasing an entry uncovers exactly the owned object it resolved to |
| `Ledger.OnlyRetainedLeft` | src/infra/compose_execution.cpp:328-346 | coverage by a ledger of retained volumes leaves nothing else of the owner |
| `Ledger.ContestedCheckFails` | src/infra/compose_execution.cpp:281-287 | an entry that resolves to another owner's object and whose check answers makes the first pass fail |
| `Ledger.AbandonedBefore` | src/infra/compose_execution.cpp:281-345 | after a first pass in which some lookups failed, the removals that will abandon an object are known from the ledger before it |
| `ComposeRunner.Runner.Inspect` | src/infra/compose_execution.cpp:51-59 | finds the object an entry resolves to; a refused lookup reads as absence |
| `ComposeRunner.Runner.Observe` | src/infra/compose_execution.cpp:63-89 | refines the entry to the object it already pointed at, and throws on any other object |
| `ComposeRunner.Runner.ObserveAll` | src/infra/compose_execution.cpp:281-287 | the first pass, refused lookups given: with nobody else at work it passes only when every entry whose lookup answers is absent or its own object, and then does unless a command fails; it refines the entries without changing what they cover |
| `ComposeRunner.Runner.RemoveEntry` | src/infra/compose_execution.cpp:329-345 | one removal: the entry is erased; a refused lookup leaves the object, an answered one removes it, and another owner's object stops it untouched |
| `ComposeRunner.Runner.RemoveAll` | src/infra/compose_execution.cpp:328-346 | the backward loop: which owned objects are uncovered and which are removed, as functions of the ledger and the refused lookups; undisturbed it completes exactly when no answered entry conflicts |
| `ComposeRunner.Runner.Stop` | src/infra/compose_execution.cpp:280-347 | with the refused lookups of both passes given: on completion only retained volumes are recorded, and coverage, hence a clean removal, holds exactly when no entry to be removed with a refused removal lookup resolves to an owned object; a failing first pass touches nothing; undisturbed, exactly which objects are removed and when it completes |
| `ComposeRunner.RefusedRemovalLosesNetwork` | src/infra/compose_execution.cpp:328-346 | a stop of one recorded network whose removal lookup fails completes with the network present and unrecorded |
| `ComposeRunner.RefusedCheckRemovesFirst` | src/infra/compose_execution.cpp:281-346 | a stop whose check of a contested entry fails removes its own network before it fails on the conflict |
| `ComposeRunner.Runner.Own` | src/infra/compose_execution.cpp:513-525 | the pending entry is saved before its object may exist |
| `ComposeRunner.Runner.Create` | src/infra/compose_execution.cpp:571-572 | a creation that may take effect even when it fails keeps coverage |
| `ComposeRunner.Runner.EnsureVolume` | src/infra/compose_execution.cpp:561-575 | a retained volume must still be there, any other is recorded, created and observed |
| `ComposeRunner.Runner.StageCredentials` | src/infra/compose_execution.cpp:580-669 | the staging container is recorded while it exists |
| `ComposeRunner.Runner.OwnAll` | src/infra/compose_execution.cpp:681-775 | every network and service container is recorded under a name of its own |
| `ComposeRunner.Runner.ComposeCreate` | src/infra/compose_execution.cpp:797-808 | whatever subset of the objects a creation leaves behind, coverage is kept |
| `ComposeRunner.Runner.Up` | src/infra/compose_execution.cpp:385-387 | refused while anything but retained volumes is recorded; otherwise coverage survives success, failure, cleanup and death unless a removal lookup of the cleanup fails |
| `ComposeRunner.Runner.Down` | src/infra/compose_execution.cpp:380-384 | a completed down with no failed removal lookup leaves no owned container, network or credential volume; an undisturbed one completes |
| `ComposeRunner.Runner.Arrive` | src/infra/compose_execution.cpp:34-50 | a given-up creation that lands between two runs keeps coverage exactly when the saved ledger still has its entry |
| `ComposeRunner.LateNetworkEscapes` | src/infra/compose_execution.cpp:328-346 | a stop erases the entry of a network that is not there yet, and the network then lands unrecorded |
| `ComposeRunner.Lifecycle` | src/infra/compose_execution.cpp:280-1046 | over any runs of up and down with a crash between any two effects and any failing lookups but those of removals, every owned object is in the saved ledger |
| `ComposeRunner.CleanupCompletes` | src/infra/compose_execution.cpp:280-347 | after any undisturbed history one calm down completes, whichever of its checks fail, and leaves only recorded retained volumes |
| `NativeRunner.Runner.Observe` | src/infra/process_resources.cpp:101-142 | absence is reported only when the process is gone; another process under the identifier, or a child that has not become its program, throws |
| `NativeRunner.Runner.StopProcess` | src/infra/process_resources.cpp:143-168 | signals only an identified process; success means it is gone |
| `NativeRunner.Runner.Stop` | src/execution.cpp:263-286 | all identified before the first signal; on completion the ledger is empty and no process of the graph is left |
| `NativeRunner.Runner.Start` | src/infra/process_resources.cpp:169-322 | however a start ends, no child stays at the gate and none is let through unrecorded; unless the runner dies, none is left that has not become its program |
| `NativeRunner.Runner.Up` | src/execution.cpp:318-319 | refused while anything is recorded; a failed startup is stopped again |
| `NativeRunner.Lifecycle` | src/execution.cpp:254-286 | over any runs with a crash anywhere, every released process is in the saved ledger |
| `NativeRunner.CleanupCompletes` | src/execution.cpp:263-286 | with no identifier reused, one calm down after any history leaves no process |
| `ReadyLog.ApplicationReady` | src/infra/application_lifecycle.hpp:9-19 | the search, which never reports a line that is not there |
| `ReadyLog.ReadyExact` | src/infra/application_lifecycle.hpp:9-19 | readiness means some whole line is the marker, for every log, exactly when the marker has no border behind a newline |
| `ReadyLog.HiddenName` | src/infra/application_lifecycle.hpp:9-19 | a name, not one the schema admits, whose marker has such a border, so that some log with its marker line is missed |
| `ReadyLog.ReadyIsALine` | src/infra/application_lifecycle.hpp:9-19 | without a newline in the name, readiness says the marker is one of the lines |
| `Admission.Gate.DecideContainer` | src/infra/compose_execution.cpp:933-955 | one look at an undecided container: every verdict is justified by what was seen |
| `Admission.Gate.DecideProcess` | src/execution.cpp:480-499 | the same for a native process, stopped on the spot at the deadline |
| `Admission.Gate.AdmitAll` | src/infra/compose_execution.cpp:929-959 | the loop ends by the deadline with a verdict for every application |
| `Admission.Gate.StopTimedOut` | src/infra/compose_execution.cpp:960-968 | stopping timed-out containers keeps every verdict justified |
| `Admission.Gate.Excuse` | src/infra/compose_execution.cpp:992-998 | a stopped one passes only with the available policy, a verdict and a classified exit; ready becomes exited |
| `Admission.Gate.OpenForContainers` | src/infra/compose_execution.cpp:925-1006 | the release is published only after every application has a justified verdict and every container was then seen running or excused; transactional startup means all ready and all running |
| `Admission.Gate.AwaitReady` | src/execution.cpp:446-466 | transactional native startup goes on only after the marker line was read |
| `Admission.Gate.OpenForProcesses` | src/execution.cpp:441-516 | the same promise for native processes |
| `InfraPlan.RollbackCompleted` | src/infra.cpp:90-110 | the backward loop runs the specified compensations |
| `InfraPlan.ExecutePlan` | src/infra.cpp:83-144 | success exactly when no command stops the plan; otherwise which commands and compensations ran, and the resulting state |
| `InfraPlan.UndoneExactly` | src/infra.cpp:90-110 | the compensations are those of exactly the completed commands whose identity still matches at their turn, last first |
| `InfraPlan.FailureRestores` | src/infra.cpp:83-144 | if each compensation undoes its command in the state the plan ran it in, a failing plan leaves the machine as it found it |

## Left out

- TLS, certificates, HMAC signing and nonces.
- YAML parsing, schema validation beyond `uniqueItems`, regular expressions and address parsing.
- Real numbers in configuration values: the renderer's text for them is a library's.
- Sockets, poll, memory mapping, signals and condition variables: a wait releases the mutex, so the model's calls on the shared segment end at a wait and begin again after it.
- Accepting and reconnecting on the receiving TCP side, and local cancellation of a blocked call there: one connection is modelled at a time.
- The Unix-domain socket transport, which repeats the TCP framing.
- Wrap-around of the 64-bit ring counters, of the ordinal counters and of packet counters.
- Generation of identities and timestamps, and trace sinks, except the UDP events and a TCP report that throws; a sink that throws from `on_error` leaves a torn connection open.
- `std::sort` on attributes is an insertion sort in `EnvelopeCodec`: the result is proved unique.
- The cardinality and listener passes of `connection_values`, and the rest of the configuration compiler.
- OVS bridges, network namespaces, QEMU guests, node consoles and native processes inside a Compose graph, and the container stop that precedes removal there.
- Docker effects that arrive in the middle of a later command, after the one that asked for them was given up, and renamed Docker objects.
- A process that ends between its identification and the signal, its identifier reused at once.
- A capture source rewritten in place while it is copied; the exporter's copy loop is one step that may stop anywhere.
- A capture writer that goes on after a rollback that could neither truncate nor rewind: only the failing call itself is specified.
- `application_status`, the status commands, image verification and the Compose projection: mostly literal data.
- Command line, scripts, web console, telemetry exporters, sample applications and VITA processing.
