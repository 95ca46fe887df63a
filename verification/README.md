# TES server: capture writer, receive rings and histograms

A Dafny model of the server `tesd`, which receives frames of the TES protocol from
a network card and hands them to several concurrent tasks. Four parts of it are
modelled, each in the form the program gives it: objects that are updated in place
are classes with the program's fields, loops are loops, predicates over a frame are
predicates.

* **The capture writer.** Each of the eight files of a capture has a 10 MB circular
  buffer which asynchronous writes drain (`AioBuffer`). On top of the buffers the
  packet handler routes payloads to four data files and writes a frame, a tick, a
  trace and an MCA index (`Capture`). What the files should hold is defined as
  functions of the recorded frames (`CaptureFiles`), the handler is proved to write
  exactly that, and `CaptureIndex`, `CaptureStreams` and `Replay` prove what it
  means: the ranges in the indices are the payloads, trace and MCA records denote
  complete streams, and a capture can be played back. `DataFiles` and `StreamRecords`
  tell the same from the frames' own fields and bytes, without the handler's types,
  tables and bookkeeping. `CaptureResult` puts the parts together, from the frames to
  the closed files and back. The operating system is a
  set of methods with non-deterministic results: a write may stay in progress, be
  refused with EAGAIN, fail, or write the wrong number of bytes, and until it has
  completed the file may hold anything from its offset on.
* **The receive rings.** `RingIds` is the arithmetic of slot numbers. `RingProtocol`
  is a state machine of network card, coordinator and tasks whose steps interleave
  in any order; unbounded positions, kept as history, tie the slots to the order of
  arrival. `Dispatch` has the coordinator's and the tasks' loops, and `TaskLoop` the
  wake-up handler and the proof that the loops visit what the state machine delivers.
* **The jitter histogram.** `JitterOffline` defines the histogram on the whole
  sequence of events by sums of delays; `Jitter` is the handler with its few
  saturating accumulators, proved to compute the same.
* **MCA histograms and the life of a task.** `HistCollate` says which histograms come
  out of a sequence of frames, `HistTask` is the handler with its byte buffer.
  `Lifecycle` is about when tasks are active.

`Basics`, `Bytes` and `Frames` hold shared pieces, the byte layout and the frame headers.
Where a proof needs only the meaning of a function, its body is hidden with `hide`.

## Where the code does not do what it is meant to

For each of these the condition is proved under which the code does what it should. Where
it says "exactly", the proof goes both ways for all inputs.

* A stream header that arrives while another stream is ongoing interrupts that stream
  and is then dropped. A complete stream gets its index record exactly if no stream was
  ongoing as its header came (`CaptureStreams.IndexedIffIdle`; input:
  `CompleteButNotIndexed`).
* A tick record is right exactly if its interval has at least two event frames
  (`CaptureIndex.TickIndexIsExact`). With one the last frame's number is an earlier one;
  with none, where there is nothing to be right about, the record repeats the interval
  before (`EmptyIntervalRepeats`).
* The `changed` flag compares with the previous event frame of the job if there is one
  (`CaptureIndex.ChangedFlag`); for a job's first event frame it may come out either way
  (`ChangedFlagIsStale`). The previous size is kept in 8 bits, which is enough for good
  frames.
* The reply depends on what was recorded and not on what was written: the return codes of
  the last flush are dropped. "Ok" is true, as the documentation promises, exactly if
  the job was finished and all those codes were 0, or if it is not given
  (`Capture.Job.OkIsTrueIff`). Input: on a system that refuses every write a finished or
  nearly finished job is answered with "ok" over empty files
  (`CaptureResult.OkDespiteFailure`). An unfinished job is answered with "ok" exactly if
  only the tick that would have ended it is missing (`Capture.IncompleteJobReportedOk`).
* A write that is still running when the files are closed, after an interrupted wait, is
  neither cancelled nor waited for. Whatever becomes of the file, it is a prefix of what
  was appended exactly if no write is running (`AioBuffer.ClosedFileIsPrefixIff`).
* The replay tool keeps the result of `lseek` in an `int`. Of a capture that was written
  completely all good frames are replayed exactly if none starts 2 GB or more into its
  data file (`Replay.CaptureReplayed` with `FullReach`; input: `LongCaptureIsCutShort`).
* A task that is activated while the coordinator is releasing rings can rely on its slots
  in all that follows exactly if none of the remaining releases moves a ring's head
  (`RingProtocol.ActivationWhileReleasing`; input: `ActivationRace`). While the heads are
  collected it can do so if its turn has not come yet (`ActivationBeforeVisit`); this one
  is not exact, since it depends on heads still to be looked at whether anything is
  released.
* `done + pending == total` holds exactly if the cursor is in the part of the ring between
  head and tail (`RingIds.DonePlusPending`).
* The documentation speaks of one entry in the jitter histogram for each point. A point
  between two references has one exactly if it is among the first 14 followed since the
  reference, and was not being followed as a histogram was published
  (`JitterOffline.OneEntry`).
* After waiting for its first reference the jitter task ever publishes exactly if no more
  than one tick too many has passed (`Jitter.PublishesIffReferenceInTime`).
* An MCA header without bins is harmless by itself (`HistCollate.BareButIntact`), but a
  header that directly follows it is put after it in the buffer. A histogram is published
  as it was sent exactly if its header does not come in that state
  (`HistCollate.PublishedIffComplete`; input: `SpoiltHistogram`). Such headers pile up; a
  payload stays within the buffer exactly if its histogram, put after them, ends there
  (`HistTask.CopyFitsIff`), so the buffer holds 1639 of them (`BareHeadersPileUp`).
* A publisher is activated once for each first subscriber exactly if no subscriber leaves
  one other behind (`Lifecycle.ActivatedOncePerSession`; input: `ActivatedBy`).

## Model

| member | source | states |
|---|---|---|
| `AioBuffer.Fifo` | src/bin/tesd_task_cap.c:793-1023 | the file up to `size`, then the bytes in flight, then the waiting bytes read round the zone are everything ever appended, in order |
| `AioBuffer.FullIsNotEmpty` | src/bin/tesd_task_cap.c:801-815 | at call boundaries the cursor meets the tail only in an empty buffer, never lies in the batch in flight, and a full frame always fits |
| `AioBuffer.AioBuf.TryQueue` | src/bin/tesd_task_cap.c:792-892 | appends exactly the given bytes whatever the system does; without an error the buffer again has room for a full frame and a batch in flight is really being written; a failed or short write is returned as an error at the next call that is not just adding to a small batch, and nothing else is; it waits for a write only for want of space |
| `AioBuffer.AioBuf.Copy` | src/bin/tesd_task_cap.c:816-830 | the two copies round the end of the zone append the data and touch no byte in flight or waiting |
| `AioBuffer.AioBuf.CopyRound` | src/bin/tesd_task_cap.c:816-829 | byte `k` goes to the place `k` after the cursor, going round; all other places keep their bytes |
| `AioBuffer.AioBuf.Queue` | src/bin/tesd_task_cap.c:909-1023 | across completion, EAGAIN, errors and short writes the queue stays intact; 0 means drained, in progress that the write is running, an error that it failed or that waiting was interrupted; each forced call brings the buffer closer to empty or uses up a refusal |
| `AioBuffer.AioBuf.CheckPrevious` | src/bin/tesd_task_cap.c:918-960 | each thing the system may say about the batch in flight has its answer: in progress if and only if the write is running and not forced, an error if and only if it failed or a forced wait was interrupted, a mismatch if and only if another number of bytes was written; a batch is released only if all its bytes are in the file, and queued again only on EAGAIN |
| `AioBuffer.AioBuf.PrepareNext` | src/bin/tesd_task_cap.c:963-999 | releasing a written batch and taking the next one up to the cursor or the end of the zone keeps the queue; the waiting bytes lie in one stretch less |
| `AioBuffer.AioBuf.Submit` | src/bin/tesd_task_cap.c:1002-1022 | the control block describes the batch at the tail; 0 is returned exactly when there is nothing to write |
| `AioBuffer.AioBuf.Flush` | src/bin/tesd_task_cap.c:770-782 | ends after at most three forced calls besides those refused with EAGAIN; if it reports 0 the file holds everything appended |
| `AioBuffer.AioBuf.Open` | src/bin/tesd_task_cap.c:556-590 | an opened file and its buffer are empty |
| `AioBuffer.AioBuf.Close` | src/bin/tesd_task_cap.c:596-620 | after any run the closed file begins with the bytes known to be written, which are the first ones appended and all of them exactly if the buffer was drained; nothing follows them unless a write was left running |
| `AioBuffer.AioBuf.CutFile` | src/bin/tesd_task_cap.c:610-611 | the file is cut to the bytes known to be written; a running write is neither waited for nor cancelled |
| `AioBuffer.ClosedFileIsPrefixIff` | src/bin/tesd_task_cap.c:604-620 | whatever becomes of a closed file, it is a prefix of what was appended if and only if no write was running |
| `AioBuffer.AioBuf.constructor` | src/bin/tesd_task_cap.c:303-323 | a new buffer is closed and empty |
| `CaptureFiles.PayloadAtStart` | src/bin/tesd_task_cap.c:1480-1481 | the offset computed for a frame is where its payload lies in its data file, also in a file cut short after it |
| `CaptureFiles.BytesConserved` | src/bin/tesd_task_cap.c:1418-1455 | every payload byte is in exactly one of the four data files |
| `DataFiles.FileHolds` | src/bin/tesd_task_cap.c:1418-1455 | for every recording the bad-payload file holds the payloads of exactly the frames with an error, and the MCA, tick and event files those of the good frames with that ether type and tick bit, in order of arrival |
| `DataFiles.OneKind` | src/bin/tesd_task_cap.c:1418-1455 | every frame is of exactly one of these four kinds |
| `DataFiles.EventsHeld` | src/bin/tesd_task_cap.c:1632-1647 | as many events are counted for a frame as fill its payload; a frame of a trace holds none of its own unless it is a dot product |
| `DataFiles.CountersGrow` | src/bin/tesd_task_cap.c:1372-1647 | each recorded frame adds one frame, the frames missed before it, one tick if it is a good tick, its events, and the traces and histograms it completes, each trace being one event |
| `Capture.Job.HandlePacket` | src/bin/tesd_task_cap.c:1348-1704 | after each frame all eight files and all counters are those of the recorded frames; the handler goes on only if no write is known to have failed: every batch in flight is being written; the job ends with the tick that completes the request and, if no write fails, with no other frame; then all files are closed, hold what the recording calls for as far as it is known to be written, and the reply carries its counters |
| `Capture.Job.Run` | src/bin/tesd_task_cap.c:1348-1783 | over any sequence of frames and any behaviour of the system the closed files begin with what is known to be written of what the recording calls for, and have nothing else unless a write was left running; they are complete if no write failed; the job ends with the first tick that completes the request |
| `Capture.Job.RecordFrame` | src/bin/tesd_task_cap.c:1372-1665 | one frame takes the files and counters from those of a recording to those of the recording with that frame added |
| `Capture.Job.PrepareRecord` | src/bin/tesd_task_cap.c:1372-1647 | the frame's index record and the tick, trace and MCA indices are those of the longer recording |
| `Capture.Job.UpdateTick` | src/bin/tesd_task_cap.c:1432-1478 | every tick but the first writes the interval's record; event frames are counted in it and compared with the previous event frame |
| `Capture.Job.TrackStream` | src/bin/tesd_task_cap.c:1498-1631 | a frame starts, continues, interrupts or leaves alone the ongoing stream as the bookkeeping over all frames says (`StreamRecords.BusyIff`), and a finished stream gets its record |
| `Capture.Job.ReceivePayload` | src/bin/tesd_task_cap.c:1574-1609 | the frame that completes a stream, and no other, has a record queued and counted; one that overruns it drops it |
| `Capture.Job.FinishStream` | src/bin/tesd_task_cap.c:1588-1609 | a complete trace is an event and goes to the trace index, a complete histogram goes to the MCA index |
| `Capture.Job.CountFrame` | src/bin/tesd_task_cap.c:1632-1647 | ticks and whole events are counted; the job is done with a tick when there are more ticks than asked for and enough events |
| `Capture.Job.WriteFrame` | src/bin/tesd_task_cap.c:1649-1660 | the payload goes to the frame's data file, which `DataFiles.FileHolds` tells from its fields, and the record to the frame index; no other file changes |
| `Capture.Job.FlushAll` | src/bin/tesd_task_cap.c:770-782 | exactly the buffers whose return code is 0 are drained, all of them on a system that does not fail, and nothing is appended |
| `Capture.Job.CloseAll` | src/bin/tesd_task_cap.c:542-550 | every file begins with what was known to be written of it, all of it exactly if its buffer was drained; a write that was running is noted |
| `Capture.Job.CompleteIff` | src/bin/tesd_task_cap.c:775-781 | all of every file is known to be written if and only if every dropped return code was 0; without a write left running the files are complete if and only if that is so |
| `Capture.Job.OkIsTrueIff` | src/bin/tesd_task_cap.c:1671-1684 | an ok reply means a finished recording and complete files if and only if too few ticks or events were recorded (it is not given then), or the last tick was recorded and every dropped return code was 0 |
| `Capture.Job.Finish` | src/bin/tesd_task_cap.c:1668-1700 | flushes, closes, replies with the counters of the recording and resets the job; the dropped return codes tell which files are complete |
| `Capture.Job.Start` | src/bin/tesd_task_cap.c:388-392 | a request for events alone asks for one tick; a request for neither is not a capture; otherwise all files are open and empty |
| `Capture.RecordedIsSuffix` | src/bin/tesd_task_cap.c:1356-1361 | the recording is everything from the first tick on |
| `Capture.IncompleteJobReportedOk` | src/bin/tesd_task_cap.c:1682-1684 | for all recordings, written or not: the reply is ok to one that could end the job, and to an unfinished one if and only if only the tick that would have ended it is missing |
| `CaptureResult.OkDespiteFailure` | src/bin/tesd_task_cap.c:1668-1696 | a job over a system that refuses every write: the reply is ok, frames were counted, and all eight files are empty |
| `CaptureResult.PayloadsFound` | src/bin/tesd_task_cap.c:1418-1455 | in the closed files of a job, what is known to be written of each data file is a prefix of the payloads of exactly the frames of its kind, and all of them if no write failed |
| `CaptureIndex.FrameIndexIsExact` | src/bin/tesd_task_cap.c:1392-1481 | record `i` names the data file of frame `i`, and its range of that file is exactly the frame's payload; size, type and sequence error are the frame's, and the header bit tells whether it started a stream unless it was left uninitialised |
| `CaptureIndex.DecodeEncodeRecord` | src/bin/tesd_task_cap.c:1398-1402 | the sixteen bytes of a record can be read back |
| `CaptureIndex.RecordLayout` | src/bin/tesd_task_cap.c:181-188 | offset, length, size, flag and type are in bytes 0, 8, 12, 14 and 15 of a record |
| `CaptureIndex.TypeByteFields` | src/bin/tesd_task_cap.c:58-61 | type, header bit and sequence bit of the type byte can be told apart |
| `CaptureIndex.FrameRangesTile` | src/bin/tesd_task_cap.c:1480-1481 | the ranges of frames that follow each other in a data file adjoin |
| `CaptureIndex.ChangedFlag` | src/bin/tesd_task_cap.c:1461-1467 | the flag compares an event frame with the previous event frame of the job |
| `CaptureIndex.ChangedFlagIsStale` | src/bin/tesd_task_cap.c:1461-1467 | for a job's first event frame the flag may be either, depending on the job before |
| `CaptureIndex.TickScanIsExact` | src/bin/tesd_task_cap.c:1469-1477 | after any frames the bookkeeping holds the first event frame since the last tick, and the last one if there are two |
| `CaptureIndex.TickIndexIsExact` | src/bin/tesd_task_cap.c:1439-1477 | a tick writes the numbers of the first and the last event frame of its interval if and only if there are at least two |
| `CaptureIndex.EmptyIntervalRepeats` | src/bin/tesd_task_cap.c:1448-1449 | a tick after an interval without event frames writes the numbers noted before that interval |
| `CaptureIndex.CountersMatchFiles` | src/bin/tesd_task_cap.c:1662-1665 | sizes of the index files follow from the counters in the reply, there are no more traces than events, and the data files together are as long as the payloads |
| `CaptureStreams.ScanIsSound` | src/bin/tesd_task_cap.c:1498-1630 | over all sequences of frames, bad and foreign ones included, an ongoing stream is a proper part of what its header declared and every finished one is complete |
| `CaptureStreams.CasesAreAsAsserted` | src/bin/tesd_task_cap.c:1498-1530 | the handler's assertions hold: the cases exclude each other, a stream is interrupted only for one of the listed reasons, and a header never overruns its own stream |
| `CaptureStreams.StreamIndexIsSound` | src/bin/tesd_task_cap.c:1564-1609 | a trace or MCA record denotes a header payload followed by continuation payloads of the same kind with none missing, as long as the header declares |
| `CaptureStreams.StreamsDoNotOverlap` | src/bin/tesd_task_cap.c:1564-1601 | records of one index are in file order and disjoint |
| `CaptureStreams.IndexedIffIdle` | src/bin/tesd_task_cap.c:1515-1526 | a complete stream is in the index if and only if no other stream was ongoing when its header came |
| `CaptureStreams.CompleteButNotIndexed` | src/bin/tesd_task_cap.c:1515-1526 | two traces, the second complete and without a record |
| `StreamRecords.RecordedIff` | src/bin/tesd_task_cap.c:1494-1630 | the trace index and the MCA index have a record of exactly those frames that are a header and its uninterrupted continuations, came while no stream was ongoing, and bring as many bytes as the header's bytes declare: the trace's size, or 40 and 4 for each bin up to the last; the record has that length and starts after the payloads of that kind before |
| `StreamRecords.RecordedWhenReached` | src/bin/tesd_task_cap.c:1574-1609 | a header that comes while no stream is ongoing, with its continuations, gets a record exactly when their payload bytes reach the size in its bytes |
| `StreamRecords.BusyIff` | src/bin/tesd_task_cap.c:1498-1530 | the handler takes a stream to be ongoing if and only if the frames are a header that came while none was and its continuations, and bytes are missing |
| `StreamRecords.StartsIff` | src/bin/tesd_task_cap.c:1515-1526 | a frame starts a stream if and only if it is a good header of a stream and none is ongoing |
| `CaptureResult.FrameFound` | src/bin/tesd_task_cap.c:1348-1704 | whatever writes failed or were left running, every frame record known to be written tells the truth about the closed data files |
| `CaptureResult.StreamFound` | src/bin/tesd_task_cap.c:1494-1630 | whatever writes failed or were left running, every trace or MCA record known to be written belongs to a complete stream, and its range of the closed data file is that stream if it is known to be written |
| `CaptureResult.JobReplayed` | tests/netmap_tescap_tx.c:317-440 | whatever writes failed, unless one was left running: replaying the closed files restores the recording's good frames up to the first that has no record or is out of reach |
| `CaptureResult.CaptureAndReplay` | tests/netmap_tescap_tx.c:270-465 | a whole job followed by a replay injects the good frames from the first tick on, each as it arrived, as far as the replay reaches |
| `Replay.InjectFromFidx` | tests/netmap_tescap_tx.c:298-465 | one pass over the index injects a frame for each known record until one is unreadable |
| `Replay.KindRestored` | tests/netmap_tescap_tx.c:353-397 | the linear type code loses nothing about the kind of a good frame |
| `Replay.RecordReplayed` | tests/netmap_tescap_tx.c:344-440 | a good frame is injected with its kind, event size, length and payload unless its payload is out of reach or was not written, which ends the replay; a bad one is skipped |
| `Replay.StopsIff` | tests/netmap_tescap_tx.c:344-440 | the tool stops exactly at a record whose length exceeds 1472 bytes or whose range starts at 2 GB or later, or is not all in its data file |
| `Replay.CaptureReplayed` | tests/netmap_tescap_tx.c:298-440 | of files that may have been cut short, the good frames are injected in order up to the first that has no record or is out of reach, all of them if and only if there is none; a capture without bad frames comes back whole |
| `Replay.FullReach` | tests/netmap_tescap_tx.c:416-427 | in complete files all good frames are in reach if and only if none starts 2 GB or more into its data file |
| `Replay.LongCaptureIsCutShort` | tests/netmap_tescap_tx.c:417-427 | a million and a half full frames are not all replayed |
| `Frames.GoodIff` | include/net/tespkt.h:1279-1370 | a frame is valid if and only if its length is legal and its sizes agree with its kind |
| `Frames.GoodInNumbers` | include/net/tespkt.h:1279-1370 | the same from the header fields and the bytes of a stream's header |
| `Frames.GoodFrame` | include/net/tespkt.h:1279-1356 | what validity promises: length, event size and kind |
| `Frames.GoodStreamHeader` | include/net/tespkt.h:1318-1361 | the payload of a valid header is no longer than the stream it declares |
| `RingIds.CompareIsDistance` | src/lib/tesif.c:419-458 | comparing slots is comparing their forward distance from the head: a strict total order of which the earlier and the later slot are minimum and maximum |
| `RingIds.BetweenIsMod` | src/lib/tesif.c:546-568 | the counts are differences of slot numbers modulo the number of slots |
| `RingIds.DonePlusPending` | src/lib/tesif.c:546-568 | done and pending packets add up to all if and only if the cursor is between head and tail |
| `RingIds.FollowingIsNext` | src/lib/tesif.c:72-85 | the following slot is one further from the head, and preceding undoes it |
| `RingIds.SlotDistance` | src/lib/tesif.c:546-568 | within one round distances of slots are distances in order of arrival |
| `RingProtocol.StepKeeps` | src/bin/tesd.c:362-428 | receiving, collecting heads, releasing from what may be an old snapshot, handling, activating and deactivating all keep every active head between the ring's head and tail |
| `RingProtocol.StepsDo` | src/bin/tesd_tasks.c:364-435 | an arriving packet becomes the latest one and fills the free slot at the tail, which moves on by one; an activated task is at the heads of all rings and a deactivated one is inactive; nothing else changes |
| `RingProtocol.HandleDoes` | src/bin/tesd_tasks.c:1016-1075 | a task that handles a packet is handed the one in the slot at its head, which moves on by one unless the handler has had enough; then the task is inactive |
| `RingProtocol.AllRunsAreSafe` | src/bin/tesd_tasks.c:986-1078 | after any run no packet an active task has yet to handle has been or will next be overwritten, and since its activation it was handed every packet once and in order |
| `RingProtocol.DeliveredSinceActivation` | src/bin/tesd_tasks.c:365-397 | from an activation until the next one a task is handed what arrived from the ring's head at the activation on, every packet once and in order, up to its own head |
| `RingProtocol.SlowerKeeps` | src/bin/tesd_tasks.c:335-353 | taking in one more head leaves the mark at the earlier of the two positions |
| `RingProtocol.ReleaseKeepsRing` | src/bin/tesd.c:384-428 | a release moves a ring's head to the slowest head, or to the tail without active tasks, and changes nothing else |
| `RingProtocol.HandleKeepsCursor` | src/bin/tesd_tasks.c:1016-1075 | a handled packet is the one that arrived at the task's position |
| `RingProtocol.ActivationWhileReleasing` | src/bin/tesd_tasks.c:387-394 | all runs after an activation during the release keep the slots of the activated task safe if and only if no remaining release moves a head |
| `RingProtocol.ActivationBeforeVisit` | src/bin/tesd_tasks.c:330-356 | an activation during the collection of heads, before the task's turn, is safe in all runs |
| `RingProtocol.ActivationKeepsIff` | src/bin/tesd_tasks.c:387-394 | such an activation keeps the invariant of all steps under the same condition |
| `RingProtocol.ActivationRace` | src/bin/tesd_tasks.c:387-394 | a run in which an activated task's first packet is overwritten |
| `Dispatch.GetHeads` | src/bin/tesd_tasks.c:323-358 | for every ring the head of an active task than which none is slower; nothing exactly when no task is active |
| `Dispatch.ReleaseTo` | src/bin/tesd.c:400-427 | counts the released packets and the gaps between them, as 16-bit numbers |
| `Dispatch.Coordinator.ReleaseRing` | src/bin/tesd.c:384-428 | a ring is released up to its target, or left alone when there is nothing to release |
| `Dispatch.Coordinator.GapsInNumbers` | src/bin/tesd.c:400-422 | the frames counted as missed in a batch are the change of the frame number from its first to its last frame less the frames after the first, in 16 bits |
| `Dispatch.Coordinator.NewPackets` | src/bin/tesd.c:381-428 | all rings are released up to the given heads, or wholly without any; the counters grow by the packets released and the gaps among them |
| `Dispatch.Coordinator.HandleNewPackets` | src/bin/tesd.c:362-428 | each ring's head moves to the slowest active task's head, or to its tail when no task is active |
| `Dispatch.GapsTelescope` | src/bin/tesd_tasks.c:1054-1071 | over any frames the gaps and the frames add up to the change of the frame number, as 16-bit numbers |
| `Dispatch.GapsAreExact` | src/bin/tesd_tasks.c:1054-1071 | and exactly if and only if the sum fits 16 bits |
| `Dispatch.BatchMissedIsGaps` | src/bin/tesd.c:400-422 | the count from the first and last frame of a batch is the sum of its gaps if and only if that fits 16 bits |
| `Dispatch.NextRing` | src/bin/tesd_tasks.c:945-975 | chooses a ring with packets whose head is closest in sequence to the last frame, none exactly when all are drained |
| `Dispatch.HandleHead` | src/bin/tesd_tasks.c:1023-1071 | the packet at the head is handed over with the gap in the frame numbers, a length that is the smaller of the frame's and the slot's, the frame's errors, and a length error if it was longer than the slot; the sequence numbers are noted |
| `Dispatch.CutLength` | src/bin/tesd_tasks.c:1032-1052 | a frame is cut exactly if it was longer than its slot, and then it is in error; its length is at most the MTU if the slot holds no more |
| `Dispatch.DeliverCuts` | src/bin/tesd_tasks.c:1032-1061 | what is handed over of a slot, in numbers: length, gap and errors |
| `Dispatch.GoodDelivery` | src/bin/tesd_tasks.c:1032-1052 | a frame handed over without errors is valid, complete and of a legal length |
| `Dispatch.DispatchRing` | src/bin/tesd_tasks.c:986-1078 | the slots from the task's head to the tail are handed over one by one, each cut to what it received, the head staying at the last one if the handler had enough; gaps and frames account for the frame number, and the protocol sequences noted are those of the last MCA frame and the last frame of a trace |
| `TaskLoop.HandleWakeup` | src/bin/tesd_tasks.c:447-531 | a wake-up hands over, ring by ring and no ring twice, the packets in the slots from the task's head on; it drains all rings or ends with the handler's word; gaps and frames account for the frame number over all rings, and the last frames of each kind for the protocol sequences |
| `TaskLoop.TakeTurn` | src/bin/tesd_tasks.c:500-526 | a ring that has packets had no turn before; its turn leaves the head at the tail, or at the last packet if the handler had enough |
| `TaskLoop.TurnsAreHandling` | src/bin/tesd_tasks.c:986-1078 | every turn of a wake-up hands over consecutive arrivals of its ring and leaves the head where the protocol's steps do |
| `TaskLoop.FirstGap` | src/bin/tesd_tasks.c:1056-1061 | the gap found when choosing the ring is that of the first frame handed over |
| `TaskLoop.SlowestIsUnique` | src/bin/tesd_tasks.c:323-358 | the slowest head is unique |
| `TaskLoop.SlowestIsReleased` | src/bin/tesd.c:368-427 | the slowest head is at the earliest position of an active task, and the protocol's release takes the ring there |
| `TaskLoop.DispatchIsHandling` | src/bin/tesd_tasks.c:1016-1075 | what a turn hands over are consecutive arrivals from the task's position on, over any number of rounds of the ring, by the steps of the protocol |
| `JitterOffline.OneEntry` | src/bin/tesd_task_jitter.c:301-327 | an event between two references has exactly one entry if it is among the first 14 since the reference or the publication, none otherwise |
| `JitterOffline.EntryInNumbers` | src/bin/tesd_task_jitter.c:108-327 | an event between two references has its entry if at most 13 events of other channels came before it since the reference or the publication, in its channel's histogram, in the bin that the sums of its delays since and until the references give: 511 plus the one or 511 less the other, whichever delay is smaller, within 0 to 1021 |
| `JitterOffline.BinInNumbers` | src/bin/tesd_task_jitter.c:115-126 | the bin is 511 + since if that is the smaller delay and at most 510, 1021 if it is more, 511 - until if that is smaller and at most 511, otherwise 0 |
| `JitterOffline.HistogramsAreLabelled` | src/bin/tesd_task_jitter.c:158-163 | channels other than the reference and histograms correspond one to one, as the labels say |
| `JitterOffline.TracksEvent` | src/bin/tesd_task_jitter.c:279-327 | the points' saturating sums are the delays from the reference before and to now, and the points are the first ones since then |
| `JitterOffline.RefCountsPoints` | src/bin/tesd_task_jitter.c:108-144 | a reference adds to each bin the points the offline definition counts there |
| `Jitter.JitterData.SavePoint` | src/bin/tesd_task_jitter.c:115-133 | one bin grows by one and no other changes: of the point's histogram the bin 511 + since, 1021, 511 - until or 0, by which delay is smaller and how large it is |
| `Jitter.JitterData.SavePoints` | src/bin/tesd_task_jitter.c:105-144 | all points but the last are counted, and the last begins anew |
| `Jitter.JitterData.CollectPoint` | src/bin/tesd_task_jitter.c:279-327 | an event that is not a reference adds its delay to all points and becomes a point if there is room |
| `Jitter.JitterData.Reference` | src/bin/tesd_task_jitter.c:279-296 | keeps every bin equal to the offline count |
| `Jitter.JitterData.NonReference` | src/bin/tesd_task_jitter.c:279-327 | keeps every bin and every point right |
| `Jitter.JitterData.PrepareNext` | src/bin/tesd_task_jitter.c:149-178 | begins an empty, labelled histogram with the latest configuration and goes on collecting |
| `Jitter.JitterData.Wakeup` | src/bin/tesd_task_jitter.c:384-396 | an activated task waits for a tick and a reference |
| `Jitter.JitterData.Configure` | src/bin/tesd_task_jitter.c:201-218 | a valid request is used from the next histogram on, an invalid one changes nothing |
| `Jitter.JitterData.HandleEvents` | src/bin/tesd_task_jitter.c:267-328 | a frame's events are taken into account one by one unless the first reference is still awaited |
| `Jitter.JitterData.HandlePacket` | src/bin/tesd_task_jitter.c:243-359 | the published histogram equals the offline one of the events since the last publication; it is published with the tick after the configured number |
| `Jitter.PublishedRegularly` | src/bin/tesd_task_jitter.c:330-357 | once the references have begun in time there is one histogram for each configured number of ticks |
| `Jitter.PublishesIffReferenceInTime` | src/bin/tesd_task_jitter.c:264-355 | anything is ever published if and only if the first reference is not more than one tick late |
| `Jitter.EventBytes` | include/net/tespkt.h:848-860 | of event `e` the channel is in the lowest bits of byte 4 and the delay in bytes 6 and 7, from `8 * esize * e` on |
| `Jitter.FrameInNumbers` | src/bin/tesd_task_jitter.c:261-279 | a frame taken into account is counted as a tick by its tick bit; it has one event for a trace and otherwise as many as fill its payload, each a reference if it is of the reference channel and no tick |
| `Jitter.RelevantInNumbers` | src/bin/tesd_task_jitter.c:254-260 | taken into account are good event frames but for the later frames of a trace that is not a dot product |
| `HistCollate.PublishedIffComplete` | src/bin/tesd_task_hist.c:54-168 | a frame leads to a publication if and only if it completes a histogram; what is published is that histogram as it was sent if and only if its header did not directly follow a header without bins |
| `HistCollate.OnlyCompletePublished` | src/bin/tesd_task_hist.c:54-168 | over all sequences of frames a published message is a header and its consecutive continuations, as long as declared, after any headers without bins right before it; the histogram's size is 40 bytes and 4 for each bin throughout |
| `HistCollate.CompletePublished` | src/bin/tesd_task_hist.c:54-168 | a complete histogram is published whatever came before it, after any headers without bins right before it |
| `HistCollate.IntactIff` | src/bin/tesd_task_hist.c:85-113 | the published histogram is as it was sent if and only if its header did not directly follow a header without bins; each of those adds 40 bytes |
| `HistCollate.ResidueKept` | src/bin/tesd_task_hist.c:83-133 | there are bytes in the buffer and no bin is counted if and only if the last MCA frame was a header without bins, and they are the payloads of those that came last |
| `HistCollate.NumberedFromOne` | src/bin/tesd_task_hist.c:72-81 | without bad frames among them the frames of a histogram are numbered consecutively from the header on |
| `HistCollate.BareButIntact` | src/bin/tesd_task_hist.c:83-163 | a header without bins whose bins follow is published as it was sent |
| `HistCollate.SpoiltHistogram` | src/bin/tesd_task_hist.c:83-136 | after a header without bins a histogram of 48 declared bytes is published with 88 |
| `HistTask.HistData.HandlePacket` | src/bin/tesd_task_hist.c:53-168 | the handler publishes what the sequence of frames since the activation calls for, as long as the asserted bound of the copy holds |
| `HistTask.HistData.CollectFrame` | src/bin/tesd_task_hist.c:117-167 | bins are counted and bytes appended; the last bin publishes the buffer |
| `HistTask.HistData.BeginFrame` | src/bin/tesd_task_hist.c:83-114 | a header drops what came before it |
| `HistTask.HistData.Wakeup` | src/bin/tesd_task_hist.c:182-191 | an activated task waits for a header |
| `HistTask.PrevIsHandedOver` | src/bin/tesd_tasks.c:1066-1071 | the sequence number the collation compares with is the one the dispatching loop keeps, that of the last MCA frame handed over |
| `HistTask.CopyFitsIff` | src/bin/tesd_task_hist.c:127-133 | a payload is copied within the buffer if and only if its histogram, after the headers without bins right before it, ends there |
| `HistTask.FitsBuffer` | src/bin/tesd_task_hist.c:127-133 | the copy never exceeds the buffer if headers declare histograms that fit and none directly follows a header without bins |
| `HistTask.BareHeadersPileUp` | src/bin/tesd_task_hist.c:83-133 | another header without bins fits the buffer after `n` of them if and only if `n` is less than 1639 |
| `Lifecycle.TaskLife.Activate` | src/bin/tesd_tasks.c:364-398 | an active task that serves one client reads no requests |
| `Lifecycle.TaskLife.Deactivate` | src/bin/tesd_tasks.c:399-435 | and reads them again afterwards |
| `Lifecycle.TaskLife.HandleMessage` | src/bin/tesd_tasks.c:774-845 | counts subscriptions and keeps the publisher active exactly while there are some |
| `Lifecycle.TaskLife.Run` | src/bin/tesd_tasks.c:364-845 | over any events at most one job is in progress and the request reader is registered exactly when none is; a publisher is active exactly while it has subscribers |
| `Lifecycle.SubscribersCounted` | src/bin/tesd_tasks.c:815-826 | the subscribers are those who came less those who left |
| `Lifecycle.MessageBytes` | src/bin/tesd_tasks.c:802-831 | a message of one frame that begins with 1 adds a subscriber, one that begins with 0 or is empty takes one away, any other changes nothing |
| `Lifecycle.ActivatedOncePerSession` | src/bin/tesd_tasks.c:833-846 | a publisher is activated once for each first subscriber if and only if no subscriber leaves exactly one other behind |
| `Lifecycle.ActivatedBy` | src/bin/tesd_tasks.c:833-846 | a message activates the publisher when it is the first subscription or the end of the last but one |

## Left out

- Capture.Job.Run: 64-bit counters and file offsets do not wrap around; offsets that are read back are assumed to fit 64 bits.
- Capture.Job.Start: whether files can be opened, paths and file names, overwriting, and requests for status or conversion are not modelled.
- Capture.Job.Finish: the reply's status is that of the capture only; the statistics file and the conversion to HDF5, which may change it, are not modelled.
- Capture.Job.HandlePacket: frames are assumed to be longer than their header and no longer than the MTU; for frames without errors this is proved (`Dispatch.GoodDelivery`), and that none is longer than the MTU follows if the slots hold no more (`Dispatch.CutLength`).
- CaptureIndex.FrameIndexIsExact: of the bits of a record that the program leaves uninitialised (the header bit when it is not set, and the reserved ones) nothing is known; they are an input of the model.
- CaptureIndex.TickIndexIsExact: recordings of 2^32 frames and more are left out, since the index holds 32-bit numbers.
- AioBuffer.AioBuf.Flush: the system is assumed to answer with EAGAIN only finitely often; while the limit lasts it may do so at any time.
- AioBuffer.AioBuf.CheckPrevious: a control block that is no longer running keeps its status when it is asked again.
- AioBuffer.AioBuf.Close: a write left running may put anything after the bytes known to be written; that it reads a buffer zone which may be in use again is not modelled beyond that.
- Replay.CaptureReplayed: the frame and protocol sequence numbers the tool makes up are not part of what is restored; neither are pacing, poll errors and further loops over the files.
- RingProtocol.AllRunsAreSafe: activation is one step and does not fall between the collection of heads and the release; `RingProtocol.ActivationWhileReleasing` and `RingProtocol.ActivationBeforeVisit` say when it may. The card is reduced to filling the slot at the tail while one slot stays free.
- Dispatch.DispatchRing: the tail is fixed during a turn; that it may advance meanwhile is in `RingProtocol`.
- TaskLoop.HandleWakeup: the choice of the first ring after an activation (src/bin/tesd_tasks.c:916-942) is not modelled, nor is any order across rings.
- Jitter.JitterData.HandlePacket: only the two channels the server is built for occur in frames.
- HistTask.HistData.HandlePacket: a payload has to fit the buffer, as the program asserts in debug builds; `HistTask.CopyFitsIff` says when it does, and what a longer copy overwrites is not modelled.
- HistCollate.PublishedIffComplete: headers that declare more than 65167 bins, where one frame too many would wrap the count around, are left out; the buffer holds 16384.
- Lifecycle.TaskLife.Activate: the copying of the ring heads is in `RingProtocol`, and what tasks do as they wake up is in `Jitter` and `HistTask`.
- Lifecycle.TaskLife.HandleMessage: a subscription ends only if it was announced, as the program asserts; the number of subscriptions is unbounded.
- Lifecycle.TaskLife.Run: requests that wait in the socket during a job are events only once they are read.
- Errors that end the server (failed sends, failed wake-ups) end the model's run as well.
- ZeroMQ, the event loop, threads, signals, privileges, daemonizing and logging: only the events they deliver are modelled.
- The builds with SINGLE_FILE, SAVE_HEADERS or NO_BAD_FRAMES, without TES_MCASIZE_BUG, and with debug statistics.
- The average-trace and info tasks, which are simpler relatives of the collation and the counting here.
- The command-line client, the printers and the HDF5 library.
