/** What can be read from the files a job leaves behind. */
module CaptureResult {
  import opened Basics
  import opened Bytes
  import opened Frames
  import opened CaptureFiles
  import opened CaptureIndex
  import Streams = CaptureStreams
  import opened DataFiles
  import opened Replay
  import opened Capture
  import opened AioBuffer

  /** A file of a finished job: what is known to be written of it is right, and all of it
      where the system does not fail. */
  lemma ClosedFile(job: Job, r: seq<Arrival>, before: PrevEvent, d: Dset)
    requires |job.aio| == NUM_DSETS && job.FilesOf(r, before)
    ensures job.aio[d].kept <= |job.aio[d].file|
    ensures job.aio[d].file[..job.aio[d].kept] <= Contents(r, before, d)
    ensures !job.aio[d].orphaned ==> job.aio[d].kept == |job.aio[d].file|
    ensures job.Reliable() ==>
              job.aio[d].file == Contents(r, before, d) && job.aio[d].kept == |Contents(r, before, d)|
  {
    hide Contents;
    assert Job.ClosedWith(job.aio[d], Contents(r, before, d));
  }

  /** What is known to be written of a closed file; without a write left running that is
      the whole file. */
  ghost function Known(job: Job, d: Dset): seq<byte>
    requires |job.aio| == NUM_DSETS && job.aio[d].kept <= |job.aio[d].file|
    reads job.aio[d]
  {
    job.aio[d].file[..job.aio[d].kept]
  }

  /** Whatever writes failed, each frame record known to be in the index tells the truth:
      it names the frame's data file, and the range it gives is the frame's payload if it
      is known to be in that file. */
  lemma FrameFound(job: Job, r: seq<Arrival>, before: PrevEvent, i: nat)
    requires |job.aio| == NUM_DSETS && job.FilesOf(r, before) && Addressable(r)
    requires FIDX_LEN * (i + 1) <= job.aio[FIDX].kept
    ensures i < |r| && job.aio[FIDX].kept <= |job.aio[FIDX].file|
    ensures var x := DecodeRecord(RecordBytes(job.aio[FIDX].file, i));
            var d := FileOfType(TypeOf(x));
            && Describes(x, r, i)
            && (x.start + x.length <= job.aio[d].kept <= |job.aio[d].file| ==>
                  job.aio[d].file[x.start..x.start + x.length] == Payload(r[i]))
  {
    hide Contents, FrameType, Describes, Job.FilesOf, RecordBytes, DecodeRecord, Routed, Payload, FrameIndexFile,
      FileOfType, TypeOf;
    ClosedFile(job, r, before, FIDX);
    ContentsAre(r, before);
    assert i < |r|;
    var d := DataFile(r[i]);
    ClosedFile(job, r, before, d);
    IsDataFile(r[i]);
    FrameIndexIsExact(r, before, i, Known(job, FIDX), Known(job, d));
    SameRecord(Known(job, FIDX), job.aio[FIDX].file, i);
    var x := DecodeRecord(RecordBytes(job.aio[FIDX].file, i));
    DescribedType(x, r, i);
    if x.start + x.length <= job.aio[d].kept {
      SameRange(Known(job, d), job.aio[d].file, x.start, x.start + x.length);
    }
  }

  lemma IsDataFile(a: Arrival)
    ensures DataFile(a) > RIDX
  {
  }

  lemma SameRecord(part: seq<byte>, whole: seq<byte>, i: nat)
    requires part <= whole && FIDX_LEN * (i + 1) <= |part|
    ensures RecordBytes(part, i) == RecordBytes(whole, i)
  {
  }

  /** In the closed files of a job: what is known to be written of the bad-payload file is
      a prefix of the payloads of exactly the bad frames, and so on for the other kinds;
      all of them are there where the system does not fail. */
  lemma PayloadsFound(job: Job, r: seq<Arrival>, before: PrevEvent, k: Kind)
    requires |job.aio| == NUM_DSETS && job.FilesOf(r, before)
    ensures var dat := job.aio[NumberOf(k)];
            && dat.kept <= |dat.file| && dat.file[..dat.kept] <= PayloadsOf(r, k)
            && (!dat.orphaned ==> dat.kept == |dat.file|)
            && (job.Reliable() ==> dat.file == PayloadsOf(r, k))
  {
    hide Contents, PayloadsOf, Job.FilesOf;
    ClosedFile(job, r, before, NumberOf(k));
    FileHolds(r, before, k);
  }

  lemma ContentsAre(r: seq<Arrival>, before: PrevEvent)
    ensures Contents(r, before, FIDX) == FrameIndexFile(r, before)
    ensures Contents(r, before, MIDX) == EncodeSpans(ScanOf(r).hists)
    ensures Contents(r, before, RIDX) == EncodeSpans(ScanOf(r).traces)
    ensures forall d: Dset :: d > RIDX ==> Contents(r, before, d) == Routed(r, d)
  {
  }

  lemma DescribedType(x: FrameIndex, r: seq<Arrival>, i: nat)
    requires i < |r| && Describes(x, r, i)
    ensures FileOfType(TypeOf(x)) == DataFile(r[i])
  {
    hide TypeOf, FrameType, FileOfType;
  }

  /** What a stream record says, if it is known to be in the index: there is a complete
      stream of that kind, and the range is its header's payload and then those of its
      continuations if it is known to be in the data file. */
  ghost predicate Tells(job: Job, r: seq<Arrival>, trace: bool, start: nat, length: nat, s: Span)
    requires |job.aio| == NUM_DSETS
    reads job.aio[Streams.StreamFile(trace)]
  {
    var dat := job.aio[Streams.StreamFile(trace)];
    && Streams.CompleteStream(r, s.first, s.end)
    && IsTraceLong(r[s.first].pkt) == trace
    && length == Declared(r[s.first])
    && (start + length <= dat.kept <= |dat.file| ==>
          dat.file[start..start + length] == Routed(r[s.first..s.end], DataFile(r[s.first])))
  }

  /** Whatever writes failed, each trace or MCA record known to be in its index gives the
      range of a complete stream. */
  lemma StreamFound(job: Job, r: seq<Arrival>, before: PrevEvent, trace: bool, k: nat)
    requires |job.aio| == NUM_DSETS && job.FilesOf(r, before) && Addressable(r)
    requires SIDX_LEN * (k + 1) <= job.aio[if trace then RIDX else MIDX].kept
    ensures job.aio[if trace then RIDX else MIDX].kept <= |job.aio[if trace then RIDX else MIDX].file|
    ensures var x := Streams.SpanAt(job.aio[if trace then RIDX else MIDX].file, k);
            && k < |Streams.Spans(r, trace)|
            && Tells(job, r, trace, Decode(x[..8]), Decode(x[8..]), Streams.Spans(r, trace)[k])
  {
    hide Contents, Tells, ScanOf, EncodeSpans, Decode, Job.FilesOf, FrameType, Streams.SpanAt;
    var idx: Dset := if trace then RIDX else MIDX;
    var spans := Streams.Spans(r, trace);
    ClosedFile(job, r, before, idx);
    ClosedFile(job, r, before, Streams.StreamFile(trace));
    ContentsAre(r, before);
    assert Known(job, idx) <= EncodeSpans(spans);
    assert k < |spans|;
    SameSpan(Known(job, idx), EncodeSpans(spans), k);
    SameSpan(Known(job, idx), job.aio[idx].file, k);
    SpanTells(job, r, trace, k);
  }

  lemma SameSpan(part: seq<byte>, whole: seq<byte>, k: nat)
    requires part <= whole && SIDX_LEN * (k + 1) <= |part|
    ensures Streams.SpanAt(part, k) == Streams.SpanAt(whole, k)
  {
  }

  lemma SpanTells(job: Job, r: seq<Arrival>, trace: bool, k: nat)
    requires |job.aio| == NUM_DSETS && k < |Streams.Spans(r, trace)| && Addressable(r)
    requires job.aio[Streams.StreamFile(trace)].kept <= |job.aio[Streams.StreamFile(trace)].file|
    requires Known(job, Streams.StreamFile(trace)) <= Routed(r, Streams.StreamFile(trace))
    ensures var x := Streams.SpanAt(EncodeSpans(Streams.Spans(r, trace)), k);
            Tells(job, r, trace, Decode(x[..8]), Decode(x[8..]), Streams.Spans(r, trace)[k])
  {
    hide ScanOf, Decode, FrameType, Routed, Declared, EncodeSpans, Streams.CompleteStream, Streams.SpanAt;
    Streams.StreamIndexIsSound(r, trace, k);
    var x := Streams.SpanAt(EncodeSpans(Streams.Spans(r, trace)), k);
    var start, length := Decode(x[..8]), Decode(x[8..]);
    var dat := job.aio[Streams.StreamFile(trace)];
    if start + length <= dat.kept {
      SameRange(Known(job, Streams.StreamFile(trace)), Routed(r, Streams.StreamFile(trace)), start, start + length);
      SameRange(Known(job, Streams.StreamFile(trace)), dat.file, start, start + length);
    }
  }

  lemma SameRange(part: seq<byte>, whole: seq<byte>, lo: nat, hi: nat)
    requires part <= whole && lo <= hi <= |part|
    ensures part[lo..hi] == whole[lo..hi]
  {
  }

  /** Whatever writes failed, as long as none was left running: replaying the files injects
      the good frames of the recording up to the first that has no record or whose payload
      cannot be found, in order, each as it was captured. If no write failed they are all
      there to be found. */
  lemma JobReplayed(job: Job, r: seq<Arrival>, before: PrevEvent)
    requires |job.aio| == NUM_DSETS && job.FilesOf(r, before) && Addressable(r)
    requires forall d: Dset :: !job.aio[d].orphaned
    ensures var fidx, tdat, mdat, edat :=
              job.aio[FIDX].file, job.aio[TDAT].file, job.aio[MDAT].file, job.aio[EDAT].file;
            var sz := Sizes(|fidx|, |tdat|, |mdat|, |edat|);
            var sent, good := ReplayFrom(fidx, 0, tdat, mdat, edat), GoodFrames(r[..EndOfReplay(r, 0, sz)]);
            && |sent| == |good| && (forall k :: 0 <= k < |good| ==> Restores(sent[k], good[k]))
            && (job.Reliable() ==> sz == FullSizes(r))
  {
    hide Contents, ReplayFrom, Restores, EndOfReplay, GoodFrames, Routed, FrameIndexFile, Job.FilesOf, Addressable;
    ClosedFile(job, r, before, FIDX);
    ClosedFile(job, r, before, TDAT);
    ClosedFile(job, r, before, MDAT);
    ClosedFile(job, r, before, EDAT);
    ContentsAre(r, before);
    CaptureReplayed(r, before, job.aio[FIDX].file, job.aio[TDAT].file, job.aio[MDAT].file, job.aio[EDAT].file);
  }

  lemma NoOrphans(job: Job, r: seq<Arrival>, before: PrevEvent)
    requires |job.aio| == NUM_DSETS && job.FilesOf(r, before) && job.Reliable()
    ensures forall d: Dset :: !job.aio[d].orphaned
  {
    hide Contents;
  }

  lemma {:induction false} RecordedGrows(arrivals: seq<Arrival>, h: nat)
    requires h <= |arrivals|
    ensures Recorded(arrivals[..h]) <= Recorded(arrivals)
  {
    if h < |arrivals| {
      RecordedGrows(Init(arrivals), h);
      assert Init(arrivals)[..h] == arrivals[..h];
    } else {
      assert arrivals[..h] == arrivals;
    }
  }

  lemma AddressablePrefix(r: seq<Arrival>, r': seq<Arrival>)
    requires r <= r' && Addressable(r')
    ensures Addressable(r)
  {
    forall d: Dset
      ensures |Routed(r, d)| < U64
    {
      assert r' == r + r'[|r|..];
      RoutedConcat(r, r'[|r|..], d);
    }
  }

  /** From the network to the files and back: a job over a system that never fails a
      write is run, and its files are replayed. What is injected are the good frames
      from the first tick on, each as it arrived, up to the first one the replay
      cannot reach. */
  method CaptureAndReplay(ticks: nat, events: nat, refusals: nat, arrivals: seq<Arrival>)
    returns (handled: nat, sent: seq<Injected>)
    requires (ticks > 0 || events > 0) && Addressable(Recorded(arrivals))
    ensures handled <= |arrivals|
    ensures handled < |arrivals| ==>
              EndsWith(Recorded(arrivals[..handled]), if ticks == 0 then 1 else ticks, events)
    ensures var r := Recorded(arrivals[..handled]);
            var good := GoodFrames(r[..EndOfReplay(r, 0, FullSizes(r))]);
            |sent| == |good| && forall k :: 0 <= k < |good| ==> Restores(sent[k], good[k])
  {
    hide Contents, ReplayFrom, Restores, EndsWith, GoodFrames, EndOfReplay, StatsOf, Job.FilesOf, Recorded, Addressable,
      AioBuf.Valid, AioBuf.Consistent, AioBuf.Closed;
    var job := new Job(true, false, refusals);
    var started := job.Start(ticks, events);
    ghost var before := job.before;
    var ended, reply;
    ghost var flushed;
    handled, ended, reply, flushed := job.Run(arrivals);
    RecordedGrows(arrivals, handled);
    AddressablePrefix(Recorded(arrivals[..handled]), Recorded(arrivals));
    NoOrphans(job, Recorded(arrivals[..handled]), before);
    JobReplayed(job, Recorded(arrivals[..handled]), before);
    sent := InjectFromFidx(job.aio[FIDX].file, job.aio[TDAT].file, job.aio[MDAT].file, job.aio[EDAT].file);
  }

  // ---------- An ok reply without a capture ----------

  /** A client asks for one tick, of a system that refuses every write. Two ticks arrive,
      or one if that was enough to notice. The reply is ok, and all files are empty. */
  method OkDespiteFailure() returns (reply: Reply, files: seq<seq<byte>>)
    ensures reply.status == Ok && reply.st.frames > 0
    ensures |files| == NUM_DSETS && forall d: Dset :: files[d] == []
  {
    hide Contents, EndsWith, StatsOf, AioBuf.Valid, AioBuf.Consistent, AioBuf.Closed, Job.FlushedAs, Job.FilesOf,
      Job.ClosedWith, Job.Written, Job.Counted;
    TicksCounted();
    OneTickStats();
    var job := new Job(false, true, 0);
    var started := job.Start(1, 0);
    ghost var flushed;
    var rc, answer;
    rc, answer, flushed := job.HandlePacket(OneTick());
    if rc.Continue? {
      assert job.rec == [OneTick()];
      rc, answer, flushed := job.HandlePacket(OneTick());
      assert Extend([OneTick()], OneTick()) == [OneTick(), OneTick()];
      NothingLeft(job, [OneTick(), OneTick()], job.before);
    } else {
      assert Extend([], OneTick()) == [OneTick()];
      NothingLeft(job, [OneTick()], job.before);
    }
    reply := answer.value;
    files := [];
    for d := 0 to NUM_DSETS
      invariant |files| == d && forall k :: 0 <= k < d ==> files[k] == []
    {
      files := files + [job.aio[d].file];
    }
  }

  lemma NothingLeft(job: Job, r: seq<Arrival>, before: PrevEvent)
    requires |job.aio| == NUM_DSETS && job.FilesOf(r, before) && job.Broken()
    ensures forall d: Dset :: job.aio[d].file == []
  {
    hide Contents;
  }

  lemma OneTickStats()
    ensures var st := StatsOf([OneTick()]); st.ticks == 1 && st.frames == 1
    ensures var st := StatsOf([OneTick(), OneTick()]); st.ticks == 2 && st.frames == 2
  {
    TicksCounted();
    hide TickCount, ScanOf, ShortEvents, FramesLost;
  }
}
