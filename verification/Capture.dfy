/** The capture task: the packet handler that routes payloads to the data files and
    writes the index files through the asynchronous buffers. */
module Capture {
  import opened Basics
  import opened Bytes
  import opened Frames
  import opened CaptureFiles
  import opened AioBuffer

  datatype HandlerRc = Continue | Sleep

  datatype Status = Ok | WriteError

  datatype Reply = Reply(status: Status, st: Stats)

  const NO_STATS := Stats(0, 0, 0, 0, 0, 0)

  /** The recording holds what the client asked for: one tick more than `minTicks`,
      the one it started with. */
  predicate Complete(st: Stats, minTicks: nat, minEvents: nat)
  {
    st.ticks > minTicks && st.events >= minEvents
  }

  /** The job is to end with the last frame of `rec`. */
  predicate EndsWith(rec: seq<Arrival>, minTicks: nat, minEvents: nat)
  {
    rec != [] && IsGoodTick(Last(rec)) && Complete(StatsOf(rec), minTicks, minEvents)
  }

  function ReplyStatus(st: Stats, minTicks: nat, minEvents: nat): Status
  {
    if minTicks > st.ticks || minEvents > st.events then WriteError else Ok
  }

  /** The handler ignores everything before the first tick, and records that tick
      and whatever follows. */
  function Extend(rec: seq<Arrival>, a: Arrival): seq<Arrival>
  {
    if rec != [] || IsTick(a.pkt) then rec + [a] else []
  }

  function Recorded(arrivals: seq<Arrival>): seq<Arrival>
  {
    if arrivals == [] then [] else Extend(Recorded(Init(arrivals)), Last(arrivals))
  }

  /** What is recorded is everything from the first tick on. */
  lemma {:induction false} RecordedIsSuffix(arrivals: seq<Arrival>)
    ensures var n := |arrivals| - |Recorded(arrivals)|;
            && 0 <= n && Recorded(arrivals) == arrivals[n..]
            && (forall k :: 0 <= k < n ==> !IsTick(arrivals[k].pkt))
            && (n < |arrivals| ==> IsTick(arrivals[n].pkt))
  {
    hide IsTick;
    if arrivals != [] {
      var init, a := Init(arrivals), Last(arrivals);
      RecordedIsSuffix(init);
      var r := Recorded(init);
      hide Recorded;
      var n := |init| - |r|;
      assert Recorded(arrivals) == Extend(r, a);
      assert arrivals == init + [a];
      if r == [] {
        assert arrivals[|init|..] == [a] && arrivals[|arrivals|..] == [];
      } else {
        assert arrivals[n..] == init[n..] + [a];
      }
    }
  }

  /** The reply to a job with recording `r` depends on what was recorded alone, not on
      whether it was written: it is ok for every recording that could end the job, and
      for an unfinished one exactly when only the tick that would have ended it is
      missing. */
  lemma IncompleteJobReportedOk(r: seq<Arrival>, minTicks: nat, minEvents: nat)
    ensures EndsWith(r, minTicks, minEvents) ==> ReplyStatus(StatsOf(r), minTicks, minEvents) == Ok
    ensures !Complete(StatsOf(r), minTicks, minEvents) ==>
              (ReplyStatus(StatsOf(r), minTicks, minEvents) == Ok <==>
                 TickCount(r) == minTicks && |ScanOf(r).traces| + ShortEvents(r) >= minEvents)
  {
  }

  /** A good tick. */
  function OneTick(): (a: Arrival)
    ensures IsGoodTick(a) && IsTick(a.pkt) && !a.err
  {
    var f := Frame(ETHERTYPE_EVENT, 48, 0, 0, 3, true, 0, 0, seq(MTU - HDR_LEN, i => 0));
    assert IsValid(f) == {};
    Arrival(f, 48, 0, false, 0)
  }

  lemma TicksCounted()
    ensures TickCount([OneTick()]) == 1 && TickCount([OneTick(), OneTick()]) == 2
    ensures EndsWith([OneTick(), OneTick()], 1, 0) && !EndsWith([OneTick()], 1, 0)
  {
    hide ScanOf, ShortEvents, FramesLost, IsGoodTick;
    assert Init([OneTick()]) == [] && Init([OneTick(), OneTick()]) == [OneTick()];
  }

  class Job {
    const aio: seq<AioBuf>  // one for each dataset
    ghost const owner: map<array<byte>, nat>  // whose buffer zone it is
    var st: Stats
    var cur: CurStream
    var tick: TickScan
    var prev: PrevEvent
    var minTicks: nat
    var minEvents: nat
    var recording: bool
    // the frames recorded so far, and the last event of an earlier job
    ghost var rec: seq<Arrival>
    ghost var before: PrevEvent

    // ---------- Invariants ----------

    ghost function Zones(): set<object>
    {
      set b | b in aio :: b.base
    }

    /** There is one buffer for each dataset, with a zone of its own. */
    ghost predicate Distinct()
    {
      && |aio| == NUM_DSETS
      && forall d :: 0 <= d < |aio| ==> aio[d].base in owner && owner[aio[d].base] == d
    }

    ghost predicate Buffers()
      reads aio, Zones()
    {
      Distinct() && forall d :: 0 <= d < |aio| ==> aio[d].Consistent()
    }

    /** What was appended to each buffer is what the recorded frames call for. */
    ghost predicate Written()
      requires |aio| == NUM_DSETS
      reads this, aio
    {
      WrittenFor(rec)
    }

    ghost predicate WrittenFor(r: seq<Arrival>)
      requires |aio| == NUM_DSETS
      reads this, aio
    {
      forall d :: 0 <= d < |aio| ==> aio[d].appended == Contents(r, before, d)
    }

    /** The counters and the bookkeeping are those of the recorded frames. */
    ghost predicate Counted()
      reads this
    {
      CountedFor(rec)
    }

    ghost predicate CountedFor(r: seq<Arrival>)
      reads this
    {
      && st == StatsOf(r)
      && cur == ScanOf(r).cur
      && tick == TickScanOf(r)
      && prev == PrevEventOf(r, before)
    }

    ghost predicate Valid()
      reads this, aio, Zones()
    {
      && Ready()
      && (recording <==> rec != [])
    }

    ghost predicate Ready()
      reads this, aio, Zones()
    {
      && Distinct() && Written() && Counted()
      && (forall d :: 0 <= d < |aio| ==> aio[d].Valid())
    }

    ghost predicate Idle()
      reads this, aio
    {
      && Distinct()
      && (forall d :: 0 <= d < |aio| ==> aio[d].Closed())
      && st == NO_STATS && cur == NO_STREAM && tick == TickScan(0, 0, 0)
      && !recording
    }

    ghost predicate Reliable()
    {
      forall d :: 0 <= d < |aio| ==> aio[d].reliable
    }

    ghost predicate Broken()
    {
      forall d :: 0 <= d < |aio| ==> aio[d].broken
    }

    /** One buffer for each dataset, over a system that never fails a write if
        `reliable`, refuses every write if `broken`, and says EAGAIN `refusals` times
        for each file. */
    constructor (reliable: bool, broken: bool, refusals: nat)
      requires !(reliable && broken)
      ensures Idle() && prev == PrevEvent(0, 0)
      ensures fresh(aio) && fresh(Zones())
      ensures (Reliable() <==> reliable) && (Broken() <==> broken)
    {
      var bufs: seq<AioBuf> := [];
      ghost var owners: map<array<byte>, nat> := map[];
      while |bufs| < NUM_DSETS
        invariant |bufs| <= NUM_DSETS
        invariant forall d :: 0 <= d < |bufs| ==>
                    bufs[d].Closed() && bufs[d].reliable == reliable && bufs[d].broken == broken
        invariant forall d :: 0 <= d < |bufs| ==> bufs[d].base in owners && owners[bufs[d].base] == d
        invariant forall d :: 0 <= d < |bufs| ==> fresh(bufs[d]) && fresh(bufs[d].base)
      {
        var b := new AioBuf(reliable, broken, refusals);
        owners := owners[b.base := |bufs|];
        bufs := bufs + [b];
      }
      aio, owner := bufs, owners;
      st, cur, tick, prev := NO_STATS, NO_STREAM, TickScan(0, 0, 0), PrevEvent(0, 0);
      minTicks, minEvents, recording := 0, 0, false;
      rec, before := [], PrevEvent(0, 0);
      new;
      assert aio[0].reliable == reliable && aio[0].broken == broken;
    }

    // ---------- One frame ----------

    /** Chooses the frame's type; a tick ends an interval of the tick index, an
        event frame is counted in it. */
    method UpdateTick(a: Arrival) returns (changed: bool, failed: bool)
      requires Distinct() && aio[TIDX].Valid()
      requires st.frames > 0
      modifies this`tick, this`prev, aio[TIDX], aio[TIDX].base
      ensures tick == TickFrame(old(tick), a, st.frames - 1)
      ensures prev == if IsEventFrame(a) then PrevEvent(FrameType(a), a.pkt.esize % 0x100) else old(prev)
      ensures changed <==>
                IsEventFrame(a) && st.frames > 1 && old(prev) != PrevEvent(FrameType(a), a.pkt.esize)
      ensures aio[TIDX].Consistent() && (!failed ==> aio[TIDX].Valid())
      ensures aio[TIDX].appended == old(aio[TIDX].appended) +
                (if IsGoodTick(a) && st.ticks > 0 then EncodeTick(old(tick)) else [])
      ensures failed ==> !aio[TIDX].reliable
    {
      hide AioBuf.Consistent, AioBuf.Room;
      changed, failed := false, false;
      if a.err || IsMca(a.pkt) {
      } else if IsTick(a.pkt) {
        if st.ticks > 0 {
          var rc := aio[TIDX].TryQueue(EncodeTick(tick));
          failed := rc.Failed();
        }
        tick := tick.(nframes := 0);
      } else {
        var pt := LinearEtype(a.pkt.pkt, a.pkt.tr);
        changed := st.frames > 1 && (prev.etype != pt || prev.esize != a.pkt.esize);
        prev := PrevEvent(pt, a.pkt.esize % 0x100);
        if tick.nframes == 0 {
          tick := tick.(start := (st.frames - 1) % U32);
        } else {
          tick := tick.(stop := (st.frames - 1) % U32);
        }
        tick := tick.(nframes := (tick.nframes + 1) % U32);
      }
    }

    /** Where the next byte appended to `d` goes in its file. */
    method Offset(d: Dset) returns (start: nat)
      requires Distinct() && aio[d].Consistent()
      ensures start == |aio[d].appended|
    {
      start := aio[d].size + aio[d].waiting + aio[d].enqueued;
    }

    /** Queues the record of a complete stream. */
    method AppendSpan(d: Dset, start: nat, length: nat, ghost spans: seq<Span>, ghost done: Span)
      returns (failed: bool)
      requires Distinct() && aio[d].Valid()
      requires aio[d].appended == EncodeSpans(spans)
      requires done.start == start && done.length == length
      modifies aio[d], aio[d].base
      ensures aio[d].appended == EncodeSpans(spans + [done])
      ensures aio[d].Consistent() && (!failed ==> aio[d].Valid())
      ensures failed ==> !aio[d].reliable
    {
      hide AioBuf.Consistent, AioBuf.Room;
      var rc := aio[d].TryQueue(Encode(start, 8) + Encode(length, 8));
      failed := rc.Failed();
      assert Init(spans + [done]) == spans;
    }

    /** Counts the complete stream `done` and queues its record. */
    method FinishStream(isTrace: bool, start: nat, length: nat, ghost s: Scan, ghost s': Scan, ghost done: Span)
      returns (failed: bool)
      requires Distinct() && IndexFiles(s)
      requires done.start == start && done.length == length
      requires s'.traces == (if isTrace then s.traces + [done] else s.traces)
      requires s'.hists == (if isTrace then s.hists else s.hists + [done])
      modifies this`st, aio[RIDX], aio[RIDX].base, aio[MIDX], aio[MIDX].base
      ensures IndexBytes(s')
      ensures st == CountStreams(old(st), s, s')
      ensures !failed ==> IndexFiles(s')
      ensures failed ==> !aio[RIDX].reliable || !aio[MIDX].reliable
    {
      hide AioBuf.Consistent, AioBuf.Room, EncodeSpans;
      var r, m := aio[RIDX], aio[MIDX];
      assert r != m && r.base != m.base;
      if isTrace {
        st := st.(events := st.events + 1, traces := st.traces + 1);
        failed := AppendSpan(RIDX, start, length, s.traces, done);
        assert m.Valid() && m.appended == EncodeSpans(s'.hists);
      } else {
        st := st.(hists := st.hists + 1);
        failed := AppendSpan(MIDX, start, length, s.hists, done);
        assert r.Valid() && r.appended == EncodeSpans(s'.traces);
      }
    }

    /** Adds a frame to the ongoing stream; a complete stream gets an index record. */
    method ReceivePayload(a: Arrival, ghost s: Scan, ghost i: nat) returns (failed: bool)
      requires Distinct() && IsStreamFrame(a) && cur.isEvent == IsTraceLong(a.pkt)
      requires IndexFiles(s) && s.cur == cur
      modifies this`cur, this`st
      modifies aio[RIDX], aio[RIDX].base, aio[MIDX], aio[MIDX].base
      ensures cur == Receive(s, a, i).cur
      ensures IndexBytes(Receive(s, a, i))
      ensures st == CountStreams(old(st), s, Receive(s, a, i))
      ensures !failed ==> IndexFiles(Receive(s, a, i))
      ensures failed ==> !aio[RIDX].reliable || !aio[MIDX].reliable
    {
      hide AioBuf.Consistent, AioBuf.Room, EncodeSpans;
      failed := false;
      cur := cur.(curSize := cur.curSize + |Payload(a)|);
      if cur.curSize > cur.size {
        cur := cur.(size := 0, curSize := 0, discard := true);
      } else if cur.curSize == cur.size {
        ghost var done := Span(s.first, i + 1, s.cur.start, s.cur.size);
        failed := FinishStream(IsTraceLong(a.pkt), cur.start, cur.size, s, Receive(s, a, i), done);
        cur := cur.(size := 0, curSize := 0);
      }
    }

    /** The bytes of the two stream indices are the records of `s`. */
    ghost predicate IndexBytes(s: Scan)
      requires Distinct()
      reads aio[RIDX], aio[RIDX].base, aio[MIDX], aio[MIDX].base
    {
      && aio[RIDX].Consistent() && aio[RIDX].appended == EncodeSpans(s.traces)
      && aio[MIDX].Consistent() && aio[MIDX].appended == EncodeSpans(s.hists)
    }

    ghost predicate IndexFiles(s: Scan)
      requires Distinct()
      reads aio[RIDX], aio[RIDX].base, aio[MIDX], aio[MIDX].base
    {
      IndexBytes(s) && aio[RIDX].Valid() && aio[MIDX].Valid()
    }

    /** No finished stream is forgotten. */
    static ghost predicate Grows(s: Scan, s': Scan)
    {
      |s.traces| <= |s'.traces| && |s.hists| <= |s'.hists|
    }

    /** Counts the streams of `s'` that are not in `s`; a trace is also an event. */
    static ghost function CountStreams(st: Stats, s: Scan, s': Scan): Stats
      requires Grows(s, s')
    {
      st.(events := st.events + |s'.traces| - |s.traces|,
          traces := st.traces + |s'.traces| - |s.traces|,
          hists := st.hists + |s'.hists| - |s.hists|)
    }

    /** Counts what a tick or a frame of whole events adds. */
    static ghost function CountEvents(st: Stats, a: Arrival): Stats
    {
      st.(ticks := st.ticks + (if IsGoodTick(a) then 1 else 0), events := st.events + EventsIn(a))
    }

    /** Counts a tick or a frame of whole events; a tick may end the job. */
    method CountFrame(a: Arrival) returns (finishing: bool)
      requires !a.err && !IsStreamFrame(a)
      modifies this`st
      ensures st == CountEvents(old(st), a)
      ensures finishing <==> IsGoodTick(a) && Complete(st, minTicks, minEvents)
    {
      finishing := false;
      if IsTick(a.pkt) {
        st := st.(ticks := st.ticks + 1);
        if st.ticks > minTicks && st.events >= minEvents {
          finishing := true;
        }
      } else {
        GoodFrame(a.pkt);
        st := st.(events := st.events + EventNums(a.pkt));
      }
    }

    /** Starts, continues, interrupts or ignores a multi-frame stream: `s` is the
        bookkeeping so far, `s'` what it becomes with `a` as frame `i`. */
    method TrackStream(a: Arrival, ghost s: Scan, ghost i: nat, ghost s': Scan) returns (hdr: bool, failed: bool)
      requires Distinct() && !a.err && aio[DataFile(a)].Valid()
      requires IndexFiles(s) && s.cur == cur
      requires s' == ScanFrame(s, a, i, |aio[DataFile(a)].appended|)
      modifies this`cur, this`st
      modifies aio[RIDX], aio[RIDX].base, aio[MIDX], aio[MIDX].base
      ensures cur == s'.cur && IndexBytes(s') && (!failed ==> IndexFiles(s'))
      ensures st == CountStreams(old(st), s, s')
      ensures hdr <==> Starts(s.cur, a)
      ensures failed ==> !aio[RIDX].reliable || !aio[MIDX].reliable
    {
      hide AioBuf.Room, AioBuf.Regions, AioBuf.ControlBlock, AioBuf.Stream, EncodeSpans;
      var isTrace, isMca := IsTraceLong(a.pkt), IsMca(a.pkt);
      var continues := Continues(cur, a);
      var starts := Starts(cur, a);
      var interrupts := !continues && cur.size > 0;
      hdr, failed := starts, false;
      if interrupts {
        cur := cur.(discard := true, size := 0, curSize := 0);
      }
      if starts || continues {
        if starts {
          var start := Offset(DataFile(a));
          cur := cur.(size := Declared(a), isEvent := isTrace, discard := false, start := start);
        }
        ghost var s1 := if starts then s.(cur := cur, first := i) else s;
        failed := ReceivePayload(a, s1, i);
      } else if isMca || isTrace {
        if !interrupts && !cur.discard {
          cur := cur.(discard := true);
        }
      }
    }

    /** Follows streams and counts what frame `i` completes, unless it is bad. */
    method UpdateStream(a: Arrival, ghost s: Scan, ghost i: nat, ghost s': Scan)
      returns (hdr: bool, finishing: bool)
      requires Distinct() && aio[DataFile(a)].Valid()
      requires IndexFiles(s) && s.cur == cur
      requires s' == ScanFrame(s, a, i, |aio[DataFile(a)].appended|)
      modifies this`cur, this`st
      modifies aio[RIDX], aio[RIDX].base, aio[MIDX], aio[MIDX].base
      ensures cur == s'.cur && IndexBytes(s') && (!finishing ==> IndexFiles(s'))
      ensures Grows(s, s') && st == CountEvents(CountStreams(old(st), s, s'), a)
      ensures hdr <==> !a.err && Starts(s.cur, a)
      ensures IsGoodTick(a) && Complete(st, minTicks, minEvents) ==> finishing
      ensures finishing && aio[RIDX].reliable && aio[MIDX].reliable ==>
                IsGoodTick(a) && Complete(st, minTicks, minEvents)
    {
      hide AioBuf.Consistent, AioBuf.Room, EncodeSpans;
      if a.err {
        return false, false;
      }
      hdr, finishing := TrackStream(a, s, i, s');
      if !IsStreamFrame(a) {
        var done := CountFrame(a);
        finishing := finishing || done;
      }
    }

    /** Queues the payload and then the frame's index record. */
    method WriteFrame(a: Arrival, record: FrameIndex) returns (failed: bool)
      requires Distinct() && aio[DataFile(a)].Valid() && aio[FIDX].Valid()
      modifies aio[DataFile(a)], aio[DataFile(a)].base, aio[FIDX], aio[FIDX].base
      ensures aio[DataFile(a)].appended == old(aio[DataFile(a)].appended) + Payload(a)
      ensures aio[FIDX].appended == old(aio[FIDX].appended) + EncodeRecord(record)
      ensures aio[DataFile(a)].Consistent() && aio[FIDX].Consistent()
      ensures !failed ==> aio[DataFile(a)].Valid() && aio[FIDX].Valid()
      ensures failed ==> !aio[DataFile(a)].reliable || !aio[FIDX].reliable
      ensures forall d: Dset :: d != FIDX && d != DataFile(a) ==>
                aio[d].appended == old(aio[d].appended)
                && (old(aio[d].Consistent()) ==> aio[d].Consistent())
                && (old(aio[d].Valid()) ==> aio[d].Valid())
    {
      hide AioBuf.Consistent, AioBuf.Room, FrameType, EncodeRecord;
      var dat, fidx := aio[DataFile(a)], aio[FIDX];
      assert dat != fidx && dat.base != fidx.base;
      var rc := dat.TryQueue(Payload(a));
      failed := rc.Failed();
      assert fidx.Valid();
      rc := fidx.TryQueue(EncodeRecord(record));
      failed := failed || rc.Failed();
    }

    static ghost function CountArrival(st: Stats, a: Arrival): Stats
    {
      st.(frames := st.frames + 1, lost := st.lost + a.missed)
    }

    /** What frame `a` changes in the tick, trace and MCA indices, and the counters. */
    method UpdateIndices(a: Arrival, ghost s: Scan, ghost s': Scan)
      returns (changed: bool, hdr: bool, finishing: bool)
      requires Distinct() && aio[TIDX].Valid() && aio[DataFile(a)].Valid()
      requires IndexFiles(s) && s.cur == cur
      requires s' == ScanFrame(s, a, st.frames, |aio[DataFile(a)].appended|)
      modifies this`st, this`cur, this`tick, this`prev
      modifies aio[TIDX], aio[TIDX].base, aio[RIDX], aio[RIDX].base, aio[MIDX], aio[MIDX].base
      ensures cur == s'.cur && IndexBytes(s') && (!finishing ==> IndexFiles(s'))
      ensures Grows(s, s') && st == CountEvents(CountStreams(CountArrival(old(st), a), s, s'), a)
      ensures tick == TickFrame(old(tick), a, old(st.frames))
      ensures prev == if IsEventFrame(a) then PrevEvent(FrameType(a), a.pkt.esize % 0x100) else old(prev)
      ensures aio[TIDX].Consistent() && (!finishing ==> aio[TIDX].Valid())
      ensures aio[TIDX].appended == old(aio[TIDX].appended) +
                (if IsGoodTick(a) && old(st.ticks) > 0 then EncodeTick(old(tick)) else [])
      ensures changed <==>
                IsEventFrame(a) && old(st.frames) > 0 && old(prev) != PrevEvent(FrameType(a), a.pkt.esize)
      ensures hdr <==> !a.err && Starts(s.cur, a)
      ensures IsGoodTick(a) && Complete(st, minTicks, minEvents) ==> finishing
      ensures finishing && Reliable() ==> IsGoodTick(a) && Complete(st, minTicks, minEvents)
    {
      hide AioBuf.Consistent, AioBuf.Room, ScanFrame, TickFrame, EncodeSpans, EncodeTick, FrameType, EventsIn;
      var t, r, m, dat := aio[TIDX], aio[RIDX], aio[MIDX], aio[DataFile(a)];
      assert t != r && t != m && t != dat && t.base != r.base && t.base != m.base && t.base != dat.base;
      st := st.(frames := st.frames + 1, lost := st.lost + a.missed);
      var failed;
      changed, failed := UpdateTick(a);
      assert IndexFiles(s) && dat.Valid();
      hdr, finishing := UpdateStream(a, s, st.frames - 1, s');
      finishing := finishing || failed;
    }

    /** The counters and the bookkeeping after one more frame. */
    lemma CountedAfter(a: Arrival)
      requires Counted()
      ensures var s' := NextScan(rec, a);
              && Grows(ScanOf(rec), s')
              && s' == ScanFrame(ScanOf(rec), a, st.frames, |Routed(rec, DataFile(a))|)
              && StatsOf(rec + [a]) == CountEvents(CountStreams(CountArrival(st, a), ScanOf(rec), s'), a)
              && ScanOf(rec + [a]) == s'
              && TickScanOf(rec + [a]) == TickFrame(tick, a, st.frames)
              && PrevEventOf(rec + [a], before) ==
                   (if IsEventFrame(a) then PrevEvent(FrameType(a), a.pkt.esize % 0x100) else prev)
    {
      hide ScanFrame, TickFrame, EventsIn, IsEventFrame, IsGoodTick, Routed;
      OneMoreStats(rec, a);
      OneMoreScan(rec, a);
      OneMoreTick(rec, a, before);
      FrameKeepsSpans(ScanOf(rec), a, |rec|, |Routed(rec, DataFile(a))|);
    }

    /** What has been appended to the indices and to `a`'s data file. */
    lemma WrittenBefore(a: Arrival)
      requires Ready()
      ensures |aio| == NUM_DSETS && Distinct() && Counted()
      ensures aio[TIDX].Valid() && aio[DataFile(a)].Valid()
      ensures aio[TIDX].appended == Contents(rec, before, TIDX)
      ensures IndexFiles(ScanOf(rec)) && ScanOf(rec).cur == cur
      ensures aio[DataFile(a)].appended == Routed(rec, DataFile(a))
    {
      hide FrameType, EncodeSpans, ScanOf, Routed, TickFile, FrameIndexFile, AioBuf.Consistent, AioBuf.Room;
    }

    /** The contents of all files after one more frame. */
    lemma ContentsAfter(a: Arrival)
      ensures forall d: Dset :: Contents(rec + [a], before, d) ==
                if d == FIDX then Contents(rec, before, d) + EncodeRecord(RecordOf(rec, a, before))
                else if d == MIDX then EncodeSpans(NextScan(rec, a).hists)
                else if d == RIDX then EncodeSpans(NextScan(rec, a).traces)
                else if d == TIDX then Contents(rec, before, d) + TickPart(rec, a)
                else Contents(rec, before, d) + Part(a, d)
    {
      forall d: Dset {
        OneMoreContents(rec, a, before, d);
      }
    }

    /** The tick, trace and MCA indices are those of the recording `r`. */
    ghost predicate IndicesOf(r: seq<Arrival>)
      requires Distinct()
      reads this`before, aio, Zones()
    {
      forall d :: MIDX <= d <= RIDX ==>
        aio[d].Consistent() && aio[d].appended == Contents(r, before, d)
    }

    lemma IndicesAfter(a: Arrival, s': Scan)
      requires Distinct() && s' == NextScan(rec, a)
      requires IndexBytes(s') && aio[TIDX].Consistent()
      requires aio[TIDX].appended == Contents(rec, before, TIDX) + TickPart(rec, a)
      ensures IndicesOf(rec + [a])
      ensures IndexFiles(s') ==> aio[RIDX].Valid() && aio[MIDX].Valid()
    {
      hide AioBuf.Consistent, EncodeSpans, TickPart, Contents, NextScan;
      ContentsAfter(a);
    }

    static function MakeRecord(a: Arrival, start: nat, changed: bool, hdr: bool): FrameIndex
    {
      FrameIndex(
        start, |Payload(a)|, a.pkt.esize, if changed then 1 else 0,
        TypeByte(FrameType(a), a.stale % 4, hdr || a.stale >= 4, a.missed > 0))
    }

    lemma RecordIs(a: Arrival)
      requires Counted()
      ensures RecordOf(rec, a, before) == MakeRecord(
                a, |Routed(rec, DataFile(a))|,
                IsEventFrame(a) && st.frames > 0 && prev != PrevEvent(FrameType(a), a.pkt.esize),
                !a.err && Starts(cur, a))
    {
    }

    lemma TickPartIs(a: Arrival)
      requires Counted()
      ensures TickPart(rec, a) == if IsGoodTick(a) && st.ticks > 0 then EncodeTick(tick) else []
    {
    }

    lemma EndsIs(a: Arrival)
      ensures EndsWith(rec + [a], minTicks, minEvents) <==>
                IsGoodTick(a) && Complete(StatsOf(rec + [a]), minTicks, minEvents)
    {
      hide StatsOf;
    }

    /** The frame index and the data files are ready for another frame. */
    ghost predicate DataReady()
      requires Distinct()
      reads this, aio, Zones()
    {
      forall d: Dset :: d == FIDX || d > RIDX ==>
        aio[d].Valid() && aio[d].appended == Contents(rec, before, d)
    }

    /** Updates the index files and makes the frame's index record. */
    method PrepareRecord(a: Arrival) returns (record: FrameIndex, done: bool)
      requires Ready()
      modifies this`st, this`cur, this`tick, this`prev
      modifies aio[TIDX], aio[TIDX].base, aio[RIDX], aio[RIDX].base, aio[MIDX], aio[MIDX].base
      ensures record == RecordOf(rec, a, before)
      ensures CountedFor(rec + [a]) && IndicesOf(rec + [a])
      ensures !done ==> aio[TIDX].Valid() && aio[RIDX].Valid() && aio[MIDX].Valid()
      ensures EndsWith(rec + [a], minTicks, minEvents) ==> done
      ensures done && Reliable() ==> EndsWith(rec + [a], minTicks, minEvents)
    {
      hide StatsOf, IsGoodTick, IsEventFrame, Routed, IndicesOf, AioBuf.Consistent, AioBuf.Room,
        FrameType, RecordOf, MakeRecord, Starts, Contents, EncodeSpans, EncodeTick, ScanFrame, TickFrame,
        EventsIn, Written, TickScanOf, ScanOf, PrevEventOf, EndsWith, Complete, CountEvents, CountStreams,
        CountArrival, TickPart, NextScan, Ready, IndexFiles, IndexBytes, Counted, Distinct, Grows;
      ghost var s' := NextScan(rec, a);
      WrittenBefore(a);
      CountedAfter(a);
      RecordIs(a);
      TickPartIs(a);
      EndsIs(a);
      var start := Offset(DataFile(a));
      var changed, hdr;
      changed, hdr, done := UpdateIndices(a, ScanOf(rec), s');
      record := MakeRecord(a, start, changed, hdr);
      IndicesAfter(a, s');
    }

    /** The same; the other files are as they were. */
    method PrepareFrame(a: Arrival) returns (record: FrameIndex, done: bool)
      requires Ready()
      modifies this`st, this`cur, this`tick, this`prev
      modifies aio[TIDX], aio[TIDX].base, aio[RIDX], aio[RIDX].base, aio[MIDX], aio[MIDX].base
      ensures record == RecordOf(rec, a, before)
      ensures CountedFor(rec + [a]) && IndicesOf(rec + [a]) && DataReady()
      ensures !done ==> aio[TIDX].Valid() && aio[RIDX].Valid() && aio[MIDX].Valid()
      ensures EndsWith(rec + [a], minTicks, minEvents) ==> done
      ensures done && Reliable() ==> EndsWith(rec + [a], minTicks, minEvents)
    {
      hide AioBuf.Consistent, AioBuf.Room, Contents, RecordOf, EndsWith, CountedFor, Counted, IndicesOf;
      record, done := PrepareRecord(a);
    }

    /** Writes the frame after the other index files were updated for it. */
    method FinishFrame(a: Arrival, record: FrameIndex) returns (failed: bool)
      requires Distinct() && IndicesOf(rec + [a]) && DataReady()
      requires record == RecordOf(rec, a, before)
      modifies aio[DataFile(a)], aio[DataFile(a)].base, aio[FIDX], aio[FIDX].base
      ensures Buffers() && WrittenFor(rec + [a])
      ensures !failed ==> forall d: Dset :: d == FIDX || d > RIDX ==> aio[d].Valid()
      ensures failed ==> !Reliable()
    {
      hide AioBuf.Consistent, AioBuf.Room, FrameType, Contents, RecordOf, EncodeRecord,
        EncodeSpans, NextScan, TickPart;
      ContentsAfter(a);
      failed := WriteFrame(a, record);
    }

    /** Records frame `a`: all files and counters are those of the longer recording. */
    method RecordFrame(a: Arrival) returns (finishing: bool)
      requires Ready()
      modifies this`st, this`cur, this`tick, this`prev, this`rec, aio, Zones()
      ensures rec == old(rec) + [a]
      ensures Buffers() && Written() && Counted()
      ensures !finishing ==> Ready()
      ensures EndsWith(rec, minTicks, minEvents) ==> finishing
      ensures finishing && Reliable() ==> EndsWith(rec, minTicks, minEvents)
    {
      hide AioBuf.Consistent, AioBuf.Room, FrameType, Contents, RecordOf, EndsWith,
        StatsOf, ScanOf, TickScanOf, PrevEventOf, DataReady;
      var record, done := PrepareFrame(a);
      var failed := FinishFrame(a, record);
      finishing := done || failed;
      rec := rec + [a];
    }

    // ---------- The end of a job ----------

    /** Drains all buffers. `flushed` are the return codes, which the program drops: 0
        exactly for the buffers that are drained. */
    method FlushAll() returns (ghost flushed: seq<Rc>)
      requires Buffers()
      modifies aio
      ensures Buffers() && |flushed| == NUM_DSETS
      ensures forall d: Dset :: aio[d].appended == old(aio[d].appended)
      ensures forall d: Dset :: flushed[d].Done? <==> aio[d].enqueued + aio[d].waiting == 0
      ensures forall d: Dset :: aio[d].reliable ==> flushed[d].Done?
    {
      hide AioBuf.Consistent;
      flushed := [];
      for k := 0 to NUM_DSETS
        invariant Buffers() && |flushed| == k
        invariant forall d: Dset :: aio[d].appended == old(aio[d].appended)
        invariant forall d: Dset :: d < k ==> (flushed[d].Done? <==> aio[d].enqueued + aio[d].waiting == 0)
        invariant forall d: Dset :: d < k && aio[d].reliable ==> flushed[d].Done?
      {
        var rc, calls := aio[k].Flush();
        flushed := flushed + [rc];
      }
    }

    /** Truncates and closes all files. */
    method CloseAll()
      requires Buffers()
      modifies aio
      ensures forall d: Dset :: aio[d].Closed()
      ensures forall d: Dset :: ClosedWith(aio[d], old(aio[d].appended))
      ensures forall d: Dset :: aio[d].kept == old(aio[d].size) && aio[d].orphaned == old(aio[d].status.Running?)
      ensures forall d: Dset :: old(aio[d].enqueued + aio[d].waiting == 0) <==>
                                aio[d].kept == |old(aio[d].appended)|
    {
      hide AioBuf.Regions, AioBuf.Stream, AioBuf.ControlBlock, AioBuf.Holds, AioBuf.Closed, MayHold;
      for k := 0 to NUM_DSETS
        invariant forall d: Dset :: d < k ==> aio[d].Closed() && ClosedWith(aio[d], old(aio[d].appended))
        invariant forall d: Dset :: d < k ==>
                    && aio[d].kept == old(aio[d].size) && aio[d].orphaned == old(aio[d].status.Running?)
                    && (old(aio[d].enqueued + aio[d].waiting == 0) <==> aio[d].kept == |old(aio[d].appended)|)
        invariant forall d: Dset :: d >= k ==> unchanged(aio[d]) && aio[d].Consistent()
      {
        ConsistentOpen(aio[k]);
        aio[k].Close();
      }
    }

    method FlushAndClose() returns (ghost flushed: seq<Rc>)
      requires Buffers()
      modifies aio
      ensures |flushed| == NUM_DSETS && forall d: Dset :: aio[d].Closed()
      ensures forall d: Dset :: ClosedWith(aio[d], old(aio[d].appended))
      ensures forall d: Dset :: flushed[d].Done? <==> aio[d].kept == |old(aio[d].appended)|
      ensures forall d: Dset :: aio[d].reliable ==> flushed[d].Done?
    {
      hide AioBuf.Consistent, AioBuf.Closed, ClosedWith;
      flushed := FlushAll();
      CloseAll();
    }

    lemma ConsistentOpen(b: AioBuf)
      requires b.Consistent()
      ensures b.isOpen
    {
    }

    /** The closed file holds what was known to be written of `data`, and if a write was
        left running it may hold more. */
    static ghost predicate ClosedWith(b: AioBuf, data: seq<byte>)
      reads b
    {
      && b.Holds(data)
      && (b.orphaned ==> b.kept < |data|)
      && (b.broken ==> b.kept == 0 && b.file == [])
    }

    /** The closed files hold what `r` calls for as far as it is known to be written;
        that is all of it where the system does not fail. */
    ghost predicate FilesOf(r: seq<Arrival>, before': PrevEvent)
      requires |aio| == NUM_DSETS
      reads aio
    {
      forall d: Dset ::
        && ClosedWith(aio[d], Contents(r, before', d))
        && (aio[d].reliable ==>
              aio[d].file == Contents(r, before', d) && aio[d].kept == |Contents(r, before', d)|)
    }

    /** The return codes of the last flush tell which files are complete. */
    ghost predicate FlushedAs(r: seq<Arrival>, before': PrevEvent, flushed: seq<Rc>)
      requires |aio| == NUM_DSETS
      reads aio
    {
      && |flushed| == NUM_DSETS
      && forall d: Dset :: flushed[d].Done? <==> aio[d].kept == |Contents(r, before', d)|
    }

    ghost predicate FilesComplete(r: seq<Arrival>, before': PrevEvent)
      requires |aio| == NUM_DSETS
      reads aio
    {
      forall d: Dset :: aio[d].file == Contents(r, before', d)
    }

    /** All files are complete if every return code of the last flush was 0, and if no
        write was left running only then. */
    lemma CompleteIff(r: seq<Arrival>, before': PrevEvent, flushed: seq<Rc>)
      requires |aio| == NUM_DSETS && FilesOf(r, before') && FlushedAs(r, before', flushed)
      ensures FilesKnown(r, before') <==> forall d: Dset :: flushed[d].Done?
      ensures FilesKnown(r, before') ==> FilesComplete(r, before')
      ensures (forall d: Dset :: !aio[d].orphaned) ==>
                (FilesComplete(r, before') <==> forall d: Dset :: flushed[d].Done?)
    {
      hide Contents;
      forall d: Dset
        ensures flushed[d].Done? ==> aio[d].file == Contents(r, before', d)
        ensures !aio[d].orphaned ==> (aio[d].file == Contents(r, before', d) <==> flushed[d].Done?)
      {
        assert ClosedWith(aio[d], Contents(r, before', d));
      }
    }

    /** All of every file was known to be written when it was closed. */
    ghost predicate FilesKnown(r: seq<Arrival>, before': PrevEvent)
      requires |aio| == NUM_DSETS
      reads aio
    {
      forall d: Dset :: aio[d].kept == |Contents(r, before', d)|
    }

    /** The documentation promises that an ok reply means a finished capture. It does if
        and only if fewer ticks or events were recorded than asked for (then it is not
        ok), or the last tick was recorded and every return code of the last flush was
        0. */
    lemma OkIsTrueIff(r: seq<Arrival>, before': PrevEvent, flushed: seq<Rc>, ticks: nat, events: nat)
      requires |aio| == NUM_DSETS && FilesOf(r, before') && FlushedAs(r, before', flushed)
      ensures (ReplyStatus(StatsOf(r), ticks, events) == Ok ==>
                 Complete(StatsOf(r), ticks, events) && FilesKnown(r, before'))
         <==> || TickCount(r) < ticks || |ScanOf(r).traces| + ShortEvents(r) < events
              || (TickCount(r) > ticks && forall d: Dset :: flushed[d].Done?)
    {
      hide Contents, TickCount, ScanOf, ShortEvents, FilesOf;
    }

    lemma AllKept(r: seq<Arrival>, before': PrevEvent, flushed: seq<Rc>)
      requires |aio| == NUM_DSETS && FlushedAs(r, before', flushed)
      requires forall d: Dset :: ClosedWith(aio[d], Contents(r, before', d))
      requires forall d: Dset :: aio[d].reliable ==> flushed[d].Done?
      ensures FilesOf(r, before')
    {
      hide Contents;
    }

    /** Flushes and closes all files, replies, and resets the job. */
    method Finish(status: Status) returns (reply: Reply, ghost flushed: seq<Rc>)
      requires Buffers() && Written() && Counted()
      modifies this`st, this`cur, this`tick, this`rec, this`recording, aio
      ensures Idle() && FilesOf(old(rec), before) && FlushedAs(old(rec), before, flushed)
      ensures reply == Reply(status, StatsOf(old(rec)))
    {
      hide Contents, AioBuf.Consistent, ClosedWith, FilesOf, StatsOf, ScanOf, TickScanOf, PrevEventOf;
      flushed := FlushAndClose();
      AllKept(rec, before, flushed);
      reply := Reply(status, st);
      st, cur, tick := NO_STATS, NO_STREAM, TickScan(0, 0, 0);
      recording := false;
      rec := [];
    }

    lemma NothingWritten()
      ensures forall d: Dset :: Contents([], before, d) == []
    {
    }

    /** Accepts a capture request and opens the files. A request for no ticks is not
        one; events alone are asked for with at least one tick. */
    method Start(ticks: nat, events: nat) returns (started: bool)
      requires Idle()
      modifies this, aio
      ensures started <==> ticks > 0 || events > 0
      ensures started ==> Valid() && rec == [] && before == old(prev)
      ensures started ==> minTicks == (if ticks == 0 then 1 else ticks) && minEvents == events
      ensures !started ==> Idle()
    {
      hide AioBuf.Consistent, AioBuf.Room, AioBuf.Closed, Contents;
      minTicks, minEvents := ticks, events;
      if minEvents != 0 && minTicks == 0 {
        minTicks := 1;
      }
      if minTicks == 0 {
        return false;
      }
      rec, before := [], prev;
      for k := 0 to NUM_DSETS
        invariant forall d: Dset :: d < k ==> aio[d].Valid() && aio[d].appended == []
        invariant forall d: Dset :: d >= k ==> aio[d].Closed()
        modifies aio
      {
        aio[k].Open();
      }
      NothingWritten();
      return true;
    }

    lemma NoneFailed()
      requires Ready()
      ensures forall d: Dset :: aio[d].isOpen && (aio[d].enqueued > 0 ==> aio[d].status.Running?)
    {
      forall d: Dset
        ensures aio[d].isOpen && (aio[d].enqueued > 0 ==> aio[d].status.Running?)
      {
        assert aio[d].Valid();
      }
    }

    /** The packet handler. */
    method HandlePacket(a: Arrival) returns (rc: HandlerRc, reply: Option<Reply>, ghost flushed: seq<Rc>)
      requires Valid()
      modifies this, aio, Zones()
      ensures before == old(before) && minTicks == old(minTicks) && minEvents == old(minEvents)
      ensures rc.Continue? ==> Valid() && rec == Extend(old(rec), a)
      // it goes on only if no write is known to have failed
      ensures rc.Continue? ==> forall d: Dset :: aio[d].isOpen && (aio[d].enqueued > 0 ==> aio[d].status.Running?)
      ensures rc.Sleep? ==> Idle() && FilesOf(Extend(old(rec), a), before)
      ensures rc.Sleep? ==> FlushedAs(Extend(old(rec), a), before, flushed)
      ensures rc.Sleep? ==> var st' := StatsOf(Extend(old(rec), a));
                reply == Some(Reply(ReplyStatus(st', minTicks, minEvents), st'))
      ensures EndsWith(Extend(old(rec), a), minTicks, minEvents) ==> rc.Sleep?
      ensures rc.Sleep? && Reliable() ==> EndsWith(Extend(old(rec), a), minTicks, minEvents)
    {
      hide AioBuf.Consistent, AioBuf.Room, Contents, StatsOf, FilesOf, FlushedAs;
      flushed := [];
      if !recording && IsTick(a.pkt) {
        recording := true;
      }
      if !recording {
        NoneFailed();
        return Continue, None, [];
      }
      var finishing := RecordFrame(a);
      if finishing {
        var answer;
        answer, flushed := Finish(ReplyStatus(st, minTicks, minEvents));
        return Sleep, Some(answer), flushed;
      }
      NoneFailed();
      return Continue, None, [];
    }

    /** A whole job: frames arrive until the handler ends it, or the task is stopped
        and the job with it. `handled` frames were given to the handler. */
    method Run(arrivals: seq<Arrival>)
      returns (handled: nat, ended: bool, reply: Reply, ghost flushed: seq<Rc>)
      requires Valid() && rec == []
      modifies this, aio, Zones()
      ensures handled <= |arrivals| && (!ended ==> handled == |arrivals|)
      ensures Idle() && FilesOf(Recorded(arrivals[..handled]), old(before))
      ensures FlushedAs(Recorded(arrivals[..handled]), old(before), flushed)
      ensures reply.status == if ended then ReplyStatus(reply.st, old(minTicks), old(minEvents)) else WriteError
      ensures reply.st == StatsOf(Recorded(arrivals[..handled]))
      ensures Reliable() ==>
                (ended <==> EndsWith(Recorded(arrivals[..handled]), old(minTicks), old(minEvents)))
      ensures forall k :: 0 <= k < handled ==>
                !EndsWith(Recorded(arrivals[..k]), old(minTicks), old(minEvents))
      ensures Reliable() && ended ==> reply.status == Ok
    {
      hide AioBuf.Consistent, AioBuf.Room, Contents, StatsOf, FilesOf, FlushedAs;
      handled := 0;
      while handled < |arrivals|
        invariant handled <= |arrivals| && Valid()
        invariant rec == Recorded(arrivals[..handled])
        invariant before == old(before) && minTicks == old(minTicks) && minEvents == old(minEvents)
        invariant forall k :: 0 <= k <= handled ==> !EndsWith(Recorded(arrivals[..k]), minTicks, minEvents)
      {
        assert Init(arrivals[..handled + 1]) == arrivals[..handled];
        var rc, answer;
        rc, answer, flushed := HandlePacket(arrivals[handled]);
        handled := handled + 1;
        if rc.Sleep? {
          return handled, true, answer.value, flushed;
        }
      }
      ended := false;
      reply, flushed := Finish(WriteError);
    }
  }
}
