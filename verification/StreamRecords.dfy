/** The trace and MCA indices, told without the handler's bookkeeping: which streams get a
    record, from the bytes of their headers and the fields of their frames. */
module StreamRecords {
  import opened Frames
  import opened CaptureFiles
  import opened CaptureStreams
  import opened DataFiles

  // ---------- Streams, from the fields of the frames ----------

  /** An MCA frame, or a frame of a trace that is not a dot product. */
  predicate InStream(a: Arrival, trace: bool)
  {
    && !a.err
    && (if trace then a.pkt.etherType == 0x88B5 && !a.pkt.tick && a.pkt.pkt == 3 && a.pkt.tr != 2
        else a.pkt.etherType == 0x88B6)
  }

  /** The size in a stream's header: that of a trace is its first word; that of a histogram
      follows from the last bin, its second word. */
  function HeaderSize(a: Arrival, trace: bool): nat
  {
    var b := a.pkt.body;
    if trace then b[0] as int + 256 * (b[1] as int)
    else 40 + 4 * ((b[2] as int + 256 * (b[3] as int) + 1) % 65536)
  }

  /** Frame `i` is a header, and all good frames before `n` continue its stream: they are
      of its kind, no headers, and none was missed before them. */
  predicate Uninterrupted(rec: seq<Arrival>, trace: bool, i: nat, n: nat)
  {
    && i < n <= |rec| && InStream(rec[i], trace) && rec[i].pkt.pseq == 0
    && forall j :: i < j < n ==>
         rec[j].err || (InStream(rec[j], trace) && rec[j].pkt.pseq != 0 && rec[j].missed == 0)
  }

  /** Payload bytes of the good frames from `i` up to `n`. */
  function GoodBytes(rec: seq<Arrival>, i: nat, n: nat): nat
    requires i <= n <= |rec|
  {
    if i == n then 0
    else GoodBytes(rec, i, n - 1) + (if rec[n - 1].err then 0 else rec[n - 1].flen - 24)
  }

  /** A stream is ongoing after `rec`: its header came while none was, its frames have not
      been interrupted, and bytes are missing. */
  ghost predicate Busy(rec: seq<Arrival>)
    decreases |rec|
  {
    exists i: nat, trace: bool ::
      i < |rec| && Uninterrupted(rec, trace, i, |rec|) && !Busy(rec[..i])
      && GoodBytes(rec, i, |rec|) < HeaderSize(rec[i], trace)
  }

  /** Frames `i` up to `n` are a stream that is to have a record. */
  ghost predicate ToBeRecorded(rec: seq<Arrival>, trace: bool, i: nat, n: nat)
  {
    && Uninterrupted(rec, trace, i, n) && !rec[n - 1].err && !Busy(rec[..i])
    && GoodBytes(rec, i, n) == HeaderSize(rec[i], trace)
  }

  // ---------- They are those of the bookkeeping ----------

  lemma KindIs(a: Arrival)
    ensures InStream(a, true) <==> !a.err && IsTraceLong(a.pkt)
    ensures InStream(a, false) <==> !a.err && IsMca(a.pkt)
    ensures IsStreamFrame(a) <==> InStream(a, true) || InStream(a, false)
    ensures IsStreamFrame(a) ==> !a.err
    ensures !(InStream(a, true) && InStream(a, false))
  {
  }

  lemma SizeIs(a: Arrival, trace: bool)
    requires InStream(a, trace)
    ensures Declared(a) == HeaderSize(a, trace)
  {
    KindIs(a);
  }

  lemma ShapeIs(rec: seq<Arrival>, trace: bool, i: nat, n: nat)
    ensures Uninterrupted(rec, trace, i, n) <==>
              StreamShape(rec, i, n) && IsTraceLong(rec[i].pkt) == trace
  {
    hide InStream, IsTraceLong, IsMca, IsStreamFrame;
    if i < n <= |rec| {
      forall j | i <= j < n
        ensures InStream(rec[j], true) <==> !rec[j].err && IsTraceLong(rec[j].pkt)
        ensures IsStreamFrame(rec[j]) <==> InStream(rec[j], true) || InStream(rec[j], false)
        ensures IsStreamFrame(rec[j]) ==> !rec[j].err
        ensures !(InStream(rec[j], true) && InStream(rec[j], false))
      {
        KindIs(rec[j]);
      }
    }
  }

  lemma {:induction false} BytesAre(rec: seq<Arrival>, i: nat, n: nat)
    requires StreamShape(rec, i, n)
    ensures StreamBytes(rec, i, n) == GoodBytes(rec, i, n)
    decreases n
  {
    hide Routed, FrameType;
    if n == i + 1 {
      FirstFrame(rec, i);
      assert GoodBytes(rec, i, i) == 0;
    } else {
      BytesAre(rec, i, n - 1);
      OneMoreFrame(rec, i, n - 1);
      AddedBytes(rec[n - 1], rec[i]);
    }
  }

  lemma AddedBytes(a: Arrival, h: Arrival)
    requires IsStreamFrame(h) && (a.err || Follows(a, h))
    ensures |Part(a, DataFile(h))| == if a.err then 0 else a.flen - 24
  {
    if !a.err {
      SameFile(a, h);
    }
  }

  /** A header's stream is complete when all bytes are there that its header declares. */
  lemma CompleteIs(rec: seq<Arrival>, trace: bool, i: nat, n: nat)
    ensures CompleteStream(rec, i, n) && IsTraceLong(rec[i].pkt) == trace <==>
              && Uninterrupted(rec, trace, i, n) && !rec[n - 1].err
              && GoodBytes(rec, i, n) == HeaderSize(rec[i], trace)
  {
    hide Declared, HeaderSize, InStream, GoodBytes, StreamBytes, IsTraceLong, Uninterrupted;
    ShapeIs(rec, trace, i, n);
    if StreamShape(rec, i, n) && IsTraceLong(rec[i].pkt) == trace {
      BytesAre(rec, i, n);
      HeaderInStream(rec, trace, i, n);
      SizeIs(rec[i], trace);
    }
  }

  lemma HeaderInStream(rec: seq<Arrival>, trace: bool, i: nat, n: nat)
    requires Uninterrupted(rec, trace, i, n)
    ensures i < n <= |rec| && InStream(rec[i], trace)
  {
  }

  /** The bookkeeping has an ongoing stream exactly if there is one. */
  lemma {:induction false} BusyIff(rec: seq<Arrival>)
    ensures Busy(rec) <==> ScanOf(rec).cur.size > 0
    decreases |rec|
  {
    hide ScanOf, Uninterrupted, HeaderSize, GoodBytes;
    forall i: nat | i < |rec|
      ensures Busy(rec[..i]) <==> ScanOf(rec[..i]).cur.size > 0
    {
      BusyIff(rec[..i]);
    }
    if ScanOf(rec).cur.size > 0 {
      var i, trace := OngoingIs(rec);
      assert !Busy(rec[..i]);
    }
    forall i: nat, trace: bool | i < |rec| && Uninterrupted(rec, trace, i, |rec|) && !Busy(rec[..i])
                                 && GoodBytes(rec, i, |rec|) < HeaderSize(rec[i], trace)
      ensures ScanOf(rec).cur.size > 0
    {
      assert ScanOf(rec[..i]).cur.size == 0;
      StillOngoing(rec, i, trace);
    }
  }

  /** A header starts a stream, and is marked as one in the frame index, exactly if it comes
      while no stream is ongoing. */
  lemma StartsIff(rec: seq<Arrival>, a: Arrival)
    ensures !a.err && Starts(ScanOf(rec).cur, a) <==>
              (InStream(a, true) || InStream(a, false)) && a.pkt.pseq == 0 && !Busy(rec)
  {
    hide ScanOf, Busy, IsTraceLong, IsMca, InStream;
    KindIs(a);
    BusyIff(rec);
  }

  lemma OngoingIs(rec: seq<Arrival>) returns (i: nat, trace: bool)
    requires ScanOf(rec).cur.size > 0
    ensures i < |rec| && Uninterrupted(rec, trace, i, |rec|) && ScanOf(rec[..i]).cur.size == 0
    ensures GoodBytes(rec, i, |rec|) < HeaderSize(rec[i], trace)
  {
    hide ScanOf, Declared, HeaderSize, GoodBytes, StreamBytes, InStream, IsTraceLong, Uninterrupted;
    ScanIsSound(rec);
    i, trace := ScanOf(rec).first, ScanOf(rec).cur.isEvent;
    ShapeIs(rec, trace, i, |rec|);
    BytesAre(rec, i, |rec|);
    HeaderInStream(rec, trace, i, |rec|);
    SizeIs(rec[i], trace);
  }

  lemma StillOngoing(rec: seq<Arrival>, i: nat, trace: bool)
    requires Uninterrupted(rec, trace, i, |rec|) && ScanOf(rec[..i]).cur.size == 0
    requires GoodBytes(rec, i, |rec|) < HeaderSize(rec[i], trace)
    ensures ScanOf(rec).cur.size > 0
  {
    hide ScanOf, Declared, HeaderSize, GoodBytes, StreamBytes, InStream, IsTraceLong, Uninterrupted;
    ShapeIs(rec, trace, i, |rec|);
    BytesAre(rec, i, |rec|);
    HeaderInStream(rec, trace, i, |rec|);
    SizeIs(rec[i], trace);
    Followed(rec, i, |rec|);
    assert rec[..|rec|] == rec;
  }

  // ---------- What is recorded ----------

  /** Where a stream starts: after the payloads of its kind that came before. */
  lemma StartIs(rec: seq<Arrival>, trace: bool, i: nat)
    requires i < |rec| && InStream(rec[i], trace)
    ensures FrameStart(rec, i) == |PayloadsOf(rec[..i], if trace then Event else Histogram)|
  {
    var k := if trace then Event else Histogram;
    FileHolds(rec[..i], PrevEvent(0, 0), k);
    GoodFrame(rec[i].pkt);
    hide Routed, PayloadsOf, IsValid;
  }

  /** The records of the trace index, or of the MCA index, are exactly those of the streams
      that came whole, as their headers' bytes tell, with no other ongoing as they began;
      each says where its payloads start and how many bytes its header declares. */
  lemma RecordedIff(rec: seq<Arrival>, trace: bool, s: Span)
    ensures s in Spans(rec, trace) <==>
              && ToBeRecorded(rec, trace, s.first, s.end)
              && s.start == |PayloadsOf(rec[..s.first], if trace then Event else Histogram)|
              && s.length == HeaderSize(rec[s.first], trace)
  {
    hide ScanOf, CompleteStream, Declared, HeaderSize, GoodBytes, InStream, IsTraceLong, Uninterrupted, PayloadsOf,
      Busy, FrameStart;
    CompleteIs(rec, trace, s.first, s.end);
    if Uninterrupted(rec, trace, s.first, s.end) {
      HeaderInStream(rec, trace, s.first, s.end);
      StartIs(rec, trace, s.first);
      SizeIs(rec[s.first], trace);
      BusyIff(rec[..s.first]);
      if CompleteStream(rec, s.first, s.end) {
        IndexedIffIdle(rec, s.first, s.end);
      }
    }
    if s in Spans(rec, trace) {
      IsRecorded(rec, trace, s);
    }
  }

  lemma IsRecorded(rec: seq<Arrival>, trace: bool, s: Span)
    requires s in Spans(rec, trace)
    ensures Recorded(rec, s, trace)
  {
    hide ScanOf, Recorded;
    ScanIsSound(rec);
    var k :| 0 <= k < |Spans(rec, trace)| && Spans(rec, trace)[k] == s;
  }

  /** For a header that comes while no stream is ongoing, and its continuations: they get a
      record exactly when their payload bytes reach the size in the header. */
  lemma RecordedWhenReached(rec: seq<Arrival>, trace: bool, i: nat, n: nat)
    requires i < n <= |rec| && Uninterrupted(rec, trace, i, n) && !rec[n - 1].err && !Busy(rec[..i])
    ensures (exists s: Span :: s in Spans(rec, trace) && s.first == i && s.end == n)
       <==> GoodBytes(rec, i, n) == HeaderSize(rec[i], trace)
  {
    hide ScanOf, HeaderSize, GoodBytes, InStream, Uninterrupted, PayloadsOf, Busy, Spans;
    forall s: Span | s in Spans(rec, trace) && s.first == i && s.end == n
      ensures GoodBytes(rec, i, n) == HeaderSize(rec[i], trace)
    {
      RecordedIff(rec, trace, s);
    }
    var s := Span(i, n, |PayloadsOf(rec[..i], if trace then Event else Histogram)|, HeaderSize(rec[i], trace));
    RecordedIff(rec, trace, s);
  }
}
