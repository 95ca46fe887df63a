/** The trace and MCA indices: what their records denote, and which streams get one. */
module CaptureStreams {
  import opened Basics
  import opened Bytes
  import opened Frames
  import opened CaptureFiles

  /** A frame that may follow in a stream that started with `h`: of the same kind,
      not a header, and none missed before it. */
  predicate Follows(a: Arrival, h: Arrival)
  {
    && IsStreamFrame(a) && !IsHeader(a.pkt) && a.missed == 0
    && (IsTraceLong(a.pkt) <==> IsTraceLong(h.pkt))
  }

  /** Frame `i` is a header and every good frame up to `n` continues its stream. */
  predicate StreamShape(rec: seq<Arrival>, i: nat, n: nat)
  {
    && i < n <= |rec|
    && IsStreamFrame(rec[i]) && IsHeader(rec[i].pkt)
    && forall j :: i < j < n ==> rec[j].err || Follows(rec[j], rec[i])
  }

  /** Bytes that frames `i..n` add to the data file of frame `i`. */
  function StreamBytes(rec: seq<Arrival>, i: nat, n: nat): nat
    requires i < |rec| && i <= n <= |rec|
  {
    |Routed(rec[i..n], DataFile(rec[i]))|
  }

  /** Frames `i..n` make a stream of the size its header declares. */
  predicate CompleteStream(rec: seq<Arrival>, i: nat, n: nat)
  {
    && StreamShape(rec, i, n)
    && !rec[n - 1].err
    && StreamBytes(rec, i, n) == Declared(rec[i])
  }

  // ---------- What the scan keeps ----------

  /** A finished stream: complete, found while no other was ongoing, and recorded
      with the range of the data file it takes up. */
  predicate Recorded(rec: seq<Arrival>, s: Span, trace: bool)
  {
    && CompleteStream(rec, s.first, s.end)
    && IsTraceLong(rec[s.first].pkt) == trace
    && s.start == FrameStart(rec, s.first)
    && s.length == Declared(rec[s.first])
    && ScanOf(rec[..s.first]).cur.size == 0
  }

  predicate AllRecorded(rec: seq<Arrival>, spans: seq<Span>, trace: bool)
  {
    forall k :: 0 <= k < |spans| ==> Recorded(rec, spans[k], trace)
  }

  /** The streams end before frame `limit` and do not overlap. */
  predicate Increasing(spans: seq<Span>, limit: nat)
  {
    && (forall k :: 0 <= k < |spans| ==> spans[k].first < spans[k].end <= limit)
    && (forall j, k :: 0 <= j < k < |spans| ==> spans[j].end <= spans[k].first)
  }

  /** An idle scan holds no size; an ongoing stream is a proper part of what its
      header declared, is not discarded, and is all the data file got since. */
  predicate Ongoing(rec: seq<Arrival>, s: Scan)
  {
    if s.cur.size == 0 then s.cur.curSize == 0
    else
      && 0 < s.cur.curSize < s.cur.size && !s.cur.discard
      && StreamShape(rec, s.first, |rec|)
      && s.cur.isEvent == IsTraceLong(rec[s.first].pkt)
      && s.cur.size == Declared(rec[s.first])
      && s.cur.start == FrameStart(rec, s.first)
      && s.cur.curSize == StreamBytes(rec, s.first, |rec|)
      && ScanOf(rec[..s.first]).cur.size == 0
  }

  /** How far the finished streams may reach. */
  function Limit(rec: seq<Arrival>, s: Scan): nat
  {
    if s.cur.size == 0 then |rec| else s.first
  }

  predicate ScanInv(rec: seq<Arrival>, s: Scan)
  {
    && Ongoing(rec, s)
    && AllRecorded(rec, s.traces, true) && AllRecorded(rec, s.hists, false)
    && Increasing(s.traces, Limit(rec, s)) && Increasing(s.hists, Limit(rec, s))
  }

  // ---------- Frames added at the end ----------

  lemma ShapeStable(rec: seq<Arrival>, more: seq<Arrival>, i: nat, n: nat)
    requires i < n <= |rec|
    ensures StreamShape(rec, i, n) <==> StreamShape(rec + more, i, n)
    ensures StreamBytes(rec + more, i, n) == StreamBytes(rec, i, n)
    ensures CompleteStream(rec + more, i, n) <==> CompleteStream(rec, i, n)
    ensures FrameStart(rec + more, i) == FrameStart(rec, i)
    ensures (rec + more)[..i] == rec[..i]
  {
    assert (rec + more)[i..n] == rec[i..n];
    assert (rec + more)[..i] == rec[..i];
    assert forall j :: i <= j < n ==> (rec + more)[j] == rec[j];
  }

  lemma RecordedStable(rec: seq<Arrival>, a: Arrival, spans: seq<Span>, trace: bool)
    requires AllRecorded(rec, spans, trace)
    ensures AllRecorded(rec + [a], spans, trace)
  {
    forall k | 0 <= k < |spans|
      ensures Recorded(rec + [a], spans[k], trace)
    {
      assert Recorded(rec, spans[k], trace);
      ShapeStable(rec, [a], spans[k].first, spans[k].end);
    }
  }

  /** The frames of a stream all go to the same data file. */
  lemma SameFile(a: Arrival, h: Arrival)
    requires IsStreamFrame(a) && IsStreamFrame(h)
    ensures DataFile(a) == DataFile(h) <==> (IsTraceLong(a.pkt) <==> IsTraceLong(h.pkt))
  {
  }

  lemma OneMoreFrame(rec: seq<Arrival>, i: nat, n: nat)
    requires i < n < |rec|
    ensures StreamBytes(rec, i, n + 1) == StreamBytes(rec, i, n) + |Part(rec[n], DataFile(rec[i]))|
  {
    assert Init(rec[i..n + 1]) == rec[i..n];
  }

  lemma FirstFrame(rec: seq<Arrival>, i: nat)
    requires i < |rec|
    ensures StreamBytes(rec, i, i + 1) == |Payload(rec[i])|
  {
    assert rec[i..i + 1] == [rec[i]];
    assert Init([rec[i]]) == [];
    assert Routed([rec[i]], DataFile(rec[i])) == [] + Part(rec[i], DataFile(rec[i]));
  }

  // ---------- The invariant of the scan ----------

  /** A stream with `a` as its latest frame: the data file grew by `a`'s payload,
      unless `a` is bad. */
  lemma Extended(rec: seq<Arrival>, i: nat, a: Arrival)
    requires StreamShape(rec, i, |rec|) && (a.err || Follows(a, rec[i]))
    ensures StreamShape(rec + [a], i, |rec| + 1)
    ensures StreamBytes(rec + [a], i, |rec| + 1)
         == StreamBytes(rec, i, |rec|) + (if a.err then 0 else |Payload(a)|)
  {
    ShapeStable(rec, [a], i, |rec|);
    OneMoreFrame(rec + [a], i, |rec|);
    if !a.err {
      SameFile(a, rec[i]);
    }
  }

  /** The ongoing stream, with the frame just received in its count. */
  predicate Receiving(rec: seq<Arrival>, s: Scan, size: nat)
  {
    && StreamShape(rec, s.first, |rec|) && !Last(rec).err
    && s.cur.isEvent == IsTraceLong(rec[s.first].pkt)
    && s.cur.size == Declared(rec[s.first]) && !s.cur.discard
    && s.cur.start == FrameStart(rec, s.first)
    && size == StreamBytes(rec, s.first, |rec|)
    && ScanOf(rec[..s.first]).cur.size == 0
  }

  /** The stream goes on: its count is what the data file got since. */
  lemma PartKeeps(rec: seq<Arrival>, s: Scan, size: nat)
    requires rec != [] && Receiving(rec, s, size) && 0 < size < s.cur.size
    ensures Ongoing(rec, s.(cur := s.cur.(curSize := size)))
  {
    hide StreamShape, StreamBytes, FrameStart, Declared, ScanOf;
  }

  /** The stream is complete. */
  lemma CompleteKeeps(rec: seq<Arrival>, s: Scan)
    requires rec != [] && Receiving(rec, s, s.cur.size)
    ensures s.first < |rec|
    ensures Recorded(rec, Span(s.first, |rec|, s.cur.start, s.cur.size), s.cur.isEvent)
  {
    hide FrameType, Routed, Declared, ScanOf;
  }

  lemma AddRecorded(rec: seq<Arrival>, spans: seq<Span>, done: Span, trace: bool)
    requires AllRecorded(rec, spans, trace) && Recorded(rec, done, trace)
    requires Increasing(spans, done.first) && done.first < done.end == |rec|
    ensures AllRecorded(rec, spans + [done], trace) && Increasing(spans + [done], |rec|)
  {
    hide Recorded;
  }

  lemma LaterLimit(spans: seq<Span>, limit: nat, limit': nat)
    requires Increasing(spans, limit) && limit <= limit'
    ensures Increasing(spans, limit')
  {
  }

  lemma ReceiveKeeps(rec: seq<Arrival>, s: Scan, a: Arrival)
    requires rec != [] && Last(rec) == a
    requires Receiving(rec, s, s.cur.curSize + |Payload(a)|)
    requires AllRecorded(rec, s.traces, true) && AllRecorded(rec, s.hists, false)
    requires Increasing(s.traces, s.first) && Increasing(s.hists, s.first)
    ensures ScanInv(rec, Receive(s, a, |rec| - 1))
  {
    hide Payload, StreamShape, StreamBytes, FrameStart, Declared, ScanOf, Increasing, AllRecorded, Recorded;
    var size := s.cur.curSize + |Payload(a)|;
    FirstBefore(rec, s, size);
    LaterLimit(s.traces, s.first, |rec|);
    LaterLimit(s.hists, s.first, |rec|);
    if size < s.cur.size {
      PartKeeps(rec, s, size);
    } else if size == s.cur.size {
      var done := Span(s.first, |rec|, s.cur.start, s.cur.size);
      CompleteKeeps(rec, s);
      AddRecorded(rec, if s.cur.isEvent then s.traces else s.hists, done, s.cur.isEvent);
    }
  }

  lemma FirstBefore(rec: seq<Arrival>, s: Scan, size: nat)
    requires Receiving(rec, s, size)
    ensures s.first < |rec|
  {
  }

  lemma StartKeeps(rec: seq<Arrival>, a: Arrival)
    requires ScanInv(rec, ScanOf(rec)) && !a.err && Starts(ScanOf(rec).cur, a)
    ensures ScanInv(rec + [a], ScanOf(rec + [a]))
  {
    hide FrameType, Payload, Routed, Receive, Declared;
    var s, rec', i := ScanOf(rec), rec + [a], |rec|;
    RecordedStable(rec, a, s.traces, true);
    RecordedStable(rec, a, s.hists, false);
    FirstFrame(rec', i);
    assert rec'[..i] == rec;
    var start := FrameStart(rec', i);
    var s' := s.(cur := CurStream(start, Declared(a), 0, IsTraceLong(a.pkt), false), first := i);
    assert Receiving(rec', s', |Payload(a)|);
    ReceiveKeeps(rec', s', a);
  }

  lemma ContinueKeeps(rec: seq<Arrival>, a: Arrival)
    requires ScanInv(rec, ScanOf(rec)) && !a.err && Continues(ScanOf(rec).cur, a)
    ensures ScanInv(rec + [a], ScanOf(rec + [a]))
  {
    hide FrameType, Payload, Routed, Receive, Declared;
    var s, rec', i := ScanOf(rec), rec + [a], |rec|;
    RecordedStable(rec, a, s.traces, true);
    RecordedStable(rec, a, s.hists, false);
    Extended(rec, s.first, a);
    ShapeStable(rec, [a], s.first, i);
    assert rec'[..i] == rec;
    ReceiveKeeps(rec', s, a);
  }

  lemma BadFrameKeeps(rec: seq<Arrival>, a: Arrival)
    requires ScanInv(rec, ScanOf(rec)) && a.err
    ensures ScanInv(rec + [a], ScanOf(rec + [a]))
  {
    hide FrameType, Payload, Routed, Receive, Declared;
    var s, rec' := ScanOf(rec), rec + [a];
    RecordedStable(rec, a, s.traces, true);
    RecordedStable(rec, a, s.hists, false);
    assert rec'[..|rec|] == rec;
    if s.cur.size > 0 {
      Extended(rec, s.first, a);
      ShapeStable(rec, [a], s.first, |rec|);
    }
  }

  lemma OtherFrameKeeps(rec: seq<Arrival>, a: Arrival)
    requires ScanInv(rec, ScanOf(rec)) && !a.err
    requires !Continues(ScanOf(rec).cur, a) && !Starts(ScanOf(rec).cur, a)
    ensures ScanInv(rec + [a], ScanOf(rec + [a]))
  {
    hide FrameType, Payload, Routed, Receive, Declared;
    var s, rec' := ScanOf(rec), rec + [a];
    RecordedStable(rec, a, s.traces, true);
    RecordedStable(rec, a, s.hists, false);
    assert rec'[..|rec|] == rec;
  }

  lemma NothingScanned()
    ensures ScanInv([], ScanOf([]))
  {
  }

  /** Whatever frames arrive, bad and foreign ones included, the scan's records and
      its ongoing stream stay true of the data files. */
  lemma {:induction false} ScanIsSound(rec: seq<Arrival>)
    ensures ScanInv(rec, ScanOf(rec))
  {
    hide ScanOf, ScanInv, Starts, Continues;
    if rec == [] {
      NothingScanned();
    } else {
      var init, a := Init(rec), Last(rec);
      ScanIsSound(init);
      assert rec == init + [a];
      if !a.err && Starts(ScanOf(init).cur, a) {
        StartKeeps(init, a);
      } else if !a.err && Continues(ScanOf(init).cur, a) {
        ContinueKeeps(init, a);
      } else if a.err {
        BadFrameKeeps(init, a);
      } else {
        OtherFrameKeeps(init, a);
      }
    }
  }

  /** What the handler asserts as it goes. A good frame does exactly one of four
      things: it starts a stream, continues or interrupts the ongoing one, or is of no
      concern; then it is no header of a stream. A stream that is interrupted is so
      by a header, by a frame after missed ones, or by one of another kind, and one
      that starts is not overrun by its own header. */
  lemma {:induction false} CasesAreAsAsserted(rec: seq<Arrival>, a: Arrival)
    requires !a.err
    ensures var s := ScanOf(rec);
            var interrupts := !Continues(s.cur, a) && s.cur.size > 0;
            && (s.cur.size > 0 ==> 0 < s.cur.curSize < s.cur.size && !s.cur.discard)
            && (s.cur.size == 0 ==> s.cur.curSize == 0)
            && !(Starts(s.cur, a) && Continues(s.cur, a)) && !(Starts(s.cur, a) && interrupts)
            && (IsStreamFrame(a) && !Starts(s.cur, a) && !Continues(s.cur, a) && !interrupts ==>
                  !IsHeader(a.pkt) && s.cur.size == 0)
            && (interrupts ==> IsHeader(a.pkt) || a.missed > 0 || !IsStreamFrame(a)
                               || IsTraceLong(a.pkt) != s.cur.isEvent)
            && (Starts(s.cur, a) ==> 0 < |Payload(a)| <= Declared(a))
  {
    ScanIsSound(rec);
    if Starts(ScanOf(rec).cur, a) {
      GoodStreamHeader(a.pkt);
    }
  }

  // ---------- Soundness of the records ----------

  lemma Middle(a: seq<byte>, b: seq<byte>, c: seq<byte>)
    ensures ((a + b) + c)[|a|..|a| + |b|] == b
  {
  }

  /** The range of the data file taken up by the frames `i..n`. */
  lemma StreamInFile(rec: seq<Arrival>, i: nat, n: nat)
    requires i < n <= |rec|
    ensures var file, start := Routed(rec, DataFile(rec[i])), FrameStart(rec, i);
            && start + StreamBytes(rec, i, n) <= |file|
            && file[start..start + StreamBytes(rec, i, n)] == Routed(rec[i..n], DataFile(rec[i]))
  {
    var d := DataFile(rec[i]);
    assert rec[..n] == rec[..i] + rec[i..n];
    assert rec == rec[..n] + rec[n..];
    RoutedConcat(rec[..i], rec[i..n], d);
    RoutedConcat(rec[..n], rec[n..], d);
    Middle(Routed(rec[..i], d), Routed(rec[i..n], d), Routed(rec[n..], d));
  }

  /** Streams that do not overlap in time do not overlap in the file. */
  lemma DisjointInFile(rec: seq<Arrival>, i: nat, n: nat, j: nat)
    requires i < n <= j < |rec| && DataFile(rec[i]) == DataFile(rec[j])
    ensures FrameStart(rec, i) + StreamBytes(rec, i, n) <= FrameStart(rec, j)
  {
    var d := DataFile(rec[i]);
    assert rec[..n] == rec[..i] + rec[i..n];
    assert rec[..j] == rec[..n] + rec[n..j];
    RoutedConcat(rec[..i], rec[i..n], d);
    RoutedConcat(rec[..n], rec[n..j], d);
  }

  function SpanAt(index: seq<byte>, k: nat): (x: seq<byte>)
    requires SIDX_LEN * (k + 1) <= |index|
    ensures |x| == SIDX_LEN
  {
    index[SIDX_LEN * k..SIDX_LEN * (k + 1)]
  }

  lemma {:induction false} SpanEncoded(spans: seq<Span>, k: nat)
    requires k < |spans|
    ensures SpanAt(EncodeSpans(spans), k) == EncodeSpan(spans[k])
  {
    var init := Init(spans);
    if k < |init| {
      SpanEncoded(init, k);
      assert SpanAt(EncodeSpans(spans), k) == SpanAt(EncodeSpans(init), k);
    }
  }

  lemma SpanDecoded(s: Span)
    requires s.start < U64 && s.length < U64
    ensures Decode(EncodeSpan(s)[..8]) == s.start && Decode(EncodeSpan(s)[8..]) == s.length
  {
    Ranges();
    DecodeEncode(s.start, 8);
    DecodeEncode(s.length, 8);
    assert EncodeSpan(s)[..8] == Encode(s.start, 8);
    assert EncodeSpan(s)[8..] == Encode(s.length, 8);
  }

  /** What an index record has to say: there are frames `i..n` that make a complete
      stream, and the record's range of the data file holds the header's payload
      and then the payloads of its continuations. */
  predicate Denotes(rec: seq<Arrival>, trace: bool, dat: seq<byte>, start: nat, length: nat, i: nat, n: nat)
  {
    && CompleteStream(rec, i, n)
    && IsTraceLong(rec[i].pkt) == trace
    && length == Declared(rec[i])
    && start + length <= |dat|
    && dat[start..start + length] == Routed(rec[i..n], DataFile(rec[i]))
  }

  /** The streams found, as their index records name them. */
  function Spans(rec: seq<Arrival>, trace: bool): seq<Span>
  {
    if trace then ScanOf(rec).traces else ScanOf(rec).hists
  }

  function StreamFile(trace: bool): Dset { if trace then EDAT else MDAT }

  lemma SpanDenotes(rec: seq<Arrival>, s: Span, trace: bool)
    requires Recorded(rec, s, trace)
    ensures Denotes(rec, trace, Routed(rec, StreamFile(trace)), s.start, s.length, s.first, s.end)
  {
    assert DataFile(rec[s.first]) == StreamFile(trace);
    StreamInFile(rec, s.first, s.end);
  }

  /** Record `k` of the trace index (or the MCA index) denotes a complete stream of
      that kind. */
  lemma StreamIndexIsSound(rec: seq<Arrival>, trace: bool, k: nat)
    requires k < |Spans(rec, trace)| && |Routed(rec, StreamFile(trace))| < U64
    ensures var x, s := SpanAt(EncodeSpans(Spans(rec, trace)), k), Spans(rec, trace)[k];
            Denotes(rec, trace, Routed(rec, StreamFile(trace)), Decode(x[..8]), Decode(x[8..]), s.first, s.end)
  {
    var spans := Spans(rec, trace);
    ScanIsSound(rec);
    assert Recorded(rec, spans[k], trace);
    SpanDenotes(rec, spans[k], trace);
    SpanEncoded(spans, k);
    SpanDecoded(spans[k]);
  }

  /** Records of one index are in the order of the data file and do not overlap. */
  lemma StreamsDoNotOverlap(rec: seq<Arrival>, trace: bool, j: nat, k: nat)
    requires j < k < |Spans(rec, trace)|
    ensures Spans(rec, trace)[j].start + Spans(rec, trace)[j].length <= Spans(rec, trace)[k].start
  {
    var spans := Spans(rec, trace);
    ScanIsSound(rec);
    assert Recorded(rec, spans[j], trace) && Recorded(rec, spans[k], trace);
    DisjointInFile(rec, spans[j].first, spans[j].end, spans[k].first);
  }

  // ---------- Which streams are recorded ----------

  lemma StepAt(rec: seq<Arrival>, n: nat)
    requires n < |rec|
    ensures ScanOf(rec[..n + 1]) == ScanFrame(ScanOf(rec[..n]), rec[n], n, FrameStart(rec, n))
  {
    assert rec[..n + 1][..n] == rec[..n];
  }

  /** The stream of header `i` is ongoing before frame `n`. */
  predicate OnStream(rec: seq<Arrival>, i: nat, n: nat)
    requires i <= n <= |rec| && i < |rec|
  {
    var s := ScanOf(rec[..n]);
    && s.first == i
    && s.cur == CurStream(FrameStart(rec, i), Declared(rec[i]), StreamBytes(rec, i, n),
                          IsTraceLong(rec[i].pkt), false)
    && s.cur.size > 0
  }

  function SpanOf(rec: seq<Arrival>, i: nat, n: nat): Span
    requires i < |rec|
  {
    Span(i, n, FrameStart(rec, i), Declared(rec[i]))
  }

  lemma Started(rec: seq<Arrival>, i: nat)
    requires i < |rec| && IsStreamFrame(rec[i]) && IsHeader(rec[i].pkt)
    requires ScanOf(rec[..i]).cur.size == 0
    ensures StreamBytes(rec, i, i + 1) < Declared(rec[i]) ==> OnStream(rec, i, i + 1)
    ensures StreamBytes(rec, i, i + 1) == Declared(rec[i]) ==>
              SpanOf(rec, i, i + 1) in Spans(rec[..i + 1], IsTraceLong(rec[i].pkt))
  {
    ScanIsSound(rec[..i]);
    StepAt(rec, i);
    FirstFrame(rec, i);
  }

  lemma Stepped(rec: seq<Arrival>, i: nat, n: nat)
    requires i < n < |rec| && IsStreamFrame(rec[i]) && OnStream(rec, i, n)
    requires rec[n].err || Follows(rec[n], rec[i])
    ensures StreamBytes(rec, i, n + 1) < Declared(rec[i]) ==> OnStream(rec, i, n + 1)
    ensures StreamBytes(rec, i, n + 1) == Declared(rec[i]) && !rec[n].err ==>
              SpanOf(rec, i, n + 1) in Spans(rec[..n + 1], IsTraceLong(rec[i].pkt))
  {
    StepAt(rec, n);
    OneMoreFrame(rec, i, n);
    if !rec[n].err {
      SameFile(rec[n], rec[i]);
    }
  }

  /** From an idle scan a header and its continuations are followed to the end. */
  lemma {:induction false} Followed(rec: seq<Arrival>, i: nat, n: nat)
    requires StreamShape(rec, i, n) && ScanOf(rec[..i]).cur.size == 0
    requires StreamBytes(rec, i, n) < Declared(rec[i])
    ensures OnStream(rec, i, n)
    decreases n
  {
    hide OnStream, ScanOf, Routed, FrameType, Payload, Declared;
    if n == i + 1 {
      Started(rec, i);
    } else {
      var m := n - 1;
      assert StreamShape(rec, i, m);
      assert rec[m].err || Follows(rec[m], rec[i]);
      assert StreamBytes(rec, i, m) <= StreamBytes(rec, i, n) by {
        OneMoreFrame(rec, i, m);
      }
      Followed(rec, i, m);
      Stepped(rec, i, m);
    }
  }

  lemma {:induction false} SpansGrow(rec: seq<Arrival>, n: nat, m: nat)
    requires n <= m <= |rec|
    ensures ScanOf(rec[..n]).traces <= ScanOf(rec[..m]).traces
    ensures ScanOf(rec[..n]).hists <= ScanOf(rec[..m]).hists
    decreases m
  {
    hide ScanOf, ScanFrame, FrameStart;
    if n < m {
      SpansGrow(rec, n, m - 1);
      StepAt(rec, m - 1);
      FrameKeepsSpans(ScanOf(rec[..m - 1]), rec[m - 1], m - 1, FrameStart(rec, m - 1));
    }
  }

  lemma CompleteIsFound(rec: seq<Arrival>, i: nat, n: nat)
    requires CompleteStream(rec, i, n) && ScanOf(rec[..i]).cur.size == 0
    ensures SpanOf(rec, i, n) in Spans(rec[..n], IsTraceLong(rec[i].pkt))
  {
    hide OnStream, ScanOf, Routed, FrameType, Payload, Declared;
    if n == i + 1 {
      Started(rec, i);
    } else {
      var m := n - 1;
      assert StreamShape(rec, i, m);
      assert StreamBytes(rec, i, m) < StreamBytes(rec, i, n) by {
        OneMoreFrame(rec, i, m);
        SameFile(rec[m], rec[i]);
      }
      Followed(rec, i, m);
      Stepped(rec, i, m);
    }
  }

  lemma StaysFound(rec: seq<Arrival>, n: nat, s: Span, trace: bool)
    requires n <= |rec| && s in Spans(rec[..n], trace)
    ensures s in Spans(rec, trace)
  {
    SpansGrow(rec, n, |rec|);
    assert rec[..|rec|] == rec;
    assert Spans(rec[..n], trace) <= Spans(rec, trace);
  }

  /** A complete stream is in the index exactly when no other stream was ongoing as
      its header arrived. */
  lemma IndexedIffIdle(rec: seq<Arrival>, i: nat, n: nat)
    requires CompleteStream(rec, i, n)
    ensures SpanOf(rec, i, n) in Spans(rec, IsTraceLong(rec[i].pkt))
       <==> ScanOf(rec[..i]).cur.size == 0
  {
    var trace := IsTraceLong(rec[i].pkt);
    var s := SpanOf(rec, i, n);
    if ScanOf(rec[..i]).cur.size == 0 {
      CompleteIsFound(rec, i, n);
      StaysFound(rec, n, s, trace);
    }
    if s in Spans(rec, trace) {
      ScanIsSound(rec);
      var k :| 0 <= k < |Spans(rec, trace)| && Spans(rec, trace)[k] == s;
      assert Recorded(rec, Spans(rec, trace)[k], trace);
    }
  }

  // ---------- A complete trace without a record ----------

  /** A single trace of `size` declared bytes whose first frame carries 8 of them. */
  function TraceHeader(size: u16): Arrival
    requires 8 <= size < 0x100
  {
    var f := Frame(ETHERTYPE_EVENT, 32, 0, 0, 1, false, TYPE_TRACE, TRACE_SGL,
                   seq(MTU - HDR_LEN, i => if i == 0 then size else 0));
    assert TraceSize(f) == size;
    assert IsValid(f) == {};
    Arrival(f, 32, 0, false, 0)
  }

  /** A trace that fits one frame is missing from the index because the trace
      before it was still waiting for its second frame. */
  lemma CompleteButNotIndexed()
    ensures var rec := [TraceHeader(16), TraceHeader(8)];
            && CompleteStream(rec, 1, 2)
            && Spans(rec, true) == []
  {
  }
}
