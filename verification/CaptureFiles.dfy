/** What a capture job writes, as functions of the frames it recorded: where each
    payload goes and what the four index files say about them. */
module CaptureFiles {
  import opened Basics
  import opened Bytes
  import opened Frames

  // ---------- Datasets ----------

  const NUM_DSETS: nat := 8

  type Dset = d: nat | d < NUM_DSETS

  const FIDX: Dset := 0  // frame index
  const MIDX: Dset := 1  // MCA index
  const TIDX: Dset := 2  // tick index
  const RIDX: Dset := 3  // trace index
  const BDAT: Dset := 4  // bad payloads
  const MDAT: Dset := 5  // MCA payloads
  const TDAT: Dset := 6  // tick payloads
  const EDAT: Dset := 7  // event payloads

  const FIDX_LEN: nat := 16
  const TIDX_LEN: nat := 8
  const SIDX_LEN: nat := 16

  // ---------- Frames as the handler receives them ----------

  /** A call of the packet handler: the frame, its length (cut to the ring slot's),
      how many frames were missed before it, and whether it is bad. `stale` is what
      the uninitialised bits of the frame's index record happen to hold. */
  datatype RawArrival = Arrival(pkt: Frame, flen: nat, missed: u16, err: bool, stale: nat)

  type Arrival = a: RawArrival |
    && HDR_LEN < a.flen <= MTU && a.stale < 8
    && (!a.err ==> Good(a.pkt) && a.flen == a.pkt.length)
    witness Arrival(
              Frame(0, 0, 0, 0, 0, false, 0, 0, seq(MTU - HDR_LEN, i => 0)), 32, 0, true, 0)

  function Payload(a: Arrival): (p: seq<byte>)
    ensures 0 < |p| <= MTU - HDR_LEN
  {
    a.pkt.body[..a.flen - HDR_LEN]
  }

  // ---------- Frame types ----------

  const FTYPE_TICK: nat := 7
  const FTYPE_MCA: nat := 8
  const FTYPE_BAD: nat := 9

  function LinearEtype(pkt: bits2, tr: bits2): nat
  {
    if pkt == TYPE_TRACE then 3 + tr else pkt
  }

  function FrameType(a: Arrival): (pt: nat)
    ensures pt <= FTYPE_BAD
  {
    if a.err then FTYPE_BAD
    else if IsMca(a.pkt) then FTYPE_MCA
    else if IsTick(a.pkt) then FTYPE_TICK
    else LinearEtype(a.pkt.pkt, a.pkt.tr)
  }

  /** The data file that holds payloads of type `pt`. */
  function FileOfType(pt: nat): Dset
  {
    if pt < FTYPE_TICK then EDAT
    else if pt == FTYPE_TICK then TDAT
    else if pt == FTYPE_MCA then MDAT
    else BDAT
  }

  function DataFile(a: Arrival): Dset
  {
    FileOfType(FrameType(a))
  }

  /** A good event frame that is not a tick. */
  predicate IsEventFrame(a: Arrival) { FrameType(a) < FTYPE_TICK }

  predicate IsGoodTick(a: Arrival) { FrameType(a) == FTYPE_TICK }

  // ---------- Data files ----------

  /** The payloads routed to `d`, in order of arrival. */
  function Routed(rec: seq<Arrival>, d: Dset): seq<byte>
  {
    if rec == [] then [] else Routed(Init(rec), d) + Part(Last(rec), d)
  }

  /** What `a` adds to `d`. */
  function Part(a: Arrival, d: Dset): seq<byte>
  {
    if DataFile(a) == d then Payload(a) else []
  }

  /** Offset of frame `i`'s payload in its data file. */
  function FrameStart(rec: seq<Arrival>, i: nat): nat
    requires i < |rec|
  {
    |Routed(rec[..i], DataFile(rec[i]))|
  }

  lemma {:induction false} RoutedConcat(rec: seq<Arrival>, more: seq<Arrival>, d: Dset)
    ensures Routed(rec + more, d) == Routed(rec, d) + Routed(more, d)
  {
    if more == [] {
      assert rec + more == rec;
    } else {
      assert Init(rec + more) == rec + Init(more) && Last(rec + more) == Last(more);
      RoutedConcat(rec, Init(more), d);
      Associate(Routed(rec, d), Routed(Init(more), d), Part(Last(more), d));
    }
  }

  lemma Associate(a: seq<byte>, b: seq<byte>, c: seq<byte>)
    ensures (a + b) + c == a + (b + c)
  {
  }

  /** Frame `i`'s payload is where its offset says, also in a file that was cut
      short but still reaches that far. */
  lemma PayloadAtStart(rec: seq<Arrival>, i: nat, file: seq<byte>)
    requires i < |rec|
    requires file <= Routed(rec, DataFile(rec[i]))
    requires FrameStart(rec, i) + |Payload(rec[i])| <= |file|
    ensures file[FrameStart(rec, i)..FrameStart(rec, i) + |Payload(rec[i])|] == Payload(rec[i])
  {
    hide FrameType, Payload;
    var d, start := DataFile(rec[i]), FrameStart(rec, i);
    assert rec == rec[..i + 1] + rec[i + 1..];
    RoutedConcat(rec[..i + 1], rec[i + 1..], d);
    assert Init(rec[..i + 1]) == rec[..i];
    var whole := Routed(rec, d);
    assert whole[start..start + |Payload(rec[i])|] == Payload(rec[i]);
    assert file == whole[..|file|];
  }

  /** Payload bytes of all frames. */
  function PayloadBytes(rec: seq<Arrival>): nat
  {
    if rec == [] then 0 else PayloadBytes(Init(rec)) + |Payload(Last(rec))|
  }

  /** No payload byte is lost, duplicated or written to two files. */
  lemma {:induction false} BytesConserved(rec: seq<Arrival>)
    ensures |Routed(rec, BDAT)| + |Routed(rec, MDAT)| + |Routed(rec, TDAT)| + |Routed(rec, EDAT)|
         == PayloadBytes(rec)
  {
    hide Payload;
    if rec != [] {
      BytesConserved(Init(rec));
    }
  }

  // ---------- Multi-frame streams ----------

  /** The stream being received, if `size > 0`. */
  datatype CurStream = CurStream(start: nat, size: nat, curSize: nat, isEvent: bool, discard: bool)

  /** Frames `first..end` made a stream of `length` bytes at `start`. */
  datatype Span = Span(first: nat, end: nat, start: nat, length: nat)

  /** The stream bookkeeping after some frames: the ongoing stream and the frame it
      started with, and the finished traces and histograms. */
  datatype Scan = Scan(cur: CurStream, first: nat, traces: seq<Span>, hists: seq<Span>)

  const NO_STREAM := CurStream(0, 0, 0, false, false)

  predicate IsStreamFrame(a: Arrival)
  {
    !a.err && (IsTraceLong(a.pkt) || IsMca(a.pkt))
  }

  /** The size a stream's header declares. */
  function Declared(a: Arrival): nat
  {
    if IsTraceLong(a.pkt) then TraceSize(a.pkt) else McaSize(a.pkt)
  }

  predicate Continues(cur: CurStream, a: Arrival)
  {
    && ((IsTraceLong(a.pkt) && cur.isEvent) || (IsMca(a.pkt) && !cur.isEvent))
    && cur.size > 0 && !IsHeader(a.pkt) && a.missed == 0
  }

  predicate Starts(cur: CurStream, a: Arrival)
  {
    (IsTraceLong(a.pkt) || IsMca(a.pkt)) && IsHeader(a.pkt) && cur.size == 0
  }

  /** Receives `a`, whose payload starts at `start` in its data file, as frame `i`. */
  function ScanFrame(s: Scan, a: Arrival, i: nat, start: nat): Scan
  {
    if a.err then s
    else if Starts(s.cur, a) then
      Receive(s.(cur := CurStream(start, Declared(a), s.cur.curSize, IsTraceLong(a.pkt), false),
                 first := i), a, i)
    else if Continues(s.cur, a) then Receive(s, a, i)
    else if s.cur.size > 0 then s.(cur := Dropped(s.cur))
    else if IsStreamFrame(a) then s.(cur := s.cur.(discard := true))
    else s
  }

  function Dropped(cur: CurStream): CurStream
  {
    cur.(size := 0, curSize := 0, discard := true)
  }

  /** Adds `a` to the ongoing stream, which it may finish or overrun. */
  function Receive(s: Scan, a: Arrival, i: nat): Scan
  {
    var size := s.cur.curSize + |Payload(a)|;
    if size > s.cur.size then s.(cur := Dropped(s.cur))
    else if size < s.cur.size then s.(cur := s.cur.(curSize := size))
    else
      var done := Span(s.first, i + 1, s.cur.start, s.cur.size);
      var idle := s.(cur := s.cur.(size := 0, curSize := 0));
      if s.cur.isEvent then idle.(traces := s.traces + [done])
      else idle.(hists := s.hists + [done])
  }

  function ScanOf(rec: seq<Arrival>): Scan
  {
    if rec == [] then Scan(NO_STREAM, 0, [], [])
    else
      var i := |rec| - 1;
      ScanFrame(ScanOf(rec[..i]), rec[i], i, FrameStart(rec, i))
  }

  function EncodeSpans(spans: seq<Span>): (s: seq<byte>)
    ensures |s| == SIDX_LEN * |spans|
  {
    if spans == [] then []
    else EncodeSpans(Init(spans)) + EncodeSpan(Last(spans))
  }

  function EncodeSpan(s: Span): (b: seq<byte>)
    ensures |b| == SIDX_LEN
  {
    Encode(s.start, 8) + Encode(s.length, 8)
  }

  // ---------- Tick index ----------

  /** First and last event frame since the last tick, and how many there were. */
  datatype TickScan = TickScan(start: nat, stop: nat, nframes: nat)

  function TickFrame(t: TickScan, a: Arrival, i: nat): TickScan
  {
    if IsGoodTick(a) then t.(nframes := 0)
    else if !IsEventFrame(a) then t
    else if t.nframes == 0 then TickScan(i % U32, t.stop, 1)
    else TickScan(t.start, i % U32, (t.nframes + 1) % U32)
  }

  function TickScanOf(rec: seq<Arrival>): TickScan
  {
    if rec == [] then TickScan(0, 0, 0)
    else TickFrame(TickScanOf(Init(rec)), Last(rec), |rec| - 1)
  }

  function TickCount(rec: seq<Arrival>): nat
  {
    if rec == [] then 0
    else TickCount(Init(rec)) + (if IsGoodTick(Last(rec)) then 1 else 0)
  }

  function EncodeTick(t: TickScan): (b: seq<byte>)
    ensures |b| == TIDX_LEN
  {
    Encode(t.start, 4) + Encode(t.stop, 4)
  }

  /** Every tick but the first closes an interval. */
  function TickFile(rec: seq<Arrival>): seq<byte>
  {
    if rec == [] then []
    else TickFile(Init(rec)) +
         (if IsGoodTick(Last(rec)) && TickCount(Init(rec)) > 0
          then EncodeTick(TickScanOf(Init(rec))) else [])
  }

  // ---------- Frame index ----------

  /** Type and size of the last event frame; the size is kept in 8 bits, and both
      outlive the job. */
  datatype PrevEvent = PrevEvent(etype: nat, esize: nat)

  function PrevEventOf(rec: seq<Arrival>, before: PrevEvent): PrevEvent
  {
    if rec == [] then before
    else if IsEventFrame(Last(rec)) then
      PrevEvent(FrameType(Last(rec)), Last(rec).pkt.esize % 0x100)
    else PrevEventOf(Init(rec), before)
  }

  datatype FrameIndex = FrameIndex(start: nat, length: nat, esize: nat, changed: nat, ftype: nat)

  /** The bit fields of the type byte. */
  function TypeByte(pt: nat, reserved: nat, hdr: bool, seqErr: bool): nat
  {
    pt + 0x10 * reserved + (if hdr then 0x40 else 0) + (if seqErr then 0x80 else 0)
  }

  /** The index record of `a`, recorded after `rec`. */
  function RecordOf(rec: seq<Arrival>, a: Arrival, before: PrevEvent): FrameIndex
  {
    var prev := PrevEventOf(rec, before);
    var changed := IsEventFrame(a) && |rec| > 0 && prev != PrevEvent(FrameType(a), a.pkt.esize);
    var starts := !a.err && Starts(ScanOf(rec).cur, a);
    FrameIndex(
      |Routed(rec, DataFile(a))|,
      |Payload(a)|,
      a.pkt.esize,
      if changed then 1 else 0,
      TypeByte(FrameType(a), a.stale % 4, starts || a.stale >= 4, a.missed > 0))
  }

  function EncodeRecord(x: FrameIndex): (b: seq<byte>)
    ensures |b| == FIDX_LEN
  {
    Encode(x.start, 8) + Encode(x.length, 4) + Encode(x.esize, 2) +
    Encode(x.changed, 1) + Encode(x.ftype, 1)
  }

  function DecodeRecord(b: seq<byte>): FrameIndex
    requires |b| == FIDX_LEN
  {
    FrameIndex(Decode(b[..8]), Decode(b[8..12]), Decode(b[12..14]), Decode(b[14..15]), Decode(b[15..]))
  }

  function FrameIndexFile(rec: seq<Arrival>, before: PrevEvent): (s: seq<byte>)
    ensures |s| == FIDX_LEN * |rec|
  {
    if rec == [] then []
    else FrameIndexFile(Init(rec), before) + EncodeRecord(RecordOf(Init(rec), Last(rec), before))
  }

  // ---------- All files and counters ----------

  /** What is to be written to dataset `d`. */
  function Contents(rec: seq<Arrival>, before: PrevEvent, d: Dset): seq<byte>
  {
    if d == FIDX then FrameIndexFile(rec, before)
    else if d == MIDX then EncodeSpans(ScanOf(rec).hists)
    else if d == RIDX then EncodeSpans(ScanOf(rec).traces)
    else if d == TIDX then TickFile(rec)
    else Routed(rec, d)
  }

  datatype Stats = Stats(ticks: nat, events: nat, traces: nat, hists: nat, frames: nat, lost: nat)

  /** Events in frames that hold whole events. */
  function ShortEvents(rec: seq<Arrival>): nat
  {
    if rec == [] then 0 else ShortEvents(Init(rec)) + EventsIn(Last(rec))
  }

  function EventsIn(a: Arrival): nat
  {
    if IsEventFrame(a) && !IsTraceLong(a.pkt) then
      GoodFrame(a.pkt);
      EventNums(a.pkt)
    else 0
  }

  function FramesLost(rec: seq<Arrival>): nat
  {
    if rec == [] then 0 else FramesLost(Init(rec)) + Last(rec).missed
  }

  function StatsOf(rec: seq<Arrival>): Stats
  {
    var s := ScanOf(rec);
    Stats(TickCount(rec), |s.traces| + ShortEvents(rec), |s.traces|, |s.hists|, |rec|, FramesLost(rec))
  }

  // ---------- One more frame ----------

  /** The bookkeeping after `a`, recorded after `rec`. */
  function NextScan(rec: seq<Arrival>, a: Arrival): Scan
  {
    ScanFrame(ScanOf(rec), a, |rec|, |Routed(rec, DataFile(a))|)
  }

  /** No finished stream is forgotten. */
  lemma FrameKeepsSpans(s: Scan, a: Arrival, i: nat, start: nat)
    ensures s.traces <= ScanFrame(s, a, i, start).traces
    ensures s.hists <= ScanFrame(s, a, i, start).hists
  {
  }

  function TickPart(rec: seq<Arrival>, a: Arrival): seq<byte>
  {
    if IsGoodTick(a) && TickCount(rec) > 0 then EncodeTick(TickScanOf(rec)) else []
  }

  lemma OneMoreScan(rec: seq<Arrival>, a: Arrival)
    ensures ScanOf(rec + [a]) == NextScan(rec, a)
  {
    assert (rec + [a])[..|rec|] == rec;
  }

  lemma OneMoreContents(rec: seq<Arrival>, a: Arrival, before: PrevEvent, d: Dset)
    ensures Contents(rec + [a], before, d) ==
              if d == FIDX then Contents(rec, before, d) + EncodeRecord(RecordOf(rec, a, before))
              else if d == MIDX then EncodeSpans(NextScan(rec, a).hists)
              else if d == RIDX then EncodeSpans(NextScan(rec, a).traces)
              else if d == TIDX then Contents(rec, before, d) + TickPart(rec, a)
              else Contents(rec, before, d) + Part(a, d)
  {
    OneMoreScan(rec, a);
    assert Init(rec + [a]) == rec;
  }

  lemma OneMoreTick(rec: seq<Arrival>, a: Arrival, before: PrevEvent)
    ensures TickScanOf(rec + [a]) == TickFrame(TickScanOf(rec), a, |rec|)
    ensures PrevEventOf(rec + [a], before) ==
              if IsEventFrame(a) then PrevEvent(FrameType(a), a.pkt.esize % 0x100)
              else PrevEventOf(rec, before)
  {
    assert Init(rec + [a]) == rec;
  }

  lemma OneMoreStats(rec: seq<Arrival>, a: Arrival)
    ensures StatsOf(rec + [a]) ==
              Stats(TickCount(rec) + (if IsGoodTick(a) then 1 else 0),
                    |NextScan(rec, a).traces| + ShortEvents(rec) + EventsIn(a),
                    |NextScan(rec, a).traces|, |NextScan(rec, a).hists|,
                    |rec| + 1, FramesLost(rec) + a.missed)
  {
    OneMoreScan(rec, a);
    assert Init(rec + [a]) == rec;
  }
}
