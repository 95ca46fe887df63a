/** The frame index and the tick index tell the truth about the data files. */
module CaptureIndex {
  import opened Basics
  import opened Bytes
  import opened Frames
  import opened CaptureFiles

  // ---------- Frame index ----------

  predicate FitsRecord(x: FrameIndex)
  {
    x.start < U64 && x.length < U32 && x.esize < U16 && x.changed < 0x100 && x.ftype < 0x100
  }

  lemma DecodeEncodeRecord(x: FrameIndex)
    requires FitsRecord(x)
    ensures DecodeRecord(EncodeRecord(x)) == x
  {
    Ranges();
    DecodeEncode(x.start, 8);
    DecodeEncode(x.length, 4);
    DecodeEncode(x.esize, 2);
    DecodeEncode(x.changed, 1);
    DecodeEncode(x.ftype, 1);
    var b := EncodeRecord(x);
    assert b[..8] == Encode(x.start, 8);
    assert b[8..12] == Encode(x.length, 4);
    assert b[12..14] == Encode(x.esize, 2);
    assert b[14..15] == Encode(x.changed, 1);
    assert b[15..] == Encode(x.ftype, 1);
  }

  /** Where the fields are in the sixteen bytes. */
  lemma RecordLayout(x: FrameIndex)
    ensures var b := EncodeRecord(x);
            && b[0..8] == Encode(x.start, 8) && b[8..12] == Encode(x.length, 4)
            && b[12..14] == Encode(x.esize, 2) && b[14..15] == Encode(x.changed, 1) && b[15..16] == Encode(x.ftype, 1)
  {
  }

  /** Bytes of record `i`. */
  function RecordBytes(fidx: seq<byte>, i: nat): (b: seq<byte>)
    requires FIDX_LEN * (i + 1) <= |fidx|
    ensures |b| == FIDX_LEN
  {
    fidx[FIDX_LEN * i..FIDX_LEN * (i + 1)]
  }

  lemma {:induction false} RecordAt(rec: seq<Arrival>, before: PrevEvent, i: nat)
    requires i < |rec|
    ensures RecordBytes(FrameIndexFile(rec, before), i) == EncodeRecord(RecordOf(rec[..i], rec[i], before))
    decreases |rec|
  {
    hide RecordOf, EncodeRecord;
    var init := Init(rec);
    if i < |init| {
      RecordAt(init, before, i);
      assert init[..i] == rec[..i];
      assert RecordBytes(FrameIndexFile(rec, before), i) == RecordBytes(FrameIndexFile(init, before), i);
    } else {
      assert init == rec[..i];
    }
  }

  /** Data files are addressed with 64-bit offsets. */
  predicate Addressable(rec: seq<Arrival>)
  {
    forall d: Dset :: |Routed(rec, d)| < U64
  }

  lemma StartInFile(rec: seq<Arrival>, i: nat)
    requires i < |rec|
    ensures FrameStart(rec, i) + |Payload(rec[i])| <= |Routed(rec, DataFile(rec[i]))|
  {
    assert rec == rec[..i + 1] + rec[i + 1..];
    RoutedConcat(rec[..i + 1], rec[i + 1..], DataFile(rec[i]));
    assert Init(rec[..i + 1]) == rec[..i];
  }

  lemma RecordFits(rec: seq<Arrival>, before: PrevEvent, i: nat)
    requires i < |rec| && Addressable(rec)
    ensures FitsRecord(RecordOf(rec[..i], rec[i], before))
  {
    StartInFile(rec, i);
  }

  /** The type in the type byte, as the bit field reads it. */
  function TypeOf(x: FrameIndex): nat
  {
    x.ftype % 0x10
  }

  predicate HdrBit(x: FrameIndex) { x.ftype / 0x40 % 2 == 1 }

  lemma TypeByteFields(pt: nat, reserved: nat, hdr: bool, seqErr: bool)
    requires pt < 0x10 && reserved < 4
    ensures TypeByte(pt, reserved, hdr, seqErr) % 0x10 == pt
    ensures TypeByte(pt, reserved, hdr, seqErr) < 0x100
    ensures TypeByte(pt, reserved, hdr, seqErr) / 0x40 % 2 == 1 <==> hdr
    ensures TypeByte(pt, reserved, hdr, seqErr) >= 0x80 <==> seqErr
  {
  }

  /** Record `i` of the index file, which may have been cut short after it. */
  lemma RecordDecoded(rec: seq<Arrival>, before: PrevEvent, i: nat, fidx: seq<byte>)
    requires i < |rec| && Addressable(rec)
    requires fidx <= FrameIndexFile(rec, before) && FIDX_LEN * (i + 1) <= |fidx|
    ensures DecodeRecord(RecordBytes(fidx, i)) == RecordOf(rec[..i], rec[i], before)
  {
    RecordAt(rec, before, i);
    assert RecordBytes(fidx, i) == RecordBytes(FrameIndexFile(rec, before), i);
    RecordFits(rec, before, i);
    DecodeEncodeRecord(RecordOf(rec[..i], rec[i], before));
  }

  /** What a record says about a frame. */
  predicate Describes(x: FrameIndex, rec: seq<Arrival>, i: nat)
    requires i < |rec|
  {
    && x.start == FrameStart(rec, i)
    && x.length == |Payload(rec[i])|
    && x.esize == rec[i].pkt.esize
    && TypeOf(x) == FrameType(rec[i])
    && (x.ftype >= 0x80 <==> rec[i].missed > 0)
    && (HdrBit(x) <==> (!rec[i].err && Starts(ScanOf(rec[..i]).cur, rec[i])) || rec[i].stale >= 4)
  }

  lemma RecordDescribes(rec: seq<Arrival>, before: PrevEvent, i: nat)
    requires i < |rec|
    ensures Describes(RecordOf(rec[..i], rec[i], before), rec, i)
  {
    TypeByteFields(FrameType(rec[i]), rec[i].stale % 4,
                   (!rec[i].err && Starts(ScanOf(rec[..i]).cur, rec[i])) || rec[i].stale >= 4,
                   rec[i].missed > 0);
  }

  /** Record `i` of the frame index is about frame `i`: it names the frame's data
      file, and its range of that file is exactly the frame's payload. Both files
      may have been cut short by a failed write, as long as they reach that far. */
  lemma FrameIndexIsExact(rec: seq<Arrival>, before: PrevEvent, i: nat, fidx: seq<byte>, dat: seq<byte>)
    requires i < |rec| && Addressable(rec)
    requires fidx <= FrameIndexFile(rec, before) && FIDX_LEN * (i + 1) <= |fidx|
    requires dat <= Routed(rec, DataFile(rec[i]))
    ensures var x := DecodeRecord(RecordBytes(fidx, i));
            && Describes(x, rec, i)
            && (x.start + x.length <= |dat| ==> dat[x.start..x.start + x.length] == Payload(rec[i]))
  {
    hide FrameIndexFile, Routed, ScanOf, Starts, HdrBit, TypeOf, RecordOf, DecodeRecord, RecordBytes, Addressable,
      Payload;
    RecordDecoded(rec, before, i, fidx);
    RecordDescribes(rec, before, i);
    var x := DecodeRecord(RecordBytes(fidx, i));
    if x.start + x.length <= |dat| {
      PayloadAtStart(rec, i, dat);
    }
  }

  /** The flag for a change of event type or size compares an event frame with the
      previous event frame of the job. */
  lemma ChangedFlag(rec: seq<Arrival>, before: PrevEvent, p: nat, a: Arrival)
    requires p < |rec| && IsEventFrame(rec[p]) && NoEventFrame(rec, p + 1, |rec|)
    requires IsEventFrame(a)
    ensures RecordOf(rec, a, before).changed == 1 <==>
              FrameType(a) != FrameType(rec[p]) || a.pkt.esize != rec[p].pkt.esize
  {
    PrevEventAt(rec, before, p);
    GoodFrame(rec[p].pkt);
  }

  lemma {:induction false} PrevEventAt(rec: seq<Arrival>, before: PrevEvent, p: nat)
    requires p < |rec| && IsEventFrame(rec[p]) && NoEventFrame(rec, p + 1, |rec|)
    ensures PrevEventOf(rec, before) == PrevEvent(FrameType(rec[p]), rec[p].pkt.esize % 0x100)
  {
    if p < |rec| - 1 {
      assert NoEventFrame(Init(rec), p + 1, |rec| - 1);
      PrevEventAt(Init(rec), before, p);
    }
  }

  /** For the first event frame of a job the flag depends on the last event frame
      of an earlier job: the same recording gets it set or not. */
  lemma ChangedFlagIsStale(rec: seq<Arrival>, a: Arrival)
    requires rec != [] && NoEventFrame(rec, 0, |rec|) && IsEventFrame(a)
    ensures RecordOf(rec, a, PrevEvent(FrameType(a), a.pkt.esize)).changed == 0
    ensures RecordOf(rec, a, PrevEvent(FrameType(a), a.pkt.esize + 1)).changed == 1
  {
    PrevEventStale(rec, PrevEvent(FrameType(a), a.pkt.esize));
    PrevEventStale(rec, PrevEvent(FrameType(a), a.pkt.esize + 1));
  }

  lemma {:induction false} PrevEventStale(rec: seq<Arrival>, before: PrevEvent)
    requires NoEventFrame(rec, 0, |rec|)
    ensures PrevEventOf(rec, before) == before
  {
    if rec != [] {
      assert NoEventFrame(Init(rec), 0, |rec| - 1);
      PrevEventStale(Init(rec), before);
    }
  }

  /** In files that were written completely the ranges of a data file's frames
      follow each other without gaps. */
  lemma FrameRangesTile(rec: seq<Arrival>, i: nat, j: nat)
    requires i < j < |rec| && DataFile(rec[i]) == DataFile(rec[j])
    requires forall k :: i < k < j ==> DataFile(rec[k]) != DataFile(rec[i])
    ensures FrameStart(rec, j) == FrameStart(rec, i) + |Payload(rec[i])|
  {
    hide FrameType, Payload;
    var d := DataFile(rec[i]);
    assert rec[..j] == rec[..i + 1] + rec[i + 1..j];
    RoutedConcat(rec[..i + 1], rec[i + 1..j], d);
    assert Init(rec[..i + 1]) == rec[..i];
    NothingRouted(rec[i + 1..j], d);
  }

  lemma {:induction false} NothingRouted(rec: seq<Arrival>, d: Dset)
    requires forall k :: 0 <= k < |rec| ==> DataFile(rec[k]) != d
    ensures Routed(rec, d) == []
  {
    if rec != [] {
      NothingRouted(Init(rec), d);
    }
  }

  // ---------- Tick index ----------

  /** No tick among frames `lo..hi`. */
  predicate NoTick(rec: seq<Arrival>, lo: nat, hi: nat)
    requires hi <= |rec|
  {
    forall k :: lo <= k < hi ==> !IsGoodTick(rec[k])
  }

  predicate NoEventFrame(rec: seq<Arrival>, lo: nat, hi: nat)
    requires hi <= |rec|
  {
    forall k :: lo <= k < hi ==> !IsEventFrame(rec[k])
  }

  /** Frames `f` and `l` are the first and the last event frame after tick `p`. */
  predicate EventInterval(rec: seq<Arrival>, p: nat, f: nat, l: nat)
  {
    && p < f <= l < |rec| && IsGoodTick(rec[p]) && NoTick(rec, p + 1, |rec|)
    && IsEventFrame(rec[f]) && NoEventFrame(rec, p + 1, f)
    && IsEventFrame(rec[l]) && NoEventFrame(rec, l + 1, |rec|)
  }

  lemma {:induction false} NoFrameYet(rec: seq<Arrival>, p: nat)
    requires p < |rec| && IsGoodTick(rec[p])
    requires NoTick(rec, p + 1, |rec|) && NoEventFrame(rec, p + 1, |rec|)
    ensures TickScanOf(rec).nframes == 0
  {
    if p < |rec| - 1 {
      NoFrameYet(Init(rec), p);
    }
  }

  lemma IntervalBefore(rec: seq<Arrival>, p: nat, f: nat, l: nat) returns (m: nat)
    requires EventInterval(rec, p, f, l) && f < |rec| - 1
    ensures EventInterval(Init(rec), p, f, m)
    ensures if l < |rec| - 1 then m == l else m < l
  {
    var init := Init(rec);
    if l < |rec| - 1 {
      m := l;
    } else {
      m := LastEventFrame(init, f);
    }
    assert NoTick(init, p + 1, |init|);
    assert NoEventFrame(init, m + 1, |init|);
  }

  lemma MoreEvents(t: TickScan, a: Arrival, i: nat)
    requires 0 < t.nframes < U32 - 1 && i < U32 && !IsGoodTick(a)
    ensures TickFrame(t, a, i) ==
              if IsEventFrame(a) then TickScan(t.start, i, t.nframes + 1) else t
  {
  }

  lemma {:induction false} TickScanIsExact(rec: seq<Arrival>, p: nat, f: nat, l: nat)
    requires EventInterval(rec, p, f, l) && |rec| < U32
    ensures TickScanOf(rec).start == f
    ensures 0 < TickScanOf(rec).nframes <= |rec| - p
    ensures f < l ==> TickScanOf(rec).stop == l
    decreases |rec|
  {
    var init, i := Init(rec), |rec| - 1;
    if f == i {
      assert NoTick(init, p + 1, i) && NoEventFrame(init, p + 1, i);
      NoFrameYet(init, p);
    } else {
      var m := IntervalBefore(rec, p, f, l);
      TickScanIsExact(init, p, f, m);
      assert IsEventFrame(rec[i]) <==> l == i;
      assert !IsGoodTick(rec[i]);
      MoreEvents(TickScanOf(init), rec[i], i);
    }
  }

  lemma {:induction false} LastEventFrame(rec: seq<Arrival>, f: nat) returns (m: nat)
    requires f < |rec| && IsEventFrame(rec[f])
    ensures f <= m < |rec| && IsEventFrame(rec[m]) && NoEventFrame(rec, m + 1, |rec|)
  {
    if IsEventFrame(Last(rec)) {
      m := |rec| - 1;
    } else {
      m := LastEventFrame(Init(rec), f);
    }
  }

  /** With no event frame since tick `p` nothing was noted since. */
  lemma {:induction false} EmptyInterval(rec: seq<Arrival>, p: nat)
    requires p < |rec| && NoEventFrame(rec, p, |rec|)
    ensures TickScanOf(rec).start == TickScanOf(rec[..p]).start
    ensures TickScanOf(rec).stop == TickScanOf(rec[..p]).stop
  {
    var init := Init(rec);
    if p < |init| {
      assert init[..p] == rec[..p];
      EmptyInterval(init, p);
    } else {
      assert init == rec[..p];
    }
  }

  lemma {:induction false} StopInPast(rec: seq<Arrival>)
    requires 0 < |rec| < U32
    ensures TickScanOf(rec).stop < |rec|
  {
    if |rec| > 1 {
      StopInPast(Init(rec));
    }
  }

  /** With one event frame since the last tick the number of the last frame is an
      earlier one. */
  lemma {:induction false} SingleFrame(rec: seq<Arrival>, p: nat, f: nat)
    requires EventInterval(rec, p, f, f) && |rec| < U32
    ensures TickScanOf(rec).stop < f
    decreases |rec|
  {
    var init := Init(rec);
    if f == |init| {
      StopInPast(init);
      assert NoTick(init, p + 1, f) && NoEventFrame(init, p + 1, f);
      NoFrameYet(init, p);
    } else {
      assert EventInterval(init, p, f, f);
      SingleFrame(init, p, f);
    }
  }

  lemma EncodeTickInjective(t: TickScan, f: nat, l: nat)
    requires t.start < U32 && t.stop < U32 && f < U32 && l < U32
    ensures EncodeTick(t) == Encode(f, 4) + Encode(l, 4) <==> t.start == f && t.stop == l
  {
    Ranges();
    DecodeEncode(t.start, 4);
    DecodeEncode(t.stop, 4);
    DecodeEncode(f, 4);
    DecodeEncode(l, 4);
    assert EncodeTick(t)[..4] == Encode(t.start, 4) && EncodeTick(t)[4..] == Encode(t.stop, 4);
    var x := Encode(f, 4) + Encode(l, 4);
    assert x[..4] == Encode(f, 4) && x[4..] == Encode(l, 4);
  }

  /** A tick that ends an interval writes the numbers of its first and its last event
      frame to the tick index if and only if there are at least two. */
  lemma TickIndexIsExact(rec: seq<Arrival>, tick: Arrival, p: nat, f: nat, l: nat)
    requires EventInterval(rec, p, f, l) && |rec| < U32
    requires IsGoodTick(tick)
    ensures TickFile(rec + [tick]) == TickFile(rec) + (Encode(f, 4) + Encode(l, 4)) <==> f < l
  {
    hide Encode, EncodeTick, NoTick, NoEventFrame, FrameType;
    TickScanIsExact(rec, p, f, l);
    if f == l {
      SingleFrame(rec, p, f);
    }
    TickSeen(rec, p);
    assert Init(rec + [tick]) == rec;
    var t := TickScanOf(rec);
    EncodeTickInjective(t, f, l);
    CancelPrefix(TickFile(rec), EncodeTick(t), Encode(f, 4) + Encode(l, 4));
  }

  lemma CancelPrefix(a: seq<byte>, b: seq<byte>, c: seq<byte>)
    ensures a + b == a + c <==> b == c
  {
    if a + b == a + c {
      assert b == (a + b)[|a|..] && c == (a + c)[|a|..];
    }
  }

  /** A tick that ends an interval without event frames repeats the numbers of the
      interval before. */
  lemma EmptyIntervalRepeats(rec: seq<Arrival>, tick: Arrival, p: nat)
    requires p < |rec| && IsGoodTick(rec[p]) && NoEventFrame(rec, p, |rec|) && IsGoodTick(tick)
    ensures TickFile(rec + [tick]) == TickFile(rec) + EncodeTick(TickScanOf(rec[..p]))
  {
    EmptyInterval(rec, p);
    TickSeen(rec, p);
    assert Init(rec + [tick]) == rec;
  }

  lemma {:induction false} TickSeen(rec: seq<Arrival>, p: nat)
    requires p < |rec| && IsGoodTick(rec[p])
    ensures TickCount(rec) > 0
  {
    if p < |rec| - 1 {
      TickSeen(Init(rec), p);
    }
  }

  // ---------- Counters ----------

  lemma {:induction false} TickFileLength(rec: seq<Arrival>)
    ensures |TickFile(rec)| == TIDX_LEN * (if TickCount(rec) > 0 then TickCount(rec) - 1 else 0)
  {
    if rec != [] {
      TickFileLength(Init(rec));
    }
  }

  /** The counters in the reply match the sizes of the files. */
  lemma CountersMatchFiles(rec: seq<Arrival>, before: PrevEvent)
    ensures var st := StatsOf(rec);
            && |Contents(rec, before, FIDX)| == FIDX_LEN * st.frames
            && |Contents(rec, before, RIDX)| == SIDX_LEN * st.traces
            && |Contents(rec, before, MIDX)| == SIDX_LEN * st.hists
            && |Contents(rec, before, TIDX)| == TIDX_LEN * (if st.ticks > 0 then st.ticks - 1 else 0)
            && st.traces <= st.events
            && |Contents(rec, before, BDAT)| + |Contents(rec, before, MDAT)|
             + |Contents(rec, before, TDAT)| + |Contents(rec, before, EDAT)| == PayloadBytes(rec)
  {
    hide ScanOf, Routed, FrameIndexFile, EncodeSpans, TickFile, TickCount, ShortEvents, FramesLost, PayloadBytes;
    TickFileLength(rec);
    BytesConserved(rec);
  }
}
