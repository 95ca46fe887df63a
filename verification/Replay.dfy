/** Reading a capture back: the replay tool walks the frame index and rebuilds the
    frames from the data files. */
module Replay {
  import opened Basics
  import opened Bytes
  import opened Frames
  import opened CaptureFiles
  import opened CaptureIndex

  /** A frame as it is injected: the header fields the tool sets and the payload. */
  datatype Injected = Injected(
    etherType: u16, length: nat, esize: nat, tick: bool, pkt: bits2, tr: bits2, payload: seq<byte>)

  /** What the tool does with an index record. */
  datatype Step =
    | Inject(f: Injected)
    | Skip           // a bad frame, or a type it does not know
    | Stop           // the payload is too long, or cannot be found in the data file

  const SEEK_LIMIT: nat := 0x8000_0000  // the result of lseek is kept in an int

  /** A stretch of a file that can be found and read. */
  predicate Reaches(file: seq<byte>, start: nat, len: nat)
  {
    start < SEEK_LIMIT && start + len <= |file|
  }

  /** The data file for type `pt`. */
  function DataOf(pt: nat, tdat: seq<byte>, mdat: seq<byte>, edat: seq<byte>): seq<byte>
  {
    if pt < FTYPE_TICK then edat else if pt == FTYPE_TICK then tdat else mdat
  }

  function ReplayRecord(x: FrameIndex, tdat: seq<byte>, mdat: seq<byte>, edat: seq<byte>): Step
  {
    var len := x.length % U16;
    var pt := TypeOf(x);
    if len > MTU - HDR_LEN then Stop
    else if pt > FTYPE_MCA then Skip
    else
      var dat := DataOf(pt, tdat, mdat, edat);
      if !Reaches(dat, x.start, len) then Stop
      else Inject(Injected(
        if pt == FTYPE_MCA then ETHERTYPE_MCA else ETHERTYPE_EVENT,
        HDR_LEN + len,
        x.esize,
        pt == FTYPE_TICK,
        if pt < 3 then pt else if pt < FTYPE_TICK then TYPE_TRACE else 0,
        if 3 <= pt < FTYPE_TICK then pt - 3 else 0,
        dat[x.start..x.start + len]))
  }

  /** Frames injected from record `i` on. */
  function ReplayFrom(fidx: seq<byte>, i: nat, tdat: seq<byte>, mdat: seq<byte>, edat: seq<byte>)
    : seq<Injected>
    requires FIDX_LEN * i <= |fidx|
    decreases |fidx| - FIDX_LEN * i
  {
    if |fidx| < FIDX_LEN * (i + 1) then []
    else
      match ReplayRecord(DecodeRecord(RecordBytes(fidx, i)), tdat, mdat, edat)
      case Stop => []
      case Skip => ReplayFrom(fidx, i + 1, tdat, mdat, edat)
      case Inject(f) => [f] + ReplayFrom(fidx, i + 1, tdat, mdat, edat)
  }

  /** One pass over the index. */
  method InjectFromFidx(fidx: seq<byte>, tdat: seq<byte>, mdat: seq<byte>, edat: seq<byte>)
    returns (sent: seq<Injected>)
    ensures sent == ReplayFrom(fidx, 0, tdat, mdat, edat)
  {
    hide ReplayRecord, DecodeRecord;
    sent := [];
    var i := 0;
    while FIDX_LEN * (i + 1) <= |fidx|
      invariant FIDX_LEN * i <= |fidx|
      invariant sent + ReplayFrom(fidx, i, tdat, mdat, edat) == ReplayFrom(fidx, 0, tdat, mdat, edat)
      decreases |fidx| - FIDX_LEN * i
    {
      var step := ReplayRecord(DecodeRecord(RecordBytes(fidx, i)), tdat, mdat, edat);
      match step {
        case Stop =>
          return;
        case Skip =>
        case Inject(f) =>
          sent := sent + [f];
      }
      i := i + 1;
    }
  }

  // ---------- The round trip ----------

  /** The injected frame as a receiver sees it. */
  function AsFrame(f: Injected): Frame
  {
    Frame(f.etherType, f.length % U16, 0, 0, f.esize % U16, f.tick, f.pkt, f.tr,
          f.payload + seq(MTU - HDR_LEN, i => 0))
  }

  predicate SameKind(f: Frame, g: Frame)
  {
    && (IsMca(f) <==> IsMca(g))
    && (IsTick(f) <==> IsTick(g))
    && (IsPeak(f) <==> IsPeak(g))
    && (IsArea(f) <==> IsArea(g))
    && (IsPulse(f) <==> IsPulse(g))
    && (IsTrace(f) <==> IsTrace(g))
    && (IsTrace(f) ==> f.tr == g.tr)
  }

  /** The injected frame is the captured one: kind, event size, length, payload. */
  predicate Restores(f: Injected, a: Arrival)
  {
    && SameKind(AsFrame(f), a.pkt)
    && f.esize == a.pkt.esize
    && f.length == a.flen
    && f.payload == Payload(a)
  }

  /** The good frames among those captured. */
  function GoodFrames(rec: seq<Arrival>): seq<Arrival>
  {
    if rec == [] then []
    else (if rec[0].err then [] else [rec[0]]) + GoodFrames(rec[1..])
  }

  /** The linear type code loses nothing about a good frame's kind. */
  lemma KindRestored(f: Injected, a: Arrival)
    requires !a.err
    requires var pt := FrameType(a);
             && f.etherType == (if pt == FTYPE_MCA then ETHERTYPE_MCA else ETHERTYPE_EVENT)
             && f.tick == (pt == FTYPE_TICK)
             && f.pkt == (if pt < 3 then pt else if pt < FTYPE_TICK then TYPE_TRACE else 0)
             && f.tr == (if 3 <= pt < FTYPE_TICK then pt - 3 else 0)
    ensures SameKind(AsFrame(f), a.pkt)
  {
  }

  lemma TypeOfFrame(a: Arrival)
    ensures FrameType(a) == FTYPE_BAD <==> a.err
  {
  }

  /** What is injected for a record of type `pt`. */
  function InjectedAs(pt: nat, esize: nat, payload: seq<byte>): Injected
  {
    Injected(
      if pt == FTYPE_MCA then ETHERTYPE_MCA else ETHERTYPE_EVENT,
      HDR_LEN + |payload|,
      esize,
      pt == FTYPE_TICK,
      if pt < 3 then pt else if pt < FTYPE_TICK then TYPE_TRACE else 0,
      if 3 <= pt < FTYPE_TICK then pt - 3 else 0,
      payload)
  }

  lemma RecordInjected(x: FrameIndex, tdat: seq<byte>, mdat: seq<byte>, edat: seq<byte>, payload: seq<byte>)
    requires TypeOf(x) <= FTYPE_MCA && x.length == |payload| <= MTU - HDR_LEN
    requires var dat := DataOf(TypeOf(x), tdat, mdat, edat);
             Reaches(dat, x.start, x.length) && dat[x.start..x.start + x.length] == payload
    ensures ReplayRecord(x, tdat, mdat, edat) == Inject(InjectedAs(TypeOf(x), x.esize, payload))
  {
    hide TypeOf;
  }

  lemma GoodReplayed(x: FrameIndex, a: Arrival, tdat: seq<byte>, mdat: seq<byte>, edat: seq<byte>)
    requires !a.err && TypeOf(x) == FrameType(a) && x.esize == a.pkt.esize && x.length == |Payload(a)|
    requires var dat := DataOf(TypeOf(x), tdat, mdat, edat);
             Reaches(dat, x.start, x.length) && dat[x.start..x.start + x.length] == Payload(a)
    ensures var step := ReplayRecord(x, tdat, mdat, edat);
            step.Inject? && Restores(step.f, a)
  {
    TypeOfFrame(a);
    LengthOf(a);
    hide FrameType, Payload, SameKind, TypeOf, ReplayRecord, DataOf;
    RecordInjected(x, tdat, mdat, edat, Payload(a));
    KindRestored(InjectedAs(TypeOf(x), x.esize, Payload(a)), a);
  }

  /** The tool stops exactly at a record whose payload is too long or, for a type it knows,
      starts too far into its data file or does not end there. */
  lemma StopsIff(x: FrameIndex, tdat: seq<byte>, mdat: seq<byte>, edat: seq<byte>)
    ensures ReplayRecord(x, tdat, mdat, edat).Stop? <==>
              var len, pt := x.length % 65536, TypeOf(x);
              || len > 1472
              || (pt <= 8 && (x.start >= 0x8000_0000
                              || x.start + len > |if pt < 7 then edat else if pt == 7 then tdat else mdat|))
  {
    hide TypeOf;
  }

  lemma BadReplayed(x: FrameIndex, tdat: seq<byte>, mdat: seq<byte>, edat: seq<byte>)
    requires TypeOf(x) == FTYPE_BAD && x.length <= MTU - HDR_LEN
    ensures ReplayRecord(x, tdat, mdat, edat) == Skip
  {
    hide TypeOf;
  }

  /** What there is to replay: how much of the index and of the data files. */
  datatype Sizes = Sizes(fidx: nat, tdat: nat, mdat: nat, edat: nat)

  /** How much there is of the data file of a good frame. */
  function SizeFor(a: Arrival, sz: Sizes): nat
  {
    if a.pkt.etherType == 0x88B6 then sz.mdat else if a.pkt.tick then sz.tdat else sz.edat
  }

  /** The payload of frame `i` lies too far into its file to be found. */
  predicate TooFar(rec: seq<Arrival>, i: nat)
    requires i < |rec|
  {
    !rec[i].err && FrameStart(rec, i) >= SEEK_LIMIT
  }

  /** Or it is not all there. */
  predicate OutOfReach(rec: seq<Arrival>, i: nat, sz: Sizes)
    requires i < |rec|
  {
    TooFar(rec, i) || (!rec[i].err && FrameStart(rec, i) + (rec[i].flen - 24) > SizeFor(rec[i], sz))
  }

  /** What the replay makes of frame `i`. */
  ghost predicate Outcome(step: Step, rec: seq<Arrival>, i: nat, sz: Sizes)
    requires i < |rec|
  {
    if rec[i].err then step.Skip?
    else if OutOfReach(rec, i, sz) then step.Stop?
    else step.Inject? && Restores(step.f, rec[i])
  }

  /** The files are those of a capture, each cut short or not. */
  ghost predicate CutFiles(rec: seq<Arrival>, before: PrevEvent, fidx: seq<byte>,
                           tdat: seq<byte>, mdat: seq<byte>, edat: seq<byte>)
  {
    && fidx <= FrameIndexFile(rec, before)
    && tdat <= Routed(rec, TDAT) && mdat <= Routed(rec, MDAT) && edat <= Routed(rec, EDAT)
  }

  lemma FileForGood(rec: seq<Arrival>, a: Arrival, tdat: seq<byte>, mdat: seq<byte>, edat: seq<byte>, n: nat)
    requires !a.err
    requires tdat <= Routed(rec, TDAT) && mdat <= Routed(rec, MDAT) && edat <= Routed(rec, EDAT)
    ensures FrameType(a) <= FTYPE_MCA
    ensures var dat := DataOf(FrameType(a), tdat, mdat, edat);
            |dat| == SizeFor(a, Sizes(n, |tdat|, |mdat|, |edat|)) && dat <= Routed(rec, DataFile(a))
  {
    hide IsValid, Routed;
    GoodFrame(a.pkt);
  }

  /** When the tool stops at a record of a known type whose payload is not too long. */
  lemma StopsAt(x: FrameIndex, tdat: seq<byte>, mdat: seq<byte>, edat: seq<byte>)
    requires TypeOf(x) <= FTYPE_MCA && x.length <= MTU - HDR_LEN
    ensures ReplayRecord(x, tdat, mdat, edat).Stop? <==>
              !Reaches(DataOf(TypeOf(x), tdat, mdat, edat), x.start, x.length)
  {
    hide TypeOf, DataOf;
  }

  lemma GoodOutcome(x: FrameIndex, rec: seq<Arrival>, i: nat, tdat: seq<byte>, mdat: seq<byte>, edat: seq<byte>,
                    n: nat)
    requires i < |rec| && Describes(x, rec, i) && !rec[i].err
    requires tdat <= Routed(rec, TDAT) && mdat <= Routed(rec, MDAT) && edat <= Routed(rec, EDAT)
    ensures Outcome(ReplayRecord(x, tdat, mdat, edat), rec, i, Sizes(n, |tdat|, |mdat|, |edat|))
  {
    hide Routed, ScanOf, Starts, HdrBit, FrameType, Payload, Restores, TypeOf, ReplayRecord, FrameStart, DataFile,
      SizeFor, DataOf;
    LengthOf(rec[i]);
    FileForGood(rec, rec[i], tdat, mdat, edat, n);
    StopsAt(x, tdat, mdat, edat);
    var dat := DataOf(TypeOf(x), tdat, mdat, edat);
    if Reaches(dat, x.start, x.length) {
      PayloadAtStart(rec, i, dat);
      GoodReplayed(x, rec[i], tdat, mdat, edat);
    }
  }

  lemma LengthOf(a: Arrival)
    ensures |Payload(a)| == a.flen - HDR_LEN
  {
  }

  /** What is made of each record that is in the index: a good frame is injected as it was
      captured, unless its payload cannot be found; a bad one is skipped. */
  lemma RecordReplayed(rec: seq<Arrival>, before: PrevEvent, i: nat, fidx: seq<byte>,
                       tdat: seq<byte>, mdat: seq<byte>, edat: seq<byte>)
    requires CutFiles(rec, before, fidx, tdat, mdat, edat) && Addressable(rec) && FIDX_LEN * (i + 1) <= |fidx|
    ensures i < |rec|
    ensures Outcome(ReplayRecord(DecodeRecord(RecordBytes(fidx, i)), tdat, mdat, edat), rec, i,
                    Sizes(|fidx|, |tdat|, |mdat|, |edat|))
  {
    assert i < |rec|;
    hide ReplayRecord, Outcome, DecodeRecord, FrameType, Payload, FrameIndexFile, Routed, RecordBytes;
    FrameIndexIsExact(rec, before, i, fidx, []);
    var x := DecodeRecord(RecordBytes(fidx, i));
    if rec[i].err {
      BadOutcome(x, rec, i, tdat, mdat, edat, Sizes(|fidx|, |tdat|, |mdat|, |edat|));
    } else {
      GoodOutcome(x, rec, i, tdat, mdat, edat, |fidx|);
    }
  }

  lemma BadOutcome(x: FrameIndex, rec: seq<Arrival>, i: nat, tdat: seq<byte>, mdat: seq<byte>, edat: seq<byte>,
                   sz: Sizes)
    requires i < |rec| && Describes(x, rec, i) && rec[i].err
    ensures Outcome(ReplayRecord(x, tdat, mdat, edat), rec, i, sz)
  {
    TypeOfFrame(rec[i]);
    LengthOf(rec[i]);
    hide FrameType, Payload, TypeOf, ReplayRecord, FrameStart, ScanOf, Starts, HdrBit;
    BadReplayed(x, tdat, mdat, edat);
  }

  /** Every good frame has its record, and its payload can be found. */
  predicate AllInReach(rec: seq<Arrival>, sz: Sizes)
  {
    forall i :: 0 <= i < |rec| && !rec[i].err ==> InReach(rec, i, sz)
  }

  /** Frame `i` has its record, and its payload can be found. */
  predicate InReach(rec: seq<Arrival>, i: nat, sz: Sizes)
    requires i < |rec|
  {
    FIDX_LEN * (i + 1) <= sz.fidx && !OutOfReach(rec, i, sz)
  }

  /** Where a replay that has come to frame `i` ends: with the last record, or with the
      first good frame that is out of reach. */
  function EndOfReplay(rec: seq<Arrival>, i: nat, sz: Sizes): (m: nat)
    requires i <= |rec|
    ensures i <= m <= |rec|
    ensures forall k :: i <= k < m ==> InReach(rec, k, sz)
    ensures m < |rec| ==> !InReach(rec, m, sz)
    decreases |rec| - i
  {
    if i == |rec| || !InReach(rec, i, sz) then i
    else EndOfReplay(rec, i + 1, sz)
  }

  lemma NoGoodFrames()
    ensures GoodFrames([]) == []
  {
  }

  lemma FirstGood(rec: seq<Arrival>, i: nat, m: nat)
    requires i < m <= |rec|
    ensures GoodFrames(rec[i..m]) == (if rec[i].err then [] else [rec[i]]) + GoodFrames(rec[i + 1..m])
  {
    assert rec[i..m][1..] == rec[i + 1..m];
  }

  lemma {:induction false} ReplayedFrom(rec: seq<Arrival>, before: PrevEvent, i: nat, fidx: seq<byte>,
                                        tdat: seq<byte>, mdat: seq<byte>, edat: seq<byte>)
    requires CutFiles(rec, before, fidx, tdat, mdat, edat) && Addressable(rec) && FIDX_LEN * i <= |fidx|
    ensures i <= |rec|
    ensures var sent := ReplayFrom(fidx, i, tdat, mdat, edat);
            var good := GoodFrames(rec[i..EndOfReplay(rec, i, Sizes(|fidx|, |tdat|, |mdat|, |edat|))]);
            |sent| == |good| && forall k :: 0 <= k < |good| ==> Restores(sent[k], good[k])
    decreases |rec| - i
  {
    hide ReplayRecord, Restores, DecodeRecord, RecordBytes, FrameIndexFile, OutOfReach, Routed, GoodFrames, Addressable,
      CutFiles;
    IndexWithin(rec, before, i, fidx, tdat, mdat, edat);
    var sz := Sizes(|fidx|, |tdat|, |mdat|, |edat|);
    var m := EndOfReplay(rec, i, sz);
    if i == m {
      assert rec[i..m] == [];
      NoGoodFrames();
    }
    if FIDX_LEN * (i + 1) <= |fidx| {
      RecordReplayed(rec, before, i, fidx, tdat, mdat, edat);
      BadInReach(rec, i, sz);
      if i < m {
        ReplayedFrom(rec, before, i + 1, fidx, tdat, mdat, edat);
        FirstGood(rec, i, m);
      }
    }
  }

  lemma IndexWithin(rec: seq<Arrival>, before: PrevEvent, i: nat, fidx: seq<byte>,
                    tdat: seq<byte>, mdat: seq<byte>, edat: seq<byte>)
    requires CutFiles(rec, before, fidx, tdat, mdat, edat) && FIDX_LEN * i <= |fidx|
    ensures i <= |rec|
  {
    hide FrameIndexFile;
  }

  lemma BadInReach(rec: seq<Arrival>, i: nat, sz: Sizes)
    requires i < |rec|
    ensures rec[i].err ==> !OutOfReach(rec, i, sz)
  {
  }

  lemma {:induction false} GoodConcat(a: seq<Arrival>, b: seq<Arrival>)
    ensures GoodFrames(a + b) == GoodFrames(a) + GoodFrames(b)
  {
    if a == [] {
      assert a + b == b;
    } else {
      assert (a + b)[1..] == a[1..] + b;
      GoodConcat(a[1..], b);
    }
  }

  lemma {:induction false} AllGood(rec: seq<Arrival>)
    requires forall k :: 0 <= k < |rec| ==> !rec[k].err
    ensures GoodFrames(rec) == rec
  {
    if rec != [] {
      AllGood(rec[1..]);
    }
  }

  /** Replaying a capture, the files of which may have been cut short by failed writes,
      injects its good frames, in order, each with the kind, the event size, the length
      and the payload it was captured with, up to the first one that has no record or is
      out of reach. That is all of them if and only if there is no such frame; if there
      were no bad frames either it is the whole capture. */
  lemma CaptureReplayed(rec: seq<Arrival>, before: PrevEvent, fidx: seq<byte>,
                        tdat: seq<byte>, mdat: seq<byte>, edat: seq<byte>)
    requires CutFiles(rec, before, fidx, tdat, mdat, edat) && Addressable(rec)
    ensures var sz := Sizes(|fidx|, |tdat|, |mdat|, |edat|);
            var sent := ReplayFrom(fidx, 0, tdat, mdat, edat);
            var good := GoodFrames(rec[..EndOfReplay(rec, 0, sz)]);
            && |sent| == |good|
            && (forall k :: 0 <= k < |good| ==> Restores(sent[k], good[k]))
            && (|sent| == |GoodFrames(rec)| <==> AllInReach(rec, sz))
    ensures (forall k :: 0 <= k < |rec| ==> !rec[k].err) ==> GoodFrames(rec) == rec
  {
    hide ReplayFrom, Restores, OutOfReach, Routed, GoodFrames, EndOfReplay, FrameIndexFile;
    ReplayedFrom(rec, before, 0, fidx, tdat, mdat, edat);
    var sz := Sizes(|fidx|, |tdat|, |mdat|, |edat|);
    var m := EndOfReplay(rec, 0, sz);
    assert rec[0..m] == rec[..m] && rec == rec[..m] + rec[m..];
    GoodConcat(rec[..m], rec[m..]);
    NoneGood(rec[m..]);
    RestReached(rec, sz, m);
    if forall k :: 0 <= k < |rec| ==> !rec[k].err {
      AllGood(rec);
    }
  }

  lemma {:induction false} NoneGood(rec: seq<Arrival>)
    ensures GoodFrames(rec) == [] <==> forall k :: 0 <= k < |rec| ==> rec[k].err
  {
    if rec != [] {
      NoneGood(rec[1..]);
      if forall k :: 0 <= k < |rec[1..]| ==> rec[1..][k].err {
        assert forall k :: 1 <= k < |rec| ==> rec[k] == rec[1..][k - 1];
      } else {
        var k :| 0 <= k < |rec[1..]| && !rec[1..][k].err;
        assert !rec[k + 1].err;
      }
    }
  }

  /** Nothing good is left after the end exactly if all good frames are in reach. */
  lemma RestReached(rec: seq<Arrival>, sz: Sizes, m: nat)
    requires m == EndOfReplay(rec, 0, sz)
    ensures m <= |rec|
    ensures (forall k :: 0 <= k < |rec[m..]| ==> rec[m..][k].err) <==> AllInReach(rec, sz)
  {
    hide InReach;
    if forall k :: 0 <= k < |rec[m..]| ==> rec[m..][k].err {
      forall i | 0 <= i < |rec|
        ensures rec[i].err || InReach(rec, i, sz)
      {
        if i >= m {
          assert rec[m..][i - m] == rec[i];
        }
      }
    }
    if AllInReach(rec, sz) && m < |rec| {
      EndHasReason(rec, sz, m);
      forall k | 0 <= k < |rec[m..]|
        ensures rec[m..][k].err
      {
        assert rec[m..][k] == rec[m + k];
        RecordsGoOn(rec, sz, m, m + k);
      }
    }
  }

  lemma RecordsGoOn(rec: seq<Arrival>, sz: Sizes, m: nat, k: nat)
    requires m <= k < |rec| && FIDX_LEN * (m + 1) > sz.fidx
    ensures !InReach(rec, k, sz)
  {
  }

  lemma EndHasReason(rec: seq<Arrival>, sz: Sizes, m: nat)
    requires m == EndOfReplay(rec, 0, sz) < |rec| && AllInReach(rec, sz)
    ensures FIDX_LEN * (m + 1) > sz.fidx
  {
  }

  /** What there is of a capture none of whose files was cut short. */
  function FullSizes(rec: seq<Arrival>): Sizes
  {
    Sizes(16 * |rec|, |Routed(rec, TDAT)|, |Routed(rec, MDAT)|, |Routed(rec, EDAT)|)
  }

  lemma FullSizeFor(rec: seq<Arrival>, a: Arrival)
    requires !a.err
    ensures SizeFor(a, FullSizes(rec)) == |Routed(rec, DataFile(a))|
  {
    hide IsValid, Routed;
    GoodFrame(a.pkt);
  }

  /** Of such a capture all good frames are in reach if and only if none starts too far into
      its data file. */
  lemma FullReach(rec: seq<Arrival>)
    ensures AllInReach(rec, FullSizes(rec)) <==> forall i :: 0 <= i < |rec| ==> !TooFar(rec, i)
  {
    forall i | 0 <= i < |rec| && !rec[i].err
      ensures OutOfReach(rec, i, FullSizes(rec)) <==> TooFar(rec, i)
    {
      StartInFile(rec, i);
      LengthOf(rec[i]);
      FullSizeFor(rec, rec[i]);
    }
    hide OutOfReach, Routed;
    if AllInReach(rec, FullSizes(rec)) {
      forall i | 0 <= i < |rec|
        ensures !TooFar(rec, i)
      {
        assert !rec[i].err ==> InReach(rec, i, FullSizes(rec));
      }
    }
  }

  // ---------- A capture that is not replayed to its end ----------

  function Copies(a: Arrival, n: nat): (rec: seq<Arrival>)
    ensures |rec| == n && forall i :: 0 <= i < n ==> rec[i] == a
  {
    seq(n, k => a)
  }

  lemma {:induction false} StartOfCopy(a: Arrival, n: nat, i: nat)
    requires i < n
    ensures FrameStart(Copies(a, n), i) == i * |Payload(a)|
    decreases i
  {
    hide FrameType, Payload;
    var rec := Copies(a, n);
    if i > 0 {
      StartOfCopy(a, n, i - 1);
      assert Init(rec[..i]) == rec[..i - 1] && Last(rec[..i]) == a;
    }
  }

  /** A full frame of peaks. */
  function PeakFrame(): (a: Arrival)
    ensures !a.err && |Payload(a)| == 1472
  {
    var f := Frame(ETHERTYPE_EVENT, MTU, 0, 0, 1, false, TYPE_PEAK, 0, seq(MTU - HDR_LEN, i => 0));
    assert IsValid(f) == {};
    Arrival(f, MTU, 0, false, 0)
  }

  /** A million and a half of them fill more of the file than the replay reaches. */
  lemma LongCaptureIsCutShort()
    ensures var rec := Copies(PeakFrame(), 1500000);
            TooFar(rec, 1499999) && EndOfReplay(rec, 0, FullSizes(rec)) < |rec|
  {
    hide FrameStart, Payload, Routed;
    StartOfCopy(PeakFrame(), 1500000, 1499999);
    var rec := Copies(PeakFrame(), 1500000);
    assert !InReach(rec, 1499999, FullSizes(rec));
  }
}
