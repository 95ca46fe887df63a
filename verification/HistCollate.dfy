/** Collating the frames of a histogram: what the task does with each frame, and
    which histograms come out of a sequence of frames. */
module HistCollate {
  import opened Basics
  import opened Bytes
  import opened Frames

  const HIST_MAXSIZE: nat := 65576

  /** A call of the packet handler; the length of a good frame is its own. */
  datatype RawArrival = Arrival(pkt: Frame, err: bool)

  type Arrival = a: RawArrival | a.err || Good(a.pkt)
    witness Arrival(Frame(0, 0, 0, 0, 0, false, 0, 0, seq(MTU - HDR_LEN, i => 0)), true)

  predicate IsGoodMca(a: Arrival) { !a.err && IsMca(a.pkt) }

  function Payload(a: Arrival): seq<byte>
    requires !a.err
  {
    GoodFrame(a.pkt);
    a.pkt.body[..a.pkt.length - HDR_LEN]
  }

  // ---------- One frame ----------

  /** The histogram being received: its bins and size as declared, what came of it,
      and whether to ignore frames until the next header. */
  datatype Collated = Collated(
    nbins: u16, curNbins: u16, size: nat, data: seq<byte>, discard: bool)

  const EMPTY := Collated(0, 0, 0, [], false)

  /** Takes in a frame's bins; the last ones complete the histogram. */
  function Collect(s: Collated, a: Arrival): (Collated, Option<seq<byte>>)
    requires !a.err
  {
    var bins := (s.curNbins + McaNbins(a.pkt)) % U16;
    if bins > s.nbins then (s.(curNbins := bins, discard := true), None)
    else
      var data := s.data + Payload(a);
      if bins == s.nbins then (EMPTY, Some(data))
      else (s.(curNbins := bins, data := data), None)
  }

  /** A header drops what came before it. */
  function Begin(s: Collated, f: Frame): Collated
  {
    var s1 := if s.curNbins > 0 || s.discard then EMPTY else s;
    s1.(nbins := McaNbinsTot(f), size := McaSize(f))
  }

  /** `prev` is the protocol sequence of the previous MCA frame, good or bad. */
  function HandleFrame(s: Collated, a: Arrival, prev: u16): (Collated, Option<seq<byte>>)
  {
    if !IsGoodMca(a) then (s, None)
    else if IsHeader(a.pkt) then Collect(Begin(s, a.pkt), a)
    else if s.discard then (s, None)
    else if (a.pkt.pseq - prev) % U16 != 1 then (s.(discard := true), None)
    else Collect(s, a)
  }

  // ---------- A sequence of frames ----------

  /** The protocol sequence of the last MCA frame. */
  function PrevPseq(fs: seq<Arrival>, start: u16): u16
  {
    if fs == [] then start
    else if IsMca(Last(fs).pkt) then Last(fs).pkt.pseq
    else PrevPseq(Init(fs), start)
  }

  /** The task after its activation and these frames. */
  function StateOf(fs: seq<Arrival>, start: u16): Collated
  {
    if fs == [] then EMPTY.(discard := true)
    else HandleFrame(StateOf(Init(fs), start), Last(fs), PrevPseq(Init(fs), start)).0
  }

  /** What it publishes with the last of them. */
  function PublishedBy(fs: seq<Arrival>, start: u16): Option<seq<byte>>
    requires fs != []
  {
    HandleFrame(StateOf(Init(fs), start), Last(fs), PrevPseq(Init(fs), start)).1
  }

  // ---------- Complete histograms ----------

  /** The payloads of the good MCA frames. */
  function Payloads(fs: seq<Arrival>): seq<byte>
  {
    if fs == [] then []
    else Payloads(Init(fs)) + (if IsGoodMca(Last(fs)) then Payload(Last(fs)) else [])
  }

  function Bins(fs: seq<Arrival>): nat
  {
    if fs == [] then 0
    else Bins(Init(fs)) + (if IsGoodMca(Last(fs)) then McaNbins(Last(fs).pkt) else 0)
  }

  /** Frame `k` is the continuation that has to come next. */
  predicate InSequence(fs: seq<Arrival>, k: nat, start: u16)
    requires k < |fs|
  {
    !IsHeader(fs[k].pkt) && (fs[k].pkt.pseq - PrevPseq(fs[..k], start)) % U16 == 1
  }

  /** The frames from header `i` on are one histogram, none of it missing so far. */
  ghost predicate Unbroken(fs: seq<Arrival>, i: nat, start: u16)
  {
    && i < |fs| && IsGoodMca(fs[i]) && IsHeader(fs[i].pkt)
    && forall k :: i < k < |fs| && IsGoodMca(fs[k]) ==> InSequence(fs, k, start)
  }

  /** ... and with the last one all its bins have come. */
  ghost predicate Complete(fs: seq<Arrival>, i: nat, start: u16)
  {
    && Unbroken(fs, i, start) && IsGoodMca(Last(fs))
    && Bins(fs[i..]) == McaNbinsTot(fs[i].pkt)
  }

  const FRAME_NBINS: nat := (MTU - HDR_LEN) / MCA_BIN_LEN  // at most so many in a frame

  /** What is asked of the headers: they do not declare so many bins that counting
      one frame too many would wrap around. */
  ghost predicate HeadersFit(fs: seq<Arrival>)
  {
    forall k :: 0 <= k < |fs| && IsGoodMca(fs[k]) && IsHeader(fs[k].pkt) ==> FitHeader(fs[k].pkt)
  }

  predicate FitHeader(f: Frame)
  {
    McaNbinsTot(f) + FRAME_NBINS < U16
  }

  // ---------- Headers without bins ----------

  /** A header that brings none of its histogram's bins. */
  predicate IsBare(a: Arrival)
  {
    IsGoodMca(a) && IsHeader(a.pkt) && McaNbins(a.pkt) == 0
  }

  /** The last good MCA frame is one of them. */
  predicate AfterBare(fs: seq<Arrival>)
  {
    fs != [] && (if IsGoodMca(Last(fs)) then IsBare(Last(fs)) else AfterBare(Init(fs)))
  }

  /** How many headers without bins come last among the good MCA frames. */
  function BareRun(fs: seq<Arrival>): nat
  {
    if fs == [] then 0
    else if !IsGoodMca(Last(fs)) then BareRun(Init(fs))
    else if IsBare(Last(fs)) then BareRun(Init(fs)) + 1
    else 0
  }

  /** Their payloads. */
  function Residue(fs: seq<Arrival>): seq<byte>
  {
    if fs == [] then []
    else if !IsGoodMca(Last(fs)) then Residue(Init(fs))
    else if IsBare(Last(fs)) then Residue(Init(fs)) + Payload(Last(fs))
    else []
  }

  /** No bin has been counted, but there are bytes in the buffer; a header that comes
      now is put after them. */
  predicate Leftover(s: Collated)
  {
    !s.discard && s.curNbins == 0 && s.data != []
  }

  lemma {:induction false} ResidueLength(fs: seq<Arrival>)
    ensures |Residue(fs)| == MCA_HDR_LEN * BareRun(fs)
    ensures AfterBare(fs) <==> BareRun(fs) > 0
    ensures AfterBare(fs) <==> Residue(fs) != []
  {
    hide IsGoodMca, Payload;
    if fs != [] {
      ResidueLength(Init(fs));
      if IsBare(Last(fs)) {
        BareLength(Last(fs));
      }
    }
  }

  lemma BareLength(a: Arrival)
    requires IsBare(a)
    ensures |Payload(a)| == MCA_HDR_LEN
  {
    hide McaNbins;
    FrameBins(a);
  }

  /** A count of bins stays below what was declared. */
  predicate Counts(s: Collated)
  {
    s.discard || s == EMPTY || (s.curNbins < s.nbins && s.nbins + FRAME_NBINS < U16)
  }

  /** What the buffer holds without a bin counted are the payloads of the headers
      without bins that came last. */
  predicate ResidueInv(fs: seq<Arrival>, s: Collated)
  {
    && Counts(s)
    && (Leftover(s) <==> AfterBare(fs))
    && (Leftover(s) ==> s.data == Residue(fs))
    && (!Leftover(s) ==> Residue(fs) == [])
  }

  lemma {:induction false} ResidueKept(fs: seq<Arrival>, start: u16)
    requires HeadersFit(fs)
    ensures ResidueInv(fs, StateOf(fs, start))
    decreases |fs|
  {
    if fs != [] {
      var init, a := Init(fs), Last(fs);
      assert fs == init + [a];
      ResidueKept(init, start);
      var s := StateOf(init, start);
      StateAfter(init, a, start);
      hide StateOf, IsGoodMca, HeadersFit, PrevPseq, Collect, Begin, McaNbins, McaNbinsTot;
      if IsGoodMca(a) && IsHeader(a.pkt) {
        LastFits(fs);
        BeginIs(init, s, a.pkt);
        HeaderResidue(init, s, a);
      } else if IsGoodMca(a) {
        ContinuationResidue(s, a);
      }
    }
  }

  lemma LastFits(fs: seq<Arrival>)
    requires HeadersFit(fs) && fs != [] && IsGoodMca(Last(fs)) && IsHeader(Last(fs).pkt)
    ensures FitHeader(Last(fs).pkt)
  {
  }

  /** A header begins with what the headers without bins before it left. */
  lemma BeginIs(fs: seq<Arrival>, s: Collated, f: Frame)
    requires ResidueInv(fs, s)
    ensures Begin(s, f) == Collated(McaNbinsTot(f), 0, McaSize(f), Residue(fs), false)
  {
  }

  lemma HeaderResidue(fs: seq<Arrival>, s: Collated, a: Arrival)
    requires IsGoodMca(a) && IsHeader(a.pkt) && FitHeader(a.pkt)
    requires Begin(s, a.pkt) == Collated(McaNbinsTot(a.pkt), 0, McaSize(a.pkt), Residue(fs), false)
    ensures var s' := Collect(Begin(s, a.pkt), a).0;
            && Counts(s') && (Leftover(s') <==> IsBare(a))
            && (IsBare(a) ==> s'.data == Residue(fs) + Payload(a))
  {
    FrameBins(a);
    GoodStreamHeader(a.pkt);
    hide Begin, McaNbins, McaNbinsTot, Payload, IsGoodMca;
  }

  lemma ContinuationResidue(s: Collated, a: Arrival)
    requires IsGoodMca(a) && !IsHeader(a.pkt) && Counts(s)
    ensures Counts(Collect(s, a).0) && !Leftover(Collect(s, a).0)
    ensures !Leftover(s.(discard := true)) && Counts(s.(discard := true))
    ensures s.discard ==> !Leftover(s)
  {
    FrameBins(a);
    hide McaNbins, Payload, IsGoodMca;
  }

  // ---------- Invariant ----------

  /** The state when histogram `i` is being received. */
  ghost predicate Receiving(fs: seq<Arrival>, s: Collated, i: nat, start: u16)
  {
    && Unbroken(fs, i, start) && Bins(fs[i..]) < U16
    && s == Collated(McaNbinsTot(fs[i].pkt), Bins(fs[i..]), McaSize(fs[i].pkt),
                     Residue(fs[..i]) + Payloads(fs[i..]), false)
    && s.curNbins < s.nbins
    && |Payloads(fs[i..])| == MCA_HDR_LEN + MCA_BIN_LEN * s.curNbins
  }

  ghost predicate CollateInv(fs: seq<Arrival>, s: Collated, start: u16)
  {
    s.discard || s == EMPTY || exists i: nat :: Receiving(fs, s, i, start)
  }

  lemma ContinuationBins(a: Arrival)
    requires IsGoodMca(a) && !IsHeader(a.pkt)
    ensures 0 < McaNbins(a.pkt) <= FRAME_NBINS && |Payload(a)| == MCA_BIN_LEN * McaNbins(a.pkt)
  {
    hide IsValid;
    GoodFrame(a.pkt);
  }

  lemma HeaderBins(a: Arrival)
    requires IsGoodMca(a) && IsHeader(a.pkt)
    ensures a.pkt.length >= HDR_LEN + MCA_HDR_LEN ==>
              McaNbins(a.pkt) <= FRAME_NBINS && |Payload(a)| == MCA_HDR_LEN + MCA_BIN_LEN * McaNbins(a.pkt)
    ensures a.pkt.length < HDR_LEN + MCA_HDR_LEN ==> McaNbins(a.pkt) >= U16 - MCA_HDR_LEN
  {
    hide IsValid;
    GoodFrame(a.pkt);
    HeaderQuotient(a.pkt.length);
  }

  /** What is left of a header frame of `len` bytes for its bins. */
  lemma HeaderQuotient(len: nat)
    requires HDR_LEN < len <= MTU && len % 8 == 0
    ensures len >= HDR_LEN + MCA_HDR_LEN ==>
              var n := CDiv(len - HDR_LEN - MCA_HDR_LEN, MCA_BIN_LEN) % U16;
              n <= FRAME_NBINS && len - HDR_LEN == MCA_HDR_LEN + MCA_BIN_LEN * n
    ensures len < HDR_LEN + MCA_HDR_LEN ==>
              CDiv(len - HDR_LEN - MCA_HDR_LEN, MCA_BIN_LEN) % U16 >= U16 - MCA_HDR_LEN
  {
  }

  /** Sizes of good MCA frames. */
  lemma FrameBins(a: Arrival)
    requires IsGoodMca(a)
    ensures !IsHeader(a.pkt) ==> 0 < McaNbins(a.pkt) <= FRAME_NBINS && |Payload(a)| == MCA_BIN_LEN * McaNbins(a.pkt)
    ensures IsHeader(a.pkt) && a.pkt.length >= HDR_LEN + MCA_HDR_LEN ==>
              McaNbins(a.pkt) <= FRAME_NBINS && |Payload(a)| == MCA_HDR_LEN + MCA_BIN_LEN * McaNbins(a.pkt)
    ensures IsHeader(a.pkt) && a.pkt.length < HDR_LEN + MCA_HDR_LEN ==> McaNbins(a.pkt) >= U16 - MCA_HDR_LEN
  {
    hide McaNbins, Payload;
    if IsHeader(a.pkt) {
      HeaderBins(a);
    } else {
      ContinuationBins(a);
    }
  }

  lemma Grow(fs: seq<Arrival>, i: nat, a: Arrival, start: u16)
    requires i < |fs|
    ensures Unbroken(fs + [a], i, start) <==>
              Unbroken(fs, i, start) && (IsGoodMca(a) ==> InSequence(fs + [a], |fs|, start))
    ensures Bins((fs + [a])[i..]) == Bins(fs[i..]) + (if IsGoodMca(a) then McaNbins(a.pkt) else 0)
    ensures Payloads((fs + [a])[i..]) == Payloads(fs[i..]) + (if IsGoodMca(a) then Payload(a) else [])
  {
    var fs' := fs + [a];
    assert Init(fs'[i..]) == fs[i..];
    forall k | i < k < |fs|
      ensures fs'[..k] == fs[..k]
    {
    }
    if Unbroken(fs', i, start) {
      forall k | i < k < |fs| && IsGoodMca(fs[k])
        ensures InSequence(fs, k, start)
      {
        assert InSequence(fs', k, start);
      }
    }
  }

  lemma Single(fs: seq<Arrival>, a: Arrival)
    ensures (fs + [a])[|fs|..] == [a]
    ensures Bins([a]) == if IsGoodMca(a) then McaNbins(a.pkt) else 0
    ensures IsGoodMca(a) ==> Payloads([a]) == Payload(a)
  {
    assert Init([a]) == [];
  }

  // ---------- Soundness ----------

  lemma StateAfter(fs: seq<Arrival>, a: Arrival, start: u16)
    ensures StateOf(fs + [a], start) == HandleFrame(StateOf(fs, start), a, PrevPseq(fs, start)).0
    ensures PublishedBy(fs + [a], start) == HandleFrame(StateOf(fs, start), a, PrevPseq(fs, start)).1
  {
    assert Init(fs + [a]) == fs;
  }

  /** Histogram `data` is that of header `i`, complete with the last frame. */
  ghost predicate IsHistogram(fs: seq<Arrival>, i: nat, start: u16, data: seq<byte>)
  {
    Complete(fs, i, start) && data == Payloads(fs[i..]) && |data| == McaSize(fs[i].pkt)
  }

  /** ... or that histogram, preceded by headers without bins of other ones. */
  ghost predicate IsCollated(fs: seq<Arrival>, i: nat, start: u16, data: seq<byte>)
  {
    && Complete(fs, i, start) && IsHistogram(fs, i, start, Payloads(fs[i..]))
    && data == Residue(fs[..i]) + Payloads(fs[i..])
  }

  /** The histogram is as it was sent exactly if its header does not directly follow a
      header without bins. */
  lemma IntactIff(fs: seq<Arrival>, i: nat, start: u16, data: seq<byte>)
    requires IsCollated(fs, i, start, data)
    ensures i < |fs| && (IsHistogram(fs, i, start, data) <==> !AfterBare(fs[..i]))
    ensures |data| == MCA_HDR_LEN * BareRun(fs[..i]) + McaSize(fs[i].pkt)
  {
    hide Complete;
    CompleteHeader(fs, i, start);
    ResidueLength(fs[..i]);
    if AfterBare(fs[..i]) {
      assert |data| > |Payloads(fs[i..])|;
    }
  }

  lemma CompleteHeader(fs: seq<Arrival>, i: nat, start: u16)
    requires Complete(fs, i, start)
    ensures i < |fs|
  {
  }

  /** The frame just taken in continues, or is, header `i`'s histogram. */
  lemma Collected(fs: seq<Arrival>, s: Collated, a: Arrival, i: nat, start: u16)
    requires fs != [] && Last(fs) == a && IsGoodMca(a) && Unbroken(fs, i, start)
    requires FitHeader(fs[i].pkt) && !s.discard && s.curNbins < s.nbins
    requires s.nbins == McaNbinsTot(fs[i].pkt) && s.size == McaSize(fs[i].pkt)
    requires s.curNbins + McaNbins(a.pkt) == Bins(fs[i..])
    requires s.data + Payload(a) == Residue(fs[..i]) + Payloads(fs[i..])
    requires McaNbins(a.pkt) <= FRAME_NBINS ==>
               |Payloads(fs[i..])| == MCA_HDR_LEN + MCA_BIN_LEN * Bins(fs[i..])
    requires McaNbins(a.pkt) <= FRAME_NBINS || (s.curNbins == 0 && McaNbins(a.pkt) > s.nbins)
    ensures var (s', out) := Collect(s, a);
            && (s'.discard || s' == EMPTY || Receiving(fs, s', i, start))
            && (Bins(fs[i..]) < McaNbinsTot(fs[i].pkt) ==> Receiving(fs, s', i, start))
            && (out.Some? <==> Complete(fs, i, start))
            && (out.Some? ==> IsCollated(fs, i, start, out.value))
  {
    hide Payload, Payloads, Residue, Bins, Unbroken, McaNbins, McaNbinsTot, IsGoodMca, Collect;
    CollectIs(s, a);
  }

  lemma CollectIs(s: Collated, a: Arrival)
    requires IsGoodMca(a) && s.curNbins + McaNbins(a.pkt) < U16
    ensures var bins := s.curNbins + McaNbins(a.pkt);
            Collect(s, a) ==
              if bins > s.nbins then (s.(curNbins := bins, discard := true), None)
              else if bins == s.nbins then (EMPTY, Some(s.data + Payload(a)))
              else (s.(curNbins := bins, data := s.data + Payload(a)), None)
  {
    hide Payload, McaNbins;
  }

  lemma HeaderCollated(fs: seq<Arrival>, a: Arrival, start: u16)
    requires ResidueInv(fs, StateOf(fs, start))
    requires IsGoodMca(a) && IsHeader(a.pkt) && FitHeader(a.pkt)
    ensures var fs' := fs + [a];
            && Unbroken(fs', |fs|, start)
            && CollateInv(fs', StateOf(fs', start), start)
            && (PublishedBy(fs', start).Some? <==> Complete(fs', |fs|, start))
            && (PublishedBy(fs', start).Some? ==> IsCollated(fs', |fs|, start, PublishedBy(fs', start).value))
            && (Bins(fs'[|fs|..]) < McaNbinsTot(a.pkt) ==>
                  Receiving(fs', StateOf(fs', start), |fs|, start))
  {
    hide StateOf, PublishedBy, Collect, Begin, Payload, IsValid, McaNbins, McaNbinsTot, Bins, Payloads, Residue,
      ResidueInv;
    var fs' := fs + [a];
    StateAfter(fs, a, start);
    Single(fs, a);
    FrameBins(a);
    GoodStreamHeader(a.pkt);
    var s := Begin(StateOf(fs, start), a.pkt);
    BeginIs(fs, StateOf(fs, start), a.pkt);
    assert fs'[..|fs|] == fs;
    Collected(fs', s, a, |fs|, start);
  }

  lemma ContinuationCollated(fs: seq<Arrival>, a: Arrival, i: nat, start: u16)
    requires Receiving(fs, StateOf(fs, start), i, start) && FitHeader(fs[i].pkt)
    requires IsGoodMca(a) && !IsHeader(a.pkt) && (a.pkt.pseq - PrevPseq(fs, start)) % U16 == 1
    ensures var fs' := fs + [a];
            && Unbroken(fs', i, start)
            && CollateInv(fs', StateOf(fs', start), start)
            && (PublishedBy(fs', start).Some? <==> Complete(fs', i, start))
            && (PublishedBy(fs', start).Some? ==> IsCollated(fs', i, start, PublishedBy(fs', start).value))
            && (Bins(fs'[i..]) < McaNbinsTot(fs[i].pkt) ==>
                  Receiving(fs', StateOf(fs', start), i, start))
  {
    hide StateOf, PublishedBy, Collect, Payload, IsValid, McaNbins, Bins, Payloads, Residue, McaNbinsTot, Unbroken;
    var fs', s := fs + [a], StateOf(fs, start);
    StateAfter(fs, a, start);
    UnbrokenHeader(fs, i, start);
    assert fs'[..|fs|] == fs && fs'[..i] == fs[..i];
    Grow(fs, i, a, start);
    FrameBins(a);
    Collected(fs', s, a, i, start);
  }

  /** Frames of other kinds and bad frames change nothing. */
  lemma ForeignFrame(fs: seq<Arrival>, a: Arrival, start: u16)
    requires CollateInv(fs, StateOf(fs, start), start) && !IsGoodMca(a)
    ensures CollateInv(fs + [a], StateOf(fs + [a], start), start)
    ensures PublishedBy(fs + [a], start).None?
    ensures forall i: nat :: Receiving(fs, StateOf(fs, start), i, start) ==>
                          Receiving(fs + [a], StateOf(fs + [a], start), i, start)
  {
    hide StateOf, PublishedBy, Collect;
    var s := StateOf(fs, start);
    StateAfter(fs, a, start);
    forall i: nat | Receiving(fs, s, i, start)
      ensures Receiving(fs + [a], s, i, start)
    {
      Grow(fs, i, a, start);
      assert (fs + [a])[..i] == fs[..i];
    }
  }

  /** A continuation that is not wanted is not collected. */
  lemma StrayFrame(fs: seq<Arrival>, a: Arrival, start: u16)
    requires CollateInv(fs, StateOf(fs, start), start)
    requires IsGoodMca(a) && !IsHeader(a.pkt)
    requires StateOf(fs, start).discard || (a.pkt.pseq - PrevPseq(fs, start)) % U16 != 1
    ensures StateOf(fs + [a], start).discard && PublishedBy(fs + [a], start).None?
  {
    hide StateOf, PublishedBy, Collect, IsGoodMca;
    StateAfter(fs, a, start);
  }

  /** A continuation in sequence right after a histogram was completed has more bins
      than were declared: none. */
  lemma ExtraFrame(fs: seq<Arrival>, a: Arrival, start: u16)
    requires StateOf(fs, start) == EMPTY && IsGoodMca(a) && !IsHeader(a.pkt)
    requires (a.pkt.pseq - PrevPseq(fs, start)) % U16 == 1
    ensures StateOf(fs + [a], start).discard && PublishedBy(fs + [a], start).None?
  {
    hide StateOf, PublishedBy, IsGoodMca, McaNbins, Payload;
    StateAfter(fs, a, start);
    FrameBins(a);
  }

  /** Whatever frames arrive, a histogram that is published is a complete one: a
      header and its continuations, in sequence and with no other MCA frame between,
      as long as the header declares; before it there may be headers without bins. */
  lemma {:induction false} OnlyCompletePublished(fs: seq<Arrival>, start: u16)
    requires HeadersFit(fs)
    ensures CollateInv(fs, StateOf(fs, start), start)
    ensures fs != [] && PublishedBy(fs, start).Some? ==>
              exists i: nat :: IsCollated(fs, i, start, PublishedBy(fs, start).value)
    decreases |fs|
  {
    hide StateOf, PublishedBy, ResidueInv, IsCollated, HandleFrame, IsGoodMca, Receiving, PrevPseq, FitHeader, IsHeader;
    if fs != [] {
      var init, a := Init(fs), Last(fs);
      assert fs == init + [a];
      OnlyCompletePublished(init, start);
      ResidueKept(init, start);
      var s := StateOf(init, start);
      if !IsGoodMca(a) {
        ForeignFrame(init, a, start);
      } else if IsHeader(a.pkt) {
        assert FitHeader(fs[|init|].pkt);
        HeaderStep(init, a, start);
      } else if s.discard || (a.pkt.pseq - PrevPseq(init, start)) % U16 != 1 {
        StrayFrame(init, a, start);
      } else if s == EMPTY {
        ExtraFrame(init, a, start);
      } else {
        var i: nat :| Receiving(init, s, i, start);
        ReceivingHeader(init, i, start);
        assert FitHeader(fs[i].pkt);
        ContinuationStep(init, a, i, start);
      }
    } else {
      NothingCollated(start);
    }
  }

  lemma NothingCollated(start: u16)
    ensures CollateInv([], StateOf([], start), start)
  {
  }

  lemma HeaderStep(fs: seq<Arrival>, a: Arrival, start: u16)
    requires CollateInv(fs, StateOf(fs, start), start) && ResidueInv(fs, StateOf(fs, start))
    requires IsGoodMca(a) && IsHeader(a.pkt) && FitHeader(a.pkt)
    ensures CollateInv(fs + [a], StateOf(fs + [a], start), start)
    ensures PublishedBy(fs + [a], start).Some? ==>
              IsCollated(fs + [a], |fs|, start, PublishedBy(fs + [a], start).value)
  {
    hide CollateInv, StateOf, PublishedBy, IsCollated, Receiving, Unbroken, Complete;
    HeaderCollated(fs, a, start);
  }

  lemma ContinuationStep(fs: seq<Arrival>, a: Arrival, i: nat, start: u16)
    requires Receiving(fs, StateOf(fs, start), i, start) && i < |fs| && FitHeader(fs[i].pkt)
    requires IsGoodMca(a) && !IsHeader(a.pkt) && (a.pkt.pseq - PrevPseq(fs, start)) % U16 == 1
    ensures CollateInv(fs + [a], StateOf(fs + [a], start), start)
    ensures PublishedBy(fs + [a], start).Some? ==>
              IsCollated(fs + [a], i, start, PublishedBy(fs + [a], start).value)
  {
    hide CollateInv, StateOf, PublishedBy, IsCollated, Receiving, Unbroken, Complete;
    ContinuationCollated(fs, a, i, start);
  }

  lemma UnbrokenHeader(fs: seq<Arrival>, i: nat, start: u16)
    requires Unbroken(fs, i, start)
    ensures i < |fs| && IsGoodMca(fs[i]) && IsHeader(fs[i].pkt)
  {
  }

  lemma ReceivingHeader(fs: seq<Arrival>, i: nat, start: u16)
    requires Receiving(fs, StateOf(fs, start), i, start)
    ensures i < |fs| && IsGoodMca(fs[i]) && IsHeader(fs[i].pkt)
  {
  }

  // ---------- Completeness ----------

  lemma Prefix(fs: seq<Arrival>)
    requires fs != [] && HeadersFit(fs)
    ensures HeadersFit(Init(fs)) && fs == Init(fs) + [Last(fs)]
  {
  }

  /** A header and its continuations in sequence are followed, whatever came
      before. */
  lemma {:induction false} HistogramFollowed(fs: seq<Arrival>, i: nat, start: u16)
    requires HeadersFit(fs) && Unbroken(fs, i, start)
    requires Bins(fs[i..]) < McaNbinsTot(fs[i].pkt)
    ensures Receiving(fs, StateOf(fs, start), i, start)
    decreases |fs|
  {
    hide StateOf, PublishedBy, HandleFrame, IsGoodMca, McaNbins, McaNbinsTot, McaSize, PrevPseq, Payload, Bins,
      Payloads, ResidueInv, IsCollated;
    var init, a := Init(fs), Last(fs);
    Prefix(fs);
    UnbrokenHeader(fs, i, start);
    OnlyCompletePublished(init, start);
    ResidueKept(init, start);
    if i == |init| {
      HeaderCollated(init, a, start);
    } else {
      Grow(init, i, a, start);
      HistogramFollowed(init, i, start);
      if IsGoodMca(a) {
        assert InSequence(fs, |init|, start) && fs[..|init|] == init;
        ContinuationCollated(init, a, i, start);
      } else {
        ForeignFrame(init, a, start);
      }
    }
  }

  lemma LastContinuation(fs: seq<Arrival>, a: Arrival, i: nat, start: u16)
    requires HeadersFit(fs) && i < |fs| && Complete(fs + [a], i, start)
    ensures PublishedBy(fs + [a], start).Some?
    ensures IsCollated(fs + [a], i, start, PublishedBy(fs + [a], start).value)
  {
    hide StateOf, PublishedBy, HandleFrame, McaNbins, McaNbinsTot, McaSize, PrevPseq, Payload, Bins, Payloads,
      FitHeader, IsGoodMca, Unbroken, IsCollated;
    var fs' := fs + [a];
    assert IsGoodMca(a);
    Grow(fs, i, a, start);
    UnbrokenHeader(fs, i, start);
    LastInSequence(fs, a, i, start);
    FrameBins(a);
    HistogramFollowed(fs, i, start);
    ContinuationCollated(fs, a, i, start);
  }

  lemma LastInSequence(fs: seq<Arrival>, a: Arrival, i: nat, start: u16)
    requires i < |fs| && Unbroken(fs + [a], i, start) && IsGoodMca(a)
    ensures !IsHeader(a.pkt) && (a.pkt.pseq - PrevPseq(fs, start)) % U16 == 1
  {
    assert InSequence(fs + [a], |fs|, start) && (fs + [a])[..|fs|] == fs;
  }

  /** A complete histogram is published whatever came before it. */
  lemma CompletePublished(fs: seq<Arrival>, i: nat, start: u16)
    requires HeadersFit(fs) && Complete(fs, i, start)
    ensures PublishedBy(fs, start).Some? && IsCollated(fs, i, start, PublishedBy(fs, start).value)
  {
    hide StateOf, PublishedBy, HandleFrame, McaNbins, McaNbinsTot, McaSize, PrevPseq, Payload, Bins, Payloads,
      IsGoodMca, ResidueInv, IsCollated;
    var init, a := Init(fs), Last(fs);
    Prefix(fs);
    UnbrokenHeader(fs, i, start);
    if i == |init| {
      ResidueKept(init, start);
      HeaderCollated(init, a, start);
    } else {
      LastContinuation(init, a, i, start);
    }
  }

  /** A frame makes the task publish if and only if it completes a histogram. What is
      published is that histogram, and nothing else exactly if its header did not
      directly follow a header without bins. */
  lemma PublishedIffComplete(fs: seq<Arrival>, start: u16)
    requires fs != [] && HeadersFit(fs)
    ensures PublishedBy(fs, start).Some? <==> exists i: nat :: Complete(fs, i, start)
    ensures forall i: nat :: Complete(fs, i, start) ==>
              var data := PublishedBy(fs, start).value;
              && i < |fs| && IsCollated(fs, i, start, data)
              && (IsHistogram(fs, i, start, data) <==> !AfterBare(fs[..i]))
  {
    hide StateOf, PublishedBy, Complete, IsCollated, IsHistogram, AfterBare;
    OnlyCompletePublished(fs, start);
    forall i: nat | Complete(fs, i, start)
      ensures PublishedBy(fs, start).Some? && IsCollated(fs, i, start, PublishedBy(fs, start).value)
      ensures i < |fs| && (IsHistogram(fs, i, start, PublishedBy(fs, start).value) <==> !AfterBare(fs[..i]))
    {
      CompletePublished(fs, i, start);
      IntactIff(fs, i, start, PublishedBy(fs, start).value);
    }
    if PublishedBy(fs, start).Some? {
      var i: nat :| IsCollated(fs, i, start, PublishedBy(fs, start).value);
      CollatedComplete(fs, i, start, PublishedBy(fs, start).value);
    }
  }

  lemma CollatedComplete(fs: seq<Arrival>, i: nat, start: u16, data: seq<byte>)
    requires IsCollated(fs, i, start, data)
    ensures Complete(fs, i, start)
  {
  }

  // ---------- Numbering ----------

  lemma NextNumber(pseq: u16, prev: u16, n: nat)
    requires prev == n % U16 && (pseq - prev) % U16 == 1
    ensures pseq == (n + 1) % U16
  {
  }

  lemma PrevPseqStep(fs: seq<Arrival>, k: nat, start: u16)
    requires k < |fs|
    ensures PrevPseq(fs[..k + 1], start) == if IsMca(fs[k].pkt) then fs[k].pkt.pseq else PrevPseq(fs[..k], start)
  {
    assert Init(fs[..k + 1]) == fs[..k] && Last(fs[..k + 1]) == fs[k];
  }

  lemma McaFramesStep(fs: seq<Arrival>, a: nat, k: nat)
    requires a <= k < |fs|
    ensures McaFrames(fs[a..k + 1]) == McaFrames(fs[a..k]) + (if IsMca(fs[k].pkt) then 1 else 0)
  {
    assert Init(fs[a..k + 1]) == fs[a..k] && Last(fs[a..k + 1]) == fs[k];
  }

  /** Without bad MCA frames among them the frames of a histogram are numbered one
      after the other, the header with zero. */
  lemma {:induction false} NumberedFromOne(fs: seq<Arrival>, i: nat, start: u16, k: nat)
    requires Unbroken(fs, i, start) && i <= k < |fs|
    requires forall j :: i <= j < |fs| && IsMca(fs[j].pkt) ==> !fs[j].err
    ensures PrevPseq(fs[..k + 1], start) == McaFrames(fs[i + 1..k + 1]) % U16
    decreases k
  {
    hide PrevPseq, McaFrames;
    PrevPseqStep(fs, k, start);
    if k == i {
      assert fs[i + 1..k + 1] == [];
      NoMcaFrames();
    } else {
      NumberedFromOne(fs, i, start, k - 1);
      McaFramesStep(fs, i + 1, k);
      if IsMca(fs[k].pkt) {
        assert InSequence(fs, k, start);
        NextNumber(fs[k].pkt.pseq, PrevPseq(fs[..k], start), McaFrames(fs[i + 1..k]));
      }
    }
  }

  lemma NoMcaFrames()
    ensures McaFrames([]) == 0
  {
  }

  function McaFrames(fs: seq<Arrival>): nat
  {
    if fs == [] then 0 else McaFrames(Init(fs)) + (if IsMca(Last(fs).pkt) then 1 else 0)
  }

  // ---------- A histogram that is not as it was sent ----------

  /** A valid MCA header of `length` bytes that declares `n` bins. */
  function Header(length: u16, n: byte): (a: Arrival)
    requires length == 64 || length == 72
    requires 1 <= n && length - HDR_LEN <= n * MCA_BIN_LEN + MCA_HDR_LEN
    ensures IsGoodMca(a) && IsHeader(a.pkt) && McaNbinsTot(a.pkt) == n
    ensures a.pkt.length == length && McaNbins(a.pkt) == (length - 64) / 4
  {
    var f := Frame(ETHERTYPE_MCA, length, 0, 0, 0, false, 0, 0,
                   seq(MTU - HDR_LEN, i => if i == 2 then n - 1 else 0));
    assert Word(f.body, 2) == n - 1 && Word(f.body, 10) == 0;
    assert IsValid(f) == {};
    Arrival(f, false)
  }

  /** A header without bins and then a histogram of 48 bytes in one frame: what is
      published are 88 bytes. */
  lemma SpoiltHistogram(start: u16)
    ensures var fs := [Header(64, 1), Header(72, 2)];
            && McaSize(fs[1].pkt) == 48
            && PublishedBy(fs, start).Some? && |PublishedBy(fs, start).value| == 88
  {
    var a, b := Header(64, 1), Header(72, 2);
    hide McaNbins, McaNbinsTot;
    assert Init([a, b]) == [a] && Init([a]) == [];
    assert StateOf([], start) == EMPTY.(discard := true);
    assert Begin(EMPTY.(discard := true), a.pkt) == Collated(1, 0, 44, [], false);
    assert StateOf([a], start) == Collated(1, 0, 44, [] + Payload(a), false);
  }

  /** A valid continuation frame with two bins. */
  function TwoBins(): (a: Arrival)
    ensures IsGoodMca(a) && !IsHeader(a.pkt) && a.pkt.pseq == 1 && McaNbins(a.pkt) == 2 && a.pkt.length == 32
  {
    var f := Frame(ETHERTYPE_MCA, 32, 0, 1, 0, false, 0, 0, seq(MTU - HDR_LEN, i => 0));
    assert IsValid(f) == {};
    Arrival(f, false)
  }

  /** A header without bins does no harm by itself: with its bins in the next frame the
      histogram is published as it was sent. */
  lemma BareButIntact(start: u16)
    ensures var fs := [Header(64, 2), TwoBins()];
            && IsBare(fs[0])
            && PublishedBy(fs, start) == Some(Payload(fs[0]) + Payload(fs[1]))
            && |PublishedBy(fs, start).value| == McaSize(fs[0].pkt)
  {
    var a, b := Header(64, 2), TwoBins();
    hide McaNbins, McaNbinsTot;
    assert Init([a, b]) == [a] && Init([a]) == [];
    assert StateOf([], start) == EMPTY.(discard := true);
    assert Begin(EMPTY.(discard := true), a.pkt) == Collated(2, 0, 48, [], false);
    assert [] + Payload(a) == Payload(a);
    assert StateOf([a], start) == Collated(2, 0, 48, Payload(a), false);
  }
}
