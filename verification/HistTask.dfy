/** The task that collates MCA frames in a buffer and publishes whole histograms. */
module HistTask {
  import opened Basics
  import opened Bytes
  import opened Frames
  import opened HistCollate
  import Dispatch

  // ---------- The buffer's bounds ----------

  /** The state in which the bins of MCA frame `a` are counted. */
  function Counting(s: Collated, a: Arrival): Collated
  {
    if IsHeader(a.pkt) then Begin(s, a.pkt) else s
  }

  /** The payload of `a` is copied to the buffer. */
  predicate Copied(s: Collated, a: Arrival, prev: u16)
  {
    && IsGoodMca(a)
    && (IsHeader(a.pkt) || (!s.discard && (a.pkt.pseq - prev) % U16 == 1))
    && (Counting(s, a).curNbins + McaNbins(a.pkt)) % U16 <= Counting(s, a).nbins
  }

  /** If it is, the copy stays within the buffer. */
  predicate CopyFits(fs: seq<Arrival>, a: Arrival, start: u16)
  {
    Copied(StateOf(fs, start), a, PrevPseq(fs, start)) ==>
      |Counting(StateOf(fs, start), a).data| + |Payload(a)| <= HIST_MAXSIZE
  }

  /** `a` is accepted as a frame of header `i`'s histogram. */
  ghost predicate Accepted(fs: seq<Arrival>, a: Arrival, i: nat, start: u16)
  {
    && IsGoodMca(a) && Unbroken(fs + [a], i, start)
    && Bins((fs + [a])[i..]) <= McaNbinsTot((fs + [a])[i].pkt)
  }

  /** Where in the buffer the histogram of header `i` ends with the last of `fs`: after
      the headers without bins that came right before it. */
  function EndOfData(fs: seq<Arrival>, i: nat): nat
    requires i <= |fs|
  {
    MCA_HDR_LEN * BareRun(fs[..i]) + MCA_HDR_LEN + MCA_BIN_LEN * Bins(fs[i..])
  }

  lemma FitsOneByOne(fs: seq<Arrival>, a: Arrival)
    requires HeadersFit(fs + [a])
    ensures HeadersFit(fs) && (IsGoodMca(a) && IsHeader(a.pkt) ==> FitHeader(a.pkt))
  {
    assert (fs + [a])[|fs|] == a;
    assert forall k :: 0 <= k < |fs| ==> (fs + [a])[k] == fs[k];
  }

  lemma HeaderCopied(fs: seq<Arrival>, a: Arrival, start: u16)
    requires HeadersFit(fs + [a]) && IsHeader(a.pkt) && Accepted(fs, a, |fs|, start)
    ensures Copied(StateOf(fs, start), a, PrevPseq(fs, start))
    ensures |Counting(StateOf(fs, start), a).data| + |Payload(a)| == EndOfData(fs + [a], |fs|)
  {
    hide StateOf, IsGoodMca, Payload, McaNbins, McaNbinsTot, Bins, Begin, ResidueInv, Unbroken, HeadersFit, PrevPseq;
    FitsOneByOne(fs, a);
    ResidueKept(fs, start);
    BeginIs(fs, StateOf(fs, start), a.pkt);
    ResidueLength(fs);
    Single(fs, a);
    FrameBins(a);
    assert (fs + [a])[..|fs|] == fs;
  }

  lemma ContinuationCopied(fs: seq<Arrival>, a: Arrival, i: nat, start: u16)
    requires HeadersFit(fs + [a]) && i < |fs| && Accepted(fs, a, i, start)
    ensures Copied(StateOf(fs, start), a, PrevPseq(fs, start))
    ensures |Counting(StateOf(fs, start), a).data| + |Payload(a)| == EndOfData(fs + [a], i)
  {
    hide StateOf, IsGoodMca, Payload, Payloads, McaNbins, McaNbinsTot, Bins, Unbroken, HeadersFit, PrevPseq, Residue;
    FitsOneByOne(fs, a);
    LastInSequence(fs, a, i, start);
    Grow(fs, i, a, start);
    UnbrokenHeader(fs, i, start);
    FrameBins(a);
    HistogramFollowed(fs, i, start);
    ResidueLength(fs[..i]);
    assert (fs + [a])[..i] == fs[..i];
  }

  lemma HeaderAccepted(fs: seq<Arrival>, a: Arrival, start: u16)
    requires HeadersFit(fs + [a]) && Copied(StateOf(fs, start), a, PrevPseq(fs, start)) && IsHeader(a.pkt)
    ensures Accepted(fs, a, |fs|, start)
  {
    hide StateOf, Payload, McaNbins, McaNbinsTot, Bins, HeadersFit, PrevPseq, IsGoodMca, ResidueInv, Begin;
    FitsOneByOne(fs, a);
    ResidueKept(fs, start);
    BeginIs(fs, StateOf(fs, start), a.pkt);
    Single(fs, a);
  }

  lemma ReceivingWhenCopied(fs: seq<Arrival>, a: Arrival, start: u16)
    requires HeadersFit(fs) && Copied(StateOf(fs, start), a, PrevPseq(fs, start)) && !IsHeader(a.pkt)
    ensures exists i: nat :: Receiving(fs, StateOf(fs, start), i, start)
  {
    hide StateOf, Receiving, Payload, McaNbins, HeadersFit, PrevPseq, IsGoodMca;
    OnlyCompletePublished(fs, start);
    FrameBins(a);
  }

  /** Only frames that are accepted are copied. */
  lemma CopiedAccepted(fs: seq<Arrival>, a: Arrival, start: u16) returns (i: nat)
    requires HeadersFit(fs + [a]) && Copied(StateOf(fs, start), a, PrevPseq(fs, start))
    ensures Accepted(fs, a, i, start) && i <= |fs|
  {
    hide StateOf, Receiving, Accepted, Copied, IsHeader, HeadersFit, PrevPseq;
    FitsOneByOne(fs, a);
    if IsHeader(a.pkt) {
      HeaderAccepted(fs, a, start);
      i := |fs|;
    } else {
      ReceivingWhenCopied(fs, a, start);
      i :| Receiving(fs, StateOf(fs, start), i, start);
      ContinuationAccepted(fs, a, i, start);
    }
  }

  lemma ContinuationAccepted(fs: seq<Arrival>, a: Arrival, i: nat, start: u16)
    requires HeadersFit(fs) && Receiving(fs, StateOf(fs, start), i, start)
    requires !IsHeader(a.pkt) && Copied(StateOf(fs, start), a, PrevPseq(fs, start))
    ensures i < |fs| && Accepted(fs, a, i, start)
  {
    hide StateOf, Payload, Payloads, McaNbins, McaNbinsTot, Bins, PrevPseq, Residue, IsGoodMca;
    UnbrokenHeader(fs, i, start);
    assert FitHeader(fs[i].pkt);
    hide Unbroken;
    FrameBins(a);
    Grow(fs, i, a, start);
    assert (fs + [a])[..|fs|] == fs;
    assert (fs + [a])[i] == fs[i];
  }

  /** A frame is copied within the buffer if and only if what it is accepted for ends
      there. */
  lemma CopyFitsIff(fs: seq<Arrival>, a: Arrival, start: u16)
    requires HeadersFit(fs + [a])
    ensures CopyFits(fs, a, start) <==>
              forall i: nat :: i <= |fs| && Accepted(fs, a, i, start) ==> EndOfData(fs + [a], i) <= HIST_MAXSIZE
  {
    hide StateOf, PrevPseq, Counting, Accepted, EndOfData, HeadersFit, IsHeader, Payload, Copied;
    forall i: nat | i <= |fs| && Accepted(fs, a, i, start)
      ensures IsGoodMca(a) && Copied(StateOf(fs, start), a, PrevPseq(fs, start))
      ensures |Counting(StateOf(fs, start), a).data| + |Payload(a)| == EndOfData(fs + [a], i)
    {
      AcceptedHeader(fs, a, i, start);
      if i == |fs| {
        HeaderCopied(fs, a, start);
      } else {
        ContinuationCopied(fs, a, i, start);
      }
    }
    if Copied(StateOf(fs, start), a, PrevPseq(fs, start)) {
      var i := CopiedAccepted(fs, a, start);
    }
  }

  lemma AcceptedHeader(fs: seq<Arrival>, a: Arrival, i: nat, start: u16)
    requires i <= |fs| && Accepted(fs, a, i, start)
    ensures IsGoodMca(a) && (i == |fs| ==> IsHeader(a.pkt))
  {
    hide Bins, IsGoodMca;
  }

  /** Headers declare histograms that fit the buffer, and none directly follows a header
      without bins. */
  ghost predicate HeadersInOrder(fs: seq<Arrival>)
  {
    forall k :: 0 <= k < |fs| && IsGoodMca(fs[k]) && IsHeader(fs[k].pkt) ==>
      McaSize(fs[k].pkt) <= HIST_MAXSIZE && !AfterBare(fs[..k])
  }

  /** Then nothing is ever written past the buffer's end. */
  lemma FitsBuffer(fs: seq<Arrival>, a: Arrival, start: u16)
    requires HeadersInOrder(fs + [a])
    ensures HeadersFit(fs + [a]) && CopyFits(fs, a, start)
  {
    hide StateOf, PrevPseq, Copied, AfterBare, Bins, McaNbinsTot, IsGoodMca, CopyFits;
    assert HeadersFit(fs + [a]);
    forall i: nat | i <= |fs| && Accepted(fs, a, i, start)
      ensures EndOfData(fs + [a], i) <= HIST_MAXSIZE
    {
      UnbrokenHeader(fs + [a], i, start);
      ResidueLength((fs + [a])[..i]);
    }
    CopyFitsIff(fs, a, start);
  }

  function Copies(a: Arrival, n: nat): (fs: seq<Arrival>)
    ensures |fs| == n && forall k :: 0 <= k < n ==> fs[k] == a
  {
    seq(n, k => a)
  }

  lemma {:induction false} RunOfCopies(a: Arrival, n: nat)
    requires IsBare(a)
    ensures BareRun(Copies(a, n)) == n
  {
    hide IsBare;
    if n > 0 {
      RunOfCopies(a, n - 1);
      assert Init(Copies(a, n)) == Copies(a, n - 1);
      BareIsMca(a);
    }
  }

  lemma BareIsMca(a: Arrival)
    requires IsBare(a)
    ensures IsGoodMca(a) && IsHeader(a.pkt)
  {
  }

  /** Headers without bins pile up: after 1639 of them another one no longer fits. */
  lemma BareHeadersPileUp(a: Arrival, n: nat, start: u16)
    requires IsBare(a) && FitHeader(a.pkt)
    ensures CopyFits(Copies(a, n), a, start) <==> n < 1639
  {
    hide StateOf, PrevPseq, Payload, CopyFits, McaNbinsTot;
    var fs := Copies(a, n);
    assert HeadersFit(fs + [a]);
    CopyFitsIff(fs, a, start);
    RunOfCopies(a, n);
    Single(fs, a);
    assert (fs + [a])[..n] == fs;
    assert Accepted(fs, a, n, start);
    forall i: nat | i <= n && Accepted(fs, a, i, start)
      ensures i == n
    {
      OneHeader(fs, a, i, start);
    }
  }

  lemma OneHeader(fs: seq<Arrival>, a: Arrival, i: nat, start: u16)
    requires i <= |fs| && Accepted(fs, a, i, start) && IsHeader(a.pkt)
    ensures i == |fs|
  {
    hide PrevPseq, Bins, IsGoodMca, Unbroken;
    if i < |fs| {
      LastInSequence(fs, a, i, start);
    }
  }

  class HistData {
    var nbins: u16
    var curNbins: u16
    var size: nat
    var curSize: nat
    var discard: bool
    const buf: array<byte>
    // the frames since the activation, and the protocol sequence before them
    ghost var fs: seq<Arrival>
    ghost var start: u16

    ghost predicate Shape()
      reads this
    {
      buf.Length == HIST_MAXSIZE && curSize <= HIST_MAXSIZE
    }

    ghost function View(): Collated
      requires Shape()
      reads this, buf
    {
      Collated(nbins, curNbins, size, buf[..curSize], discard)
    }

    ghost predicate Valid()
      reads this, buf
    {
      Shape() && View() == StateOf(fs, start)
    }

    method Clear()
      requires Shape()
      modifies this`nbins, this`curNbins, this`size, this`curSize, this`discard
      ensures Shape() && View() == EMPTY
    {
      nbins, curNbins, size, curSize, discard := 0, 0, 0, 0, false;
    }

    /** Called when the task is activated. */
    method Wakeup(ghost prev: u16)
      requires buf.Length == HIST_MAXSIZE
      modifies this
      ensures Valid() && fs == [] && start == prev
    {
      nbins, curNbins, size, curSize, discard := 0, 0, 0, 0, true;
      fs, start := [], prev;
    }

    constructor (ghost prev: u16)
      ensures Valid() && fs == [] && start == prev && fresh(buf)
    {
      buf := new byte[HIST_MAXSIZE];
      nbins, curNbins, size, curSize, discard := 0, 0, 0, 0, true;
      fs, start := [], prev;
    }

    /** memcpy of a payload to the end of the data. */
    method CopyPayload(data: seq<byte>)
      requires Shape() && curSize + |data| <= HIST_MAXSIZE
      modifies this`curSize, buf
      ensures Shape() && buf[..curSize] == old(buf[..curSize]) + data
    {
      ghost var at := curSize;
      for k := 0 to |data|
        invariant curSize == at
        invariant forall j :: 0 <= j < at ==> buf[j] == old(buf[j])
        invariant forall j :: 0 <= j < k ==> buf[at + j] == data[j]
      {
        buf[curSize + k] := data[k];
      }
      curSize := curSize + |data|;
    }

    /** Counts a frame's bins and copies its payload; the last bins complete the
        histogram. */
    method CollectFrame(a: Arrival) returns (msg: Option<seq<byte>>)
      requires Shape() && IsGoodMca(a)
      requires (curNbins + McaNbins(a.pkt)) % U16 <= nbins ==> curSize + |Payload(a)| <= HIST_MAXSIZE
      modifies this`nbins, this`curNbins, this`size, this`curSize, this`discard, buf
      ensures Shape() && (View(), msg) == Collect(old(View()), a)
    {
      curNbins := (curNbins + McaNbins(a.pkt)) % U16;
      if curNbins > nbins {
        discard := true;
        return None;
      }
      CopyPayload(Payload(a));
      if curNbins == nbins {
        msg := Some(buf[..curSize]);
        Clear();
        return;
      }
      return None;
    }

    /** A header drops an unfinished histogram. */
    method BeginFrame(f: Frame)
      requires Shape()
      modifies this`nbins, this`curNbins, this`size, this`curSize, this`discard
      ensures Shape() && View() == Begin(old(View()), f)
    {
      if curNbins > 0 {
        discard := true;
      }
      if discard {
        Clear();
      }
      nbins := McaNbinsTot(f);
      size := McaSize(f);
    }

    /** The packet handler: `prev` is the protocol sequence of the MCA frame before;
        returns the histogram it publishes, if any. As the program asserts, a payload
        has to fit the buffer. */
    method HandlePacket(a: Arrival, prev: u16) returns (msg: Option<seq<byte>>)
      requires Valid() && prev == PrevPseq(fs, start) && CopyFits(fs, a, start)
      modifies this, buf
      ensures Valid() && fs == old(fs) + [a] && start == old(start)
      ensures msg == PublishedBy(fs, start)
    {
      hide StateOf, PublishedBy, PrevPseq, Collect, Begin, McaNbins, Payload;
      StateAfter(fs, a, start);
      fs := fs + [a];
      if a.err || !IsMca(a.pkt) {
        return None;
      }
      if !IsHeader(a.pkt) {
        if discard {
          return None;
        }
        if (a.pkt.pseq - prev) % U16 != 1 {
          discard := true;
          return None;
        }
      } else {
        BeginFrame(a.pkt);
        BeginKeepsNothing(StateOf(old(fs), start), a.pkt);
      }
      msg := CollectFrame(a);
    }
  }

  /** The number the handler compares with is the one the dispatching loop keeps: that of
      the last MCA frame handed over. */
  lemma {:induction false} PrevIsHandedOver(log: seq<Dispatch.Delivery>, fs: seq<Arrival>, start: u16)
    requires |fs| == |log| && forall i :: 0 <= i < |fs| ==> fs[i].pkt == log[i].frame
    ensures PrevPseq(fs, start) == Dispatch.LastMcaSeq(start, log)
    decreases |fs|
  {
    if fs != [] {
      PrevIsHandedOver(log[..|log| - 1], Init(fs), start);
    }
  }

  lemma BeginKeepsNothing(s: Collated, f: Frame)
    ensures !Begin(s, f).discard
  {
  }
}
