/** The data files, told without the file types and tables the handler uses: which frames
    go to each of them, from the frames' own fields. */
module DataFiles {
  import opened Basics
  import opened Bytes
  import opened Frames
  import opened CaptureFiles

  /** What a frame is kept as. */
  datatype Kind = Bad | Histogram | Tick | Event

  /** A frame with an error is bad whatever its fields say. */
  predicate IsKind(a: Arrival, k: Kind)
  {
    match k
    case Bad => a.err
    case Histogram => !a.err && a.pkt.etherType == 0x88B6
    case Tick => !a.err && a.pkt.etherType == 0x88B5 && a.pkt.tick
    case Event => !a.err && a.pkt.etherType == 0x88B5 && !a.pkt.tick
  }

  /** The bytes after the headers of all frames of a kind, in order of arrival. */
  function PayloadsOf(rec: seq<Arrival>, k: Kind): seq<byte>
  {
    if rec == [] then []
    else (if IsKind(rec[0], k) then rec[0].pkt.body[..rec[0].flen - 24] else []) + PayloadsOf(rec[1..], k)
  }

  /** Every frame is of exactly one kind. */
  lemma OneKind(a: Arrival, k: Kind, k': Kind)
    ensures IsKind(a, Bad) || IsKind(a, Histogram) || IsKind(a, Tick) || IsKind(a, Event)
    ensures IsKind(a, k) && IsKind(a, k') ==> k == k'
  {
    if !a.err {
      GoodFrame(a.pkt);
    }
  }

  /** The file of a kind, by its number in the table of files. */
  function NumberOf(k: Kind): Dset
  {
    match k
    case Bad => 4
    case Histogram => 5
    case Tick => 6
    case Event => 7
  }

  lemma FrameGoesTo(a: Arrival, k: Kind)
    ensures Part(a, NumberOf(k)) == if IsKind(a, k) then a.pkt.body[..a.flen - 24] else []
  {
    if !a.err {
      GoodFrame(a.pkt);
    }
    hide IsValid;
  }

  /** The bad-payload file holds the payloads of exactly the bad frames, the MCA file those
      of the good MCA frames, the tick file those of the good ticks and the event file those
      of the other good frames. */
  lemma {:induction false} FileHolds(rec: seq<Arrival>, before: PrevEvent, k: Kind)
    ensures Contents(rec, before, NumberOf(k)) == PayloadsOf(rec, k)
    decreases |rec|
  {
    hide Part, IsKind;
    if rec != [] {
      var first, rest := [rec[0]], rec[1..];
      assert rec == first + rest;
      RoutedConcat(first, rest, NumberOf(k));
      FileHolds(rest, before, k);
      assert Init(first) == [];
      FrameGoesTo(rec[0], k);
      assert Routed(first, NumberOf(k)) == [] + Part(rec[0], NumberOf(k));
    }
  }

  // ---------- Counters ----------

  /** `a` holds `n` events: as many as fill its payload, or one or none if it is a frame of a
      trace, which is counted when it is complete unless it is a dot product. */
  predicate HoldsEvents(a: Arrival, n: nat)
  {
    if !IsKind(a, Event) then n == 0
    else if a.pkt.pkt != 3 then n * (8 * a.pkt.esize) == a.flen - 24
    else n == (if a.pkt.tr == 2 then 1 else 0)
  }

  lemma EventsHeld(a: Arrival)
    ensures HoldsEvents(a, EventsIn(a))
  {
    if IsKind(a, Event) {
      GoodFrame(a.pkt);
      GoodIff(a.pkt);
      hide IsValid;
      if a.pkt.pkt != 3 {
        WholeNumber(a.flen - 24, 8 * a.pkt.esize);
      }
    }
    hide IsValid;
  }

  lemma WholeNumber(len: nat, size: nat)
    requires 0 < size && len % size == 0 && len < U16
    ensures CDiv(len, size) % U16 * size == len
  {
    assert len == size * (len / size);
    NotMore(size, len / size);
  }

  lemma NotMore(size: nat, n: nat)
    requires size > 0
    ensures n <= size * n
  {
    assert size * n == (size - 1) * n + n;
  }

  lemma EventsUnique(a: Arrival, n: nat, m: nat)
    requires HoldsEvents(a, n) && HoldsEvents(a, m)
    ensures n == m
  {
    if IsKind(a, Event) && a.pkt.pkt != 3 {
      GoodFrame(a.pkt);
      hide IsValid;
      SameFactor(8 * a.pkt.esize, n, m);
    }
  }

  lemma SameFactor(size: nat, n: nat, m: nat)
    requires size > 0 && n * size == m * size
    ensures n == m
  {
    if n < m {
      assert m * size == n * size + (m - n) * size;
      NotMore(size, m - n);
    } else if m < n {
      assert n * size == m * size + (n - m) * size;
      NotMore(size, n - m);
    }
  }

  /** What a frame that holds `n` events adds to the counters of the reply: one frame, the
      frames missed before it, a tick if it is a good one, its events, and the traces and
      histograms that it completes; a trace is an event. */
  lemma CountersGrow(rec: seq<Arrival>, a: Arrival, n: nat)
    requires HoldsEvents(a, n)
    ensures var st, st' := StatsOf(rec), StatsOf(rec + [a]);
            var traces, hists := |ScanOf(rec + [a]).traces| - |ScanOf(rec).traces|,
                                 |ScanOf(rec + [a]).hists| - |ScanOf(rec).hists|;
            && st'.frames == st.frames + 1 && st'.lost == st.lost + a.missed
            && st'.ticks == st.ticks + (if IsKind(a, Tick) then 1 else 0)
            && st'.traces == st.traces + traces && st'.hists == st.hists + hists
            && st'.events == st.events + traces + n
  {
    EventsHeld(a);
    EventsUnique(a, n, EventsIn(a));
    OneMoreStats(rec, a);
    OneMoreScan(rec, a);
    TickIs(a);
    hide ScanOf, NextScan, TickCount, ShortEvents, FramesLost, EventsIn, IsGoodTick, IsKind, HoldsEvents;
  }

  lemma TickIs(a: Arrival)
    ensures IsGoodTick(a) <==> IsKind(a, Tick)
  {
    if !a.err {
      GoodFrame(a.pkt);
    }
    hide IsValid;
  }

  /** Nothing is counted before the first frame. */
  lemma CountersBegin()
    ensures StatsOf([]) == Stats(0, 0, 0, 0, 0, 0)
  {
  }
}
