/** The jitter histogram, defined on the whole sequence of events: every event of
    another channel counts once, by its delay since the reference event before it or
    until the one after it, whichever is smaller. */
module JitterOffline {
  const MAX_SIMULT_POINTS: nat := 16
  const BIN_OFFSET: int := 511
  const NBINS: nat := 1022
  const NCHANNELS: nat := 2
  const NHISTS: nat := NCHANNELS - 1
  const UINT16_MAX: nat := 0xFFFF

  /** As many points are followed between two references. */
  const TRACKED: nat := MAX_SIMULT_POINTS - 2

  /** An event that was taken into account: its channel, and its delay since the
      event before it. */
  datatype Item = Item(isRef: bool, isTick: bool, ch: nat, toff: nat)

  predicate IsPoint(x: Item) { !x.isRef && !x.isTick }

  /** Total delay of a stretch of events. */
  function Delay(xs: seq<Item>): nat
  {
    if xs == [] then 0 else Delay(xs[..|xs| - 1]) + xs[|xs| - 1].toff
  }

  /** Events of other channels in a stretch. */
  function Points(xs: seq<Item>): nat
  {
    if xs == [] then 0 else Points(xs[..|xs| - 1]) + (if IsPoint(xs[|xs| - 1]) then 1 else 0)
  }

  function Saturated(delay: nat): nat
  {
    if delay > UINT16_MAX then UINT16_MAX else delay
  }

  /** The bin of a point: the middle one for no delay, the first and the last one for
      delays too large. */
  function Bin(since: nat, until: nat): (b: nat)
    ensures b < NBINS
  {
    var d: int := if since <= until then since else 0 - until;
    if BIN_OFFSET + d < 0 then 0
    else if BIN_OFFSET + d >= NBINS then NBINS - 1
    else BIN_OFFSET + d
  }

  /** The bin in numbers: the delay since the last reference counts from the middle bin up,
      the one until the next reference, if it is smaller, from there down. */
  predicate InBin(since: nat, until: nat, b: nat)
  {
    && (since <= until && since <= 510 ==> b == 511 + since)
    && (since <= until && since > 510 ==> b == 1021)
    && (since > until && until <= 511 ==> b == 511 - until)
    && (since > until && until > 511 ==> b == 0)
  }

  lemma BinInNumbers(since: nat, until: nat, b: nat)
    ensures b == Bin(since, until) <==> InBin(since, until, b)
  {
  }

  /** Which histogram a channel goes to, and which channel a histogram is of. */
  function HistOf(ch: nat, ref: nat): int
  {
    if ch > ref then ch - 1 else ch
  }

  function LabelOf(h: nat, ref: nat): nat
  {
    if h < ref then h else h + 1
  }

  /** With any number of channels every one but the reference has a histogram, which
      is labelled with it. */
  lemma HistogramsAreLabelled(n: nat, ref: nat, ch: nat, h: nat)
    requires ref < n && ch < n && h < n - 1
    ensures ch != ref ==> 0 <= HistOf(ch, ref) < n - 1 && LabelOf(HistOf(ch, ref), ref) == ch
    ensures LabelOf(h, ref) < n && LabelOf(h, ref) != ref && HistOf(LabelOf(h, ref), ref) == h
  {
  }

  // ---------- The offline definition ----------

  /** References `l` and `k` follow each other. */
  ghost predicate Neighbours(log: seq<Item>, l: nat, k: nat)
  {
    && l < k < |log| && log[l].isRef && log[k].isRef
    && forall i :: l < i < k ==> !log[i].isRef
  }

  function Later(a: nat, b: nat): nat { if a >= b then a else b }

  /** Points in the stretch from `a` to `j`. */
  function PointsTo(log: seq<Item>, a: nat, j: nat): nat
    requires a <= j <= |log|
  {
    Points(log[a..j])
  }

  /** Event `j` is one of the points followed since reference `l`, or since the
      histogram was begun with event `from`. */
  ghost predicate Followed(log: seq<Item>, from: nat, l: nat, j: nat)
  {
    && Later(from, l + 1) <= j < |log| && IsPoint(log[j])
    && PointsTo(log, Later(from, l + 1), j) < TRACKED
  }

  /** Event `j` is counted between references `l` and `k`, in bin `b` of histogram
      `h`. */
  ghost predicate CountedAs(log: seq<Item>, from: nat, ref: nat, l: nat, k: nat, j: nat, h: int, b: nat)
  {
    && Neighbours(log, l, k) && j < k && Followed(log, from, l, j)
    && HistOf(log[j].ch, ref) == h
    && b == Bin(Saturated(Delay(log[l + 1..j + 1])), Saturated(Delay(log[j + 1..k + 1])))
  }

  ghost predicate Counted(log: seq<Item>, from: nat, ref: nat, j: nat, h: int, b: nat)
  {
    exists l, k :: CountedAs(log, from, ref, l, k, j, h, b)
  }

  /** The events in bin `b` of histogram `h`. */
  ghost function Entries(log: seq<Item>, from: nat, ref: nat, h: int, b: nat): set<nat>
  {
    set j: nat | j < |log| && Counted(log, from, ref, j, h, b)
  }

  /** An event between references `l` and `k` has exactly one entry if it is among
      the first points followed there, and none otherwise. */
  lemma OneEntry(log: seq<Item>, from: nat, ref: nat, l: nat, k: nat, j: nat)
    requires Neighbours(log, l, k) && l < j < k && IsPoint(log[j])
    ensures (exists h: int, b: nat :: Counted(log, from, ref, j, h, b)) <==>
              j >= from && PointsTo(log, Later(from, l + 1), j) < TRACKED
    ensures forall h: int, b: nat, h': int, b': nat ::
              Counted(log, from, ref, j, h, b) && Counted(log, from, ref, j, h', b') ==> h == h' && b == b'
  {
    forall h: int, b: nat
      ensures Counted(log, from, ref, j, h, b) <==> CountedAs(log, from, ref, l, k, j, h, b)
    {
      EntryBetween(log, from, ref, l, k, j, h, b);
    }
    hide Counted, Bin, HistOf, Saturated, Delay, PointsTo;
    if Followed(log, from, l, j) {
      var b := Bin(Saturated(Delay(log[l + 1..j + 1])), Saturated(Delay(log[j + 1..k + 1])));
      assert CountedAs(log, from, ref, l, k, j, HistOf(log[j].ch, ref), b);
      assert Counted(log, from, ref, j, HistOf(log[j].ch, ref), b);
    }
  }

  /** The bin of an event whose delays since and until its references add up to `s` and
      `u`; sums from 65535 on are not told apart. */
  predicate SumsInBin(s: nat, u: nat, b: nat)
  {
    && (s <= u && s <= 510 ==> b == 511 + s)
    && (s > 510 && (s <= u || u >= 65535) ==> b == 1021)
    && (u < s && u <= 511 ==> b == 511 - u)
    && (u < s && 511 < u < 65535 ==> b == 0)
  }

  lemma SumsAre(s: nat, u: nat, b: nat)
    ensures b == Bin(Saturated(s), Saturated(u)) <==> SumsInBin(s, u, b)
  {
  }

  /** The entry of an event between references `l` and `k` in numbers: it has one if no
      more than 13 events of other channels came before it since reference `l`, or since
      the histogram was begun; it is in the histogram of its channel and in the bin its
      sums of delays give. */
  lemma EntryInNumbers(log: seq<Item>, from: nat, ref: nat, l: nat, k: nat, j: nat, h: int, b: nat)
    requires Neighbours(log, l, k) && l < j < k && !log[j].isRef && !log[j].isTick
    ensures Counted(log, from, ref, j, h, b) <==>
              && from <= j && Points(log[if from > l then from else l + 1..j]) <= 13
              && h == (if log[j].ch > ref then log[j].ch - 1 else log[j].ch)
              && SumsInBin(Delay(log[l + 1..j + 1]), Delay(log[j + 1..k + 1]), b)
  {
    EntryBetween(log, from, ref, l, k, j, h, b);
    SumsAre(Delay(log[l + 1..j + 1]), Delay(log[j + 1..k + 1]), b);
    hide Bin, Saturated, SumsInBin, Points, Delay, Counted;
  }

  lemma EntryBetween(log: seq<Item>, from: nat, ref: nat, l: nat, k: nat, j: nat, h: int, b: nat)
    requires Neighbours(log, l, k) && l < j < k
    ensures Counted(log, from, ref, j, h, b) <==> CountedAs(log, from, ref, l, k, j, h, b)
  {
    hide Bin, HistOf, Saturated, Delay, PointsTo;
    forall l': nat, k': nat | CountedAs(log, from, ref, l', k', j, h, b)
      ensures l' == l && k' == k
    {
    }
  }

  // ---------- Stretches ----------

  /** Every event adds its delay to a stretch; references and ticks are no points. */
  lemma OneMoreDelay(log: seq<Item>, a: nat, b: nat)
    requires a <= b < |log|
    ensures Delay(log[a..b + 1]) == Delay(log[a..b]) + log[b].toff
    ensures Points(log[a..b + 1]) == Points(log[a..b]) + (if log[b].isRef || log[b].isTick then 0 else 1)
  {
    assert log[a..b + 1][..b - a] == log[a..b];
  }

  lemma SameStretch(log: seq<Item>, x: Item, a: nat, b: nat)
    requires a <= b <= |log|
    ensures (log + [x])[a..b] == log[a..b]
  {
  }

  /** More events change nothing about what was counted before. */
  lemma CountedStays(log: seq<Item>, x: Item, from: nat, ref: nat, l: nat, k: nat, j: nat, h: int, b: nat)
    requires k < |log| && j < |log| && l < |log|
    ensures CountedAs(log + [x], from, ref, l, k, j, h, b) <==> CountedAs(log, from, ref, l, k, j, h, b)
  {
    var log' := log + [x];
    assert forall i :: 0 <= i < |log| ==> log'[i] == log[i];
    if l < j < k {
      SameStretch(log, x, l + 1, j + 1);
      SameStretch(log, x, j + 1, k + 1);
    }
    if Later(from, l + 1) <= j {
      SameStretch(log, x, Later(from, l + 1), j);
    }
  }

  /** An event that is not a reference adds nothing to the histograms. */
  lemma NothingCounted(log: seq<Item>, x: Item, from: nat, ref: nat, h: int, b: nat)
    requires !x.isRef
    ensures Entries(log + [x], from, ref, h, b) == Entries(log, from, ref, h, b)
  {
    var log' := log + [x];
    forall j: nat, l: nat, k: nat | CountedAs(log', from, ref, l, k, j, h, b)
      ensures CountedAs(log, from, ref, l, k, j, h, b)
    {
      assert k != |log|;
      CountedStays(log, x, from, ref, l, k, j, h, b);
    }
    forall j: nat, l: nat, k: nat | CountedAs(log, from, ref, l, k, j, h, b)
      ensures CountedAs(log', from, ref, l, k, j, h, b)
    {
      CountedStays(log, x, from, ref, l, k, j, h, b);
    }
  }

  /** The latest reference. */
  ghost predicate LatestRef(log: seq<Item>, l: nat)
  {
    l < |log| && log[l].isRef && forall i :: l < i < |log| ==> !log[i].isRef
  }

  /** The events counted between references `l` and `k`. */
  ghost function Between(log: seq<Item>, from: nat, ref: nat, l: nat, k: nat, h: int, b: nat): set<nat>
  {
    set j: nat | j < k && CountedAs(log, from, ref, l, k, j, h, b)
  }

  /** A new reference adds the points followed since the latest one. */
  lemma RefCounts(log: seq<Item>, x: Item, from: nat, ref: nat, l: nat, h: int, b: nat)
    requires x.isRef && LatestRef(log, l)
    ensures Entries(log + [x], from, ref, h, b) ==
              Entries(log, from, ref, h, b) + Between(log + [x], from, ref, l, |log|, h, b)
  {
    var log' := log + [x];
    forall j: nat, l': nat, k: nat | CountedAs(log', from, ref, l', k, j, h, b)
      ensures k == |log| ==> l' == l
      ensures k < |log| ==> CountedAs(log, from, ref, l', k, j, h, b)
    {
      if k < |log| {
        CountedStays(log, x, from, ref, l', k, j, h, b);
      } else {
        assert log'[l].isRef && log'[l'].isRef;
      }
    }
    forall j: nat, l': nat, k: nat | CountedAs(log, from, ref, l', k, j, h, b)
      ensures CountedAs(log', from, ref, l', k, j, h, b)
    {
      CountedStays(log, x, from, ref, l', k, j, h, b);
    }
  }

  // ---------- The online points ----------

  /** A point being followed; the last one, without a histogram, collects the delay
      for the point to come. */
  datatype Point = Point(since: nat, until: nat, hid: int)

  function Add(total: nat, delay: nat): nat
  {
    if total + delay > UINT16_MAX then UINT16_MAX else total + delay
  }

  lemma AddSaturates(total: nat, delay: nat)
    ensures Add(Saturated(total), delay) == Saturated(total + delay)
  {
  }

  function Waited(pt: Point, delay: nat): Point
  {
    pt.(until := Add(pt.until, delay))
  }

  /** Every point but the last has waited longer. */
  function AllWaited(pts: seq<Point>, delay: nat): (r: seq<Point>)
    ensures |r| == |pts|
  {
    seq(|pts|, p requires 0 <= p < |pts| =>
          if p < |pts| - 1 then Waited(pts[p], delay) else pts[p])
  }

  /** The points after an event that is not a reference: the last one collects its
      delay, and stands for it from now on if there is room for another. */
  function AfterEvent(pts: seq<Point>, x: Item, ref: nat): seq<Point>
    requires pts != []
  {
    var waited := AllWaited(pts, x.toff);
    var last := pts[|pts| - 1];
    var since := Add(last.since, x.toff);
    var others := waited[..|pts| - 1];
    if IsPoint(x) && |pts| < MAX_SIMULT_POINTS - 1 then
      others + [Point(since, last.until, HistOf(x.ch, ref)), Point(since, 0, -1)]
    else others + [last.(since := since)]
  }

  /** Point `p` is event `j`, seen from now. */
  ghost predicate PointOf(log: seq<Item>, l: nat, ref: nat, j: nat, pt: Point)
    requires l < |log|
  {
    && l < j < |log| && IsPoint(log[j])
    && pt == Point(Saturated(Delay(log[l + 1..j + 1])), Saturated(Delay(log[j + 1..])), HistOf(log[j].ch, ref))
  }

  /** The points are the first events of other channels since the latest reference or
      the beginning of the histogram, event `idx[p]` for point `p`. */
  ghost predicate Tracks(log: seq<Item>, from: nat, l: nat, ref: nat, idx: seq<nat>, pts: seq<Point>)
  {
    && LatestRef(log, l) && from <= |log|
    && |pts| == |idx| + 1 && |idx| <= TRACKED
    && pts[|idx|] == Point(Saturated(Delay(log[l + 1..])), 0, -1)
    && (forall p :: 0 <= p < |idx| ==> PointOf(log, l, ref, idx[p], pts[p]))
    && InOrder(log, Later(from, l + 1), idx)
  }

  /** `idx` are the first points of the stretch from `a` on. */
  ghost predicate InOrder(log: seq<Item>, a: nat, idx: seq<nat>)
  {
    && a <= |log|
    && |idx| == (if PointsTo(log, a, |log|) < TRACKED then PointsTo(log, a, |log|) else TRACKED)
    && (forall p :: 0 <= p < |idx| ==> a <= idx[p] < |log| && PointsTo(log, a, idx[p]) == p)
    && (forall j :: a <= j < |log| && IsPoint(log[j]) && PointsTo(log, a, j) < TRACKED ==> j in idx)
  }

  lemma Appended(log: seq<Item>, x: Item, a: nat)
    requires a <= |log|
    ensures Delay((log + [x])[a..]) == Delay(log[a..]) + x.toff
    ensures Points((log + [x])[a..]) == Points(log[a..]) + (if IsPoint(x) then 1 else 0)
  {
    var log' := log + [x];
    assert log'[a..] == log'[a..|log| + 1];
    assert log'[a..|log|] == log[a..];
    OneMoreDelay(log', a, |log|);
  }

  lemma InOrderAfter(log: seq<Item>, x: Item, a: nat, idx: seq<nat>)
    requires InOrder(log, a, idx)
    ensures InOrder(log + [x], a, if IsPoint(x) && |idx| < TRACKED then idx + [|log|] else idx)
  {
    hide PointsTo;
    CountsAfter(log, x, a);
    var log', idx' := log + [x], if IsPoint(x) && |idx| < TRACKED then idx + [|log|] else idx;
    forall j | a <= j < |log'| && IsPoint(log'[j]) && PointsTo(log', a, j) < TRACKED
      ensures j in idx'
    {
      if j < |log| {
        assert log[j] == log'[j] && j in idx;
      }
    }
  }

  lemma CountsAfter(log: seq<Item>, x: Item, a: nat)
    requires a <= |log|
    ensures forall j :: a <= j <= |log| ==> PointsTo(log + [x], a, j) == PointsTo(log, a, j)
    ensures PointsTo(log + [x], a, |log| + 1) == PointsTo(log, a, |log|) + (if IsPoint(x) then 1 else 0)
  {
    forall j | a <= j <= |log|
      ensures PointsTo(log + [x], a, j) == PointsTo(log, a, j)
    {
      SameStretch(log, x, a, j);
    }
    OneMoreDelay(log + [x], a, |log|);
  }

  lemma PointAfter(log: seq<Item>, x: Item, l: nat, ref: nat, j: nat, pt: Point)
    requires l < |log| && PointOf(log, l, ref, j, pt)
    ensures PointOf(log + [x], l, ref, j, Waited(pt, x.toff))
  {
    SameStretch(log, x, l + 1, j + 1);
    Appended(log, x, j + 1);
    AddSaturates(Delay(log[j + 1..]), x.toff);
  }

  lemma NewPoint(log: seq<Item>, x: Item, l: nat, ref: nat)
    requires l < |log| && IsPoint(x)
    ensures PointOf(log + [x], l, ref, |log|,
                    Point(Saturated(Delay(log[l + 1..]) + x.toff), 0, HistOf(x.ch, ref)))
  {
    var log' := log + [x];
    Appended(log, x, l + 1);
    assert log'[l + 1..|log| + 1] == log'[l + 1..];
    assert log'[|log| + 1..] == [];
  }

  lemma AfterEventIs(pts: seq<Point>, x: Item, ref: nat)
    requires pts != []
    ensures var n, pts' := |pts| - 1, AfterEvent(pts, x, ref);
            var since := Add(pts[n].since, x.toff);
            && (forall p :: 0 <= p < n ==> pts'[p] == Waited(pts[p], x.toff))
            && (if IsPoint(x) && n < TRACKED
                then |pts'| == n + 2 && pts'[n] == Point(since, pts[n].until, HistOf(x.ch, ref))
                     && pts'[n + 1] == Point(since, 0, -1)
                else |pts'| == n + 1 && pts'[n] == pts[n].(since := since))
  {
  }

  /** An event that is not a reference keeps the points right. */
  lemma TracksEvent(log: seq<Item>, from: nat, l: nat, ref: nat, idx: seq<nat>, pts: seq<Point>, x: Item)
    returns (idx': seq<nat>)
    requires Tracks(log, from, l, ref, idx, pts) && !x.isRef
    ensures Tracks(log + [x], from, l, ref, idx', AfterEvent(pts, x, ref))
  {
    hide AfterEvent, InOrder, PointOf, Waited, Add, Saturated, Delay, HistOf;
    var log', pts' := log + [x], AfterEvent(pts, x, ref);
    AfterEventIs(pts, x, ref);
    InOrderAfter(log, x, Later(from, l + 1), idx);
    Appended(log, x, l + 1);
    AddSaturates(Delay(log[l + 1..]), x.toff);
    forall p | 0 <= p < |idx|
      ensures PointOf(log', l, ref, idx[p], pts'[p])
    {
      PointAfter(log, x, l, ref, idx[p], pts[p]);
    }
    if IsPoint(x) && |idx| < TRACKED {
      NewPoint(log, x, l, ref);
      idx' := idx + [|log|];
    } else {
      idx' := idx;
    }
  }

  const FIRST_GHOST := Point(0, 0, -1)

  /** After a reference there are no points yet. */
  lemma TracksRef(log: seq<Item>, from: nat, ref: nat, x: Item)
    requires x.isRef && from <= |log|
    ensures Tracks(log + [x], from, |log|, ref, [], [FIRST_GHOST])
  {
    var log' := log + [x];
    assert log'[|log| + 1..] == [];
  }

  /** A new histogram follows no points of the old one, but goes on collecting. */
  lemma TracksPublish(log: seq<Item>, from: nat, l: nat, ref: nat, idx: seq<nat>, pts: seq<Point>, ref': nat)
    requires Tracks(log, from, l, ref, idx, pts)
    ensures Tracks(log, |log|, l, ref', [], [pts[|idx|]])
  {
    assert log[|log|..] == [];
  }

  // ---------- Saving the points ----------

  predicate Hit(pt: Point, h: int, b: nat)
  {
    pt.hid == h && Bin(pt.since, pt.until) == b
  }

  /** How many of the first `n` points go to bin `b` of histogram `h`. */
  function Hits(pts: seq<Point>, n: nat, h: int, b: nat): nat
    requires n <= |pts|
  {
    if n == 0 then 0 else Hits(pts, n - 1, h, b) + (if Hit(pts[n - 1], h, b) then 1 else 0)
  }

  /** The events of the points that go there. */
  ghost function HitEvents(idx: seq<nat>, pts: seq<Point>, n: nat, h: int, b: nat): set<nat>
    requires n <= |idx| && n <= |pts|
  {
    set p | 0 <= p < n && Hit(pts[p], h, b) :: idx[p]
  }

  lemma {:induction false} HitsAreEvents(idx: seq<nat>, pts: seq<Point>, n: nat, h: int, b: nat)
    requires n <= |idx| && n <= |pts|
    requires forall p, q :: 0 <= p < q < |idx| ==> idx[p] != idx[q]
    ensures |HitEvents(idx, pts, n, h, b)| == Hits(pts, n, h, b)
  {
    if n > 0 {
      HitsAreEvents(idx, pts, n - 1, h, b);
      var before := HitEvents(idx, pts, n - 1, h, b);
      if Hit(pts[n - 1], h, b) {
        assert HitEvents(idx, pts, n, h, b) == before + {idx[n - 1]};
      } else {
        assert HitEvents(idx, pts, n, h, b) == before;
      }
    }
  }

  /** Point `p` is counted in the bin its delays give once the reference has come. */
  lemma PointCounted(log: seq<Item>, x: Item, from: nat, l: nat, ref: nat, idx: seq<nat>, pts: seq<Point>,
                     p: nat, h: int, b: nat)
    requires Tracks(log, from, l, ref, idx, pts) && x.isRef && p < |idx|
    ensures CountedAs(log + [x], from, ref, l, |log|, idx[p], h, b) <==> Hit(Waited(pts[p], x.toff), h, b)
  {
    var log', j := log + [x], idx[p];
    hide Bin, HistOf, Waited, Saturated, Points, Delay;
    PointAfter(log, x, l, ref, j, pts[p]);
    assert log'[j + 1..|log| + 1] == log'[j + 1..];
    SameStretch(log, x, Later(from, l + 1), j);
    assert PointsTo(log', Later(from, l + 1), j) == p;
  }

  /** Nothing else is counted between the two references. */
  lemma OnlyPointsCounted(log: seq<Item>, x: Item, from: nat, l: nat, ref: nat, idx: seq<nat>, pts: seq<Point>,
                          j: nat, h: int, b: nat)
    requires Tracks(log, from, l, ref, idx, pts) && x.isRef
    requires CountedAs(log + [x], from, ref, l, |log|, j, h, b)
    ensures j in idx
  {
    SameStretch(log, x, Later(from, l + 1), j);
    assert IsPoint(log[j]);
  }

  lemma BetweenIsHits(log: seq<Item>, x: Item, from: nat, l: nat, ref: nat, idx: seq<nat>, pts: seq<Point>,
                      h: int, b: nat)
    requires Tracks(log, from, l, ref, idx, pts) && x.isRef
    ensures Between(log + [x], from, ref, l, |log|, h, b)
         == HitEvents(idx, AllWaited(pts, x.toff), |idx|, h, b)
  {
    hide Hit, CountedAs, Waited;
    var log', waited := log + [x], AllWaited(pts, x.toff);
    forall p | 0 <= p < |idx|
      ensures idx[p] < |log|
      ensures CountedAs(log', from, ref, l, |log|, idx[p], h, b) <==> Hit(waited[p], h, b)
    {
      PointCounted(log, x, from, l, ref, idx, pts, p, h, b);
    }
    hide Tracks;
    forall j: nat | j < |log| && CountedAs(log', from, ref, l, |log|, j, h, b)
      ensures j in idx
    {
      OnlyPointsCounted(log, x, from, l, ref, idx, pts, j, h, b);
    }
  }

  /** The reference counts each point that was followed, and counts it once. */
  lemma RefCountsPoints(log: seq<Item>, x: Item, from: nat, l: nat, ref: nat, idx: seq<nat>, pts: seq<Point>,
                        h: int, b: nat)
    requires Tracks(log, from, l, ref, idx, pts) && x.isRef
    ensures |Entries(log + [x], from, ref, h, b)|
         == |Entries(log, from, ref, h, b)| + Hits(AllWaited(pts, x.toff), |idx|, h, b)
  {
    BetweenIsHits(log, x, from, l, ref, idx, pts, h, b);
    HitsAreEvents(idx, AllWaited(pts, x.toff), |idx|, h, b);
    RefCounts(log, x, from, ref, l, h, b);
    NotCountedBefore(log, from, ref, l, h, b);
    hide Entries, Hits, HitEvents, CountedAs;
    assert forall j :: j in Between(log + [x], from, ref, l, |log|, h, b) ==> j > l;
  }

  lemma NotCountedBefore(log: seq<Item>, from: nat, ref: nat, l: nat, h: int, b: nat)
    requires LatestRef(log, l)
    ensures forall j :: j in Entries(log, from, ref, h, b) ==> j < l
  {
  }

  lemma PointCount(log: seq<Item>, from: nat, l: nat, ref: nat, idx: seq<nat>, pts: seq<Point>)
    requires Tracks(log, from, l, ref, idx, pts)
    ensures |pts| == |idx| + 1 && from <= |log| && LatestRef(log, l)
  {
  }

  /** Before a second reference nothing can be counted. */
  lemma NoEntries(log: seq<Item>, from: nat, ref: nat, h: int, b: nat)
    requires |log| <= 1
    ensures Entries(log, from, ref, h, b) == {}
  {
  }

  /** A histogram begins empty. */
  lemma NothingYet(log: seq<Item>, ref: nat, h: int, b: nat)
    ensures Entries(log, |log|, ref, h, b) == {}
  {
  }
}
