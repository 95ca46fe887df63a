/** The jitter task: it builds the histogram event by event, with a few saturating
    sums for each point still waiting for its next reference. */
module Jitter {
  import opened Basics
  import opened Bytes
  import opened Frames
  import opened JitterOffline

  datatype Conf = Conf(ticks: nat, refCh: nat)

  /** A published histogram: the reference channel, and a label and the bins for each
      other channel. */
  datatype Message = Message(refCh: nat, labels: seq<nat>, bins: seq<seq<nat>>)

  // ---------- Events of a frame ----------

  function EventAt(f: Frame, e: nat): nat
  {
    e * TrueEsize(f)
  }

  /** Event `e` lies in the frame. */
  predicate HasEvent(f: Frame, e: nat)
  {
    EventAt(f, e) + 8 <= |f.body|
  }

  function Toff(f: Frame, e: nat): u16
    requires HasEvent(f, e)
  {
    Word(f.body, EventAt(f, e) + 6)
  }

  function Channel(f: Frame, e: nat): nat
    requires HasEvent(f, e)
  {
    f.body[EventAt(f, e) + 4] % 8
  }

  /** Where the channel and the delay of an event are: with `pre` its first four bytes, then
      two bytes of flags that begin with the channel, then the delay. */
  lemma EventBytes(f: Frame, e: nat, pre: seq<byte>, flags: seq<byte>, toff: u16)
    requires Good(f) && IsEvent(f) && HasEvent(f, e) && |pre| == 4 && |flags| == 2
    requires var at := 8 * f.esize * e;
             at + 8 <= |f.body| && f.body[at..at + 8] == pre + flags + Encode(toff, 2)
    ensures Channel(f, e) == flags[0] % 8 && Toff(f, e) == toff
  {
    GoodFrame(f);
    hide IsValid;
    var at := 8 * f.esize * e;
    SameProduct(f.esize, e);
    var s := f.body[at..at + 8];
    Ranges();
    WordIs(toff);
    assert f.body[at + 4] == s[4] == flags[0];
    assert f.body[at + 6] == s[6] == Encode(toff, 2)[0];
    assert f.body[at + 7] == s[7] == Encode(toff, 2)[1];
  }

  lemma SameProduct(size: nat, e: nat)
    ensures 8 * size * e == e * (size * 8)
  {
  }

  lemma WordIs(w: u16)
    ensures Encode(w, 2)[0] as int + 256 * (Encode(w, 2)[1] as int) == w
  {
    assert Encode(w / 256, 1) == [w / 256 % 256] + Encode(w / 256 / 256, 0);
  }

  lemma EventsFit(f: Frame, e: nat)
    requires Good(f) && IsEvent(f) && TrueEsize(f) > 0 && e < EventNums(f)
    ensures HasEvent(f, e)
  {
    GoodFrame(f);
    hide IsValid;
    if !IsTrace(f) {
      NumsAre(f);
      hide EventNums;
      WholeFits(f.length - HDR_LEN, f.esize * 8, e);
    }
  }

  /** How many events a frame of whole events has. */
  lemma NumsAre(f: Frame)
    requires IsEvent(f) && !IsTrace(f) && HDR_LEN < f.length && 0 < f.esize * 8 == TrueEsize(f)
    ensures EventNums(f) == (f.length - HDR_LEN) / (f.esize * 8)
  {
    QuotientSmall(f.length - HDR_LEN, f.esize * 8);
  }

  lemma QuotientSmall(len: nat, size: nat)
    requires 0 < size && len < U16
    ensures 0 <= len / size < U16
  {
    assert len == size * (len / size) + len % size;
    if len / size >= U16 {
      MulMono(1, U16, len / size);
      AtLeastOnce(len / size, size);
    }
  }

  lemma AtLeastOnce(q: nat, size: nat)
    requires size >= 1
    ensures size * q >= q
  {
    assert size * q == (size - 1) * q + q;
  }

  /** Event `e` of `len / size` lies within `len` bytes. */
  lemma WholeFits(len: nat, size: nat, e: nat)
    requires 0 < size && e < len / size
    ensures e * size + size <= len
  {
    assert len == size * (len / size) + len % size;
    MulMono(size, e + 1, len / size);
    assert size * (e + 1) == e * size + size;
  }

  lemma WholeQuotient(len: nat, size: nat)
    requires 0 < size && len > 0 && len % size == 0
    ensures len / size > 0
  {
    assert len == size * (len / size);
  }

  lemma {:induction false} MulMono(a: nat, b: nat, c: nat)
    requires b <= c
    ensures a * b <= a * c
    decreases c
  {
    if b < c {
      MulMono(a, b, c - 1);
      assert a * c == a * (c - 1) + a;
    }
  }

  function ItemAt(f: Frame, e: nat, ref: nat): Item
    requires HasEvent(f, e)
  {
    Item(Channel(f, e) == ref && !IsTick(f), IsTick(f), Channel(f, e), Toff(f, e))
  }

  /** A frame whose events are looked at: any event frame but the later frames of a
      long trace. */
  predicate Relevant(f: Frame, err: bool)
  {
    !err && IsEvent(f) && !(IsTraceLong(f) && !IsHeader(f))
  }

  /** From its fields: no frame in error, no MCA frame, and no later frame of a trace other
      than a dot product. */
  lemma RelevantInNumbers(f: Frame, err: bool)
    ensures Relevant(f, err) <==>
              !err && f.etherType == 0x88B5 && (f.tick || f.pkt != 3 || f.tr == 2 || f.pseq == 0)
  {
  }

  /** Only known channels occur. A tick has none: its flags are about lost events. */
  ghost predicate KnownChannels(f: Frame)
  {
    !IsTick(f) ==>
      forall e: nat :: TrueEsize(f) > 0 && e < EventNums(f) && HasEvent(f, e) ==> Channel(f, e) < NCHANNELS
  }

  /** The events of a frame from `e` on. */
  function Items(f: Frame, e: nat, n: nat, ref: nat): (s: seq<Item>)
    requires e <= n && forall i :: e <= i < n ==> HasEvent(f, i)
    ensures |s| == n - e
    decreases n - e
  {
    if e == n then [] else [ItemAt(f, e, ref)] + Items(f, e + 1, n, ref)
  }

  lemma {:induction false} ItemsAt(f: Frame, e: nat, n: nat, ref: nat, i: nat)
    requires e <= i < n && forall k :: e <= k < n ==> HasEvent(f, k)
    ensures Items(f, e, n, ref)[i - e] == ItemAt(f, i, ref)
    decreases n - e
  {
    if e < i {
      ItemsAt(f, e + 1, n, ref, i);
    }
  }

  lemma AllEventsFit(f: Frame)
    requires Good(f) && IsEvent(f) && TrueEsize(f) > 0
    ensures forall i :: 0 <= i < EventNums(f) ==> HasEvent(f, i)
  {
    forall i | 0 <= i < EventNums(f)
      ensures HasEvent(f, i)
    {
      EventsFit(f, i);
    }
  }

  function ItemsOf(f: Frame, ref: nat): seq<Item>
    requires Good(f) && IsEvent(f)
  {
    GoodFrame(f);
    AllEventsFit(f);
    Items(f, 0, EventNums(f), ref)
  }

  /** Until the first reference has come, a frame that does not begin with one is not
      taken into account. */
  predicate Waits(log: seq<Item>, items: seq<Item>)
  {
    log == [] && items != [] && !items[0].isRef
  }

  function Process(log: seq<Item>, items: seq<Item>): seq<Item>
  {
    if Waits(log, items) then log else log + items
  }

  /** A bin with initial value `v` after `k` points, in 32 bits. */
  function Counter(v: nat, k: nat): nat
  {
    (v + k) % U32
  }

  lemma CounterStep(v: nat, k: nat)
    ensures (Counter(v, k) + 1) % U32 == Counter(v, k + 1)
    ensures v < U32 ==> Counter(v, 0) == v
  {
  }

  lemma CounterSum(v: nat, n: nat, k: nat)
    requires v == n % U32
    ensures Counter(v, k) == (n + k) % U32
  {
  }

  // ---------- The tick count ----------

  /** Ticks counted, and whether the first reference has come. */
  datatype Clock = Clock(ticks: nat, running: bool)

  /** A frame taken into account: a tick, or one that begins with a reference, or
      neither. */
  datatype Beat = TickBeat | RefBeat | OtherBeat

  predicate Held(c: Clock, b: Beat) { !c.running && !b.RefBeat? }

  function Counting(c: Clock, b: Beat): nat
  {
    c.ticks + (if b.TickBeat? then 1 else 0)
  }

  /** A histogram is published when the count reaches one more than `n`. */
  predicate Publishing(c: Clock, b: Beat, n: nat)
  {
    !Held(c, b) && Counting(c, b) == n + 1
  }

  function NextClock(c: Clock, b: Beat, n: nat): Clock
  {
    if Held(c, b) then Clock(Counting(c, b), false)
    else if Publishing(c, b, n) then Clock(1, true)
    else Clock(Counting(c, b), true)
  }

  /** How many histograms of `n` ticks are published. */
  function Published(c: Clock, beats: seq<Beat>, n: nat): nat
    decreases |beats|
  {
    if beats == [] then 0
    else (if Publishing(c, beats[0], n) then 1 else 0) + Published(NextClock(c, beats[0], n), beats[1..], n)
  }

  function Ticks(beats: seq<Beat>): nat
  {
    if beats == [] then 0 else (if beats[0].TickBeat? then 1 else 0) + Ticks(beats[1..])
  }

  /** Once the references have begun in time, there is a histogram every `n` ticks. */
  lemma {:induction false} PublishedRegularly(c: Clock, beats: seq<Beat>, n: nat)
    requires c.running && 1 <= c.ticks <= n
    ensures Published(c, beats, n) == (c.ticks - 1 + Ticks(beats)) / n
    decreases |beats|
  {
    if beats == [] {
      SmallQuotient(c.ticks - 1, n);
    } else {
      var c' := NextClock(c, beats[0], n);
      PublishedRegularly(c', beats[1..], n);
      if Publishing(c, beats[0], n) {
        OneMoreRound(Ticks(beats[1..]), n);
      }
    }
  }

  lemma SmallQuotient(x: nat, n: nat)
    requires x < n
    ensures x / n == 0
  {
  }

  lemma OneMoreRound(x: nat, n: nat)
    requires n > 0
    ensures (x + n) / n == x / n + 1
  {
    assert x + n == n * (x / n + 1) + x % n;
    QuotientUnique(x + n, n, x / n + 1, x % n);
  }

  lemma QuotientUnique(x: nat, n: nat, q: nat, r: nat)
    requires n > 0 && x == n * q + r && r < n
    ensures x / n == q
  {
    var q' := x / n;
    assert x == n * q' + x % n;
    if q < q' {
      assert n * (q + 1) == n * q + n;
      MulMono(n, q + 1, q');
    } else if q > q' {
      assert n * (q' + 1) == n * q' + n;
      MulMono(n, q' + 1, q);
    }
  }

  /** A count that has passed the mark never comes back to it. */
  lemma {:induction false} NeverPublished(c: Clock, beats: seq<Beat>, n: nat)
    requires c.ticks > n + 1
    ensures Published(c, beats, n) == 0
    decreases |beats|
  {
    if beats != [] {
      NeverPublished(NextClock(c, beats[0], n), beats[1..], n);
    }
  }

  /** What is published from the first reference on. */
  lemma FromReference(k: nat, n: nat, beats: seq<Beat>)
    ensures Published(Clock(k, false), [RefBeat] + beats, n)
         == (if k == n + 1 then 1 else 0) + Published(NextClock(Clock(k, false), RefBeat, n), beats, n)
  {
    assert ([RefBeat] + beats)[1..] == beats;
  }

  lemma ReferenceInTime(k: nat, n: nat) returns (beats: seq<Beat>)
    requires 1 <= k <= n + 1 && n >= 1
    ensures Published(Clock(k, false), [RefBeat] + beats, n) > 0
  {
    hide Published, Ticks;
    if k == n + 1 {
      beats := [];
      FromReference(k, n, beats);
    } else {
      beats := seq(n, i => TickBeat);
      FromReference(k, n, beats);
      AllTicks(beats);
      assert NextClock(Clock(k, false), RefBeat, n) == Clock(k, true);
      PublishedRegularly(Clock(k, true), beats, n);
      OneMoreRound(k - 1, n);
    }
  }

  /** After waiting `k` ticks for its first reference the task ever publishes a
      histogram if and only if no more than one tick too many has passed. */
  lemma PublishesIffReferenceInTime(k: nat, n: nat)
    requires k >= 1 && n >= 1
    ensures (exists beats: seq<Beat> :: Published(Clock(k, false), [RefBeat] + beats, n) > 0) <==> k <= n + 1
  {
    hide Published;
    if k <= n + 1 {
      var beats := ReferenceInTime(k, n);
    } else {
      forall beats: seq<Beat>
        ensures Published(Clock(k, false), [RefBeat] + beats, n) == 0
      {
        FromReference(k, n, beats);
        NeverPublished(NextClock(Clock(k, false), RefBeat, n), beats, n);
      }
    }
  }

  lemma {:induction false} AllTicks(beats: seq<Beat>)
    requires forall i :: 0 <= i < |beats| ==> beats[i] == TickBeat
    ensures Ticks(beats) == |beats|
  {
    if beats != [] {
      AllTicks(beats[1..]);
    }
  }

  class JitterData {
    var curConf: Conf
    var conf: Conf
    const bins: array2<nat>
    const labels: array<nat>
    var ticks: nat
    const points: array<Point>
    var npts: nat            // events of other channels since the last reference + 1
    var publishing: bool
    // the events taken into account since the task was activated, the first of this
    // histogram, the latest reference, and the event each point stands for
    ghost var log: seq<Item>
    ghost var from: nat
    ghost var latest: nat
    ghost var idx: seq<nat>

    ghost predicate Shape()
      reads this
    {
      && bins.Length0 == NHISTS && bins.Length1 == NBINS && labels.Length == NHISTS
      && points.Length == MAX_SIMULT_POINTS && npts < MAX_SIMULT_POINTS
      && curConf.ticks > 0 && curConf.refCh <= NHISTS
      && conf.ticks > 0 && conf.refCh <= NHISTS
    }

    ghost predicate Tracking()
      requires Shape()
      reads this, points
    {
      && (npts == 0 ==> log == [] && from == 0)
      && (npts > 0 ==> Tracks(log, from, latest, curConf.refCh, idx, points[..npts]))
      && forall j :: from <= j < |log| && IsPoint(log[j]) ==>
           log[j].ch < NCHANNELS && log[j].ch != curConf.refCh
    }

    /** The bins so far are those of the offline definition, in 32 bits. */
    ghost predicate Histogram(l: seq<Item>)
      requires Shape()
      reads this, bins
    {
      forall h, b :: 0 <= h < NHISTS && 0 <= b < NBINS ==>
        bins[h, b] == |Entries(l, from, curConf.refCh, h, b)| % U32
    }

    ghost predicate Labelled()
      requires Shape()
      reads this, labels
    {
      forall h :: 0 <= h < NHISTS ==> labels[h] == LabelOf(h, curConf.refCh)
    }

    ghost predicate Valid()
      reads this, bins, labels, points
    {
      Shape() && Tracking() && Histogram(log) && Labelled()
    }

    // ---------- One event ----------

    /** Adds `delay` to what every point but the last has waited. */
    method AddUntil(delay: nat)
      requires Shape()
      modifies points
      ensures points[..npts] == AllWaited(old(points[..npts]), delay)
    {
      var p := 0;
      while p < npts - 1
        invariant 0 <= p <= npts
        invariant forall q :: 0 <= q < p ==> points[q] == Waited(old(points[q]), delay)
        invariant forall q :: p <= q < points.Length ==> points[q] == old(points[q])
        invariant p > 0 ==> p <= npts - 1
      {
        var pt := points[p];
        if pt.until + delay > UINT16_MAX {
          points[p] := pt.(until := UINT16_MAX);
        } else {
          points[p] := pt.(until := pt.until + delay);
        }
        p := p + 1;
      }
    }

    /** Adds point `pt` to its histogram. */
    method SavePoint(pt: Point)
      requires Shape() && 0 <= pt.hid < NHISTS
      modifies bins
      ensures forall h, b :: 0 <= h < NHISTS && 0 <= b < NBINS ==>
                bins[h, b] == if Hit(pt, h, b) then (old(bins[h, b]) + 1) % U32 else old(bins[h, b])
      // the same in numbers
      ensures forall h, b :: 0 <= h < NHISTS && 0 <= b < NBINS ==>
                bins[h, b] == if h == pt.hid && InBin(pt.since, pt.until, b) then (old(bins[h, b]) + 1) % U32
                              else old(bins[h, b])
    {
      var bin: int := pt.since;
      if bin > pt.until {
        bin := -(pt.until as int);
      }
      bin := bin + BIN_OFFSET;
      if bin < 0 {
        bin := 0;
      } else if bin >= NBINS {
        bin := NBINS - 1;
      }
      bins[pt.hid, bin] := (bins[pt.hid, bin] + 1) % U32;
    }

    /** The bins after adding the first `n` of the points to what they held. */
    twostate predicate Added(pts: seq<Point>, n: nat)
      requires Shape() && n <= |pts|
      reads this, bins
    {
      forall h, b :: 0 <= h < NHISTS && 0 <= b < NBINS ==>
        bins[h, b] == Counter(old(bins[h, b]), Hits(pts, n, h, b))
    }

    /** On a reference: adds all points but the last to the histograms, and begins
        anew. */
    method SavePoints()
      requires Shape()
      requires forall p :: 0 <= p < npts - 1 ==> 0 <= points[p].hid < NHISTS
      requires forall h, b :: 0 <= h < NHISTS && 0 <= b < NBINS ==> bins[h, b] < U32
      modifies this`npts, points, bins
      ensures npts == 1 && points[0] == FIRST_GHOST
      ensures Added(old(points[..npts]), if old(npts) == 0 then 0 else old(npts) - 1)
    {
      hide Counter, Hit;
      ghost var pts := points[..npts];
      forall h, b | 0 <= h < NHISTS && 0 <= b < NBINS
        ensures bins[h, b] == Counter(old(bins[h, b]), Hits(pts, 0, h, b))
      {
        CounterStep(bins[h, b], 0);
      }
      var p := 0;
      while p < npts - 1
        invariant 0 <= p <= npts && (p > 0 ==> p <= npts - 1)
        invariant forall h, b :: 0 <= h < NHISTS && 0 <= b < NBINS ==>
                    bins[h, b] == Counter(old(bins[h, b]), Hits(pts, p, h, b))
        modifies bins
      {
        SavePoint(points[p]);
        forall h, b | 0 <= h < NHISTS && 0 <= b < NBINS
          ensures bins[h, b] == Counter(old(bins[h, b]), Hits(pts, p + 1, h, b))
        {
          CounterStep(old(bins[h, b]), Hits(pts, p, h, b));
        }
        p := p + 1;
      }
      points[0] := FIRST_GHOST;
      npts := 1;
    }

    /** An event that is not a reference: the last point collects its delay, and
        becomes a point of its own if there is room. */
    method CollectPoint(x: Item)
      requires Shape() && npts > 0 && !x.isRef
      modifies this`npts, points
      ensures Shape()
      ensures points[..npts] == AfterEvent(old(points[..npts]), x, curConf.refCh)
    {
      AddUntil(x.toff);
      var last := points[npts - 1];
      var since := if last.since + x.toff > UINT16_MAX then UINT16_MAX else last.since + x.toff;
      points[npts - 1] := last.(since := since);
      if !x.isTick && npts < MAX_SIMULT_POINTS - 1 {
        points[npts - 1] := points[npts - 1].(hid := HistOf(x.ch, curConf.refCh));
        points[npts] := Point(since, 0, -1);
        npts := npts + 1;
      }
    }

    /** The points of a valid state have a histogram. */
    lemma PointsHaveHists()
      requires Shape() && Tracking()
      ensures forall p :: 0 <= p < npts - 1 ==> 0 <= points[p].hid < NHISTS
    {
      if npts > 0 {
        forall p | 0 <= p < npts - 1
          ensures 0 <= points[p].hid < NHISTS
        {
          assert PointOf(log, latest, curConf.refCh, idx[p], points[..npts][p]);
          assert from <= idx[p];
        }
      }
    }

    /** What reference `x` adds to each bin. */
    ghost function NewHits(x: Item, h: int, b: nat): nat
      requires Shape()
      reads this, points
    {
      if npts == 0 then 0 else Hits(AllWaited(points[..npts], x.toff), npts - 1, h, b)
    }

    lemma ReferenceCounted(x: Item, h: int, b: nat)
      requires Shape() && Tracking() && x.isRef
      ensures |Entries(log + [x], from, curConf.refCh, h, b)|
           == |Entries(log, from, curConf.refCh, h, b)| + NewHits(x, h, b)
    {
      hide Entries, Hits, AllWaited, Tracks;
      if npts > 0 {
        RefCountsPoints(log, x, from, latest, curConf.refCh, idx, points[..npts], h, b);
        PointCount(log, from, latest, curConf.refCh, idx, points[..npts]);
      } else {
        NoEntries(log, from, curConf.refCh, h, b);
        NoEntries(log + [x], from, curConf.refCh, h, b);
      }
    }

    /** Adds the waiting points to the histograms. */
    method CountPoints(x: Item)
      requires Valid() && x.isRef
      modifies this`npts, points, bins
      ensures npts == 1 && points[0] == FIRST_GHOST
      ensures forall h, b :: 0 <= h < NHISTS && 0 <= b < NBINS ==>
                bins[h, b] == Counter(old(bins[h, b]), old(NewHits(x, h, b)))
    {
      PointsHaveHists();
      hide Entries, Hits, Tracks, Counter, Histogram, Labelled, Tracking;
      AddUntil(x.toff);
      forall p | 0 <= p < npts - 1
        ensures 0 <= points[p].hid < NHISTS
      {
        assert points[..npts][p] == AllWaited(old(points[..npts]), x.toff)[p];
      }
      SavePoints();
    }

    /** A reference. */
    method Reference(x: Item)
      requires Valid() && x.isRef
      modifies this`npts, this`log, this`latest, this`idx, points, bins
      ensures Valid() && npts == 1 && log == old(log) + [x]
    {
      hide Entries, Hits, AllWaited, Tracks, Counter, NewHits;
      forall h, b | 0 <= h < NHISTS && 0 <= b < NBINS
        ensures Counter(bins[h, b], NewHits(x, h, b)) == |Entries(log + [x], from, curConf.refCh, h, b)| % U32
      {
        ReferenceCounted(x, h, b);
        CounterSum(bins[h, b], |Entries(log, from, curConf.refCh, h, b)|, NewHits(x, h, b));
      }
      FromInLog();
      TracksRef(log, from, curConf.refCh, x);
      CountPoints(x);
      latest, idx := |log|, [];
      log := log + [x];
      assert points[..1] == [FIRST_GHOST];
    }

    lemma FromInLog()
      requires Shape() && Tracking()
      ensures from <= |log|
    {
    }

    /** An event that is not a reference. */
    method NonReference(x: Item)
      requires Valid() && npts > 0 && !x.isRef
      requires IsPoint(x) ==> x.ch < NCHANNELS && x.ch != curConf.refCh
      modifies this`npts, this`log, this`idx, points
      ensures Valid() && npts > 0 && log == old(log) + [x]
    {
      hide Entries, AfterEvent, Tracks;
      ghost var idx' := TracksEvent(log, from, latest, curConf.refCh, idx, points[..npts], x);
      forall h, b | 0 <= h < NHISTS && 0 <= b < NBINS
        ensures Entries(log + [x], from, curConf.refCh, h, b) == Entries(log, from, curConf.refCh, h, b)
      {
        NothingCounted(log, x, from, curConf.refCh, h, b);
      }
      AfterEventIs(points[..npts], x, curConf.refCh);
      CollectPoint(x);
      log, idx := log + [x], idx';
    }

    // ---------- Publishing and waking up ----------

    /** Labels each histogram with its channel, leaving out the reference. */
    method LabelHists()
      requires Shape()
      modifies labels
      ensures forall h :: 0 <= h < NHISTS ==> labels[h] == LabelOf(h, conf.refCh)
    {
      var ch := 0;
      for h := 0 to NHISTS
        invariant ch == h || (ch == h + 1 && h > conf.refCh)
        invariant ch == h ==> h <= conf.refCh
        invariant forall k :: 0 <= k < h ==> labels[k] == LabelOf(k, conf.refCh)
      {
        if ch == conf.refCh {
          ch := ch + 1;
        }
        labels[h] := ch;
        ch := ch + 1;
      }
    }

    /** Begins a new histogram with the latest configuration. */
    method PrepareNext()
      requires Shape()
      requires if publishing then Tracking() && npts > 0 else npts == 0 && log == [] && from == 0
      modifies this`curConf, this`ticks, this`npts, this`from, this`idx, points, bins, labels
      ensures Valid() && curConf == conf
      ensures publishing ==> from == |log| && npts == 1 && ticks == 1
      ensures !publishing ==> from == 0 && npts == 0 && ticks == 0
    {
      hide Entries, Tracks, LatestRef;
      if publishing {
        TracksPublish(log, from, latest, curConf.refCh, idx, points[..npts], conf.refCh);
        PointCount(log, from, latest, curConf.refCh, idx, points[..npts]);
      }
      curConf := conf;
      forall h, b | 0 <= h < NHISTS && 0 <= b < NBINS {
        bins[h, b] := 0;
      }
      LabelHists();
      from := |log|;
      ticks := 0;
      if publishing {
        points[0] := points[npts - 1];
        npts := 1;
        ticks := 1;
        assert points[..1] == [old(points[..npts])[|idx|]];
        idx := [];
      }
      forall h, b | 0 <= h < NHISTS && 0 <= b < NBINS
        ensures Entries(log, from, curConf.refCh, h, b) == {}
      {
        NothingYet(log, curConf.refCh, h, b);
      }
    }

    /** Called when the task is activated. */
    method Wakeup()
      requires Shape()
      modifies this`curConf, this`ticks, this`npts, this`publishing, this`log, this`from, this`idx
      modifies points, bins, labels
      ensures Valid() && curConf == conf && !publishing && log == [] && from == 0 && ticks == 0
    {
      publishing := false;
      npts := 0;
      log, from := [], 0;
      PrepareNext();
    }

    constructor ()
      ensures Valid() && curConf == conf == Conf(5, 0) && !publishing && log == []
      ensures fresh(bins) && fresh(labels) && fresh(points)
    {
      conf, curConf := Conf(5, 0), Conf(5, 0);
      bins := new nat[NHISTS, NBINS]((h, b) => 0);
      labels := new nat[NHISTS](h => 0);
      points := new Point[MAX_SIMULT_POINTS](p => FIRST_GHOST);
      ticks, npts, publishing := 0, 0, false;
      log, from, latest, idx := [], 0, 0, [];
      new;
      PrepareNext();
    }

    /** A client's request for another configuration, to be used from the next
        histogram on; an invalid one changes nothing. */
    method Configure(refCh: nat, n: nat)
      requires Valid()
      modifies this`conf
      ensures Valid()
      ensures conf == if n == 0 || refCh > NHISTS then old(conf) else Conf(n, refCh)
    {
      if n == 0 || refCh > NHISTS {
        return;
      }
      conf := Conf(n, refCh);
    }

    // ---------- The packet handler ----------

    /** The histogram as it is sent. */
    method Snapshot() returns (m: Message)
      requires Shape()
      ensures m.refCh == curConf.refCh && |m.labels| == |m.bins| == NHISTS
      ensures forall h :: 0 <= h < NHISTS ==> m.labels[h] == labels[h] && |m.bins[h]| == NBINS
      ensures forall h, b :: 0 <= h < NHISTS && 0 <= b < NBINS ==> m.bins[h][b] == bins[h, b]
    {
      var rows: seq<seq<nat>> := [];
      for h := 0 to NHISTS
        invariant |rows| == h
        invariant forall k :: 0 <= k < h ==> |rows[k]| == NBINS
        invariant forall k, b :: 0 <= k < h && 0 <= b < NBINS ==> rows[k][b] == bins[k, b]
      {
        var row: seq<nat> := [];
        for b := 0 to NBINS
          invariant |row| == b && forall c :: 0 <= c < b ==> row[c] == bins[h, c]
        {
          row := row + [bins[h, b]];
        }
        rows := rows + [row];
      }
      m := Message(curConf.refCh, labels[..], rows);
    }

    /** The message is the histogram of the events `l`, begun with event `from'`. */
    static ghost predicate Publishes(m: Message, l: seq<Item>, from': nat, ref: nat)
    {
      && m.refCh == ref && |m.labels| == |m.bins| == NHISTS
      && (forall h :: 0 <= h < NHISTS ==> m.labels[h] == LabelOf(h, ref) && |m.bins[h]| == NBINS)
      && (forall h, b :: 0 <= h < NHISTS && 0 <= b < NBINS ==>
            m.bins[h][b] == |Entries(l, from', ref, h, b)| % U32)
    }

    /** Takes the events of a frame into account, unless it still waits for the first
        reference. */
    method HandleEvents(f: Frame) returns (waits: bool)
      requires Valid() && Good(f) && IsEvent(f) && KnownChannels(f)
      modifies this`npts, this`log, this`latest, this`idx, points, bins
      ensures Valid()
      ensures waits <==> Waits(old(log), ItemsOf(f, curConf.refCh))
      ensures log == Process(old(log), ItemsOf(f, curConf.refCh))
    {
      hide Tracks, Entries, ItemAt, Channel, HasEvent, IsValid;
      GoodEvents(f);
      ghost var items := ItemsOf(f, curConf.refCh);
      EmptyLog();
      for e := 0 to EventNums(f)
        invariant Valid() && log == old(log) + items[..e]
        invariant e > 0 ==> log != [] && !Waits(old(log), items)
      {
        EventFacts(f, e, curConf.refCh);
        var x := ItemAt(f, e, curConf.refCh);
        assert x == items[e];
        EmptyLog();
        if !x.isRef && npts == 0 {
          return true;
        }
        if x.isRef {
          Reference(x);
        } else {
          NonReference(x);
        }
      }
      assert items[..|items|] == items;
      return false;
    }

    ghost function ClockOf(): Clock
      reads this
    {
      Clock(ticks, log != [])
    }

    /** Frames count from the first tick on. */
    ghost predicate Takes(f: Frame, err: bool)
      reads this
    {
      (publishing || IsTick(f)) && Relevant(f, err)
    }

    static ghost function BeatOf(f: Frame, ref: nat): Beat
      requires Good(f) && IsEvent(f)
    {
      if IsTick(f) then TickBeat
      else if ItemsOf(f, ref) != [] && ItemsOf(f, ref)[0].isRef then RefBeat
      else OtherBeat
    }

    /** The packet handler: returns the histogram it publishes, if any. */
    method HandlePacket(f: Frame, err: bool) returns (msg: Option<Message>)
      requires Valid() && (!err ==> Good(f)) && (!err && IsEvent(f) ==> KnownChannels(f))
      modifies this`curConf, this`ticks, this`npts, this`publishing
      modifies this`log, this`from, this`latest, this`idx, points, bins, labels
      ensures Valid() && (publishing <==> old(publishing) || IsTick(f))
      ensures !old(Takes(f, err)) ==>
                msg.None? && log == old(log) && from == old(from) && ticks == old(ticks) && curConf == old(curConf)
      ensures old(Takes(f, err)) ==>
                && log == Process(old(log), ItemsOf(f, old(curConf.refCh)))
                && var b := BeatOf(f, old(curConf.refCh));
                && ClockOf() == NextClock(old(ClockOf()), b, old(curConf.ticks))
                && (msg.Some? <==> Publishing(old(ClockOf()), b, old(curConf.ticks)))
      ensures msg.Some? ==> Publishes(msg.value, log, old(from), old(curConf.refCh))
      ensures msg.Some? ==> from == |log| && curConf == conf
      ensures msg.None? ==> from == old(from) && curConf == old(curConf)
    {
      hide Tracks, Entries, IsValid, Items, ItemsOf, EventNums, TrueEsize, KnownChannels, LabelOf;
      msg := None;
      if !publishing && IsTick(f) {
        publishing := true;
      }
      if !publishing || err || !IsEvent(f) {
        return;
      }
      if IsTraceLong(f) && !IsHeader(f) {
        return;
      }
      FirstItem(f, curConf.refCh);
      EmptyLog();
      if IsTick(f) {
        ticks := ticks + 1;
      }
      var waits := HandleEvents(f);
      EmptyLog();
      if waits {
        return;
      }
      if ticks == curConf.ticks + 1 {
        var m := Snapshot();
        SnapshotIs(m);
        hide Publishes, Labelled, Tracking;
        PrepareNext();
        msg := Some(m);
      }
    }

    lemma SnapshotIs(m: Message)
      requires Valid()
      requires m.refCh == curConf.refCh && |m.labels| == |m.bins| == NHISTS
      requires forall h :: 0 <= h < NHISTS ==> m.labels[h] == labels[h] && |m.bins[h]| == NBINS
      requires forall h, b :: 0 <= h < NHISTS && 0 <= b < NBINS ==> m.bins[h][b] == bins[h, b]
      ensures Publishes(m, log, from, curConf.refCh)
    {
      hide Entries, Tracks;
    }

    lemma EmptyLog()
      requires Shape() && Tracking()
      ensures npts == 0 <==> log == []
    {
    }
  }

  lemma GoodEvents(f: Frame)
    requires Good(f) && IsEvent(f)
    ensures TrueEsize(f) > 0
    ensures forall ref: nat :: |ItemsOf(f, ref)| == EventNums(f)
  {
    GoodFrame(f);
  }

  lemma EventFacts(f: Frame, e: nat, ref: nat)
    requires Good(f) && IsEvent(f) && TrueEsize(f) > 0 && KnownChannels(f) && e < EventNums(f)
    ensures HasEvent(f, e) && ItemsOf(f, ref)[e] == ItemAt(f, e, ref)
    ensures IsPoint(ItemAt(f, e, ref)) ==> ItemAt(f, e, ref).ch < NCHANNELS && ItemAt(f, e, ref).ch != ref
  {
    hide IsValid;
    AllEventsFit(f);
    ItemsAt(f, 0, EventNums(f), ref, e);
  }

  /** A frame that is looked at has events; a tick is not a reference. */
  lemma FirstItem(f: Frame, ref: nat)
    requires Good(f) && Relevant(f, false)
    ensures ItemsOf(f, ref) != [] && (IsTick(f) ==> !ItemsOf(f, ref)[0].isRef)
  {
    hide IsValid;
    GoodFrame(f);
    GoodEvents(f);
    if !IsTrace(f) {
      WholeEvents(f);
    }
    AllEventsFit(f);
    ItemsAt(f, 0, EventNums(f), ref, 0);
  }

  lemma WholeEvents(f: Frame)
    requires Good(f) && IsEvent(f) && !IsTrace(f) && TrueEsize(f) > 0
    ensures EventNums(f) > 0
  {
    GoodFrame(f);
    GoodIff(f);
    hide IsValid;
    NumsAre(f);
    hide EventNums;
    WholeQuotient(f.length - HDR_LEN, f.esize * 8);
  }

  /** What is taken into account of a frame, from its fields: a tick counts as such and has
      one event that is no reference; another frame begins with a reference if its first
      event is of the reference channel; each event has its channel and its delay. */
  lemma FrameInNumbers(f: Frame, ref: nat, e: nat)
    requires Good(f) && Relevant(f, false) && e < |ItemsOf(f, ref)|
    ensures HasEvent(f, 0) && HasEvent(f, e)
    ensures var x := ItemsOf(f, ref)[e];
            && x.ch == Channel(f, e) && x.toff == Toff(f, e) && (x.isTick <==> f.tick)
            && (x.isRef <==> !f.tick && Channel(f, e) == ref)
    ensures JitterData.BeatOf(f, ref).TickBeat? <==> f.tick
    ensures JitterData.BeatOf(f, ref).RefBeat? <==> !f.tick && Channel(f, 0) == ref
    ensures if f.pkt == 3 && !f.tick then |ItemsOf(f, ref)| == 1
            else |ItemsOf(f, ref)| * (8 * f.esize) == f.length - 24
  {
    hide IsValid;
    GoodFrame(f);
    GoodEvents(f);
    FirstItem(f, ref);
    AllEventsFit(f);
    ItemsAt(f, 0, EventNums(f), ref, e);
    ItemsAt(f, 0, EventNums(f), ref, 0);
    if !IsTrace(f) {
      GoodIff(f);
      NumsAre(f);
      Whole(f.length - HDR_LEN, f.esize * 8);
    }
  }

  lemma Whole(len: nat, size: nat)
    requires 0 < size && len % size == 0
    ensures len / size * size == len
  {
  }
}
