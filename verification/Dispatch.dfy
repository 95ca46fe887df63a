/** The coordinator's and the tasks' loops over rings and packets, and the counts of
    missed frames they make. */
module Dispatch {
  import opened Bytes
  import opened Frames
  import opened RingIds

  // ---------- Frame sequence gaps ----------

  /** Frames missed between two that follow each other, as 16-bit numbers tell. */
  function Gap(prev: u16, next: u16): u16
  {
    (next - prev - 1) % U16
  }

  /** All gaps from frame number `prev` through `fs`. */
  function Gaps(prev: u16, fs: seq<Frame>): nat
  {
    if fs == [] then 0
    else Gaps(prev, fs[..|fs| - 1]) + Gap(LastSeq(prev, fs[..|fs| - 1]), fs[|fs| - 1].fseq)
  }

  function LastSeq(prev: u16, fs: seq<Frame>): u16
  {
    if fs == [] then prev else fs[|fs| - 1].fseq
  }

  /** `a` and `b` are equal as 16-bit numbers. */
  predicate Same16(a: int, b: int)
  {
    a % U16 == b % U16
  }

  lemma ModSum(a: int, b: int, c: int)
    requires Same16(a, b)
    ensures Same16(a + c, b + c)
  {
  }

  /** Over any run the gaps and the frames themselves add up to how far the frame
      number has moved. */
  lemma {:induction false} GapsTelescope(prev: u16, fs: seq<Frame>)
    ensures Same16(Gaps(prev, fs) + |fs|, LastSeq(prev, fs) - prev)
  {
    if fs != [] {
      var init := fs[..|fs| - 1];
      GapsTelescope(prev, init);
      var mid, last := LastSeq(prev, init), LastSeq(prev, fs);
      ModSum(Gaps(prev, init) + |init|, mid - prev, Gap(mid, last) + 1);
      ModSum(Gap(mid, last), last - mid - 1, mid - prev + 1);
    }
  }

  /** ... exactly so when there are not too many of them for 16 bits. */
  lemma GapsAreExact(prev: u16, fs: seq<Frame>)
    ensures Gaps(prev, fs) + |fs| == (LastSeq(prev, fs) - prev) % U16 <==> Gaps(prev, fs) + |fs| < U16
  {
    hide Gaps;
    GapsTelescope(prev, fs);
  }

  /** The coordinator's count for a batch: from the first and the last frame number
      and the number of frames. */
  function BatchMissed(fs: seq<Frame>): u16
    requires fs != []
  {
    (fs[|fs| - 1].fseq - fs[0].fseq - |fs| + 1) % U16
  }

  /** It equals the gaps inside the batch, exactly when they fit 16 bits. */
  lemma BatchMissedIsGaps(fs: seq<Frame>)
    requires fs != []
    ensures BatchMissed(fs) == Gaps(fs[0].fseq, fs[1..]) % U16
    ensures BatchMissed(fs) == Gaps(fs[0].fseq, fs[1..]) <==> Gaps(fs[0].fseq, fs[1..]) < U16
  {
    var first, rest := fs[0].fseq, fs[1..];
    GapsTelescope(first, rest);
    assert LastSeq(first, rest) == fs[|fs| - 1].fseq;
    ModSum(Gaps(first, rest) + |rest|, LastSeq(first, rest) - first, -|rest|);
  }

  // ---------- Rings and tasks ----------

  /** A slot's buffer and how many bytes of it were received. */
  datatype Packet = Packet(frame: Frame, len: u16)

  class IfRing {
    const n: nat
    const slots: array<Packet>
    var head: nat
    var cur: nat
    var tail: nat

    ghost predicate Valid()
      reads this
    {
      slots.Length == n && head < n && cur < n && tail < n
    }

    /** The frames in the `count` slots from `from` on. */
    ghost function FramesFrom(from: nat, count: nat): (fs: seq<Frame>)
      requires Valid() && from < n
      reads this, slots
      ensures |fs| == count
      decreases count
    {
      if count == 0 then []
      else [slots[from].frame] + FramesFrom(Following(n, from), count - 1)
    }
  }

  /** The slot `k` places after `from`. */
  function Ahead(n: nat, from: nat, k: nat): (i: nat)
    requires from < n && k < n
    ensures i < n
  {
    if from + k < n then from + k else from + k - n
  }

  class TaskState {
    var active: bool
    const heads: array<nat>
    var prevFseq: u16
    var prevPseqMca: u16
    var prevPseqTr: u16
  }

  ghost predicate RingsValid(rings: seq<IfRing>)
    reads rings
  {
    forall r :: 0 <= r < |rings| ==> rings[r].Valid()
  }

  /** Every task has a head in every ring. */
  ghost predicate HeadsValid(tasks: seq<TaskState>, rings: seq<IfRing>)
    reads (set t | t in tasks :: t.heads)
  {
    && (forall t :: 0 <= t < |tasks| ==> tasks[t].heads.Length == |rings|)
    && (forall t, r :: 0 <= t < |tasks| && 0 <= r < |rings| ==> tasks[t].heads[r] < rings[r].n)
  }

  // ---------- The slowest heads ----------

  /** `h` is the head in ring `r` of one of the first `k` tasks that are active, and
      none of them is less far ahead of the ring's head. */
  ghost predicate Slowest(tasks: seq<TaskState>, k: nat, g: IfRing, r: nat, h: nat)
    requires k <= |tasks| && g.Valid()
    requires forall t :: 0 <= t < k ==> r < tasks[t].heads.Length && tasks[t].heads[r] < g.n
    reads tasks, (set t | t in tasks :: t.heads), g
  {
    && h < g.n
    && (exists t :: 0 <= t < k && tasks[t].active && tasks[t].heads[r] == h)
    && (forall t :: 0 <= t < k && tasks[t].active ==>
          Between(g.n, g.head, h) <= Between(g.n, g.head, tasks[t].heads[r]))
  }

  ghost predicate AnyActive(tasks: seq<TaskState>, k: nat)
    requires k <= |tasks|
    reads tasks
  {
    exists t :: 0 <= t < k && tasks[t].active
  }

  lemma SlowestOfMore(tasks: seq<TaskState>, t: nat, g: IfRing, r: nat, h: nat)
    requires t < |tasks| && g.Valid()
    requires forall u :: 0 <= u <= t ==> r < tasks[u].heads.Length && tasks[u].heads[r] < g.n
    requires tasks[t].active
    requires Slowest(tasks, t, g, r, h) || (h == tasks[t].heads[r] && !AnyActive(tasks, t))
    ensures Slowest(tasks, t + 1, g, r, EarlierId(g.head, h, tasks[t].heads[r]))
  {
    CompareIsDistance(g.n, g.head, h, tasks[t].heads[r]);
  }

  /** Takes the heads of the first active task. */
  method FirstHeads(tasks: seq<TaskState>, t: nat, rings: seq<IfRing>, heads: array<nat>)
    requires RingsValid(rings) && HeadsValid(tasks, rings) && t < |tasks|
    requires heads.Length == |rings| && forall k :: k in tasks ==> k.heads != heads
    requires tasks[t].active && !AnyActive(tasks, t)
    modifies heads
    ensures forall r :: 0 <= r < |rings| ==> Slowest(tasks, t + 1, rings[r], r, heads[r])
  {
    var self := tasks[t];
    for r := 0 to |rings|
      invariant forall q :: 0 <= q < r ==> heads[q] == self.heads[q]
    {
      heads[r] := self.heads[r];
    }
    forall r | 0 <= r < |rings|
      ensures Slowest(tasks, t + 1, rings[r], r, heads[r])
    {
      SlowestOfMore(tasks, t, rings[r], r, heads[r]);
    }
  }

  /** Takes the heads of a later active task where they lag behind. */
  method EarlierHeads(tasks: seq<TaskState>, t: nat, rings: seq<IfRing>, heads: array<nat>)
    requires RingsValid(rings) && HeadsValid(tasks, rings) && t < |tasks|
    requires heads.Length == |rings| && forall k :: k in tasks ==> k.heads != heads
    requires tasks[t].active
    requires forall r :: 0 <= r < |rings| ==> Slowest(tasks, t, rings[r], r, heads[r])
    modifies heads
    ensures forall r :: 0 <= r < |rings| ==> Slowest(tasks, t + 1, rings[r], r, heads[r])
  {
    hide Slowest;
    var self := tasks[t];
    for r := 0 to |rings|
      invariant forall q :: 0 <= q < r ==> Slowest(tasks, t + 1, rings[q], q, heads[q])
      invariant forall q :: r <= q < |rings| ==> Slowest(tasks, t, rings[q], q, heads[q])
    {
      SlowestOfMore(tasks, t, rings[r], r, heads[r]);
      heads[r] := EarlierId(rings[r].head, heads[r], self.heads[r]);
    }
  }

  /** Fills `heads` with the slowest active task's head in each ring. */
  method GetHeads(tasks: seq<TaskState>, rings: seq<IfRing>, heads: array<nat>) returns (updated: bool)
    requires RingsValid(rings) && HeadsValid(tasks, rings)
    requires heads.Length == |rings| && forall t :: t in tasks ==> t.heads != heads
    modifies heads
    ensures updated <==> AnyActive(tasks, |tasks|)
    ensures updated ==> forall r :: 0 <= r < |rings| ==> Slowest(tasks, |tasks|, rings[r], r, heads[r])
  {
    updated := false;
    for t := 0 to |tasks|
      invariant updated <==> AnyActive(tasks, t)
      invariant updated ==> forall r :: 0 <= r < |rings| ==> Slowest(tasks, t, rings[r], r, heads[r])
    {
      if tasks[t].active {
        if updated {
          EarlierHeads(tasks, t, rings, heads);
        } else {
          FirstHeads(tasks, t, rings, heads);
          updated := true;
        }
      }
    }
  }

  // ---------- Releasing ----------

  lemma {:induction false} FrameAt(g: IfRing, from: nat, count: nat, k: nat)
    requires g.Valid() && from < g.n && k < count <= g.n
    ensures g.FramesFrom(from, count)[k] == g.slots[Ahead(g.n, from, k)].frame
    decreases count
  {
    if k > 0 {
      FrameAt(g, Following(g.n, from), count - 1, k - 1);
    }
  }

  /** Moves the cursor and then the head of a ring to `target`, and counts the
      released packets and the frames missed between them. */
  method ReleaseTo(g: IfRing, target: nat) returns (num: nat, missed: u16)
    requires g.Valid() && g.cur == g.head && target < g.n && target != g.head
    modifies g`head, g`cur
    ensures g.Valid() && g.head == g.cur == target
    ensures num == Between(g.n, old(g.head), target) && 0 < num < g.n
    ensures var fs := old(g.FramesFrom(g.head, Between(g.n, g.head, target)));
            missed == Gaps(fs[0].fseq, fs[1..]) % U16
  {
    ghost var fs := g.FramesFrom(g.head, Between(g.n, g.head, target));
    FrameAt(g, g.head, |fs|, 0);
    FrameAt(g, g.head, |fs|, |fs| - 1);
    BatchMissedIsGaps(fs);
    var fseqA := g.slots[g.cur].frame.fseq;
    var fseqB := g.slots[Preceding(g.n, target)].frame.fseq;
    g.cur := target;
    num := Done(g.n, g.head, g.cur);
    missed := (fseqB - fseqA - num + 1) % U16;
    g.head := g.cur;
  }

  /** Where a ring's head goes: to the slowest head, or to the tail when no task is
      active. */
  function Target(found: bool, heads: seq<nat>, r: nat, tail: nat): nat
    requires found ==> r < |heads|
  {
    if found then heads[r] else tail
  }

  class Coordinator {
    var received: nat
    var missed: nat
    var polled: nat
    var skipped: nat

    /** The packets a round releases from ring `r`. */
    static ghost function Batch(g: IfRing, r: nat, found: bool, heads: seq<nat>): (fs: seq<Frame>)
      requires g.Valid() && (found ==> r < |heads| && heads[r] < g.n)
      reads g, g.slots
    {
      if g.tail == g.head then []
      else g.FramesFrom(g.head, Between(g.n, g.head, Target(found, heads, r, g.tail)))
    }

    static ghost predicate Targets(rings: seq<IfRing>, found: bool, heads: seq<nat>)
    {
      found ==> |heads| == |rings| && forall r :: 0 <= r < |rings| ==> heads[r] < rings[r].n
    }

    /** Packets released from the first `k` rings. */
    static ghost function AllReceived(rings: seq<IfRing>, k: nat, found: bool, heads: seq<nat>): nat
      requires k <= |rings| && RingsValid(rings) && Targets(rings, found, heads)
      reads rings, set g | g in rings :: g.slots
    {
      if k == 0 then 0
      else AllReceived(rings, k - 1, found, heads) + |Batch(rings[k - 1], k - 1, found, heads)|
    }

    /** Gaps inside the batches of the first `k` rings, each in 16 bits. */
    static ghost function AllMissed(rings: seq<IfRing>, k: nat, found: bool, heads: seq<nat>): nat
      requires k <= |rings| && RingsValid(rings) && Targets(rings, found, heads)
      reads rings, set g | g in rings :: g.slots
    {
      if k == 0 then 0
      else AllMissed(rings, k - 1, found, heads) + GapsIn(Batch(rings[k - 1], k - 1, found, heads))
    }

    static ghost function GapsIn(fs: seq<Frame>): nat
    {
      if fs == [] then 0 else Gaps(fs[0].fseq, fs[1..]) % U16
    }

    /** In numbers: what is counted for a batch is how much the frame number moved from its
        first to its last frame, less the frames between and the last one. */
    static lemma GapsInNumbers(fs: seq<Frame>)
      ensures GapsIn(fs) ==
                if fs == [] then 0
                else (fs[|fs| - 1].fseq as int - fs[0].fseq as int - (|fs| - 1)) % 65536
    {
      if fs != [] {
        BatchMissedIsGaps(fs);
      }
    }

    /** Releases one ring; false if there was nothing to release. */
    method ReleaseRing(g: IfRing, r: nat, found: bool, heads: seq<nat>) returns (any: bool)
      requires g.Valid() && g.cur == g.head && (found ==> r < |heads| && heads[r] < g.n)
      modifies this`received, this`missed, g`head, g`cur
      ensures g.Valid() && g.cur == g.head
      ensures g.head == (if g.tail == old(g.head) then old(g.head) else Target(found, heads, r, g.tail))
      ensures received == old(received) + old(|Batch(g, r, found, heads)|)
      ensures missed == old(missed) + old(GapsIn(Batch(g, r, found, heads)))
      ensures any <==> old(Batch(g, r, found, heads)) != []
    {
      any := false;
      if g.tail != g.head {
        var newHead := Target(found, heads, r, g.tail);
        if newHead != g.head {
          any := true;
          var num, lost := ReleaseTo(g, newHead);
          received := received + num;
          missed := missed + lost;
        }
      }
    }

    /** Called when packets have arrived, with the slowest heads if a task is
        active. */
    method NewPackets(rings: seq<IfRing>, found: bool, heads: seq<nat>)
      requires RingsValid(rings) && Targets(rings, found, heads)
      requires forall r :: 0 <= r < |rings| ==> rings[r].cur == rings[r].head
      requires forall q, r :: 0 <= q < r < |rings| ==> rings[q] != rings[r]
      modifies this, rings
      ensures RingsValid(rings)
      ensures forall r :: 0 <= r < |rings| ==>
                && rings[r].cur == rings[r].head && rings[r].tail == old(rings[r].tail)
                && rings[r].head == (if old(rings[r].tail == rings[r].head) then old(rings[r].head)
                                     else Target(found, heads, r, old(rings[r].tail)))
      ensures received == old(received) + old(AllReceived(rings, |rings|, found, heads))
      ensures missed == old(missed) + old(AllMissed(rings, |rings|, found, heads))
      ensures polled == old(polled) + 1
      ensures skipped == old(skipped) + (if received == old(received) then 1 else 0)
    {
      hide Batch, GapsIn;
      polled := polled + 1;
      var idle := true;
      for r := 0 to |rings|
        invariant RingsValid(rings)
        invariant forall q :: r <= q < |rings| ==> unchanged(rings[q])
        invariant forall q :: 0 <= q < r ==>
                    && rings[q].cur == rings[q].head && rings[q].tail == old(rings[q].tail)
                    && rings[q].head == (if old(rings[q].tail == rings[q].head) then old(rings[q].head)
                                         else Target(found, heads, q, old(rings[q].tail)))
        invariant received == old(received) + old(AllReceived(rings, r, found, heads))
        invariant missed == old(missed) + old(AllMissed(rings, r, found, heads))
        invariant polled == old(polled) + 1 && skipped == old(skipped)
        invariant idle <==> received == old(received)
      {
        assert Batch(rings[r], r, found, heads) == old(Batch(rings[r], r, found, heads));
        var any := ReleaseRing(rings[r], r, found, heads);
        if any {
          idle := false;
        }
      }
      if idle {
        skipped := skipped + 1;
      }
    }

    /** Called when packets have arrived: collects the slowest heads in `heads` and
        releases the rings up to there, or wholly when no task is active. */
    method HandleNewPackets(tasks: seq<TaskState>, rings: seq<IfRing>, heads: array<nat>)
      returns (ghost slowest: seq<nat>)
      requires RingsValid(rings) && HeadsValid(tasks, rings)
      requires heads.Length == |rings| && forall t :: t in tasks ==> t.heads != heads
      requires forall r :: 0 <= r < |rings| ==> rings[r].cur == rings[r].head
      requires forall q, r :: 0 <= q < r < |rings| ==> rings[q] != rings[r]
      modifies this, rings, heads
      ensures RingsValid(rings) && |slowest| == |rings| && Targets(rings, AnyActive(tasks, |tasks|), slowest)
      ensures forall r :: 0 <= r < |rings| ==> rings[r].cur == rings[r].head && rings[r].tail == old(rings[r].tail)
      ensures AnyActive(tasks, |tasks|) ==> forall r :: 0 <= r < |rings| ==>
                && old(Slowest(tasks, |tasks|, rings[r], r, slowest[r]))
                && rings[r].head == (if old(rings[r].tail == rings[r].head) then old(rings[r].head) else slowest[r])
      ensures !AnyActive(tasks, |tasks|) ==> forall r :: 0 <= r < |rings| ==> rings[r].head == rings[r].tail
      ensures received == old(received) + old(AllReceived(rings, |rings|, AnyActive(tasks, |tasks|), slowest))
      ensures missed == old(missed) + old(AllMissed(rings, |rings|, AnyActive(tasks, |tasks|), slowest))
    {
      hide Slowest, AllReceived, AllMissed, Batch;
      var found := GetHeads(tasks, rings, heads);
      slowest := heads[..];
      SlowestInRings(tasks, rings, found, slowest);
      NewPackets(rings, found, heads[..]);
    }

    static lemma SlowestInRings(tasks: seq<TaskState>, rings: seq<IfRing>, found: bool, heads: seq<nat>)
      requires RingsValid(rings) && HeadsValid(tasks, rings) && |heads| == |rings|
      requires found ==> forall r :: 0 <= r < |rings| ==> Slowest(tasks, |tasks|, rings[r], r, heads[r])
      ensures Targets(rings, found, heads)
    {
    }
  }

  // ---------- A task's turn ----------

  const TASK_SLEEP := 1
  const TASK_ERROR := -1

  /** There are packets in the ring for the task. */
  ghost predicate HasPackets(k: TaskState, g: IfRing, r: nat)
    requires r < k.heads.Length
    reads k.heads, g
  {
    g.tail != k.heads[r]
  }

  /** The gap between the last frame the task saw and the one at its head. */
  ghost function HeadGap(k: TaskState, g: IfRing, r: nat): u16
    requires g.Valid() && r < k.heads.Length && k.heads[r] < g.n
    reads k, k.heads, g, g.slots
  {
    Gap(k.prevFseq, g.slots[k.heads[r]].frame.fseq)
  }

  /** The ring whose head packet follows the last frame most closely, unless it is
      the first time after activation. */
  method NextRing(k: TaskState, rings: seq<IfRing>) returns (next: int, missed: u16)
    requires RingsValid(rings) && k.heads.Length == |rings|
    requires forall r :: 0 <= r < |rings| ==> k.heads[r] < rings[r].n
    ensures -1 <= next < |rings|
    ensures next == -1 <==> forall r :: 0 <= r < |rings| ==> !HasPackets(k, rings[r], r)
    ensures next >= 0 ==> HasPackets(k, rings[next], next) && missed == HeadGap(k, rings[next], next)
    ensures next >= 0 ==> forall r :: 0 <= r < |rings| && HasPackets(k, rings[r], r) ==>
                            missed <= HeadGap(k, rings[r], r)
  {
    next, missed := -1, U16 - 1;
    for r := 0 to |rings|
      invariant -1 <= next < r
      invariant next == -1 ==> missed == U16 - 1
      invariant next == -1 <==> forall q :: 0 <= q < r ==> !HasPackets(k, rings[q], q)
      invariant next >= 0 ==> HasPackets(k, rings[next], next) && missed == HeadGap(k, rings[next], next)
      invariant next >= 0 ==> forall q :: 0 <= q < r && HasPackets(k, rings[q], q) ==>
                                missed <= HeadGap(k, rings[q], q)
    {
      if rings[r].tail != k.heads[r] {
        var gap := Gap(k.prevFseq, rings[r].slots[k.heads[r]].frame.fseq);
        if gap <= missed {
          next, missed := r, gap;
          if gap == 0 {
            return;
          }
        }
      }
    }
  }

  /** A call of the packet handler. */
  datatype Delivery = Delivery(frame: Frame, flen: u16, missed: u16, err: set<Error>)

  /** The frame in a slot; its length is cut to what the slot received. */
  function Deliver(p: Packet, prev: u16): Delivery
  {
    Delivery(p.frame,
             if p.frame.length > p.len then p.len else p.frame.length,
             Gap(prev, p.frame.fseq),
             IsValid(p.frame) + Flag(p.frame.length > p.len, EthLen))
  }

  /** What is handed over of a slot, in numbers: the slot's frame, no more of it than the
      slot received and no more than the frame says, but as much as that; a frame that was
      cut is in error, besides its own errors. */
  predicate Cut(p: Packet, prev: u16, d: Delivery)
  {
    && d.frame == p.frame && d.flen <= p.len && d.flen <= p.frame.length
    && (d.flen == p.len || d.flen == p.frame.length)
    && (forall e :: e in d.err <==> e in IsValid(p.frame) || (e == EthLen && p.frame.length > p.len))
    && (d.missed as int - (p.frame.fseq as int - prev as int - 1)) % 65536 == 0
  }

  /** The length is less than the frame says exactly if the frame was longer than its slot,
      and then that is an error; it is at most the MTU if the slot holds no more. */
  lemma CutLength(p: Packet, prev: u16, d: Delivery)
    requires Cut(p, prev, d)
    ensures d.flen < d.frame.length <==> p.frame.length > p.len
    ensures d.flen < d.frame.length ==> EthLen in d.err
    ensures p.len <= MTU ==> d.flen <= MTU
  {
  }

  lemma DeliverCuts(p: Packet, prev: u16)
    ensures Cut(p, prev, Deliver(p, prev))
  {
    GapIs(prev, p.frame.fseq);
    hide IsValid, Gap;
  }

  lemma GapIs(prev: u16, next: u16)
    ensures (Gap(prev, next) as int - (next as int - prev as int - 1)) % 65536 == 0
  {
  }

  /** A frame handed over without errors is valid and complete. */
  lemma GoodDelivery(p: Packet, prev: u16)
    requires Deliver(p, prev).err == {}
    ensures Good(p.frame) && Deliver(p, prev).flen == p.frame.length
    ensures HDR_LEN < Deliver(p, prev).flen <= MTU
  {
  }

  function FramesOf(log: seq<Delivery>): (fs: seq<Frame>)
    ensures |fs| == |log|
  {
    seq(|log|, i requires 0 <= i < |log| => log[i].frame)
  }

  function TotalMissed(log: seq<Delivery>): nat
  {
    if log == [] then 0 else TotalMissed(log[..|log| - 1]) + log[|log| - 1].missed
  }

  /** The number of the frame before delivery `i`. */
  function SeqBefore(prev: u16, log: seq<Delivery>, i: nat): u16
    requires i <= |log|
  {
    if i == 0 then prev else log[i - 1].frame.fseq
  }

  /** The protocol sequence of the last MCA frame handed over, and of the last frame of a
      trace that is not a dot product. */
  function LastMcaSeq(prev: u16, log: seq<Delivery>): u16
  {
    if log == [] then prev
    else if IsMca(log[|log| - 1].frame) then log[|log| - 1].frame.pseq
    else LastMcaSeq(prev, log[..|log| - 1])
  }

  function LastTraceSeq(prev: u16, log: seq<Delivery>): u16
  {
    if log == [] then prev
    else if IsTraceLong(log[|log| - 1].frame) then log[|log| - 1].frame.pseq
    else LastTraceSeq(prev, log[..|log| - 1])
  }

  lemma NoSeq(prev: u16)
    ensures LastMcaSeq(prev, []) == prev && LastTraceSeq(prev, []) == prev
  {
  }

  lemma OneMoreSeq(prev: u16, log: seq<Delivery>, d: Delivery)
    ensures LastMcaSeq(prev, log + [d]) == if IsMca(d.frame) then d.frame.pseq else LastMcaSeq(prev, log)
    ensures LastTraceSeq(prev, log + [d]) ==
              if !IsMca(d.frame) && IsTraceLong(d.frame) then d.frame.pseq else LastTraceSeq(prev, log)
  {
    assert (log + [d])[..|log|] == log;
  }

  lemma {:induction false} SeqOfBoth(prev: u16, a: seq<Delivery>, b: seq<Delivery>)
    ensures LastMcaSeq(prev, a + b) == LastMcaSeq(LastMcaSeq(prev, a), b)
    ensures LastTraceSeq(prev, a + b) == LastTraceSeq(LastTraceSeq(prev, a), b)
    decreases |b|
  {
    if b == [] {
      assert a + b == a;
    } else {
      var init, d := b[..|b| - 1], b[|b| - 1];
      SeqOfBoth(prev, a, init);
      assert a + b == (a + init) + [d] && b == init + [d];
      OneMoreSeq(prev, a + init, d);
    }
  }

  /** The packets in the slots from `from` on, each with the gap before it. */
  ghost predicate DeliveredFrom(g: IfRing, from: nat, prev: u16, log: seq<Delivery>)
    requires g.Valid() && from < g.n && |log| <= g.n
    reads g, g.slots
  {
    forall i :: 0 <= i < |log| ==>
      log[i] == Deliver(g.slots[Ahead(g.n, from, i)], SeqBefore(prev, log, i))
  }

  lemma DeliveredGap(p: Packet, prev: u16)
    ensures Deliver(p, prev).missed == Gap(prev, Deliver(p, prev).frame.fseq)
  {
  }

  lemma {:induction false} MissedAreGaps(g: IfRing, from: nat, prev: u16, log: seq<Delivery>)
    requires g.Valid() && from < g.n && |log| <= g.n && DeliveredFrom(g, from, prev, log)
    ensures TotalMissed(log) == Gaps(prev, FramesOf(log))
  {
    hide Deliver;
    if log != [] {
      var init, i := log[..|log| - 1], |log| - 1;
      forall j | 0 <= j < i
        ensures init[j] == log[j] && SeqBefore(prev, init, j) == SeqBefore(prev, log, j)
      {
      }
      MissedAreGaps(g, from, prev, init);
      assert FramesOf(log)[..i] == FramesOf(init);
      DeliveredGap(g.slots[Ahead(g.n, from, i)], SeqBefore(prev, log, i));
    }
  }

  lemma NothingDelivered(g: IfRing, from: nat, prev: u16)
    requires g.Valid() && from < g.n
    ensures DeliveredFrom(g, from, prev, [])
  {
  }

  lemma LastDelivered(prev: u16, log: seq<Delivery>)
    ensures LastSeq(prev, FramesOf(log)) == SeqBefore(prev, log, |log|)
  {
  }

  /** Hands the packet at the task's head to the handler. */
  method HandleHead(k: TaskState, g: IfRing, r: nat) returns (rc: int, d: Delivery)
    requires g.Valid() && r < k.heads.Length && k.heads[r] < g.n
    modifies k`prevFseq, k`prevPseqMca, k`prevPseqTr
    ensures rc == 0 || rc == TASK_SLEEP || rc == TASK_ERROR
    ensures d == Deliver(g.slots[k.heads[r]], old(k.prevFseq))
    ensures Cut(g.slots[k.heads[r]], old(k.prevFseq), d)
    ensures k.prevFseq == d.frame.fseq == g.slots[k.heads[r]].frame.fseq
    ensures k.prevPseqMca == if IsMca(d.frame) then d.frame.pseq else old(k.prevPseqMca)
    ensures k.prevPseqTr ==
              if !IsMca(d.frame) && IsTraceLong(d.frame) then d.frame.pseq else old(k.prevPseqTr)
  {
    var p := g.slots[k.heads[r]];
    d := Deliver(p, k.prevFseq);
    DeliverCuts(p, k.prevFseq);
    rc :| rc == 0 || rc == TASK_SLEEP || rc == TASK_ERROR;
    k.prevFseq := p.frame.fseq;
    if IsMca(p.frame) {
      k.prevPseqMca := p.frame.pseq;
    } else if IsTraceLong(p.frame) {
      k.prevPseqTr := p.frame.pseq;
    }
  }

  lemma OneMoreDelivery(g: IfRing, from: nat, prev: u16, log: seq<Delivery>, d: Delivery)
    requires g.Valid() && from < g.n && |log| < g.n && DeliveredFrom(g, from, prev, log)
    requires d == Deliver(g.slots[Ahead(g.n, from, |log|)], SeqBefore(prev, log, |log|))
    ensures DeliveredFrom(g, from, prev, log + [d])
  {
    hide Deliver;
    forall i | 0 <= i < |log|
      ensures (log + [d])[i] == log[i] && SeqBefore(prev, log + [d], i) == SeqBefore(prev, log, i)
    {
    }
    assert SeqBefore(prev, log + [d], |log|) == SeqBefore(prev, log, |log|);
  }

  /** Each packet from slot `from` on is cut to what its slot received, and none is longer
      than the MTU if no slot holds more. */
  ghost predicate CutFrom(g: IfRing, from: nat, prev: u16, log: seq<Delivery>)
    requires g.Valid() && from < g.n && |log| <= g.n
    reads g, g.slots
  {
    && (forall i :: 0 <= i < |log| ==> Cut(g.slots[Ahead(g.n, from, i)], SeqBefore(prev, log, i), log[i]))
    && ((forall s :: 0 <= s < g.n ==> g.slots[s].len <= MTU) ==>
          forall i :: 0 <= i < |log| ==> log[i].flen <= MTU)
  }

  /** Hands the packets from the task's head to the tail to the handler, which may
      ask for no more: then the head stays at the packet it has just handled. */
  method DispatchRing(k: TaskState, g: IfRing, r: nat) returns (rc: int, log: seq<Delivery>)
    requires g.Valid() && r < k.heads.Length && k.heads[r] < g.n
    modifies k`prevFseq, k`prevPseqMca, k`prevPseqTr, k.heads
    ensures rc == 0 || rc == TASK_SLEEP || rc == TASK_ERROR
    ensures k.heads[r] < g.n && |log| <= Between(g.n, old(k.heads[r]), g.tail)
    ensures DeliveredFrom(g, old(k.heads[r]), old(k.prevFseq), log)
    ensures CutFrom(g, old(k.heads[r]), old(k.prevFseq), log)
    ensures rc == 0 ==> k.heads[r] == g.tail && |log| == Between(g.n, old(k.heads[r]), g.tail)
    ensures rc != 0 ==> log != [] && k.heads[r] == Ahead(g.n, old(k.heads[r]), |log| - 1)
    ensures forall q :: 0 <= q < k.heads.Length && q != r ==> k.heads[q] == old(k.heads[q])
    ensures k.prevFseq == SeqBefore(old(k.prevFseq), log, |log|)
    ensures k.prevPseqMca == LastMcaSeq(old(k.prevPseqMca), log)
    ensures k.prevPseqTr == LastTraceSeq(old(k.prevPseqTr), log)
    ensures Same16(TotalMissed(log) + |log|, k.prevFseq - old(k.prevFseq))
  {
    log := [];
    rc := 0;
    hide DeliveredFrom, CutFrom, Deliver, Cut, TotalMissed, Gaps, FramesOf, LastMcaSeq, LastTraceSeq;
    NothingDelivered(g, k.heads[r], k.prevFseq);
    NoSeq(k.prevPseqMca);
    NoSeq(k.prevPseqTr);
    ghost var from, prev := k.heads[r], k.prevFseq;
    while k.heads[r] != g.tail
      invariant |log| <= Between(g.n, from, g.tail) < g.n && k.heads[r] == Ahead(g.n, from, |log|)
      invariant DeliveredFrom(g, from, prev, log)
      invariant k.prevFseq == SeqBefore(prev, log, |log|)
      invariant k.prevPseqMca == LastMcaSeq(old(k.prevPseqMca), log)
      invariant k.prevPseqTr == LastTraceSeq(old(k.prevPseqTr), log)
      invariant rc == 0
      invariant forall q :: 0 <= q < k.heads.Length && q != r ==> k.heads[q] == old(k.heads[q])
      decreases Between(g.n, from, g.tail) - |log|
    {
      var d;
      rc, d := HandleHead(k, g, r);
      OneMoreDelivery(g, from, prev, log, d);
      OneMoreSeq(old(k.prevPseqMca), log, d);
      OneMoreSeq(old(k.prevPseqTr), log, d);
      log := log + [d];
      if rc != 0 {
        break;
      }
      k.heads[r] := Following(g.n, k.heads[r]);
    }
    MissedAreGaps(g, from, prev, log);
    GapsTelescope(prev, FramesOf(log));
    LastDelivered(prev, log);
    AllCut(g, from, prev, log);
  }

  lemma AllCut(g: IfRing, from: nat, prev: u16, log: seq<Delivery>)
    requires g.Valid() && from < g.n && |log| <= g.n && DeliveredFrom(g, from, prev, log)
    ensures CutFrom(g, from, prev, log)
  {
    hide Deliver, Cut;
    forall i | 0 <= i < |log|
      ensures Cut(g.slots[Ahead(g.n, from, i)], SeqBefore(prev, log, i), log[i])
      ensures g.slots[Ahead(g.n, from, i)].len <= MTU ==> log[i].flen <= MTU
    {
      DeliverCuts(g.slots[Ahead(g.n, from, i)], SeqBefore(prev, log, i));
      CutLength(g.slots[Ahead(g.n, from, i)], SeqBefore(prev, log, i), log[i]);
    }
  }
}
