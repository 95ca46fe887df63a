/** What a task does when it is woken up: it takes one ring after the other until all
    are drained or its handler has had enough. The slots it visits hold the packets
    of the ring protocol. */
module TaskLoop {
  import opened Basics
  import opened Bytes
  import opened RingIds
  import opened Dispatch
  import Protocol = RingProtocol

  // ---------- Waking up ----------

  /** The heads are slots of their rings. */
  ghost predicate HeadsIn(rings: seq<IfRing>, heads: seq<nat>)
  {
    |heads| == |rings| && forall r :: 0 <= r < |rings| ==> heads[r] < rings[r].n
  }

  /** Packets in the first `m` rings from the heads on. */
  ghost function Waiting(rings: seq<IfRing>, heads: seq<nat>, m: nat): nat
    requires RingsValid(rings) && HeadsIn(rings, heads) && m <= |rings|
    reads rings
  {
    if m == 0 then 0
    else Waiting(rings, heads, m - 1) + Between(rings[m - 1].n, heads[m - 1], rings[m - 1].tail)
  }

  /** Draining ring `r` takes its packets from those that wait. */
  lemma {:induction false} RingDrained(rings: seq<IfRing>, heads: seq<nat>, r: nat, m: nat)
    requires RingsValid(rings) && HeadsIn(rings, heads) && r < |rings| && m <= |rings|
    ensures HeadsIn(rings, heads[r := rings[r].tail])
    ensures Waiting(rings, heads[r := rings[r].tail], m) ==
              Waiting(rings, heads, m) - (if r < m then Between(rings[r].n, heads[r], rings[r].tail) else 0)
  {
    if m > 0 {
      RingDrained(rings, heads, r, m - 1);
    }
  }

  /** Nothing waits exactly when all heads are at the tails. */
  lemma {:induction false} AllDrained(rings: seq<IfRing>, heads: seq<nat>, m: nat)
    requires RingsValid(rings) && HeadsIn(rings, heads) && m <= |rings|
    ensures Waiting(rings, heads, m) == 0 <==> forall r :: 0 <= r < m ==> heads[r] == rings[r].tail
  {
    if m > 0 {
      AllDrained(rings, heads, m - 1);
    }
  }

  lemma {:induction false} WaitingIn(rings: seq<IfRing>, heads: seq<nat>, r: nat, m: nat)
    requires RingsValid(rings) && HeadsIn(rings, heads) && r < m <= |rings|
    ensures Between(rings[r].n, heads[r], rings[r].tail) <= Waiting(rings, heads, m)
  {
    if r < m - 1 {
      WaitingIn(rings, heads, r, m - 1);
    }
  }

  lemma {:induction false} MissedConcat(a: seq<Delivery>, b: seq<Delivery>)
    ensures TotalMissed(a + b) == TotalMissed(a) + TotalMissed(b)
  {
    if b == [] {
      assert a + b == a;
    } else {
      assert (a + b)[..|a + b| - 1] == a + b[..|b| - 1];
      MissedConcat(a, b[..|b| - 1]);
    }
  }

  lemma MissedSum(a: seq<Delivery>, b: seq<Delivery>, from: int, mid: int, to: int)
    requires Same16(TotalMissed(a) + |a|, mid - from) && Same16(TotalMissed(b) + |b|, to - mid)
    ensures Same16(TotalMissed(a + b) + |a + b|, to - from)
  {
    hide TotalMissed;
    MissedConcat(a, b);
    var x, y := TotalMissed(a) + |a|, TotalMissed(b) + |b|;
    ModSum(x, mid - from, y);
    ModSum(y, to - mid, mid - from);
  }

  // ---------- Turns ----------

  /** A ring's turn: the slot and the frame number it begins with, and what was handed
      over. */
  datatype Turn = Turn(ring: nat, from: nat, prev: u16, log: seq<Delivery>)

  /** What was handed over in all turns. */
  function Handed(turns: seq<Turn>): seq<Delivery>
  {
    if turns == [] then [] else Handed(Init(turns)) + Last(turns).log
  }

  /** The turn of a ring begins where the task's head was, and hands over what is in the
      slots from there on. */
  ghost predicate TurnOf(rings: seq<IfRing>, heads: seq<nat>, t: Turn)
    requires RingsValid(rings) && HeadsIn(rings, heads)
    reads rings, set g | g in rings :: g.slots
  {
    && t.ring < |rings| && t.from == heads[t.ring]
    && 0 < |t.log| <= Between(rings[t.ring].n, t.from, rings[t.ring].tail)
    && DeliveredFrom(rings[t.ring], t.from, t.prev, t.log)
  }

  /** No ring has two turns, and each one goes on with the frame number of the one
      before. */
  ghost predicate TurnsFrom(rings: seq<IfRing>, heads: seq<nat>, prev: u16, turns: seq<Turn>)
    requires RingsValid(rings) && HeadsIn(rings, heads)
    reads rings, set g | g in rings :: g.slots
  {
    && (forall j :: 0 <= j < |turns| ==> TurnOf(rings, heads, turns[j]))
    && (forall j :: 0 <= j < |turns| ==> turns[j].prev == LastNumber(prev, Handed(turns[..j])))
    && (forall i, j :: 0 <= i < j < |turns| ==> turns[i].ring != turns[j].ring)
  }

  function LastNumber(prev: u16, log: seq<Delivery>): u16
  {
    SeqBefore(prev, log, |log|)
  }

  /** A turn has emptied its ring, or its last packet was one too many for the handler
      and is still at the task's head. */
  ghost predicate LeftBy(ring: IfRing, t: Turn, stopped: bool, head: nat)
    reads ring
  {
    && ring.Valid() && t.from < ring.n && 0 < |t.log| <= ring.n
    && (if stopped then head == Ahead(ring.n, t.from, |t.log| - 1)
        else head == ring.tail && |t.log| == Between(ring.n, t.from, ring.tail))
  }

  /** Where the heads are after the turns, of which the last one may have been stopped. */
  ghost predicate Left(rings: seq<IfRing>, heads0: seq<nat>, turns: seq<Turn>, stopped: bool, heads: seq<nat>)
    requires RingsValid(rings) && HeadsIn(rings, heads0)
    reads rings
  {
    && HeadsIn(rings, heads)
    && (forall j :: 0 <= j < |turns| ==>
          turns[j].ring < |rings| &&
          LeftBy(rings[turns[j].ring], turns[j], stopped && j == |turns| - 1, heads[turns[j].ring]))
    && (forall r :: 0 <= r < |rings| ==>
          heads[r] == heads0[r] || exists j :: 0 <= j < |turns| && turns[j].ring == r)
  }

  lemma {:induction false} LastOfBoth(prev: u16, a: seq<Delivery>, b: seq<Delivery>)
    ensures LastNumber(prev, a + b) == LastNumber(LastNumber(prev, a), b)
  {
    if b != [] {
      assert (a + b)[|a + b| - 1] == b[|b| - 1];
    } else {
      assert a + b == a;
    }
  }

  /** A ring that has packets has not had its turn. */
  lemma NotHadTurn(rings: seq<IfRing>, heads0: seq<nat>, turns: seq<Turn>, heads: seq<nat>, r: nat)
    requires RingsValid(rings) && HeadsIn(rings, heads0) && Left(rings, heads0, turns, false, heads)
    requires r < |rings| && heads[r] != rings[r].tail
    ensures heads[r] == heads0[r] && forall j :: 0 <= j < |turns| ==> turns[j].ring != r
  {
    hide Ahead, Between;
    forall j | 0 <= j < |turns|
      ensures turns[j].ring != r
    {
      assert LeftBy(rings[turns[j].ring], turns[j], false, heads[turns[j].ring]);
    }
  }

  /** It may have it now. */
  lemma AddTurn(rings: seq<IfRing>, heads0: seq<nat>, prev: u16, turns: seq<Turn>, t: Turn)
    requires RingsValid(rings) && HeadsIn(rings, heads0) && TurnsFrom(rings, heads0, prev, turns)
    requires TurnOf(rings, heads0, t) && t.prev == LastNumber(prev, Handed(turns))
    requires forall j :: 0 <= j < |turns| ==> turns[j].ring != t.ring
    ensures TurnsFrom(rings, heads0, prev, turns + [t])
  {
    hide DeliveredFrom, Handed, LastNumber, TurnOf;
    var turns' := turns + [t];
    forall j | 0 <= j <= |turns|
      ensures turns'[..j] == turns[..j]
    {
    }
    assert turns[..|turns|] == turns;
  }

  lemma AddLeft(rings: seq<IfRing>, heads0: seq<nat>, turns: seq<Turn>, heads: seq<nat>, t: Turn, stopped: bool,
                head: nat)
    requires RingsValid(rings) && HeadsIn(rings, heads0) && Left(rings, heads0, turns, false, heads)
    requires t.ring < |rings| && head < rings[t.ring].n && LeftBy(rings[t.ring], t, stopped, head)
    requires forall j :: 0 <= j < |turns| ==> turns[j].ring != t.ring
    ensures Left(rings, heads0, turns + [t], stopped, heads[t.ring := head])
  {
    hide LeftBy;
    var turns' := turns + [t];
    assert turns'[|turns|] == t;
    forall r | 0 <= r < |rings|
      ensures heads[t.ring := head][r] == heads0[r] || exists j :: 0 <= j < |turns'| && turns'[j].ring == r
    {
      if r != t.ring && heads[r] != heads0[r] {
        var j :| 0 <= j < |turns| && turns[j].ring == r;
        assert turns'[j].ring == r;
      }
    }
  }

  lemma HandedAppend(turns: seq<Turn>, t: Turn)
    ensures Handed(turns + [t]) == Handed(turns) + t.log
  {
    assert Init(turns + [t]) == turns;
  }

  /** Takes the turn of ring `r`. */
  method TakeTurn(k: TaskState, rings: seq<IfRing>, r: nat, ghost heads0: seq<nat>, ghost prev0: u16,
                  ghost turns: seq<Turn>)
    returns (rc: int, log: seq<Delivery>, ghost turns': seq<Turn>)
    requires RingsValid(rings) && k.heads.Length == |rings| && HeadsIn(rings, heads0)
    requires TurnsFrom(rings, heads0, prev0, turns) && Left(rings, heads0, turns, false, k.heads[..])
    requires r < |rings| && HasPackets(k, rings[r], r) && k.prevFseq == LastNumber(prev0, Handed(turns))
    modifies k`prevFseq, k`prevPseqMca, k`prevPseqTr, k.heads
    ensures rc == 0 || rc == TASK_SLEEP || rc == TASK_ERROR
    ensures TurnsFrom(rings, heads0, prev0, turns') && Left(rings, heads0, turns', rc != 0, k.heads[..])
    ensures Handed(turns') == Handed(turns) + log && turns' != []
    ensures k.prevFseq == LastNumber(prev0, Handed(turns'))
    ensures k.prevPseqMca == LastMcaSeq(old(k.prevPseqMca), log)
    ensures k.prevPseqTr == LastTraceSeq(old(k.prevPseqTr), log)
    ensures log != [] && log[0].missed == old(HeadGap(k, rings[r], r))
    ensures Same16(TotalMissed(log) + |log|, k.prevFseq - old(k.prevFseq))
    ensures rc == 0 ==>
              && k.heads[..] == old(k.heads[..])[r := rings[r].tail]
              && |log| == Between(rings[r].n, old(k.heads[r]), rings[r].tail)
    ensures rc != 0 ==> |log| <= Between(rings[r].n, old(k.heads[r]), rings[r].tail)
  {
    hide DeliveredFrom, CutFrom, TurnsFrom, Handed, TotalMissed, Same16, Left, LastMcaSeq, LastTraceSeq;
    LeftHeads(rings, heads0, prev0, turns, k.heads[..]);
    ghost var heads, prev, from := k.heads[..], k.prevFseq, k.heads[r];
    PacketsIn(k, rings, r);
    NotHadTurn(rings, heads0, turns, heads, r);
    rc, log := DispatchRing(k, rings[r], r);
    assert k.heads[..] == heads[r := k.heads[r]];
    FirstGap(rings[r], from, prev, log, Gap(prev, rings[r].slots[from].frame.fseq));
    LastOfBoth(prev0, Handed(turns), log);
    ghost var t := Turn(r, from, prev, log);
    turns' := turns + [t];
    AddTurn(rings, heads0, prev0, turns, t);
    AddLeft(rings, heads0, turns, heads, t, rc != 0, k.heads[r]);
    HandedAppend(turns, t);
  }

  lemma LeftHeads(rings: seq<IfRing>, heads0: seq<nat>, prev: u16, turns: seq<Turn>, heads: seq<nat>)
    requires RingsValid(rings) && HeadsIn(rings, heads0) && TurnsFrom(rings, heads0, prev, turns)
    requires Left(rings, heads0, turns, false, heads)
    ensures HeadsIn(rings, heads)
  {
  }

  lemma NoTurns(rings: seq<IfRing>, heads: seq<nat>, prev: u16)
    requires RingsValid(rings) && HeadsIn(rings, heads)
    ensures TurnsFrom(rings, heads, prev, []) && Left(rings, heads, [], false, heads) && Handed([]) == []
  {
  }

  /** The handler of a wake-up signal, for a task that has handled packets since its
      activation. It takes the rings in turns, each one from the task's head on, and
      stops when they are drained or when the packet handler says so; then the task goes
      to sleep unless there was an error. The frames said to be missed and those handled
      account for the change of the frame number. */
  method HandleWakeup(k: TaskState, rings: seq<IfRing>)
    returns (rc: int, log: seq<Delivery>, ghost turns: seq<Turn>)
    requires RingsValid(rings) && k.heads.Length == |rings| && HeadsIn(rings, k.heads[..])
    modifies k, k.heads
    ensures HeadsIn(rings, k.heads[..]) && TurnsFrom(rings, old(k.heads[..]), old(k.prevFseq), turns)
    ensures log == Handed(turns) && Left(rings, old(k.heads[..]), turns, rc != 0, k.heads[..])
    ensures k.prevFseq == LastNumber(old(k.prevFseq), log)
    ensures k.prevPseqMca == LastMcaSeq(old(k.prevPseqMca), log)
    ensures k.prevPseqTr == LastTraceSeq(old(k.prevPseqTr), log)
    ensures !old(k.active) ==> turns == [] && rc == 0 && !k.active
    ensures old(k.active) && rc == 0 ==>
              && k.active && |log| == Waiting(rings, old(k.heads[..]), |rings|)
              && forall r :: 0 <= r < |rings| ==> k.heads[r] == rings[r].tail
    ensures rc != 0 ==> 0 < |log| <= Waiting(rings, old(k.heads[..]), |rings|)
    ensures rc != 0 ==> (k.active <==> rc == TASK_ERROR)
    ensures Same16(TotalMissed(log) + |log|, k.prevFseq - old(k.prevFseq))
  {
    hide TotalMissed, DeliveredFrom, SeqBefore, HasPackets, Same16, Waiting, RingsValid, TurnsFrom, Left, Handed,
      LastNumber, HeadGap, LastMcaSeq, LastTraceSeq;
    log, rc, turns := [], 0, [];
    ghost var heads0, prev0 := k.heads[..], k.prevFseq;
    ghost var mca0, tr0 := k.prevPseqMca, k.prevPseqTr;
    NothingMissed(prev0);
    NoSeq(mca0);
    NoSeq(tr0);
    NoTurns(rings, heads0, prev0);
    if !k.active {
      return;
    }
    while true
      invariant k.active && rc == 0 && HeadsIn(rings, k.heads[..])
      invariant TurnsFrom(rings, heads0, prev0, turns) && Left(rings, heads0, turns, false, k.heads[..])
      invariant log == Handed(turns) && k.prevFseq == LastNumber(prev0, log)
      invariant k.prevPseqMca == LastMcaSeq(mca0, log) && k.prevPseqTr == LastTraceSeq(tr0, log)
      invariant |log| + Waiting(rings, k.heads[..], |rings|) == Waiting(rings, heads0, |rings|)
      invariant Same16(TotalMissed(log) + |log|, k.prevFseq - prev0)
      decreases Waiting(rings, k.heads[..], |rings|)
    {
      var next, missed := NextRing(k, rings);
      ghost var heads := k.heads[..];
      if next < 0 {
        NoPackets(k, rings);
        AllDrained(rings, heads, |rings|);
        break;
      }
      PacketsIn(k, rings, next);
      RingDrained(rings, heads, next, |rings|);
      WaitingIn(rings, heads, next, |rings|);
      ghost var prev := k.prevFseq;
      var part;
      rc, part, turns := TakeTurn(k, rings, next, heads0, prev0, turns);
      assert part[0].missed == missed;
      MissedSum(log, part, prev0, prev, k.prevFseq);
      SeqOfBoth(mca0, log, part);
      SeqOfBoth(tr0, log, part);
      log := log + part;
      if rc == TASK_SLEEP {
        k.active := false;
        break;
      }
      if rc == TASK_ERROR {
        break;
      }
    }
    LeftStays(rings, heads0, prev0, turns, rc != 0, k.heads[..]);
  }

  lemma LeftStays(rings: seq<IfRing>, heads0: seq<nat>, prev: u16, turns: seq<Turn>, stopped: bool, heads: seq<nat>)
    requires RingsValid(rings) && HeadsIn(rings, heads0) && TurnsFrom(rings, heads0, prev, turns)
    requires Left(rings, heads0, turns, stopped, heads)
    ensures HeadsIn(rings, heads)
  {
  }

  lemma NothingMissed(prev: u16)
    ensures Same16(TotalMissed([]) + 0, prev - prev) && LastNumber(prev, []) == prev
  {
  }

  lemma NoPackets(k: TaskState, rings: seq<IfRing>)
    requires k.heads.Length == |rings|
    requires forall r :: 0 <= r < |rings| ==> !HasPackets(k, rings[r], r)
    ensures forall r :: 0 <= r < |rings| ==> k.heads[r] == rings[r].tail
  {
  }

  lemma PacketsIn(k: TaskState, rings: seq<IfRing>, r: nat)
    requires RingsValid(rings) && r < |rings| && r < k.heads.Length && k.heads[r] < rings[r].n
    requires HasPackets(k, rings[r], r)
    ensures rings[r].Valid() && Between(rings[r].n, k.heads[r], rings[r].tail) > 0
  {
  }

  /** The first frame of a turn was missed by as much as the choice of its ring said. */
  lemma FirstGap(g: IfRing, from: nat, prev: u16, log: seq<Delivery>, missed: u16)
    requires g.Valid() && from < g.n && 0 < |log| <= g.n && DeliveredFrom(g, from, prev, log)
    requires missed == Gap(prev, g.slots[from].frame.fseq)
    ensures log[0].missed == missed
  {
  }

  // ---------- The slowest heads ----------

  /** There is only one slowest head, so the coordinator has no choice. */
  lemma SlowestIsUnique(tasks: seq<TaskState>, g: IfRing, r: nat, h: nat, h': nat)
    requires g.Valid() && forall t :: 0 <= t < |tasks| ==> r < tasks[t].heads.Length && tasks[t].heads[r] < g.n
    requires Slowest(tasks, |tasks|, g, r, h) && Slowest(tasks, |tasks|, g, r, h')
    ensures h == h'
  {
  }

  /** The slots in memory are those of the protocol's ring. */
  ghost predicate Implements(ring: IfRing, g: Protocol.Ring<Packet>)
    reads ring, ring.slots
  {
    ring.Valid() && g.n == ring.n && g.head == ring.head && g.tail == ring.tail && g.slots == ring.slots[..]
  }

  /** `m` is the earliest position of an active task in a ring. */
  ghost predicate EarliestOf(tasks: seq<TaskState>, cs: seq<Protocol.Cursor<Packet>>, m: Protocol.Mark)
    requires |cs| == |tasks|
    reads tasks
  {
    && (exists t :: 0 <= t < |tasks| && tasks[t].active && cs[t].id == m.id && cs[t].pos == m.pos)
    && (forall t :: 0 <= t < |tasks| && tasks[t].active ==> m.pos <= cs[t].pos)
  }

  /** The slowest head the coordinator finds is at the earliest position of an active task,
      and the protocol's release takes the ring's head there. */
  lemma SlowestIsReleased(tasks: seq<TaskState>, ring: IfRing, r: nat, h: nat,
                          g: Protocol.Ring<Packet>, cs: seq<Protocol.Cursor<Packet>>, m: Protocol.Mark)
    requires Implements(ring, g) && Protocol.RingInv(g) && |cs| == |tasks|
    requires forall t :: 0 <= t < |tasks| ==> r < tasks[t].heads.Length && tasks[t].heads[r] < ring.n
    requires forall t :: 0 <= t < |tasks| && tasks[t].active ==>
               Protocol.Positioned(g, cs[t]) && cs[t].id == tasks[t].heads[r]
    requires EarliestOf(tasks, cs, m) && Slowest(tasks, |tasks|, ring, r, h)
    ensures h == m.id && Protocol.ReleaseRing(g, m, true).head == h
    ensures Protocol.ReleaseRing(g, m, true).released == m.pos
  {
    var n := ring.n;
    forall t | 0 <= t < |tasks| && tasks[t].active
      ensures Between(n, ring.head, tasks[t].heads[r]) == cs[t].pos - g.released
    {
      SlotDistance(g.n, g.released, cs[t].pos);
    }
    assert Slowest(tasks, |tasks|, ring, r, m.id);
    SlowestIsUnique(tasks, ring, r, h, m.id);
    Protocol.ReleaseKeepsRing(g, m, true);
  }

  // ---------- The steps of the protocol ----------

  lemma AheadIsSlot(n: nat, p: nat, i: nat)
    requires n > 0 && i < n
    ensures Ahead(n, Slot(n, p), i) == Slot(n, p + i)
  {
    SlotDistance(n, p, p + i);
    CompareIsDistance(n, Slot(n, p), Ahead(n, Slot(n, p), i), Slot(n, p + i));
  }

  /** The task's cursor after `k` steps, if it goes to sleep with the last or not. */
  ghost function HandleMany(g: Protocol.Ring<Packet>, c: Protocol.Cursor<Packet>, k: nat, sleep: bool)
    : (d: Protocol.Cursor<Packet>)
    requires c.id < g.n == |g.slots|
    ensures d.id < g.n
  {
    if k == 0 then c else Protocol.HandleNext(g, HandleMany(g, c, k - 1, false), sleep)
  }

  lemma {:induction false} ManyHandled(g: Protocol.Ring<Packet>, c: Protocol.Cursor<Packet>, k: nat)
    requires Protocol.RingInv(g) && Protocol.CursorInv(g, c, true) && c.pos + k <= |g.arrived|
    ensures c.id < g.n
    ensures var d := HandleMany(g, c, k, false);
            Protocol.CursorInv(g, d, true) && d.pos == c.pos + k && d.from == c.from
  {
    if k > 0 {
      ManyHandled(g, c, k - 1);
      var d := HandleMany(g, c, k - 1, false);
      SameSlot(g.n, g.released, d.pos, |g.arrived|);
      Protocol.HandleKeepsCursor(g, d, false);
    }
  }

  /** What a task hands to its handler from one ring are the packets that arrived in
      it from the task's position on, each once and in order, however often the ring
      has gone round. These are the steps the protocol's task takes. */
  lemma DispatchIsHandling(ring: IfRing, g: Protocol.Ring<Packet>, c: Protocol.Cursor<Packet>,
                           prev: u16, log: seq<Delivery>, sleep: bool)
    requires Implements(ring, g) && Protocol.RingInv(g) && Protocol.CursorInv(g, c, true)
    requires c.id < g.n && |log| <= Between(g.n, c.id, g.tail) && DeliveredFrom(ring, c.id, prev, log)
    requires sleep ==> log != []
    ensures c.pos + |log| <= |g.arrived|
    ensures forall i :: 0 <= i < |log| ==> log[i] == Deliver(g.arrived[c.pos + i], SeqBefore(prev, log, i))
    ensures var d := HandleMany(g, c, |log|, sleep);
            && Protocol.CursorInv(g, d, !sleep)
            && d.id == Ahead(g.n, c.id, if sleep then |log| - 1 else |log|)
            && d.got == g.arrived[c.from..c.pos + |log|]
  {
    hide Deliver, DeliveredFrom, HandleMany, Protocol.CursorInv, Protocol.RingInv;
    AtCursor(g, c);
    forall i | 0 <= i < |log|
      ensures log[i] == Deliver(g.arrived[c.pos + i], SeqBefore(prev, log, i))
    {
      AheadIsSlot(g.n, c.pos, i);
      DeliveredAt(ring, c.id, prev, log, i);
      InSlot(g, c.pos + i);
    }
    CursorAfter(g, c, |log|, sleep);
  }

  lemma AtCursor(g: Protocol.Ring<Packet>, c: Protocol.Cursor<Packet>)
    requires Protocol.RingInv(g) && Protocol.CursorInv(g, c, true)
    ensures c.id == Slot(g.n, c.pos) < g.n && g.tail < g.n
    ensures g.released <= c.pos && c.pos + Between(g.n, c.id, g.tail) == |g.arrived|
  {
    SlotDistance(g.n, c.pos, |g.arrived|);
  }

  lemma InSlot(g: Protocol.Ring<Packet>, q: nat)
    requires Protocol.RingInv(g) && g.released <= q < |g.arrived|
    ensures g.slots[Slot(g.n, q)] == g.arrived[q]
  {
  }

  lemma CursorAfter(g: Protocol.Ring<Packet>, c: Protocol.Cursor<Packet>, k: nat, sleep: bool)
    requires Protocol.RingInv(g) && Protocol.CursorInv(g, c, true)
    requires c.pos + k <= |g.arrived| && (sleep ==> k > 0)
    ensures c.id < g.n && (if sleep then k - 1 else k) < g.n
    ensures var d := HandleMany(g, c, k, sleep);
            && Protocol.CursorInv(g, d, !sleep)
            && d.id == Ahead(g.n, c.id, if sleep then k - 1 else k)
            && d.got == g.arrived[c.from..c.pos + k]
  {
    AtCursor(g, c);
    if sleep {
      ManyHandled(g, c, k - 1);
      var d := HandleMany(g, c, k - 1, false);
      SameSlot(g.n, g.released, d.pos, |g.arrived|);
      Protocol.HandleKeepsCursor(g, d, true);
      AheadIsSlot(g.n, c.pos, k - 1);
    } else {
      ManyHandled(g, c, k);
      AheadIsSlot(g.n, c.pos, k);
    }
  }

  /** The rings and the task's heads in memory are those of the protocol. */
  ghost predicate AsInProtocol(rings: seq<IfRing>, heads: seq<nat>, gs: seq<Protocol.Ring<Packet>>,
                               cs: seq<Protocol.Cursor<Packet>>)
    reads rings, set g | g in rings :: g.slots
  {
    && |heads| == |gs| == |cs| == |rings|
    && forall r :: 0 <= r < |rings| ==>
         && Implements(rings[r], gs[r]) && Protocol.RingInv(gs[r])
         && Protocol.CursorInv(gs[r], cs[r], true) && cs[r].id == heads[r]
  }

  /** A turn hands over the packets that arrived in its ring from the task's position on,
      and leaves the task's head where the protocol does. */
  ghost predicate HandledAs(g: Protocol.Ring<Packet>, c: Protocol.Cursor<Packet>, t: Turn, last: bool, head: nat)
  {
    && c.pos + |t.log| <= |g.arrived|
    && (forall i :: 0 <= i < |t.log| ==>
          t.log[i] == Deliver(g.arrived[c.pos + i], SeqBefore(t.prev, t.log, i)))
    && c.id < g.n == |g.slots|
    && var d := HandleMany(g, c, |t.log|, last);
    && Protocol.CursorInv(g, d, !last) && d.id == head
    && c.from <= c.pos && d.got == g.arrived[c.from..c.pos + |t.log|]
  }

  lemma OneTurn(ring: IfRing, g: Protocol.Ring<Packet>, c: Protocol.Cursor<Packet>, t: Turn, last: bool, head: nat)
    requires Implements(ring, g) && Protocol.RingInv(g) && Protocol.CursorInv(g, c, true)
    requires t.from == c.id < g.n && 0 < |t.log| <= Between(g.n, c.id, g.tail)
    requires DeliveredFrom(ring, t.from, t.prev, t.log) && LeftBy(ring, t, last, head)
    ensures HandledAs(g, c, t, last, head)
  {
    hide DeliveredFrom, Deliver, HandleMany, Protocol.CursorInv, Protocol.RingInv, SeqBefore, Between, Ahead;
    AtCursor(g, c);
    FullTurn(g.n, c.id, g.tail);
    AtFrom(g, c);
    DispatchIsHandling(ring, g, c, t.prev, t.log, last);
  }

  lemma AtFrom(g: Protocol.Ring<Packet>, c: Protocol.Cursor<Packet>)
    requires Protocol.RingInv(g) && Protocol.CursorInv(g, c, true)
    ensures c.from <= c.pos && |g.slots| == g.n
  {
  }

  /** All turns of a wake-up are steps of the protocol. */
  lemma TurnsAreHandling(rings: seq<IfRing>, gs: seq<Protocol.Ring<Packet>>, cs: seq<Protocol.Cursor<Packet>>,
                         heads0: seq<nat>, prev: u16, turns: seq<Turn>, stopped: bool, heads: seq<nat>)
    requires RingsValid(rings) && HeadsIn(rings, heads0) && AsInProtocol(rings, heads0, gs, cs)
    requires TurnsFrom(rings, heads0, prev, turns) && Left(rings, heads0, turns, stopped, heads)
    ensures forall j :: 0 <= j < |turns| ==>
              var t := turns[j];
              && t.ring < |rings|
              && HandledAs(gs[t.ring], cs[t.ring], t, stopped && j == |turns| - 1, heads[t.ring])
  {
    hide DeliveredFrom, HandledAs, LeftBy, Protocol.CursorInv, Protocol.RingInv, Handed, LastNumber;
    forall j | 0 <= j < |turns|
      ensures turns[j].ring < |rings|
      ensures HandledAs(gs[turns[j].ring], cs[turns[j].ring], turns[j], stopped && j == |turns| - 1,
                        heads[turns[j].ring])
    {
      var t := turns[j];
      assert TurnOf(rings, heads0, t) && Implements(rings[t.ring], gs[t.ring]);
      OneTurn(rings[t.ring], gs[t.ring], cs[t.ring], t, stopped && j == |turns| - 1, heads[t.ring]);
    }
  }

  lemma FullTurn(n: nat, from: nat, tail: nat)
    requires from < n && tail < n
    ensures Between(n, from, tail) < n && Ahead(n, from, Between(n, from, tail)) == tail
  {
  }

  lemma DeliveredAt(g: IfRing, from: nat, prev: u16, log: seq<Delivery>, i: nat)
    requires g.Valid() && from < g.n && |log| <= g.n && DeliveredFrom(g, from, prev, log) && i < |log|
    ensures log[i] == Deliver(g.slots[Ahead(g.n, from, i)], SeqBefore(prev, log, i))
  {
  }
}
