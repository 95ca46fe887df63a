/** The receive rings shared by the network card, the coordinator and the tasks, as
    a state machine whose steps may be interleaved in any order. */
module RingProtocol {
  import opened RingIds

  /** A receive ring. The history fields: every packet that ever arrived, and how
      many of them the coordinator has released. */
  datatype Ring<P> = Ring(
    n: nat, head: nat, tail: nat, slots: seq<P>,
    arrived: seq<P>, released: nat)

  /** A task's head in one ring. The history fields: the packet it is at, the one it
      was at when the task was activated, and the packets handled since. */
  datatype Cursor<P> = Cursor(
    id: nat,
    pos: nat, from: nat, got: seq<P>)

  datatype Task<P> = Task(active: bool, cursors: seq<Cursor<P>>)

  /** The slowest head found so far in one ring, and the packet it is at. */
  datatype Mark = Mark(id: nat, pos: nat)

  /** The coordinator either rests, or collects the slowest heads (it is at ring `r`
      of task `t`), or releases the rings from `r` on. `found` says that there was an
      active task. */
  datatype Phase =
    | Resting
    | Folding(t: nat, r: nat, marks: seq<Mark>, found: bool)
    | Releasing(r: nat, marks: seq<Mark>, found: bool)

  datatype State<P> = State(rings: seq<Ring<P>>, tasks: seq<Task<P>>, phase: Phase)

  datatype Step<P> =
    | Receive(r: nat, p: P)         // the card fills the slot at the tail
    | StartRound                    // the coordinator is woken up
    | Visit                         // it looks at the next head of the next task
    | Release                       // it moves the next ring's head
    | Handle(t: nat, r: nat, sleep: bool)  // a task handles a packet, and may have had enough
    | Activate(t: nat)
    | Deactivate(t: nat)

  // ---------- Steps ----------

  predicate WellFormed<P>(s: State<P>)
  {
    && (forall r :: 0 <= r < |s.rings| ==>
          var g := s.rings[r]; g.head < g.n && g.tail < g.n && |g.slots| == g.n)
    && (forall t :: 0 <= t < |s.tasks| ==> |s.tasks[t].cursors| == |s.rings|)
    && (match s.phase
        case Resting => true
        case Folding(t, r, marks, _) => t <= |s.tasks| && r <= |s.rings| && |marks| == |s.rings|
        case Releasing(r, marks, _) => r <= |s.rings| && |marks| == |s.rings|)
  }

  /** One slot always stays free. */
  predicate CanReceive<P>(g: Ring<P>)
    requires g.tail < g.n
  {
    Following(g.n, g.tail) != g.head
  }

  predicate Enabled<P>(s: State<P>, e: Step<P>)
    requires WellFormed(s)
  {
    match e
    case Receive(r, _) => r < |s.rings| && CanReceive(s.rings[r])
    case StartRound => s.phase.Resting?
    case Visit => s.phase.Folding?
    case Release => s.phase.Releasing?
    case Handle(t, r, _) =>
      && t < |s.tasks| && r < |s.rings| && s.tasks[t].active
      && s.tasks[t].cursors[r].id < s.rings[r].n
      && s.tasks[t].cursors[r].id != s.rings[r].tail
    case Activate(t) => t < |s.tasks| && s.phase.Resting?
    case Deactivate(t) => t < |s.tasks|
  }

  function ReceiveIn<P>(g: Ring<P>, p: P): Ring<P>
    requires g.tail < g.n && |g.slots| == g.n
  {
    g.(slots := g.slots[g.tail := p], tail := Following(g.n, g.tail), arrived := g.arrived + [p])
  }

  /** The first task found gives its head, each later one replaces it if it lags
      behind. */
  function Slower<P>(g: Ring<P>, m: Mark, c: Cursor<P>, found: bool): Mark
  {
    if !found then Mark(c.id, c.pos)
    else Mark(EarlierId(g.head, m.id, c.id), if m.pos <= c.pos then m.pos else c.pos)
  }

  function VisitNext<P>(s: State<P>): Phase
    requires WellFormed(s) && s.phase.Folding?
  {
    var Folding(t, r, marks, found) := s.phase;
    if t == |s.tasks| then Releasing(0, marks, found)
    else if r == 0 && !s.tasks[t].active then Folding(t + 1, 0, marks, found)
    else if r == |s.rings| then Folding(t + 1, 0, marks, true)
    else Folding(t, r + 1, marks[r := Slower(s.rings[r], marks[r], s.tasks[t].cursors[r], found)], found)
  }

  /** Without active tasks everything is released, otherwise what is before the
      slowest head. */
  function ReleaseRing<P>(g: Ring<P>, m: Mark, found: bool): Ring<P>
  {
    if g.tail == g.head then g
    else if !found then g.(head := g.tail, released := |g.arrived|)
    else if m.id == g.head then g
    else g.(head := m.id, released := m.pos)
  }

  /** The task hands the packet at its head to its handler; its head moves on unless
      the handler has put the task to sleep. */
  function HandleNext<P>(g: Ring<P>, c: Cursor<P>, sleep: bool): Cursor<P>
    requires c.id < g.n == |g.slots|
  {
    var d := c.(got := c.got + [g.slots[c.id]]);
    if sleep then d else d.(id := Following(g.n, c.id), pos := c.pos + 1)
  }

  function Activated<P>(s: State<P>, t: nat): State<P>
    requires t < |s.tasks|
  {
    var cursors := seq(|s.rings|, r requires 0 <= r < |s.rings| =>
                         Cursor(s.rings[r].head, s.rings[r].released, s.rings[r].released, []));
    s.(tasks := s.tasks[t := Task(true, cursors)])
  }

  function Apply<P>(s: State<P>, e: Step<P>): State<P>
    requires WellFormed(s) && Enabled(s, e)
  {
    match e
    case Receive(r, p) => s.(rings := s.rings[r := ReceiveIn(s.rings[r], p)])
    case StartRound => s.(phase := Folding(0, 0, seq(|s.rings|, i => Mark(0, 0)), false))
    case Visit => s.(phase := VisitNext(s))
    case Release =>
      var Releasing(r, marks, found) := s.phase;
      if r == |s.rings| then s.(phase := Resting)
      else s.(rings := s.rings[r := ReleaseRing(s.rings[r], marks[r], found)],
              phase := Releasing(r + 1, marks, found))
    case Handle(t, r, sleep) =>
      var k := s.tasks[t];
      var k' := Task(!sleep, k.cursors[r := HandleNext(s.rings[r], k.cursors[r], sleep)]);
      s.(tasks := s.tasks[t := k'])
    case Activate(t) => Activated(s, t)
    case Deactivate(t) => s.(tasks := s.tasks[t := s.tasks[t].(active := false)])
  }

  // ---------- Invariant ----------

  /** The slots between head and tail hold the packets not yet released, in order. */
  ghost predicate RingInv<P>(g: Ring<P>)
  {
    && g.n >= 2 && |g.slots| == g.n
    && g.released <= |g.arrived| < g.released + g.n
    && g.head == Slot(g.n, g.released) && g.tail == Slot(g.n, |g.arrived|)
    && forall q :: g.released <= q < |g.arrived| ==> g.slots[Slot(g.n, q)] == g.arrived[q]
  }

  /** What was handled is what arrived, from the activation on. */
  ghost predicate Delivered<P>(g: Ring<P>, c: Cursor<P>)
  {
    && c.from + |c.got| <= |g.arrived|
    && c.got == g.arrived[c.from..c.from + |c.got|]
  }

  /** The head is between the ring's head and tail. */
  ghost predicate Positioned<P>(g: Ring<P>, c: Cursor<P>)
  {
    g.n > 0 && g.released <= c.pos <= |g.arrived| && c.id == Slot(g.n, c.pos)
  }

  /** The head of an active task is between the ring's head and tail, and everything
      before it since the activation was handled. */
  ghost predicate CursorInv<P>(g: Ring<P>, c: Cursor<P>, active: bool)
  {
    && Delivered(g, c)
    && (active ==> Positioned(g, c) && c.from + |c.got| == c.pos)
  }

  ghost predicate MarkInv<P>(g: Ring<P>, m: Mark)
  {
    g.n > 0 && g.released <= m.pos <= |g.arrived| && m.id == Slot(g.n, m.pos)
  }

  ghost predicate RingsInv<P>(s: State<P>)
  {
    forall r :: 0 <= r < |s.rings| ==> RingInv(s.rings[r])
  }

  ghost predicate TasksInv<P>(s: State<P>)
    requires WellFormed(s)
  {
    forall t, r :: 0 <= t < |s.tasks| && 0 <= r < |s.rings| ==>
      CursorInv(s.rings[r], s.tasks[t].cursors[r], s.tasks[t].active)
  }

  /** Task `u`'s head in ring `q` was looked at in this round. */
  ghost predicate Visited(phase: Phase, u: nat, q: nat)
  {
    match phase
    case Resting => false
    case Folding(t, r, _, _) => u < t || (u == t && q < r)
    case Releasing(r, _, _) => q >= r
  }

  /** The mark of ring `q` is set, and is still to be used. */
  ghost predicate Marked(phase: Phase, q: nat)
  {
    match phase
    case Resting => false
    case Folding(_, r, _, found) => found || q < r
    case Releasing(r, _, found) => found && q >= r
  }

  /** No active task that was looked at is behind the mark, however far it and the
      others have come since. */
  ghost predicate PhaseInv<P>(s: State<P>)
    requires WellFormed(s)
  {
    && (s.phase.Folding? && s.phase.t == |s.tasks| ==> s.phase.r == 0)
    // a task may have gone to sleep while its heads were looked at
    && (s.phase.Folding? && s.phase.r > 0 ==>
          forall q :: 0 <= q < |s.rings| ==> Positioned(s.rings[q], s.tasks[s.phase.t].cursors[q]))
    && (forall q :: 0 <= q < |s.rings| && Marked(s.phase, q) ==> MarkInv(s.rings[q], s.phase.marks[q]))
    && (forall u, q :: 0 <= u < |s.tasks| && 0 <= q < |s.rings| && s.tasks[u].active && Visited(s.phase, u, q) ==>
          Marked(s.phase, q) && s.phase.marks[q].pos <= s.tasks[u].cursors[q].pos)
  }

  ghost predicate Inv<P>(s: State<P>)
  {
    WellFormed(s) && RingsInv(s) && TasksInv(s) && PhaseInv(s)
  }

  // ---------- Every step keeps it ----------

  lemma ReceiveKeepsRing<P>(g: Ring<P>, p: P)
    requires RingInv(g) && CanReceive(g)
    ensures RingInv(ReceiveIn(g, p))
  {
    var n, top := g.n, |g.arrived|;
    SlotOfNext(n, top);
    SlotDistance(n, g.released, top);
    FollowingIsNext(n, g.head, g.tail);
    if top + 1 == g.released + n {
      assert top == g.released + (n - 1);
      FullRing(n, g.released, top);
    }
    forall q | g.released <= q < top
      ensures Slot(n, q) != Slot(n, top)
    {
      SameSlot(n, g.released, q, top);
    }
  }

  /** With n - 1 packets in it the ring takes no more. */
  lemma FullRing(n: nat, released: nat, top: nat)
    requires n >= 2 && top == released + n - 1
    ensures Following(n, Slot(n, top)) == Slot(n, released)
  {
    SlotOfNext(n, top);
    assert top + 1 == released + n;
    ModPlus(released, n);
  }

  lemma ReceiveKeeps<P>(s: State<P>, e: Step<P>)
    requires Inv(s) && e.Receive? && Enabled(s, e)
    ensures Inv(Apply(s, e))
  {
    ReceiveKeepsRing(s.rings[e.r], e.p);
  }

  lemma RoundKeeps<P>(s: State<P>, e: Step<P>)
    requires Inv(s) && e.StartRound? && Enabled(s, e)
    ensures Inv(Apply(s, e))
  {
  }

  lemma SlowerKeeps<P>(g: Ring<P>, m: Mark, c: Cursor<P>, found: bool)
    requires RingInv(g) && Positioned(g, c) && (found ==> MarkInv(g, m))
    ensures MarkInv(g, Slower(g, m, c, found))
    ensures Slower(g, m, c, found).pos <= c.pos
    ensures found ==> Slower(g, m, c, found).pos <= m.pos
    ensures Slower(g, m, c, found) == if !found || c.pos < m.pos then Mark(c.id, c.pos) else m
  {
    if found {
      SameSlot(g.n, g.released, m.pos, c.pos);
    }
  }

  /** Looking at one head. */
  lemma VisitHead<P>(s: State<P>)
    requires Inv(s) && s.phase.Folding?
    requires s.phase.t < |s.tasks| && s.phase.r < |s.rings|
    requires s.phase.r > 0 || s.tasks[s.phase.t].active
    ensures Inv(s.(phase := VisitNext(s)))
  {
    var Folding(t, r, marks, found) := s.phase;
    var c := s.tasks[t].cursors[r];
    assert CursorInv(s.rings[r], c, s.tasks[t].active);
    SlowerKeeps(s.rings[r], marks[r], c, found);
    var s' := s.(phase := VisitNext(s));
    forall u, q | 0 <= u < |s.tasks| && 0 <= q < |s.rings| && s.tasks[u].active && Visited(s'.phase, u, q)
      ensures Marked(s'.phase, q) && s'.phase.marks[q].pos <= s.tasks[u].cursors[q].pos
    {
      if u != t || q != r {
        assert Visited(s.phase, u, q);
      }
    }
    if r == 0 {
      forall q | 0 <= q < |s.rings|
        ensures Positioned(s.rings[q], s.tasks[t].cursors[q])
      {
        assert CursorInv(s.rings[q], s.tasks[t].cursors[q], true);
      }
    }
  }

  lemma VisitKeeps<P>(s: State<P>, e: Step<P>)
    requires Inv(s) && e.Visit? && Enabled(s, e)
    ensures Inv(Apply(s, e))
  {
    var Folding(t, r, marks, found) := s.phase;
    if t < |s.tasks| && r < |s.rings| && (r > 0 || s.tasks[t].active) {
      VisitHead(s);
    } else {
      var s' := s.(phase := VisitNext(s));
      forall u, q | 0 <= u < |s.tasks| && 0 <= q < |s.rings| && s.tasks[u].active && Visited(s'.phase, u, q)
        ensures Marked(s'.phase, q) && s'.phase.marks[q].pos <= s.tasks[u].cursors[q].pos
      {
        assert Visited(s.phase, u, q);
      }
    }
  }

  /** The ring's head moves to the mark, or to the tail when there is none, and no packet
      that is not released moves. */
  lemma ReleaseKeepsRing<P>(g: Ring<P>, m: Mark, found: bool)
    requires RingInv(g) && (found ==> MarkInv(g, m))
    ensures var g' := ReleaseRing(g, m, found);
            && RingInv(g')
            && g'.head == (if found then m.id else g.tail)
            && g'.released == (if found then m.pos else |g.arrived|)
            && g' == g.(head := g'.head, released := g'.released)
  {
    SlotDistance(g.n, g.released, |g.arrived|);
    if found {
      SameSlot(g.n, g.released, g.released, m.pos);
    }
  }

  lemma ReleaseKeeps<P>(s: State<P>, e: Step<P>)
    requires Inv(s) && e.Release? && Enabled(s, e)
    ensures Inv(Apply(s, e))
  {
    var Releasing(r, marks, found) := s.phase;
    if r < |s.rings| {
      assert found ==> Marked(s.phase, r);
      ReleaseKeepsRing(s.rings[r], marks[r], found);
      var g := ReleaseRing(s.rings[r], marks[r], found);
      forall u | 0 <= u < |s.tasks|
        ensures CursorInv(g, s.tasks[u].cursors[r], s.tasks[u].active)
      {
        assert CursorInv(s.rings[r], s.tasks[u].cursors[r], s.tasks[u].active);
        assert s.tasks[u].active ==> Visited(s.phase, u, r);
      }
      ReleaseKeepsTasks(s, Apply(s, e), r);
      ReleaseKeepsPhase(s, Apply(s, e), r);
    }
  }

  lemma ReleaseKeepsTasks<P>(s: State<P>, s': State<P>, r: nat)
    requires WellFormed(s) && WellFormed(s') && TasksInv(s) && r < |s.rings|
    requires |s'.rings| == |s.rings| && s'.tasks == s.tasks
    requires forall q :: 0 <= q < |s.rings| && q != r ==> s'.rings[q] == s.rings[q]
    requires forall u :: 0 <= u < |s.tasks| ==>
               CursorInv(s'.rings[r], s.tasks[u].cursors[r], s.tasks[u].active)
    ensures TasksInv(s')
  {
  }

  lemma ReleaseKeepsPhase<P>(s: State<P>, s': State<P>, r: nat)
    requires WellFormed(s) && WellFormed(s') && PhaseInv(s) && r < |s.rings|
    requires |s'.rings| == |s.rings| && s'.tasks == s.tasks
    requires s.phase.Releasing? && s.phase.r == r
    requires s'.phase == Releasing(r + 1, s.phase.marks, s.phase.found)
    requires forall q :: 0 <= q < |s.rings| && q != r ==> s'.rings[q] == s.rings[q]
    ensures PhaseInv(s')
  {
    forall q | 0 <= q < |s.rings| && Marked(s'.phase, q)
      ensures MarkInv(s'.rings[q], s'.phase.marks[q])
    {
      assert Marked(s.phase, q);
    }
    forall u, q | 0 <= u < |s.tasks| && 0 <= q < |s.rings| && s.tasks[u].active && Visited(s'.phase, u, q)
      ensures Marked(s'.phase, q) && s'.phase.marks[q].pos <= s.tasks[u].cursors[q].pos
    {
      assert Visited(s.phase, u, q);
    }
  }

  lemma HandleKeepsCursor<P>(g: Ring<P>, c: Cursor<P>, sleep: bool)
    requires RingInv(g) && CursorInv(g, c, true) && c.id != g.tail
    ensures CursorInv(g, HandleNext(g, c, sleep), !sleep)
    ensures Positioned(g, HandleNext(g, c, sleep))
    ensures HandleNext(g, c, sleep).pos >= c.pos
  {
    SlotOfNext(g.n, c.pos);
    assert g.slots[c.id] == g.arrived[c.pos];
    var i := c.from + |c.got|;
    assert g.arrived[c.from..i + 1] == g.arrived[c.from..i] + [g.arrived[i]];
  }

  lemma HandleKeeps<P>(s: State<P>, e: Step<P>)
    requires Inv(s) && e.Handle? && Enabled(s, e)
    ensures Inv(Apply(s, e))
  {
    assert CursorInv(s.rings[e.r], s.tasks[e.t].cursors[e.r], true);
    HandleKeepsCursor(s.rings[e.r], s.tasks[e.t].cursors[e.r], e.sleep);
  }

  lemma ActivateKeeps<P>(s: State<P>, e: Step<P>)
    requires Inv(s) && e.Activate? && Enabled(s, e)
    ensures Inv(Apply(s, e))
  {
  }

  lemma DeactivateKeeps<P>(s: State<P>, e: Step<P>)
    requires Inv(s) && e.Deactivate? && Enabled(s, e)
    ensures Inv(Apply(s, e))
  {
  }

  lemma StepKeeps<P>(s: State<P>, e: Step<P>)
    requires Inv(s) && Enabled(s, e)
    ensures Inv(Apply(s, e))
  {
    hide Inv, Apply;
    match e {
      case Receive(_, _) => ReceiveKeeps(s, e);
      case StartRound => RoundKeeps(s, e);
      case Visit => VisitKeeps(s, e);
      case Release => ReleaseKeeps(s, e);
      case Handle(_, _, _) => HandleKeeps(s, e);
      case Activate(_) => ActivateKeeps(s, e);
      case Deactivate(_) => DeactivateKeeps(s, e);
    }
  }

  // ---------- All runs ----------

  /** The daemon has started: nothing has arrived and no task is active. */
  ghost predicate Initial<P>(s: State<P>)
  {
    && WellFormed(s) && s.phase.Resting?
    && (forall r :: 0 <= r < |s.rings| ==>
          var g := s.rings[r]; g.n >= 2 && g.head == g.tail == g.released == 0 && g.arrived == [])
    && (forall t :: 0 <= t < |s.tasks| ==> !s.tasks[t].active)
    && (forall t, r :: 0 <= t < |s.tasks| && 0 <= r < |s.rings| ==>
          s.tasks[t].cursors[r].from == 0 && s.tasks[t].cursors[r].got == [])
  }

  ghost predicate Run<P>(s: State<P>, steps: seq<Step<P>>, end: State<P>)
    decreases |steps|
  {
    && WellFormed(s)
    && (if steps == [] then end == s
        else Enabled(s, steps[0]) && Run(Apply(s, steps[0]), steps[1..], end))
  }

  lemma {:induction false} RunKeeps<P>(s: State<P>, steps: seq<Step<P>>, end: State<P>)
    requires Inv(s) && Run(s, steps, end)
    ensures Inv(end)
    decreases |steps|
  {
    if steps != [] {
      StepKeeps(s, steps[0]);
      RunKeeps(Apply(s, steps[0]), steps[1..], end);
    }
  }

  /** Everything that has arrived in the ring and the task has not handled is still
      in its slot, and the card will not put the next packet there. */
  ghost predicate SlotsSafe<P>(g: Ring<P>, c: Cursor<P>)
  {
    && c.id < g.n && g.head < g.n && g.tail < g.n && |g.slots| == g.n
    && Between(g.n, g.head, c.id) <= Between(g.n, g.head, g.tail)
    && c.pos <= |g.arrived|
    && (c.id == g.tail <==> c.pos == |g.arrived|)
    && forall q :: c.pos <= q < |g.arrived| ==>
         g.slots[Slot(g.n, q)] == g.arrived[q] && Slot(g.n, q) != g.tail
  }

  /** Since its activation the task has handled exactly the packets that arrived from
      the ring's head at the time up to its own head, each once and in order. */
  ghost predicate DeliveredOnce<P>(g: Ring<P>, c: Cursor<P>)
  {
    c.from <= c.pos <= |g.arrived| && c.got == g.arrived[c.from..c.pos]
  }

  lemma Safe<P>(g: Ring<P>, c: Cursor<P>)
    requires RingInv(g) && CursorInv(g, c, true)
    ensures SlotsSafe(g, c) && DeliveredOnce(g, c)
  {
    SlotDistance(g.n, g.released, c.pos);
    SlotDistance(g.n, g.released, |g.arrived|);
    SameSlot(g.n, g.released, c.pos, |g.arrived|);
    forall q | c.pos <= q < |g.arrived|
      ensures Slot(g.n, q) != g.tail
    {
      SameSlot(g.n, g.released, q, |g.arrived|);
    }
  }

  /** Whatever the card, the coordinator and the tasks do, and in whatever order
      their steps are taken, no packet is overwritten before every active task has
      handled it, and none is handled twice or skipped. */
  lemma AllRunsAreSafe<P>(s: State<P>, steps: seq<Step<P>>, end: State<P>)
    requires Initial(s) && Run(s, steps, end)
    ensures WellFormed(end)
    ensures forall t, r :: 0 <= t < |end.tasks| && 0 <= r < |end.rings| && end.tasks[t].active ==>
              && SlotsSafe(end.rings[r], end.tasks[t].cursors[r])
              && DeliveredOnce(end.rings[r], end.tasks[t].cursors[r])
  {
    assert Inv(s);
    RunKeeps(s, steps, end);
    forall t, r | 0 <= t < |end.tasks| && 0 <= r < |end.rings| && end.tasks[t].active
      ensures SlotsSafe(end.rings[r], end.tasks[t].cursors[r])
      ensures DeliveredOnce(end.rings[r], end.tasks[t].cursors[r])
    {
      assert CursorInv(end.rings[r], end.tasks[t].cursors[r], true);
      Safe(end.rings[r], end.tasks[t].cursors[r]);
    }
  }

  // ---------- What each step does ----------

  /** All tasks but `t` are as they were. */
  predicate OthersStay<P(==)>(s: State<P>, s': State<P>, t: nat)
  {
    |s'.tasks| == |s.tasks| && forall u :: 0 <= u < |s.tasks| && u != t ==> s'.tasks[u] == s.tasks[u]
  }

  /** The card and the tasks: a packet that arrives is the latest one and lies in the slot
      that was free; a deactivated task is inactive and an activated one is at the heads of
      the rings; a handled packet is the one in the slot at the task's head, which moves on
      unless the task falls asleep. */
  lemma StepsDo<P>(s: State<P>, e: Step<P>)
    requires WellFormed(s) && Enabled(s, e)
    ensures var s' := Apply(s, e);
            && (e.Receive? ==>
                  && s'.tasks == s.tasks && s'.phase == s.phase && |s'.rings| == |s.rings|
                  && (forall q :: 0 <= q < |s.rings| && q != e.r ==> s'.rings[q] == s.rings[q])
                  && var g, g' := s.rings[e.r], s'.rings[e.r];
                  && g'.arrived == g.arrived + [e.p] && g'.slots[g.tail] == e.p && g'.head == g.head
                  && g'.tail == (if g.tail + 1 == g.n then 0 else g.tail + 1) != g.head
                  && (forall i :: 0 <= i < g.n && i != g.tail ==> g'.slots[i] == g.slots[i]))
            && (e.Deactivate? ==>
                  && s'.rings == s.rings && s'.phase == s.phase && OthersStay(s, s', e.t)
                  && !s'.tasks[e.t].active && s'.tasks[e.t].cursors == s.tasks[e.t].cursors)
            && (e.Activate? ==>
                  && s'.rings == s.rings && s'.phase == s.phase && OthersStay(s, s', e.t)
                  && s'.tasks[e.t].active && |s'.tasks[e.t].cursors| == |s.rings|
                  && forall r :: 0 <= r < |s.rings| ==>
                       s'.tasks[e.t].cursors[r] ==
                         Cursor(s.rings[r].head, s.rings[r].released, s.rings[r].released, []))
            && (e.StartRound? || e.Visit? ==> s'.rings == s.rings && s'.tasks == s.tasks)
            && (e.Release? ==> s'.tasks == s.tasks)
  {
  }

  lemma HandleDoes<P>(s: State<P>, e: Step<P>)
    requires WellFormed(s) && Enabled(s, e) && e.Handle?
    ensures var s' := Apply(s, e);
            && s'.rings == s.rings && s'.phase == s.phase && OthersStay(s, s', e.t)
            && (s'.tasks[e.t].active <==> !e.sleep)
            && |s'.tasks[e.t].cursors| == |s.tasks[e.t].cursors|
            && (forall q :: 0 <= q < |s.rings| && q != e.r ==>
                  s'.tasks[e.t].cursors[q] == s.tasks[e.t].cursors[q])
            && var g, c, c' := s.rings[e.r], s.tasks[e.t].cursors[e.r], s'.tasks[e.t].cursors[e.r];
            && c'.got == c.got + [g.slots[c.id]] && c'.from == c.from
            && c'.id == (if e.sleep then c.id else if c.id + 1 == g.n then 0 else c.id + 1)
  {
  }

  /** Task `t` is not activated in these steps. */
  predicate NotActivated<P>(steps: seq<Step<P>>, t: nat)
  {
    forall i :: 0 <= i < |steps| ==> !(steps[i].Activate? && steps[i].t == t)
  }

  lemma StepFrom<P>(s: State<P>, e: Step<P>, t: nat, r: nat)
    requires WellFormed(s) && Enabled(s, e) && t < |s.tasks| && r < |s.rings| && !(e.Activate? && e.t == t)
    ensures var s' := Apply(s, e);
            && t < |s'.tasks| && r < |s'.rings| && r < |s'.tasks[t].cursors|
            && s'.tasks[t].cursors[r].from == s.tasks[t].cursors[r].from
            && s.tasks[t].cursors[r].got <= s'.tasks[t].cursors[r].got
  {
    StepsDo(s, e);
    if e.Handle? {
      HandleDoes(s, e);
    }
    hide Apply, Enabled;
    if e.Release? {
      ReleaseSizes(s, e);
    }
  }

  lemma ReleaseSizes<P>(s: State<P>, e: Step<P>)
    requires WellFormed(s) && Enabled(s, e) && e.Release?
    ensures |Apply(s, e).rings| == |s.rings|
  {
  }

  lemma {:induction false} FromStays<P>(s: State<P>, steps: seq<Step<P>>, end: State<P>, t: nat, r: nat)
    requires Run(s, steps, end) && NotActivated(steps, t) && t < |s.tasks| && r < |s.rings|
    ensures t < |end.tasks| && r < |end.rings| && r < |end.tasks[t].cursors|
    ensures end.tasks[t].cursors[r].from == s.tasks[t].cursors[r].from
    ensures s.tasks[t].cursors[r].got <= end.tasks[t].cursors[r].got
    decreases |steps|
  {
    hide Apply, Enabled;
    if steps != [] {
      StepFrom(s, steps[0], t, r);
      assert NotActivated(steps[1..], t) by {
        assert forall i :: 0 <= i < |steps[1..]| ==> steps[1..][i] == steps[i + 1];
      }
      FromStays(Apply(s, steps[0]), steps[1..], end, t, r);
    }
  }

  /** Slot `id` is where packet `p` goes. */
  predicate IsSlotOf<P>(g: Ring<P>, id: nat, p: nat)
  {
    g.n > 0 && id == p % g.n
  }

  /** What was handled are the arrivals from packet `first` on, all that come before the
      head if the task is active. */
  predicate GotFrom<P(==)>(g: Ring<P>, c: Cursor<P>, first: nat, active: bool)
  {
    && first + |c.got| <= |g.arrived| && c.got == g.arrived[first..first + |c.got|]
    && (active ==> IsSlotOf(g, c.id, first + |c.got|))
  }

  /** From an activation while the coordinator rests until the next one of the same task:
      the packets it has handled of each ring are those that arrived from the ring's head at
      the activation on, each once and in order, as long as it is active up to its own head
      now. */
  lemma DeliveredSinceActivation<P>(s: State<P>, t: nat, steps: seq<Step<P>>, end: State<P>, r: nat)
    requires Inv(s) && s.phase.Resting? && t < |s.tasks| && r < |s.rings|
    requires Run(Apply(s, Activate(t)), steps, end) && NotActivated(steps, t)
    ensures t < |end.tasks| && r < |end.rings| && r < |end.tasks[t].cursors|
    ensures IsSlotOf(s.rings[r], s.rings[r].head, s.rings[r].released)
    ensures GotFrom(end.rings[r], end.tasks[t].cursors[r], s.rings[r].released, end.tasks[t].active)
  {
    hide Inv, Apply, Run, Enabled, WellFormed, NotActivated, RingInv, CursorInv, GotFrom, IsSlotOf;
    InvAt(s, t, r);
    ActivateDoes(s, t, r);
    var s' := Apply(s, Activate(t));
    StepKeeps(s, Activate(t));
    FromStays(s', steps, end, t, r);
    RunKeeps(s', steps, end);
    InvAt(end, t, r);
    GotFromHere(end.rings[r], end.tasks[t].cursors[r], end.tasks[t].active);
  }

  lemma GotFromHere<P>(g: Ring<P>, c: Cursor<P>, active: bool)
    requires RingInv(g) && CursorInv(g, c, active)
    ensures GotFrom(g, c, c.from, active)
  {
  }

  lemma ActivateDoes<P>(s: State<P>, t: nat, r: nat)
    requires WellFormed(s) && s.phase.Resting? && t < |s.tasks| && r < |s.rings|
    ensures Enabled(s, Activate(t))
    ensures var s' := Apply(s, Activate(t));
            && |s'.tasks| == |s.tasks| && |s'.rings| == |s.rings| && |s'.tasks[t].cursors| == |s.rings|
            && s'.tasks[t].cursors[r].from == s.rings[r].released
  {
  }

  lemma InvAt<P>(s: State<P>, t: nat, r: nat)
    requires Inv(s) && t < |s.tasks| && r < |s.rings|
    ensures WellFormed(s) && r < |s.tasks[t].cursors|
    ensures IsSlotOf(s.rings[r], s.rings[r].head, s.rings[r].released)
    ensures RingInv(s.rings[r]) && CursorInv(s.rings[r], s.tasks[t].cursors[r], s.tasks[t].active)
  {
  }

  // ---------- Activation while the coordinator is at work ----------

  /** Each ring still to be released stays where it is. */
  predicate StaysPut<P>(s: State<P>)
    requires s.phase.Releasing? && |s.phase.marks| == |s.rings|
  {
    && (s.phase.r < |s.rings| ==> s.phase.found)
    && forall q :: s.phase.r <= q < |s.rings| ==> s.phase.marks[q].id == s.rings[q].head
  }

  /** A task that becomes active while the coordinator is releasing rings keeps the
      invariant exactly when none of the remaining releases moves a head. */
  lemma ActivationKeepsIff<P>(s: State<P>, t: nat)
    requires Inv(s) && s.phase.Releasing? && t < |s.tasks|
    ensures Inv(Activated(s, t)) <==> StaysPut(s)
  {
    var s' := Activated(s, t);
    ActivationKeepsRest(s, t);
    if StaysPut(s) {
      forall q | s.phase.r <= q < |s.rings|
        ensures s.phase.found && s.phase.marks[q].pos <= s.rings[q].released
      {
        assert s.phase.marks[q].id == s.rings[q].head;
        MarkAtHead(s, q);
      }
    }
    if PhaseInv(s') {
      assert s.phase.r < |s.rings| ==> Visited(s'.phase, t, s.phase.r);
      forall q | s.phase.r <= q < |s.rings|
        ensures s.phase.marks[q].id == s.rings[q].head
      {
        assert Visited(s'.phase, t, q) && Marked(s'.phase, q);
        assert s'.tasks[t].cursors[q].pos == s.rings[q].released;
        MarkAtHead(s, q);
      }
    }
  }

  lemma MarkAtHead<P>(s: State<P>, q: nat)
    requires Inv(s) && s.phase.Releasing? && s.phase.r <= q < |s.rings| && s.phase.found
    ensures s.phase.marks[q].id == s.rings[q].head <==> s.phase.marks[q].pos <= s.rings[q].released
  {
    assert Marked(s.phase, q);
    SameSlot(s.rings[q].n, s.rings[q].released, s.phase.marks[q].pos, s.rings[q].released);
  }

  lemma ActivationKeepsRest<P>(s: State<P>, t: nat)
    requires Inv(s) && s.phase.Releasing? && t < |s.tasks|
    ensures var s' := Activated(s, t);
            && WellFormed(s') && RingsInv(s') && TasksInv(s')
            && ((forall q :: s.phase.r <= q < |s.rings| ==>
                   s.phase.found && s.phase.marks[q].pos <= s.rings[q].released) ==> PhaseInv(s'))
  {
  }

  /** Task `t`, if it is active, can rely on its slots. */
  ghost predicate SafeFor<P>(s: State<P>, t: nat)
  {
    && t < |s.tasks| && |s.tasks[t].cursors| == |s.rings|
    && (s.tasks[t].active ==>
          forall r :: 0 <= r < |s.rings| ==> SlotsSafe(s.rings[r], s.tasks[t].cursors[r]))
  }

  ghost predicate SafeInAllRuns<P(!new)>(s: State<P>, t: nat)
  {
    forall steps: seq<Step<P>>, end: State<P> :: Run(s, steps, end) ==> SafeFor(end, t)
  }

  /** A task that becomes active while the coordinator is releasing rings can rely on its
      slots, whatever happens next, if and only if none of the remaining releases moves a
      head. `p` is a packet that may arrive. */
  lemma ActivationWhileReleasing<P(!new)>(s: State<P>, t: nat, p: P)
    requires Inv(s) && s.phase.Releasing? && t < |s.tasks|
    ensures SafeInAllRuns(Activated(s, t), t) <==> StaysPut(s)
  {
    var s' := Activated(s, t);
    ActivationKeepsIff(s, t);
    hide Inv, Run, SafeFor, Activated;
    if StaysPut(s) {
      forall steps: seq<Step<P>>, end: State<P> | Run(s', steps, end)
        ensures SafeFor(end, t)
      {
        RunKeeps(s', steps, end);
        ActivatedSizes(s, t);
        SizesStay(s', steps, end);
        SafeInState(end, t);
      }
    } else {
      var steps, end := UnsafeRun(s, t, p);
    }
  }

  /** A task that becomes active while heads are collected, before its turn, can also rely
      on its slots. */
  lemma ActivationBeforeVisit<P(!new)>(s: State<P>, t: nat)
    requires Inv(s) && s.phase.Folding? && t < |s.tasks|
    requires s.phase.t < t || (s.phase.t == t && s.phase.r == 0)
    ensures SafeInAllRuns(Activated(s, t), t)
  {
    var s' := Activated(s, t);
    BeforeVisitKeeps(s, t);
    hide Inv, Run, SafeFor, Activated;
    forall steps: seq<Step<P>>, end: State<P> | Run(s', steps, end)
      ensures SafeFor(end, t)
    {
      RunKeeps(s', steps, end);
      ActivatedSizes(s, t);
      SizesStay(s', steps, end);
      SafeInState(end, t);
    }
  }

  lemma BeforeVisitKeeps<P>(s: State<P>, t: nat)
    requires Inv(s) && s.phase.Folding? && t < |s.tasks|
    requires s.phase.t < t || (s.phase.t == t && s.phase.r == 0)
    ensures Inv(Activated(s, t))
  {
  }

  lemma ActivatedSizes<P>(s: State<P>, t: nat)
    requires t < |s.tasks|
    ensures |Activated(s, t).tasks| == |s.tasks|
  {
  }

  lemma {:induction false} SizesStay<P>(s: State<P>, steps: seq<Step<P>>, end: State<P>)
    requires Run(s, steps, end)
    ensures |end.tasks| == |s.tasks|
    decreases |steps|
  {
    if steps != [] {
      SizesStay(Apply(s, steps[0]), steps[1..], end);
    }
  }

  lemma SafeInState<P>(s: State<P>, t: nat)
    requires Inv(s) && t < |s.tasks|
    ensures SafeFor(s, t)
  {
    if s.tasks[t].active {
      forall r | 0 <= r < |s.rings|
        ensures SlotsSafe(s.rings[r], s.tasks[t].cursors[r])
      {
        assert CursorInv(s.rings[r], s.tasks[t].cursors[r], true);
        Safe(s.rings[r], s.tasks[t].cursors[r]);
      }
    }
  }

  /** The next releases will move the head of ring `q` past that of task `t`. */
  ghost predicate Endangered<P>(s: State<P>, t: nat, q: nat)
  {
    && WellFormed(s) && s.phase.Releasing? && s.phase.r <= q < |s.rings|
    && t < |s.tasks| && s.tasks[t].active
    && RingInv(s.rings[q])
    && s.tasks[t].cursors[q].pos == s.rings[q].released && s.tasks[t].cursors[q].id == s.rings[q].head
    && (if s.phase.found then
          && (forall k :: s.phase.r <= k < |s.rings| ==> MarkInv(s.rings[k], s.phase.marks[k]))
          && s.phase.marks[q].pos > s.rings[q].released
        else
          q == s.phase.r && |s.rings[q].arrived| > s.rings[q].released)
  }

  /** A head that is behind the ring's head is taken for one beyond the tail. */
  lemma Behind<P>(g: Ring<P>, c: Cursor<P>)
    requires RingInv(g) && c.id == Slot(g.n, c.pos) && c.pos < g.released && |g.arrived| < c.pos + g.n
    ensures !SlotsSafe(g, c)
  {
    SlotDistance(g.n, g.released, |g.arrived|);
    SlotDistance(g.n, g.released, c.pos + g.n);
    ModPlus(c.pos, g.n);
  }

  lemma LastRelease<P>(s: State<P>, t: nat)
    requires s.phase.Releasing? && Endangered(s, t, s.phase.r)
    ensures Enabled(s, Release) && WellFormed(Apply(s, Release)) && !SafeFor(Apply(s, Release), t)
  {
    var Releasing(q, marks, found) := s.phase;
    var g, c := s.rings[q], s.tasks[t].cursors[q];
    ReleaseKeepsRing(g, marks[q], found);
    Behind(ReleaseRing(g, marks[q], found), c);
    assert Apply(s, Release).rings[q] == ReleaseRing(g, marks[q], found);
  }

  lemma EarlierRelease<P>(s: State<P>, t: nat, q: nat)
    requires Endangered(s, t, q) && s.phase.r < q
    ensures Enabled(s, Release) && Endangered(Apply(s, Release), t, q)
  {
  }

  lemma {:induction false} ReleasesTo<P>(s: State<P>, t: nat, q: nat) returns (steps: seq<Step<P>>, end: State<P>)
    requires Endangered(s, t, q)
    ensures Run(s, steps, end) && !SafeFor(end, t)
    decreases q - s.phase.r
  {
    hide SafeFor, Apply;
    var s' := Apply(s, Release);
    if s.phase.r == q {
      LastRelease(s, t);
      steps, end := [Release], s';
      assert Run(s', [], s');
    } else {
      EarlierRelease(s, t, q);
      NextRelease(s);
      var rest;
      rest, end := ReleasesTo(s', t, q);
      steps := [Release] + rest;
      assert steps[1..] == rest;
    }
  }

  lemma NextRelease<P>(s: State<P>)
    requires WellFormed(s) && s.phase.Releasing? && s.phase.r < |s.rings|
    ensures Apply(s, Release).phase == Releasing(s.phase.r + 1, s.phase.marks, s.phase.found)
  {
  }

  /** The run that shows it: a packet arrives if the ring is empty, and then the rings are
      released. */
  lemma UnsafeRun<P>(s: State<P>, t: nat, p: P) returns (steps: seq<Step<P>>, end: State<P>)
    requires Inv(s) && s.phase.Releasing? && t < |s.tasks| && !StaysPut(s)
    ensures Run(Activated(s, t), steps, end) && !SafeFor(end, t)
  {
    var s' := Activated(s, t);
    var Releasing(r, marks, found) := s.phase;
    if found {
      var q :| r <= q < |s.rings| && marks[q].id != s.rings[q].head;
      MarkAtHead(s, q);
      MarkedEndangered(s, t, q);
      steps, end := ReleasesTo(s', t, q);
    } else if |s.rings[r].arrived| > s.rings[r].released {
      steps, end := ReleasesTo(s', t, r);
    } else {
      ReceiveEndangers(s, t, p);
      var rest;
      rest, end := ReleasesTo(Apply(s', Receive(r, p)), t, r);
      steps := [Receive(r, p)] + rest;
      assert steps[1..] == rest;
    }
  }

  lemma MarkedEndangered<P>(s: State<P>, t: nat, q: nat)
    requires Inv(s) && s.phase.Releasing? && t < |s.tasks| && s.phase.found
    requires s.phase.r <= q < |s.rings| && s.phase.marks[q].pos > s.rings[q].released
    ensures Endangered(Activated(s, t), t, q)
  {
    forall k | s.phase.r <= k < |s.rings|
      ensures MarkInv(s.rings[k], s.phase.marks[k])
    {
      assert Marked(s.phase, k);
    }
  }

  lemma ReceiveEndangers<P>(s: State<P>, t: nat, p: P)
    requires Inv(s) && s.phase.Releasing? && t < |s.tasks| && !s.phase.found && s.phase.r < |s.rings|
    requires |s.rings[s.phase.r].arrived| == s.rings[s.phase.r].released
    ensures var s', e := Activated(s, t), Receive(s.phase.r, p);
            WellFormed(s') && Enabled(s', e) && Endangered(Apply(s', e), t, s.phase.r)
  {
    var g := s.rings[s.phase.r];
    SlotOfNext(g.n, |g.arrived|);
    SameSlot(g.n, g.released, |g.arrived| + 1, g.released);
    ReceiveKeepsRing(g, p);
  }

  /** One ring of three slots and one task, which is activated between the
      coordinator's look at the tasks and its release of the ring: the packet at the
      new task's head is gone, and the fourth packet is in its place. */
  lemma ActivationRace()
    ensures var g := Ring(3, 0, 0, [0, 0, 0], [], 0);
            var idle := State([g], [Task(false, [Cursor(0, 0, 0, [])])], Resting);
            exists s1: State<int>, s3: State<int> ::
              && Run(idle, [Receive(0, 101), Receive(0, 102), StartRound, Visit, Visit], s1)
              && Run(Activated(s1, 0), [Release, Receive(0, 103), Receive(0, 104)], s3)
              && s3.tasks[0].active && s3.tasks[0].cursors[0].id == 0
              && s3.rings[0].arrived[s3.tasks[0].cursors[0].pos] == 101
              && s3.rings[0].slots[0] == 104
  {
    var g := Ring(3, 0, 0, [0, 0, 0], [], 0);
    var c := Cursor(0, 0, 0, []);
    var off, on := [Task(false, [c])], [Task(true, [c])];
    var g2 := Ring(3, 0, 2, [101, 102, 0], [101, 102], 0);
    var m := [Mark(0, 0)];
    var s0 := State([g], off, Resting);
    var s1 := State([g2], off, Releasing(0, m, false));
    RaceFirst(s0, s1);
    var g3 := Ring(3, 2, 1, [104, 102, 103], [101, 102, 103, 104], 2);
    var s3 := State([g3], on, Releasing(1, m, false));
    assert Activated(s1, 0).tasks[0].cursors == [c];
    assert Activated(s1, 0).tasks == on;
    RaceSecond(Activated(s1, 0), s3);
  }

  lemma RaceVisits(b: State<int>, s1: State<int>)
    requires b == State([Ring(3, 0, 2, [101, 102, 0], [101, 102], 0)], [Task(false, [Cursor(0, 0, 0, [])])], Resting)
    requires s1 == State(b.rings, b.tasks, Releasing(0, [Mark(0, 0)], false))
    ensures Run(b, [StartRound, Visit, Visit], s1)
  {
    var d := Apply(b, StartRound);
    assert d.phase == Folding(0, 0, [Mark(0, 0)], false);
    var e := Apply(d, Visit);
    assert Run(e, [Visit], s1);
    assert Run(d, [Visit, Visit], s1);
  }

  lemma RaceFirst(s0: State<int>, s1: State<int>)
    requires s0 == State([Ring(3, 0, 0, [0, 0, 0], [], 0)], [Task(false, [Cursor(0, 0, 0, [])])], Resting)
    requires s1 == State([Ring(3, 0, 2, [101, 102, 0], [101, 102], 0)], s0.tasks,
                         Releasing(0, [Mark(0, 0)], false))
    ensures Run(s0, [Receive(0, 101), Receive(0, 102), StartRound, Visit, Visit], s1)
  {
    assert [0, 0, 0][0 := 101] == [101, 0, 0] && [101, 0, 0][1 := 102] == [101, 102, 0];
    assert [] + [101] == [101] && [101] + [102] == [101, 102];
    var a := Apply(s0, Receive(0, 101));
    assert a.rings == [Ring(3, 0, 1, [101, 0, 0], [101], 0)];
    var b := Apply(a, Receive(0, 102));
    assert b.rings == s1.rings;
    RaceVisits(b, s1);
    assert Run(a, [Receive(0, 102), StartRound, Visit, Visit], s1);
  }

  lemma RaceSecond(s1: State<int>, s3: State<int>)
    requires s1 == State([Ring(3, 0, 2, [101, 102, 0], [101, 102], 0)], [Task(true, [Cursor(0, 0, 0, [])])],
                         Releasing(0, [Mark(0, 0)], false))
    requires s3 == State([Ring(3, 2, 1, [104, 102, 103], [101, 102, 103, 104], 2)], s1.tasks,
                         Releasing(1, [Mark(0, 0)], false))
    ensures Run(s1, [Release, Receive(0, 103), Receive(0, 104)], s3)
  {
    assert [101, 102, 0][2 := 103] == [101, 102, 103] && [101, 102, 103][0 := 104] == [104, 102, 103];
    assert [101, 102] + [103] == [101, 102, 103] && [101, 102, 103] + [104] == [101, 102, 103, 104];
    var a := Apply(s1, Release);
    assert a.rings == [Ring(3, 2, 2, [101, 102, 0], [101, 102], 2)];
    var b := Apply(a, Receive(0, 103));
    assert b.rings == [Ring(3, 2, 0, [101, 102, 103], [101, 102, 103], 2)];
    var d := Apply(b, Receive(0, 104));
    assert d.rings == s3.rings;
    assert Run(b, [Receive(0, 104)], s3);
    assert Run(a, [Receive(0, 103), Receive(0, 104)], s3);
  }
}
