/** Slot numbers of a receive ring, which wrap around, and the order they have as
    seen from the ring's head. */
module RingIds {

  function Preceding(n: nat, i: nat): nat
    requires i < n
  {
    if i == 0 then n - 1 else i - 1
  }

  function Following(n: nat, i: nat): nat
    requires i < n
  {
    if i + 1 == n then 0 else i + 1
  }

  /** Both slots on the same side of the head. */
  predicate SameRegion(head: nat, a: nat, b: nat)
  {
    (head <= a && head <= b) || (head > a && head > b)
  }

  function CompareIds(head: nat, a: nat, b: nat): int
  {
    if a == b then 0
    else if SameRegion(head, a, b) then if a < b then -1 else 1
    else if a < b then 1 else -1
  }

  function EarlierId(head: nat, a: nat, b: nat): nat
  {
    if a == b then a
    else if SameRegion(head, a, b) then if a < b then a else b
    else if a < b then b else a
  }

  function LaterId(head: nat, a: nat, b: nat): nat
  {
    if a == b then a
    else if SameRegion(head, a, b) then if a < b then b else a
    else if a < b then a else b
  }

  /** Slots between two slot numbers, as the ring counts done, pending and all
      packets. */
  function Between(n: nat, from: nat, to: nat): nat
    requires from < n && to < n
  {
    if to >= from then to - from else n + to - from
  }

  function Done(n: nat, head: nat, cur: nat): nat
    requires head < n && cur < n
  {
    Between(n, head, cur)
  }

  function Pending(n: nat, cur: nat, tail: nat): nat
    requires cur < n && tail < n
  {
    Between(n, cur, tail)
  }

  function Total(n: nat, head: nat, tail: nat): nat
    requires head < n && tail < n
  {
    Between(n, head, tail)
  }

  /** Which slot the `p`-th packet ever received goes to. */
  function Slot(n: nat, p: nat): nat
    requires n > 0
  {
    p % n
  }

  // ---------- Properties ----------

  /** Comparing slots is comparing how far ahead of the head they are, so it is a
      strict total order, and the earlier and the later of two are its minimum and
      maximum. */
  lemma CompareIsDistance(n: nat, head: nat, a: nat, b: nat)
    requires head < n && a < n && b < n
    ensures CompareIds(head, a, b) < 0 <==> Between(n, head, a) < Between(n, head, b)
    ensures CompareIds(head, a, b) == 0 <==> a == b
    ensures CompareIds(head, a, b) == 0 <==> Between(n, head, a) == Between(n, head, b)
    ensures CompareIds(head, a, b) > 0 <==> Between(n, head, a) > Between(n, head, b)
    ensures EarlierId(head, a, b) == if Between(n, head, a) <= Between(n, head, b) then a else b
    ensures LaterId(head, a, b) == if Between(n, head, a) <= Between(n, head, b) then b else a
  {
  }

  lemma BetweenIsMod(n: nat, from: nat, to: nat)
    requires from < n && to < n
    ensures Between(n, from, to) == (to - from) % n
  {
  }

  lemma ModPlus(x: int, n: nat)
    requires n > 0
    ensures (x + n) % n == x % n
  {
    var q, r := x / n, x % n;
    assert x + n == n * (q + 1) + r;
    DivModUnique(x + n, n, q + 1, r);
  }

  lemma DivModUnique(x: int, n: nat, q: int, r: int)
    requires n > 0 && x == n * q + r && 0 <= r < n
    ensures x / n == q && x % n == r
  {
    assert n * (q - x / n) == x % n - r;
    Quotient(n, q - x / n, x % n - r);
  }

  lemma Quotient(n: int, d: int, e: int)
    requires n > 0 && -n < e < n && n * d == e
    ensures d == 0
  {
    if d > 0 {
      AtLeast(n, d);
    } else if d < 0 {
      AtLeast(n, -d);
    }
  }

  lemma {:induction false} AtLeast(n: int, d: int)
    requires n > 0 && d > 0
    ensures n * d >= n
    decreases d
  {
    if d > 1 {
      AtLeast(n, d - 1);
      assert n * d == n * (d - 1) + n;
    }
  }

  /** The packets done and pending are all there are exactly when the cursor lies
      between head and tail; otherwise the counts go once round the ring too far. */
  lemma DonePlusPending(n: nat, head: nat, cur: nat, tail: nat)
    requires head < n && cur < n && tail < n
    ensures Done(n, head, cur) + Pending(n, cur, tail) == Total(n, head, tail)
       <==> CompareIds(head, cur, tail) <= 0
    ensures CompareIds(head, cur, tail) > 0 ==>
              Done(n, head, cur) + Pending(n, cur, tail) == Total(n, head, tail) + n
  {
  }

  /** The following slot is one further from the head, unless it is the head. */
  lemma FollowingIsNext(n: nat, head: nat, i: nat)
    requires head < n && i < n
    ensures Following(n, i) != head ==> Between(n, head, Following(n, i)) == Between(n, head, i) + 1
    ensures Preceding(n, Following(n, i)) == i && Following(n, Preceding(n, i)) == i
  {
  }

  // ---------- Unbounded positions ----------

  lemma SlotOfNext(n: nat, p: nat)
    requires n > 0
    ensures Slot(n, p + 1) == Following(n, Slot(n, p))
  {
    var q, r := p / n, p % n;
    if r + 1 == n {
      assert p + 1 == n * (q + 1) + 0;
      DivModUnique(p + 1, n, q + 1, 0);
    } else {
      DivModUnique(p + 1, n, q, r + 1);
    }
  }

  /** Positions less than one round after the head are told apart by their slots:
      the distance of the slots is the distance of the positions. */
  lemma SlotDistance(n: nat, head: nat, p: nat)
    requires n > 0 && head <= p < head + n
    ensures Between(n, Slot(n, head), Slot(n, p)) == p - head
  {
    var q, r := head / n, head % n;
    var d := p - head;
    if r + d < n {
      DivModUnique(p, n, q, r + d);
    } else {
      assert p == n * (q + 1) + (r + d - n);
      DivModUnique(p, n, q + 1, r + d - n);
    }
  }

  lemma SameSlot(n: nat, head: nat, p: nat, p': nat)
    requires n > 0 && head <= p < head + n && head <= p' < head + n
    ensures Slot(n, p) == Slot(n, p') <==> p == p'
    ensures EarlierId(Slot(n, head), Slot(n, p), Slot(n, p')) == Slot(n, if p <= p' then p else p')
  {
    SlotDistance(n, head, p);
    SlotDistance(n, head, p');
    CompareIsDistance(n, Slot(n, head), Slot(n, p), Slot(n, p'));
  }
}
