/** The buffer zone of one data or index file: bytes are copied in at the cursor,
    and asynchronous writes drain them from the tail to the file. */
module AioBuffer {
  import opened Basics
  import opened Bytes
  import opened Frames

  const BUFSIZE: nat := 10485760  // 10 MB
  const MINSIZE: nat := 512000    // 500 kB

  // ---------- Bytes in a circular zone ----------

  /** The `n` bytes of `zone` that start at `from`, going round at the end. */
  function Circ(zone: seq<byte>, from: nat, n: nat): (s: seq<byte>)
    requires from < |zone| && n <= |zone|
    ensures |s| == n
  {
    if from + n <= |zone| then zone[from..from + n]
    else zone[from..] + zone[..from + n - |zone|]
  }

  /** Where the byte after those is. */
  function Wrap(from: nat, n: nat, size: nat): nat
    requires from < size && n <= size
  {
    if from + n < size then from + n else from + n - size
  }

  lemma CircAt(zone: seq<byte>, from: nat, n: nat, k: nat)
    requires from < |zone| && n <= |zone| && k < n
    ensures Circ(zone, from, n)[k] == zone[Wrap(from, k, |zone|)]
  {
  }

  /** `j` is one of the `n` places from `from` on, going round. */
  ghost predicate InRound(j: nat, from: nat, n: nat)
  {
    from <= j < from + n || j + BUFSIZE < from + n
  }

  /** `file` and `file'` agree up to `n`. */
  ghost predicate SamePrefix(file: seq<byte>, file': seq<byte>, n: nat)
  {
    n <= |file| && n <= |file'| && forall i :: 0 <= i < n ==> file[i] == file'[i]
  }

  /** The `n` bytes of `zone` at `from` are in `file` at `at`. */
  ghost predicate Stored(file: seq<byte>, at: nat, zone: seq<byte>, from: nat, n: nat)
  {
    && at + n <= |file| && from + n <= |zone|
    && forall i :: at <= i < at + n ==> file[i] == zone[from + i - at]
  }

  /** What a file that was cut to `n` bytes may hold later, if a write that starts there
      was left running or not. */
  ghost predicate MayHold(running: bool, file: seq<byte>, n: nat, later: seq<byte>)
  {
    && n <= |file| && n <= |later| && later[..n] == file[..n]
    && (!running ==> |later| == n)
  }

  // ---------- Outcomes ----------

  /** Result of queueing a batch. */
  datatype Rc =
    | Done        // 0: nothing (left) to queue
    | InProgress  // EINPROGRESS: a batch is being written
    | Error       // -1
    | Mismatch    // -2: an unexpected number of bytes written
  {
    predicate Failed() { Error? || Mismatch? }
  }

  /** The operating system's side of the control block. */
  datatype Status =
    | Idle                // no write was ever accepted
    | Running             // accepted, not completed
    | Written(n: nat)     // completed, `n` bytes written
    | Again               // completed with EAGAIN
    | ReturnError         // completed, the write itself failed
    | OpError             // the operation failed or was refused

  /** Return values of aio_error. */
  datatype Poll = PollOk | PollInProgress | PollError

  /** The buffer is a queue: the file, the batch in flight and the waiting bytes,
      read round the zone, are what was appended, in that order. */
  lemma Fifo(b: AioBuf)
    requires b.Consistent()
    ensures b.appended == b.file[..b.size] + b.base[b.tail..b.tail + b.enqueued]
                        + Circ(b.base[..], Wrap(b.tail, b.enqueued, BUFSIZE), b.waiting)
  {
    var next := Wrap(b.tail, b.enqueued, BUFSIZE);
    var rest := Circ(b.base[..], next, b.waiting);
    forall k | 0 <= k < b.waiting
      ensures rest[k] == b.appended[b.size + b.enqueued + k]
    {
      CircAt(b.base[..], next, b.waiting, k);
      assert Wrap(b.tail, b.enqueued + k, BUFSIZE) == Wrap(next, k, BUFSIZE);
    }
    var batch := b.base[b.tail..b.tail + b.enqueued];
    forall k | 0 <= k < b.enqueued
      ensures batch[k] == b.appended[b.size + k]
    {
      assert Wrap(b.tail, k, BUFSIZE) == b.tail + k;
    }
    assert |b.file[..b.size] + batch + rest| == |b.appended|;
  }

  /** Whatever becomes of a file that is closed now, it is a prefix of what was appended,
      if and only if no write is running. */
  lemma ClosedFileIsPrefixIff(b: AioBuf)
    requires b.Consistent()
    ensures (forall later: seq<byte> :: MayHold(b.status.Running?, b.file, b.size, later) ==> later <= b.appended)
       <==> !b.status.Running?
  {
    if b.status.Running? {
      var x: byte := if b.appended[b.size] == 0 then 1 else 0;
      var later := b.file[..b.size] + [x];
      assert MayHold(true, b.file, b.size, later);
      assert later[b.size] != b.appended[b.size];
    }
  }

  /** At a call boundary the cursor meets the tail only in an empty buffer, and
      there is always space for a whole frame. */
  lemma FullIsNotEmpty(b: AioBuf)
    requires b.Valid()
    ensures b.cur == b.tail <==> b.enqueued + b.waiting == 0
    ensures b.enqueued + b.waiting + MTU <= BUFSIZE
    ensures b.cur < b.tail || b.cur >= b.tail + b.enqueued
  {
  }

  class AioBuf {
    // the control block
    var status: Status
    var aioOffset: nat
    var aioBuf: nat
    var aioNbytes: nat
    // the buffer zone; addresses are offsets from its base
    const base: array<byte>
    var tail: nat
    var cur: nat
    var waiting: nat
    var enqueued: nat
    var size: nat          // bytes known to be written
    var isOpen: bool
    // the environment
    var file: seq<byte>    // what is on disk
    var refusals: nat      // how many more times it will say EAGAIN
    const reliable: bool   // it never fails in any other way
    const broken: bool     // it refuses every write
    // how the file was last closed: how many bytes were known to be written, and
    // whether a write was left running
    ghost var kept: nat
    ghost var orphaned: bool
    // everything ever appended since the file was opened, and how often the task was
    // made to wait for a write
    ghost var appended: seq<byte>
    ghost var waits: nat
    ghost var polls: nat  // how often it asked about the batch in flight

    // ---------- Invariants ----------

    /** The three regions: in flight, waiting, free. */
    ghost predicate Regions()
      reads this
    {
      && base.Length == BUFSIZE
      && enqueued + waiting < BUFSIZE
      && tail < BUFSIZE
      && tail + enqueued <= BUFSIZE
      && cur == Wrap(tail, enqueued + waiting, BUFSIZE)
    }

    /** The control block describes the batch at the tail. */
    ghost predicate ControlBlock()
      reads this
    {
      && (status.Running? ==> enqueued > 0 && aioOffset == size && aioBuf == tail && aioNbytes == enqueued)
      && (enqueued > 0 ==> !status.Idle? && !status.Again? && status != Written(enqueued))
      && (reliable ==> !status.ReturnError? && !status.OpError?)
      && (reliable && enqueued > 0 ==> status.Running?)
      && (broken ==> NothingWritten())
    }

    ghost predicate NothingWritten()
      reads this
    {
      !reliable && size == 0 && (status.Idle? || status.OpError?)
    }

    /** The file up to `size`, then the batch in flight, then the waiting bytes
        are everything that was ever appended; said byte by byte. */
    ghost predicate Stream()
      requires Regions()
      reads this, base
    {
      && |appended| == size + enqueued + waiting
      && size <= |file|
      && (forall i :: 0 <= i < size ==> file[i] == appended[i])
      && (forall i :: size <= i < |appended| ==> appended[i] == base[Wrap(tail, i - size, BUFSIZE)])
    }

    ghost predicate Consistent()
      reads this, base
    {
      isOpen && Regions() && ControlBlock() && Stream()
    }

    /** There is space for one more frame, a batch big enough to be written is never
        left unqueued, and a batch that was queued is not known to have failed: as far
        as the system has said its write is running. */
    ghost predicate Room()
      reads this
    {
      && enqueued + waiting <= BUFSIZE - MTU
      && (enqueued == 0 ==> waiting < MINSIZE)
      && (enqueued > 0 ==> status.Running?)
    }

    ghost predicate Valid()
      reads this, base
    {
      Consistent() && Room()
    }

    ghost predicate Closed()
      reads this
    {
      && !isOpen && base.Length == BUFSIZE
      && size == waiting == enqueued == tail == cur == 0
      && status.Idle? && !(reliable && broken)
    }

    /** The closed file holds the first `kept` bytes of `data`, and nothing else unless
        a write was left running. */
    ghost predicate Holds(data: seq<byte>)
      reads this`kept, this`file, this`orphaned
    {
      && kept <= |data| && kept <= |file| && file[..kept] == data[..kept]
      && (!orphaned ==> |file| == kept)
    }

    /** In how many stretches the waiting bytes lie. */
    ghost function WaitingStretches(): nat
      reads this
    {
      if waiting == 0 then 0
      else if tail + enqueued < BUFSIZE < tail + enqueued + waiting then 2
      else 1
    }

    /** Forced calls of Queue that are still needed to drain the buffer if the
        system never says EAGAIN. */
    ghost function CallsLeft(): (n: nat)
      reads this
      ensures 1 <= n <= 3
    {
      1 + WaitingStretches()
    }

    constructor (reliable: bool, broken: bool, refusals: nat)
      requires !(reliable && broken)
      ensures Closed() && fresh(base)
      ensures this.reliable == reliable && this.broken == broken && this.refusals == refusals
    {
      this.reliable := reliable;
      this.broken := broken;
      this.refusals := refusals;
      base := new byte[BUFSIZE];
      status, aioOffset, aioBuf, aioNbytes := Idle, 0, 0, 0;
      tail, cur, waiting, enqueued, size := 0, 0, 0, 0, 0;
      isOpen, file, appended, waits, polls := false, [], [], 0, 0;
      kept, orphaned := 0, false;
    }

    /** Opens the file, which is new or was unlinked first. */
    method Open()
      requires Closed()
      modifies this
      ensures Valid() && appended == [] && file == []
      ensures refusals == old(refusals)
    {
      isOpen := true;
      file := [];
      appended := [];
    }

    // ---------- The environment ----------

    /** Lets the write that is running make progress: it may still run, complete,
        or fail; the file from the write's offset on may hold anything until it
        has completed. */
    method Progress(mustFinish: bool)
      requires Consistent() && status.Running?
      modifies this`status, this`file, this`refusals
      ensures SamePrefix(file, old(file), aioOffset)
      ensures !status.Idle? && (mustFinish ==> !status.Running?)
      ensures status == Written(aioNbytes) ==>
                Stored(file, aioOffset, base[..], aioBuf, aioNbytes)
      ensures if status.Again? then refusals < old(refusals) else refusals == old(refusals)
      ensures reliable ==> status.Running? || status.Again? || status == Written(aioNbytes)
    {
      var rest: seq<byte> := *;
      var outcome: nat := *;
      if outcome == 0 && !mustFinish {
        file := file[..aioOffset] + rest;
      } else if outcome == 1 && refusals > 0 {
        file := file[..aioOffset] + rest;
        status, refusals := Again, refusals - 1;
      } else if outcome == 2 && !reliable {
        file := file[..aioOffset] + rest;
        status := ReturnError;
      } else if outcome == 3 && !reliable {
        file := file[..aioOffset] + rest;
        status := OpError;
      } else if outcome == 4 && !reliable {
        var n: nat := *;
        if n != aioNbytes {
          file := file[..aioOffset] + rest;
          status := Written(n);
        } else {
          file := file[..aioOffset] + base[aioBuf..aioBuf + aioNbytes] + rest;
          status := Written(aioNbytes);
        }
      } else {
        file := file[..aioOffset] + base[aioBuf..aioBuf + aioNbytes] + rest;
        status := Written(aioNbytes);
      }
    }

    function PollOf(s: Status): Poll
    {
      match s
      case Running => PollInProgress
      case OpError => PollError
      case _ => PollOk
    }

    /** aio_error: a control block that is no longer running keeps its status. */
    method AioError() returns (rc: Poll)
      requires Consistent() && enqueued > 0
      modifies this`status, this`file, this`refusals, this`polls
      ensures rc == PollOf(status) && !status.Idle? && polls == old(polls) + 1
      ensures Settled(old(status), old(file), old(refusals))
    {
      polls := polls + 1;
      if status.Running? {
        Progress(false);
      }
      rc := PollOf(status);
    }

    /** aio_suspend: 0 when the write has completed, -1 when interrupted. */
    method AioSuspend() returns (ok: bool)
      requires Consistent() && status.Running?
      modifies this`status, this`file, this`refusals, this`waits
      ensures waits == old(waits) + 1
      ensures ok ==> !status.Running?
      ensures !ok ==> !reliable && status.Running? && refusals == old(refusals)
      ensures !status.Idle?
      ensures Settled(old(status), old(file), old(refusals))
    {
      waits := waits + 1;
      ok := true;
      if !reliable {
        ok := *;
      }
      if ok {
        Progress(true);
      }
    }

    /** What may have happened to the control block and the file since `status0`. */
    ghost predicate Settled(status0: Status, file0: seq<byte>, refusals0: nat)
      reads this, base
    {
      && base.Length == BUFSIZE && tail + enqueued <= BUFSIZE
      && SamePrefix(file, file0, size)
      && (!status0.Running? ==> status == status0 && file == file0)
      && (status0.Running? && status == Written(enqueued) ==>
            Stored(file, size, base[..], tail, enqueued))
      && (if status.Again? then refusals < refusals0 else refusals == refusals0)
      && (reliable ==> status.Running? || status.Again? || status == Written(enqueued))
    }

    /** aio_write. */
    method AioWrite() returns (ok: bool, again: bool)
      requires aioNbytes > 0
      modifies this`status, this`refusals
      ensures ok ==> status.Running? && refusals == old(refusals)
      ensures !ok && again ==> status == old(status) && refusals < old(refusals)
      ensures !ok && !again ==> !reliable && status.OpError? && refusals == old(refusals)
      ensures broken && !reliable ==> !ok
    {
      var outcome: nat := *;
      ok, again := false, false;
      if broken && !reliable {
        status := OpError;
      } else if outcome == 0 && refusals > 0 {
        again, refusals := true, refusals - 1;
      } else if outcome == 1 && !reliable {
        status := OpError;
      } else {
        ok, status := true, Running;
      }
    }

    // ---------- Queueing ----------

    /** Hands the batch at the tail to the system. */
    method Submit() returns (rc: Rc)
      requires isOpen && Regions() && Stream()
      requires enqueued == 0 ==> waiting == 0
      requires !status.Running?
      requires reliable ==> !status.ReturnError? && !status.OpError?
      requires broken ==> NothingWritten()
      modifies this`status, this`aioOffset, this`aioBuf, this`aioNbytes, this`refusals
      ensures Consistent()
      ensures refusals <= old(refusals)
      ensures rc.Done? <==> enqueued == 0
      ensures rc.InProgress? <==> status.Running?
      ensures !rc.Mismatch? && (reliable ==> !rc.Error?) && (rc.Error? ==> status.OpError?)
    {
      assert tail != BUFSIZE;
      if enqueued == 0 {
        assert waiting == 0;
        return Done;
      }
      aioOffset, aioBuf, aioNbytes := size, tail, enqueued;
      var ok, again := AioWrite();
      while !ok && again
        invariant refusals <= old(refusals)
        invariant ok ==> status.Running?
        invariant !ok && !again ==> !reliable && status.OpError?
        invariant !ok && again ==> status == old(status)
        invariant broken && !reliable ==> !ok
        decreases refusals, !ok && again
        modifies this`status, this`refusals
      {
        ok, again := AioWrite();
      }
      if !ok {
        return Error;
      }
      return InProgress;
    }

    /** Releases the written batch and takes the next one: up to the cursor, or
        up to the end of the zone when the cursor has gone round. */
    method PrepareNext()
      requires isOpen && Regions() && Stream()
      requires enqueued > 0 ==> Stored(file, size, base[..], tail, enqueued)
      modifies this`size, this`tail, this`enqueued, this`waiting
      ensures Regions() && Stream()
      ensures size == old(size + enqueued)
      ensures enqueued == 0 ==> waiting == 0
      ensures enqueued + waiting == old(waiting)
      ensures old(waiting) > 0 ==> WaitingStretches() + 1 == old(WaitingStretches())
    {
      size := size + enqueued;
      tail := tail + enqueued;
      if tail == BUFSIZE {
        tail := 0;
      }
      assert tail < BUFSIZE;
      if cur < tail {
        enqueued := BUFSIZE - tail;
      } else {
        enqueued := cur - tail;
      }
      assert waiting >= enqueued;
      waiting := waiting - enqueued;
      assert waiting == 0 || tail + enqueued == BUFSIZE;
    }

    /** Checks on the batch in flight: `None` when it has completed in full or
        is to be queued again, otherwise what Queue returns. */
    method CheckPrevious(force: bool) returns (rc: Option<Rc>)
      requires Consistent() && enqueued > 0
      modifies this`status, this`file, this`refusals, this`waits, this`polls
      ensures waits <= old(waits) + (if force then 1 else 0) && waits >= old(waits)
      ensures polls == old(polls) + 1
      // what is returned is what the system says about the batch
      ensures rc == Some(InProgress) <==> status.Running? && !force
      ensures rc == Some(Error) <==> status.OpError? || status.ReturnError? || (status.Running? && force)
      ensures rc == Some(Mismatch) <==> status.Written? && status.n != enqueued
      ensures rc.None? <==> status.Again? || status == Written(enqueued)
      ensures rc.Some? && status.Running? && force ==> waits > old(waits)
      ensures Stream()
      ensures rc.Some? ==> Consistent() && refusals == old(refusals)
      ensures rc.Some? ==> !rc.value.Done? && (rc.value.InProgress? ==> !force)
      ensures rc.Some? && reliable ==> rc.value.InProgress?
      ensures rc.None? && status.Again? ==> refusals < old(refusals)
      ensures rc.None? && !status.Again? ==>
                refusals == old(refusals) && Stored(file, size, base[..], tail, enqueued)
      ensures rc.None? ==> !broken
    {
      var st := AioError();
      if !force && st.PollInProgress? {
        return Some(InProgress);
      }
      if st.PollInProgress? {
        var ok := AioSuspend();
        if !ok {
          return Some(Error);
        }
        st := PollOf(status);
      }
      if !st.PollOk? {
        return Some(Error);
      }
      if status.ReturnError? {
        return Some(Error);
      }
      if status.Written? && status.n != enqueued {
        return Some(Mismatch);
      }
      return None;
    }

    /** Releases the previous batch, if any, and submits the next one. */
    method QueueNext() returns (rc: Rc)
      requires isOpen && Regions() && Stream() && !status.Running?
      requires reliable ==> !status.ReturnError? && !status.OpError?
      requires broken ==> NothingWritten() && enqueued == 0
      requires enqueued > 0 ==> Stored(file, size, base[..], tail, enqueued)
      modifies this`size, this`tail, this`enqueued, this`waiting
      modifies this`status, this`aioOffset, this`aioBuf, this`aioNbytes, this`refusals
      ensures Consistent() && refusals <= old(refusals)
      ensures enqueued + waiting == old(waiting)
      ensures rc.Done? <==> enqueued == 0
      ensures enqueued == 0 ==> waiting == 0
      ensures rc.InProgress? ==> CallsLeft() < old(CallsLeft())
      ensures rc.InProgress? <==> status.Running?
      ensures rc.Failed() ==> rc.Error? && status.OpError?
      ensures reliable ==> !rc.Failed()
    {
      PrepareNext();
      rc := Submit();
    }

    /** Queues the next batch. With `force` it waits for the previous one. */
    method Queue(force: bool) returns (rc: Rc)
      requires Consistent()
      modifies this
      ensures Consistent()
      ensures appended == old(appended)
      ensures enqueued + waiting <= old(enqueued + waiting)
      ensures rc.Done? ==> enqueued == waiting == 0
      ensures !rc.Failed() ==> enqueued > 0 || waiting == 0
      ensures rc.Failed() ==> enqueued > 0
      // it is in progress exactly if the write is running, unless waiting was interrupted
      ensures rc.InProgress? ==> status.Running?
      ensures rc.Error? ==> status.OpError? || status.ReturnError? || (status.Running? && waits > old(waits))
      ensures rc.Mismatch? ==> status.Written? && status.n != enqueued
      ensures polls == old(polls) + (if old(enqueued) > 0 then 1 else 0)
      ensures force && rc.InProgress? ==> CallsLeft() + refusals < old(CallsLeft() + refusals)
      ensures refusals <= old(refusals)
      ensures old(waits) <= waits <= old(waits) + (if force then 1 else 0)
      ensures reliable ==> !rc.Failed()
    {
      if enqueued != 0 {
        var early := CheckPrevious(force);
        if early.Some? {
          return early.value;
        }
        if status.Again? {
          rc := Submit();  // requeue the previous batch
          return;
        }
      }
      rc := QueueNext();
    }

    // ---------- Appending ----------

    /** memcpy of `data[lo..hi]` to the zone at `at`. */
    method CopyIn(at: nat, data: seq<byte>, lo: nat, hi: nat)
      requires lo <= hi <= |data| && at + (hi - lo) <= base.Length
      modifies base
      ensures forall k :: lo <= k < hi ==> base[at + k - lo] == data[k]
      ensures forall k :: 0 <= k < base.Length && !(at <= k < at + hi - lo) ==> base[k] == old(base[k])
    {
      for k := lo to hi
        invariant forall j :: lo <= j < k ==> base[at + j - lo] == data[j]
        invariant forall j :: 0 <= j < base.Length && !(at <= j < at + k - lo) ==> base[j] == old(base[j])
      {
        base[at + k - lo] := data[k];
      }
    }

    /** The two copies, before and after the end of the zone. */
    method CopyRound(data: seq<byte>) returns (wrapped: bool)
      requires base.Length == BUFSIZE && cur < BUFSIZE && 0 < |data| < BUFSIZE
      modifies base, this`cur
      ensures cur == Wrap(old(cur), |data|, BUFSIZE)
      ensures wrapped <==> old(cur) + |data| >= BUFSIZE
      ensures forall k :: 0 <= k < |data| ==> base[Wrap(old(cur), k, BUFSIZE)] == data[k]
      ensures forall j :: 0 <= j < BUFSIZE && !InRound(j, old(cur), |data|) ==> base[j] == old(base[j])
    {
      var len := |data|;
      var reserve := len - (BUFSIZE - cur);
      if reserve < 0 {
        CopyIn(cur, data, 0, len);
        cur := cur + len;
      } else {
        CopyIn(cur, data, 0, len - reserve);
        if reserve > 0 {
          CopyIn(0, data, len - reserve, len);
        }
        cur := reserve;
      }
      return reserve >= 0;
    }

    /** Copies `data` in at the cursor, going round at the end of the zone.
        No byte of the batch in flight or of the waiting bytes is touched. */
    method Copy(data: seq<byte>) returns (wrapped: bool)
      requires Consistent() && 0 < |data| && enqueued + waiting + |data| < BUFSIZE
      modifies base, this`cur, this`waiting, this`appended
      ensures Consistent()
      ensures wrapped <==> old(cur) + |data| >= BUFSIZE
      ensures appended == old(appended) + data
      ensures waiting == old(waiting) + |data|
      ensures forall k :: 0 <= k < old(enqueued + waiting) ==>
                base[Wrap(tail, k, BUFSIZE)] == old(base[Wrap(tail, k, BUFSIZE)])
    {
      wrapped := CopyRound(data);
      waiting := waiting + |data|;
      appended := appended + data;
    }

    /** With `len` more bytes there is still not enough for a batch, the cursor does not
        go round, and another frame fits. */
    ghost predicate SmallWith(len: nat)
      reads this
    {
      waiting + len < MINSIZE && cur + len < BUFSIZE && enqueued + waiting + len <= BUFSIZE - MTU
    }

    /** Appends `data`; queues a batch when enough is waiting, and waits for the
        system only when there would be no space for another frame. */
    method TryQueue(data: seq<byte>) returns (rc: Rc)
      requires Valid() && 0 < |data| < MTU
      modifies this, base
      ensures Consistent()
      ensures appended == old(appended) + data
      ensures !rc.Failed() ==> Valid()
      ensures reliable ==> !rc.Failed()
      ensures refusals <= old(refusals)
      // a failure that the system tells of is returned, and nothing else is
      ensures rc.InProgress? ==> status.Running?
      ensures rc.Failed() ==> enqueued > 0 && status != Written(enqueued) && !status.Again?
      ensures rc.Failed() && status.Running? ==> waits > old(waits)
      // it asks about the batch in flight, unless only a small batch is waiting
      ensures polls > old(polls) || old(enqueued == 0 || SmallWith(|data|))
      ensures rc.Done? ==> enqueued + waiting == 0 || old(SmallWith(|data|))
      // it waits only for want of space
      ensures old(enqueued + waiting) + |data| <= BUFSIZE - MTU ==> waits == old(waits)
      // a small batch is not worth a write
      ensures old(SmallWith(|data|)) ==>
                rc.Done? && size == old(size) && enqueued == old(enqueued) && file == old(file)
    {
      var wrapped := Copy(data);
      if waiting < MINSIZE && !wrapped && enqueued + waiting <= BUFSIZE - MTU {
        return Done;
      }
      rc := Queue(false);
      while enqueued + waiting > BUFSIZE - MTU && rc.InProgress?
        invariant Consistent() && appended == old(appended) + data
        invariant rc.Done? ==> enqueued == waiting == 0
        invariant !rc.Failed() ==> enqueued > 0 || waiting == 0
        invariant reliable ==> !rc.Failed()
        invariant refusals <= old(refusals)
        invariant rc.InProgress? ==> status.Running?
        invariant rc.Failed() ==> enqueued > 0 && status != Written(enqueued) && !status.Again?
        invariant rc.Failed() && status.Running? ==> waits > old(waits)
        invariant waits >= old(waits) && polls >= old(polls) && (old(enqueued) > 0 ==> polls > old(polls))
        invariant enqueued + waiting <= BUFSIZE - MTU || old(enqueued + waiting) + |data| > BUFSIZE - MTU
        invariant old(enqueued + waiting) + |data| <= BUFSIZE - MTU ==> waits == old(waits)
        decreases rc.InProgress?, CallsLeft() + refusals
        modifies this
      {
        rc := Queue(true);
      }
    }

    /** Drains the buffer. It takes at most three forced calls of Queue, besides
        those the system answers with EAGAIN. */
    method Flush() returns (rc: Rc, ghost calls: nat)
      requires Consistent()
      modifies this
      ensures Consistent() && appended == old(appended)
      ensures !rc.InProgress? && (reliable ==> rc.Done?)
      ensures rc.Done? <==> enqueued + waiting == 0
      ensures rc.Done? ==> size == |appended| && file[..size] == appended
      ensures refusals <= old(refusals) && calls <= 3 + old(refusals) - refusals
    {
      rc := Queue(true);
      calls := 1;
      while rc.InProgress?
        invariant Consistent() && appended == old(appended)
        invariant reliable ==> !rc.Failed()
        invariant rc.Done? ==> enqueued == waiting == 0
        invariant rc.Failed() ==> enqueued > 0
        invariant refusals <= old(refusals)
        invariant rc.InProgress? ==> calls + CallsLeft() + refusals <= old(CallsLeft() + refusals)
        invariant calls <= old(CallsLeft() + refusals) - refusals
        decreases rc.InProgress?, CallsLeft() + refusals
        modifies this
      {
        rc := Queue(true);
        calls := calls + 1;
      }
    }

    /** The bytes known to be written are the first ones appended. */
    lemma SizeWritten()
      requires Consistent()
      ensures base.Length == BUFSIZE && size <= |file| && |appended| == size + enqueued + waiting
      ensures file[..size] == appended[..size]
      ensures !(reliable && broken) && (broken ==> size == 0 && !status.Running?)
      ensures status.Running? ==> enqueued > 0
    {
    }

    /** ftruncate and close: cuts the file to the bytes known to be written. A write that
        is still running is neither waited for nor cancelled: it may yet put anything
        after those bytes. */
    method CutFile()
      requires Consistent()
      modifies this`file, this`kept, this`orphaned, this`isOpen
      ensures !isOpen && kept == size && orphaned == status.Running?
      ensures MayHold(orphaned, old(file), kept, file) && Holds(appended)
      ensures broken ==> !orphaned
    {
      SizeWritten();
      hide Regions, ControlBlock, Stream;
      kept, orphaned := size, status.Running?;
      var rest: seq<byte> := [];
      if status.Running? {
        rest := *;
      }
      file := file[..size] + rest;
      isOpen := false;
    }

    method Reset()
      modifies this`waiting, this`enqueued, this`size, this`cur, this`tail
      modifies this`status, this`aioOffset, this`aioBuf, this`aioNbytes
      ensures size == waiting == enqueued == tail == cur == 0 && status.Idle?
    {
      waiting, enqueued := 0, 0;
      status, aioOffset, aioBuf, aioNbytes := Idle, 0, 0, 0;
      size := 0;
      cur, tail := 0, 0;
    }

    /** Closes the file and resets the buffer. */
    method Close()
      requires isOpen ==> Consistent()
      requires !isOpen ==> Closed()
      modifies this
      ensures Closed()
      ensures refusals == old(refusals)
      ensures old(isOpen) ==> kept == old(size) && orphaned == old(status.Running?)
      ensures old(isOpen) ==> MayHold(orphaned, old(file), kept, file) && Holds(old(appended))
      ensures old(isOpen) ==> (old(enqueued + waiting == 0) <==> kept == |old(appended)|)
      ensures old(isOpen) && orphaned ==> kept < |old(appended)|
      ensures old(isOpen) && broken ==> kept == 0 && file == []
      ensures !old(isOpen) ==> file == old(file) && kept == old(kept) && orphaned == old(orphaned)
    {
      hide Regions, ControlBlock, Stream, MayHold, Holds;
      if !isOpen {
        return;
      }
      SizeWritten();
      CutFile();
      HeldIs(appended);
      Reset();
    }

    lemma HeldIs(data: seq<byte>)
      requires Holds(data)
      ensures kept == 0 && !orphaned ==> file == []
    {
    }
  }
}
