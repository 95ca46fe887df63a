/** When tasks are active: those that serve one client at a time, and those that
    publish as long as there are subscribers. */
module Lifecycle {
  import opened Bytes

  /** What the task's loop delivers. A request reaches the task only while its reader
      is registered; a job ends only while one is in progress. */
  datatype Event =
    | Request(accepted: bool)      // a client's request, which may start a job
    | JobDone                      // the packet handler has had enough
    | Message(frames: seq<seq<byte>>)  // on the publisher's socket

  class TaskLife {
    const automute: bool   // its requests are not read during a job
    const autosleep: bool  // it publishes while there are subscribers
    var active: bool
    var reading: bool      // the request reader is registered
    var nsubs: nat
    // jobs in progress, and times it was activated
    ghost var jobs: nat
    ghost var activations: nat

    ghost predicate Valid()
      reads this
    {
      && !(automute && autosleep)
      && (automute ==> (reading <==> !active) && jobs == if active then 1 else 0)
      && (autosleep ==> (active <==> nsubs > 0) && jobs == 0)
    }

    constructor (automute: bool, autosleep: bool)
      requires !(automute && autosleep)
      ensures Valid() && !active && nsubs == 0
      ensures this.automute == automute && this.autosleep == autosleep
    {
      this.automute, this.autosleep := automute, autosleep;
      active, reading, nsubs := false, true, 0;
      jobs, activations := 0, 0;
    }

    method Activate()
      modifies this`active, this`reading, this`activations
      ensures active && reading == (old(reading) && !automute)
      ensures activations == old(activations) + 1
    {
      if automute {
        reading := false;
      }
      active := true;
      activations := activations + 1;
    }

    method Deactivate()
      modifies this`active, this`reading
      ensures !active && reading == (old(reading) || automute)
    {
      if automute {
        reading := true;
      }
      active := false;
    }

    /** A request that is accepted starts a job. */
    method HandleRequest(accepted: bool)
      requires Valid() && automute && reading
      modifies this`active, this`reading, this`activations, this`jobs
      ensures Valid() && jobs == if accepted then 1 else 0
    {
      if accepted {
        Activate();
        jobs := jobs + 1;
      }
    }

    method FinishJob()
      requires Valid() && automute && active
      modifies this`active, this`reading, this`jobs
      ensures Valid() && jobs == 0 && reading
    {
      Deactivate();
      jobs := jobs - 1;
    }

    /** A message on the publisher's socket: 1 for a subscription, 0 for the end of
        one, which is asserted to have been announced. Anything else is ignored. */
    method HandleMessage(frames: seq<seq<byte>>)
      requires Valid() && autosleep
      requires Known(frames) && Stat(frames) == 0 ==> nsubs > 0
      modifies this`active, this`reading, this`activations, this`nsubs
      ensures Valid()
      ensures nsubs == Subscribers(old(nsubs), frames)
      ensures activations == old(activations) + (if Activates(old(nsubs), frames) then 1 else 0)
    {
      if |frames| != 1 {
        return;
      }
      var stat := Stat(frames);
      if stat == 0 {
        nsubs := nsubs - 1;
      } else if stat == 1 {
        nsubs := nsubs + 1;
      } else {
        return;
      }
      if nsubs == 1 {
        Activate();
      } else if nsubs == 0 {
        Deactivate();
      }
    }

    /** Over any run a task that serves one client has at most one job and reads no
        request during it, and a publisher is active exactly while it has
        subscribers. What it is activated by is said by `Activations`. */
    method Run(events: seq<Event>)
      requires Valid() && (autosleep ==> Announced(nsubs, events))
      modifies this
      ensures Valid()
      ensures automute ==> jobs <= 1 && (jobs == 1 <==> !reading) && active == BusyAfter(old(active), events)
      ensures autosleep ==> (active <==> nsubs > 0) && nsubs == SubscribersAfter(old(nsubs), events)
      ensures autosleep ==> activations == old(activations) + Activations(old(nsubs), events)
    {
      for i := 0 to |events|
        invariant Valid()
        invariant automute ==> BusyAfter(active, events[i..]) == BusyAfter(old(active), events)
        invariant autosleep ==> Announced(nsubs, events[i..])
        invariant autosleep ==> SubscribersAfter(nsubs, events[i..]) == SubscribersAfter(old(nsubs), events)
        invariant autosleep ==> activations + Activations(nsubs, events[i..]) ==
                                  old(activations) + Activations(old(nsubs), events)
      {
        assert events[i..][1..] == events[i + 1..];
        match events[i] {
          case Request(accepted) =>
            if automute && reading {
              HandleRequest(accepted);
            }
          case JobDone =>
            if automute && active {
              FinishJob();
            }
          case Message(frames) =>
            if autosleep {
              HandleMessage(frames);
            }
        }
      }
    }
  }

  /** The first byte of a message, read as a string: an empty one has a 0 there. */
  function Stat(frames: seq<seq<byte>>): byte
    requires |frames| == 1
  {
    if frames[0] == [] then 0 else frames[0][0]
  }

  /** A message that announces a subscription or the end of one. */
  predicate Known(frames: seq<seq<byte>>)
  {
    |frames| == 1 && Stat(frames) <= 1
  }

  function Subscribers(n: nat, frames: seq<seq<byte>>): nat
    requires Known(frames) && Stat(frames) == 0 ==> n > 0
  {
    if !Known(frames) then n
    else if Stat(frames) == 1 then n + 1
    else n - 1
  }

  predicate Activates(n: nat, frames: seq<seq<byte>>)
    requires Known(frames) && Stat(frames) == 0 ==> n > 0
  {
    Known(frames) && Subscribers(n, frames) == 1
  }

  /** The messages byte by byte: one frame that begins with 1 is a subscription, one that
      begins with 0, or an empty one, is the end of one, and nothing else counts. */
  lemma MessageBytes(n: nat, rest: seq<byte>, first: byte, frames: seq<seq<byte>>)
    ensures Subscribers(n, [[1] + rest]) == n + 1
    ensures Subscribers(n + 1, [[0] + rest]) == n && Subscribers(n + 1, [[]]) == n
    ensures first > 1 ==> Subscribers(n, [[first] + rest]) == n
    ensures |frames| != 1 ==> Subscribers(n, frames) == n
  {
  }

  // ---------- Runs ----------

  /** A job is in progress after these events. */
  function BusyAfter(busy: bool, events: seq<Event>): bool
    decreases |events|
  {
    if events == [] then busy
    else BusyAfter(match events[0]
                   case Request(accepted) => busy || accepted
                   case JobDone => false
                   case Message(_) => busy, events[1..])
  }

  /** No more subscriptions end than there are. */
  predicate Announced(n: nat, events: seq<Event>)
    decreases |events|
  {
    events == [] ||
    (!(Ends(events[0]) && n == 0) && Announced(NextSubscribers(n, events[0]), events[1..]))
  }

  predicate Begins(e: Event) { e.Message? && Known(e.frames) && Stat(e.frames) == 1 }

  predicate Ends(e: Event) { e.Message? && Known(e.frames) && Stat(e.frames) == 0 }

  function NextSubscribers(n: nat, e: Event): nat
    requires !(Ends(e) && n == 0)
  {
    if e.Message? then Subscribers(n, e.frames) else n
  }

  function SubscribersAfter(n: nat, events: seq<Event>): nat
    requires Announced(n, events)
    decreases |events|
  {
    if events == [] then n else SubscribersAfter(NextSubscribers(n, events[0]), events[1..])
  }

  /** How often the task is activated. */
  function Activations(n: nat, events: seq<Event>): nat
    requires Announced(n, events)
    decreases |events|
  {
    if events == [] then 0
    else
      var now := if events[0].Message? && Activates(n, events[0].frames) then 1 else 0;
      now + Activations(NextSubscribers(n, events[0]), events[1..])
  }

  /** How often a first subscriber comes. */
  function Sessions(n: nat, events: seq<Event>): nat
    requires Announced(n, events)
    decreases |events|
  {
    if events == [] then 0
    else (if n == 0 && Begins(events[0]) then 1 else 0) + Sessions(NextSubscribers(n, events[0]), events[1..])
  }

  /** How often the last but one subscriber leaves. */
  function Departures(n: nat, events: seq<Event>): nat
    requires Announced(n, events)
    decreases |events|
  {
    if events == [] then 0
    else (if n == 2 && Ends(events[0]) then 1 else 0) + Departures(NextSubscribers(n, events[0]), events[1..])
  }

  function Count(events: seq<Event>, begin: bool): nat
  {
    if events == [] then 0
    else (if (if begin then Begins(events[0]) else Ends(events[0])) then 1 else 0) + Count(events[1..], begin)
  }

  /** The subscribers are those who came and have not left. */
  lemma {:induction false} SubscribersCounted(n: nat, events: seq<Event>)
    requires Announced(n, events)
    ensures SubscribersAfter(n, events) == n + Count(events, true) - Count(events, false)
    decreases |events|
  {
    if events != [] {
      SubscribersCounted(NextSubscribers(n, events[0]), events[1..]);
    }
  }

  /** The task is activated once for each time a first subscriber comes if and only
      if no subscriber ever leaves exactly one other behind. */
  lemma {:induction false} ActivatedOncePerSession(n: nat, events: seq<Event>)
    requires Announced(n, events)
    ensures Activations(n, events) == Sessions(n, events) + Departures(n, events)
    ensures Activations(n, events) == Sessions(n, events) <==> Departures(n, events) == 0
    decreases |events|
  {
    if events != [] {
      ActivatedOncePerSession(NextSubscribers(n, events[0]), events[1..]);
    }
  }

  /** The task is to be activated by the first subscription. It is activated again,
      and begins its histogram anew, when the last but one subscription ends. */
  lemma ActivatedBy(n: nat, frames: seq<seq<byte>>)
    requires Known(frames) && Stat(frames) == 0 ==> n > 0
    ensures Activates(n, frames) <==>
              Known(frames) && ((Stat(frames) == 1 && n == 0) || (Stat(frames) == 0 && n == 2))
    ensures Activates(2, [[0]])
  {
  }
}
