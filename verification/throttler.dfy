/**
 * `Throttler`: keeps at most one run in flight and, while one is, remembers
 * only the latest factory asked for, to start it once the active run
 * settles. Promises are left out: a run is identified by its factory, and
 * "the active promise settled" is an event of its own.
 */
module Throttling {
  import opened Wrappers

  /** A task (a factory of runs), identified by the closure handed over. */
  type TaskId = nat

  /** `active`: the factory whose run is in flight (`activePromise`);
      `queued`: the factory to start next (`queuedPromiseFactory`;
      `queuedPromise` is set exactly while it is); `started`: every factory
      invoked so far, in order; `settled`: how many runs have settled. */
  datatype ThrottlerState = ThrottlerState(active: Option<TaskId>, queued: Option<TaskId>, started: seq<TaskId>, settled: nat)

  /** At most one run in flight: every started run but the last has settled,
      the last is the active one unless it has settled too, and a rerun is
      only ever queued behind an active run. */
  predicate Invariant(s: ThrottlerState) {
    (s.queued.Some? ==> s.active.Some?) &&
    |s.started| == s.settled + (if s.active.Some? then 1 else 0) &&
    (s.active.Some? ==> s.active.value == s.started[|s.started| - 1])
  }

  const Idle := ThrottlerState(None, None, [], 0)

  /** `queue(f)`: start `f` when nothing is in flight, otherwise make it the
      one queued factory. */
  function Queued(s: ThrottlerState, f: TaskId): (r: ThrottlerState)
    requires Invariant(s)
    ensures Invariant(r)
    ensures r.settled == s.settled && |s.started| <= |r.started| && r.started[..|s.started|] == s.started
  {
    if s.active.Some? then s.(queued := Some(f))
    else s.(active := Some(f), started := s.started + [f])
  }

  /** The active run settles, by success or failure alike: the queued factory,
      if any, is started and the slot emptied; otherwise the throttler is
      idle. With nothing in flight there is nothing to settle. */
  function Settled(s: ThrottlerState): (r: ThrottlerState)
    requires Invariant(s)
    ensures Invariant(r)
    ensures r.queued.None?
    ensures r.settled == s.settled + (if s.active.Some? then 1 else 0)
    ensures |s.started| <= |r.started| <= |s.started| + 1 && r.started[..|s.started|] == s.started
  {
    if s.active.None? then s
    else match s.queued
      case None => s.(active := None, settled := s.settled + 1)
      case Some(g) => ThrottlerState(Some(g), None, s.started + [g], s.settled + 1)
  }

  /** The events a throttler sees: a call of `queue`, or the active run settling. */
  datatype Event = Request(task: TaskId) | Done

  function Run(s: ThrottlerState, events: seq<Event>): ThrottlerState
    requires Invariant(s)
    decreases |events|
  {
    if events == [] then s
    else
      var next := match events[0]
        case Request(f) => Queued(s, f)
        case Done => Settled(s);
      Run(next, events[1..])
  }

  /** Whatever events arrive, runs never overlap: each run starts only after
      every earlier one has settled, and history is only ever extended. */
  lemma {:induction false} NeverOverlaps(s: ThrottlerState, events: seq<Event>)
    requires Invariant(s)
    ensures var r := Run(s, events);
      Invariant(r) && r.settled >= s.settled && |r.started| >= |s.started| && r.started[..|s.started|] == s.started
    decreases |events|
  {
    if events != [] {
      var next := match events[0]
        case Request(f) => Queued(s, f)
        case Done => Settled(s);
      NeverOverlaps(next, events[1..]);
      var r := Run(next, events[1..]);
      assert r.started[..|s.started|] == r.started[..|next.started|][..|s.started|];
    }
  }

  /** `queue` called once per task of `tasks`, in order. */
  function QueueAll(s: ThrottlerState, tasks: seq<TaskId>): ThrottlerState
    requires Invariant(s)
    decreases |tasks|
  {
    if tasks == [] then s else Queued(QueueAll(s, tasks[..|tasks| - 1]), tasks[|tasks| - 1])
  }

  /** While a run is in flight, calls of `queue` change nothing but the
      queued slot, which holds the latest task. */
  lemma {:induction false} QueueWhileActive(s: ThrottlerState, tasks: seq<TaskId>)
    requires Invariant(s) && s.active.Some?
    ensures QueueAll(s, tasks) == if tasks == [] then s else s.(queued := Some(tasks[|tasks| - 1]))
    decreases |tasks|
  {
    if tasks != [] {
      QueueWhileActive(s, tasks[..|tasks| - 1]);
    }
  }

  /** However many tasks are queued while a run is in flight, when it
      settles exactly one of them starts: the last. */
  lemma BurstCoalesces(s: ThrottlerState, tasks: seq<TaskId>)
    requires Invariant(s) && s.active.Some? && tasks != []
    ensures var r := Settled(QueueAll(s, tasks));
      r.started == s.started + [tasks[|tasks| - 1]] && r.active == Some(tasks[|tasks| - 1]) &&
      r.queued.None? && r.settled == s.settled + 1
  {
    QueueWhileActive(s, tasks);
  }

  /** With nothing queued, a settling run leaves the throttler idle. */
  lemma SettlesToIdle(s: ThrottlerState)
    requires Invariant(s) && s.queued.None?
    ensures Settled(s).active.None? && Settled(s).started == s.started
  {
  }

  class Throttler {
    var active: Option<TaskId>
    var queued: Option<TaskId>
    ghost var started: seq<TaskId>
    ghost var settled: nat

    ghost function State(): ThrottlerState
      reads this
    {
      ThrottlerState(active, queued, started, settled)
    }

    ghost predicate Valid()
      reads this
    {
      Invariant(State())
    }

    constructor ()
      ensures Valid() && State() == Idle
    {
      active, queued := None, None;
      started, settled := [], 0;
    }

    /** `queue(promiseFactory)`. */
    method Queue(task: TaskId)
      requires Valid()
      modifies this
      ensures Valid() && State() == Queued(old(State()), task)
    {
      if active.Some? {
        queued := Some(task);
        return;
      }
      Start(task);
    }

    /** Invokes the factory: its run becomes the active one. */
    method Start(task: TaskId)
      requires active.None?
      modifies this
      ensures active == Some(task) && started == old(started) + [task]
      ensures queued == old(queued) && settled == old(settled)
    {
      active := Some(task);
      started := started + [task];
    }

    /** The active run's promise settles, fulfilled or rejected: the
        throttler forgets it and then, if a factory is queued, queues it
        again (which starts it at once) and empties the slot. */
    method Settle()
      requires Valid() && active.Some?
      modifies this
      ensures Valid() && State() == Settled(old(State()))
    {
      active := None;
      settled := settled + 1;
      if queued.Some? {
        Start(queued.value);
        queued := None;
      }
    }
  }
}
