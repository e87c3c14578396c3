/**
 * `ThrottledDelayer`: a delayer whose task, when the timer fires, hands the
 * caller's factory to a throttler. Debouncing decides when a factory is
 * handed over; the throttler decides when it runs.
 */
module ThrottledDelaying {
  import opened Wrappers
  import Throttling
  import Delaying

  type TaskId = nat

  datatype Pipeline = Pipeline(delayer: Delaying.DelayerState, throttler: Throttling.ThrottlerState)

  predicate Invariant(p: Pipeline) {
    Delaying.Invariant(p.delayer) && Throttling.Invariant(p.throttler)
  }

  const Initial := Pipeline(Delaying.Initial, Throttling.Idle)

  /** `trigger(factory, delay)` at time `now`. */
  function Triggered(p: Pipeline, factory: TaskId, delay: nat, now: int): (r: Pipeline)
    requires Invariant(p)
    ensures Invariant(r) && r.throttler == p.throttler
  {
    p.(delayer := Delaying.Triggered(p.delayer, factory, delay, now))
  }

  /** The clock reads `now`; if the timer fires, the recorded factory is
      queued on the throttler. */
  function Ticked(p: Pipeline, now: int): (r: Pipeline)
    requires Invariant(p)
    ensures Invariant(r)
  {
    var d := Delaying.Ticked(p.delayer, now);
    if |d.ran| == |p.delayer.ran| then p.(delayer := d)
    else Pipeline(d, Throttling.Queued(p.throttler, d.ran[|d.ran| - 1]))
  }

  /** The run in flight settles. */
  function Settled(p: Pipeline): (r: Pipeline)
    requires Invariant(p)
    ensures Invariant(r) && r.delayer == p.delayer
  {
    p.(throttler := Throttling.Settled(p.throttler))
  }

  /** A burst of triggers while nothing runs: once the last one's deadline
      passes, exactly its factory starts, and only it. */
  lemma BurstStartsLatest(p: Pipeline, requests: seq<Delaying.Request>, now: int)
    requires Invariant(p) && p.throttler.active.None? && requests != []
    requires now >= requests[|requests| - 1].at + requests[|requests| - 1].delay
    ensures var r := Ticked(p.(delayer := Delaying.TriggerAll(p.delayer, requests)), now);
      r.throttler.started == p.throttler.started + [requests[|requests| - 1].task] &&
      r.throttler.active == Some(requests[|requests| - 1].task)
  {
    Delaying.LastTriggerRunsOnce(p.delayer, requests, now, []);
  }

  /** A burst of triggers while a run is in flight: the run is not
      disturbed, and when it settles the last factory of the burst starts. */
  lemma BurstDuringRunQueuesLatest(p: Pipeline, requests: seq<Delaying.Request>, now: int)
    requires Invariant(p) && p.throttler.active.Some? && requests != []
    requires now >= requests[|requests| - 1].at + requests[|requests| - 1].delay
    ensures var r := Ticked(p.(delayer := Delaying.TriggerAll(p.delayer, requests)), now);
      r.throttler.active == p.throttler.active && r.throttler.started == p.throttler.started &&
      Settled(r).throttler.started == p.throttler.started + [requests[|requests| - 1].task]
  {
    Delaying.LastTriggerRunsOnce(p.delayer, requests, now, []);
    Throttling.BurstCoalesces(p.throttler, [requests[|requests| - 1].task]);
  }

  class ThrottledDelayer {
    /** `ThrottledDelayer` extends `Delayer`; here the delayer is a field. */
    const delayer: Delaying.Delayer
    const throttler: Throttling.Throttler

    ghost function State(): Pipeline
      reads this, delayer, throttler
    {
      Pipeline(delayer.State(), throttler.State())
    }

    ghost predicate Valid()
      reads this, delayer, throttler
    {
      Invariant(State())
    }

    constructor (defaultDelay: nat)
      ensures Valid() && State() == Initial && delayer.defaultDelay == defaultDelay
      ensures fresh(delayer) && fresh(throttler)
    {
      delayer := new Delaying.Delayer(defaultDelay);
      throttler := new Throttling.Throttler();
    }

    /** `trigger(promiseFactory, delay)`: delays the hand-over of the factory
        to the throttler. */
    method Trigger(factory: TaskId, now: int, delay: Option<nat>)
      requires Valid()
      modifies delayer
      ensures Valid() && delayer.defaultDelay == old(delayer.defaultDelay)
      ensures State() == Triggered(old(State()), factory, if delay.Some? then delay.value else delayer.defaultDelay, now)
    {
      delayer.Trigger(factory, now, delay);
    }

    /** The clock reads `now`; a due timer runs the delayer's task, which
        queues the factory on the throttler. */
    method Tick(now: int)
      requires Valid()
      modifies delayer, throttler
      ensures Valid() && delayer.defaultDelay == old(delayer.defaultDelay)
      ensures State() == Ticked(old(State()), now)
    {
      var invoked := delayer.Tick(now);
      if invoked.Some? {
        throttler.Queue(invoked.value);
      }
    }

    /** The run in flight settles. */
    method Settle()
      requires Valid() && throttler.active.Some?
      modifies throttler
      ensures Valid() && State() == Settled(old(State()))
    {
      throttler.Settle();
    }
  }
}
