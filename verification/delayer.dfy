/**
 * `Delayer`: debounces a task. Each trigger replaces the task and restarts
 * the timer; when the timer fires the task last recorded runs once and the
 * slot is emptied; cancelling stops the timer. Time is an explicit clock
 * `now` handed to every event, and the timer is its deadline.
 */
module Delaying {
  import opened Wrappers

  type TaskId = nat

  /** `task`: the task to run; `timer`: the deadline of the outstanding
      timeout (`timeout`); `completion`: `completionPromise` is set;
      `resolver`: `onResolve` is set; `ran`: the tasks invoked so far. */
  datatype DelayerState = DelayerState(task: Option<TaskId>, timer: Option<int>, completion: bool, resolver: bool, ran: seq<TaskId>)

  /** An outstanding timer always has a completion to resolve and a task to
      run, and a completion always has its resolver. */
  predicate Invariant(d: DelayerState) {
    (d.timer.Some? ==> d.completion && d.task.Some?) && (d.completion ==> d.resolver)
  }

  const Initial := DelayerState(None, None, false, false, [])

  /** `isTriggered()`. */
  predicate IsTriggered(d: DelayerState) {
    d.timer.Some?
  }

  /** `trigger(task, delay)` at time `now`: the task replaces the recorded one
      and the timer restarts with deadline `now + delay`; nothing runs. */
  function Triggered(d: DelayerState, task: TaskId, delay: nat, now: int): (r: DelayerState)
    requires Invariant(d)
    ensures Invariant(r) && IsTriggered(r)
    ensures r.task == Some(task) && r.timer == Some(now + delay) && r.ran == d.ran
  {
    var created := !d.completion;
    d.(task := Some(task), timer := Some(now + delay), completion := true,
       resolver := if created then true else d.resolver)
  }

  /** The clock reads `now`: a timer that is due fires, and the recorded
      task, if any, runs and is forgotten. */
  function Ticked(d: DelayerState, now: int): (r: DelayerState)
    requires Invariant(d)
    ensures Invariant(r)
    ensures |d.ran| <= |r.ran| <= |d.ran| + 1 && r.ran[..|d.ran|] == d.ran
    ensures |r.ran| == |d.ran| + 1 <==> (d.timer.Some? && now >= d.timer.value)
  {
    if d.timer.None? || now < d.timer.value then d
    else if !d.resolver then d.(timer := None)
    else match d.task
      case None => d.(timer := None, completion := false, resolver := false)
      case Some(t) => DelayerState(None, None, false, false, d.ran + [t])
  }

  /** `cancel()`: the timer is cleared and the completion dropped; the task
      slot and the resolver stay as they are. */
  function Cancelled(d: DelayerState): (r: DelayerState)
    requires Invariant(d)
    ensures Invariant(r) && !IsTriggered(r) && r.ran == d.ran
  {
    d.(timer := None, completion := false)
  }

  /** A call of `trigger`. */
  datatype Request = Request(task: TaskId, delay: nat, at: int)

  /** `trigger` called once per request, in order, with no timer firing in
      between. */
  function TriggerAll(d: DelayerState, requests: seq<Request>): (r: DelayerState)
    requires Invariant(d)
    ensures Invariant(r)
    decreases |requests|
  {
    if requests == [] then d
    else
      var q := requests[|requests| - 1];
      Triggered(TriggerAll(d, requests[..|requests| - 1]), q.task, q.delay, q.at)
  }

  /** The clock read at each of `times`, in order. */
  function TickAll(d: DelayerState, times: seq<int>): (r: DelayerState)
    requires Invariant(d)
    ensures Invariant(r)
    decreases |times|
  {
    if times == [] then d else TickAll(Ticked(d, times[0]), times[1..])
  }

  /** After a burst of triggers, the last one alone decides the task and the
      deadline, and nothing has run yet. */
  lemma {:induction false} BurstRemembersLast(d: DelayerState, requests: seq<Request>)
    requires Invariant(d) && requests != []
    ensures var last := requests[|requests| - 1];
      var r := TriggerAll(d, requests);
      r.task == Some(last.task) && r.timer == Some(last.at + last.delay) && r.ran == d.ran && r.resolver
    decreases |requests|
  {
    if |requests| > 1 {
      BurstRemembersLast(d, requests[..|requests| - 1]);
    }
  }

  /** However many triggers arrive before the timer fires, the task of the
      last one runs, exactly once, once the clock reaches its deadline; the
      slot is then empty and no timer is outstanding, so later ticks run
      nothing. */
  lemma LastTriggerRunsOnce(d: DelayerState, requests: seq<Request>, now: int, later: seq<int>)
    requires Invariant(d) && requests != []
    requires now >= requests[|requests| - 1].at + requests[|requests| - 1].delay
    ensures var r := Ticked(TriggerAll(d, requests), now);
      r.ran == d.ran + [requests[|requests| - 1].task] && r.task.None? && !IsTriggered(r) &&
      TickAll(r, later).ran == r.ran
  {
    BurstRemembersLast(d, requests);
    var r := Ticked(TriggerAll(d, requests), now);
    QuietWithoutTimer(r, later);
  }

  /** Before the deadline of the last trigger nothing runs: the debounce
      window is measured from the last trigger. */
  lemma NothingBeforeDeadline(d: DelayerState, requests: seq<Request>, now: int)
    requires Invariant(d) && requests != []
    requires now < requests[|requests| - 1].at + requests[|requests| - 1].delay
    ensures Ticked(TriggerAll(d, requests), now) == TriggerAll(d, requests)
  {
    BurstRemembersLast(d, requests);
  }

  /** With no timer outstanding, ticks change nothing at all. */
  lemma {:induction false} QuietWithoutTimer(d: DelayerState, times: seq<int>)
    requires Invariant(d) && !IsTriggered(d)
    ensures TickAll(d, times) == d
    decreases |times|
  {
    if times != [] {
      QuietWithoutTimer(Ticked(d, times[0]), times[1..]);
    }
  }

  /** A cancelled task never runs, whenever the clock is read afterwards. */
  lemma CancelledNeverRuns(d: DelayerState, times: seq<int>)
    requires Invariant(d)
    ensures TickAll(Cancelled(d), times).ran == d.ran
  {
    QuietWithoutTimer(Cancelled(d), times);
  }

  class Delayer {
    var defaultDelay: nat
    /** The deadline of the outstanding timeout. */
    var timeout: Option<int>
    var completionPromise: bool
    var onResolve: bool
    var task: Option<TaskId>
    ghost var ran: seq<TaskId>

    ghost function State(): DelayerState
      reads this
    {
      DelayerState(task, timeout, completionPromise, onResolve, ran)
    }

    ghost predicate Valid()
      reads this
    {
      Invariant(State())
    }

    constructor (defaultDelay: nat)
      ensures Valid() && State() == Initial && this.defaultDelay == defaultDelay
    {
      this.defaultDelay := defaultDelay;
      timeout, completionPromise, onResolve, task := None, false, false, None;
      ran := [];
    }

    /** `trigger(task, delay)` at time `now`; an absent delay is the default. */
    method Trigger(task: TaskId, now: int, delay: Option<nat>)
      requires Valid()
      modifies this
      ensures Valid() && defaultDelay == old(defaultDelay)
      ensures State() == Triggered(old(State()), task, if delay.Some? then delay.value else defaultDelay, now)
    {
      this.task := Some(task);
      CancelTimeout();
      if !completionPromise {
        completionPromise := true;
        onResolve := true;
      }
      var wait := if delay.Some? then delay.value else defaultDelay;
      timeout := Some(now + wait);
    }

    method IsTriggered() returns (b: bool)
      ensures b <==> timeout.Some?
    {
      b := timeout.Some?;
    }

    /** `cancel()`. */
    method Cancel()
      requires Valid()
      modifies this
      ensures Valid() && defaultDelay == old(defaultDelay) && State() == Cancelled(old(State()))
    {
      CancelTimeout();
      if completionPromise {
        completionPromise := false;
      }
    }

    /** `cancelTimeout()`: clears the timer, if one is outstanding. */
    method CancelTimeout()
      modifies this`timeout
      ensures timeout.None?
    {
      if timeout.Some? {
        timeout := None;
      }
    }

    /** The clock reads `now`; a due timer fires: its callback resolves the
        completion, whose continuation runs the recorded task and empties
        the slot. Returns the task that ran, if any. */
    method Tick(now: int) returns (invoked: Option<TaskId>)
      requires Valid()
      modifies this
      ensures Valid() && defaultDelay == old(defaultDelay) && State() == Ticked(old(State()), now)
      ensures invoked.Some? <==> |ran| == |old(ran)| + 1
      ensures invoked.Some? ==> ran == old(ran) + [invoked.value]
    {
      invoked := None;
      if timeout.None? || now < timeout.value {
        return;
      }
      timeout := None;
      if onResolve {
        completionPromise := false;
        onResolve := false;
        if task.Some? {
          invoked := task;
          ran := ran + [task.value];
          task := None;
        }
      }
    }
  }
}
