/**
 * The rate limiters of src/technic.js. Each wrapper returned by `throttle`
 * or `debounce` keeps closure state that its calls update in place; here
 * that state is the fields of a class. The wall clock (`timestamp`) becomes
 * a time parameter, the host timer becomes one pending slot with an
 * explicit `Fire` step, and the wrapped `fn` becomes a log of the calls it
 * received.
 */
module Technic {
  import opened Wrappers

  /** One invocation of the wrapped `fn`: the clock time and the arguments. */
  datatype Invocation<A> = Invocation(at: int, args: A)

  /** One call of a wrapper: the clock time and the arguments it was given. */
  datatype Call<A> = Call(stamp: int, args: A)

  // ---------------------------------------------------------------- throttle

  /** The closure state of a throttled wrapper, with the log of `fn`. */
  datatype ThrottleState<A> = ThrottleState(base: Option<int>, log: seq<Invocation<A>>)

  /**
   * One call of the throttled wrapper at time `stamp`: it either invokes `fn`
   * once with its own arguments and leaves the wrapper idle, or is dropped and
   * leaves the wrapper anchored (at the old anchor, or at `stamp` if idle).
   */
  function ThrottleStep<A>(interval: int, s: ThrottleState<A>, stamp: int, args: A): (r: ThrottleState<A>)
    ensures r.log == s.log || r.log == s.log + [Invocation(stamp, args)]
    ensures r.log != s.log <==> r.base.None?
    ensures r.base.Some? ==> r.base.value == s.base.GetOr(stamp)
  {
    var anchor := s.base.GetOr(stamp);
    if stamp - anchor >= interval then
      ThrottleState(None, s.log + [Invocation(stamp, args)])
    else
      ThrottleState(Some(anchor), s.log)
  }

  /**
   * A fresh wrapper followed by the given calls, in order: `fn` runs at most
   * once per call, and a wrapper that was never called is idle.
   */
  function ThrottleRun<A>(interval: int, calls: seq<Call<A>>): (r: ThrottleState<A>)
    ensures |r.log| <= |calls|
    ensures calls == [] ==> r.base.None?
  {
    if calls == [] then ThrottleState(None, [])
    else
      var c := calls[|calls| - 1];
      ThrottleStep(interval, ThrottleRun(interval, calls[..|calls| - 1]), c.stamp, c.args)
  }

  class Throttled<A> {
    const interval: int
    var base: Option<int>
    var log: seq<Invocation<A>>

    /**
     * A wrapper whose interval is never positive is never anchored between
     * calls, so each of its calls invokes `fn` (see Call).
     */
    ghost predicate Valid()
      reads this
    {
      interval <= 0 ==> base.None?
    }

    function State(): ThrottleState<A>
      reads this
    {
      ThrottleState(base, log)
    }

    /** `throttle(fn, interval)`: an absent interval is 0. */
    constructor (interval: Option<int>)
      ensures Valid()
      ensures this.interval == interval.GetOr(0)
      ensures base == None && log == []
    {
      this.interval := interval.GetOr(0);
      base := None;
      log := [];
    }

    /** `throttled(args)` called at clock time `stamp`. */
    method Call(stamp: int, args: A) returns (invoked: bool)
      requires Valid()
      modifies this
      ensures Valid()
      ensures State() == ThrottleStep(interval, old(State()), stamp, args)
      ensures invoked <==> stamp - old(base).GetOr(stamp) >= interval
      ensures interval <= 0 ==> invoked
      ensures invoked ==> base == None && log == old(log) + [Invocation(stamp, args)]
      ensures !invoked ==> base == Some(old(base).GetOr(stamp)) && log == old(log)
    {
      if base.None? {
        base := Some(stamp);
      }
      invoked := stamp - base.value >= interval;
      if invoked {
        log := log + [Invocation(stamp, args)];
        base := None;
      }
    }
  }

  // ---------------------------------------------------------------- debounce

  /**
   * The closure state of a debounced wrapper: the latest arguments, the
   * pending timer (its due time) if any, and the log of `fn`.
   */
  datatype DebounceState<A> = DebounceState(args: Option<A>, due: Option<int>, log: seq<Invocation<A>>)

  /** What happens to a debounced wrapper: a call, or the host's timer check at a time. */
  datatype Event<A> = Called(now: int, callArgs: A) | Tick(now: int)

  /**
   * One event. A call overwrites the arguments and replaces the pending
   * callback (cancel, then schedule); a timer check runs the callback once it
   * is due. The `args.Some?` test never decides anything on a run from a
   * fresh wrapper (see DebounceRun): a pending callback always has arguments.
   */
  function DebounceStep<A>(delay: int, s: DebounceState<A>, e: Event<A>): (r: DebounceState<A>)
    ensures e.Called? ==> r.args == Some(e.callArgs) && r.due == Some(e.now + delay) && r.log == s.log
    ensures e.Tick? ==> r.args == s.args
    ensures e.Tick? ==>
              || r.log == s.log
              || (&& s.args.Some? && s.due.Some? && s.due.value <= e.now
                  && r.due.None? && r.log == s.log + [Invocation(e.now, s.args.value)])
  {
    match e
    case Called(now, a) => DebounceState(Some(a), Some(now + delay), s.log)
    case Tick(now) =>
      if s.due.Some? && s.due.value <= now && s.args.Some? then
        DebounceState(s.args, None, s.log + [Invocation(now, s.args.value)])
      else s
  }

  /**
   * A fresh debounced wrapper followed by the given events: a pending
   * callback always has arguments, and `fn` runs at most once per event.
   */
  function DebounceRun<A>(delay: int, events: seq<Event<A>>): (r: DebounceState<A>)
    ensures r.due.Some? ==> r.args.Some?
    ensures |r.log| <= |events|
  {
    if events == [] then DebounceState(None, None, [])
    else DebounceStep(delay, DebounceRun(delay, events[..|events| - 1]), events[|events| - 1])
  }

  class Debounced<A> {
    const delay: int
    var args: Option<A>
    var due: Option<int>
    var log: seq<Invocation<A>>

    /** A pending callback always has arguments to forward. */
    ghost predicate Valid()
      reads this
    {
      due.Some? ==> args.Some?
    }

    function State(): DebounceState<A>
      reads this
    {
      DebounceState(args, due, log)
    }

    /** `debounce(fn, delay)`: an absent delay is 0. */
    constructor (delay: Option<int>)
      ensures Valid()
      ensures this.delay == delay.GetOr(0)
      ensures args == None && due == None && log == []
    {
      this.delay := delay.GetOr(0);
      args := None;
      due := None;
      log := [];
    }

    /**
     * `debounced(a)` at time `now`: records `a` as the latest arguments,
     * cancels the pending callback and schedules one for `now + delay`.
     */
    method Call(now: int, a: A)
      requires Valid()
      modifies this
      ensures Valid()
      ensures State() == DebounceStep(delay, old(State()), Called(now, a))
      ensures args == Some(a) && due == Some(now + delay) && log == old(log)
    {
      args := Some(a);
      due := None;              // cancel the pending callback
      due := Some(now + delay); // schedule a new one
    }

    /** The host timer at time `now`: the pending callback runs if it is due. */
    method Fire(now: int) returns (fired: bool)
      requires Valid()
      modifies this
      ensures Valid()
      ensures State() == DebounceStep(delay, old(State()), Tick(now))
      ensures fired <==> old(due).Some? && old(due).value <= now
      ensures fired ==> due == None && log == old(log) + [Invocation(now, old(args).value)]
      ensures !fired ==> due == old(due) && log == old(log)
      ensures args == old(args)
    {
      fired := due.Some? && due.value <= now;
      if fired {
        log := log + [Invocation(now, args.value)];
        due := None;
      }
    }
  }

  // ------------------------------------------------------ throttle properties

  /** Clock times that never go backwards. */
  predicate NonDecreasing<A>(calls: seq<Call<A>>)
  {
    forall i, j :: 0 <= i < j < |calls| ==> calls[i].stamp <= calls[j].stamp
  }

  /**
   * From the idle state the call anchors at its own stamp, so the elapsed
   * time is 0: it invokes `fn` (and stays idle) exactly when interval <= 0.
   */
  lemma IdleCall<A>(interval: int, log: seq<Invocation<A>>, stamp: int, args: A)
    ensures interval > 0 ==> ThrottleStep(interval, ThrottleState(None, log), stamp, args) == ThrottleState(Some(stamp), log)
    ensures interval <= 0 ==> ThrottleStep(interval, ThrottleState(None, log), stamp, args) == ThrottleState(None, log + [Invocation(stamp, args)])
  {
  }

  /** With an interval of 0 or less every call invokes `fn` with its own arguments. */
  lemma {:induction false} NonPositiveIntervalInvokesAll<A>(interval: int, calls: seq<Call<A>>)
    requires interval <= 0
    ensures ThrottleRun(interval, calls).base == None
    ensures |ThrottleRun(interval, calls).log| == |calls|
    ensures forall i :: 0 <= i < |calls| ==>
              ThrottleRun(interval, calls).log[i] == Invocation(calls[i].stamp, calls[i].args)
  {
    if calls != [] {
      var prefix := calls[..|calls| - 1];
      var c := calls[|calls| - 1];
      NonPositiveIntervalInvokesAll(interval, prefix);
      var s0 := ThrottleRun(interval, prefix);
      assert ThrottleRun(interval, calls) == ThrottleState(None, s0.log + [Invocation(c.stamp, c.args)]);
    }
  }

  /** `fn` only ever receives a call's own stamp and arguments. */
  lemma {:induction false} ThrottleLogFromCalls<A>(interval: int, calls: seq<Call<A>>)
    ensures forall inv :: inv in ThrottleRun(interval, calls).log ==> Call(inv.at, inv.args) in calls
  {
    if calls != [] {
      var prefix := calls[..|calls| - 1];
      ThrottleLogFromCalls(interval, prefix);
      var log0 := ThrottleRun(interval, prefix).log;
      var log := ThrottleRun(interval, calls).log;
      forall inv | inv in log
        ensures Call(inv.at, inv.args) in calls
      {
        if inv in log0 {
          assert Call(inv.at, inv.args) in prefix;
        } else {
          assert inv == Invocation(calls[|calls| - 1].stamp, calls[|calls| - 1].args);
        }
      }
    }
  }

  /**
   * With a positive interval every invocation needs an earlier anchoring
   * call, so at most half of the calls reach `fn`.
   */
  lemma {:induction false} PositiveIntervalAtMostHalf<A>(interval: int, calls: seq<Call<A>>)
    requires interval > 0
    ensures 2 * |ThrottleRun(interval, calls).log| + (if ThrottleRun(interval, calls).base.Some? then 1 else 0) <= |calls|
  {
    if calls != [] {
      PositiveIntervalAtMostHalf(interval, calls[..|calls| - 1]);
    }
  }

  /** The facts about a run that the spacing of invocations rests on. */
  lemma {:induction false} ThrottleRunFacts<A>(interval: int, calls: seq<Call<A>>)
    requires NonDecreasing(calls)
    ensures var s := ThrottleRun(interval, calls);
            && (|s.log| > 0 ==> |calls| > 0 && s.log[|s.log| - 1].at <= calls[|calls| - 1].stamp)
            && (|s.log| > 0 && s.base.Some? ==> s.log[|s.log| - 1].at <= s.base.value)
            && (forall i :: 0 < i < |s.log| ==> s.log[i].at - s.log[i - 1].at >= interval)
  {
    if calls != [] {
      var prefix := calls[..|calls| - 1];
      var c := calls[|calls| - 1];
      ThrottleRunFacts(interval, prefix);
      var s0 := ThrottleRun(interval, prefix);
      var s1 := ThrottleRun(interval, calls);
      assert s1 == ThrottleStep(interval, s0, c.stamp, c.args);
      assert |s0.log| > 0 ==> s0.log[|s0.log| - 1].at <= c.stamp by {
        if |s0.log| > 0 {
          assert prefix[|prefix| - 1] == calls[|prefix| - 1];
        }
      }
      var anchor := s0.base.GetOr(c.stamp);
      if c.stamp - anchor >= interval {
        assert s1.log == s0.log + [Invocation(c.stamp, c.args)];
        assert |s0.log| > 0 ==> c.stamp - s0.log[|s0.log| - 1].at >= interval;
      } else {
        assert s1 == ThrottleState(Some(anchor), s0.log);
      }
    }
  }

  /**
   * "At most once per every interval milliseconds": when the clock never
   * goes backwards, consecutive invocations of `fn` are at least `interval` apart.
   */
  lemma InvocationsSpaced<A>(interval: int, calls: seq<Call<A>>)
    requires NonDecreasing(calls)
    ensures var log := ThrottleRun(interval, calls).log;
            forall i :: 0 < i < |log| ==> log[i].at - log[i - 1].at >= interval
  {
    ThrottleRunFacts(interval, calls);
  }

  /**
   * Interval 100 and calls at 0, 50, 110, 150, 215: only the call at 110
   * invokes `fn`; it clears the anchor, so 150 anchors anew and 215 is dropped.
   */
  lemma ThrottleTimeline<A>(p: A, q: A, r: A, s: A, t: A)
    ensures var run := ThrottleRun(100, [Call(0, p), Call(50, q), Call(110, r), Call(150, s), Call(215, t)]);
            run.log == [Invocation(110, r)] && run.base == Some(150)
  {
    var c1 := [Call(0, p)];
    var c2 := c1 + [Call(50, q)];
    var c3 := c2 + [Call(110, r)];
    var c4 := c3 + [Call(150, s)];
    var c5 := c4 + [Call(215, t)];
    assert c1[..0] == [] && c2[..1] == c1 && c3[..2] == c2 && c4[..3] == c3 && c5[..4] == c4;
    assert ThrottleRun(100, c1) == ThrottleState(Some(0), []);
    assert ThrottleRun(100, c2) == ThrottleState(Some(0), []);
    assert ThrottleRun(100, c3) == ThrottleState(None, [Invocation(110, r)]);
    assert ThrottleRun(100, c4) == ThrottleState(Some(150), [Invocation(110, r)]);
    assert c5 == [Call(0, p), Call(50, q), Call(110, r), Call(150, s), Call(215, t)];
  }

  // ------------------------------------------------------ debounce properties

  /** The most recent call among the events, if any. */
  function LastCall<A>(events: seq<Event<A>>): Option<Call<A>>
  {
    if events == [] then None
    else match events[|events| - 1]
      case Called(now, a) => Some(Call(now, a))
      case Tick(_) => LastCall(events[..|events| - 1])
  }

  /** How many of the events are calls. */
  function CallCount<A>(events: seq<Event<A>>): nat
  {
    if events == [] then 0
    else CallCount(events[..|events| - 1]) + (if events[|events| - 1].Called? then 1 else 0)
  }

  /**
   * The stored arguments are always those of the latest call, and a pending
   * callback is always due `delay` after that call.
   */
  lemma {:induction false} LatestCallWins<A>(delay: int, events: seq<Event<A>>)
    ensures var s := DebounceRun(delay, events);
            && (LastCall(events).None? ==> s.args.None? && s.due.None?)
            && (LastCall(events).Some? ==> s.args == Some(LastCall(events).value.args))
            && (s.due.Some? ==> LastCall(events).Some? && s.due.value == LastCall(events).value.stamp + delay)
  {
    if events != [] {
      LatestCallWins(delay, events[..|events| - 1]);
    }
  }

  /**
   * When the pending callback runs at time `now`, it hands `fn` the
   * arguments of the most recent call, no earlier than `delay` after it.
   */
  lemma FireUsesLatestArgs<A>(delay: int, events: seq<Event<A>>, now: int)
    requires DebounceRun(delay, events).due.Some? && DebounceRun(delay, events).due.value <= now
    ensures LastCall(events).Some?
    ensures now >= LastCall(events).value.stamp + delay
    ensures DebounceRun(delay, events + [Tick(now)]).log
            == DebounceRun(delay, events).log + [Invocation(now, LastCall(events).value.args)]
    ensures DebounceRun(delay, events + [Tick(now)]).due == None
  {
    LatestCallWins(delay, events);
    assert (events + [Tick(now)])[..|events|] == events;
  }

  /**
   * Each call leaves at most one pending callback and each run of the
   * callback empties the slot, so `fn` runs at most once per call.
   */
  lemma {:induction false} InvocationsAtMostCalls<A>(delay: int, events: seq<Event<A>>)
    ensures var s := DebounceRun(delay, events);
            |s.log| + (if s.due.Some? then 1 else 0) <= CallCount(events)
  {
    if events != [] {
      InvocationsAtMostCalls(delay, events[..|events| - 1]);
    }
  }

  /** A wrapper that is never called never invokes `fn`. */
  lemma NoCallsNoInvocation<A>(delay: int, events: seq<Event<A>>)
    requires forall i :: 0 <= i < |events| ==> events[i].Tick?
    ensures DebounceRun(delay, events).log == []
  {
    InvocationsAtMostCalls(delay, events);
    NoCallsCounted(events);
  }

  lemma {:induction false} NoCallsCounted<A>(events: seq<Event<A>>)
    requires forall i :: 0 <= i < |events| ==> events[i].Tick?
    ensures CallCount(events) == 0
  {
    if events != [] {
      NoCallsCounted(events[..|events| - 1]);
    }
  }

  /**
   * Net effect of a burst: after the last call (at `t`, with `a`) and only
   * timer checks since, `fn` has run at most once more, with `a` and no
   * earlier than `t + delay`; while the callback is still pending it has not run.
   */
  lemma {:induction false} AfterLastCall<A>(delay: int, pre: seq<Event<A>>, t: int, a: A, ticks: seq<Event<A>>)
    requires forall i :: 0 <= i < |ticks| ==> ticks[i].Tick?
    ensures var old_log := DebounceRun(delay, pre).log;
            var s := DebounceRun(delay, pre + [Called(t, a)] + ticks);
            && s.args == Some(a)
            && (s.due.Some? ==> s.due.value == t + delay && s.log == old_log)
            && (s.due.None? ==>
                  && |s.log| == |old_log| + 1
                  && s.log[..|old_log|] == old_log
                  && s.log[|old_log|].args == a
                  && s.log[|old_log|].at >= t + delay)
  {
    var events := pre + [Called(t, a)] + ticks;
    if ticks == [] {
      assert events[..|events| - 1] == pre;
    } else {
      var rest := ticks[..|ticks| - 1];
      AfterLastCall(delay, pre, t, a, rest);
      assert events[..|events| - 1] == pre + [Called(t, a)] + rest;
    }
  }

  /**
   * Delay 30 and calls at 0, 10, 20: the timer checks at 49, 50 and 80 see
   * `fn` run exactly once, at 50, with the arguments of the call at 20.
   */
  lemma DebounceBurst<A>(a: A, b: A, c: A)
    ensures DebounceRun(30, [Called(0, a), Called(10, b), Called(20, c), Tick(49), Tick(50), Tick(80)]).log
            == [Invocation(50, c)]
  {
    var e1 := [Called(0, a)];
    var e2 := e1 + [Called(10, b)];
    var e3 := e2 + [Called(20, c)];
    var e4 := e3 + [Tick(49)];
    var e5 := e4 + [Tick(50)];
    var e6 := e5 + [Tick(80)];
    assert e1[..0] == [] && e2[..1] == e1 && e3[..2] == e2 && e4[..3] == e3 && e5[..4] == e4 && e6[..5] == e5;
    assert DebounceRun(30, e1) == DebounceState(Some(a), Some(30), []);
    assert DebounceRun(30, e2) == DebounceState(Some(b), Some(40), []);
    assert DebounceRun(30, e3) == DebounceState(Some(c), Some(50), []);
    assert DebounceRun(30, e4) == DebounceState(Some(c), Some(50), []);
    assert DebounceRun(30, e5) == DebounceState(Some(c), None, [Invocation(50, c)]);
    assert e6 == [Called(0, a), Called(10, b), Called(20, c), Tick(49), Tick(50), Tick(80)];
  }
}
