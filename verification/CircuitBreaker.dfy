/** The three-state circuit breaker under concurrent calls: any interleaving of the begin and
    finish halves of calls, including calls that finish in a later state than the one that
    admitted them and calls that never finish. */
module CircuitBreaker {

  datatype CircuitState = Closed | Open | HalfOpen

  datatype OptionalTime = Never | At(time: real)

  datatype Breaker = Breaker(state: CircuitState, failures: nat, openedAt: OptionalTime, trial: bool)

  datatype Settings = Settings(threshold: nat, resetTimeout: real)

  predicate ValidSettings(c: Settings) {
    c.threshold >= 1 && c.resetTimeout > 0.0
  }

  const Initial := Breaker(Closed, 0, Never, false)

  /** Whether a call beginning now is let through. */
  predicate Admits(c: Settings, b: Breaker, now: real) {
    match b.state
    case Closed => true
    case Open => b.openedAt.At? && now - b.openedAt.time >= c.resetTimeout
    case HalfOpen => !b.trial
  }

  function AfterBegin(c: Settings, b: Breaker, now: real): Breaker {
    if Admits(c, b, now) && !b.state.Closed? then b.(state := HalfOpen, trial := true) else b
  }

  function AfterSuccess(b: Breaker): Breaker {
    Breaker(Closed, 0, Never, false)
  }

  function AfterFailure(c: Settings, b: Breaker, now: real): Breaker {
    if b.state.HalfOpen? then b.(trial := false, state := Open, openedAt := At(now))
    else if b.failures + 1 >= c.threshold then Breaker(Open, b.failures + 1, At(now), false)
    else b.(trial := false, failures := b.failures + 1)
  }

  class Circuit {
    const settings: Settings
    var state: CircuitState
    var failures: nat
    var openedAt: OptionalTime
    var trial: bool

    ghost function Value(): Breaker
      reads this
    {
      Breaker(state, failures, openedAt, trial)
    }

    constructor (settings: Settings)
      requires ValidSettings(settings)
      ensures this.settings == settings && Value() == Initial
    {
      this.settings := settings;
      state, failures, openedAt, trial := Closed, 0, Never, false;
    }

    /** `_before_call`; an open circuit always has its opening time set (`AlwaysConsistent`). */
    method BeforeCall(now: real) returns (admitted: bool)
      requires state == Open ==> openedAt.At?
      modifies this
      ensures admitted == Admits(settings, old(Value()), now)
      ensures Value() == AfterBegin(settings, old(Value()), now)
    {
      if state == Open {
        if now - openedAt.time < settings.resetTimeout {
          return false;
        }
        state := HalfOpen;
        trial := true;
        return true;
      }
      if state == HalfOpen {
        if trial {
          return false;
        }
        trial := true;
      }
      return true;
    }

    method OnSuccess()
      modifies this
      ensures Value() == AfterSuccess(old(Value()))
    {
      failures := 0;
      state := Closed;
      openedAt := Never;
      trial := false;
    }

    method OnFailure(now: real)
      modifies this
      ensures Value() == AfterFailure(settings, old(Value()), now)
    {
      trial := false;
      if state == HalfOpen {
        state := Open;
        openedAt := At(now);
        return;
      }
      failures := failures + 1;
      if failures >= settings.threshold {
        state := Open;
        openedAt := At(now);
      }
    }
  }

  // ---- Every interleaving ----------------------------------------------------------------

  datatype Event = Begin(time: real) | Success(time: real) | Failure(time: real)

  function After(c: Settings, b: Breaker, e: Event): Breaker {
    match e
    case Begin(now) => AfterBegin(c, b, now)
    case Success(_) => AfterSuccess(b)
    case Failure(now) => AfterFailure(c, b, now)
  }

  function Outcome(c: Settings, b: Breaker, events: seq<Event>): Breaker
    decreases |events|
  {
    if events == [] then b else Outcome(c, After(c, b, events[0]), events[1..])
  }

  predicate Ordered(events: seq<Event>) {
    forall i, j :: 0 <= i < j < |events| ==> events[i].time <= events[j].time
  }

  /** Closed exactly below the threshold, half-open exactly while the trial flag is set, and an
      opening time whenever the circuit is not closed. */
  predicate Consistent(c: Settings, b: Breaker) {
    && (b.state.Closed? <==> b.failures < c.threshold)
    && (b.state.HalfOpen? <==> b.trial)
    && (b.openedAt.At? <==> !b.state.Closed?)
  }

  lemma {:induction false} AlwaysConsistent(c: Settings, b: Breaker, events: seq<Event>)
    requires ValidSettings(c) && Consistent(c, b)
    ensures Consistent(c, Outcome(c, b, events))
    decreases |events|
  {
    if events != [] {
      AlwaysConsistent(c, After(c, b, events[0]), events[1..]);
    }
  }

  /** How many failures finished after the last success. */
  function FailuresSinceSuccess(events: seq<Event>): nat {
    if events == [] then 0
    else
      var before, last := events[..|events| - 1], events[|events| - 1];
      match last
      case Begin(_) => FailuresSinceSuccess(before)
      case Success(_) => 0
      case Failure(_) => FailuresSinceSuccess(before) + 1
  }

  lemma {:induction false} OutcomeSplits(c: Settings, b: Breaker, events: seq<Event>, e: Event)
    ensures Outcome(c, b, events + [e]) == After(c, Outcome(c, b, events), e)
    decreases |events|
  {
    if events == [] {
      assert ([] + [e])[1..] == [];
    } else {
      OutcomeSplits(c, After(c, b, events[0]), events[1..], e);
      assert (events + [e])[1..] == events[1..] + [e];
    }
  }

  /** The circuit is closed exactly while fewer than `threshold` failures have finished since the
      last success, whatever the calls in between. */
  lemma {:induction false} ClosedIffFewFailures(c: Settings, events: seq<Event>)
    requires ValidSettings(c)
    ensures Outcome(c, Initial, events).state.Closed? <==> FailuresSinceSuccess(events) < c.threshold
    ensures Outcome(c, Initial, events).state.Closed? ==>
              Outcome(c, Initial, events).failures == FailuresSinceSuccess(events)
  {
    if events != [] {
      var before, last := events[..|events| - 1], events[|events| - 1];
      assert events == before + [last];
      OutcomeSplits(c, Initial, before, last);
      ClosedIffFewFailures(c, before);
      AlwaysConsistent(c, Initial, before);
    }
  }

  // ---- Which calls get through -----------------------------------------------------------

  /** When the last call finished, if it failed. */
  function LastFailure(events: seq<Event>): OptionalTime {
    if events == [] then Never
    else
      match events[|events| - 1]
      case Begin(_) => LastFailure(events[..|events| - 1])
      case Success(_) => Never
      case Failure(time) => At(time)
  }

  /** Since that failure a call began at least a reset timeout after it. */
  function TrialBegun(c: Settings, events: seq<Event>): bool {
    if events == [] then false
    else
      var before := events[..|events| - 1];
      match events[|events| - 1]
      case Begin(time) =>
        TrialBegun(c, before)
        || (LastFailure(before).At? && time - LastFailure(before).time >= c.resetTimeout)
      case Success(_) => false
      case Failure(_) => false
  }

  /** A circuit that is not closed was opened by the last failure, and is half-open exactly if a trial
      has begun since. */
  lemma {:induction false} OpenedByTheLastFailure(c: Settings, events: seq<Event>)
    requires ValidSettings(c)
    ensures var b := Outcome(c, Initial, events);
      !b.state.Closed? ==> b.openedAt == LastFailure(events) && (b.state.HalfOpen? <==> TrialBegun(c, events))
  {
    if events != [] {
      var before, last := events[..|events| - 1], events[|events| - 1];
      assert events == before + [last];
      OutcomeSplits(c, Initial, before, last);
      AlwaysConsistent(c, Initial, before);
      OpenedByTheLastFailure(c, before);
    }
  }

  /** After any events, a call is let through exactly if fewer than `threshold` failures finished since
      the last success, or the last failure is at least a reset timeout ago and no trial has begun
      since. */
  lemma AdmittedExactly(c: Settings, events: seq<Event>, now: real)
    requires ValidSettings(c)
    ensures Admits(c, Outcome(c, Initial, events), now) <==>
              || FailuresSinceSuccess(events) < c.threshold
              || (&& LastFailure(events).At? && now - LastFailure(events).time >= c.resetTimeout
                  && !TrialBegun(c, events))
  {
    ClosedIffFewFailures(c, events);
    AlwaysConsistent(c, Initial, events);
    OpenedByTheLastFailure(c, events);
  }

  // ---- Admissions once the circuit has opened --------------------------------------------

  predicate NoSuccess(events: seq<Event>) {
    forall i :: 0 <= i < |events| ==> !events[i].Success?
  }

  /** The times of the calls that are let through. */
  function Admissions(c: Settings, b: Breaker, events: seq<Event>): seq<real>
    decreases |events|
  {
    if events == [] then []
    else
      (if events[0].Begin? && Admits(c, b, events[0].time) then [events[0].time] else [])
      + Admissions(c, After(c, b, events[0]), events[1..])
  }

  /** The earliest time at which the next call can be let through. */
  function Earliest(c: Settings, b: Breaker, now: real): real {
    if b.state.Open? && b.openedAt.At? then b.openedAt.time + c.resetTimeout else now + c.resetTimeout
  }

  ghost predicate Spaced(times: seq<real>, gap: real) {
    forall i, j :: 0 <= i < j < |times| ==> times[j] - times[i] >= gap
  }

  ghost predicate SpacedFrom(times: seq<real>, from: real, gap: real) {
    Spaced(times, gap) && forall i :: 0 <= i < |times| ==> times[i] >= from
  }

  predicate OpenedBy(b: Breaker, now: real) {
    b.openedAt.At? ==> b.openedAt.time <= now
  }

  /** Without a success, the k-th admission of an open or half-open circuit is at least k reset
      timeouts after the first one is possible. */
  lemma {:induction false} AdmissionsAreSpaced(c: Settings, b: Breaker, events: seq<Event>, now: real)
    requires ValidSettings(c) && Consistent(c, b) && !b.state.Closed?
    requires Ordered(events) && NoSuccess(events)
    requires events != [] ==> now <= events[0].time
    requires OpenedBy(b, now)
    ensures SpacedFrom(Admissions(c, b, events), Earliest(c, b, now), c.resetTimeout)
    decreases |events|
  {
    if events != [] {
      var b', t := After(c, b, events[0]), events[0].time;
      var rest := Admissions(c, b', events[1..]);
      AdmissionsAreSpaced(c, b', events[1..], t);
      assert Earliest(c, b', t) >= Earliest(c, b, now);
      assert !(events[0].Begin? && Admits(c, b, t)) ==> Admissions(c, b, events) == rest;
    }
  }

  lemma {:induction false} SpacingAccumulates(times: seq<real>, gap: real, i: nat, j: nat)
    requires i <= j < |times|
    requires Spaced(times, gap)
    ensures times[j] - times[i] >= (j - i) as real * gap
    decreases j - i
  {
    if i < j {
      SpacingAccumulates(times, gap, i, j - 1);
      assert (j - i) as real * gap == (j - 1 - i) as real * gap + gap;
    }
  }

  /** Over any stretch without a success, at most floor(L / resetTimeout) + 1 calls get through
      in any length-L part of it after the circuit opened. */
  lemma AdmissionsAreBounded(
    c: Settings, b: Breaker, events: seq<Event>, now: real, times: seq<real>, i: nat, j: nat, length: real)
    requires ValidSettings(c) && Consistent(c, b) && !b.state.Closed? && OpenedBy(b, now)
    requires Ordered(events) && NoSuccess(events)
    requires events != [] ==> now <= events[0].time
    requires times == Admissions(c, b, events)
    requires i <= j < |times| && times[j] - times[i] <= length
    ensures j - i + 1 <= (length / c.resetTimeout).Floor + 1
  {
    AdmissionsAreSpaced(c, b, events, now);
    SpacedBound(times, c.resetTimeout, i, j, length);
  }

  lemma SpacedBound(times: seq<real>, gap: real, i: nat, j: nat, length: real)
    requires gap > 0.0 && i <= j < |times| && times[j] - times[i] <= length
    requires Spaced(times, gap)
    ensures j - i <= (length / gap).Floor
  {
    SpacingAccumulates(times, gap, i, j);
    FloorBound(j - i, length, gap);
  }

  lemma FloorBound(n: nat, length: real, gap: real)
    requires gap > 0.0 && n as real * gap <= length
    ensures n <= (length / gap).Floor
  {
    assert n as real * gap / gap == n as real;
    assert n as real <= length / gap;
  }

  /** A half-open episode admits one call: until a finish, every further call is refused. */
  lemma {:induction false} OneAdmissionPerEpisode(c: Settings, b: Breaker, events: seq<Event>)
    requires ValidSettings(c) && Consistent(c, b) && b.state.HalfOpen?
    requires forall i :: 0 <= i < |events| ==> events[i].Begin?
    ensures Admissions(c, b, events) == [] && Outcome(c, b, events) == b
    decreases |events|
  {
    if events != [] {
      OneAdmissionPerEpisode(c, b, events[1..]);
    }
  }
}
