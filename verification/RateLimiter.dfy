/** The fixed-window limiter: exact within a window, and what it lets through across windows.
    A window opens with the first request after the previous window expired. */
module RateLimiter {
  import opened Redis
  import Text

  datatype Decision = Decision(allowed: bool, limit: int, remaining: int, resetAfterSeconds: int)

  /** The decision for a new count and the seconds its window has left. */
  function Decide(count: nat, limit: int, seconds: int): Decision {
    Decision(count <= limit, limit, if limit - count > 0 then limit - count else 0, if seconds > 1 then seconds else 1)
  }

  class Limiter {
    const client: Counters
    const limit: int
    const window: int

    /** A limit and a window of at least one are required. */
    constructor (client: Counters, limit: int, window: int)
      requires limit >= 1 && window >= 1
      ensures this.client == client && this.limit == limit && this.window == window
    {
      this.client, this.limit, this.window := client, limit, window;
    }

    /** Consumes one request for the tenant's counter and decides on the new count. */
    method Check(key: string, now: int) returns (decision: Decision)
      requires limit >= 1 && window >= 1
      modifies client
      ensures client.store == AfterIncrement(old(client.store), key, window, now)
      ensures decision == Decide(client.store[key].value, limit, WholeSeconds(client.store[key].expiresAt - now))
    {
      var count, seconds := client.IncrementWithTtl(key, window, now);
      var left := limit - count;
      decision := Decision(count <= limit, limit, if left > 0 then left else 0, if seconds > 1 then seconds else 1);
    }
  }

  // ---- One tenant's window ---------------------------------------------------------------

  datatype Window = Idle | Open(count: nat, expires: int)

  function WindowOf(store: Store<nat>, key: string): Window {
    if key in store then Open(store[key].value, store[key].expiresAt) else Idle
  }

  function Hit(w: Window, t: int, ttl: int): Window {
    if w.Open? && t < w.expires then Open(w.count + 1, w.expires) else Open(1, Later(t, ttl))
  }

  /** A request moves its own tenant's window and no other. */
  lemma RequestsAreIsolated(store: Store<nat>, key: string, other: string, ttl: int, now: int)
    ensures WindowOf(AfterIncrement(store, key, ttl, now), key) == Hit(WindowOf(store, key), now, ttl)
    ensures other != key ==> WindowOf(AfterIncrement(store, key, ttl, now), other) == WindowOf(store, other)
  {
  }

  datatype Request = Request(key: string, time: int)

  function Serve(store: Store<nat>, requests: seq<Request>, ttl: int): Store<nat>
    decreases |requests|
  {
    if requests == [] then store
    else Serve(AfterIncrement(store, requests[0].key, ttl, requests[0].time), requests[1..], ttl)
  }

  function TimesOf(requests: seq<Request>, key: string): seq<int> {
    if requests == [] then []
    else (if requests[0].key == key then [requests[0].time] else []) + TimesOf(requests[1..], key)
  }

  function HitAll(w: Window, times: seq<int>, ttl: int): Window
    decreases |times|
  {
    if times == [] then w else HitAll(Hit(w, times[0], ttl), times[1..], ttl)
  }

  /** Over any mixed trace, a tenant's window is the one its own requests alone produce. */
  lemma {:induction false} TenantsAreIsolated(store: Store<nat>, requests: seq<Request>, ttl: int, key: string)
    ensures WindowOf(Serve(store, requests, ttl), key) == HitAll(WindowOf(store, key), TimesOf(requests, key), ttl)
    decreases |requests|
  {
    if requests != [] {
      var first := requests[0];
      RequestsAreIsolated(store, first.key, key, ttl, first.time);
      TenantsAreIsolated(AfterIncrement(store, first.key, ttl, first.time), requests[1..], ttl, key);
      if first.key == key {
        assert TimesOf(requests, key)[1..] == TimesOf(requests[1..], key);
      } else {
        assert TimesOf(requests, key) == TimesOf(requests[1..], key);
      }
    }
  }

  // ---- How much gets through -------------------------------------------------------------

  predicate Ordered(times: seq<int>) {
    forall i, j :: 0 <= i < j < |times| ==> times[i] <= times[j]
  }

  /** Which requests of a tenant are allowed, in order. */
  function Allowed(w: Window, times: seq<int>, limit: int, ttl: int): (r: seq<bool>)
    ensures |r| == |times|
    decreases |times|
  {
    if times == [] then []
    else
      var w' := Hit(w, times[0], ttl);
      [w'.count <= limit] + Allowed(w', times[1..], limit, ttl)
  }

  /** Of the requests that share a window, exactly the first `limit` are allowed. */
  lemma {:induction false} ExactWithinWindow(w: Window, times: seq<int>, limit: int, ttl: int)
    requires w.Open? && forall i :: 0 <= i < |times| ==> times[i] < w.expires
    ensures forall i :: 0 <= i < |times| ==> (Allowed(w, times, limit, ttl)[i] <==> w.count + i < limit)
    decreases |times|
  {
    if times != [] {
      var w' := Hit(w, times[0], ttl);
      ExactWithinWindow(w', times[1..], limit, ttl);
      forall i | 0 <= i < |times|
        ensures Allowed(w, times, limit, ttl)[i] <==> w.count + i < limit
      {
        if i > 0 {
          assert Allowed(w, times, limit, ttl)[i] == Allowed(w', times[1..], limit, ttl)[i - 1];
        }
      }
    }
  }

  function CountTrue(flags: seq<bool>): nat {
    if flags == [] then 0 else (if flags[0] then 1 else 0) + CountTrue(flags[1..])
  }

  lemma {:induction false} CountPrefix(flags: seq<bool>, k: int)
    requires forall i :: 0 <= i < |flags| ==> (flags[i] <==> i < k)
    ensures CountTrue(flags) == if k < 0 then 0 else if k < |flags| then k else |flags|
  {
    if flags != [] {
      CountPrefix(flags[1..], k - 1);
    }
  }

  /** Decisions on a trace are those on its parts, each from the window the part before it left. */
  lemma {:induction false} AllowedOfSplit(w: Window, a: seq<int>, b: seq<int>, limit: int, ttl: int)
    ensures Allowed(w, a + b, limit, ttl) == Allowed(w, a, limit, ttl) + Allowed(HitAll(w, a, ttl), b, limit, ttl)
    decreases |a|
  {
    if a == [] {
      assert a + b == b;
    } else {
      assert (a + b)[1..] == a[1..] + b;
      AllowedOfSplit(Hit(w, a[0], ttl), a[1..], b, limit, ttl);
    }
  }

  /** The first request of `times` opens a window, and they all fall into it. */
  predicate FillsWindow(w: Window, times: seq<int>, ttl: int) {
    && times != [] && (w.Idle? || w.expires <= times[0])
    && forall i :: 0 <= i < |times| ==> times[i] < Later(times[0], ttl)
  }

  lemma WindowAllowsExactly(w: Window, times: seq<int>, limit: int, ttl: int)
    requires limit >= 1 && ttl >= 1 && FillsWindow(w, times, ttl)
    ensures CountTrue(Allowed(w, times, limit, ttl)) == if |times| < limit then |times| else limit
  {
    var w' := Hit(w, times[0], ttl);
    ExactWithinWindow(w', times[1..], limit, ttl);
    CountPrefix(Allowed(w', times[1..], limit, ttl), limit - 1);
    assert Allowed(w, times, limit, ttl)[1..] == Allowed(w', times[1..], limit, ttl);
  }

  /** Wherever a window opens in a trace, exactly min(n, limit) of the n requests that fall into it
      get through. */
  lemma EveryWindowAllowsExactly(
    w: Window, before: seq<int>, times: seq<int>, after: seq<int>, limit: int, ttl: int)
    requires limit >= 1 && ttl >= 1 && FillsWindow(HitAll(w, before, ttl), times, ttl)
    ensures var allowed := Allowed(w, before + (times + after), limit, ttl);
      CountTrue(allowed[|before|..|before| + |times|]) == if |times| < limit then |times| else limit
  {
    var opening := HitAll(w, before, ttl);
    AllowedOfSplit(w, before, times + after, limit, ttl);
    AllowedOfSplit(opening, times, after, limit, ttl);
    WindowAllowsExactly(opening, times, limit, ttl);
    var a, b, c := Allowed(w, before, limit, ttl), Allowed(opening, times, limit, ttl),
                   Allowed(HitAll(opening, times, ttl), after, limit, ttl);
    assert (a + (b + c))[|before|..|before| + |times|] == b;
  }

  /** How many requests at the front come before this time. */
  function InFront(times: seq<int>, until: int): (n: nat)
    ensures n <= |times| && forall i :: 0 <= i < n ==> times[i] < until
    ensures n < |times| ==> until <= times[n]
  {
    if times == [] || until <= times[0] then 0 else 1 + InFront(times[1..], until)
  }

  /** A trace cut into its windows, the first `limit` requests of each allowed. */
  function PerWindow(times: seq<int>, limit: int, ttl: int): seq<bool>
    requires ttl >= 1
    decreases |times|
  {
    if times == [] then []
    else
      var n := InFront(times, Later(times[0], ttl));
      seq(n, i => i < limit) + PerWindow(times[n..], limit, ttl)
  }

  /** The limiter's decisions on any trace are those of the windows it falls into. */
  lemma {:induction false} DecidedPerWindow(w: Window, times: seq<int>, limit: int, ttl: int)
    requires limit >= 1 && ttl >= 1 && (w.Open? && times != [] ==> w.expires <= times[0])
    ensures Allowed(w, times, limit, ttl) == PerWindow(times, limit, ttl)
    decreases |times|
  {
    if times != [] {
      var n := InFront(times, Later(times[0], ttl));
      var w' := Hit(w, times[0], ttl);
      assert times == times[..n] + times[n..] && times[..n][1..] == times[1..n];
      AllowedOfSplit(w, times[..n], times[n..], limit, ttl);
      ExactWithinWindow(w', times[1..n], limit, ttl);
      assert Allowed(w, times[..n], limit, ttl) == seq(n, i => i < limit);
      WindowStays(w', times[1..n], ttl);
      DecidedPerWindow(HitAll(w, times[..n], ttl), times[n..], limit, ttl);
    }
  }

  lemma {:induction false} WindowStays(w: Window, times: seq<int>, ttl: int)
    requires w.Open? && forall i :: 0 <= i < |times| ==> times[i] < w.expires
    ensures HitAll(w, times, ttl) == Open(w.count + |times|, w.expires)
    decreases |times|
  {
    if times != [] {
      WindowStays(Hit(w, times[0], ttl), times[1..], ttl);
    }
  }

  // ---- What the limiter answers ----------------------------------------------------------

  /** The limiter's answers to a tenant's requests. */
  function Decisions(w: Window, times: seq<int>, limit: int, ttl: int): (r: seq<Decision>)
    ensures |r| == |times|
    decreases |times|
  {
    if times == [] then []
    else
      var w' := Hit(w, times[0], ttl);
      [Decide(w'.count, limit, WholeSeconds(w'.expires - times[0]))] + Decisions(w', times[1..], limit, ttl)
  }

  /** A request is answered as it is counted. */
  lemma {:induction false} DecisionsAreAllowed(w: Window, times: seq<int>, limit: int, ttl: int)
    ensures forall i :: 0 <= i < |times| ==>
              Decisions(w, times, limit, ttl)[i].allowed == Allowed(w, times, limit, ttl)[i]
    decreases |times|
  {
    if times != [] {
      var w' := Hit(w, times[0], ttl);
      DecisionsAreAllowed(w', times[1..], limit, ttl);
      forall i | 0 < i < |times|
        ensures Decisions(w, times, limit, ttl)[i].allowed == Allowed(w, times, limit, ttl)[i]
      {
        assert Decisions(w, times, limit, ttl)[i] == Decisions(w', times[1..], limit, ttl)[i - 1];
      }
    }
  }

  /** No window lasts longer than its lifetime from now on. */
  predicate Current(w: Window, now: int, ttl: int) {
    w.Open? ==> w.expires <= Later(now, ttl)
  }

  /** What a caller is told in an open window that `before` requests were counted in: the i-th request
      from now on is allowed exactly while the limit is not used up, what remains is what the limit
      leaves, and the window ends within its length. */
  lemma {:induction false} AnswersInWindow(w: Window, times: seq<int>, limit: int, ttl: int, i: nat)
    requires limit >= 1 && ttl >= 1 && Ordered(times) && i < |times|
    requires w.Open? && Current(w, times[0], ttl) && forall j :: 0 <= j < |times| ==> times[j] < w.expires
    ensures var answer := Decisions(w, times, limit, ttl)[i];
      && (answer.allowed <==> w.count + i < limit)
      && answer.limit == limit
      && answer.remaining == (if w.count + i + 1 < limit then limit - (w.count + i + 1) else 0)
      && 1 <= answer.resetAfterSeconds <= ttl
    decreases |times|
  {
    if i > 0 {
      var w' := Hit(w, times[0], ttl);
      assert Decisions(w, times, limit, ttl)[i] == Decisions(w', times[1..], limit, ttl)[i - 1];
      AnswersInWindow(w', times[1..], limit, ttl, i - 1);
    }
  }

  /** The i-th request of a new window, counted from zero, is allowed exactly if i < limit. */
  lemma AnswersInNewWindow(w: Window, times: seq<int>, limit: int, ttl: int, i: nat)
    requires limit >= 1 && ttl >= 1 && Ordered(times) && FillsWindow(w, times, ttl) && i < |times|
    ensures var answer := Decisions(w, times, limit, ttl)[i];
      && (answer.allowed <==> i < limit)
      && answer.limit == limit
      && answer.remaining == (if i + 1 < limit then limit - i - 1 else 0)
      && 1 <= answer.resetAfterSeconds <= ttl
  {
    if i > 0 {
      var w' := Hit(w, times[0], ttl);
      assert Decisions(w, times, limit, ttl)[i] == Decisions(w', times[1..], limit, ttl)[i - 1];
      AnswersInWindow(w', times[1..], limit, ttl, i - 1);
    }
  }

  /** A caller that makes these requests one after the other gets these answers. */
  method CheckAll(limiter: Limiter, key: string, times: seq<int>) returns (answers: seq<Decision>)
    requires limiter.limit >= 1 && limiter.window >= 1
    modifies limiter.client
    ensures answers == Decisions(WindowOf(old(limiter.client.store), key), times, limiter.limit, limiter.window)
    ensures WindowOf(limiter.client.store, key) ==
              HitAll(WindowOf(old(limiter.client.store), key), times, limiter.window)
  {
    ghost var w := WindowOf(limiter.client.store, key);
    answers := [];
    for i := 0 to |times|
      invariant HitAll(WindowOf(limiter.client.store, key), times[i..], limiter.window)
                == HitAll(w, times, limiter.window)
      invariant answers + Decisions(WindowOf(limiter.client.store, key), times[i..], limiter.limit, limiter.window)
                == Decisions(w, times, limiter.limit, limiter.window)
    {
      ghost var before := WindowOf(limiter.client.store, key);
      RequestsAreIsolated(limiter.client.store, key, key, limiter.window, times[i]);
      assert times[i..][0] == times[i] && times[i..][1..] == times[i + 1..];
      var answer := limiter.Check(key, times[i]);
      Text.Regroup(answers, [answer], Decisions(
                     WindowOf(limiter.client.store, key), times[i + 1..], limiter.limit, limiter.window));
      answers := answers + [answer];
    }
    assert times[|times|..] == [];
  }

  /** How many requests with a time in [from, until) are allowed. */
  function Through(w: Window, times: seq<int>, limit: int, ttl: int, from: int, until: int): nat
    decreases |times|
  {
    if times == [] then 0
    else
      var w' := Hit(w, times[0], ttl);
      (if from <= times[0] < until && w'.count <= limit then 1 else 0)
      + Through(w', times[1..], limit, ttl, from, until)
  }

  function Left(w: Window, limit: int): int {
    if w.Open? && w.count < limit then limit - w.count else 0
  }

  lemma {:induction false} NothingAfter(w: Window, times: seq<int>, limit: int, ttl: int, from: int, until: int)
    requires forall i :: 0 <= i < |times| ==> until <= times[i]
    ensures Through(w, times, limit, ttl, from, until) == 0
    decreases |times|
  {
    if times != [] {
      NothingAfter(Hit(w, times[0], ttl), times[1..], limit, ttl, from, until);
    }
  }

  lemma {:induction false} OneWindow(w: Window, times: seq<int>, limit: int, ttl: int, from: int, until: int)
    requires Ordered(times) && w.Open? && until <= w.expires
    ensures Through(w, times, limit, ttl, from, until) <= Left(w, limit)
    decreases |times|
  {
    if times != [] {
      if times[0] < w.expires {
        OneWindow(Hit(w, times[0], ttl), times[1..], limit, ttl, from, until);
      } else {
        NothingAfter(w, times, limit, ttl, from, until);
      }
    }
  }

  lemma {:induction false} TwoWindows(w: Window, times: seq<int>, limit: int, ttl: int, from: int, until: int)
    requires limit >= 1 && ttl >= 1
    requires Ordered(times) && w.Open? && until <= Later(w.expires, ttl)
    ensures Through(w, times, limit, ttl, from, until) <= Left(w, limit) + limit
    decreases |times|
  {
    if times != [] {
      var w' := Hit(w, times[0], ttl);
      if times[0] < w.expires {
        TwoWindows(w', times[1..], limit, ttl, from, until);
      } else {
        OneWindow(w', times[1..], limit, ttl, from, until);
      }
    }
  }

  /** In any half-open interval as long as the window at most 2 * limit - 1 requests get
      through, for every trace: the second window can open in the interval only if the first
      was opened before it. */
  lemma {:induction false} IntervalBound(w: Window, times: seq<int>, limit: int, ttl: int, from: int)
    requires limit >= 1 && ttl >= 1 && Ordered(times) && (w.Open? ==> w.count >= 1)
    ensures Through(w, times, limit, ttl, from, Later(from, ttl)) <= 2 * limit - 1
    decreases |times|
  {
    if times != [] {
      var w' := Hit(w, times[0], ttl);
      if times[0] < from {
        IntervalBound(w', times[1..], limit, ttl, from);
      } else if w.Open? && times[0] < w.expires {
        TwoWindows(w, times, limit, ttl, from, Later(from, ttl));
      } else {
        OneWindow(w', times[1..], limit, ttl, from, Later(from, ttl));
      }
    }
  }

  /** The bound is reached, for every limit and window. */
  lemma IntervalBoundIsTight(limit: int, ttl: int) returns (times: seq<int>)
    requires limit >= 1 && ttl >= 1
    ensures Ordered(times) && Through(Idle, times, limit, ttl, 1, Later(1, ttl)) == 2 * limit - 1
  {
    var width := Later(0, ttl);
    var late, early := seq(limit, _ => width), seq(limit - 1, _ => width - 1);
    times := [0] + (early + late);
    assert times[1..] == early + late;
    Repeated(Open(1, width), width - 1, limit - 1, late, limit, ttl, 1, width + 1);
    var w := Open(limit, width);
    assert late[1..] == seq(limit - 1, _ => width);
    Repeated(Open(1, Later(width, ttl)), width, limit - 1, [], limit, ttl, 1, width + 1);
    assert seq(limit - 1, _ => width) + [] == late[1..];
    assert Through(w, late, limit, ttl, 1, width + 1) == limit;
    assert Through(Idle, times, limit, ttl, 1, Later(1, ttl)) == 2 * limit - 1;
  }

  /** `n` requests at one instant inside a window with room for them, followed by `rest`. */
  lemma {:induction false} Repeated(
    w: Window, t: int, n: nat, rest: seq<int>, limit: int, ttl: int, from: int, until: int)
    requires w.Open? && t < w.expires && from <= t < until && w.count + n <= limit
    ensures Through(w, seq(n, _ => t) + rest, limit, ttl, from, until)
            == n + Through(Open(w.count + n, w.expires), rest, limit, ttl, from, until)
    decreases n
  {
    var times := seq(n, _ => t) + rest;
    if n == 0 {
      assert times == rest;
    } else {
      assert times[1..] == seq(n - 1, _ => t) + rest;
      Repeated(Hit(w, t, ttl), t, n - 1, rest, limit, ttl, from, until);
    }
  }
}
