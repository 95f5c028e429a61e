/** What a worker that nobody disturbs achieves: from every reachable state a recoverable run can be
    brought to any of its ends, however long the work takes, if the heartbeats come in time. */
module DurableProgress {
  import opened Evidence
  import opened Text
  import opened Database
  import opened DurableJobs
  import opened DurableSafety
  import opened DurableExclusion
  import opened Histories
  import Reports

  /** The task is in the workflow of a running run, its heartbeat runs, and the lease row is its own. */
  predicate Works(s: State, t: nat) {
    && t in s.tasks && s.tasks[t].phase.Working? && s.tasks[t].beating && s.tasks[t].held.Some?
    && InStatus(s.db, s.tasks[t].key, {Running})
    && s.tasks[t].key in s.db.leases && s.db.leases[s.tasks[t].key].token == s.tasks[t].held.value.token
    && s.now < s.db.leases[s.tasks[t].key].expiresAt
  }

  /** Each heartbeat comes before the lease that the one before it left expires. */
  predicate InTime(beats: seq<int>, from: int, ttl: int) {
    beats == [] || (from <= beats[0] < from + ttl * 1_000_000 && InTime(beats[1..], beats[0], ttl))
  }

  function BeatSteps(t: nat, beats: seq<int>): seq<Step> {
    if beats == [] then [] else [Tick(beats[0]), Act(t, Heartbeat)] + BeatSteps(t, beats[1..])
  }

  function LastBeat(beats: seq<int>, from: int): int {
    if beats == [] then from else beats[|beats| - 1]
  }

  // ---- One state at a time ---------------------------------------------------------------

  /** The lease row of the task's run is the task's. */
  predicate HoldsRow(s: State, t: nat) {
    && t in s.tasks && s.tasks[t].held.Some? && s.tasks[t].key in s.db.leases
    && s.db.leases[s.tasks[t].key].token == s.tasks[t].held.value.token
    && s.db.leases[s.tasks[t].key].worker == Strip(s.tasks[t].worker)
  }

  lemma ClaimIsGranted(s: State, t: nat, token: nat)
    requires t in s.tasks && s.tasks[t].phase.Claiming? && ValidTtl(s.tasks[t].ttl) && Strip(s.tasks[t].worker) != ""
    requires Recoverable(s.db, s.tasks[t].key, s.now)
    ensures var s', key := AfterAction(s, t, ClaimLease(token)), s.tasks[t].key;
      && s'.tasks == s.tasks[t := s.tasks[t].(phase := Announcing, held := Some(Held(token, s.now)))]
      && s'.db.runs == s.db.runs && s'.now == s.now && HoldsRow(s', t)
      && s'.db.leases[key].expiresAt == Expiry(s.now, s.tasks[t].ttl)
  {
  }

  lemma RunIsEntered(s: State, t: nat)
    requires HoldsRow(s, t) && s.tasks[t].phase.Announcing? && s.now < s.db.leases[s.tasks[t].key].expiresAt
    requires InStatus(s.db, s.tasks[t].key, ACTIVE)
    requires s.tasks[t].resume <==> s.db.runs[s.tasks[t].key].status == Running
    ensures var s' := AfterAction(AfterAction(s, t, Announce), t, Enter);
      Works(s', t) && s'.now == s.now && s'.tasks == s.tasks[t := s.tasks[t].(phase := Working, beating := true)]
  {
  }

  /** Giving the lease back changes nothing else in the database. */
  lemma LeaseIsGivenBack(s: State, t: nat)
    requires HoldsRow(s, t) && (s.tasks[t].phase.Returned? || s.tasks[t].phase.Interrupted?)
    ensures var s' := AfterAction(AfterAction(s, t, Wrap), t, Release);
      && s'.db == s.db.(leases := s.db.leases - {s.tasks[t].key}) && s'.now == s.now
      && s'.tasks == s.tasks[t := s.tasks[t].(phase := Done)]
      && s'.finals == s.finals && s'.returned == s.returned
  {
  }

  lemma ResultIsCommitted(s: State, t: nat, result: FinalState)
    requires Works(s, t) && HoldsRow(s, t) && Completes(s.db, s.tasks[t].key, result)
    ensures var s' := AfterAction(AfterAction(AfterAction(s, t, WorkEnds(result)), t, Complete), t, Return);
      && s'.db == AfterCompleted(s.db, s.tasks[t].key, s.now, result) && s'.db.leases == s.db.leases
      && s'.now == s.now && s'.tasks == s.tasks[t := s.tasks[t].(phase := Returned)] && HoldsRow(s', t)
      && s'.finals == s.finals[s.tasks[t].key := result] && s'.returned == s.returned + {t}
  {
  }

  lemma FailureIsRecorded(s: State, t: nat, message: string)
    requires Works(s, t) && HoldsRow(s, t)
    ensures var s' := AfterAction(AfterAction(s, t, Raise), t, Fail(message));
      && s'.db == AfterFailed(s.db, s.tasks[t].key, s.now, message) && s'.db.leases == s.db.leases
      && s'.now == s.now && s'.tasks == s.tasks[t := s.tasks[t].(phase := Interrupted)] && HoldsRow(s', t)
      && s'.finals == s.finals && s'.returned == s.returned
  {
  }

  lemma CancellationIsDelivered(s: State, t: nat)
    requires Works(s, t) && HoldsRow(s, t)
    ensures var s' := AfterAction(Apply(s, CancelRun(s.tasks[t].key)), t, Interrupt);
      && s'.db == AfterCancelled(s.db, s.tasks[t].key, s.now) && s'.db.leases == s.db.leases
      && s'.now == s.now && s'.tasks == s.tasks[t := s.tasks[t].(phase := Interrupted)] && HoldsRow(s', t)
      && s'.finals == s.finals && s'.returned == s.returned
  {
  }

  lemma BeatIsAccepted(s: State, t: nat, at: int)
    requires Works(s, t) && HoldsRow(s, t) && ValidTtl(s.tasks[t].ttl)
    requires s.now <= at < s.db.leases[s.tasks[t].key].expiresAt
    ensures var s', key := AfterAction(s.(now := at), t, Heartbeat), s.tasks[t].key;
      && s'.now == at && s'.db.runs == s.db.runs && HoldsRow(s', t)
      && s'.tasks == s.tasks[t := s.tasks[t].(held := Some(s.tasks[t].held.value.(since := at)))]
      && s'.db.leases[key].expiresAt == Expiry(at, s.tasks[t].ttl)
  {
  }

  // ---- Along histories -------------------------------------------------------------------

  lemma WorkerHoldsRow(h: Trace, t: nat)
    requires Possible(h) && Works(Last(h), t)
    ensures HoldsRow(Last(h), t) && ValidTtl(Last(h).tasks[t].ttl)
    ensures Last(h).db.leases[Last(h).tasks[t].key].expiresAt ==
            Expiry(Last(h).tasks[t].held.value.since, Last(h).tasks[t].ttl)
    ensures Last(h).tasks[t].key !in Last(h).db.reports
  {
    Reachable(h, |h.states| - 1);
    assert OwnRow(Last(h), t) && TaskOk(Last(h), t) && ReportOk(Last(h), Last(h).tasks[t].key);
  }

  /** A worker goes from a recoverable run into its workflow, with a lease for its whole lifetime. */
  lemma WorkerGetsToWork(h: Trace, key: RunKey, ttl: int) returns (longer: Trace, t: nat)
    requires Possible(h) && ValidTtl(ttl) && Recoverable(Last(h).db, key, Last(h).now)
    ensures Possible(longer) && Continues(longer, h) && Last(longer).now == Last(h).now
    ensures t !in Last(h).tasks && Works(Last(longer), t)
    ensures Last(longer).tasks[t].key == key && Last(longer).tasks[t].ttl == ttl
    ensures Last(longer).tasks[t].held.value.since == Last(h).now
    ensures Last(longer).tasks == Last(h).tasks[t := Last(longer).tasks[t]]
  {
    StripFixesStripped("w");
    longer, t := WorkerStarts(h, key, ttl);
    longer := StartedWorkerGetsToWork(longer, t);
  }

  lemma StartedWorkerGetsToWork(h: Trace, t: nat) returns (longer: Trace)
    requires Possible(h) && t in Last(h).tasks && Last(h).tasks[t].phase.Claiming?
    requires ValidTtl(Last(h).tasks[t].ttl) && Strip(Last(h).tasks[t].worker) != ""
    requires Recoverable(Last(h).db, Last(h).tasks[t].key, Last(h).now)
    requires Last(h).tasks[t].resume <==> Last(h).db.runs[Last(h).tasks[t].key].status == Running
    ensures Possible(longer) && Continues(longer, h) && Last(longer).now == Last(h).now
    ensures Works(Last(longer), t) && Last(longer).tasks[t].held.value.since == Last(h).now
    ensures Last(longer).tasks == Last(h).tasks[t := Last(longer).tasks[t]]
    ensures Last(longer).tasks[t].key == Last(h).tasks[t].key && Last(longer).tasks[t].ttl == Last(h).tasks[t].ttl
  {
    var token := Bound(Last(h).spans.Keys);
    ClaimIsGranted(Last(h), t, token);
    longer := ExtendHistory(h, Act(t, ClaimLease(token)));
    RunIsEntered(Last(longer), t);
    longer := ExtendHistory(longer, Act(t, Announce));
    longer := ExtendHistory(longer, Act(t, Enter));
  }

  /** A heartbeat in time is accepted and leaves the lease a whole lifetime from then on. */
  lemma WorkerBeats(h: Trace, t: nat, at: int) returns (longer: Trace)
    requires Possible(h) && Works(Last(h), t)
    requires Last(h).tasks[t].held.value.since == Last(h).now
    requires Last(h).now <= at < Last(h).now + Last(h).tasks[t].ttl * 1_000_000
    ensures Possible(longer) && Continues(longer, h) && longer.steps == h.steps + BeatSteps(t, [at])
    ensures Works(Last(longer), t) && Last(longer).now == at && Last(longer).tasks[t].held.value.since == at
    ensures Last(longer).tasks == Last(h).tasks[t := Last(longer).tasks[t]]
    ensures Last(longer).tasks[t].key == Last(h).tasks[t].key && Last(longer).tasks[t].ttl == Last(h).tasks[t].ttl
    ensures Last(longer).db.runs == Last(h).db.runs
  {
    WorkerHoldsRow(h, t);
    BeatIsAccepted(Last(h), t, at);
    assert BeatSteps(t, [at]) == [Tick(at), Act(t, Heartbeat)] + BeatSteps(t, []);
    longer := ExtendHistory(h, Tick(at));
    longer := ExtendHistory(longer, Act(t, Heartbeat));
  }

  lemma StepsOfBeats(before: seq<Step>, t: nat, beats: seq<int>)
    ensures before + BeatSteps(t, beats) ==
            if beats == [] then before else before + BeatSteps(t, [beats[0]]) + BeatSteps(t, beats[1..])
  {
    if beats != [] {
      assert BeatSteps(t, [beats[0]]) == [Tick(beats[0]), Act(t, Heartbeat)] + BeatSteps(t, []);
    }
  }

  /** However many heartbeats follow, the worker keeps its lease and its place. */
  lemma {:induction false} WorkerKeepsBeating(h: Trace, t: nat, beats: seq<int>) returns (longer: Trace)
    requires Possible(h) && Works(Last(h), t)
    requires Last(h).tasks[t].held.value.since == Last(h).now
    requires InTime(beats, Last(h).now, Last(h).tasks[t].ttl)
    ensures Possible(longer) && Continues(longer, h) && longer.steps == h.steps + BeatSteps(t, beats)
    ensures Works(Last(longer), t) && Last(longer).now == LastBeat(beats, Last(h).now)
    ensures Last(longer).tasks == Last(h).tasks[t := Last(longer).tasks[t]]
    ensures Last(longer).tasks[t].key == Last(h).tasks[t].key && Last(longer).db.runs == Last(h).db.runs
    decreases |beats|
  {
    longer := h;
    if beats != [] {
      var next := WorkerBeats(h, t, beats[0]);
      longer := WorkerKeepsBeating(next, t, beats[1..]);
    }
    StepsOfBeats(h.steps, t, beats);
  }

  lemma WorkerLeaves(h: Trace, t: nat) returns (longer: Trace)
    requires Possible(h) && HoldsRow(Last(h), t)
    requires Last(h).tasks[t].phase.Returned? || Last(h).tasks[t].phase.Interrupted?
    ensures Possible(longer) && Continues(longer, h) && Last(longer).now == Last(h).now
    ensures Last(longer).db == Last(h).db.(leases := Last(h).db.leases - {Last(h).tasks[t].key})
    ensures Last(longer).tasks == Last(h).tasks[t := Last(h).tasks[t].(phase := Done)]
    ensures Last(longer).finals == Last(h).finals && Last(longer).returned == Last(h).returned
  {
    LeaseIsGivenBack(Last(h), t);
    longer := ExtendHistory(h, Act(t, Wrap));
    longer := ExtendHistory(longer, Act(t, Release));
  }

  /** The last steps of a worker: the result is committed and returned, and the lease given back. */
  lemma WorkerFinishes(h: Trace, t: nat, result: FinalState) returns (longer: Trace)
    requires Possible(h) && Works(Last(h), t) && !Reports.Create(result).Rejected?
    ensures Possible(longer) && Continues(longer, h) && Last(longer).now == Last(h).now
    ensures var key := Last(h).tasks[t].key;
      && InStatus(Last(longer).db, key, {Completed}) && Last(longer).db.runs[key].completedAt == Some(Last(h).now)
      && Last(longer).finals == Last(h).finals[key := result]
      && (Reports.Create(result).Stored? <==> key in Last(longer).db.reports)
      && (key in Last(longer).db.reports ==> Last(longer).db.reports[key] == Reports.Create(result).row)
      && key !in Last(longer).db.leases
    ensures Last(longer).returned == Last(h).returned + {t}
    ensures Last(longer).tasks.Keys == Last(h).tasks.Keys && Last(longer).tasks[t].phase.Done?
  {
    WorkerHoldsRow(h, t);
    ResultIsCommitted(Last(h), t, result);
    longer := ExtendHistory(h, Act(t, WorkEnds(result)));
    longer := ExtendHistory(longer, Act(t, Complete));
    longer := ExtendHistory(longer, Act(t, Return));
    longer := WorkerLeaves(longer, t);
  }

  /** Whatever happened before, a recoverable run can be completed with any storable result by one worker
      that works for as long as it likes while its heartbeats come in time. */
  lemma UndisturbedWorkerCompletes(h: Trace, key: RunKey, ttl: int, beats: seq<int>, result: FinalState)
    returns (longer: Trace, t: nat)
    requires Possible(h) && ValidTtl(ttl) && Recoverable(Last(h).db, key, Last(h).now)
    requires InTime(beats, Last(h).now, ttl) && !Reports.Create(result).Rejected?
    ensures Possible(longer) && Continues(longer, h) && Last(longer).now == LastBeat(beats, Last(h).now)
    ensures InStatus(Last(longer).db, key, {Completed}) && key !in Last(longer).db.leases
    ensures Last(longer).db.runs[key].completedAt == Some(LastBeat(beats, Last(h).now))
    ensures key in Last(longer).finals && Last(longer).finals[key] == result
    ensures Reports.Create(result).Stored? <==> key in Last(longer).db.reports
    ensures t !in Last(h).tasks && t in Last(longer).returned
  {
    longer, t := WorkerGetsToWork(h, key, ttl);
    longer := WorkerKeepsBeating(longer, t, beats);
    longer := WorkerFinishes(longer, t, result);
  }

  /** A worker whose workflow raises ends its run as failed if the message can be stored; otherwise the run
      is recoverable at once, because the lease is given back in either case. */
  lemma FailingWorkerLeaves(h: Trace, t: nat, message: string) returns (longer: Trace)
    requires Possible(h) && Works(Last(h), t)
    ensures Possible(longer) && Continues(longer, h) && Last(longer).now == Last(h).now
    ensures var key, text := Last(h).tasks[t].key, Strip(message);
      && key in Last(longer).db.runs && key !in Last(longer).db.leases
      && (if 1 <= |text| <= 4000 then
            && Last(longer).db.runs[key].status == Failed && Last(longer).db.runs[key].error == Some(text)
            && Last(longer).db.runs[key].completedAt == Some(Last(h).now)
          else Last(longer).db.runs[key] == Last(h).db.runs[key] && Recoverable(Last(longer).db, key, Last(h).now))
    ensures Last(longer).returned == Last(h).returned && Last(longer).finals == Last(h).finals
  {
    WorkerHoldsRow(h, t);
    FailureIsRecorded(Last(h), t, message);
    longer := ExtendHistory(h, Act(t, Raise));
    longer := ExtendHistory(longer, Act(t, Fail(message)));
    longer := WorkerLeaves(longer, t);
  }

  /** A run can be cancelled under its worker, which is interrupted and gives the lease back. */
  lemma CancelledWorkerLeaves(h: Trace, t: nat) returns (longer: Trace)
    requires Possible(h) && Works(Last(h), t)
    ensures Possible(longer) && Continues(longer, h) && Last(longer).now == Last(h).now
    ensures var key := Last(h).tasks[t].key;
      && key in Last(longer).db.runs && key !in Last(longer).db.leases
      && Last(longer).db.runs[key].status == Cancelled && Last(longer).db.runs[key].error == None
      && Last(longer).db.runs[key].completedAt == Some(Last(h).now)
    ensures Last(longer).returned == Last(h).returned && Last(longer).finals == Last(h).finals
  {
    WorkerHoldsRow(h, t);
    CancellationIsDelivered(Last(h), t);
    longer := ExtendHistory(h, CancelRun(Last(h).tasks[t].key));
    longer := ExtendHistory(longer, Act(t, Interrupt));
    longer := WorkerLeaves(longer, t);
  }
}
