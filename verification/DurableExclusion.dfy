/** When two tasks can be inside one run: exactly when a lease ends under its executor, or when a
    direct call, which takes no lease, is in the run. */
module DurableExclusion {
  import opened Evidence
  import opened Text
  import opened Database
  import opened Leases
  import opened DurableJobs
  import opened DurableSafety
  import opened Histories

  /** The task is executing a run that has not ended. */
  predicate Executing(s: State, t: nat) {
    && t in s.tasks && Owning(s.tasks[t])
    && s.tasks[t].key in s.db.runs && Active(s.db.runs[s.tasks[t].key].status)
  }

  predicate Leased(s: State, t: nat) {
    Executing(s, t) && s.tasks[t].held.Some?
  }

  /** A direct call is inside the run. */
  ghost predicate DirectlyExecuted(s: State, key: RunKey) {
    exists t :: ExecutesDirectly(s, t, key)
  }

  predicate ExecutesDirectly(s: State, t: nat, key: RunKey) {
    Executing(s, t) && s.tasks[t].held.None? && s.tasks[t].key == key
  }

  predicate Share(s: State, t: nat, u: nat) {
    t != u && Executing(s, t) && Executing(s, u) && s.tasks[t].key == s.tasks[u].key
  }

  ghost predicate SharesRun(s: State, t: nat) {
    exists u :: Share(s, t, u)
  }

  /** Some other task was inside the same run as `t`. */
  ghost predicate EverShares(h: Trace, t: nat) {
    exists i :: 0 <= i < |h.states| && SharesRun(h.states[i], t)
  }

  ghost predicate EverShared(h: Trace, key: RunKey) {
    exists i, t :: 0 <= i < |h.states| && SharedBy(h.states[i], t, key)
  }

  ghost predicate SharedBy(s: State, t: nat, key: RunKey) {
    SharesRun(s, t) && s.tasks[t].key == key
  }

  // ---- Who starts executing --------------------------------------------------------------

  predicate Starts(s: State, step: Step, t: nat) {
    || (step.ExecuteDirectly? && step.id == t && step.key !in s.db.runs)
    || (&& step.Act? && step.task == t && step.action.ClaimLease? && t in s.tasks
        && ClaimOutcome(s.db, s.tasks[t].key, s.tasks[t].worker, s.tasks[t].ttl, s.now, step.action.token).Granted?)
  }

  lemma ExecutingBefore(s: State, step: Step, t: nat)
    requires Enabled(s, step) && Executing(Apply(s, step), t)
    requires t in s.tasks ==> TaskOk(s, t)
    ensures Executing(s, t) || Starts(s, step, t)
    ensures Starts(s, step, t) || s.tasks[t].key == Apply(s, step).tasks[t].key
  {
    if t in s.tasks {
      StepGrowsRun(s, step, s.tasks[t].key);
      if step.Act? && step.task == t {
        OwningBefore(s, s.tasks[t], step.action);
      }
    }
  }

  /** Only a granted claim takes a task into a run. */
  lemma OwningBefore(s: State, task: Task, action: Action)
    requires CanAct(s.spans, task, action) && Owning(TaskAfter(s.db, s.now, task, action))
    ensures TaskAfter(s.db, s.now, task, action).key == task.key
    ensures || Owning(task)
            || (action.ClaimLease?
                && ClaimOutcome(s.db, task.key, task.worker, task.ttl, s.now, action.token).Granted?)
  {
  }

  // ---- Whose row it is -------------------------------------------------------------------

  /** An executing task's run has no other task's lease row. */
  predicate RowIsOwn(s: State, t: nat) {
    Executing(s, t) && s.tasks[t].key in s.db.leases ==>
      s.tasks[t].held.Some? && s.db.leases[s.tasks[t].key].token == s.tasks[t].held.value.token
  }

  lemma OthersTakeNoRow(s: State, other: Task, action: Action, key: RunKey)
    requires CanAct(s.spans, other, action)
    requires !(action.ClaimLease? && other.key == key)
    ensures var leases := DbAfter(s.db, s.now, other, action).leases;
      key in leases ==> key in s.db.leases && leases[key].token == s.db.leases[key].token
  {
  }

  lemma RefusedTakesNoRow(s: State, other: Task, token: nat)
    requires !ClaimOutcome(s.db, other.key, other.worker, other.ttl, s.now, token).Granted?
    ensures DbAfter(s.db, s.now, other, ClaimLease(token)) == s.db
  {
  }

  lemma StartedOwnsRow(s: State, step: Step, t: nat)
    requires Inv(s) && Enabled(s, step) && Starts(s, step, t)
    ensures RowIsOwn(Apply(s, step), t)
  {
    assert step.ExecuteDirectly? && step.key in s.db.leases ==> RowOk(s.db, s.spans, s.now, step.key);
  }

  lemma StepKeepsRowOwn(s: State, step: Step, t: nat)
    requires Inv(s) && Enabled(s, step) && RowIsOwn(s, t)
    ensures RowIsOwn(Apply(s, step), t) || SharesRun(Apply(s, step), t)
  {
    var s' := Apply(s, step);
    if Executing(s', t) {
      assert t in s.tasks ==> TaskOk(s, t);
      ExecutingBefore(s, step, t);
      if Starts(s, step, t) {
        StartedOwnsRow(s, step, t);
      } else if step.Act? {
        ActionKeepsRowOwn(s, step.task, step.action, t);
      }
    }
  }

  lemma ActionKeepsRowOwn(s: State, u: nat, action: Action, t: nat)
    requires u in s.tasks && CanAct(s.spans, s.tasks[u], action) && !Starts(s, Act(u, action), t)
    requires Executing(s, t) && RowIsOwn(s, t) && Executing(AfterAction(s, u, action), t)
    ensures RowIsOwn(AfterAction(s, u, action), t) || SharesRun(AfterAction(s, u, action), t)
  {
    ActionKeepsHeld(s, s.tasks[u], action);
    if action.ClaimLease? && s.tasks[u].key == s.tasks[t].key {
      if Starts(s, Act(u, action), u) {
        assert Share(AfterAction(s, u, action), t, u);
      } else {
        RefusedTakesNoRow(s, s.tasks[u], action.token);
      }
    } else {
      OthersTakeNoRow(s, s.tasks[u], action, s.tasks[t].key);
    }
  }

  /** In every history: the row of an executing task's run is its own, or the run was shared. */
  lemma {:induction false} LoneRow(h: Trace, i: nat, t: nat)
    requires Possible(h) && i < |h.states|
    ensures RowIsOwn(h.states[i], t) || EverShares(h, t)
  {
    if i > 0 {
      LoneRow(h, i - 1, t);
      if RowIsOwn(h.states[i - 1], t) {
        Reachable(h, i - 1);
        HistoryStep(h, i - 1);
        StepKeepsRowOwn(h.states[i - 1], h.steps[i - 1], t);
      }
    }
  }

  // ---- Punctual workers ------------------------------------------------------------------

  /** Every manager's heartbeat interval (delays included) is below its lease lifetime, and the
      clock never gets further than that interval past a worker's last grant or renewal while
      the worker executes. */
  ghost predicate Punctual(h: Trace, interval: int)
    requires |h.states| == |h.steps| + 1
  {
    forall i :: 0 <= i < |h.steps| ==> PunctualStep(h.states[i], h.steps[i], interval)
  }

  ghost predicate PunctualStep(s: State, step: Step, interval: int) {
    match step
    case Spawn(_, _, _, ttl, _) => interval < ttl * 1_000_000
    case Tick(to) => forall t :: Leased(s, t) ==> to <= s.tasks[t].held.value.since + interval
    case _ => true
  }

  /** A worker that executes holds the live lease. */
  predicate HoldsRow(s: State, t: nat) {
    Leased(s, t) ==> Live(s.db, s.tasks[t].key, s.tasks[t].held.value.token, s.now)
  }

  /** No task was spawned with too short a lease. */
  predicate Paced(s: State, t: nat, interval: int) {
    t in s.tasks && (s.tasks[t].phase.Claiming? || s.tasks[t].held.Some?) ==> interval < s.tasks[t].ttl * 1_000_000
  }

  lemma TickKeepsRow(s: State, to: int, t: nat, interval: int)
    requires s.now <= to && PunctualStep(s, Tick(to), interval)
    requires HoldsRow(s, t) && Paced(s, t, interval) && (t in s.tasks ==> OwnRow(s, t))
    ensures HoldsRow(s.(now := to), t)
  {
    var s' := s.(now := to);
    if Leased(s', t) {
      assert Leased(s, t);
    }
  }

  /** Another task's action leaves an executing worker's live row alone. */
  lemma OthersKeepLease(s: State, other: Task, action: Action, key: RunKey, token: nat)
    requires Live(s.db, key, token, s.now)
    requires other.held.Some? ==> other.held.value.token != token
    ensures key in DbAfter(s.db, s.now, other, action).leases
    ensures DbAfter(s.db, s.now, other, action).leases[key] == s.db.leases[key]
  {
  }

  lemma OthersKeepHolding(s: State, u: nat, action: Action, t: nat)
    requires u in s.tasks && CanAct(s.spans, s.tasks[u], action) && t != u
    requires HoldsRow(s, t) && OwnTokens(s, t, u)
    ensures HoldsRow(AfterAction(s, u, action), t)
  {
    if t in s.tasks {
      var task := s.tasks[t];
      ActionGrowsRun(s, s.tasks[u], action, task.key);
      if Leased(s, t) {
        OthersKeepLease(s, s.tasks[u], action, task.key, task.held.value.token);
      }
    }
  }

  /** A worker's own action keeps its row while it goes on executing. */
  lemma OwnActionKeepsHolding(s: State, t: nat, action: Action)
    requires t in s.tasks && CanAct(s.spans, s.tasks[t], action)
    requires s.tasks[t].key in s.db.runs && HoldsRow(s, t)
    ensures HoldsRow(AfterAction(s, t, action), t)
  {
    ActionGrowsRun(s, s.tasks[t], action, s.tasks[t].key);
    if action.ClaimLease? || action.Heartbeat? || action.Release? {
      OwnLeaseActionKeepsHolding(s, t, action);
    } else {
      OtherActionsKeepLeases(s.db, s.now, s.tasks[t], action);
    }
  }

  lemma OwnLeaseActionKeepsHolding(s: State, t: nat, action: Action)
    requires t in s.tasks && CanAct(s.spans, s.tasks[t], action)
    requires action.ClaimLease? || action.Heartbeat? || action.Release?
    requires s.tasks[t].key in s.db.runs && HoldsRow(s, t)
    ensures HoldsRow(AfterAction(s, t, action), t)
  {
  }

  lemma StepKeepsHolding(s: State, step: Step, t: nat, interval: int)
    requires Inv(s) && Enabled(s, step) && PunctualStep(s, step, interval)
    requires HoldsRow(s, t) && Paced(s, t, interval)
    ensures HoldsRow(Apply(s, step), t) && Paced(Apply(s, step), t, interval)
  {
    if t in s.tasks {
      assert TaskOk(s, t) && OwnRow(s, t);
      StepGrowsRun(s, step, s.tasks[t].key);
    }
    match step
    case Tick(to) => TickKeepsRow(s, to, t, interval);
    case Act(u, action) =>
      ActionKeepsHeld(s, s.tasks[u], action);
      if u == t {
        OwnActionKeepsHolding(s, t, action);
      } else {
        assert OwnTokens(s, t, u);
        OthersKeepHolding(s, u, action, t);
      }
    case _ =>
  }

  lemma {:induction false} LeasedHoldsRow(h: Trace, i: nat, t: nat, interval: int)
    requires Possible(h) && Punctual(h, interval) && i < |h.states|
    ensures HoldsRow(h.states[i], t) && Paced(h.states[i], t, interval)
  {
    if i > 0 {
      LeasedHoldsRow(h, i - 1, t, interval);
      Reachable(h, i - 1);
      HistoryStep(h, i - 1);
      assert PunctualStep(h.states[i - 1], h.steps[i - 1], interval);
      StepKeepsHolding(h.states[i - 1], h.steps[i - 1], t, interval);
    }
  }

  /** When every worker renews in time, a run that has not ended is executed by one worker and one
      direct call at most. */
  lemma AtMostOneExecutes(h: Trace, i: nat, t: nat, u: nat, interval: int)
    requires Possible(h) && Punctual(h, interval) && i < |h.states|
    requires Share(h.states[i], t, u)
    ensures Leased(h.states[i], t) <==> !Leased(h.states[i], u)
  {
    LeasedHoldsRow(h, i, t, interval);
    LeasedHoldsRow(h, i, u, interval);
    Reachable(h, i);
    assert OwnTokens(h.states[i], t, u) && OneDirect(h.states[i], t, u);
    assert TaskOk(h.states[i], t) && TaskOk(h.states[i], u);
  }

  /** And a heartbeat of such a worker is never refused, so it is never interrupted for a lost lease. */
  lemma HeartbeatsLand(h: Trace, i: nat, t: nat, interval: int)
    requires Possible(h) && Punctual(h, interval) && i < |h.states|
    requires Leased(h.states[i], t)
    ensures HeartbeatLands(h.states[i].db, h.states[i].now, h.states[i].tasks[t])
  {
    Reachable(h, i);
    assert TaskOk(h.states[i], t) && OwnRow(h.states[i], t);
    LeasedHoldsRow(h, i, t, interval);
  }

  // ---- A direct call ---------------------------------------------------------------------

  lemma StepStartsNoDirectCall(s: State, step: Step, t: nat, key: RunKey)
    requires Inv(s) && Enabled(s, step) && key in s.db.runs && ExecutesDirectly(Apply(s, step), t, key)
    ensures ExecutesDirectly(s, t, key)
  {
    assert t in s.tasks ==> TaskOk(s, t);
    ExecutingBefore(s, step, t);
    if step.Act? && step.task == t {
      ActionKeepsHeld(s, s.tasks[t], step.action);
    }
  }

  /** A direct call inside a run was already inside it when the run was queued. */
  lemma {:induction false} DirectCallWasThere(h: Trace, i: nat, j: nat, t: nat, key: RunKey)
    requires Possible(h) && i <= j < |h.states|
    requires key in h.states[i].db.runs && ExecutesDirectly(h.states[j], t, key)
    ensures ExecutesDirectly(h.states[i], t, key)
    decreases j - i
  {
    if i < j {
      Reachable(h, j - 1);
      EndedForever(h, i, j - 1, key);
      HistoryStep(h, j - 1);
      StepStartsNoDirectCall(h.states[j - 1], h.steps[j - 1], t, key);
      DirectCallWasThere(h, i, j - 1, t, key);
    }
  }

  // ---- Taking over -----------------------------------------------------------------------

  /** A worker is started for a run as `start` does it. */
  lemma WorkerStarts(h: Trace, key: RunKey, ttl: int) returns (longer: Trace, u: nat)
    requires Possible(h) && key in Last(h).db.runs
    ensures Possible(longer) && Continues(longer, h) && u !in Last(h).tasks
    ensures var resume := Last(h).db.runs[key].status == Running;
      && longer.steps == h.steps + [Spawn(u, key, "w", ttl, resume)]
      && Last(longer) ==
         Last(h).(tasks := Last(h).tasks[u := Task(key, "w", ttl, resume, Claiming, None, false)])
  {
    u := Bound(Last(h).tasks.Keys);
    longer := ExtendHistory(h, Spawn(u, key, "w", ttl, Last(h).db.runs[key].status == Running));
  }

  /** And claims the run, which is recoverable. */
  lemma WorkerClaims(h: Trace, u: nat) returns (longer: Trace, token: nat)
    requires Possible(h) && u in Last(h).tasks && Last(h).tasks[u].phase.Claiming?
    requires ValidTtl(Last(h).tasks[u].ttl) && Strip(Last(h).tasks[u].worker) != ""
    requires Recoverable(Last(h).db, Last(h).tasks[u].key, Last(h).now)
    ensures Possible(longer) && Continues(longer, h) && longer.steps == h.steps + [Act(u, ClaimLease(token))]
    ensures Last(longer).now == Last(h).now && Last(longer).db.runs == Last(h).db.runs
    ensures Last(longer).tasks ==
              Last(h).tasks[u := Last(h).tasks[u].(phase := Announcing, held := Some(Held(token, Last(h).now)))]
  {
    token := Bound(Last(h).spans.Keys);
    longer := ExtendHistory(h, Act(u, ClaimLease(token)));
  }

  /** A worker that holds its claim on an active run gets into the workflow. */
  lemma WorkerEnters(h: Trace, u: nat) returns (longer: Trace)
    requires Possible(h) && Leased(Last(h), u) && Last(h).tasks[u].phase.Announcing?
    requires Last(h).tasks[u].resume <==> Last(h).db.runs[Last(h).tasks[u].key].status == Running
    ensures Possible(longer) && Continues(longer, h) && Last(longer).now == Last(h).now
    ensures u in Last(longer).tasks && Last(longer).tasks == Last(h).tasks[u := Last(longer).tasks[u]]
    ensures Leased(Last(longer), u) && Last(longer).tasks[u].phase.Working?
    ensures Last(longer).tasks[u].key == Last(h).tasks[u].key
    ensures longer.steps == h.steps + [Act(u, Announce), Act(u, Enter)]
  {
    longer := ExtendHistory(h, Act(u, Announce));
    longer := ExtendHistory(longer, Act(u, Enter));
  }

  /** Whenever the run of an executing task is recoverable, a worker can claim the run and get into the
      workflow while that task is where it was. */
  lemma TakeOver(h: Trace, t: nat, ttl: int) returns (longer: Trace, u: nat)
    requires Possible(h) && Executing(Last(h), t) && ValidTtl(ttl)
    requires Recoverable(Last(h).db, Last(h).tasks[t].key, Last(h).now)
    ensures Possible(longer) && Continues(longer, h) && Last(longer).now == Last(h).now
    ensures Share(Last(longer), t, u) && Last(longer).tasks[t] == Last(h).tasks[t]
    ensures Last(longer).tasks[u].phase.Working? && u !in Last(h).tasks
    ensures forall interval :: Punctual(h, interval) && interval < ttl * 1_000_000 ==> Punctual(longer, interval)
  {
    var token;
    StripFixesStripped("w");
    longer, u := WorkerStarts(h, Last(h).tasks[t].key, ttl);
    longer, token := WorkerClaims(longer, u);
    longer := WorkerEnters(longer, u);
  }

  // ---- Without punctuality ---------------------------------------------------------------

  /** The lease row of the task's run is the task's, and outlives `until`. */
  predicate Covered(s: State, t: nat, until: int)
    requires t in s.tasks
  {
    s.tasks[t].held.Some? && Live(s.db, s.tasks[t].key, s.tasks[t].held.value.token, until)
  }

  predicate Alone(s: State, t: nat, until: int) {
    && t in s.tasks && !s.tasks[t].phase.Claiming?
    && (Executing(s, t) ==> Covered(s, t, until))
  }

  ghost predicate Secluded(s: State, t: nat, until: int) {
    Alone(s, t, until) && !SharesRun(s, t)
  }

  lemma OthersKeepCovered(s: State, u: nat, action: Action, t: nat, until: int)
    requires u in s.tasks && CanAct(s.spans, s.tasks[u], action) && t != u && s.now <= until
    requires t in s.tasks && OwnTokens(s, t, u) && Covered(s, t, until)
    ensures Covered(AfterAction(s, u, action), t, until)
  {
    OthersKeepLease(s, s.tasks[u], action, s.tasks[t].key, s.tasks[t].held.value.token);
  }

  /** A renewal never shortens a lease. */
  lemma OwnActionKeepsCovered(s: State, t: nat, action: Action, until: int)
    requires t in s.tasks && CanAct(s.spans, s.tasks[t], action)
    requires !action.ClaimLease? && !action.Release? && Covered(s, t, until) && OwnRow(s, t)
    requires s.db.leases[s.tasks[t].key].heartbeatAt <= s.now
    ensures Covered(AfterAction(s, t, action), t, until)
  {
    if !action.Heartbeat? {
      OtherActionsKeepLeases(s.db, s.now, s.tasks[t], action);
      ActionKeepsHeld(s, s.tasks[t], action);
    }
  }

  lemma ActionKeepsCovered(s: State, u: nat, action: Action, t: nat, until: int)
    requires u in s.tasks && CanAct(s.spans, s.tasks[u], action) && s.now <= until
    requires Executing(s, t) && Covered(s, t, until) && OwnRow(s, t)
    requires RowOk(s.db, s.spans, s.now, s.tasks[t].key)
    requires t != u ==> OwnTokens(s, t, u)
    ensures Covered(AfterAction(s, u, action), t, until)
  {
    if u == t {
      OwnActionKeepsCovered(s, t, action, until);
    } else {
      OthersKeepCovered(s, u, action, t, until);
    }
  }

  /** A task that no longer executes never does again. */
  lemma ExecutedBefore(s: State, step: Step, t: nat)
    requires Enabled(s, step) && t in s.tasks && !s.tasks[t].phase.Claiming? && TaskOk(s, t)
    ensures t in Apply(s, step).tasks && !Apply(s, step).tasks[t].phase.Claiming?
    ensures Executing(Apply(s, step), t) ==> Executing(s, t)
  {
    if Executing(Apply(s, step), t) {
      ExecutingBefore(s, step, t);
    }
  }

  lemma StepKeepsCovered(s: State, step: Step, t: nat, until: int)
    requires Inv(s) && Enabled(s, step) && Apply(s, step).now <= until && Alone(s, t, until)
    ensures Alone(Apply(s, step), t, until)
    ensures Executing(Apply(s, step), t) ==> Executing(s, t)
  {
    assert TaskOk(s, t) && OwnRow(s, t);
    ExecutedBefore(s, step, t);
    if Executing(Apply(s, step), t) {
      if step.Act? {
        assert RowOk(s.db, s.spans, s.now, s.tasks[t].key);
        assert t != step.task ==> OwnTokens(s, t, step.task);
        ActionKeepsCovered(s, step.task, step.action, t, until);
      }
    }
  }

  /** A covered task stays alone in its run, whatever the others do. */
  lemma StepKeepsSecluded(s: State, step: Step, t: nat, until: int)
    requires Inv(s) && Enabled(s, step) && Apply(s, step).now <= until && Secluded(s, t, until)
    ensures Secluded(Apply(s, step), t, until)
  {
    StepKeepsCovered(s, step, t, until);
    forall u
      ensures !Share(Apply(s, step), t, u)
    {
      NobodyJoins(s, step, t, until, u);
    }
  }

  lemma NobodyJoins(s: State, step: Step, t: nat, until: int, u: nat)
    requires Inv(s) && Enabled(s, step) && Apply(s, step).now <= until && Alone(s, t, until)
    requires !Share(s, t, u)
    ensures !Share(Apply(s, step), t, u)
  {
    if Share(Apply(s, step), t, u) {
      StepKeepsCovered(s, step, t, until);
      assert u in s.tasks ==> TaskOk(s, u);
      ExecutingBefore(s, step, u);
      ExecutingBefore(s, step, t);
      assert false;
    }
  }

  lemma {:induction false} StaysSecluded(longer: Trace, i: nat, j: nat, t: nat, until: int)
    requires Possible(longer) && i <= j < |longer.states|
    requires Secluded(longer.states[i], t, until) && Last(longer).now <= until
    ensures Secluded(longer.states[j], t, until)
    decreases j - i
  {
    if i < j {
      StaysSecluded(longer, i, j - 1, t, until);
      Reachable(longer, j - 1);
      HistoryStep(longer, j - 1);
      TimePasses(longer, j, |longer.states| - 1);
      StepKeepsSecluded(longer.states[j - 1], longer.steps[j - 1], t, until);
    }
  }

  lemma {:induction false} TimePasses(h: Trace, i: nat, j: nat)
    requires Possible(h) && i <= j < |h.states|
    ensures h.states[i].now <= h.states[j].now
    decreases j - i
  {
    if i < j {
      TimePasses(h, i, j - 1);
      HistoryStep(h, j - 1);
      StepGrowsRuns(h.states[j - 1], h.steps[j - 1]);
    }
  }

  /** What can happen after `h` until this time. */
  ghost predicate Future(longer: Trace, h: Trace, until: int) {
    Possible(longer) && Continues(longer, h) && Last(longer).now <= until
  }

  lemma CoveredIsSafe(h: Trace, longer: Trace, t: nat, until: int)
    requires Possible(h) && Future(longer, h, until) && Executing(Last(h), t)
    requires Covered(Last(h), t, until) && !EverShares(h, t)
    ensures !EverShares(longer, t)
  {
    var n := |h.states| - 1;
    assert Secluded(longer.states[n], t, until);
    forall i | 0 <= i < |longer.states|
      ensures !SharesRun(longer.states[i], t)
    {
      if i < n {
        assert longer.states[i] == h.states[i];
      } else {
        StaysSecluded(longer, n, i, t, until);
      }
    }
  }

  lemma UncoveredCanShare(h: Trace, t: nat, until: int) returns (longer: Trace)
    requires Possible(h) && Executing(Last(h), t) && Last(h).now <= until
    requires !Covered(Last(h), t, until) || EverShares(h, t)
    ensures Future(longer, h, until) && EverShares(longer, t)
  {
    LoneRow(h, |h.states| - 1, t);
    longer := h;
    if !EverShares(h, t) {
      longer := ExtendHistory(h, Tick(until));
      var u;
      longer, u := TakeOver(longer, t, 1);
      assert SharesRun(longer.states[|longer.states| - 1], t);
    }
  }

  /** By a given time a second task can be inside a task's run exactly if one has been, or if the
      task has no lease that outlives that time. */
  lemma SharesExactlyWithoutCover(h: Trace, t: nat, until: int)
    requires Possible(h) && Executing(Last(h), t) && Last(h).now <= until
    ensures (exists longer :: Future(longer, h, until) && EverShares(longer, t)) <==>
              EverShares(h, t) || !Covered(Last(h), t, until)
  {
    if EverShares(h, t) || !Covered(Last(h), t, until) {
      var longer := UncoveredCanShare(h, t, until);
    } else {
      forall longer | Future(longer, h, until)
        ensures !EverShares(longer, t)
      {
        CoveredIsSafe(h, longer, t, until);
      }
    }
  }

  // ---- With punctuality ------------------------------------------------------------------

  ghost predicate PunctualFuture(longer: Trace, h: Trace, interval: int) {
    Possible(longer) && Punctual(longer, interval) && Continues(longer, h)
  }

  /** A lease lasts for an hour at most, so nobody holds one if heartbeats are that rare. */
  const HOUR := 3600 * 1_000_000

  lemma SharingNeedsADirectCall(h: Trace, longer: Trace, interval: int, i: nat, t: nat, key: RunKey)
    requires Possible(h) && PunctualFuture(longer, h, interval) && key in Last(h).db.runs
    requires |h.states| <= i < |longer.states| && SharedBy(longer.states[i], t, key)
    ensures DirectlyExecuted(Last(h), key) && interval < HOUR
  {
    var u :| Share(longer.states[i], t, u);
    AtMostOneExecutes(longer, i, t, u, interval);
    var worker, direct := t, u;
    if !Leased(longer.states[i], t) {
      worker, direct := u, t;
    }
    Reachable(longer, i);
    assert TaskOk(longer.states[i], worker);
    LeasedHoldsRow(longer, i, worker, interval);
    DirectCallWasThere(longer, |h.states| - 1, i, direct, key);
  }

  lemma {:induction false} TaskKeepsKey(h: Trace, i: nat, j: nat, t: nat)
    requires Possible(h) && i <= j < |h.states| && t in h.states[i].tasks
    ensures t in h.states[j].tasks && h.states[j].tasks[t].key == h.states[i].tasks[t].key
    decreases j - i
  {
    if i < j {
      TaskKeepsKey(h, i, j - 1, t);
      HistoryStep(h, j - 1);
      StepKeepsKey(h.states[j - 1], h.steps[j - 1], t);
    }
  }

  lemma StepKeepsKey(s: State, step: Step, t: nat)
    requires Enabled(s, step) && t in s.tasks
    ensures t in Apply(s, step).tasks && Apply(s, step).tasks[t].key == s.tasks[t].key
  {
  }

  lemma DirectCallCanShare(h: Trace, key: RunKey, interval: int) returns (longer: Trace)
    requires Possible(h) && Punctual(h, interval) && interval < HOUR
    requires DirectlyExecuted(Last(h), key)
    ensures PunctualFuture(longer, h, interval) && EverShared(longer, key)
  {
    var t :| ExecutesDirectly(Last(h), t, key);
    LoneRow(h, |h.states| - 1, t);
    if EverShares(h, t) {
      longer := h;
      var i :| 0 <= i < |h.states| && SharesRun(h.states[i], t);
      TaskKeepsKey(h, i, |h.states| - 1, t);
      assert SharedBy(h.states[i], t, key);
    } else {
      var u;
      longer, u := TakeOver(h, t, 3600);
      assert SharedBy(longer.states[|longer.states| - 1], t, key);
    }
  }

  /** Among punctual workers a run comes to be shared exactly if it has been, or if a direct call is
      inside it (and leases can outlive the interval at all). */
  lemma SharedExactlyWithADirectCall(h: Trace, key: RunKey, interval: int)
    requires Possible(h) && Punctual(h, interval) && key in Last(h).db.runs
    ensures (exists longer :: PunctualFuture(longer, h, interval) && EverShared(longer, key)) <==>
              EverShared(h, key) || (DirectlyExecuted(Last(h), key) && interval < HOUR)
  {
    if EverShared(h, key) {
      assert PunctualFuture(h, h, interval);
    } else if DirectlyExecuted(Last(h), key) && interval < HOUR {
      var longer := DirectCallCanShare(h, key, interval);
    } else {
      forall longer, i, t | PunctualFuture(longer, h, interval) && 0 <= i < |longer.states|
        ensures !SharedBy(longer.states[i], t, key)
      {
        NotSharedAt(h, longer, key, interval, i, t);
      }
    }
  }

  lemma NotSharedAt(h: Trace, longer: Trace, key: RunKey, interval: int, i: nat, t: nat)
    requires Possible(h) && PunctualFuture(longer, h, interval) && key in Last(h).db.runs && i < |longer.states|
    requires !EverShared(h, key) && !(DirectlyExecuted(Last(h), key) && interval < HOUR)
    ensures !SharedBy(longer.states[i], t, key)
  {
    if i < |h.states| {
      assert longer.states[i] == h.states[i];
    } else if SharedBy(longer.states[i], t, key) {
      SharingNeedsADirectCall(h, longer, interval, i, t, key);
      assert false;
    }
  }

  // ---- Two histories ---------------------------------------------------------------------

  function Start(): State {
    State(0, Rows(map[], map[], map[]), map[], map[], map[], map[], {})
  }

  lemma StartIsPossible() returns (h: Trace)
    ensures Possible(h) && h == History([Start()], [])
  {
    h := History([Start()], []);
  }

  /** A run queued at time 0 whose worker has been sleeping, under a lease of one second, since it
      claimed the run. */
  function SleeperState(key: RunKey, now: int): State {
    State(now,
          Rows(map[key := Run(Queued, 0, None, None, None)], map[key := Lease("a", 0, 1, 0, 0, 1_000_000)], map[]),
          map[0 := Task(key, "a", 1, false, Announcing, Some(Held(0, 0)), false)],
          map[0 := Span(key, 0, 1_000_000)], map[], map[], {})
  }

  lemma SleeperHistory(key: RunKey) returns (h: Trace)
    ensures Possible(h) && Last(h) == SleeperState(key, 1_000_000)
  {
    StripFixesStripped("a");
    h := StartIsPossible();
    h := ExtendHistory(h, Queue(key));
    h := ExtendHistory(h, Spawn(0, key, "a", 1, false));
    h := ExtendHistory(h, Act(0, ClaimLease(0)));
    assert Last(h) == SleeperState(key, 0);
    h := ExtendHistory(h, Tick(1_000_000));
  }

  /** A worker that sleeps through its lease of one second shares the run with the worker that takes
      over, and as status changes do not check the lease it can still be the one that starts it. */
  lemma LateWorkerSharesRun(key: RunKey) returns (h: Trace)
    ensures Possible(h) && Share(Last(h), 0, 1) && Last(h).tasks[0].key == key
    ensures Last(h).tasks[0].phase.Working? && Leased(Last(h), 0) && Leased(Last(h), 1)
    ensures key in Last(h).db.leases && Last(h).db.leases[key].token == 1
  {
    h := SleeperHistory(key);
    StripFixesStripped("b");
    h := ExtendHistory(h, Spawn(1, key, "b", 1, false));
    h := ExtendHistory(h, Act(1, ClaimLease(1)));
    h := ExtendHistory(h, Act(0, Announce));
    h := ExtendHistory(h, Act(0, Enter));
  }

  /** A synchronous call and a worker that lists its lease-less run as recoverable share the run,
      however punctual the worker is. */
  lemma DirectCallSharesRun(key: RunKey) returns (h: Trace)
    ensures Possible(h) && Punctual(h, 10_000_000)
    ensures Share(Last(h), 0, 1) && ExecutesDirectly(Last(h), 0, key) && Leased(Last(h), 1)
  {
    h := StartIsPossible();
    h := ExtendHistory(h, ExecuteDirectly(0, key));
    StripFixesStripped("b");
    h := ExtendHistory(h, Spawn(1, key, "b", 30, false));
    h := ExtendHistory(h, Act(1, ClaimLease(0)));
  }
}
