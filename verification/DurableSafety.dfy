/** What holds of every reachable state of `DurableJobs`, and over every whole history. */
module DurableSafety {
  import opened Evidence
  import opened Text
  import opened Database
  import opened Leases
  import opened DurableJobs
  import Reports

  // ---- One step --------------------------------------------------------------------------

  /** A run is never deleted, never returns to queued, and never changes again once it ended. */
  predicate RunGrows(s: State, s': State, key: RunKey) {
    key in s.db.runs ==>
      && key in s'.db.runs
      && (!Active(s.db.runs[key].status) ==> s'.db.runs[key] == s.db.runs[key])
      && (s.db.runs[key].status != Queued ==> s'.db.runs[key].status != Queued)
  }

  lemma StepGrowsRun(s: State, step: Step, key: RunKey)
    requires Enabled(s, step)
    ensures RunGrows(s, Apply(s, step), key)
  {
    if step.Act? {
      ActionGrowsRun(s, s.tasks[step.task], step.action, key);
    }
  }

  lemma ActionGrowsRun(s: State, task: Task, action: Action, key: RunKey)
    ensures RunGrows(s, s.(db := DbAfter(s.db, s.now, task, action)), key)
  {
  }

  lemma StepGrowsRuns(s: State, step: Step)
    requires Enabled(s, step)
    ensures s.db.runs.Keys <= Apply(s, step).db.runs.Keys
    ensures s.now <= Apply(s, step).now
  {
    forall key | key in s.db.runs
      ensures key in Apply(s, step).db.runs
    {
      StepGrowsRun(s, step, key);
    }
  }

  lemma StepKeepsBook(s: State, step: Step)
    requires BookOk(s.db, s.spans, s.now) && Enabled(s, step)
    ensures BookOk(Apply(s, step).db, Apply(s, step).spans, Apply(s, step).now)
  {
    StepGrowsRuns(s, step);
    if step.Act? {
      ActionKeepsBook(s, s.tasks[step.task], step.action);
    } else {
      var s' := Apply(s, step);
      ElsewhereKeepsBook(s.db, s'.db, s.spans, s.now, s'.now);
    }
  }

  lemma ActionKeepsBook(s: State, task: Task, action: Action)
    requires BookOk(s.db, s.spans, s.now) && CanAct(s.spans, task, action)
    ensures BookOk(DbAfter(s.db, s.now, task, action), SpansAfter(s.db, s.spans, s.now, task, action), s.now)
  {
    match action
    case ClaimLease(token) => ClaimKeepsBook(s.db, s.spans, task.key, task.worker, task.ttl, s.now, token);
    case Heartbeat => RenewKeepsBook(s.db, s.spans, task.key, task.worker, task.held.value.token, task.ttl, s.now);
    case Release => ReleaseKeepsBook(s.db, s.spans, task.key, task.worker, task.held.value.token, s.now);
    case _ => ElsewhereKeepsBook(s.db, DbAfter(s.db, s.now, task, action), s.spans, s.now, s.now);
  }

  lemma StepKeepsRun(s: State, step: Step, key: RunKey)
    requires Enabled(s, step)
    requires key in s.db.runs ==> RunOk(s.db.runs[key])
    requires key in Apply(s, step).db.runs
    ensures RunOk(Apply(s, step).db.runs[key])
  {
    if step.Act? {
      ActionKeepsRun(s.db, s.now, s.tasks[step.task], step.action, key);
    }
  }

  lemma ActionKeepsRun(db: Rows, now: int, task: Task, action: Action, key: RunKey)
    requires key in db.runs && RunOk(db.runs[key])
    ensures key in DbAfter(db, now, task, action).runs && RunOk(DbAfter(db, now, task, action).runs[key])
  {
  }

  lemma StepKeepsReport(s: State, step: Step, key: RunKey)
    requires Enabled(s, step) && ReportOk(s, key)
    ensures ReportOk(Apply(s, step), key)
  {
    if step.Act? {
      ActionKeepsReport(s, step.task, step.action, key);
    }
  }

  lemma ActionKeepsReport(s: State, t: nat, action: Action, key: RunKey)
    requires t in s.tasks && CanAct(s.spans, s.tasks[t], action) && ReportOk(s, key)
    ensures ReportOk(AfterAction(s, t, action), key)
  {
    if action.Complete? {
      CompleteKeepsReport(s, t, key);
    } else {
      var db' := DbAfter(s.db, s.now, s.tasks[t], action);
      assert db'.reports == s.db.reports;
      ActionCompletesNothing(s.db, s.now, s.tasks[t], action, key);
    }
  }

  lemma ActionCompletesNothing(db: Rows, now: int, task: Task, action: Action, key: RunKey)
    requires !action.Complete?
    ensures InStatus(DbAfter(db, now, task, action), key, {Completed}) <==> InStatus(db, key, {Completed})
  {
  }

  lemma CompleteKeepsReport(s: State, t: nat, key: RunKey)
    requires t in s.tasks && s.tasks[t].phase.Finishing? && ReportOk(s, key)
    ensures ReportOk(AfterAction(s, t, Complete), key)
  {
  }

  /** A token keeps naming the run it was issued for. */
  lemma StepKeepsToken(s: State, step: Step, token: nat)
    requires Enabled(s, step) && token in s.spans
    ensures token in Apply(s, step).spans && Apply(s, step).spans[token].key == s.spans[token].key
  {
  }

  /** The task credited with completing a run stays the one credited. */
  lemma StepKeepsCompleter(s: State, step: Step, key: RunKey)
    requires Enabled(s, step) && ReportOk(s, key) && key in s.completers
    ensures key in Apply(s, step).completers && Apply(s, step).completers[key] == s.completers[key]
  {
  }

  lemma StepKeepsTask(s: State, step: Step, t: nat)
    requires Enabled(s, step) && t in Apply(s, step).tasks
    requires t in s.tasks ==> TaskOk(s, t) && ReportOk(s, s.tasks[t].key)
    requires t in s.returned ==> t in s.tasks
    ensures TaskOk(Apply(s, step), t)
  {
    StepGrowsRuns(s, step);
    if t in s.tasks {
      var task := s.tasks[t];
      StepGrowsRun(s, step, task.key);
      if task.held.Some? {
        StepKeepsToken(s, step, task.held.value.token);
      }
      if task.key in s.completers {
        StepKeepsCompleter(s, step, task.key);
      }
      if step.Act? && step.task == t {
        ActionKeepsTask(s, t, step.action);
      }
    }
  }

  lemma ActionKeepsTask(s: State, t: nat, action: Action)
    requires t in s.tasks && CanAct(s.spans, s.tasks[t], action)
    requires TaskOk(s, t) && ReportOk(s, s.tasks[t].key)
    requires s.tasks[t].key in AfterAction(s, t, action).db.runs
    ensures TaskOk(AfterAction(s, t, action), t)
  {
    match action
    case ClaimLease(token) => ClaimKeepsTask(s, t, token);
    case Complete => CompleteKeepsTask(s, t);
    case _ => OtherActionKeepsTask(s, t, action);
  }

  lemma ClaimKeepsTask(s: State, t: nat, token: nat)
    requires t in s.tasks && CanAct(s.spans, s.tasks[t], ClaimLease(token)) && TaskOk(s, t)
    ensures TaskOk(AfterAction(s, t, ClaimLease(token)), t)
  {
  }

  lemma CompleteKeepsTask(s: State, t: nat)
    requires t in s.tasks && CanAct(s.spans, s.tasks[t], Complete)
    requires TaskOk(s, t) && ReportOk(s, s.tasks[t].key)
    ensures TaskOk(AfterAction(s, t, Complete), t)
  {
  }

  lemma OtherActionKeepsTask(s: State, t: nat, action: Action)
    requires t in s.tasks && CanAct(s.spans, s.tasks[t], action) && TaskOk(s, t)
    requires !action.ClaimLease? && !action.Complete?
    requires s.tasks[t].key in AfterAction(s, t, action).db.runs
    ensures TaskOk(AfterAction(s, t, action), t)
  {
    ActionKeepsHeld(s, s.tasks[t], action);
    if s.tasks[t].held.Some? {
      StepKeepsToken(s, Act(t, action), s.tasks[t].held.value.token);
    }
  }

  lemma StepKeepsOwnRow(s: State, step: Step, t: nat)
    requires Enabled(s, step) && t in Apply(s, step).tasks
    requires t in s.tasks ==> TaskOk(s, t) && OwnRow(s, t)
    requires step.Act? && step.task != t ==> OwnTokens(s, t, step.task)
    ensures OwnRow(Apply(s, step), t)
  {
    if step.Act? {
      var task := s.tasks[t];
      if step.task == t {
        ActionKeepsOwnRow(s, t, step.action);
      } else if task.held.Some? {
        OthersKeepRow(s.db, s.now, s.tasks[step.task], step.action, task.key, task.held.value.token);
      }
    }
  }

  lemma ActionKeepsOwnRow(s: State, t: nat, action: Action)
    requires t in s.tasks && CanAct(s.spans, s.tasks[t], action) && TaskOk(s, t) && OwnRow(s, t)
    ensures OwnRow(AfterAction(s, t, action), t)
  {
    match action
    case ClaimLease(token) =>
    case Heartbeat =>
    case Release =>
    case _ => OtherActionsKeepLeases(s.db, s.now, s.tasks[t], action);
  }

  lemma OtherActionsKeepLeases(db: Rows, now: int, task: Task, action: Action)
    requires !action.ClaimLease? && !action.Heartbeat? && !action.Release?
    ensures DbAfter(db, now, task, action).leases == db.leases
  {
  }

  /** Whoever acts with other tokens leaves a row with this token as it is, or removes it. */
  lemma OthersKeepRow(db: Rows, now: int, other: Task, action: Action, key: RunKey, token: nat)
    requires other.held.Some? ==> other.held.value.token != token
    requires action.ClaimLease? ==> action.token != token
    ensures var leases := DbAfter(db, now, other, action).leases;
      key in leases && leases[key].token == token ==> key in db.leases && leases[key] == db.leases[key]
  {
  }

  /** Tokens stay private to one task: a claim brings a token nobody holds. */
  lemma StepKeepsTokens(s: State, step: Step, t: nat, u: nat)
    requires Enabled(s, step)
    requires t in s.tasks ==> TaskOk(s, t)
    requires u in s.tasks ==> TaskOk(s, u)
    requires t != u && OwnTokens(s, t, u)
    ensures OwnTokens(Apply(s, step), t, u)
  {
    if step.Act? {
      ActionKeepsHeld(s, s.tasks[step.task], step.action);
    }
  }

  lemma StepKeepsOneDirect(s: State, step: Step, t: nat, u: nat)
    requires Enabled(s, step)
    requires t in s.tasks ==> TaskOk(s, t)
    requires u in s.tasks ==> TaskOk(s, u)
    requires t != u && OneDirect(s, t, u)
    ensures OneDirect(Apply(s, step), t, u)
  {
    if step.Act? && step.task in {t, u} {
      ActionStartsNothingDirect(s, s.tasks[step.task], step.action);
    }
  }

  /** No action puts a task inside `execute_queued` without a lease. */
  lemma ActionStartsNothingDirect(s: State, task: Task, action: Action)
    requires CanAct(s.spans, task, action) && (task.phase.Announcing? ==> task.held.Some?)
    ensures var task' := TaskAfter(s.db, s.now, task, action);
      task'.key == task.key && (RunsDirectly(task') ==> RunsDirectly(task))
  {
  }

  /** Only a claim changes which token a task holds. */
  lemma ActionKeepsHeld(s: State, task: Task, action: Action)
    requires CanAct(s.spans, task, action)
    ensures var task' := TaskAfter(s.db, s.now, task, action);
      && task'.key == task.key
      && (action.ClaimLease? && task'.held.Some? ==>
            task'.held.value.token == action.token || task'.held == task.held)
      && (!action.ClaimLease? ==> (task'.held.Some? <==> task.held.Some?))
      && (!action.ClaimLease? && task.held.Some? ==> task'.held.value.token == task.held.value.token)
  {
  }

  lemma StepKeepsInv(s: State, step: Step)
    requires Inv(s) && Enabled(s, step)
    ensures Inv(Apply(s, step))
  {
    var s' := Apply(s, step);
    StepKeepsBook(s, step);
    forall key
      ensures ReportOk(s', key)
      ensures key in s'.db.runs ==> RunOk(s'.db.runs[key])
    {
      StepKeepsReport(s, step, key);
      if key in s'.db.runs {
        StepKeepsRun(s, step, key);
      }
    }
    forall t | t in s'.tasks
      ensures TaskOk(s', t)
    {
      StepKeepsTask(s, step, t);
    }
    forall t | t in s'.tasks
      ensures OwnRow(s', t)
    {
      StepKeepsOwnRow(s, step, t);
    }
    forall t, u | t != u
      ensures OwnTokens(s', t, u) && OneDirect(s', t, u)
    {
      StepKeepsTokens(s, step, t, u);
      StepKeepsOneDirect(s, step, t, u);
    }
  }

  // ---- Whole histories -------------------------------------------------------------------

  lemma {:induction false} Reachable(h: Trace, i: nat)
    requires Possible(h) && i < |h.states|
    ensures Inv(h.states[i])
  {
    if i > 0 {
      Reachable(h, i - 1);
      InvKeptAt(h, i - 1);
    }
  }

  lemma InvKeptAt(h: Trace, i: nat)
    requires Possible(h) && i < |h.steps| && Inv(h.states[i])
    ensures Inv(h.states[i + 1])
  {
    assert Follows(h, i);
    StepKeepsInv(h.states[i], h.steps[i]);
  }

  lemma RunGrowsAt(h: Trace, i: nat, key: RunKey)
    requires Possible(h) && i < |h.steps|
    ensures RunGrows(h.states[i], h.states[i + 1], key)
  {
    assert Follows(h, i);
    StepGrowsRun(h.states[i], h.steps[i], key);
  }

  /** A run that has ended keeps its whole row for ever. */
  lemma {:induction false} EndedForever(h: Trace, i: nat, j: nat, key: RunKey)
    requires Possible(h) && i <= j < |h.states|
    ensures RunGrows(h.states[i], h.states[j], key)
    decreases j - i
  {
    if i < j {
      EndedForever(h, i, j - 1, key);
      RunGrowsAt(h, j - 1, key);
      RunGrowsOn(h.states[i], h.states[j - 1], h.states[j], key);
    }
  }

  lemma HistoryStep(h: Trace, i: nat)
    requires Possible(h) && i < |h.steps|
    ensures |h.states| == |h.steps| + 1
    ensures Enabled(h.states[i], h.steps[i]) && h.states[i + 1] == Apply(h.states[i], h.steps[i])
  {
    assert Follows(h, i);
  }

  lemma RunGrowsOn(s0: State, s1: State, s2: State, key: RunKey)
    requires RunGrows(s0, s1, key) && RunGrows(s1, s2, key)
    ensures RunGrows(s0, s2, key)
  {
  }

  /** The i-th step moves an active run into a terminal status. */
  predicate Ends(h: Trace, i: nat, key: RunKey)
    requires i + 1 < |h.states|
  {
    !Ended(h.states[i], key) && Ended(h.states[i + 1], key)
  }

  /** Of all the workers, users and crashes acting on a run, at most one ever ends it. */
  lemma EndsAtMostOnce(h: Trace, i: nat, j: nat, key: RunKey)
    requires Possible(h) && i + 1 < |h.states| && j + 1 < |h.states|
    requires Ends(h, i, key) && Ends(h, j, key)
    ensures i == j
  {
    if i < j {
      EndedForever(h, i + 1, j, key);
    } else if j < i {
      EndedForever(h, j + 1, i, key);
    }
  }

  // ---- How runs change status ------------------------------------------------------------

  /** The step is a task's claim of this run, by a worker with a name and a lifetime of at most an hour,
      that finds no live lease. */
  predicate ClaimsRun(s: State, step: Step, key: RunKey) {
    && step.Act? && step.task in s.tasks && s.tasks[step.task].key == key && step.action.ClaimLease?
    && Strip(s.tasks[step.task].worker) != "" && 1 <= s.tasks[step.task].ttl <= 3600
    && !(key in s.db.leases && s.now < s.db.leases[key].expiresAt)
  }

  /** The step is a heartbeat of the task whose live lease this is, while its run goes on. */
  predicate BeatsForRun(s: State, step: Step, key: RunKey) {
    && step.Act? && step.task in s.tasks && s.tasks[step.task].key == key && step.action.Heartbeat?
    && s.tasks[step.task].held.Some? && key in s.db.leases && s.now < s.db.leases[key].expiresAt
    && s.db.leases[key].token == s.tasks[step.task].held.value.token
    && key in s.db.runs && Active(s.db.runs[key].status)
  }

  /** The step is the release of the task whose lease this is. */
  predicate ReleasesRun(s: State, step: Step, key: RunKey) {
    && step.Act? && step.task in s.tasks && s.tasks[step.task].key == key && step.action.Release?
    && s.tasks[step.task].held.Some? && key in s.db.leases
    && s.db.leases[key].token == s.tasks[step.task].held.value.token
  }

  /** What every step does to the lease row of a run. */
  lemma LeaseChangesExactly(h: Trace, i: nat, key: RunKey)
    requires Possible(h) && i < |h.steps|
    ensures LeaseAfter(h.states[i], h.steps[i], key, h.states[i + 1].db.leases)
  {
    Reachable(h, i);
    HistoryStep(h, i);
    var s, step := h.states[i], h.steps[i];
    if step.Act? {
      assert TaskOk(s, step.task) && OwnRow(s, step.task);
      assert key in s.db.leases ==> RowOk(s.db, s.spans, s.now, key);
      if step.action.ClaimLease? || step.action.Heartbeat? || step.action.Release? {
        LeaseActionChangesExactly(s, step.task, step.action, key);
      } else {
        OtherActionsKeepLeases(s.db, s.now, s.tasks[step.task], step.action);
      }
    }
  }

  /** A claim writes a new row, numbered after an expired one; a heartbeat extends it; a release removes
      it; and nothing else touches it. */
  predicate LeaseAfter(s: State, step: Step, key: RunKey, leases: map<RunKey, Lease>) {
    if ClaimsRun(s, step, key) then
      && key in leases
      && leases[key] == Lease(Strip(s.tasks[step.task].worker), step.action.token,
                              if key in s.db.leases then s.db.leases[key].attempt + 1 else 1,
                              s.now, s.now, s.now + s.tasks[step.task].ttl * 1_000_000)
    else if BeatsForRun(s, step, key) then
      && key in leases
      && leases[key] == s.db.leases[key].(heartbeatAt := s.now,
                                          expiresAt := s.now + s.tasks[step.task].ttl * 1_000_000)
    else if ReleasesRun(s, step, key) then key !in leases
    else (key in leases <==> key in s.db.leases) && (key in leases ==> leases[key] == s.db.leases[key])
  }

  lemma LeaseActionChangesExactly(s: State, t: nat, action: Action, key: RunKey)
    requires t in s.tasks && CanAct(s.spans, s.tasks[t], action) && TaskOk(s, t) && OwnRow(s, t)
    requires action.ClaimLease? || action.Heartbeat? || action.Release?
    ensures LeaseAfter(s, Act(t, action), key, DbAfter(s.db, s.now, s.tasks[t], action).leases)
  {
  }

  /** The step is a task of this run failing it, with a message that is not blank and not too long. */
  predicate FailsRun(s: State, step: Step, key: RunKey) {
    && step.Act? && step.task in s.tasks && s.tasks[step.task].key == key
    && step.action.Fail? && 1 <= |Strip(step.action.message)| <= 4000
  }

  /** The step is a task of this run completing it, with a final state that can be persisted. */
  predicate CompletesRun(s: State, step: Step, key: RunKey) {
    && step.Act? && step.task in s.tasks && s.tasks[step.task].key == key
    && step.action.Complete? && s.tasks[step.task].phase.Finishing?
    && var state := s.tasks[step.task].phase.result; state.report.None? || Reports.Persistable(state)
  }

  /** The step is a task of this run marking it as running. */
  predicate StartsRun(s: State, step: Step, key: RunKey) {
    && step.Act? && step.task in s.tasks && s.tasks[step.task].key == key
    && step.action.Enter? && !s.tasks[step.task].resume
  }

  /** What every step does to an active run, status by status, and the times it records. */
  lemma RunChangesExactly(h: Trace, i: nat, key: RunKey)
    requires Possible(h) && i < |h.steps|
    requires key in h.states[i].db.runs && Active(h.states[i].db.runs[key].status)
    ensures key in h.states[i + 1].db.runs
    ensures var s, step := h.states[i], h.steps[i];
      var before, after := s.db.runs[key], h.states[i + 1].db.runs[key];
      && (after.status == Failed <==> FailsRun(s, step, key))
      && (after.status == Cancelled <==> step == CancelRun(key))
      && (after.status == Completed <==> before.status == Running && CompletesRun(s, step, key))
      && (after.status == Running <==>
            !Ended(h.states[i + 1], key) && (before.status == Running || StartsRun(s, step, key)))
      && (after.status == Failed ==> after.error == Some(Strip(step.action.message)))
      && (after.status != Failed ==> after.error == None)
      && after.completedAt == (if Active(after.status) then None else Some(s.now))
      && after.startedAt == (if before.status == Queued && after.status == Running then Some(s.now)
                             else before.startedAt)
      && after.createdAt == before.createdAt
  {
    Reachable(h, i);
    HistoryStep(h, i);
    RunGrowsAt(h, i, key);
    var s, step := h.states[i], h.steps[i];
    assert ReportOk(s, key) && RunOk(s.db.runs[key]);
    if step.Act? {
      ActionChangesExactly(s.db, s.now, s.tasks[step.task], step.action, key);
    }
  }

  lemma ActionChangesExactly(db: Rows, now: int, task: Task, action: Action, key: RunKey)
    requires key in db.runs && Active(db.runs[key].status) && RunOk(db.runs[key]) && key !in db.reports
    requires action.Complete? ==> task.phase.Finishing?
    ensures key in DbAfter(db, now, task, action).runs
    ensures var before, after := db.runs[key], DbAfter(db, now, task, action).runs[key];
      && (after.status == Failed <==>
            task.key == key && action.Fail? && 1 <= |Strip(action.message)| <= 4000)
      && after.status != Cancelled
      && (after.status == Completed <==>
            && before.status == Running && task.key == key && action.Complete?
            && (task.phase.result.report.None? || Reports.Persistable(task.phase.result)))
      && (after.status == Running <==>
            && Active(after.status)
            && (before.status == Running || (task.key == key && action.Enter? && !task.resume)))
      && (after.status == Failed ==> after.error == Some(Strip(action.message)))
      && (after.status != Failed ==> after.error == None)
      && after.completedAt == (if Active(after.status) then None else Some(now))
      && after.startedAt == (if before.status == Queued && after.status == Running then Some(now)
                             else before.startedAt)
      && after.createdAt == before.createdAt
  {
  }

  /** A new run is queued, with the time of the step that created it and nothing else. */
  lemma RunStartsQueued(h: Trace, i: nat, key: RunKey)
    requires Possible(h) && i < |h.steps| && key !in h.states[i].db.runs
    ensures key in h.states[i + 1].db.runs <==>
              h.steps[i] == Queue(key) || (h.steps[i].ExecuteDirectly? && h.steps[i].key == key)
    ensures key in h.states[i + 1].db.runs ==>
              h.states[i + 1].db.runs[key] == Run(Queued, h.states[i].now, None, None, None)
  {
    HistoryStep(h, i);
    Reachable(h, i);
    var s, step := h.states[i], h.steps[i];
    if step.Act? {
      assert TaskOk(s, step.task);
    }
  }

  /** The run ended by this step, at its time, as it says. */
  predicate EndedBy(run: Run, s: State, step: Step, key: RunKey) {
    && run.completedAt == Some(s.now)
    && (run.status == Failed <==> FailsRun(s, step, key))
    && (run.status == Cancelled <==> step == CancelRun(key))
    && (run.status == Completed <==> CompletesRun(s, step, key))
    && (run.status == Failed ==> run.error == Some(Strip(step.action.message)))
  }

  lemma EndsAsTheStepSays(h: Trace, i: nat, key: RunKey)
    requires Possible(h) && i < |h.steps| && i + 1 < |h.states| && Ends(h, i, key)
    ensures EndedBy(h.states[i + 1].db.runs[key], h.states[i], h.steps[i], key)
  {
    if key in h.states[i].db.runs {
      RunChangesExactly(h, i, key);
    } else {
      RunStartsQueued(h, i, key);
      assert false;
    }
  }

  /** Every run that has ended was ended by one step, and its row is what that step left. */
  lemma {:induction false} EndedByAStep(h: Trace, n: nat, key: RunKey) returns (i: nat)
    requires Possible(h) && n < |h.states| && Ended(h.states[n], key)
    ensures i < n && i < |h.steps| && Ends(h, i, key)
    ensures h.states[n].db.runs[key] == h.states[i + 1].db.runs[key]
    ensures EndedBy(h.states[n].db.runs[key], h.states[i], h.steps[i], key)
  {
    if Ended(h.states[n - 1], key) {
      i := EndedByAStep(h, n - 1, key);
      RunGrowsAt(h, n - 1, key);
    } else {
      i := n - 1;
      EndsAsTheStepSays(h, i, key);
    }
  }

  lemma {:induction false} RecordsGrow(h: Trace, i: nat, j: nat, key: RunKey, token: nat)
    requires Possible(h) && i <= j < |h.states|
    ensures key in h.states[i].completers ==>
              key in h.states[j].completers && h.states[j].completers[key] == h.states[i].completers[key]
    ensures h.states[i].returned <= h.states[j].returned
    ensures token in h.states[i].spans ==>
              token in h.states[j].spans && h.states[j].spans[token].key == h.states[i].spans[token].key
    decreases j - i
  {
    if i < j {
      RecordsGrow(h, i, j - 1, key, token);
      Reachable(h, j - 1);
      RecordsGrowAt(h, j - 1, key, token);
    }
  }

  lemma RecordsGrowAt(h: Trace, i: nat, key: RunKey, token: nat)
    requires Possible(h) && i < |h.steps| && Inv(h.states[i])
    ensures key in h.states[i].completers ==>
              key in h.states[i + 1].completers && h.states[i + 1].completers[key] == h.states[i].completers[key]
    ensures h.states[i].returned <= h.states[i + 1].returned
    ensures token in h.states[i].spans ==>
              token in h.states[i + 1].spans && h.states[i + 1].spans[token].key == h.states[i].spans[token].key
  {
    assert Follows(h, i);
    if key in h.states[i].completers {
      assert ReportOk(h.states[i], key);
      StepKeepsCompleter(h.states[i], h.steps[i], key);
    }
    if token in h.states[i].spans {
      StepKeepsToken(h.states[i], h.steps[i], token);
    }
  }

  /** The i-th step is `execute_queued` returning a result for this run. */
  predicate ReturnsFor(h: Trace, i: nat, key: RunKey)
    requires i < |h.steps| && |h.states| == |h.steps| + 1
  {
    && h.steps[i].Act? && h.steps[i].action.Return?
    && h.steps[i].task in h.states[i].tasks
    && h.states[i].tasks[h.steps[i].task].key == key
  }

  lemma ReturnIsRecorded(h: Trace, i: nat, key: RunKey)
    requires Possible(h) && i < |h.steps| && ReturnsFor(h, i, key)
    ensures var t := h.steps[i].task;
      && t in h.states[i].tasks && h.states[i].tasks[t].phase.Completing?
      && key in h.states[i].completers && h.states[i].completers[key] == t
      && t !in h.states[i].returned && t in h.states[i + 1].returned
      && key in h.states[i + 1].completers && h.states[i + 1].completers[key] == t
  {
    Reachable(h, i);
    assert Follows(h, i);
    assert TaskOk(h.states[i], h.steps[i].task);
  }

  /** However many workers execute a run, `execute_queued` returns normally at most once. */
  lemma ReturnsAtMostOnce(h: Trace, i: nat, j: nat, key: RunKey)
    requires Possible(h) && i < |h.steps| && j < |h.steps|
    requires ReturnsFor(h, i, key) && ReturnsFor(h, j, key)
    ensures i == j
  {
    ReturnIsRecorded(h, i, key);
    ReturnIsRecorded(h, j, key);
    if i < j {
      RecordsGrow(h, i + 1, j, key, 0);
    } else if j < i {
      RecordsGrow(h, j + 1, i, key, 0);
    }
  }

  /** The task was told that its lease is lost, and has not returned a result. */
  predicate ToldInTime(s: State, t: nat) {
    && t in s.tasks && t !in s.returned && s.tasks[t].held.Some? && !s.tasks[t].beating
    && (Inside(s.tasks[t].phase) || s.tasks[t].phase.Interrupted?
        || s.tasks[t].phase.Releasing? || s.tasks[t].phase.Done?)
  }

  lemma StepKeepsTold(s: State, step: Step, t: nat)
    requires Enabled(s, step) && ToldInTime(s, t)
    ensures ToldInTime(Apply(s, step), t)
  {
  }

  /** A worker whose heartbeat is refused while it executes never returns a result. */
  lemma {:induction false} RefusedNeverReturns(h: Trace, i: nat, j: nat, t: nat)
    requires Possible(h) && i < |h.steps| && i < j < |h.states| && h.steps[i] == Act(t, Heartbeat)
    requires t in h.states[i].tasks && Inside(h.states[i].tasks[t].phase)
    requires !HeartbeatLands(h.states[i].db, h.states[i].now, h.states[i].tasks[t])
    ensures ToldInTime(h.states[j], t)
    decreases j
  {
    HistoryStep(h, j - 1);
    if i + 1 < j {
      RefusedNeverReturns(h, i, j - 1, t);
      StepKeepsTold(h.states[j - 1], h.steps[j - 1], t);
    } else {
      Reachable(h, i);
      assert TaskOk(h.states[i], t);
    }
  }

  /** A report row exists exactly when its run completed with a report in its final state, and
      a run completes only with a state that can be persisted. */
  lemma ReportsMatchCompletions(h: Trace, i: nat, key: RunKey)
    requires Possible(h) && i < |h.states|
    ensures var s := h.states[i];
      && (key in s.finals <==> InStatus(s.db, key, {Completed}))
      && (key in s.db.reports <==> key in s.finals && s.finals[key].report.Some?)
      && (key in s.db.reports ==> Reports.Create(s.finals[key]) == Reports.Stored(s.db.reports[key]))
  {
    Reachable(h, i);
    assert ReportOk(h.states[i], key);
  }

  /** In every reachable state each active run is recoverable (any claim is granted) or owned
      (exactly one token can renew), and never both. */
  lemma ActiveRunsAreRecoverableOrOwned(h: Trace, i: nat, key: RunKey, worker: string, ttl: int, token: nat)
    requires Possible(h) && i < |h.states|
    requires key in h.states[i].db.runs && Active(h.states[i].db.runs[key].status)
    requires Strip(worker) != "" && ValidTtl(ttl)
    ensures var s := h.states[i];
      && (Recoverable(s.db, key, s.now) <==> ClaimOutcome(s.db, key, worker, ttl, s.now, token).Granted?)
      && (!Recoverable(s.db, key, s.now) <==> exists w, u :: Renewable(s.db, key, w, u, s.now))
      && (forall v, t, w, u :: Renewable(s.db, key, v, t, s.now) && Renewable(s.db, key, w, u, s.now) ==> t == u)
  {
    Reachable(h, i);
    var s := h.states[i];
    forall k | k in s.db.leases
      ensures Stripped(s.db.leases[k].worker)
    {
      assert RowOk(s.db, s.spans, s.now, k);
    }
    RecoverableOrOwned(s.db, key, worker, ttl, s.now, token);
  }

  // ---- Leases over time ------------------------------------------------------------------

  /** The book of a reachable state is disjoint and records exactly when each lease was live. */
  lemma LeasesNeverOverlap(h: Trace, i: nat, key: RunKey, t: nat, u: nat)
    requires Possible(h) && i < |h.states|
    ensures var s := h.states[i];
      && (Live(s.db, key, t, s.now) <==>
            t in s.spans && s.spans[t].key == key && s.spans[t].from <= s.now < s.spans[t].until)
      && (t in s.spans && u in s.spans && t != u && s.spans[t].key == s.spans[u].key ==>
            s.spans[t].until <= s.spans[u].from || s.spans[u].until <= s.spans[t].from)
  {
    Reachable(h, i);
    var s := h.states[i];
    LiveExactlyInSpan(s.db, s.spans, key, t, s.now);
    if t in s.spans && u in s.spans {
      assert Apart(s.spans, t, u);
    }
  }

  lemma StepKeepsSuperseded(s: State, step: Step, token: nat)
    requires Enabled(s, step) && RowsOk(s.db, s.spans, s.now)
    requires token in s.spans && !Current(s.db, s.spans, token)
    ensures token in Apply(s, step).spans && !Current(Apply(s, step).db, Apply(s, step).spans, token)
  {
    StepKeepsToken(s, step, token);
    if step.Act? {
      ActionKeepsSuperseded(s.db, s.now, s.tasks[step.task], step.action, s.spans[token].key, token);
    }
  }

  lemma ActionKeepsSuperseded(db: Rows, now: int, task: Task, action: Action, key: RunKey, token: nat)
    requires key in db.leases ==> db.leases[key].token != token
    requires action.ClaimLease? ==> action.token != token
    ensures var leases := DbAfter(db, now, task, action).leases; key in leases ==> leases[key].token != token
  {
  }

  /** Once a token has lost its row it never gets it back. */
  lemma {:induction false} SupersededForever(h: Trace, i: nat, j: nat, token: nat)
    requires Possible(h) && i <= j < |h.states|
    requires token in h.states[i].spans && !Current(h.states[i].db, h.states[i].spans, token)
    ensures token in h.states[j].spans && !Current(h.states[j].db, h.states[j].spans, token)
    decreases j - i
  {
    if i < j {
      SupersededForever(h, i, j - 1, token);
      SupersededKeptAt(h, j - 1, token);
    }
  }

  lemma SupersededKeptAt(h: Trace, i: nat, token: nat)
    requires Possible(h) && i < |h.steps|
    requires token in h.states[i].spans && !Current(h.states[i].db, h.states[i].spans, token)
    ensures token in h.states[i + 1].spans && !Current(h.states[i + 1].db, h.states[i + 1].spans, token)
  {
    Reachable(h, i);
    assert Follows(h, i);
    StepKeepsSuperseded(h.states[i], h.steps[i], token);
  }

  /** So every later renewal or release with a superseded token changes nothing. */
  lemma SupersededIsInert(h: Trace, i: nat, j: nat, key: RunKey, token: nat, worker: string, ttl: int)
    requires Possible(h) && i <= j < |h.states|
    requires token in h.states[i].spans && h.states[i].spans[token].key == key
    requires !Current(h.states[i].db, h.states[i].spans, token)
    ensures AfterRenew(h.states[j].db, key, worker, token, ttl, h.states[j].now) == h.states[j].db
    ensures AfterRelease(h.states[j].db, key, worker, token) == h.states[j].db
  {
    SupersededForever(h, i, j, token);
    RecordsGrow(h, i, j, key, token);
    SupersededTokenIsInert(h.states[j].db, key, worker, token, ttl, h.states[j].now);
  }

  /** Two tokens of one run never alternate: after another token was live, the first is dead. */
  lemma LeasesNeverAlternate(h: Trace, i: nat, j: nat, k: nat, key: RunKey, t: nat, u: nat)
    requires Possible(h) && i <= j <= k < |h.states| && t != u
    requires Live(h.states[i].db, key, t, h.states[i].now)
    requires Live(h.states[j].db, key, u, h.states[j].now)
    ensures !Live(h.states[k].db, key, t, h.states[k].now)
  {
    Reachable(h, i);
    assert RowOk(h.states[i].db, h.states[i].spans, h.states[i].now, key);
    RecordsGrow(h, i, j, key, t);
    SupersededForever(h, j, k, t);
    RecordsGrow(h, j, k, key, t);
  }
}
