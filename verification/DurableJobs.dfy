/** Workers, direct callers, users and the clock acting on one database: every interleaving of the
    steps of `_execute_owned`, `execute` and `execute_queued`, with crashes, cancellations and
    stale workers. */
module DurableJobs {
  import opened Evidence
  import opened Text
  import opened Database
  import opened Histories
  import opened Leases
  import Reports

  /** Where one task is. A background task starts by claiming the lease; a direct call (`execute`, or
      a manager without a durability store) queues its run and starts at `Entering`, without a lease.
      `Entering` to `Completing` are inside `execute_queued`. */
  datatype Phase =
    | Claiming                          // about to claim the lease
    | Announcing                        // lease held, recording the audit event and checkpoint
    | Entering                          // about to mark the run running (or skip it on resume)
    | Working                           // cache lookup and workflow
    | Finishing(result: FinalState)     // about to run the completion transaction
    | Failing                           // in the exception handler, about to mark the run failed
    | Completing                        // completion committed, publishing progress and caching
    | Returned                          // `execute_queued` returned a result
    | Interrupted                       // `execute_queued` was left by an exception
    | Releasing                         // heartbeat stopped, about to release the lease
    | Done

  /** The token a task was granted, and when it was last granted or extended. */
  datatype Held = Held(token: nat, since: int)

  datatype Task = Task(
    key: RunKey,
    worker: string,
    ttl: int,
    resume: bool,
    phase: Phase,
    held: Option<Held>,
    beating: bool)

  /** `spans`, `finals`, `completers` and `returned` only record history. */
  datatype State = State(
    now: int,
    db: Rows,
    tasks: map<nat, Task>,
    spans: Spans,
    finals: map<RunKey, FinalState>,
    completers: map<RunKey, nat>,
    returned: set<nat>)

  /** What one task does next. */
  datatype Action =
    | ClaimLease(token: nat)
    | Announce
    | Enter
    | WorkEnds(result: FinalState)
    | Raise                       // an exception inside the `try` block
    | Complete
    | Return
    | LeaveByError                // an exception after the `try` block
    | Fail(message: string)
    | Interrupt                   // a cancellation delivered at an await
    | Heartbeat
    | Wrap
    | Release
    | Crash                       // the process dies, or is cancelled where no handler releases

  datatype Step =
    | Tick(to: int)
    | Queue(key: RunKey)
    | CancelRun(key: RunKey)
    | Spawn(id: nat, key: RunKey, worker: string, ttl: int, resume: bool)
    | ExecuteDirectly(id: nat, key: RunKey)
    | Act(task: nat, action: Action)

  predicate Inside(phase: Phase) {
    phase.Entering? || phase.Working? || phase.Finishing? || phase.Failing? || phase.Completing?
  }

  /** Between the granted claim (or the direct call) and the end of `execute_queued`. */
  predicate Owning(task: Task) {
    task.phase.Announcing? || Inside(task.phase)
  }

  predicate HeartbeatRuns(task: Task) {
    && task.beating && task.held.Some?
    && (Inside(task.phase) || task.phase.Returned? || task.phase.Interrupted?)
  }

  /** A renewal found the lease lost, and the task is being cancelled. Until the cancellation is
      delivered (`Interrupt`) a statement in flight may still commit and the workflow is being closed,
      but the task gets no result any more. */
  predicate Told(task: Task) {
    Inside(task.phase) && task.held.Some? && !task.beating
  }

  predicate CanAct(spans: Spans, task: Task, action: Action) {
    match action
    case ClaimLease(token) => task.phase.Claiming? && token !in spans
    case Announce => task.phase.Announcing?
    case Enter => task.phase.Entering?
    case WorkEnds(_) => task.phase.Working? && !Told(task)
    case Raise => Inside(task.phase) && !task.phase.Failing?
    case Complete => task.phase.Finishing?
    case Return => task.phase.Completing? && !Told(task)
    case LeaveByError => task.phase.Completing?
    case Fail(_) => task.phase.Failing?
    case Interrupt => Inside(task.phase) || task.phase.Returned?
    case Heartbeat => HeartbeatRuns(task)
    case Wrap => task.phase.Returned? || task.phase.Interrupted?
    case Release => task.phase.Releasing? && task.held.Some?
    case Crash => true
  }

  predicate Enabled(s: State, step: Step) {
    match step
    case Tick(to) => s.now <= to
    case Queue(key) => key !in s.db.runs
    case CancelRun(key) => true
    case Spawn(id, key, worker, ttl, resume) =>
      // `resume` was read from a run listed as running, and no run returns to queued.
      id !in s.tasks && key in s.db.runs && (resume ==> s.db.runs[key].status != Queued)
    case ExecuteDirectly(id, key) => id !in s.tasks && key !in s.db.runs
    case Act(t, action) => t in s.tasks && CanAct(s.spans, s.tasks[t], action)
  }

  predicate HeartbeatLands(db: Rows, now: int, task: Task) {
    && task.held.Some? && ValidTtl(task.ttl)
    && Renewable(db, task.key, task.worker, task.held.value.token, now)
  }

  function TaskAfter(db: Rows, now: int, task: Task, action: Action): Task {
    match action
    case ClaimLease(token) =>
      // A granted claim is remembered by the task; otherwise the task ends at once.
      (match ClaimOutcome(db, task.key, task.worker, task.ttl, now, token)
       case Granted(lease) => task.(phase := Announcing, held := Some(Held(token, now)))
       case _ => task.(phase := Done))
    case Announce => task.(phase := Entering, beating := true)
    case Enter =>
      task.(phase := if task.resume || InStatus(db, task.key, {Queued}) then Working else Failing)
    case WorkEnds(result) => task.(phase := Finishing(result))
    case Raise => task.(phase := Failing)
    case Complete => task.(phase := if CompletesNow(db, task) then Completing else Failing)
    case Return => task.(phase := Returned)
    case LeaveByError => task.(phase := Interrupted)
    case Fail(_) => task.(phase := Interrupted)
    case Interrupt => task.(phase := Interrupted)
    case Heartbeat =>
      // A refused renewal ends the heartbeat and cancels the task.
      if HeartbeatLands(db, now, task) then task.(held := Some(task.held.value.(since := now)))
      else task.(beating := false)
    case Wrap => task.(phase := if task.held.Some? then Releasing else Done)
    case Release => task.(phase := Done)
    case Crash => task.(phase := Done)
  }

  predicate CompletesNow(db: Rows, task: Task) {
    task.phase.Finishing? && Completes(db, task.key, task.phase.result)
  }

  function DbAfter(db: Rows, now: int, task: Task, action: Action): Rows {
    match action
    case ClaimLease(token) => AfterClaim(db, task.key, task.worker, task.ttl, now, token)
    case Enter => if task.resume then db else AfterRunning(db, task.key, now)
    case Complete =>
      if task.phase.Finishing? then AfterCompleted(db, task.key, now, task.phase.result) else db
    case Fail(message) => AfterFailed(db, task.key, now, message)
    case Heartbeat =>
      if task.held.Some? then AfterRenew(db, task.key, task.worker, task.held.value.token, task.ttl, now)
      else db
    case Release =>
      if task.held.Some? then AfterRelease(db, task.key, task.worker, task.held.value.token) else db
    case _ => db
  }

  function SpansAfter(db: Rows, spans: Spans, now: int, task: Task, action: Action): Spans {
    match action
    case ClaimLease(token) => SpansAfterClaim(db, spans, task.key, task.worker, task.ttl, now, token)
    case Heartbeat =>
      if task.held.None? then spans
      else SpansAfterRenew(db, spans, task.key, task.worker, task.held.value.token, task.ttl, now)
    case Release =>
      if task.held.None? then spans
      else SpansAfterRelease(db, spans, task.key, task.worker, task.held.value.token, now)
    case _ => spans
  }

  function Apply(s: State, step: Step): State
    requires Enabled(s, step)
  {
    match step
    case Tick(to) => s.(now := to)
    case Queue(key) => s.(db := AfterCreate(s.db, key, s.now))
    case CancelRun(key) => s.(db := AfterCancelled(s.db, key, s.now))
    case Spawn(id, key, worker, ttl, resume) =>
      s.(tasks := s.tasks[id := Task(key, worker, ttl, resume, Claiming, None, false)])
    case ExecuteDirectly(id, key) =>
      s.(db := AfterCreate(s.db, key, s.now),
         tasks := s.tasks[id := Task(key, "", 0, false, Entering, None, false)])
    case Act(t, action) => AfterAction(s, t, action)
  }

  function AfterAction(s: State, t: nat, action: Action): State
    requires t in s.tasks
  {
    var task := s.tasks[t];
    var completed := action.Complete? && CompletesNow(s.db, task);
    State(s.now,
          DbAfter(s.db, s.now, task, action),
          s.tasks[t := TaskAfter(s.db, s.now, task, action)],
          SpansAfter(s.db, s.spans, s.now, task, action),
          if completed then s.finals[task.key := task.phase.result] else s.finals,
          if completed then s.completers[task.key := t] else s.completers,
          if action.Return? then s.returned + {t} else s.returned)
  }

  // ---- Whole runs ------------------------------------------------------------------------

  predicate Init(s: State) {
    && s.db == Rows(map[], map[], map[])
    && s.tasks == map[] && s.spans == map[]
    && s.finals == map[] && s.completers == map[] && s.returned == {}
  }

  type Trace = History<State, Step>

  ghost predicate Possible(h: Trace) {
    && |h.states| == |h.steps| + 1
    && Init(h.states[0])
    && forall i :: 0 <= i < |h.steps| ==> Follows(h, i)
  }

  ghost predicate Follows(h: Trace, i: int) {
    && 0 <= i < |h.steps| && i + 1 < |h.states|
    && Enabled(h.states[i], h.steps[i]) && h.states[i + 1] == Apply(h.states[i], h.steps[i])
  }

  lemma ExtendHistory(h: Trace, step: Step) returns (longer: Trace)
    requires Possible(h) && Enabled(Last(h), step)
    ensures Possible(longer) && longer == Then(h, step, Apply(Last(h), step))
    ensures Continues(longer, h) && Last(longer) == Apply(Last(h), step)
  {
    longer := Then(h, step, Apply(Last(h), step));
    forall i | 0 <= i < |longer.steps|
      ensures Follows(longer, i)
    {
      if i < |h.steps| {
        assert Follows(h, i);
      }
    }
  }

  // ---- Invariants ------------------------------------------------------------------------

  predicate Ended(s: State, key: RunKey) {
    key in s.db.runs && !Active(s.db.runs[key].status)
  }

  /** A report row exists exactly when its run completed with a report in its final state,
      and it is that state's report. */
  predicate ReportOk(s: State, key: RunKey) {
    && (key in s.db.reports <==>
          InStatus(s.db, key, {Completed}) && key in s.finals && s.finals[key].report.Some?)
    && (InStatus(s.db, key, {Completed}) <==> key in s.finals)
    && (key in s.finals <==> key in s.completers)
    && (key in s.db.reports ==> Reports.Create(s.finals[key]) == Reports.Stored(s.db.reports[key]))
  }

  /** Timestamps and error text agree with the status. */
  predicate RunOk(run: Run) {
    && (run.completedAt.Some? <==> !Active(run.status))
    && (run.error.Some? <==> run.status == Failed)
    && (run.status == Running || run.status == Completed ==> run.startedAt.Some?)
    && (run.status == Queued ==> run.startedAt.None?)
  }

  predicate TaskOk(s: State, t: nat)
    requires t in s.tasks
  {
    var task := s.tasks[t];
    && task.key in s.db.runs
    && (task.phase.Claiming? ==> task.held.None?)
    && (task.phase.Announcing? ==> task.held.Some?)
    && (task.held.Some? ==>
          && ValidTtl(task.ttl)
          && task.held.value.token in s.spans && s.spans[task.held.value.token].key == task.key)
    && (task.phase.Completing? || t in s.returned ==>
          task.key in s.completers && s.completers[task.key] == t)
    && (t in s.returned ==>
          task.phase.Returned? || task.phase.Interrupted? || task.phase.Releasing? || task.phase.Done?)
  }

  ghost predicate Inv(s: State) {
    && BookOk(s.db, s.spans, s.now)
    && (forall key :: ReportOk(s, key))
    && (forall key :: key in s.db.runs ==> RunOk(s.db.runs[key]))
    && (forall t :: t in s.tasks ==> TaskOk(s, t))
    && (forall t :: t in s.tasks ==> OwnRow(s, t))
    && s.returned <= s.tasks.Keys
    && (forall t, u :: t != u ==> OwnTokens(s, t, u) && OneDirect(s, t, u))
  }

  /** A lease row with the task's token is the one its last grant or renewal wrote. */
  predicate OwnRow(s: State, t: nat)
    requires t in s.tasks
  {
    var task := s.tasks[t];
    task.held.Some? && task.key in s.db.leases && s.db.leases[task.key].token == task.held.value.token ==>
      && s.db.leases[task.key].worker == Strip(task.worker)
      && s.db.leases[task.key].heartbeatAt == task.held.value.since
      && s.db.leases[task.key].expiresAt == Expiry(task.held.value.since, task.ttl)
  }

  predicate OwnTokens(s: State, t: nat, u: nat) {
    t in s.tasks && u in s.tasks && s.tasks[t].held.Some? && s.tasks[u].held.Some? ==>
      s.tasks[t].held.value.token != s.tasks[u].held.value.token
  }

  /** Inside `execute_queued` without a lease. */
  predicate RunsDirectly(task: Task) {
    Inside(task.phase) && task.held.None?
  }

  /** A run has one direct call at most: the one that queued it. */
  predicate OneDirect(s: State, t: nat, u: nat) {
    t in s.tasks && u in s.tasks && RunsDirectly(s.tasks[t]) && RunsDirectly(s.tasks[u]) ==>
      s.tasks[t].key != s.tasks[u].key
  }
}
