/** The three structures in which a job manager tracks its background tasks, under every order
    of schedules, cancellations, completions, late completion callbacks and shutdown.
    Tasks are numbered in the order they are created. */
module JobManager {
  import opened Evidence
  import opened Database

  /** `running` are the tasks whose coroutine has not finished; `pending` the finished ones whose
      completion callback the event loop has not run yet. */
  datatype Tracking = Tracking(
    tasks: set<nat>,
    taskKeys: map<nat, RunKey>,
    byRun: map<RunKey, nat>,
    closed: bool,
    started: bool,
    next: nat,
    running: set<nat>,
    pending: set<nat>)

  const Fresh := Tracking({}, map[], map[], false, false, 0, {}, {})

  function Scheduled(m: Tracking, key: RunKey): Tracking {
    m.(tasks := m.tasks + {m.next},
       taskKeys := m.taskKeys[m.next := key],
       byRun := m.byRun[key := m.next],
       next := m.next + 1,
       running := m.running + {m.next})
  }

  function ScheduledAll(m: Tracking, keys: seq<RunKey>): Tracking
    decreases |keys|
  {
    if keys == [] then m else ScheduledAll(Scheduled(m, keys[0]), keys[1..])
  }

  /** The coroutine of `task` finishes, normally or not; its callback is queued. */
  function Finished(m: Tracking, task: nat): Tracking {
    m.(running := m.running - {task}, pending := m.pending + {task})
  }

  /** What the completion callback does. */
  function CalledBack(m: Tracking, task: nat): Tracking {
    m.(tasks := m.tasks - {task},
       taskKeys := m.taskKeys - {task},
       byRun := if task in m.taskKeys && m.taskKeys[task] in m.byRun && m.byRun[m.taskKeys[task]] == task
                then m.byRun - {m.taskKeys[task]} else m.byRun,
       pending := m.pending - {task})
  }

  function Cleared(m: Tracking): Tracking {
    m.(tasks := {}, taskKeys := map[], byRun := map[])
  }

  /** The task a cancellation of the run interrupts. */
  function Target(m: Tracking, key: RunKey): Option<nat> {
    if key in m.byRun && m.byRun[key] in m.running then Some(m.byRun[key]) else None
  }

  // ---- The manager -----------------------------------------------------------------------

  class Manager {
    var tasks: set<nat>
    var taskKeys: map<nat, RunKey>
    var byRun: map<RunKey, nat>
    var closed: bool
    var started: bool
    var next: nat
    var running: set<nat>
    var pending: set<nat>

    ghost function State(): Tracking
      reads this
    {
      Tracking(tasks, taskKeys, byRun, closed, started, next, running, pending)
    }

    constructor ()
      ensures State() == Fresh
    {
      tasks, taskKeys, byRun := {}, map[], map[];
      closed, started := false, false;
      next, running, pending := 0, {}, {};
    }

    /** `_schedule`: creates the task and records it in all three structures. */
    method Schedule(key: RunKey)
      modifies this
      ensures State() == Scheduled(old(State()), key)
    {
      var task := next;
      next := next + 1;
      running := running + {task};
      tasks := tasks + {task};
      byRun := byRun[key := task];
      taskKeys := taskKeys[task := key];
    }

    /** `start`: refused once closed, a no-op when already started, else one task per listed run. */
    method Start(recoverable: seq<RunKey>) returns (recovered: Option<nat>)
      modifies this
      ensures old(closed) ==> recovered == None && State() == old(State())
      ensures !old(closed) && old(started) ==> recovered == Some(0) && State() == old(State())
      ensures !old(closed) && !old(started) ==>
                recovered == Some(|recoverable|) && State() == ScheduledAll(old(State()).(started := true), recoverable)
    {
      if closed {
        return None;
      }
      if started {
        return Some(0);
      }
      started := true;
      ghost var before := State();
      var i := 0;
      while i < |recoverable|
        invariant 0 <= i <= |recoverable|
        invariant ScheduledAll(State(), recoverable[i..]) == ScheduledAll(before, recoverable)
      {
        assert recoverable[i..][0] == recoverable[i] && recoverable[i..][1..] == recoverable[i + 1..];
        Schedule(recoverable[i]);
        i := i + 1;
      }
      return Some(|recoverable|);
    }

    /** `cancel`, after the database accepted the cancellation: the task to interrupt, if any. */
    method TaskToCancel(key: RunKey) returns (task: Option<nat>)
      ensures task == Target(State(), key)
    {
      task := None;
      if key in byRun {
        var tracked := byRun[key];
        if tracked in running {
          task := Some(tracked);
        }
      }
    }

    /** `_task_completed`. */
    method TaskCompleted(task: nat)
      modifies this
      ensures State() == CalledBack(old(State()), task)
    {
      pending := pending - {task};
      tasks := tasks - {task};
      if task in taskKeys {
        var key := taskKeys[task];
        taskKeys := taskKeys - {task};
        if key in byRun && byRun[key] == task {
          byRun := byRun - {key};
        }
      } else {
        assert taskKeys - {task} == taskKeys;
      }
    }

    /** `close` up to its wait: no new submissions, and the tasks to interrupt and wait for. */
    method BeginClose() returns (awaited: set<nat>)
      modifies this`closed
      ensures awaited == tasks && State() == old(State()).(closed := true)
    {
      closed := true;
      awaited := tasks;
    }

    /** `close` after its wait. */
    method EndClose()
      modifies this`tasks, this`byRun, this`taskKeys
      ensures State() == Cleared(old(State()))
    {
      tasks, byRun, taskKeys := {}, map[], map[];
    }
  }

  // ---- Every order of events -------------------------------------------------------------

  /** One uninterrupted stretch of the event loop. `submit` awaits the database between its
      closed check and its schedule, so a schedule may follow a close. */
  datatype Event =
    | Schedule(key: RunKey)
    | Finish(task: nat)
    | Callback(task: nat)
    | BeginClose
    | EndClose

  predicate Can(m: Tracking, e: Event) {
    match e
    case Finish(task) => task in m.running
    case Callback(task) => task in m.pending
    case _ => true
  }

  function After(m: Tracking, e: Event): Tracking {
    match e
    case Schedule(key) => Scheduled(m, key)
    case Finish(task) => Finished(m, task)
    case Callback(task) => CalledBack(m, task)
    case BeginClose => m.(closed := true)
    case EndClose => Cleared(m)
  }

  predicate Happens(m: Tracking, events: seq<Event>)
    decreases |events|
  {
    events == [] || (Can(m, events[0]) && Happens(After(m, events[0]), events[1..]))
  }

  function Outcome(m: Tracking, events: seq<Event>): Tracking
    decreases |events|
  {
    if events == [] then m else Outcome(After(m, events[0]), events[1..])
  }

  /** The three structures agree, and each run maps to its newest tracked task. */
  ghost predicate Consistent(m: Tracking) {
    && m.taskKeys.Keys == m.tasks
    && m.tasks <= m.running + m.pending
    && (forall t :: t in m.running || t in m.pending ==> t < m.next)
    && m.running !! m.pending
    && (forall key :: key in m.byRun ==>
          && m.byRun[key] in m.taskKeys && m.taskKeys[m.byRun[key]] == key
          && forall t :: t in m.taskKeys && m.taskKeys[t] == key ==> t <= m.byRun[key])
  }

  lemma EventKeepsConsistent(m: Tracking, e: Event)
    requires Consistent(m) && Can(m, e)
    ensures Consistent(After(m, e))
  {
  }

  lemma {:induction false} AlwaysConsistent(m: Tracking, events: seq<Event>)
    requires Consistent(m) && Happens(m, events)
    ensures Consistent(Outcome(m, events))
    decreases |events|
  {
    if events != [] {
      EventKeepsConsistent(m, events[0]);
      AlwaysConsistent(After(m, events[0]), events[1..]);
    }
  }

  /** The manager is closed, and starts nothing more, from the beginning of the first `close` on. */
  lemma {:induction false} ClosedExactly(m: Tracking, events: seq<Event>)
    ensures Outcome(m, events).closed <==> m.closed || exists i :: 0 <= i < |events| && events[i].BeginClose?
    decreases |events|
  {
    if events != [] {
      ClosedExactly(After(m, events[0]), events[1..]);
      assert forall i :: 0 < i < |events| ==> events[i] == events[1..][i - 1];
      assert forall i :: 0 <= i < |events| - 1 ==> events[1..][i] == events[i + 1];
    }
  }

  /** An older task finishing never evicts the task that replaced it. */
  lemma OlderNeverEvictsNewer(events: seq<Event>, older: nat, newer: nat, key: RunKey)
    requires Happens(Fresh, events)
    requires older in Outcome(Fresh, events).pending && older != newer
    requires key in Outcome(Fresh, events).byRun && Outcome(Fresh, events).byRun[key] == newer
    ensures var m := After(Outcome(Fresh, events), Callback(older));
      key in m.byRun && m.byRun[key] == newer && newer in m.tasks
  {
    AlwaysConsistent(Fresh, events);
  }

  /** Nothing is left behind: once every task is done and called back, all three are empty. */
  lemma QuiescentIsEmpty(events: seq<Event>)
    requires Happens(Fresh, events)
    requires Outcome(Fresh, events).running == {} && Outcome(Fresh, events).pending == {}
    ensures var m := Outcome(Fresh, events); m.tasks == {} && m.taskKeys == map[] && m.byRun == map[]
  {
    AlwaysConsistent(Fresh, events);
    var m := Outcome(Fresh, events);
    assert m.taskKeys.Keys == {};
    assert forall key :: key !in m.byRun;
  }

  /** The tasks scheduled by `events` that were neither called back nor cleared since. */
  function Open(events: seq<Event>): set<nat> {
    if events == [] then {}
    else
      var before, last := events[..|events| - 1], events[|events| - 1];
      match last
      case Schedule(_) => Open(before) + {Schedules(before)}
      case Callback(task) => Open(before) - {task}
      case EndClose => {}
      case _ => Open(before)
  }

  /** How many tasks `events` schedules, which numbers the next one. */
  function Schedules(events: seq<Event>): nat {
    if events == [] then 0
    else Schedules(events[..|events| - 1]) + if events[|events| - 1].Schedule? then 1 else 0
  }

  /** The task scheduled last for a run, unless it was called back or cleared since. */
  function Newest(events: seq<Event>, key: RunKey): Option<nat> {
    if events == [] then None
    else
      var before, last := events[..|events| - 1], events[|events| - 1];
      match last
      case Schedule(k) => if k == key then Some(Schedules(before)) else Newest(before, key)
      case Callback(task) => if Newest(before, key) == Some(task) then None else Newest(before, key)
      case EndClose => None
      case _ => Newest(before, key)
  }

  predicate Tracks(events: seq<Event>, key: RunKey, m: Tracking) {
    && m.tasks == Open(events)
    && m.next == Schedules(events)
    && Newest(events, key) == (if key in m.byRun then Some(m.byRun[key]) else None)
  }

  /** The structures say exactly what the events say: which tasks are open, and which is each
      run's newest. In particular a submission that was past its closed check when `close`
      began still leaves a tracked task behind. */
  lemma {:induction false} TracksExactly(events: seq<Event>, key: RunKey)
    requires Happens(Fresh, events)
    ensures Tracks(events, key, Outcome(Fresh, events))
  {
    if events != [] {
      var before, last := events[..|events| - 1], events[|events| - 1];
      assert events == before + [last];
      OutcomeSplits(Fresh, before, last);
      TracksExactly(before, key);
      AlwaysConsistent(Fresh, before);
      EventKeepsTracks(before, last, key, Outcome(Fresh, before));
    }
  }

  lemma EventKeepsTracks(before: seq<Event>, last: Event, key: RunKey, m: Tracking)
    requires Consistent(m) && Can(m, last) && Tracks(before, key, m)
    ensures Tracks(before + [last], key, After(m, last))
  {
    var events := before + [last];
    assert events[..|events| - 1] == before && events[|events| - 1] == last;
    match last
    case Callback(task) => CallbackKeepsNewest(m, task, key);
    case _ =>
  }

  lemma CallbackKeepsNewest(m: Tracking, task: nat, key: RunKey)
    requires Consistent(m)
    ensures var m' := CalledBack(m, task);
      && (key in m'.byRun <==> key in m.byRun && m.byRun[key] != task)
      && (key in m'.byRun ==> m'.byRun[key] == m.byRun[key])
  {
  }

  lemma {:induction false} OutcomeSplits(m: Tracking, events: seq<Event>, e: Event)
    ensures Outcome(m, events + [e]) == After(Outcome(m, events), e)
    ensures Happens(m, events + [e]) <==> Happens(m, events) && Can(Outcome(m, events), e)
    decreases |events|
  {
    if events == [] {
      assert ([] + [e])[1..] == [];
    } else {
      OutcomeSplits(After(m, events[0]), events[1..], e);
      assert (events + [e])[1..] == events[1..] + [e];
    }
  }

  /** What `start` does with the runs it lists is one schedule after the other. */
  lemma {:induction false} StartSchedulesEach(m: Tracking, keys: seq<RunKey>)
    ensures ScheduledAll(m, keys) == Outcome(m, Schedulings(keys))
    decreases |keys|
  {
    if keys != [] {
      StartSchedulesEach(Scheduled(m, keys[0]), keys[1..]);
      assert Schedulings(keys)[1..] == Schedulings(keys[1..]);
    }
  }

  function Schedulings(keys: seq<RunKey>): (events: seq<Event>)
    ensures |events| == |keys|
    ensures forall i :: 0 <= i < |keys| ==> events[i] == Schedule(keys[i])
  {
    seq(|keys|, i requires 0 <= i < |keys| => Schedule(keys[i]))
  }

  // ---- What a cancellation finds ---------------------------------------------------------

  /** A task runs until its finish, which needs its schedule; its callback needs its finish. */
  lemma {:induction false} RunsUntilFinished(events: seq<Event>, t: nat)
    requires Happens(Fresh, events)
    ensures Outcome(Fresh, events).next == Schedules(events)
    ensures t in Outcome(Fresh, events).running <==> t < Schedules(events) && Finish(t) !in events
    ensures t in Outcome(Fresh, events).pending <==> Finish(t) in events && Callback(t) !in events
    ensures Finish(t) in events ==> t < Schedules(events)
    ensures Callback(t) in events ==> Finish(t) in events
  {
    if events != [] {
      var before, last := events[..|events| - 1], events[|events| - 1];
      assert events == before + [last];
      OutcomeSplits(Fresh, before, last);
      RunsUntilFinished(before, t);
      assert last.Schedule? ==> Finish(Schedules(before)) !in before || t != Schedules(before);
    }
  }

  /** The p-th event schedules task `t` for the run. */
  predicate SchedulesAt(events: seq<Event>, p: nat, key: RunKey, t: nat) {
    p < |events| && events[p] == Schedule(key) && Schedules(events[..p]) == t
  }

  /** Since then the run was scheduled again, or the manager finished closing. */
  ghost predicate Displaced(events: seq<Event>, p: nat, key: RunKey) {
    exists q :: p < q < |events| && (events[q] == Schedule(key) || events[q].EndClose?)
  }

  ghost predicate Standing(events: seq<Event>, p: nat, key: RunKey, t: nat) {
    SchedulesAt(events, p, key, t) && !Displaced(events, p, key)
  }

  lemma StandingAfter(before: seq<Event>, last: Event, p: nat, key: RunKey, t: nat)
    ensures Standing(before + [last], p, key, t) <==>
              || (p == |before| && last == Schedule(key) && t == Schedules(before))
              || (Standing(before, p, key, t) && last != Schedule(key) && !last.EndClose?)
  {
    var events := before + [last];
    if p < |before| {
      assert events[..p] == before[..p];
      assert Displaced(events, p, key) <==> Displaced(before, p, key) || last == Schedule(key) || last.EndClose? by {
        assert events[|before|] == last;
        if Displaced(before, p, key) {
          var q :| p < q < |before| && (before[q] == Schedule(key) || before[q].EndClose?);
          assert events[q] == before[q];
        }
      }
    } else if p == |before| {
      assert events[..p] == before;
    }
  }

  ghost predicate NewestIs(events: seq<Event>, key: RunKey, t: nat) {
    Callback(t) !in events && exists p :: Standing(events, p, key, t)
  }

  lemma NewestIsAfter(before: seq<Event>, last: Event, key: RunKey, t: nat)
    requires Callback(t) in before ==> t < Schedules(before)
    ensures NewestIs(before + [last], key, t) <==>
              if last == Schedule(key) then t == Schedules(before)
              else NewestIs(before, key, t) && !last.EndClose? && last != Callback(t)
  {
    forall p: nat
      ensures Standing(before + [last], p, key, t) <==>
                || (p == |before| && last == Schedule(key) && t == Schedules(before))
                || (Standing(before, p, key, t) && last != Schedule(key) && !last.EndClose?)
    {
      StandingAfter(before, last, p, key, t);
    }
    if last == Schedule(key) && t == Schedules(before) {
      assert Standing(before + [last], |before|, key, t);
    }
  }

  lemma {:induction false} NewestStands(events: seq<Event>, key: RunKey, t: nat)
    requires Happens(Fresh, events)
    ensures Newest(events, key) == Some(t) <==> NewestIs(events, key, t)
  {
    if events != [] {
      var before, last := events[..|events| - 1], events[|events| - 1];
      assert events == before + [last];
      OutcomeSplits(Fresh, before, last);
      NewestStands(before, key, t);
      RunsUntilFinished(before, t);
      NewestIsAfter(before, last, key, t);
    }
  }

  /** A cancellation interrupts exactly the unfinished task of the run's last schedule, unless the
      manager finished closing since. */
  lemma CancelFindsExactly(events: seq<Event>, key: RunKey, t: nat)
    requires Happens(Fresh, events)
    ensures Target(Outcome(Fresh, events), key) == Some(t) <==>
              Finish(t) !in events && exists p :: Standing(events, p, key, t)
  {
    TracksExactly(events, key);
    NewestStands(events, key, t);
    RunsUntilFinished(events, t);
    AlwaysConsistent(Fresh, events);
    if p :| Standing(events, p, key, t) {
      SchedulesGrow(events, p);
    }
  }

  lemma {:induction false} SchedulesGrow(events: seq<Event>, p: nat)
    requires p < |events| && events[p].Schedule?
    ensures Schedules(events[..p]) < Schedules(events)
  {
    var before := events[..|events| - 1];
    if p == |before| {
      assert events[..p] == before;
    } else {
      assert events[..p] == before[..p];
      SchedulesGrow(before, p);
    }
  }

  /** So a task that still runs is missed exactly if its run was scheduled again, or the manager
      finished closing, after it was scheduled. */
  lemma RunningTaskIsMissedExactly(events: seq<Event>, p: nat, key: RunKey, t: nat)
    requires Happens(Fresh, events) && SchedulesAt(events, p, key, t) && t in Outcome(Fresh, events).running
    ensures Target(Outcome(Fresh, events), key) != Some(t) <==> Displaced(events, p, key)
  {
    CancelFindsExactly(events, key, t);
    RunsUntilFinished(events, t);
    assert Standing(events, p, key, t) <==> !Displaced(events, p, key);
    if q :| Standing(events, q, key, t) {
      SchedulesOnce(events, p, q, t);
    }
  }

  lemma SchedulesOnce(events: seq<Event>, p: nat, q: nat, t: nat)
    requires p < |events| && q < |events| && events[p].Schedule? && events[q].Schedule?
    requires Schedules(events[..p]) == t == Schedules(events[..q])
    ensures p == q
  {
    if p < q {
      SchedulesDiffer(events, p, q);
    } else if q < p {
      SchedulesDiffer(events, q, p);
    }
  }

  lemma SchedulesDiffer(events: seq<Event>, p: nat, q: nat)
    requires p < q <= |events| && events[p].Schedule?
    ensures Schedules(events[..p]) < Schedules(events[..q])
  {
    SchedulesGrow(events[..q], p);
    assert events[..q][..p] == events[..p];
  }

  /** For instance: a run is scheduled twice (submitted, then listed by `start`); once the second task has
      been refused the lease and called back, cancelling the run finds nothing and the first runs on. */
  lemma CancelMissesTheOlderTask(key: RunKey) returns (events: seq<Event>)
    ensures Happens(Fresh, events) && SchedulesAt(events, 0, key, 0) && 0 in Outcome(Fresh, events).running
    ensures Target(Outcome(Fresh, events), key) == None
  {
    events := [Schedule(key)];
    assert events == [] + [Schedule(key)];
    OutcomeSplits(Fresh, [], Schedule(key));
    OutcomeSplits(Fresh, events, Schedule(key));
    events := events + [Schedule(key)];
    OutcomeSplits(Fresh, events, Finish(1));
    events := events + [Finish(1)];
    OutcomeSplits(Fresh, events, Callback(1));
    events := events + [Callback(1)];
  }
}
