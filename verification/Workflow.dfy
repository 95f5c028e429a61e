/** The eight-agent research workflow as a machine over its nodes. Everything the agents' models
    and clients answer arrives in the actions, so every lemma holds for any answers. */
module Workflow {
  import opened Evidence
  import opened Histories
  import Reflection
  import Reports
  import Scouts
  import opened Text
  import Writer

  datatype Config = Config(
    maxIterations: nat,
    maxAttempts: nat,
    policy: Writer.Policy,
    tenantKnown: bool,
    usesMcp: bool,
    fold: string -> string)

  /** The node that runs next; the two scouts run side by side. */
  datatype Place =
    | Routing
    | Answering
    | Planning
    | Scouting(webLeft: bool, localLeft: bool)
    | Judging
    | Analysing
    | Reflecting
    | Dispatching
    | Writing
    | Finished
    | Aborted

  datatype ScoutStatus = Unset | Disabled | Skipped | Failed | Partial | Completed | Empty

  datatype State = State(
    place: Place,
    highRisk: bool,
    plan: seq<Scouts.Task>,
    outcomes: seq<bool>,
    web: seq<Source>,
    webStatus: ScoutStatus,
    mcp: seq<Source>,
    mcpErrors: seq<string>,
    mcpStatus: ScoutStatus,
    local: seq<Source>,
    localErrors: seq<string>,
    localStatus: ScoutStatus,
    evidence: seq<Source>,
    scores: seq<Score>,
    gaps: seq<Reflection.Gap>,
    conflicts: seq<Conflict>,
    analysisGaps: seq<Reflection.Gap>,
    needsMore: bool,
    supplementary: seq<Reflection.Query>,
    attempted: seq<string>,
    iteration: nat,
    written: Option<Writer.Outcome>)

  function Initial(): State {
    State(Routing, false, [], [], [], Unset, [], [], Unset, [], [], Unset, [], [], [], [], [], false, [], [], 0, None)
  }

  datatype McpAnswer = McpFailed(message: string) | McpFound(sources: seq<Source>)

  datatype Action =
    | Route(direct: bool, highRisk: bool)
    | Answer
    | Plan(tasks: seq<Scouts.Task>)
    | ScoutWeb(outcomes: seq<bool>, sources: seq<Source>, mcp: McpAnswer)
    | ScoutLocal(found: seq<Source>, errors: seq<string>)
    | Judge(evidence: seq<Source>, scores: seq<Score>, gaps: seq<Reflection.Gap>, conflicts: seq<Conflict>)
    | Analyse(gaps: seq<Reflection.Gap>, needsMore: bool)
    | Reflect(reply: Reflection.Reply)
    | Dispatch
    | Write(answers: seq<Option<string>>)
    | Abort

  // ---- The nodes -------------------------------------------------------------------------

  function Tasks(s: State, scout: Scouts.Scout): seq<Scouts.Task> {
    Scouts.TasksFor(s.plan, s.iteration, s.supplementary, scout)
  }

  function Texts(tasks: seq<Scouts.Task>): seq<string> {
    seq(|tasks|, i requires 0 <= i < |tasks| => tasks[i].query)
  }

  function WebStatus(idle: bool, outcomes: seq<bool>, found: bool): ScoutStatus {
    if idle then Skipped
    else if true !in outcomes then Failed
    else if false in outcomes then Partial
    else if found then Completed
    else Empty
  }

  function LocalStatus(idle: bool, errors: bool, found: bool): ScoutStatus {
    if idle then Skipped
    else if errors && !found then Failed
    else if errors then Partial
    else if found then Completed
    else Empty
  }

  /** The web scout's update: web outcomes and sources, and what the MCP servers found. */
  function AfterWeb(c: Config, s: State, a: Action): State
    requires a.ScoutWeb?
  {
    var idle := Tasks(s, Scouts.WebScout) == [];
    var asked := c.usesMcp && !idle;
    var mcp := if asked && a.mcp.McpFound? then Scouts.Merge(s.mcp, a.mcp.sources) else s.mcp;
    s.(outcomes := s.outcomes + a.outcomes,
       web := Scouts.Merge(s.web, a.sources),
       webStatus := WebStatus(idle, a.outcomes, a.sources != []),
       mcp := mcp,
       mcpErrors := if asked && a.mcp.McpFailed? then s.mcpErrors + [a.mcp.message] else s.mcpErrors,
       mcpStatus := if !c.usesMcp then Disabled
                    else if idle then Skipped
                    else if a.mcp.McpFailed? then Failed
                    else if mcp != [] then Completed
                    else Empty)
  }

  function AfterLocal(s: State, a: Action): State
    requires a.ScoutLocal?
  {
    var idle := Tasks(s, Scouts.LocalScout) == [];
    s.(local := Scouts.Merge(s.local, a.found),
       localErrors := s.localErrors + a.errors,
       localStatus := LocalStatus(idle, a.errors != [], a.found != []))
  }

  /** Where the round goes when one scout is done: on to the judge only after the other. */
  function Joined(place: Place): Place {
    if place.Scouting? && !place.webLeft && !place.localLeft then Judging else place
  }

  /** Reflection, overridden once the budget of supplementary rounds is spent. */
  function Decided(c: Config, s: State, reply: Reflection.Reply): Reflection.Decision {
    var decision := Reflection.Decide(c.fold, s.needsMore, s.gaps + s.analysisGaps, s.attempted, reply);
    if decision.Continue? && s.iteration >= c.maxIterations then Reflection.Write else decision
  }

  function AfterReflect(c: Config, s: State, reply: Reflection.Reply): State {
    match Decided(c, s, reply)
    case Raises => s.(place := Aborted)
    case Write => s.(place := Writing, supplementary := [])
    case Continue(queries) =>
      s.(place := Dispatching,
         supplementary := queries,
         attempted := s.attempted + Reflection.Texts(queries),
         iteration := s.iteration + 1)
  }

  function BriefOf(c: Config, s: State): Writer.Brief {
    Writer.Brief(s.evidence, s.scores, s.highRisk, c.policy)
  }

  function AfterWrite(c: Config, s: State, answers: seq<Option<string>>): State
    requires c.maxAttempts >= 1
  {
    WithOutcome(s, Writer.WriteFrom(Writer.Attempts(BriefOf(c, s), answers), 0, c.maxAttempts, None))
  }

  function WithOutcome(s: State, outcome: Writer.Outcome): State {
    if outcome.Raised? then s.(place := Aborted) else s.(place := Finished, written := Some(outcome))
  }

  predicate Enabled(s: State, a: Action) {
    match a
    case Route(_, _) => s.place.Routing?
    case Answer => s.place.Answering?
    case Plan(_) => s.place.Planning?
    case ScoutWeb(_, _, _) => s.place.Scouting? && s.place.webLeft
    case ScoutLocal(_, _) => s.place.Scouting? && s.place.localLeft
    case Judge(_, _, _, _) => s.place.Judging?
    case Analyse(_, _) => s.place.Analysing?
    case Reflect(_) => s.place.Reflecting?
    case Dispatch => s.place.Dispatching?
    case Write(_) => s.place.Writing?
    case Abort => !s.place.Finished? && !s.place.Aborted?
  }

  function Apply(c: Config, s: State, a: Action): State
    requires c.maxAttempts >= 1 && Enabled(s, a)
  {
    match a
    case Route(direct, highRisk) => s.(place := if direct then Answering else Planning, highRisk := highRisk)
    case Answer => s.(place := Finished)
    case Plan(tasks) =>
      s.(place := Scouting(true, true), plan := tasks, attempted := Texts(tasks), iteration := 0)
    case ScoutWeb(_, _, _) => AfterWeb(c, s, a).(place := Joined(s.place.(webLeft := false)))
    case ScoutLocal(_, _) =>
      if c.tenantKnown then AfterLocal(s, a).(place := Joined(s.place.(localLeft := false)))
      else s.(place := Aborted)
    case Judge(evidence, scores, gaps, conflicts) =>
      s.(place := Analysing, evidence := evidence, scores := scores, gaps := gaps, conflicts := conflicts)
    case Analyse(gaps, needsMore) => s.(place := Reflecting, analysisGaps := gaps, needsMore := needsMore)
    case Reflect(reply) => AfterReflect(c, s, reply)
    case Dispatch => s.(place := Scouting(true, true))
    case Write(answers) => AfterWrite(c, s, answers)
    case Abort => s.(place := Aborted)
  }

  // ---- The nodes as the program runs them ------------------------------------------------

  method WebScoutNode(c: Config, s: State, a: Action) returns (s': State)
    requires a.ScoutWeb?
    ensures s' == AfterWeb(c, s, a)
  {
    var tasks := Tasks(s, Scouts.WebScout);
    var sources := Scouts.MergeSources(s.web, a.sources);
    var mcp, mcpErrors, mcpStatus := s.mcp, s.mcpErrors, Disabled;
    if c.usesMcp {
      if tasks == [] {
        mcpStatus := Skipped;
      } else if a.mcp.McpFailed? {
        mcpErrors := mcpErrors + [a.mcp.message];
        mcpStatus := Failed;
      } else {
        mcp := Scouts.MergeSources(mcp, a.mcp.sources);
        mcpStatus := if mcp != [] then Completed else Empty;
      }
    }
    var succeeded := 0;
    for i := 0 to |a.outcomes|
      invariant 0 <= succeeded <= i
      invariant succeeded == 0 <==> true !in a.outcomes[..i]
      invariant succeeded < i <==> false in a.outcomes[..i]
    {
      assert a.outcomes[..i + 1] == a.outcomes[..i] + [a.outcomes[i]];
      succeeded := succeeded + if a.outcomes[i] then 1 else 0;
    }
    assert a.outcomes[..|a.outcomes|] == a.outcomes;
    var status := if tasks == [] then Skipped
                  else if a.outcomes == [] || succeeded == 0 then Failed
                  else if succeeded < |a.outcomes| then Partial
                  else if a.sources != [] then Completed
                  else Empty;
    s' := s.(outcomes := s.outcomes + a.outcomes, web := sources, webStatus := status,
             mcp := mcp, mcpErrors := mcpErrors, mcpStatus := mcpStatus);
  }

  /** Nothing when the state has no tenant, which the local scout refuses. */
  method LocalScoutNode(c: Config, s: State, a: Action) returns (s': Option<State>)
    requires a.ScoutLocal?
    ensures s' == if c.tenantKnown then Some(AfterLocal(s, a)) else None
  {
    if !c.tenantKnown {
      return None;
    }
    var tasks := Tasks(s, Scouts.LocalScout);
    var sources := Scouts.MergeSources(s.local, a.found);
    var status := if tasks == [] then Skipped
                  else if a.errors != [] && a.found == [] then Failed
                  else if a.errors != [] then Partial
                  else if a.found != [] then Completed
                  else Empty;
    s' := Some(s.(local := sources, localErrors := s.localErrors + a.errors, localStatus := status));
  }

  method ReflectNode(c: Config, s: State, reply: Reflection.Reply) returns (s': State)
    ensures s' == AfterReflect(c, s, reply)
  {
    var decision := Reflection.Reflect(c.fold, s.needsMore, s.gaps + s.analysisGaps, s.attempted, reply);
    if decision.Raises? {
      return s.(place := Aborted);
    }
    if decision.Continue? && s.iteration >= c.maxIterations {
      decision := Reflection.Write;
    }
    var attempted, iteration := s.attempted, s.iteration;
    if decision.Continue? {
      attempted := attempted + Reflection.Texts(decision.queries);
      iteration := iteration + 1;
    }
    s' := s.(place := if decision.Continue? then Dispatching else Writing,
             supplementary := if decision.Continue? then decision.queries else [],
             attempted := attempted, iteration := iteration);
  }

  // ---- Runs ------------------------------------------------------------------------------

  type Run = History<State, Action>

  ghost predicate IsRun(c: Config, r: Run) {
    && c.maxAttempts >= 1
    && |r.states| == |r.steps| + 1
    && r.states[0] == Initial()
    && forall i :: 0 <= i < |r.steps| ==> StepAt(c, r, i)
  }

  ghost predicate StepAt(c: Config, r: Run, i: int) {
    0 <= i < |r.steps| && i + 1 < |r.states| && Steps(c, r.states[i], r.steps[i], r.states[i + 1])
  }

  ghost predicate Steps(c: Config, s: State, a: Action, s': State) {
    c.maxAttempts >= 1 && Enabled(s, a) && s' == Apply(c, s, a)
  }

  // ---- Termination -----------------------------------------------------------------------

  /** How many steps a run can still take. */
  function Remaining(c: Config, s: State): int {
    var rounds := c.maxIterations - s.iteration;
    match s.place
    case Routing => 6 * c.maxIterations + 8
    case Planning => 6 * c.maxIterations + 7
    case Dispatching => 6 * rounds + 7
    case Scouting(web, local) => 6 * rounds + 4 + (if web then 1 else 0) + (if local then 1 else 0)
    case Judging => 6 * rounds + 4
    case Analysing => 6 * rounds + 3
    case Reflecting => 6 * rounds + 2
    case Writing => 1
    case Answering => 1
    case Finished => 0
    case Aborted => 0
  }

  ghost predicate Control(c: Config, s: State) {
    && s.iteration <= c.maxIterations
    && (s.place.Routing? || s.place.Planning? ==> s.iteration == 0 && s.attempted == [])
    && (s.place.Scouting? ==> s.place.webLeft || s.place.localLeft)
    && (s.written.Some? ==> s.place.Finished?)
    && (s.iteration > 0 && (s.place.Scouting? || s.place.Dispatching?) ==> s.supplementary != [])
  }

  ghost predicate PoolsDistinct(s: State) {
    Scouts.DistinctIds(s.web) && Scouts.DistinctIds(s.local) && Scouts.DistinctIds(s.mcp)
  }

  /** Where reflection leads, and what that does to the budget. */
  lemma ReflectionLeads(c: Config, s: State, reply: Reflection.Reply)
    ensures var s' := AfterReflect(c, s, reply);
      && (s'.place.Aborted? || s'.place.Writing? || s'.place.Dispatching?)
      && s'.written == s.written
      && (s'.place.Dispatching? ==>
            s.iteration < c.maxIterations && s'.iteration == s.iteration + 1 && s'.supplementary != [])
      && (!s'.place.Dispatching? ==> s'.iteration == s.iteration)
  {
    Reflection.ContinuesOnlyWithNewQueries(c.fold, s.needsMore, s.gaps + s.analysisGaps, s.attempted, reply);
  }

  lemma ReflectionKeepsControl(c: Config, s: State, reply: Reflection.Reply)
    requires Control(c, s) && s.place.Reflecting?
    ensures Control(c, AfterReflect(c, s, reply))
    ensures Remaining(c, AfterReflect(c, s, reply)) < Remaining(c, s)
  {
    ReflectionLeads(c, s, reply);
  }

  lemma WritingKeepsControl(c: Config, s: State, outcome: Writer.Outcome)
    requires Control(c, s) && s.place.Writing?
    ensures Control(c, WithOutcome(s, outcome))
    ensures Remaining(c, WithOutcome(s, outcome)) < Remaining(c, s)
  {
  }

  lemma ScoutingKeepsControl(c: Config, s: State, a: Action)
    requires c.maxAttempts >= 1 && Enabled(s, a) && Control(c, s) && (a.ScoutWeb? || a.ScoutLocal?)
    ensures Control(c, Apply(c, s, a))
    ensures Remaining(c, Apply(c, s, a)) < Remaining(c, s)
  {
  }

  lemma StepKeepsControl(c: Config, s: State, a: Action)
    requires c.maxAttempts >= 1 && Enabled(s, a) && Control(c, s)
    ensures Control(c, Apply(c, s, a))
    ensures Remaining(c, Apply(c, s, a)) < Remaining(c, s)
  {
    match a
    case Reflect(reply) => ReflectionKeepsControl(c, s, reply);
    case Write(answers) =>
      WritingKeepsControl(c, s, Writer.WriteFrom(Writer.Attempts(BriefOf(c, s), answers), 0, c.maxAttempts, None));
    case ScoutWeb(_, _, _) => ScoutingKeepsControl(c, s, a);
    case ScoutLocal(_, _) => ScoutingKeepsControl(c, s, a);
    case _ =>
  }

  lemma StepKeepsPoolsDistinct(c: Config, s: State, a: Action, s': State)
    requires Steps(c, s, a, s') && PoolsDistinct(s)
    ensures PoolsDistinct(s')
  {
    if a.ScoutWeb? {
      Scouts.MergeExtends(s.web, a.sources);
      if a.mcp.McpFound? {
        Scouts.MergeExtends(s.mcp, a.mcp.sources);
      }
    } else if a.ScoutLocal? {
      Scouts.MergeExtends(s.local, a.found);
    }
  }

  ghost predicate Inv(c: Config, s: State) {
    Control(c, s) && PoolsDistinct(s)
  }

  lemma StepKeepsInv(c: Config, r: Run, i: nat)
    requires IsRun(c, r) && i < |r.steps| && Inv(c, r.states[i])
    ensures Inv(c, r.states[i + 1])
    ensures Remaining(c, r.states[i + 1]) < Remaining(c, r.states[i])
  {
    assert StepAt(c, r, i);
    StepKeepsControl(c, r.states[i], r.steps[i]);
    StepKeepsPoolsDistinct(c, r.states[i], r.steps[i], r.states[i + 1]);
  }

  /** Every state of a run satisfies the invariant, and every step uses up part of a budget of
      `6 * maxIterations + 8`. */
  lemma {:induction false} RunsEnd(c: Config, r: Run, i: nat)
    requires IsRun(c, r) && i < |r.states|
    ensures Inv(c, r.states[i])
    ensures Remaining(c, r.states[i]) <= 6 * c.maxIterations + 8 - i
  {
    if i > 0 {
      RunsEnd(c, r, i - 1);
      StepKeepsInv(c, r, i - 1);
    }
  }

  /** Every run ends: it takes at most `6 * maxIterations + 8` steps, whatever the agents answer. */
  lemma RunLengthIsBounded(c: Config, r: Run)
    requires IsRun(c, r)
    ensures |r.steps| <= 6 * c.maxIterations + 8
  {
    RunsEnd(c, r, |r.steps|);
    assert Remaining(c, Last(r)) >= 0;
  }

  // ---- Rounds ----------------------------------------------------------------------------

  function Count(actions: seq<Action>, counts: Action -> bool): nat {
    if actions == [] then 0
    else Count(actions[..|actions| - 1], counts) + if counts(actions[|actions| - 1]) then 1 else 0
  }

  predicate IsDispatch(a: Action) {
    a.Dispatch?
  }

  /** The supplementary rounds begun, not counting one that is still to be dispatched. */
  function Begun(s: State): int {
    s.iteration - if s.place.Dispatching? then 1 else 0
  }

  lemma StepCountsDispatches(c: Config, r: Run, i: nat)
    requires IsRun(c, r) && i < |r.steps| && Control(c, r.states[i])
    ensures Begun(r.states[i + 1]) >= Begun(r.states[i]) + if IsDispatch(r.steps[i]) then 1 else 0
  {
    assert StepAt(c, r, i);
  }

  lemma {:induction false} DispatchesAreCounted(c: Config, r: Run, i: nat)
    requires IsRun(c, r) && i < |r.states|
    ensures Count(r.steps[..i], IsDispatch) <= Begun(r.states[i])
  {
    if i > 0 {
      DispatchesAreCounted(c, r, i - 1);
      RunsEnd(c, r, i - 1);
      assert r.steps[..i][..i - 1] == r.steps[..i - 1];
      StepCountsDispatches(c, r, i - 1);
    }
  }

  /** At most `maxIterations` supplementary rounds. */
  lemma SupplementaryRoundsAreBounded(c: Config, r: Run)
    requires IsRun(c, r)
    ensures Count(r.steps, IsDispatch) <= c.maxIterations
  {
    DispatchesAreCounted(c, r, |r.steps|);
    RunsEnd(c, r, |r.steps|);
    assert r.steps[..|r.steps|] == r.steps;
  }

  /** The writer is visited at most once, as the last step. */
  lemma WriterComesLast(c: Config, r: Run, j: nat)
    requires IsRun(c, r) && j < |r.steps| && r.steps[j].Write?
    ensures j == |r.steps| - 1
  {
    assert StepAt(c, r, j);
    assert j + 1 < |r.steps| ==> StepAt(c, r, j + 1);
  }

  lemma StepFinishes(c: Config, s: State, a: Action, s': State)
    requires Steps(c, s, a, s') && Control(c, s) && s'.place.Finished?
    ensures (a.Write? && s'.written.Some?) || (a.Answer? && s'.written.None?)
  {
    if a.Reflect? {
      ReflectionLeads(c, s, a.reply);
    }
  }

  /** A finished run ended either with a direct answer or with the writer, and only the writer
      leaves a report. */
  lemma FinishedByWriterOrAnswer(c: Config, r: Run)
    requires IsRun(c, r) && Last(r).place.Finished?
    ensures |r.steps| > 0
    ensures var last := r.steps[|r.steps| - 1];
            (last.Write? && Last(r).written.Some?) || (last.Answer? && Last(r).written.None?)
  {
    var n := |r.steps|;
    assert Last(r).place != Initial().place;
    RunsEnd(c, r, n - 1);
    FinishesAt(c, r, n - 1);
  }

  lemma FinishesAt(c: Config, r: Run, i: nat)
    requires IsRun(c, r) && i < |r.steps| && Control(c, r.states[i]) && r.states[i + 1].place.Finished?
    ensures var a, written := r.steps[i], r.states[i + 1].written;
            (a.Write? && written.Some?) || (a.Answer? && written.None?)
  {
    assert StepAt(c, r, i);
    StepFinishes(c, r.states[i], r.steps[i], r.states[i + 1]);
  }

  /** Where reflection leads exactly: it fails on a new gap with a short topic, writes when the rounds
      are used up, nothing is missing or nothing new was proposed, and otherwise starts a round. */
  lemma ReflectionLeadsExactly(c: Config, s: State, reply: Reflection.Reply)
    ensures var s', gaps := AfterReflect(c, s, reply), s.gaps + s.analysisGaps;
      && (s'.place.Aborted? <==>
            exists g :: g in gaps && Reflection.IsNew(c.fold, g.topic, s.attempted) && |Strip(g.topic)| < 3)
      && (s'.place.Dispatching? <==>
            && !s'.place.Aborted? && s.iteration < c.maxIterations
            && (s.needsMore || gaps != [])
            && (if Reflection.ValidReply(reply)
                then exists q :: q in reply.queries && Reflection.IsNew(c.fold, q.text, s.attempted)
                else exists g :: g in gaps && Reflection.IsNew(c.fold, g.topic, s.attempted)))
      && (s'.place.Writing? <==> !s'.place.Aborted? && !s'.place.Dispatching?)
  {
    var gaps := s.gaps + s.analysisGaps;
    Reflection.RaisesExactlyOnShortTopics(c.fold, s.needsMore, gaps, s.attempted, reply);
    if !Reflection.Decide(c.fold, s.needsMore, gaps, s.attempted, reply).Raises? {
      Reflection.WritesExactlyWhenNothingNew(c.fold, s.needsMore, gaps, s.attempted, reply);
    }
  }

  /** What the router and the planner answer is what later nodes work with. */
  lemma RouteAndPlanAreKept(c: Config, s: State, a: Action, s': State)
    requires Steps(c, s, a, s')
    ensures a.Route? ==> (s'.highRisk <==> a.highRisk) && s'.place == (if a.direct then Answering else Planning)
    ensures !a.Route? ==> (s'.highRisk <==> s.highRisk)
    ensures a.Plan? ==>
              && s'.plan == a.tasks && s'.iteration == 0 && |s'.attempted| == |a.tasks|
              && forall i :: 0 <= i < |a.tasks| ==> s'.attempted[i] == a.tasks[i].query
    ensures !a.Plan? ==> s'.plan == s.plan
  {
    if a.Reflect? {
      ReflectionLeads(c, s, a.reply);
    }
  }

  /** So is what the judge and the analyst answer. */
  lemma JudgementsAreKept(c: Config, s: State, a: Action, s': State)
    requires Steps(c, s, a, s')
    ensures a.Judge? ==>
              && s'.evidence == a.evidence && s'.scores == a.scores
              && s'.gaps == a.gaps && s'.conflicts == a.conflicts
    ensures !a.Judge? ==> s'.evidence == s.evidence && s'.scores == s.scores
                          && s'.gaps == s.gaps && s'.conflicts == s.conflicts
    ensures a.Analyse? ==> s'.analysisGaps == a.gaps && (s'.needsMore <==> a.needsMore)
    ensures !a.Analyse? ==> s'.analysisGaps == s.analysisGaps && (s'.needsMore <==> s.needsMore)
  {
    if a.Reflect? {
      ReflectionLeads(c, s, a.reply);
    }
  }

  // ---- Rounds ----------------------------------------------------------------------------

  /** Which node a place was reached from. */
  lemma CameFrom(c: Config, s: State, a: Action, s': State)
    requires Steps(c, s, a, s')
    ensures !s'.place.Routing?
    ensures s'.place == Scouting(true, true) ==> a.Plan? || a.Dispatch?
    ensures s'.place == Scouting(false, true) ==> a.ScoutWeb? && s.place == Scouting(true, true)
    ensures s'.place == Scouting(true, false) ==> a.ScoutLocal? && s.place == Scouting(true, true)
    ensures s'.place != Scouting(false, false)
    ensures s'.place.Judging? ==>
              || (a.ScoutWeb? && s.place == Scouting(true, false))
              || (a.ScoutLocal? && s.place == Scouting(false, true))
    ensures s'.place.Analysing? ==> a.Judge?
    ensures s'.place.Reflecting? ==> a.Analyse?
    ensures s'.place.Dispatching? || s'.place.Writing? ==> a.Reflect?
  {
    if a.Reflect? {
      ReflectionLeads(c, s, a.reply);
    } else if a.Write? {
      WritingEnds(c, s, a.answers);
    }
  }

  /** The writer fails the run exactly when it raises, and otherwise leaves its outcome. */
  lemma WritingEnds(c: Config, s: State, answers: seq<Option<string>>)
    requires c.maxAttempts >= 1
    ensures var outcome := Writer.WriteFrom(Writer.Attempts(BriefOf(c, s), answers), 0, c.maxAttempts, None);
      var s' := AfterWrite(c, s, answers);
      && (s'.place.Aborted? <==> outcome.Raised?) && (s'.place.Finished? <==> !outcome.Raised?)
      && s'.written == (if outcome.Raised? then s.written else Some(outcome))
  {
  }

  /** The step before a place other than the first one. */
  lemma StepBefore(c: Config, r: Run, j: nat)
    requires IsRun(c, r) && j < |r.states| && !r.states[j].place.Routing?
    ensures j > 0 && Steps(c, r.states[j - 1], r.steps[j - 1], r.states[j])
  {
    if j > 0 {
      assert StepAt(c, r, j - 1);
    }
  }

  /** Evidence is judged exactly after both scouts of a round, in either order, have reported. */
  lemma BothScoutsReport(c: Config, r: Run, j: nat)
    requires IsRun(c, r) && j < |r.states| && r.states[j].place.Judging?
    ensures j >= 3 && (r.steps[j - 3].Plan? || r.steps[j - 3].Dispatch?)
    ensures || (r.steps[j - 2].ScoutWeb? && r.steps[j - 1].ScoutLocal?)
            || (r.steps[j - 2].ScoutLocal? && r.steps[j - 1].ScoutWeb?)
  {
    StepBefore(c, r, j);
    CameFrom(c, r.states[j - 1], r.steps[j - 1], r.states[j]);
    StepBefore(c, r, j - 1);
    CameFrom(c, r.states[j - 2], r.steps[j - 2], r.states[j - 1]);
    StepBefore(c, r, j - 2);
    CameFrom(c, r.states[j - 3], r.steps[j - 3], r.states[j - 2]);
  }

  /** No round skips a node: reflection is always preceded by a plan or a dispatch, both scouts, the judge
      and the analyst, and a further round and the writer by reflection. */
  lemma RoundsAreWhole(c: Config, r: Run, j: nat)
    requires IsRun(c, r) && j < |r.steps|
    ensures r.steps[j].Reflect? ==>
              && j >= 5 && r.steps[j - 1].Analyse? && r.steps[j - 2].Judge?
              && (|| (r.steps[j - 4].ScoutWeb? && r.steps[j - 3].ScoutLocal?)
                  || (r.steps[j - 4].ScoutLocal? && r.steps[j - 3].ScoutWeb?))
              && (r.steps[j - 5].Plan? || r.steps[j - 5].Dispatch?)
    ensures r.steps[j].Dispatch? || r.steps[j].Write? ==> j >= 6 && r.steps[j - 1].Reflect?
  {
    assert StepAt(c, r, j);
    if r.steps[j].Reflect? {
      AnalysisIsWhole(c, r, j);
    } else if r.steps[j].Dispatch? || r.steps[j].Write? {
      StepBefore(c, r, j);
      CameFrom(c, r.states[j - 1], r.steps[j - 1], r.states[j]);
      assert StepAt(c, r, j - 1);
      AnalysisIsWhole(c, r, j - 1);
    }
  }

  lemma AnalysisIsWhole(c: Config, r: Run, j: nat)
    requires IsRun(c, r) && j < |r.states| && r.states[j].place.Reflecting?
    ensures j >= 5 && r.steps[j - 1].Analyse? && r.steps[j - 2].Judge?
    ensures || (r.steps[j - 4].ScoutWeb? && r.steps[j - 3].ScoutLocal?)
            || (r.steps[j - 4].ScoutLocal? && r.steps[j - 3].ScoutWeb?)
    ensures r.steps[j - 5].Plan? || r.steps[j - 5].Dispatch?
  {
    StepBefore(c, r, j);
    CameFrom(c, r.states[j - 1], r.steps[j - 1], r.states[j]);
    StepBefore(c, r, j - 1);
    CameFrom(c, r.states[j - 2], r.steps[j - 2], r.states[j - 1]);
    BothScoutsReport(c, r, j - 2);
  }

  // ---- Queries ---------------------------------------------------------------------------

  lemma StepExtendsAttempted(c: Config, r: Run, i: nat)
    requires IsRun(c, r) && i < |r.steps| && Control(c, r.states[i])
    ensures r.states[i].attempted <= r.states[i + 1].attempted
  {
    assert StepAt(c, r, i);
  }

  lemma {:induction false} AttemptedGrows(c: Config, r: Run, i: nat, j: nat)
    requires IsRun(c, r) && i <= j < |r.states|
    ensures r.states[i].attempted <= r.states[j].attempted
  {
    if i < j {
      AttemptedGrows(c, r, i, j - 1);
      RunsEnd(c, r, j - 1);
      StepExtendsAttempted(c, r, j - 1);
    }
  }

  /** Reflection asked for another round at step `j`. */
  ghost predicate AnotherRound(r: Run, j: nat) {
    j < |r.steps| && j + 1 < |r.states| && r.steps[j].Reflect? && r.states[j + 1].place.Dispatching?
  }

  lemma ContinuingAddsNewQueries(c: Config, r: Run, j: nat)
    requires IsRun(c, r) && AnotherRound(r, j)
    ensures var s, s' := r.states[j], r.states[j + 1];
      && 1 <= |s'.supplementary| <= Reflection.MAX_QUERIES
      && s'.attempted == s.attempted + Reflection.Texts(s'.supplementary)
      && forall q :: q in s'.supplementary ==> Reflection.IsNew(c.fold, q.text, s.attempted)
  {
    var s, a := r.states[j], r.steps[j];
    assert StepAt(c, r, j);
    Reflection.ContinuesOnlyWithNewQueries(c.fold, s.needsMore, s.gaps + s.analysisGaps, s.attempted, a.reply);
  }

  lemma NewAmongMoreIsNew(fold: string -> string, query: string, before: seq<string>, after: seq<string>)
    requires before <= after && Reflection.IsNew(fold, query, after)
    ensures Reflection.IsNew(fold, query, before)
  {
    assert forall q :: q in before ==> q in after;
  }

  /** Every query a round adds is new, up to stripping and case, against everything attempted at
      any earlier point of the run. */
  lemma RoundQueriesAreNew(c: Config, r: Run, i: nat, j: nat, q: Reflection.Query)
    requires IsRun(c, r) && AnotherRound(r, j) && i <= j
    requires q in r.states[j + 1].supplementary
    ensures Reflection.IsNew(c.fold, q.text, r.states[i].attempted)
  {
    ContinuingAddsNewQueries(c, r, j);
    AttemptedGrows(c, r, i, j);
    NewAmongMoreIsNew(c.fold, q.text, r.states[i].attempted, r.states[j].attempted);
  }

  /** No two rounds of a run ask for the same query. */
  lemma RoundsNeverRepeat(c: Config, r: Run, j: nat, k: nat, p: Reflection.Query, q: Reflection.Query)
    requires IsRun(c, r) && AnotherRound(r, j) && AnotherRound(r, k) && j < k
    requires p in r.states[j + 1].supplementary && q in r.states[k + 1].supplementary
    ensures Reflection.Norm(c.fold, p.text) != Reflection.Norm(c.fold, q.text)
  {
    RoundQueriesAreNew(c, r, j + 1, k, q);
    ContinuingAddsNewQueries(c, r, j);
    var queries := r.states[j + 1].supplementary;
    var i :| 0 <= i < |queries| && queries[i] == p;
    assert Reflection.Texts(queries)[i] == p.text;
    assert p.text in r.states[j + 1].attempted;
  }

  /** In a supplementary round every query is a task of each scout its preference names, and of
      at least one scout. */
  lemma EveryQueryIsScouted(c: Config, r: Run, k: nat, i: nat)
    requires IsRun(c, r) && k < |r.states| && r.states[k].place.Scouting? && r.states[k].iteration > 0
    requires i < |r.states[k].supplementary|
    ensures var s := r.states[k];
            var task := Scouts.FollowUp(i + 1, s.supplementary[i]);
            (task in Tasks(s, Scouts.WebScout) || task in Tasks(s, Scouts.LocalScout))
            && (Scouts.Wants(Scouts.WebScout, s.supplementary[i].preference) ==> task in Tasks(s, Scouts.WebScout))
            && (Scouts.Wants(Scouts.LocalScout, s.supplementary[i].preference) ==> task in Tasks(s, Scouts.LocalScout))
  {
    var s := r.states[k];
    Scouts.EveryQueryReachesAScout(s.plan, s.iteration, s.supplementary, i);
  }

  // ---- Pools -----------------------------------------------------------------------------

  /** No pool loses an id or reorders the ids it had. */
  predicate PoolsExtend(s: State, s': State) {
    Scouts.Extends(s.web, s'.web) && Scouts.Extends(s.mcp, s'.mcp) && Scouts.Extends(s.local, s'.local)
  }

  lemma PoolsExtendThemselves(s: State)
    ensures PoolsExtend(s, s)
  {
  }

  lemma StepExtendsPools(c: Config, r: Run, i: nat)
    requires IsRun(c, r) && i < |r.steps| && PoolsDistinct(r.states[i])
    ensures PoolsExtend(r.states[i], r.states[i + 1])
  {
    assert StepAt(c, r, i);
    var s, a := r.states[i], r.steps[i];
    PoolsExtendThemselves(s);
    if a.ScoutWeb? {
      Scouts.MergeExtends(s.web, a.sources);
      if a.mcp.McpFound? {
        Scouts.MergeExtends(s.mcp, a.mcp.sources);
      }
    } else if a.ScoutLocal? {
      Scouts.MergeExtends(s.local, a.found);
    }
  }

  lemma ExtendsTransitively(a: seq<Source>, b: seq<Source>, d: seq<Source>)
    requires Scouts.Extends(a, b) && Scouts.Extends(b, d)
    ensures Scouts.Extends(a, d)
  {
    assert Ids(d)[..|a|] == Ids(d)[..|b|][..|a|];
  }

  /** Over a whole run the web, private and MCP pools only grow, at the end. */
  lemma {:induction false} PoolsOnlyGrow(c: Config, r: Run, i: nat, j: nat)
    requires IsRun(c, r) && i <= j < |r.states|
    ensures PoolsExtend(r.states[i], r.states[j])
    decreases j
  {
    if i < j {
      var s, s' := r.states[j - 1], r.states[j];
      PoolsOnlyGrow(c, r, i, j - 1);
      RunsEnd(c, r, j - 1);
      StepExtendsPools(c, r, j - 1);
      ExtendsTransitively(r.states[i].web, s.web, s'.web);
      ExtendsTransitively(r.states[i].mcp, s.mcp, s'.mcp);
      ExtendsTransitively(r.states[i].local, s.local, s'.local);
    } else {
      PoolsExtendThemselves(r.states[i]);
    }
  }

  /** What the web scout's node makes of its round. */
  lemma WebScoutReports(c: Config, s: State, a: Action)
    requires a.ScoutWeb? && Scouts.DistinctIds(s.web) && Scouts.DistinctIds(s.mcp)
    ensures var s', tasks, outcomes := AfterWeb(c, s, a), Tasks(s, Scouts.WebScout), a.outcomes;
      && (s'.webStatus == Skipped <==> tasks == [])
      && (s'.webStatus == Failed <==> tasks != [] && forall i :: 0 <= i < |outcomes| ==> !outcomes[i])
      && (s'.webStatus == Partial <==>
            tasks != [] && (exists i :: 0 <= i < |outcomes| && outcomes[i])
            && (exists i :: 0 <= i < |outcomes| && !outcomes[i]))
      && (s'.webStatus == Completed <==>
            tasks != [] && outcomes != [] && (forall i :: 0 <= i < |outcomes| ==> outcomes[i]) && a.sources != [])
      && (s'.webStatus == Empty <==>
            tasks != [] && outcomes != [] && (forall i :: 0 <= i < |outcomes| ==> outcomes[i]) && a.sources == [])
      && s'.outcomes == s.outcomes + outcomes
      && (forall id :: id in Ids(s'.web) <==> id in Ids(s.web) || id in Ids(a.sources))
  {
    Scouts.MergeExtends(s.web, a.sources);
    var outcomes := a.outcomes;
    assert true in outcomes <==> exists i :: 0 <= i < |outcomes| && outcomes[i];
    assert false in outcomes <==> exists i :: 0 <= i < |outcomes| && !outcomes[i];
    assert outcomes != [] ==> outcomes[0] in outcomes;
  }

  /** And of the MCP servers', which are asked if there are any and there is a task. */
  lemma McpScoutReports(c: Config, s: State, a: Action)
    requires a.ScoutWeb? && Scouts.DistinctIds(s.mcp)
    ensures var s', asked := AfterWeb(c, s, a), c.usesMcp && Tasks(s, Scouts.WebScout) != [];
      && (s'.mcpStatus == Disabled <==> !c.usesMcp)
      && (s'.mcpStatus == Skipped <==> c.usesMcp && !asked)
      && (s'.mcpStatus == Failed <==> asked && a.mcp.McpFailed?)
      && (s'.mcpStatus == Completed <==> asked && a.mcp.McpFound? && s'.mcp != [])
      && (s'.mcpStatus == Empty <==> asked && a.mcp.McpFound? && s'.mcp == [])
      && s'.mcpErrors == s.mcpErrors + (if asked && a.mcp.McpFailed? then [a.mcp.message] else [])
      && (forall id :: id in Ids(s'.mcp) <==>
            id in Ids(s.mcp) || (asked && a.mcp.McpFound? && id in Ids(a.mcp.sources)))
  {
    if a.mcp.McpFound? {
      Scouts.MergeExtends(s.mcp, a.mcp.sources);
    }
  }

  lemma LocalScoutReports(s: State, a: Action)
    requires a.ScoutLocal? && Scouts.DistinctIds(s.local)
    ensures var s', tasks := AfterLocal(s, a), Tasks(s, Scouts.LocalScout);
      && (s'.localStatus == Skipped <==> tasks == [])
      && (s'.localStatus == Failed <==> tasks != [] && a.errors != [] && a.found == [])
      && (s'.localStatus == Partial <==> tasks != [] && a.errors != [] && a.found != [])
      && (s'.localStatus == Completed <==> tasks != [] && a.errors == [] && a.found != [])
      && (s'.localStatus == Empty <==> tasks != [] && a.errors == [] && a.found == [])
      && s'.localErrors == s.localErrors + a.errors
      && (forall id :: id in Ids(s'.local) <==> id in Ids(s.local) || id in Ids(a.found))
  {
    Scouts.MergeExtends(s.local, a.found);
  }

  /** The scouts commute: in either order their updates give the state in which both were made
      from the state the round began with. */
  lemma ScoutsCommute(c: Config, s: State, web: Action, local: Action)
    requires c.maxAttempts >= 1 && c.tenantKnown && s.place == Scouting(true, true)
    requires web.ScoutWeb? && local.ScoutLocal?
    ensures Apply(c, Apply(c, s, web), local) == Apply(c, Apply(c, s, local), web)
    ensures var s', w, l := Apply(c, Apply(c, s, web), local), AfterWeb(c, s, web), AfterLocal(s, local);
            s' == w.(place := Judging, local := l.local, localErrors := l.localErrors, localStatus := l.localStatus)
  {
  }

  /** Exchanging the two scouts of a round changes nothing that comes after it. */
  lemma ExchangingScouts(c: Config, r: Run, k: nat) returns (q: Run)
    requires IsRun(c, r) && k + 1 < |r.steps|
    requires r.steps[k].ScoutWeb? && r.steps[k + 1].ScoutLocal? && c.tenantKnown
    ensures IsRun(c, q)
    ensures q.steps == r.steps[k := r.steps[k + 1]][k + 1 := r.steps[k]]
    ensures forall i :: 0 <= i < |r.states| && i != k + 1 ==> i < |q.states| && q.states[i] == r.states[i]
  {
    var s, web, local := r.states[k], r.steps[k], r.steps[k + 1];
    assert StepAt(c, r, k) && StepAt(c, r, k + 1);
    RunsEnd(c, r, k);
    ScoutsCommute(c, s, web, local);
    q := History(r.states[k + 1 := Apply(c, s, local)], r.steps[k := local][k + 1 := web]);
    forall i | 0 <= i < |q.steps|
      ensures StepAt(c, q, i)
    {
      assert StepAt(c, r, i);
    }
  }

  // ---- The report ------------------------------------------------------------------------

  /** Whatever the agents answered on the way, a run that ends with a completed report ends with
      one that is sound for the evidence in its final state, and if it is stored then its flagged
      source rows are exactly the ids the text cites. */
  lemma CompletedRunsAreSound(c: Config, r: Run)
    requires IsRun(c, r) && Last(r).written.Some? && Last(r).written.value.Wrote? && Last(r).written.value.completed
    ensures Writer.SoundReport(Last(r).written.value.last, BriefOf(c, Last(r)))
    ensures var last, s := Last(r).written.value.last, Last(r);
      && (last.decision.humanReviewRequired <==> s.highRisk)
      && (forall id :: id in last.audit.cited ==> id in Ids(s.evidence))
      && |s.scores| >= c.policy.minimumCount
    ensures var creation := Reports.Create(
                              Writer.FinalOf(Last(r).written.value, BriefOf(c, Last(r)), Last(r).conflicts));
            creation.Stored? ==> Writer.RowsMatchText(creation.row)
  {
    var n := |r.steps|;
    RunsEnd(c, r, n);
    FinishedByWriterOrAnswer(c, r);
    var s, a := r.states[n - 1], r.steps[n - 1];
    assert StepAt(c, r, n - 1);
    var outcome := Last(r).written.value;
    assert BriefOf(c, Last(r)) == BriefOf(c, s);
    Writer.CompletedMeansSound(BriefOf(c, s), a.answers, c.maxAttempts, outcome);
    Writer.StoredRowsAreTheCitedIds(BriefOf(c, s), a.answers, c.maxAttempts, outcome, Last(r).conflicts);
  }
}
