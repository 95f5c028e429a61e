/** Turning a workflow's final state into one report row and its source rows. */
module Reports {
  import opened Evidence

  datatype SourceRow = SourceRow(source: Source, score: Score, cited: bool)

  datatype ReportRow = ReportRow(
    content: string,
    workflowStatus: string,
    citationValid: bool,
    coverage: real,
    verdict: Verdict,
    reasons: seq<Reason>,
    attempts: nat,
    humanReviewRequired: bool,
    conflicts: seq<Conflict>,
    rows: seq<SourceRow>)

  /** What `create_from_state` does: nothing to store, a row to store, or an exception
      (which rolls back the surrounding transaction). */
  datatype Creation = Nothing | Stored(row: ReportRow) | Rejected

  /** The score kept for an id when the scores are collected into a dictionary: the last one. */
  function ScoreOf(id: string, scores: seq<Score>): Option<Score> {
    if scores == [] then None
    else if scores[|scores| - 1].id == id then Some(scores[|scores| - 1])
    else ScoreOf(id, scores[..|scores| - 1])
  }

  /** The state can be persisted: audited, reviewed, every source scored, no id twice. */
  predicate Persistable(state: FinalState) {
    && state.audit.Some? && state.reflection.Some?
    && (forall i :: 0 <= i < |state.sources| ==> ScoreOf(state.sources[i].id, state.scores).Some?)
    && (forall i, j :: 0 <= i < j < |state.sources| ==> state.sources[i].id != state.sources[j].id)
  }

  function RowFor(source: Source, scores: seq<Score>, cited: seq<string>): SourceRow
    requires ScoreOf(source.id, scores).Some?
  {
    SourceRow(source, ScoreOf(source.id, scores).value, source.id in cited)
  }

  function Create(state: FinalState): Creation {
    if state.report.None? then Nothing
    else if !Persistable(state) then Rejected
    else Stored(ReportRow(
                  state.report.value,
                  Default(state.status, "research_report_completed"),
                  state.audit.value.valid,
                  state.audit.value.coverage,
                  state.reflection.value.verdict,
                  state.reflection.value.reasons,
                  Default(state.attempts, 1),
                  state.reflection.value.humanReviewRequired,
                  state.conflicts,
                  seq(|state.sources|, i requires 0 <= i < |state.sources| =>
                    RowFor(state.sources[i], state.scores, state.audit.value.cited))))
  }

  /** Adds the report row, then one source row per source, and gives up on a missing score
      or on a source id the report already has a row for. */
  method CreateFromState(state: FinalState) returns (outcome: Creation)
    ensures outcome == Create(state)
  {
    if state.report.None? {
      return Nothing;
    }
    if state.audit.None? || state.reflection.None? {
      return Rejected;
    }
    var cited := state.audit.value.cited;
    var rows: seq<SourceRow> := [];
    var seen: set<string> := {};
    for i := 0 to |state.sources|
      invariant |rows| == i
      invariant forall j :: 0 <= j < i ==> ScoreOf(state.sources[j].id, state.scores).Some?
      invariant forall j :: 0 <= j < i ==> rows[j] == RowFor(state.sources[j], state.scores, cited)
      invariant seen == set j | 0 <= j < i :: state.sources[j].id
      invariant forall j, k :: 0 <= j < k < i ==> state.sources[j].id != state.sources[k].id
    {
      var source := state.sources[i];
      var score := ScoreOf(source.id, state.scores);
      if score.None? || source.id in seen {
        return Rejected;
      }
      rows := rows + [SourceRow(source, score.value, source.id in cited)];
      seen := seen + {source.id};
    }
    var audit, reflection := state.audit.value, state.reflection.value;
    var status, attempts := "research_report_completed", 1;
    if state.status.Some? {
      status := state.status.value;
    }
    if state.attempts.Some? {
      attempts := state.attempts.value;
    }
    return Stored(ReportRow(state.report.value, status, audit.valid, audit.coverage, reflection.verdict,
                            reflection.reasons, attempts, reflection.humanReviewRequired, state.conflicts, rows));
  }

  /** There is nothing to store exactly without a report, and a report is rejected exactly without an
      audit or a reflection, for a source that was not scored, and for two sources with one id. */
  lemma RejectedExactly(state: FinalState)
    ensures Create(state).Nothing? <==> state.report == None
    ensures Create(state).Rejected? <==>
              && state.report != None
              && (|| state.audit == None || state.reflection == None
                  || (exists i :: 0 <= i < |state.sources| && Unscored(state, state.sources[i].id))
                  || (exists i, j :: 0 <= i < j < |state.sources| && state.sources[i].id == state.sources[j].id))
  {
    forall i | 0 <= i < |state.sources|
      ensures Unscored(state, state.sources[i].id) <==> ScoreOf(state.sources[i].id, state.scores).None?
    {
      ScoreOfIsAScore(state.sources[i].id, state.scores);
    }
  }

  predicate Unscored(state: FinalState, id: string) {
    forall score :: score in state.scores ==> score.id != id
  }

  /** The report row says what the state says; the status and the number of attempts have defaults. */
  lemma RowSaysTheState(state: FinalState)
    requires Create(state).Stored?
    ensures state.report.Some? && state.audit.Some? && state.reflection.Some?
    ensures var row, audit, reflection := Create(state).row, state.audit.value, state.reflection.value;
      && row.content == state.report.value
      && (row.citationValid <==> audit.valid) && row.coverage == audit.coverage
      && row.verdict == reflection.verdict && row.reasons == reflection.reasons
      && (row.humanReviewRequired <==> reflection.humanReviewRequired)
      && row.conflicts == state.conflicts
      && (state.status.Some? ==> row.workflowStatus == state.status.value)
      && (state.status.None? ==> row.workflowStatus == "research_report_completed")
      && (state.attempts.Some? ==> row.attempts == state.attempts.value)
      && (state.attempts.None? ==> row.attempts == 1)
  {
  }

  /** Conservation: the stored rows are the evidence sources in order, each with a score
      that was computed for it. */
  lemma RowsAreTheSources(state: FinalState)
    requires Create(state).Stored?
    ensures var rows := Create(state).row.rows;
            |rows| == |state.sources| &&
            forall i :: 0 <= i < |rows| ==>
              rows[i].source == state.sources[i] && rows[i].score in state.scores
              && rows[i].score.id == rows[i].source.id
  {
    forall i | 0 <= i < |state.sources|
      ensures var row := Create(state).row.rows[i];
              row.score in state.scores && row.score.id == row.source.id
    {
      ScoreOfIsAScore(state.sources[i].id, state.scores);
    }
  }

  lemma {:induction false} ScoreOfIsAScore(id: string, scores: seq<Score>)
    ensures ScoreOf(id, scores).Some? ==>
              ScoreOf(id, scores).value in scores && ScoreOf(id, scores).value.id == id
    ensures ScoreOf(id, scores).Some? <==> exists s :: s in scores && s.id == id
  {
    if scores != [] {
      var last := scores[|scores| - 1];
      assert scores == scores[..|scores| - 1] + [last];
      if last.id != id {
        ScoreOfIsAScore(id, scores[..|scores| - 1]);
      }
    }
  }

  /** The ids of the rows flagged `cited`. */
  function CitedRows(row: ReportRow): set<string> {
    set r | r in row.rows && r.cited :: r.source.id
  }

  /** The flagged rows are exactly the cited ids, as soon as every cited id is in the pool. */
  lemma CitedRowsAreTheCitedIds(state: FinalState)
    requires Create(state).Stored?
    ensures CitedRows(Create(state).row) == (set id | id in state.audit.value.cited) <==>
            forall id :: id in state.audit.value.cited ==> id in Ids(state.sources)
  {
    var rows := Create(state).row.rows;
    var cited := state.audit.value.cited;
    forall id | id in CitedRows(Create(state).row)
      ensures id in cited && id in Ids(state.sources)
    {
      var r :| r in rows && r.cited && r.source.id == id;
      var i :| 0 <= i < |rows| && rows[i] == r;
      assert Ids(state.sources)[i] == id;
    }
    forall id | id in cited && id in Ids(state.sources)
      ensures id in CitedRows(Create(state).row)
    {
      var i :| 0 <= i < |state.sources| && Ids(state.sources)[i] == id;
      assert rows[i].source.id == id && rows[i].cited;
      assert rows[i] in rows;
    }
  }
}
