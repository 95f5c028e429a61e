/** The quality gate over a written report, and the writer's bounded repair loop. The language
    model is an oracle: every lemma holds for every sequence of answers. */
module Writer {
  import opened Text
  import opened Evidence
  import Citations
  import Reports

  // ---- The quality gate ------------------------------------------------------------------

  datatype Policy = Policy(minimumCount: nat, minimumAverage: real)

  function SumOverall(scores: seq<Score>): real {
    if scores == [] then 0.0 else SumOverall(scores[..|scores| - 1]) + scores[|scores| - 1].overall
  }

  function Average(scores: seq<Score>): real {
    if scores == [] then 0.0 else SumOverall(scores) / |scores| as real
  }

  /** The highest score, the earliest one on a tie. */
  function Top(scores: seq<Score>): Option<Score> {
    if scores == [] then None
    else
      var last := scores[|scores| - 1];
      match Top(scores[..|scores| - 1])
      case None => Some(last)
      case Some(best) => if last.overall > best.overall then Some(last) else Some(best)
  }

  predicate IsTop(scores: seq<Score>, i: int) {
    && 0 <= i < |scores|
    && (forall j :: 0 <= j < |scores| ==> scores[j].overall <= scores[i].overall)
    && (forall j :: 0 <= j < i ==> scores[j].overall < scores[i].overall)
  }

  lemma TopOfMore(scores: seq<Score>, i: int)
    requires scores != [] && IsTop(scores[..|scores| - 1], i)
    ensures IsTop(scores, if scores[|scores| - 1].overall > scores[i].overall then |scores| - 1 else i)
  {
    var before := scores[..|scores| - 1];
    assert forall j :: 0 <= j < |before| ==> scores[j] == before[j];
  }

  /** The index of the highest score, the earliest one on a tie. */
  lemma {:induction false} TopIsTop(scores: seq<Score>) returns (i: int)
    requires scores != []
    ensures IsTop(scores, i) && Top(scores) == Some(scores[i])
  {
    var before := scores[..|scores| - 1];
    if before == [] {
      i := 0;
    } else {
      i := TopIsTop(before);
      TopOfMore(scores, i);
      if scores[|scores| - 1].overall > scores[i].overall {
        i := |scores| - 1;
      }
    }
  }

  lemma TopIsUnique(scores: seq<Score>, i: int, j: int)
    requires IsTop(scores, i) && IsTop(scores, j)
    ensures i == j
  {
    var x, y := scores[i].overall, scores[j].overall;
  }

  predicate IsPrivate(id: string) {
    "PRIVATE-" <= id
  }

  function Add(reasons: seq<Reason>, condition: bool, reason: Reason): seq<Reason> {
    if condition then reasons + [reason] else reasons
  }

  /** The reasons that do not depend on the best score. */
  function GeneralReasons(audit: CitationAudit, scores: seq<Score>, policy: Policy): seq<Reason> {
    var tooFew := Add([], |scores| < policy.minimumCount, TooFewSources);
    var low := Add(tooFew, Average(scores) < policy.minimumAverage, LowAverage);
    var unknown := Add(low, audit.unknown != [], UnknownCitations);
    var uncited := Add(unknown, audit.uncitedClaims != [], UncitedClaims);
    Add(uncited, audit.cited == [], NothingCited)
  }

  function Reasons(audit: CitationAudit, scores: seq<Score>, policy: Policy): seq<Reason> {
    var general := GeneralReasons(audit, scores, policy);
    match Top(scores)
    case None => general
    case Some(top) => Add(general, IsPrivate(top.id) && top.id !in audit.cited, TopPrivateSourceUncited(top.id))
  }

  function Decide(audit: CitationAudit, scores: seq<Score>, policy: Policy, highRisk: bool): ReflectionDecision {
    var reasons := Reasons(audit, scores, policy);
    ReflectionDecision(if reasons == [] then Approved else Revise, reasons, |scores|, Average(scores), highRisk)
  }

  /** Collects the reasons for another attempt. */
  method Review(audit: CitationAudit, scores: seq<Score>, policy: Policy, highRisk: bool)
    returns (decision: ReflectionDecision)
    ensures decision == Decide(audit, scores, policy, highRisk)
  {
    var sum := 0.0;
    var top: Option<Score> := None;
    for i := 0 to |scores|
      invariant sum == SumOverall(scores[..i])
      invariant top == Top(scores[..i])
    {
      assert scores[..i + 1][..i] == scores[..i];
      sum := sum + scores[i].overall;
      if top.None? || scores[i].overall > top.value.overall {
        top := Some(scores[i]);
      }
    }
    assert scores[..|scores|] == scores;
    var average := if |scores| > 0 then sum / |scores| as real else 0.0;
    var reasons: seq<Reason> := [];
    if |scores| < policy.minimumCount {
      reasons := reasons + [TooFewSources];
    }
    if average < policy.minimumAverage {
      reasons := reasons + [LowAverage];
    }
    if audit.unknown != [] {
      reasons := reasons + [UnknownCitations];
    }
    if audit.uncitedClaims != [] {
      reasons := reasons + [UncitedClaims];
    }
    if audit.cited == [] {
      reasons := reasons + [NothingCited];
    }
    if top.Some? && IsPrivate(top.value.id) && top.value.id !in audit.cited {
      reasons := reasons + [TopPrivateSourceUncited(top.value.id)];
    }
    decision := ReflectionDecision(if reasons == [] then Approved else Revise, reasons, |scores|, average, highRisk);
  }

  /** If the best score is a private source's, that source is cited. */
  ghost predicate TopPrivateCited(cited: seq<string>, scores: seq<Score>) {
    forall i :: IsTop(scores, i) && IsPrivate(scores[i].id) ==> scores[i].id in cited
  }

  /** A report is approved exactly when nothing is wrong with it. */
  lemma ApprovedIffNothingWrong(audit: CitationAudit, scores: seq<Score>, policy: Policy, highRisk: bool)
    ensures Decide(audit, scores, policy, highRisk).verdict.Approved? <==>
            && |scores| >= policy.minimumCount
            && Average(scores) >= policy.minimumAverage
            && audit.unknown == [] && audit.uncitedClaims == [] && audit.cited != []
            && TopPrivateCited(audit.cited, scores)
  {
    if scores != [] {
      var i := TopIsTop(scores);
      forall j | IsTop(scores, j)
        ensures j == i
      {
        TopIsUnique(scores, i, j);
      }
    }
  }

  lemma PrivateIds(id: string)
    ensures IsPrivate(id) <==> exists rest :: id == "PRIVATE-" + rest
  {
    if IsPrivate(id) {
      assert id == "PRIVATE-" + id[8..];
    }
  }

  lemma AddedIffWrong(reasons: seq<Reason>, condition: bool, reason: Reason)
    ensures forall r :: r in Add(reasons, condition, reason) <==> r in reasons || (condition && r == reason)
  {
  }

  lemma {:induction false} TopReasonIsExact(cited: seq<string>, scores: seq<Score>, id: string)
    ensures (Top(scores).Some? && Top(scores).value.id == id && IsPrivate(id) && id !in cited) <==>
            exists i :: IsTop(scores, i) && scores[i].id == id && IsPrivate(id) && id !in cited
  {
    if scores != [] {
      var i := TopIsTop(scores);
      forall j | IsTop(scores, j)
        ensures j == i
      {
        TopIsUnique(scores, i, j);
      }
    }
  }

  lemma GeneralReasonsAreExact(audit: CitationAudit, scores: seq<Score>, policy: Policy)
    ensures forall r :: r in GeneralReasons(audit, scores, policy) <==>
              || (r == TooFewSources && |scores| < policy.minimumCount)
              || (r == LowAverage && Average(scores) < policy.minimumAverage)
              || (r == UnknownCitations && audit.unknown != [])
              || (r == UncitedClaims && audit.uncitedClaims != [])
              || (r == NothingCited && audit.cited == [])
  {
    var tooFew := Add([], |scores| < policy.minimumCount, TooFewSources);
    var low := Add(tooFew, Average(scores) < policy.minimumAverage, LowAverage);
    var unknown := Add(low, audit.unknown != [], UnknownCitations);
    var uncited := Add(unknown, audit.uncitedClaims != [], UncitedClaims);
    AddedIffWrong([], |scores| < policy.minimumCount, TooFewSources);
    AddedIffWrong(tooFew, Average(scores) < policy.minimumAverage, LowAverage);
    AddedIffWrong(low, audit.unknown != [], UnknownCitations);
    AddedIffWrong(unknown, audit.uncitedClaims != [], UncitedClaims);
    AddedIffWrong(uncited, audit.cited == [], NothingCited);
  }

  /** The reasons say what is wrong: each is given exactly when its condition holds. */
  lemma ReasonsAreExact(audit: CitationAudit, scores: seq<Score>, policy: Policy)
    ensures var reasons := Reasons(audit, scores, policy);
      && (TooFewSources in reasons <==> |scores| < policy.minimumCount)
      && (LowAverage in reasons <==> Average(scores) < policy.minimumAverage)
      && (UnknownCitations in reasons <==> audit.unknown != [])
      && (UncitedClaims in reasons <==> audit.uncitedClaims != [])
      && (NothingCited in reasons <==> audit.cited == [])
      && forall id :: TopPrivateSourceUncited(id) in reasons <==>
           exists i :: IsTop(scores, i) && scores[i].id == id && IsPrivate(id) && id !in audit.cited
  {
    GeneralReasonsAreExact(audit, scores, policy);
    forall id
      ensures TopPrivateSourceUncited(id) in Reasons(audit, scores, policy) <==>
              exists i :: IsTop(scores, i) && scores[i].id == id && IsPrivate(id) && id !in audit.cited
    {
      TopReasonIsExact(audit.cited, scores, id);
    }
  }

  lemma {:induction false} SumIsBounded(scores: seq<Score>, low: real, high: real)
    requires forall i :: 0 <= i < |scores| ==> low <= scores[i].overall <= high
    ensures |scores| as real * low <= SumOverall(scores) <= |scores| as real * high
  {
    if scores != [] {
      SumIsBounded(scores[..|scores| - 1], low, high);
    }
  }

  /** The average lies between any bounds on the scores, so a pool of scores in [0, 1] has an
      average in [0, 1]. */
  lemma AverageIsBounded(scores: seq<Score>, low: real, high: real)
    requires scores != [] && forall i :: 0 <= i < |scores| ==> low <= scores[i].overall <= high
    ensures low <= Average(scores) <= high
  {
    SumIsBounded(scores, low, high);
    QuotientIsBounded(SumOverall(scores), |scores| as real, low, high);
  }

  lemma {:induction false} SumOfParts(a: seq<Score>, b: seq<Score>)
    ensures SumOverall(a + b) == SumOverall(a) + SumOverall(b)
    decreases |b|
  {
    if b == [] {
      assert a + b == a;
    } else {
      assert (a + b)[..|a + b| - 1] == a + b[..|b| - 1];
      SumOfParts(a, b[..|b| - 1]);
    }
  }

  /** The mean of `m` numbers with mean `x` and `n` numbers with mean `y`. */
  predicate Weighed(mean: real, x: real, m: nat, y: real, n: nat) {
    mean * (m + n) as real == x * m as real + y * n as real
  }

  /** What a decision measures: how many scores there are, and their mean, which is zero for none, the
      score itself for one, and for two parts weighs each by its count; and it asks for a human exactly in a
      high-risk domain. */
  lemma DecisionMeasures(
      audit: CitationAudit, a: seq<Score>, b: seq<Score>, s: Score, policy: Policy, highRisk: bool)
    ensures Decide(audit, [], policy, highRisk).averageScore == 0.0
    ensures Decide(audit, [s], policy, highRisk).averageScore == s.overall
    ensures var first, second := Decide(audit, a, policy, highRisk), Decide(audit, b, policy, highRisk);
      var all := Decide(audit, a + b, policy, highRisk);
      && first.evidenceCount == |a| && (first.humanReviewRequired <==> highRisk)
      && Weighed(all.averageScore, first.averageScore, |a|, second.averageScore, |b|)
  {
    AverageOfOne(s);
    AverageOfParts(a, b);
  }

  lemma AverageOfOne(s: Score)
    ensures Average([s]) == s.overall
  {
    assert [s][..0] == [];
    assert SumOverall([s]) == s.overall && |[s]| as real == 1.0;
  }

  lemma AverageOfParts(a: seq<Score>, b: seq<Score>)
    ensures Weighed(Average(a + b), Average(a), |a|, Average(b), |b|)
  {
    SumOfParts(a, b);
    AverageTimesCount(a);
    AverageTimesCount(b);
    AverageTimesCount(a + b);
  }

  lemma AverageTimesCount(scores: seq<Score>)
    ensures Average(scores) * |scores| as real == SumOverall(scores)
  {
    if scores != [] {
      QuotientTimes(SumOverall(scores), |scores| as real);
    }
  }

  lemma QuotientTimes(x: real, n: real)
    requires n > 0.0
    ensures x / n * n == x
  {
  }

  lemma QuotientIsBounded(sum: real, n: real, low: real, high: real)
    requires n > 0.0 && n * low <= sum <= n * high
    ensures low <= sum / n <= high
  {
  }

  // ---- The repair loop -------------------------------------------------------------------

  /** What the writer works from. */
  datatype Brief = Brief(sources: seq<Source>, scores: seq<Score>, highRisk: bool, policy: Policy)

  datatype Attempt = Attempt(report: string, audit: CitationAudit, decision: ReflectionDecision)

  /** The workflow fields the writer sets; `writes` is how often it asked for a report. An
      exception leaves no result. */
  datatype Outcome =
    | Raised
    | Wrote(last: Attempt, draft: string, reportedAttempts: nat, completed: bool, writes: nat)

  /** What becomes of one answer: nothing if the model failed or returned a blank text,
      otherwise its text, audited and reviewed. */
  function AttemptWith(brief: Brief, answer: Option<string>): Option<Attempt> {
    if answer.None? then None
    else
      var report := Strip(answer.value);
      match Citations.Audit(report, Ids(brief.sources))
      case None => None
      case Some(audit) => Some(Attempt(report, audit, Decide(audit, brief.scores, brief.policy, brief.highRisk)))
  }

  function Attempts(brief: Brief, answers: seq<Option<string>>): (r: seq<Option<Attempt>>)
    ensures |r| == |answers|
    ensures forall k :: 0 <= k < |answers| ==> r[k] == AttemptWith(brief, answers[k])
  {
    seq(|answers|, k requires 0 <= k < |answers| => AttemptWith(brief, answers[k]))
  }

  function At(attempts: seq<Option<Attempt>>, k: nat): Option<Attempt> {
    if k < |attempts| then attempts[k] else None
  }

  function Finish(attempt: Attempt, previous: Option<string>, writes: nat, max: nat): Outcome {
    Wrote(attempt,
          if previous.Some? then previous.value else attempt.report,
          if previous.Some? then max else 1,
          attempt.decision.verdict.Approved?,
          writes)
  }

  /** The loop from attempt `k` on. */
  function WriteFrom(attempts: seq<Option<Attempt>>, k: nat, max: nat, previous: Option<string>): Outcome
    requires k < max
    decreases max - k
  {
    match At(attempts, k)
    case None => Raised
    case Some(attempt) =>
      if attempt.decision.verdict.Approved? then Finish(attempt, previous, k + 1, max)
      else if k + 1 == max then Finish(attempt, Some(attempt.report), max, max)
      else WriteFrom(attempts, k + 1, max, Some(attempt.report))
  }

  /** One report: written, audited and reviewed. */
  method WriteOnce(brief: Brief, answer: Option<string>) returns (attempt: Option<Attempt>)
    ensures attempt == AttemptWith(brief, answer)
  {
    if answer.None? {
      return None;
    }
    var report := Strip(answer.value);
    var audit := Citations.Audit(report, Ids(brief.sources));
    if audit.None? {
      return None;
    }
    var decision := Review(audit.value, brief.scores, brief.policy, brief.highRisk);
    return Some(Attempt(report, audit.value, decision));
  }

  /** Writes, audits and reviews until a report is approved or the attempts run out. */
  method WriteNode(brief: Brief, answers: seq<Option<string>>, max: nat) returns (outcome: Outcome)
    requires max >= 1
    ensures outcome == WriteFrom(Attempts(brief, answers), 0, max, None)
  {
    ghost var attempts := Attempts(brief, answers);
    var previous: Option<string> := None;
    var last: Option<Attempt> := None;
    var writes := 0;
    while writes < max
      invariant writes <= max
      invariant writes > 0 ==> last.Some? && previous == Some(last.value.report)
      invariant WriteFrom(attempts, 0, max, None) ==
                if writes < max then WriteFrom(attempts, writes, max, previous)
                else if last.Some? then Finish(last.value, previous, max, max) else Raised
    {
      var attempt := WriteOnce(brief, if writes < |answers| then answers[writes] else None);
      if attempt.None? {
        return Raised;
      }
      last := attempt;
      writes := writes + 1;
      if last.value.decision.verdict.Approved? {
        break;
      }
      previous := Some(last.value.report);
    }
    outcome := Finish(last.value, previous, writes, max);
  }

  /** What the loop's result is, for any answers: the audit and the decision belong to the
      returned report, every earlier attempt was rejected, at most `max` reports are asked for,
      and fewer only when the last one was approved. */
  lemma {:induction false} WriteFromStopsAtTheFirstApproved(
    attempts: seq<Option<Attempt>>, k: nat, max: nat, previous: Option<string>)
    requires k < max && previous.Some? == (k > 0)
    ensures var outcome := WriteFrom(attempts, k, max, previous);
            outcome.Wrote? ==>
              && k < outcome.writes <= max
              && At(attempts, outcome.writes - 1) == Some(outcome.last)
              && (outcome.completed <==> outcome.last.decision.verdict.Approved?)
              && (outcome.writes < max ==> outcome.completed)
              && (forall j :: k <= j < outcome.writes - 1 ==> Rejected(attempts, j))
              && (outcome.reportedAttempts == if outcome.completed && outcome.writes == 1 then 1 else max)
    decreases max - k
  {
    match At(attempts, k)
    case None =>
    case Some(attempt) =>
      if attempt.decision.verdict.Revise? && k + 1 < max {
        WriteFromStopsAtTheFirstApproved(attempts, k + 1, max, Some(attempt.report));
      }
  }

  /** The loop fails exactly if the model fails, or writes a blank text, before a report is approved and
      before the attempts run out. */
  lemma {:induction false} RaisesExactly(attempts: seq<Option<Attempt>>, k: nat, max: nat, previous: Option<string>)
    requires k < max
    ensures WriteFrom(attempts, k, max, previous).Raised? <==>
              exists j :: k <= j < max && FailsAt(attempts, k, j)
    decreases max - k
  {
    if At(attempts, k).None? {
      assert FailsAt(attempts, k, k);
    } else if Rejected(attempts, k) && k + 1 < max {
      var next := k + 1;
      RaisesExactly(attempts, next, max, Some(At(attempts, k).value.report));
      if j :| next <= j < max && FailsAt(attempts, next, j) {
        assert FailsAt(attempts, k, j);
      }
      if j :| k <= j < max && FailsAt(attempts, k, j) {
        assert FailsAt(attempts, next, j);
      }
    }
  }

  /** Attempt `j` is the first one from `k` on that leaves no report, and none before it was approved. */
  ghost predicate FailsAt(attempts: seq<Option<Attempt>>, k: nat, j: nat) {
    At(attempts, j).None? && forall i :: k <= i < j ==> Rejected(attempts, i)
  }

  predicate Rejected(attempts: seq<Option<Attempt>>, k: nat) {
    At(attempts, k).Some? && At(attempts, k).value.decision.verdict.Revise?
  }

  function ReportAt(attempts: seq<Option<Attempt>>, k: nat): Option<string> {
    match At(attempts, k)
    case None => None
    case Some(attempt) => Some(attempt.report)
  }

  /** The draft kept beside the report is the last rejected report, or the report itself when
      none was rejected. */
  lemma {:induction false} DraftIsTheLastRejected(
    attempts: seq<Option<Attempt>>, k: nat, max: nat, previous: Option<string>)
    requires k < max && previous == (if k == 0 then None else ReportAt(attempts, k - 1))
    requires k > 0 ==> previous.Some?
    ensures var outcome := WriteFrom(attempts, k, max, previous);
            outcome.Wrote? ==>
              && outcome.writes > 0
              && Some(outcome.draft) ==
                 ReportAt(attempts,
                          if outcome.completed && outcome.writes > 1 then outcome.writes - 2 else outcome.writes - 1)
    decreases max - k
  {
    match At(attempts, k)
    case None =>
    case Some(attempt) =>
      if attempt.decision.verdict.Revise? && k + 1 < max {
        DraftIsTheLastRejected(attempts, k + 1, max, Some(attempt.report));
      }
  }

  /** The reported number of attempts is the real one. */
  ghost predicate CountsRight(attempts: seq<Option<Attempt>>, max: nat)
    requires max >= 1
  {
    var outcome := WriteFrom(attempts, 0, max, None);
    outcome.Wrote? ==> outcome.reportedAttempts == outcome.writes
  }

  /** The pool is large and good enough, and nothing in it is private. */
  predicate EvidenceSuffices(brief: Brief) {
    && |brief.scores| >= brief.policy.minimumCount
    && Average(brief.scores) >= brief.policy.minimumAverage
    && forall i :: 0 <= i < |brief.scores| ==> !IsPrivate(brief.scores[i].id)
  }

  /** With sufficient evidence only the citations decide. */
  lemma CitationsDecide(brief: Brief, answer: string)
    requires EvidenceSuffices(brief) && Strip(answer) == answer
    requires Citations.Audit(answer, Ids(brief.sources)).Some?
    ensures var audit := Citations.Audit(answer, Ids(brief.sources)).value;
      && AttemptWith(brief, Some(answer)).Some? && AttemptWith(brief, Some(answer)).value.report == answer
      && (AttemptWith(brief, Some(answer)).value.decision.verdict.Approved? <==>
            audit.unknown == [] && audit.uncitedClaims == [] && audit.cited != [])
  {
    ApprovedIffNothingWrong(
      Citations.Audit(answer, Ids(brief.sources)).value, brief.scores, brief.policy, brief.highRisk);
  }

  lemma SecondIsApproved(attempts: seq<Option<Attempt>>, max: nat)
    requires max >= 3 && Rejected(attempts, 0)
    requires At(attempts, 1).Some? && At(attempts, 1).value.decision.verdict.Approved?
    ensures var outcome := WriteFrom(attempts, 0, max, None);
      outcome.Wrote? && outcome.completed && outcome.writes == 2 && outcome.reportedAttempts == max
  {
    var previous := Some(attempts[0].value.report);
    assert WriteFrom(attempts, 0, max, None) == WriteFrom(attempts, 1, max, previous);
    assert WriteFrom(attempts, 1, max, previous) == Finish(attempts[1].value, previous, 2, max);
  }

  /** With three attempts allowed, two are reported as three: a first report too short to cite
      anything, and a second one that is a citation. */
  lemma SilentThenCiting(brief: Brief, first: string, second: string, max: nat)
    requires max >= 3 && EvidenceSuffices(brief)
    requires Stripped(first) && first != "" && |first| < 22
    requires Citations.CiteLength(second) == |second| > 0 && second[1..|second| - 1] in Ids(brief.sources)
    ensures var outcome := WriteFrom(Attempts(brief, [Some(first), Some(second)]), 0, max, None);
      outcome.Wrote? && outcome.completed && outcome.writes == 2 && outcome.reportedAttempts == max
  {
    StripFixesStripped(first);
    Citations.SilentAudit(first, Ids(brief.sources));
    CitationsDecide(brief, first);
    Citations.LoneMarkerAudit(second, Ids(brief.sources));
    CitationsDecide(brief, second);
    SecondIsApproved(Attempts(brief, [Some(first), Some(second)]), max);
  }

  /** The policy used unless configured otherwise. */
  const DEFAULT_POLICY := Policy(2, 0.25)

  lemma MiscountedAttempts(max: nat) returns (brief: Brief, answers: seq<Option<string>>)
    requires max >= 3
    ensures brief.policy == DEFAULT_POLICY
    ensures var outcome := WriteFrom(Attempts(brief, answers), 0, max, None);
      outcome.Wrote? && outcome.completed && outcome.writes == 2 && outcome.reportedAttempts == max
  {
    var second, id := Citations.SomeMarker(seq(16, _ => '0'));
    var third, other := Citations.SomeMarker(seq(16, _ => '1'));
    brief := TwoPages(id, other);
    assert Ids(brief.sources)[0] == id;
    SilentThenCiting(brief, "x", second, max);
    answers := [Some("x"), Some(second)];
  }

  /** Two web pages of full score are sufficient evidence. */
  lemma TwoPages(id: string, other: string) returns (brief: Brief)
    requires !IsPrivate(id) && !IsPrivate(other)
    ensures brief.policy == DEFAULT_POLICY && EvidenceSuffices(brief)
    ensures |brief.sources| == 2 && brief.sources[0].id == id
  {
    var page := Source(id, FromWeb, "", "", "", "", WebPage, [], None);
    var score := Score(id, 1.0, 1.0, 1.0, 1.0);
    brief := Brief([page, page.(id := other)], [score, score.(id := other)], false, DEFAULT_POLICY);
    assert brief.scores[..1] == [score];
    assert SumOverall([score]) == 1.0;
    assert SumOverall(brief.scores) == 2.0;
  }

  /** The count is right whatever the model answers exactly if at most two attempts are allowed, as
      they are by default. */
  lemma CountsRightExactlyForTwo(max: nat)
    requires max >= 1
    ensures max <= 2 <==> forall brief, answers :: CountsRight(Attempts(brief, answers), max)
  {
    if max <= 2 {
      forall brief, answers
        ensures CountsRight(Attempts(brief, answers), max)
      {
        WriteFromStopsAtTheFirstApproved(Attempts(brief, answers), 0, max, None);
      }
    } else {
      var brief, answers := MiscountedAttempts(max);
      assert !CountsRight(Attempts(brief, answers), max);
    }
  }

  /** When the loop ends with its last attempt rejected, every one of the attempts was. */
  lemma GivesUpOnlyAfterEveryAttempt(attempts: seq<Option<Attempt>>, max: nat)
    requires max >= 1
    ensures var outcome := WriteFrom(attempts, 0, max, None);
            outcome.Wrote? && !outcome.completed ==>
              outcome.writes == max && forall j :: 0 <= j < max ==> Rejected(attempts, j)
  {
    WriteFromStopsAtTheFirstApproved(attempts, 0, max, None);
  }

  lemma ApprovedAttemptIsSound(brief: Brief, answer: Option<string>)
    requires AttemptWith(brief, answer).Some?
    requires AttemptWith(brief, answer).value.decision.verdict.Approved?
    ensures SoundReport(AttemptWith(brief, answer).value, brief)
  {
    var attempt := AttemptWith(brief, answer).value;
    ApprovedIffNothingWrong(attempt.audit, brief.scores, brief.policy, brief.highRisk);
    StripIdempotent(answer.value);
    Citations.ValidMeansCovered(attempt.report, Ids(brief.sources));
  }

  ghost predicate ApprovedAreSound(attempts: seq<Option<Attempt>>, brief: Brief) {
    forall k :: 0 <= k < |attempts| ==> ApprovedIsSound(attempts[k], brief)
  }

  ghost predicate ApprovedIsSound(attempt: Option<Attempt>, brief: Brief) {
    attempt.Some? && attempt.value.decision.verdict.Approved? ==> SoundReport(attempt.value, brief)
  }

  lemma AttemptsAreJudgedSoundly(brief: Brief, answers: seq<Option<string>>)
    ensures ApprovedAreSound(Attempts(brief, answers), brief)
  {
    var attempts := Attempts(brief, answers);
    forall k | 0 <= k < |attempts|
      ensures ApprovedIsSound(attempts[k], brief)
    {
      if attempts[k].Some? && attempts[k].value.decision.verdict.Approved? {
        ApprovedAttemptIsSound(brief, answers[k]);
      }
    }
  }

  lemma CompletedIsSound(attempts: seq<Option<Attempt>>, brief: Brief, max: nat, outcome: Outcome)
    requires max >= 1 && ApprovedAreSound(attempts, brief)
    requires outcome == WriteFrom(attempts, 0, max, None)
    requires outcome.Wrote? && outcome.completed
    ensures SoundReport(outcome.last, brief)
  {
    WriteFromStopsAtTheFirstApproved(attempts, 0, max, None);
    assert ApprovedIsSound(attempts[outcome.writes - 1], brief);
  }

  /** A completed report deserves it. Whatever the model answered: something is cited, every
      cited id is in the evidence pool, every claim paragraph cites the pool, a top-scored
      private source is cited, and the pool is large and good enough. */
  lemma CompletedMeansSound(brief: Brief, answers: seq<Option<string>>, max: nat, outcome: Outcome)
    requires max >= 1 && outcome == WriteFrom(Attempts(brief, answers), 0, max, None)
    requires outcome.Wrote? && outcome.completed
    ensures SoundReport(outcome.last, brief)
  {
    AttemptsAreJudgedSoundly(brief, answers);
    CompletedIsSound(Attempts(brief, answers), brief, max, outcome);
  }

  ghost predicate SoundReport(last: Attempt, brief: Brief) {
    var found := Citations.FindAll(last.report);
    && last.audit.valid && last.decision.verdict.Approved?
    && found != []
    && (forall id :: id in found ==> id in Ids(brief.sources))
    && (forall id :: id in last.audit.cited <==> id in found)
    && (forall claim :: claim in Citations.Claims(last.report) ==> Citations.CitesFrom(claim, Ids(brief.sources)))
    && TopPrivateCited(found, brief.scores)
    && |brief.scores| >= brief.policy.minimumCount
    && Average(brief.scores) >= brief.policy.minimumAverage
    && last.decision.humanReviewRequired == brief.highRisk
  }

  /** What persistence reads of the writer's result. */
  function FinalOf(outcome: Outcome, brief: Brief, conflicts: seq<Conflict>): FinalState
    requires outcome.Wrote?
  {
    FinalState(
      Some(if outcome.completed then "research_report_completed" else "research_report_revision_required"),
      Some(outcome.last.report), Some(outcome.last.audit), Some(outcome.last.decision),
      Some(outcome.reportedAttempts), brief.sources, brief.scores, conflicts)
  }

  lemma RowsOfSoundReport(outcome: Outcome, brief: Brief, conflicts: seq<Conflict>)
    requires outcome.Wrote? && outcome.completed && SoundReport(outcome.last, brief)
    requires Reports.Create(FinalOf(outcome, brief, conflicts)).Stored?
    ensures RowsMatchText(Reports.Create(FinalOf(outcome, brief, conflicts)).row)
  {
    var cited := outcome.last.audit.cited;
    assert forall id :: id in cited ==> id in Ids(brief.sources);
    Reports.CitedRowsAreTheCitedIds(FinalOf(outcome, brief, conflicts));
  }

  /** An approved, valid report whose flagged source rows are exactly the ids its text cites. */
  ghost predicate RowsMatchText(row: Reports.ReportRow) {
    && row.citationValid && row.verdict.Approved? && row.workflowStatus == "research_report_completed"
    && forall id :: id in Reports.CitedRows(row) <==> id in Citations.FindAll(row.content)
  }

  /** The rows stored for a completed report flag exactly the ids its text cites. */
  lemma StoredRowsAreTheCitedIds(
    brief: Brief, answers: seq<Option<string>>, max: nat, outcome: Outcome, conflicts: seq<Conflict>)
    requires max >= 1 && outcome == WriteFrom(Attempts(brief, answers), 0, max, None)
    requires outcome.Wrote? && outcome.completed
    ensures Reports.Create(FinalOf(outcome, brief, conflicts)).Stored? ==>
              RowsMatchText(Reports.Create(FinalOf(outcome, brief, conflicts)).row)
  {
    CompletedMeansSound(brief, answers, max, outcome);
    if Reports.Create(FinalOf(outcome, brief, conflicts)).Stored? {
      RowsOfSoundReport(outcome, brief, conflicts);
    }
  }
}
