/** The evidence values shared by the workflow, the citation audit and report persistence. */
module Evidence {

  datatype Option<+T> = None | Some(value: T)

  datatype Origin = FromWeb | FromPrivate | FromMcp

  datatype SourceType = WebPage | Paper

  datatype Source = Source(
    id: string,
    origin: Origin,
    title: string,
    locator: string,
    content: string,
    provider: string,
    kind: SourceType,
    authors: seq<string>,
    year: Option<int>)

  datatype Score = Score(id: string, relevance: real, quality: real, traceability: real, overall: real)

  datatype CitationAudit = CitationAudit(
    valid: bool,
    cited: seq<string>,
    unknown: seq<string>,
    uncitedClaims: seq<string>,
    coverage: real)

  datatype Verdict = Approved | Revise

  /** Why a report is sent back. */
  datatype Reason =
    | TooFewSources
    | LowAverage
    | UnknownCitations
    | UncitedClaims
    | NothingCited
    | TopPrivateSourceUncited(id: string)

  datatype ReflectionDecision = ReflectionDecision(
    verdict: Verdict,
    reasons: seq<Reason>,
    evidenceCount: nat,
    averageScore: real,
    humanReviewRequired: bool)

  /** Sources that contradict one another. */
  datatype Conflict = Contradiction(claim: string, ids: seq<string>, explanation: string)

  /** The part of the workflow's final state that persistence reads. */
  datatype FinalState = FinalState(
    status: Option<string>,
    report: Option<string>,
    audit: Option<CitationAudit>,
    reflection: Option<ReflectionDecision>,
    attempts: Option<nat>,
    sources: seq<Source>,
    scores: seq<Score>,
    conflicts: seq<Conflict>)

  function Default<T>(option: Option<T>, default: T): T {
    match option
    case None => default
    case Some(value) => value
  }

  function Ids(sources: seq<Source>): seq<string> {
    seq(|sources|, i requires 0 <= i < |sources| => sources[i].id)
  }
}
