/** The reflect agent: which follow-up queries it asks for. The language model is an oracle, and
    `fold` stands for Python's `str.casefold`. */
module Reflection {
  import opened Text
  import opened Evidence

  datatype Preference = PreferWeb | PreferPrivate | Hybrid

  datatype Gap = Gap(topic: string, reason: string, preference: Preference)

  datatype Query = Query(text: string, preference: Preference, reason: string)

  /** What the model sends back: there is no client, the call fails, or a list of queries. */
  datatype Reply = NoClient | CallFailed | Replied(queries: seq<Query>)

  datatype Decision = Raises | Continue(queries: seq<Query>) | Write

  const MAX_QUERIES := 6

  /** What the response schema accepts; any other reply makes the call fail. */
  predicate ValidReply(reply: Reply) {
    && reply.Replied?
    && |reply.queries| <= MAX_QUERIES
    && forall q :: q in reply.queries ==> 3 <= |q.text| <= 300 && 3 <= |q.reason| <= 500
  }

  function Norm(fold: string -> string, query: string): string {
    fold(Strip(query))
  }

  function Norms(fold: string -> string, queries: seq<string>): set<string> {
    set q | q in queries :: Norm(fold, q)
  }

  // ---- Without the model: follow the gaps ------------------------------------------------

  /** The gaps' topics that were not attempted, as queries; a new topic of fewer than three
      characters is refused by the query's schema. */
  function Candidates(fold: string -> string, gaps: seq<Gap>, attempted: set<string>): Option<seq<Query>> {
    if gaps == [] then Some([])
    else
      var last := gaps[|gaps| - 1];
      var text := Strip(last.topic);
      match Candidates(fold, gaps[..|gaps| - 1], attempted)
      case None => None
      case Some(before) =>
        if fold(text) in attempted then Some(before)
        else if |text| < 3 then None
        else Some(before + [Query(text, last.preference, last.reason)])
  }

  function FollowGaps(fold: string -> string, gaps: seq<Gap>, attempted: set<string>): Decision {
    match Candidates(fold, gaps, attempted)
    case None => Raises
    case Some(queries) =>
      if queries == [] then Write
      else Continue(if |queries| > MAX_QUERIES then queries[..MAX_QUERIES] else queries)
  }

  method FallbackFollowUp(fold: string -> string, gaps: seq<Gap>, attempted: seq<string>) returns (decision: Decision)
    ensures decision == FollowGaps(fold, gaps, Norms(fold, attempted))
  {
    var seen := Norms(fold, attempted);
    var queries: seq<Query> := [];
    for i := 0 to |gaps|
      invariant Candidates(fold, gaps[..i], seen) == Some(queries)
    {
      var text := Strip(gaps[i].topic);
      assert gaps[..i + 1][..i] == gaps[..i];
      if fold(text) in seen {
        continue;
      }
      if |text| < 3 {
        CandidatesNeedThePrefix(fold, gaps, i + 1, seen);
        return Raises;
      }
      queries := queries + [Query(text, gaps[i].preference, gaps[i].reason)];
    }
    assert gaps[..|gaps|] == gaps;
    if queries == [] {
      return Write;
    }
    return Continue(if |queries| > MAX_QUERIES then queries[..MAX_QUERIES] else queries);
  }

  lemma {:induction false} CandidatesNeedThePrefix(
    fold: string -> string, gaps: seq<Gap>, k: nat, attempted: set<string>)
    requires k <= |gaps| && Candidates(fold, gaps[..k], attempted).None?
    ensures Candidates(fold, gaps, attempted).None?
    decreases |gaps|
  {
    if k == |gaps| {
      assert gaps[..k] == gaps;
    } else {
      assert gaps[..|gaps| - 1][..k] == gaps[..k];
      CandidatesNeedThePrefix(fold, gaps[..|gaps| - 1], k, attempted);
    }
  }

  // ---- With the model: keep what is new --------------------------------------------------

  function Texts(queries: seq<Query>): (r: seq<string>)
    ensures |r| == |queries|
    ensures forall i :: 0 <= i < |queries| ==> r[i] == queries[i].text
  {
    seq(|queries|, i requires 0 <= i < |queries| => queries[i].text)
  }

  /** The queries that repeat neither an attempted one nor one before them. */
  function Novel(fold: string -> string, queries: seq<Query>, attempted: set<string>): seq<Query> {
    if queries == [] then []
    else
      var last := queries[|queries| - 1];
      var before := Novel(fold, queries[..|queries| - 1], attempted);
      if Norm(fold, last.text) in attempted + Norms(fold, Texts(before)) then before else before + [last]
  }

  method RemoveRepeats(fold: string -> string, queries: seq<Query>, attempted: seq<string>) returns (unique: seq<Query>)
    ensures unique == Novel(fold, queries, Norms(fold, attempted))
  {
    var seen := Norms(fold, attempted);
    unique := [];
    for i := 0 to |queries|
      invariant unique == Novel(fold, queries[..i], Norms(fold, attempted))
      invariant seen == Norms(fold, attempted) + Norms(fold, Texts(unique))
    {
      var norm := Norm(fold, queries[i].text);
      assert queries[..i + 1][..i] == queries[..i];
      if norm !in seen {
        NormsOfOneMore(fold, Texts(unique), queries[i].text);
        assert Texts(unique + [queries[i]]) == Texts(unique) + [queries[i].text];
        seen := seen + {norm};
        unique := unique + [queries[i]];
      }
    }
    assert queries[..|queries|] == queries;
  }

  lemma NormsOfOneMore(fold: string -> string, texts: seq<string>, text: string)
    ensures Norms(fold, texts + [text]) == Norms(fold, texts) + {Norm(fold, text)}
  {
    var more := texts + [text];
    assert more[|texts|] == text;
    assert forall q :: q in more <==> q in texts || q == text;
  }

  lemma NovelStep(fold: string -> string, queries: seq<Query>, attempted: set<string>)
    requires queries != []
    ensures var before, last := Novel(fold, queries[..|queries| - 1], attempted), queries[|queries| - 1];
            var novel := Novel(fold, queries, attempted);
            Norms(fold, Texts(novel)) + attempted == Norms(fold, Texts(before)) + attempted + {Norm(fold, last.text)}
  {
    var n := |queries| - 1;
    var before := Novel(fold, queries[..n], attempted);
    NormsOfOneMore(fold, Texts(before), queries[n].text);
    assert Texts(before + [queries[n]]) == Texts(before) + [queries[n].text];
  }

  /** Nothing new is dropped: every query's text is attempted or among the kept ones, up to
      stripping and case. */
  lemma {:induction false} NovelIsComplete(fold: string -> string, queries: seq<Query>, attempted: set<string>)
    ensures forall i :: 0 <= i < |queries| ==>
              Norm(fold, queries[i].text) in Norms(fold, Texts(Novel(fold, queries, attempted))) + attempted
  {
    if queries != [] {
      var n := |queries| - 1;
      var before := queries[..n];
      NovelIsComplete(fold, before, attempted);
      NovelStep(fold, queries, attempted);
      forall i | 0 <= i < n
        ensures Norm(fold, queries[i].text) in Norms(fold, Texts(Novel(fold, before, attempted))) + attempted
      {
        assert queries[i] == before[i];
      }
    }
  }

  /** Nothing repeated is kept: the kept queries were not attempted and differ from one another. */
  lemma {:induction false} NovelIsNew(fold: string -> string, queries: seq<Query>, attempted: set<string>)
    ensures var novel := Novel(fold, queries, attempted);
      && |novel| <= |queries|
      && (forall q :: q in novel ==> q in queries && Norm(fold, q.text) !in attempted)
      && (forall i, j :: 0 <= i < j < |novel| ==> Norm(fold, novel[i].text) != Norm(fold, novel[j].text))
  {
    if queries != [] {
      var n := |queries| - 1;
      NovelIsNew(fold, queries[..n], attempted);
      assert queries == queries[..n] + [queries[n]];
      var before := Novel(fold, queries[..n], attempted);
      forall i | 0 <= i < |before|
        ensures Norm(fold, before[i].text) in Norms(fold, Texts(before))
      {
        assert Texts(before)[i] in Texts(before);
      }
    }
  }

  // ---- The decision ----------------------------------------------------------------------

  /** What reflection decides; the status the model itself asks for plays no part. */
  function Decide(
    fold: string -> string, needsMore: bool, gaps: seq<Gap>, attempted: seq<string>, reply: Reply): Decision {
    var seen := Norms(fold, attempted);
    if !needsMore && gaps == [] then Write
    else
      var fallback := FollowGaps(fold, gaps, seen);
      if fallback.Raises? || !ValidReply(reply) then fallback
      else
        var novel := Novel(fold, reply.queries, seen);
        if novel == [] then Write else Continue(novel)
  }

  method Reflect(fold: string -> string, needsMore: bool, gaps: seq<Gap>, attempted: seq<string>, reply: Reply)
    returns (decision: Decision)
    ensures decision == Decide(fold, needsMore, gaps, attempted, reply)
  {
    if !needsMore && gaps == [] {
      return Write;
    }
    var fallback := FallbackFollowUp(fold, gaps, attempted);
    if fallback.Raises? || !ValidReply(reply) {
      return fallback;
    }
    var unique := RemoveRepeats(fold, reply.queries, attempted);
    if unique == [] {
      return Write;
    }
    return Continue(unique);
  }

  predicate IsNew(fold: string -> string, query: string, attempted: seq<string>) {
    Norm(fold, query) !in Norms(fold, attempted)
  }

  lemma {:induction false} CandidatesAreNew(fold: string -> string, gaps: seq<Gap>, attempted: seq<string>)
    ensures var candidates := Candidates(fold, gaps, Norms(fold, attempted));
            candidates.Some? ==>
              && (candidates.value == [] <==> forall g :: g in gaps ==> !IsNew(fold, g.topic, attempted))
              && forall q :: q in candidates.value ==> IsNew(fold, q.text, attempted) && |q.text| >= 3
  {
    if gaps != [] {
      var n := |gaps| - 1;
      CandidatesAreNew(fold, gaps[..n], attempted);
      StripIdempotent(gaps[n].topic);
      assert gaps == gaps[..n] + [gaps[n]];
    }
  }

  /** Whatever the model answers, a round asks for between one and six queries, and none of them
      was attempted before. */
  lemma ContinuesOnlyWithNewQueries(
    fold: string -> string, needsMore: bool, gaps: seq<Gap>, attempted: seq<string>, reply: Reply)
    ensures var decision := Decide(fold, needsMore, gaps, attempted, reply);
            decision.Continue? ==>
              && 1 <= |decision.queries| <= MAX_QUERIES
              && forall q :: q in decision.queries ==> IsNew(fold, q.text, attempted)
  {
    CandidatesAreNew(fold, gaps, attempted);
    if ValidReply(reply) {
      NovelIsNew(fold, reply.queries, Norms(fold, attempted));
    }
  }

  /** It decides to write exactly when nothing is missing or nothing new was proposed. */
  lemma WritesExactlyWhenNothingNew(
    fold: string -> string, needsMore: bool, gaps: seq<Gap>, attempted: seq<string>, reply: Reply)
    requires !Decide(fold, needsMore, gaps, attempted, reply).Raises?
    ensures Decide(fold, needsMore, gaps, attempted, reply).Write? <==>
            || (!needsMore && gaps == [])
            || (ValidReply(reply) && forall q :: q in reply.queries ==> !IsNew(fold, q.text, attempted))
            || (!ValidReply(reply) && forall g :: g in gaps ==> !IsNew(fold, g.topic, attempted))
  {
    CandidatesAreNew(fold, gaps, attempted);
    if ValidReply(reply) {
      var seen := Norms(fold, attempted);
      NovelIsNew(fold, reply.queries, seen);
      NovelIsComplete(fold, reply.queries, seen);
      var novel := Novel(fold, reply.queries, seen);
      if novel != [] {
        assert novel[0] in reply.queries && IsNew(fold, novel[0].text, attempted);
      } else {
        forall q | q in reply.queries
          ensures !IsNew(fold, q.text, attempted)
        {
          assert Norm(fold, q.text) in seen;
        }
      }
    }
  }

  /** The query asks for the gap: its stripped topic, where it prefers to look, and why. */
  predicate AsksFor(query: Query, gap: Gap) {
    query.text == Strip(gap.topic) && query.preference == gap.preference && query.reason == gap.reason
  }

  lemma {:induction false} CandidatesAskForGaps(fold: string -> string, gaps: seq<Gap>, attempted: seq<string>)
    ensures var candidates := Candidates(fold, gaps, Norms(fold, attempted));
      candidates.Some? ==>
        && (forall q :: q in candidates.value ==> exists g :: g in gaps && AsksFor(q, g))
        && (forall g :: g in gaps && IsNew(fold, g.topic, attempted) ==>
              exists q :: q in candidates.value && AsksFor(q, g))
  {
    if gaps != [] {
      var n := |gaps| - 1;
      CandidatesAskForGaps(fold, gaps[..n], attempted);
      assert gaps == gaps[..n] + [gaps[n]];
      var candidates := Candidates(fold, gaps, Norms(fold, attempted));
      if candidates.Some? && IsNew(fold, gaps[n].topic, attempted) {
        var last := candidates.value[|candidates.value| - 1];
        assert AsksFor(last, gaps[n]) && last in candidates.value;
      }
    }
  }

  /** Without a valid reply the round asks for the gaps: every query for one of them, and every new gap
      by a query unless there are six already. */
  lemma FallbackAsksForGaps(
    fold: string -> string, needsMore: bool, gaps: seq<Gap>, attempted: seq<string>, reply: Reply)
    requires !ValidReply(reply) && Decide(fold, needsMore, gaps, attempted, reply).Continue?
    ensures var queries := Decide(fold, needsMore, gaps, attempted, reply).queries;
      && (forall q :: q in queries ==> exists g :: g in gaps && AsksFor(q, g))
      && (|queries| < 6 ==> forall g :: g in gaps && IsNew(fold, g.topic, attempted) ==>
                                          exists q :: q in queries && AsksFor(q, g))
  {
    CandidatesAskForGaps(fold, gaps, attempted);
    var candidates := Candidates(fold, gaps, Norms(fold, attempted)).value;
    assert Decide(fold, needsMore, gaps, attempted, reply) == FollowGaps(fold, gaps, Norms(fold, attempted));
    assert forall q :: q in Decide(fold, needsMore, gaps, attempted, reply).queries ==> q in candidates;
  }

  /** A reply is followed exactly if it is a list of at most six queries within the schema's lengths:
      then the round consists of its new queries. */
  lemma ValidRepliesAreFollowed(fold: string -> string, gaps: seq<Gap>, attempted: seq<string>, queries: seq<Query>)
    requires |queries| <= 6 && forall q :: q in queries ==> 3 <= |q.text| <= 300 && 3 <= |q.reason| <= 500
    requires !Decide(fold, true, gaps, attempted, Replied(queries)).Raises?
    ensures var decision := Decide(fold, true, gaps, attempted, Replied(queries));
      && (decision.Write? <==> forall q :: q in queries ==> !IsNew(fold, q.text, attempted))
      && (decision.Continue? ==> forall q :: q in decision.queries ==> q in queries)
      && (decision.Continue? ==> forall i :: 0 <= i < |queries| && IsNew(fold, queries[i].text, attempted) ==>
            Norm(fold, queries[i].text) in Norms(fold, Texts(decision.queries)))
  {
    WritesExactlyWhenNothingNew(fold, true, gaps, attempted, Replied(queries));
    NovelIsNew(fold, queries, Norms(fold, attempted));
    NovelIsComplete(fold, queries, Norms(fold, attempted));
  }

  /** And any other reply leaves the decision to the gaps. */
  lemma OtherRepliesAreIgnored(
    fold: string -> string, needsMore: bool, gaps: seq<Gap>, attempted: seq<string>, reply: Reply)
    requires !reply.Replied? || |reply.queries| > 6
             || exists q :: q in reply.queries
                            && !(3 <= |q.text| <= 300 && 3 <= |q.reason| <= 500)
    ensures Decide(fold, needsMore, gaps, attempted, reply) == Decide(fold, needsMore, gaps, attempted, NoClient)
  {
  }

  lemma {:induction false} NoCandidatesOnShortTopics(fold: string -> string, gaps: seq<Gap>, attempted: seq<string>)
    ensures Candidates(fold, gaps, Norms(fold, attempted)).None? <==>
            exists g :: g in gaps && IsNew(fold, g.topic, attempted) && |Strip(g.topic)| < 3
  {
    if gaps != [] {
      var n := |gaps| - 1;
      NoCandidatesOnShortTopics(fold, gaps[..n], attempted);
      assert gaps == gaps[..n] + [gaps[n]];
    }
  }

  /** Reflection raises exactly when some gap that was not attempted has a topic of fewer than
      three characters, even if the model could have answered. */
  lemma RaisesExactlyOnShortTopics(
    fold: string -> string, needsMore: bool, gaps: seq<Gap>, attempted: seq<string>, reply: Reply)
    ensures Decide(fold, needsMore, gaps, attempted, reply).Raises? <==>
            exists g :: g in gaps && IsNew(fold, g.topic, attempted) && |Strip(g.topic)| < 3
  {
    NoCandidatesOnShortTopics(fold, gaps, attempted);
  }

  /** What the gap's schema accepts: it counts the characters before they are stripped. */
  predicate ValidGap(gap: Gap) {
    3 <= |gap.topic| <= 300 && 3 <= |gap.reason| <= 500
  }

  /** A valid gap can have such a topic: three characters, one of them a space. */
  lemma ValidGapRaises(fold: string -> string, needsMore: bool, attempted: seq<string>, reply: Reply)
    returns (gap: Gap)
    requires IsNew(fold, " ab", attempted)
    ensures ValidGap(gap) && Decide(fold, needsMore, [gap], attempted, reply).Raises?
  {
    var topic := " ab";
    gap := Gap(topic, "why", Hybrid);
    assert topic[1..] == "ab";
    StripFixesStripped("ab");
    assert Strip(topic) == "ab";
    assert gap in [gap];
    RaisesExactlyOnShortTopics(fold, needsMore, [gap], attempted, reply);
  }
}
