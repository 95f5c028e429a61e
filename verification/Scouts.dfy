/** The two scouts of a research round: the tasks each is given, and how their findings are
    merged into the pools. */
module Scouts {
  import opened Text
  import opened Evidence
  import opened InsertionOrder
  import Reflection

  datatype Task = Task(title: string, query: string, rationale: string)

  datatype Scout = WebScout | LocalScout

  // ---- Tasks -----------------------------------------------------------------------------

  predicate Wants(scout: Scout, preference: Reflection.Preference) {
    match preference
    case PreferWeb => scout.WebScout?
    case PreferPrivate => scout.LocalScout?
    case Hybrid => true
  }

  function FollowUp(number: nat, query: Reflection.Query): Task {
    Task("Follow-up " + Decimal(number), query.text, query.reason)
  }

  /** The follow-up tasks of one scout; numbers count all queries, from `number` on. */
  function FollowUps(queries: seq<Reflection.Query>, number: nat, scout: Scout): seq<Task> {
    if queries == [] then []
    else
      (if Wants(scout, queries[0].preference) then [FollowUp(number, queries[0])] else [])
      + FollowUps(queries[1..], number + 1, scout)
  }

  function TasksFor(plan: seq<Task>, iteration: nat, queries: seq<Reflection.Query>, scout: Scout): seq<Task> {
    if iteration == 0 || queries == [] then plan else FollowUps(queries, 1, scout)
  }

  lemma {:induction false} FollowUpsOfWanted(queries: seq<Reflection.Query>, number: nat, scout: Scout, i: nat)
    requires i < |queries| && Wants(scout, queries[i].preference)
    ensures FollowUp(number + i, queries[i]) in FollowUps(queries, number, scout)
  {
    if i > 0 {
      FollowUpsOfWanted(queries[1..], number + 1, scout, i - 1);
    }
  }

  lemma {:induction false} FollowUpsAreWanted(queries: seq<Reflection.Query>, number: nat, scout: Scout, task: Task)
    requires task in FollowUps(queries, number, scout)
    ensures exists i :: 0 <= i < |queries| && Wants(scout, queries[i].preference)
                        && task == FollowUp(number + i, queries[i])
  {
    if task in FollowUps(queries[1..], number + 1, scout) {
      FollowUpsAreWanted(queries[1..], number + 1, scout, task);
      var i :| 0 <= i < |queries| - 1 && Wants(scout, queries[1..][i].preference)
               && task == FollowUp(number + 1 + i, queries[1..][i]);
      assert queries[i + 1] == queries[1..][i];
    } else {
      assert task == FollowUp(number + 0, queries[0]);
    }
  }

  /** No supplementary query is lost: each becomes a task of exactly the scouts its preference
      names, and that is at least one of them. */
  lemma EveryQueryReachesAScout(plan: seq<Task>, iteration: nat, queries: seq<Reflection.Query>, i: nat)
    requires iteration > 0 && i < |queries|
    ensures var task := FollowUp(i + 1, queries[i]);
      && (Wants(WebScout, queries[i].preference) ==> task in TasksFor(plan, iteration, queries, WebScout))
      && (Wants(LocalScout, queries[i].preference) ==> task in TasksFor(plan, iteration, queries, LocalScout))
      && (Wants(WebScout, queries[i].preference) || Wants(LocalScout, queries[i].preference))
  {
    forall scout | Wants(scout, queries[i].preference)
      ensures FollowUp(i + 1, queries[i]) in TasksFor(plan, iteration, queries, scout)
    {
      FollowUpsOfWanted(queries, 1, scout, i);
    }
  }

  /** In a supplementary round a scout's tasks are exactly the numbered queries that do not ask for the
      other scout only; otherwise they are the plan's. */
  lemma ScoutsGetExactly(plan: seq<Task>, iteration: nat, queries: seq<Reflection.Query>, task: Task)
    ensures iteration == 0 || queries == [] ==>
              TasksFor(plan, iteration, queries, WebScout) == plan == TasksFor(plan, iteration, queries, LocalScout)
    ensures iteration > 0 && queries != [] ==>
              && (task in TasksFor(plan, iteration, queries, WebScout) <==>
                    exists i :: IsTaskOf(queries, i, task) && queries[i].preference != Reflection.PreferPrivate)
              && (task in TasksFor(plan, iteration, queries, LocalScout) <==>
                    exists i :: IsTaskOf(queries, i, task) && queries[i].preference != Reflection.PreferWeb)
  {
    if iteration > 0 && queries != [] {
      forall scout | task in TasksFor(plan, iteration, queries, scout)
        ensures exists i :: IsTaskOf(queries, i, task) && Wants(scout, queries[i].preference)
      {
        FollowUpsAreWanted(queries, 1, scout, task);
        var i :| 0 <= i < |queries| && Wants(scout, queries[i].preference) && task == FollowUp(1 + i, queries[i]);
        assert IsTaskOf(queries, i, task);
      }
      forall scout, i | IsTaskOf(queries, i, task) && Wants(scout, queries[i].preference)
        ensures task in TasksFor(plan, iteration, queries, scout)
      {
        FollowUpsOfWanted(queries, 1, scout, i);
      }
    }
  }

  /** The task searches for the i-th query, counted from one in its title, for the query's reason. */
  predicate IsTaskOf(queries: seq<Reflection.Query>, i: int, task: Task) {
    && 0 <= i < |queries|
    && task.title == "Follow-up " + Decimal(i + 1)
    && task.query == queries[i].text && task.rationale == queries[i].reason
  }

  // ---- Pools -----------------------------------------------------------------------------

  function Items(sources: seq<Source>): (r: seq<Item<string, Source>>)
    ensures |r| == |sources|
    ensures forall i :: 0 <= i < |sources| ==> r[i] == Item(sources[i].id, sources[i])
  {
    seq(|sources|, i requires 0 <= i < |sources| => Item(sources[i].id, sources[i]))
  }

  function Values(d: Dict<string, Source>): (r: seq<Source>)
    ensures |r| == |d|
    ensures forall i :: 0 <= i < |d| ==> r[i] == d[i].value
  {
    seq(|d|, i requires 0 <= i < |d| => d[i].value)
  }

  function Merge(existing: seq<Source>, latest: seq<Source>): seq<Source> {
    Values(PutAll([], Items(existing + latest)))
  }

  /** Collects both lists in a dictionary keyed by id. */
  method MergeSources(existing: seq<Source>, latest: seq<Source>) returns (merged: seq<Source>)
    ensures merged == Merge(existing, latest)
  {
    var all := existing + latest;
    var pool: Dict<string, Source> := [];
    for i := 0 to |all|
      invariant PutAll(pool, Items(all)[i..]) == PutAll([], Items(all))
    {
      assert Items(all)[i..][1..] == Items(all)[i + 1..];
      pool := Put(pool, all[i].id, all[i]);
    }
    assert Items(all)[|all|..] == [];
    merged := Values(pool);
  }

  ghost predicate DistinctIds(sources: seq<Source>) {
    forall i, j :: 0 <= i < j < |sources| ==> sources[i].id != sources[j].id
  }

  /** Every entry is stored under its own id. */
  ghost predicate Filed(d: Dict<string, Source>) {
    forall i :: 0 <= i < |d| ==> d[i].key == d[i].value.id
  }

  lemma {:induction false} PutAllFiles(d: Dict<string, Source>, sources: seq<Source>)
    requires Filed(d)
    ensures Filed(PutAll(d, Items(sources)))
    decreases |sources|
  {
    if sources != [] {
      assert Items(sources)[1..] == Items(sources[1..]);
      PutAllFiles(Put(d, sources[0].id, sources[0]), sources[1..]);
    }
  }

  lemma {:induction false} PutAllAppends(
    d: Dict<string, Source>, a: seq<Item<string, Source>>, b: seq<Item<string, Source>>)
    ensures PutAll(d, a + b) == PutAll(PutAll(d, a), b)
    decreases |a|
  {
    if a == [] {
      assert a + b == b;
    } else {
      assert (a + b)[1..] == a[1..] + b;
      PutAllAppends(Put(d, a[0].key, a[0].value), a[1..], b);
    }
  }

  /** Filing sources with new ids appends them. */
  lemma {:induction false} PutAllNew(d: Dict<string, Source>, sources: seq<Source>)
    requires DistinctIds(sources)
    requires forall i, j :: 0 <= i < |d| && 0 <= j < |sources| ==> d[i].key != sources[j].id
    ensures PutAll(d, Items(sources)) == d + Items(sources)
    decreases |sources|
  {
    if sources == [] {
      assert d + Items(sources) == d;
    } else {
      assert Items(sources)[1..] == Items(sources[1..]);
      assert Items(sources) == [Item(sources[0].id, sources[0])] + Items(sources[1..]);
      PutAllNew(d + [Item(sources[0].id, sources[0])], sources[1..]);
    }
  }

  /** The ids of `before` are still there, at the same places. */
  predicate Extends(before: seq<Source>, after: seq<Source>) {
    |before| <= |after| && Ids(before) == Ids(after)[..|before|]
  }

  lemma MergeFiles(existing: seq<Source>, latest: seq<Source>)
    requires DistinctIds(existing)
    ensures Merge(existing, latest) == Values(PutAll(Items(existing), Items(latest)))
    ensures Ids(Merge(existing, latest)) == Keys(PutAll(Items(existing), Items(latest)))
  {
    var d := Items(existing);
    assert Items(existing + latest) == d + Items(latest);
    PutAllAppends([], d, Items(latest));
    PutAllNew([], existing);
    assert [] + d == d;
    PutAllFiles(d, latest);
    FiledIds(PutAll(d, Items(latest)));
  }

  lemma FiledIds(d: Dict<string, Source>)
    requires Filed(d)
    ensures Ids(Values(d)) == Keys(d)
  {
  }

  lemma KeysOfItems(sources: seq<Source>)
    ensures Keys(Items(sources)) == Ids(sources)
    ensures forall id :: id in Ids(sources) <==> exists i :: 0 <= i < |Items(sources)| && Items(sources)[i].key == id
  {
    forall id | id in Ids(sources)
      ensures exists i :: 0 <= i < |Items(sources)| && Items(sources)[i].key == id
    {
      var i :| 0 <= i < |sources| && Ids(sources)[i] == id;
      assert Items(sources)[i].key == id;
    }
    forall i | 0 <= i < |Items(sources)|
      ensures Items(sources)[i].key in Ids(sources)
    {
      assert Ids(sources)[i] == Items(sources)[i].key;
    }
  }

  lemma IdsDiffer(sources: seq<Source>)
    requires forall i, j :: 0 <= i < j < |sources| ==> Ids(sources)[i] != Ids(sources)[j]
    ensures DistinctIds(sources)
  {
    forall i, j | 0 <= i < j < |sources|
      ensures sources[i].id != sources[j].id
    {
      assert Ids(sources)[i] != Ids(sources)[j];
    }
  }

  /** Merging never loses an id and keeps the earlier ids' order; it adds the new ids, repeats
      none, and invents nothing. */
  lemma MergeExtends(existing: seq<Source>, latest: seq<Source>)
    requires DistinctIds(existing)
    ensures Extends(existing, Merge(existing, latest))
    ensures DistinctIds(Merge(existing, latest))
    ensures forall id :: id in Ids(Merge(existing, latest)) <==> id in Ids(existing) || id in Ids(latest)
  {
    var d, items := Items(existing), Items(latest);
    var ids := Keys(PutAll(d, items));
    MergeFiles(existing, latest);
    KeysOfItems(existing);
    KeysOfItems(latest);
    PutAllKeepsKeys(d, items);
    IdsDiffer(Merge(existing, latest));
    forall i | 0 <= i < |existing|
      ensures Ids(existing)[i] in ids
    {
      assert ids[i] == ids[..|d|][i];
    }
  }

  lemma {:induction false} PutAllLooksUpLast(d: Dict<string, Source>, items: seq<Item<string, Source>>, i: nat)
    requires i < |items| && forall j :: i < j < |items| ==> items[j].key != items[i].key
    ensures items[i].key in AsMap(PutAll(d, items)) && AsMap(PutAll(d, items))[items[i].key] == items[i].value
    decreases |items|
  {
    PutAllUpdatesMap(d, items);
    MapAllLast(AsMap(d), items, i);
  }

  /** For each id the merged pool holds the source given last. */
  lemma MergeKeepsTheLatest(existing: seq<Source>, latest: seq<Source>, i: nat)
    requires i < |existing + latest|
    requires forall j :: i < j < |existing + latest| ==> (existing + latest)[j].id != (existing + latest)[i].id
    ensures (existing + latest)[i] in Merge(existing, latest)
  {
    var all := existing + latest;
    var d := PutAll([], Items(all));
    PutAllLooksUpLast([], Items(all), i);
    assert all[i].id in Keys(d);
    KeysPlaced(d, all[i].id);
    assert Values(d)[Place(d, all[i].id)] == all[i];
  }
}
