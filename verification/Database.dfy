/** The rows behind durable research runs, and the statements that read and change them.
    Each statement is one atomic step; `now` is the clock the statement uses, in microseconds. */
module Database {
  import opened Evidence
  import opened Text
  import Reports
  import Sorting

  datatype Status = Queued | Running | Completed | Failed | Cancelled

  predicate Active(status: Status) {
    status == Queued || status == Running
  }

  datatype RunKey = RunKey(tenant: nat, id: nat)

  datatype Run = Run(
    status: Status,
    createdAt: int,
    startedAt: Option<int>,
    completedAt: Option<int>,
    error: Option<string>)

  datatype Lease = Lease(worker: string, token: nat, attempt: nat, acquiredAt: int, heartbeatAt: int, expiresAt: int)

  datatype Rows = Rows(runs: map<RunKey, Run>, leases: map<RunKey, Lease>, reports: map<RunKey, Reports.ReportRow>)

  function Expiry(now: int, ttl: int): int {
    now + ttl * 1_000_000
  }

  // ---- Leases ----------------------------------------------------------------------------

  /** A claim is granted, refused because a live lease exists, or rejected with an error
      (blank worker, lifetime out of range, or no such run). */
  datatype Claim = Granted(lease: Lease) | Refused | Error

  predicate ValidTtl(ttl: int) {
    1 <= ttl <= 3600
  }

  function ClaimOutcome(db: Rows, key: RunKey, worker: string, ttl: int, now: int, token: nat): Claim {
    if Strip(worker) == "" || !ValidTtl(ttl) then Error
    else if key !in db.leases then
      if key !in db.runs then Error
      else Granted(Lease(Strip(worker), token, 1, now, now, Expiry(now, ttl)))
    else if db.leases[key].expiresAt <= now then
      Granted(Lease(Strip(worker), token, db.leases[key].attempt + 1, now, now, Expiry(now, ttl)))
    else Refused
  }

  function AfterClaim(db: Rows, key: RunKey, worker: string, ttl: int, now: int, token: nat): Rows {
    match ClaimOutcome(db, key, worker, ttl, now, token)
    case Granted(lease) => db.(leases := db.leases[key := lease])
    case _ => db
  }

  /** The conditions under which a heartbeat extends a lease. */
  predicate Renewable(db: Rows, key: RunKey, worker: string, token: nat, now: int) {
    && key in db.leases
    && db.leases[key].worker == Strip(worker)
    && db.leases[key].token == token
    && db.leases[key].expiresAt > now
    && key in db.runs && Active(db.runs[key].status)
  }

  function AfterRenew(db: Rows, key: RunKey, worker: string, token: nat, ttl: int, now: int): Rows {
    if ValidTtl(ttl) && Renewable(db, key, worker, token, now) then
      db.(leases := db.leases[key := db.leases[key].(heartbeatAt := now, expiresAt := Expiry(now, ttl))])
    else db
  }

  predicate Releasable(db: Rows, key: RunKey, worker: string, token: nat) {
    key in db.leases && db.leases[key].worker == Strip(worker) && db.leases[key].token == token
  }

  function AfterRelease(db: Rows, key: RunKey, worker: string, token: nat): Rows {
    if Releasable(db, key, worker, token) then db.(leases := db.leases - {key}) else db
  }

  predicate Recoverable(db: Rows, key: RunKey, now: int) {
    && key in db.runs && Active(db.runs[key].status)
    && (key !in db.leases || db.leases[key].expiresAt <= now)
  }

  /** Oldest run first, ties broken by id. */
  predicate RunLe(db: Rows, a: RunKey, b: RunKey) {
    if a !in db.runs || b !in db.runs then
      a in db.runs || (b !in db.runs && KeyLe(a, b))
    else
      || db.runs[a].createdAt < db.runs[b].createdAt
      || (db.runs[a].createdAt == db.runs[b].createdAt && KeyLe(a, b))
  }

  predicate KeyLe(a: RunKey, b: RunKey) {
    a.id < b.id || (a.id == b.id && a.tenant <= b.tenant)
  }

  function RunOrder(db: Rows): (RunKey, RunKey) -> bool {
    (a, b) => RunLe(db, a, b)
  }

  lemma RunOrderTotal(db: Rows)
    ensures Sorting.TotalOrder(RunOrder(db))
  {
  }

  /** The rows `list_recoverable_runs` returns, given the table in some scan order. */
  function Recovered(db: Rows, scan: seq<RunKey>, limit: nat, now: int): seq<RunKey> {
    Sorting.Take(Sorting.Sort(RunOrder(db), Eligible(db, scan, now)), limit)
  }

  function Eligible(db: Rows, scan: seq<RunKey>, now: int): (r: seq<RunKey>)
    ensures forall key :: key in r <==> key in scan && Recoverable(db, key, now)
    ensures |r| <= |scan|
  {
    if scan == [] then []
    else (if Recoverable(db, scan[0], now) then [scan[0]] else []) + Eligible(db, scan[1..], now)
  }

  /** `scan` lists every run once. */
  ghost predicate Scans(db: Rows, scan: seq<RunKey>) {
    Sorting.Distinct(scan) && forall key :: key in scan <==> key in db.runs
  }

  lemma {:induction false} EligibleDistinct(db: Rows, scan: seq<RunKey>, now: int)
    requires Sorting.Distinct(scan)
    ensures Sorting.Distinct(Eligible(db, scan, now))
  {
    if scan != [] {
      EligibleDistinct(db, scan[1..], now);
      assert scan[0] !in scan[1..];
    }
  }

  /** The listing is exactly the recoverable runs that fewer than `limit` recoverable runs
      precede, whatever order the table is scanned in. */
  lemma RecoveredIsOldestFirst(db: Rows, scan: seq<RunKey>, limit: nat, now: int, key: RunKey)
    requires Scans(db, scan)
    ensures key in Recovered(db, scan, limit, now) <==>
              Recoverable(db, key, now)
              && Sorting.Before(RunOrder(db), Eligible(db, scan, now), key) < limit
    ensures Sorting.SortedBy(RunOrder(db), Recovered(db, scan, limit, now))
  {
    RunOrderTotal(db);
    EligibleDistinct(db, scan, now);
    Sorting.TakeOfSort(RunOrder(db), Eligible(db, scan, now), limit, key);
    Sorting.SortSorted(RunOrder(db), Eligible(db, scan, now));
  }

  /** Every active run is in exactly one of two classes at every time: recoverable, when it is
      listed (the limit allowing) and any claim is granted; or owned, when exactly one
      (worker, token) pair can renew and every claim is refused. */
  lemma RecoverableOrOwned(db: Rows, key: RunKey, worker: string, ttl: int, now: int, newToken: nat)
    requires key in db.runs && Active(db.runs[key].status)
    requires Strip(worker) != "" && ValidTtl(ttl)
    requires forall k :: k in db.leases ==> Stripped(db.leases[k].worker)
    ensures Recoverable(db, key, now) <==> ClaimOutcome(db, key, worker, ttl, now, newToken).Granted?
    ensures !Recoverable(db, key, now) <==> ClaimOutcome(db, key, worker, ttl, now, newToken).Refused?
    ensures !Recoverable(db, key, now) <==> exists w, t :: Renewable(db, key, w, t, now)
    ensures forall w1, t1, w2, t2 ::
              Renewable(db, key, w1, t1, now) && Renewable(db, key, w2, t2, now) ==>
                t1 == t2 && Strip(w1) == Strip(w2)
  {
    if !Recoverable(db, key, now) {
      var lease := db.leases[key];
      StripFixesStripped(lease.worker);
      assert Renewable(db, key, lease.worker, lease.token, now);
    }
  }

  /** A run that is queued or running and not under a live lease. */
  predicate Waits(db: Rows, key: RunKey, now: int) {
    && key in db.runs && (db.runs[key].status == Queued || db.runs[key].status == Running)
    && !(key in db.leases && now < db.leases[key].expiresAt)
  }

  /** The first run is older, or as old with the smaller key. */
  predicate ComesFirst(db: Rows, a: RunKey, b: RunKey)
    requires a in db.runs && b in db.runs
  {
    || db.runs[a].createdAt < db.runs[b].createdAt
    || (db.runs[a].createdAt == db.runs[b].createdAt && (a.id < b.id || (a.id == b.id && a.tenant <= b.tenant)))
  }

  /** The listing holds waiting runs only, each once, oldest first, and leaves out a waiting run only if
      it is full of older ones. */
  ghost predicate ListsTheOldest(db: Rows, listed: seq<RunKey>, limit: nat, now: int) {
    && |listed| <= limit && Sorting.Distinct(listed)
    && (forall key :: key in listed ==> Waits(db, key, now))
    && (forall i, j :: 0 <= i < j < |listed| ==>
          listed[i] in db.runs && listed[j] in db.runs && ComesFirst(db, listed[i], listed[j]))
    && (forall key :: Waits(db, key, now) && key !in listed ==>
          |listed| == limit && forall first :: first in listed ==> first in db.runs && ComesFirst(db, first, key))
  }

  lemma RecoveredAreTheOldest(db: Rows, scan: seq<RunKey>, limit: nat, now: int)
    requires Scans(db, scan)
    ensures ListsTheOldest(db, Recovered(db, scan, limit, now), limit, now)
  {
    var listed := Recovered(db, scan, limit, now);
    RecoveredWait(db, scan, limit, now);
    RecoveredInOrder(db, scan, limit, now);
    forall key | Waits(db, key, now) && key !in listed
      ensures |listed| == limit
      ensures forall first :: first in listed ==> first in db.runs && ComesFirst(db, first, key)
    {
      LeftOutIsYounger(db, scan, limit, now, key);
    }
  }

  lemma RecoveredWait(db: Rows, scan: seq<RunKey>, limit: nat, now: int)
    requires Scans(db, scan)
    ensures forall key :: key in Recovered(db, scan, limit, now) ==> Waits(db, key, now)
    ensures forall key :: Waits(db, key, now) ==> key in Eligible(db, scan, now)
    ensures |Recovered(db, scan, limit, now)| <= limit
  {
    var eligible := Eligible(db, scan, now);
    Sorting.SameElements(Sorting.Sort(RunOrder(db), eligible), eligible);
  }

  lemma RecoveredInOrder(db: Rows, scan: seq<RunKey>, limit: nat, now: int)
    requires Scans(db, scan)
    ensures var listed := Recovered(db, scan, limit, now);
      && Sorting.Distinct(listed)
      && forall i, j :: 0 <= i < j < |listed| ==>
           listed[i] in db.runs && listed[j] in db.runs && ComesFirst(db, listed[i], listed[j])
  {
    var eligible, listed := Eligible(db, scan, now), Recovered(db, scan, limit, now);
    RecoveredWait(db, scan, limit, now);
    RunOrderTotal(db);
    EligibleDistinct(db, scan, now);
    Sorting.SortSorted(RunOrder(db), eligible);
    Sorting.SortDistinct(RunOrder(db), eligible);
    forall i, j | 0 <= i < j < |listed|
      ensures listed[i] in db.runs && listed[j] in db.runs && ComesFirst(db, listed[i], listed[j])
    {
      assert Waits(db, listed[i], now) && Waits(db, listed[j], now);
      OrderIsAge(db, listed[i], listed[j]);
    }
  }

  lemma OrderIsAge(db: Rows, a: RunKey, b: RunKey)
    requires a in db.runs && b in db.runs
    ensures RunOrder(db)(a, b) <==> ComesFirst(db, a, b)
  {
  }

  lemma LeftOutIsYounger(db: Rows, scan: seq<RunKey>, limit: nat, now: int, key: RunKey)
    requires Scans(db, scan) && Waits(db, key, now) && key !in Recovered(db, scan, limit, now)
    ensures |Recovered(db, scan, limit, now)| == limit
    ensures forall first :: first in Recovered(db, scan, limit, now) ==>
                              first in db.runs && ComesFirst(db, first, key)
  {
    var eligible := Eligible(db, scan, now);
    RecoveredWait(db, scan, limit, now);
    RunOrderTotal(db);
    LeftOutMeansFull(db, eligible, limit, key);
    forall first | first in Recovered(db, scan, limit, now)
      ensures first in db.runs && ComesFirst(db, first, key)
    {
      Sorting.TakeKeepsTheFirst(RunOrder(db), eligible, limit, first, key);
      OrderIsAge(db, first, key);
    }
  }

  lemma LeftOutMeansFull(db: Rows, eligible: seq<RunKey>, limit: nat, key: RunKey)
    requires key in eligible && key !in Sorting.Take(Sorting.Sort(RunOrder(db), eligible), limit)
    ensures |Sorting.Take(Sorting.Sort(RunOrder(db), eligible), limit)| == limit
  {
    Sorting.SameElements(Sorting.Sort(RunOrder(db), eligible), eligible);
  }

  lemma ListedUnlessLimited(db: Rows, scan: seq<RunKey>, limit: nat, now: int, key: RunKey)
    requires Scans(db, scan) && |Eligible(db, scan, now)| <= limit
    ensures key in Recovered(db, scan, limit, now) <==> Recoverable(db, key, now)
  {
    var eligible := Eligible(db, scan, now);
    Sorting.SameElements(Sorting.Sort(RunOrder(db), eligible), eligible);
  }

  /** What a claim answers: refused exactly under a live lease, an error exactly for a blank worker, a
      lifetime out of range or a run that does not exist, and otherwise granted for the lifetime. */
  lemma ClaimAnswersExactly(db: Rows, key: RunKey, worker: string, ttl: int, now: int, token: nat)
    requires key in db.leases ==> key in db.runs
    ensures var answer, bad := ClaimOutcome(db, key, worker, ttl, now, token),
                               Strip(worker) == "" || ttl < 1 || ttl > 3600 || key !in db.runs;
      && (answer == Error <==> bad)
      && (answer == Refused <==> !bad && key in db.leases && now < db.leases[key].expiresAt)
      && (answer.Granted? ==>
            && answer.lease.worker == Strip(worker) && answer.lease.token == token
            && answer.lease.acquiredAt == now && answer.lease.heartbeatAt == now
            && answer.lease.expiresAt == now + ttl * 1_000_000
            && answer.lease.attempt == 1 + if key in db.leases then db.leases[key].attempt else 0)
  {
  }

  /** A token that is not the one in the row can neither extend nor remove the row. */
  lemma SupersededTokenIsInert(db: Rows, key: RunKey, worker: string, token: nat, ttl: int, now: int)
    requires key in db.leases ==> db.leases[key].token != token
    ensures AfterRenew(db, key, worker, token, ttl, now) == db
    ensures AfterRelease(db, key, worker, token) == db
  {
  }

  // ---- Run status ------------------------------------------------------------------------

  function AfterCreate(db: Rows, key: RunKey, now: int): Rows {
    db.(runs := db.runs[key := Run(Queued, now, None, None, None)])
  }

  predicate InStatus(db: Rows, key: RunKey, statuses: set<Status>) {
    key in db.runs && db.runs[key].status in statuses
  }

  const ACTIVE: set<Status> := {Queued, Running}

  function AfterRunning(db: Rows, key: RunKey, now: int): Rows {
    if InStatus(db, key, {Queued}) then
      var run := db.runs[key].(status := Running, startedAt := Some(now), completedAt := None, error := None);
      db.(runs := db.runs[key := run])
    else db
  }

  function AfterFailed(db: Rows, key: RunKey, now: int, message: string): Rows {
    if Strip(message) != "" && |Strip(message)| <= 4000 && InStatus(db, key, ACTIVE) then
      var run := db.runs[key].(status := Failed, completedAt := Some(now), error := Some(Strip(message)));
      db.(runs := db.runs[key := run])
    else db
  }

  function AfterCancelled(db: Rows, key: RunKey, now: int): Rows {
    if InStatus(db, key, ACTIVE) then
      db.(runs := db.runs[key := db.runs[key].(status := Cancelled, completedAt := Some(now), error := None)])
    else db
  }

  /** Whether the completion transaction commits: the run is running, it has no report row
      yet, and the final state can be persisted. */
  predicate Completes(db: Rows, key: RunKey, state: FinalState) {
    && InStatus(db, key, {Running})
    && !Reports.Create(state).Rejected?
    && (Reports.Create(state).Stored? ==> key !in db.reports)
  }

  /** Marks the run completed and writes its report, or changes nothing at all. */
  function AfterCompleted(db: Rows, key: RunKey, now: int, state: FinalState): Rows {
    if !Completes(db, key, state) then db
    else
      var runs := db.runs[key := db.runs[key].(status := Completed, completedAt := Some(now), error := None)];
      match Reports.Create(state)
      case Stored(row) => db.(runs := runs, reports := db.reports[key := row])
      case _ => db.(runs := runs)
  }

  // ---- The repository --------------------------------------------------------------------

  class Repository {
    var runs: map<RunKey, Run>
    var leases: map<RunKey, Lease>
    var reports: map<RunKey, Reports.ReportRow>

    ghost function Contents(): Rows
      reads this
    {
      Rows(runs, leases, reports)
    }

    constructor ()
      ensures Contents() == Rows(map[], map[], map[])
    {
      runs, leases, reports := map[], map[], map[];
    }

    method ClaimLease(key: RunKey, worker: string, ttl: int, now: int, token: nat) returns (outcome: Claim)
      modifies this`leases
      ensures outcome == ClaimOutcome(old(Contents()), key, worker, ttl, now, token)
      ensures Contents() == AfterClaim(old(Contents()), key, worker, ttl, now, token)
    {
      var owner := Strip(worker);
      if owner == "" || !(1 <= ttl <= 3600) {
        return Error;
      }
      var expires := now + ttl * 1_000_000;
      var attempt := 1;
      if key in leases {
        if !(leases[key].expiresAt <= now) {
          return Refused;
        }
        attempt := leases[key].attempt + 1;
      } else if key !in runs {
        return Error;
      }
      var lease := Lease(owner, token, attempt, now, now, expires);
      leases := leases[key := lease];
      return Granted(lease);
    }

    method RenewLease(key: RunKey, worker: string, token: nat, ttl: int, now: int) returns (renewed: Option<Lease>)
      modifies this`leases
      ensures Contents() == AfterRenew(old(Contents()), key, worker, token, ttl, now)
      ensures renewed.Some? <==> ValidTtl(ttl) && Renewable(old(Contents()), key, worker, token, now)
      ensures renewed.Some? ==> key in leases && renewed.value == leases[key]
    {
      var owner := Strip(worker);
      if !(1 <= ttl <= 3600) || key !in leases || key !in runs {
        return None;
      }
      var lease := leases[key];
      if lease.worker != owner || lease.token != token || lease.expiresAt <= now
         || !(runs[key].status in {Queued, Running})
      {
        return None;
      }
      lease := lease.(heartbeatAt := now, expiresAt := now + ttl * 1_000_000);
      leases := leases[key := lease];
      return Some(lease);
    }

    method ReleaseLease(key: RunKey, worker: string, token: nat) returns (released: bool)
      modifies this`leases
      ensures Contents() == AfterRelease(old(Contents()), key, worker, token)
      ensures released == Releasable(old(Contents()), key, worker, token)
    {
      if key !in leases || leases[key].worker != Strip(worker) || leases[key].token != token {
        return false;
      }
      leases := leases - {key};
      return true;
    }

    /** Scans the run table, keeps the active runs without a live lease, and sorts them. */
    method ListRecoverableRuns(scan: seq<RunKey>, limit: nat, now: int) returns (listed: Option<seq<RunKey>>)
      requires Scans(Contents(), scan)
      ensures listed == if 1 <= limit <= 500 then Some(Recovered(Contents(), scan, limit, now)) else None
      ensures listed.Some? ==> ListsTheOldest(Contents(), listed.value, limit, now)
    {
      if !(1 <= limit <= 500) {
        return None;
      }
      var found: seq<RunKey> := [];
      var i := |scan|;
      while i > 0
        invariant 0 <= i <= |scan|
        invariant found == Eligible(Contents(), scan[i..], now)
      {
        i := i - 1;
        var key := scan[i];
        assert key in scan;
        assert scan[i..] == [key] + scan[i + 1..];
        if runs[key].status in {Queued, Running} && (key !in leases || leases[key].expiresAt <= now) {
          found := [key] + found;
        }
      }
      assert scan[0..] == scan;
      RecoveredAreTheOldest(Contents(), scan, limit, now);
      var order := RunOrder(Rows(runs, leases, reports));
      return Some(Sorting.Take(Sorting.Sort(order, found), limit));
    }

    method MarkRunning(key: RunKey, now: int) returns (ok: bool)
      modifies this`runs
      ensures ok == InStatus(old(Contents()), key, {Queued})
      ensures Contents() == AfterRunning(old(Contents()), key, now)
    {
      if key !in runs || runs[key].status != Queued {
        return false;
      }
      runs := runs[key := runs[key].(status := Running, startedAt := Some(now), completedAt := None, error := None)];
      return true;
    }

    method MarkFailed(key: RunKey, now: int, message: string) returns (ok: bool)
      modifies this`runs
      ensures ok == (Strip(message) != "" && |Strip(message)| <= 4000 && InStatus(old(Contents()), key, ACTIVE))
      ensures Contents() == AfterFailed(old(Contents()), key, now, message)
    {
      var text := Strip(message);
      if text == "" || |text| > 4000 || key !in runs || runs[key].status !in {Queued, Running} {
        return false;
      }
      runs := runs[key := runs[key].(status := Failed, completedAt := Some(now), error := Some(text))];
      return true;
    }

    method MarkCancelled(key: RunKey, now: int) returns (ok: bool)
      modifies this`runs
      ensures ok == InStatus(old(Contents()), key, ACTIVE)
      ensures Contents() == AfterCancelled(old(Contents()), key, now)
    {
      if key !in runs || runs[key].status !in {Queued, Running} {
        return false;
      }
      runs := runs[key := runs[key].(status := Cancelled, completedAt := Some(now), error := None)];
      return true;
    }

    /** The completion transaction: the status change is undone when the report cannot be
        written. */
    method MarkCompleted(key: RunKey, now: int, state: FinalState) returns (ok: bool)
      modifies this`runs, this`reports
      ensures ok == Completes(old(Contents()), key, state)
      ensures Contents() == AfterCompleted(old(Contents()), key, now, state)
    {
      if key !in runs || runs[key].status != Running {
        return false;
      }
      var savepoint := runs;
      runs := runs[key := runs[key].(status := Completed, completedAt := Some(now), error := None)];
      var outcome := Reports.CreateFromState(state);
      match outcome
      case Nothing => return true;
      case Rejected =>
        runs := savepoint;
        return false;
      case Stored(row) =>
        if key in reports {
          runs := savepoint;
          return false;
        }
        reports := reports[key := row];
        return true;
    }
  }
}
