/** What the lease statements keep over a whole run: the book of every lease ever granted.
    A token's span runs from the moment it was claimed until its lease expired, or until it
    was released, whichever came first. */
module Leases {
  import opened Text
  import opened Database

  datatype Span = Span(key: RunKey, from: int, until: int)

  type Spans = map<nat, Span>

  /** The token is the one in its run's lease row. */
  predicate Current(db: Rows, spans: Spans, token: nat)
    requires token in spans
  {
    spans[token].key in db.leases && db.leases[spans[token].key].token == token
  }

  /** The token's span is over, and any later lease on its run started no earlier. */
  predicate Past(db: Rows, spans: Spans, now: int, token: nat)
    requires token in spans
  {
    && spans[token].until <= now
    && (spans[token].key in db.leases ==> spans[token].until <= db.leases[spans[token].key].acquiredAt)
  }

  ghost predicate RowsOk(db: Rows, spans: Spans, now: int) {
    forall key :: key in db.leases ==> RowOk(db, spans, now, key)
  }

  predicate RowOk(db: Rows, spans: Spans, now: int, key: RunKey)
    requires key in db.leases
  {
    var lease := db.leases[key];
    && key in db.runs
    && Stripped(lease.worker) && lease.worker != ""
    && lease.attempt >= 1
    && lease.acquiredAt <= lease.heartbeatAt <= now
    && lease.heartbeatAt < lease.expiresAt
    && lease.token in spans
    && spans[lease.token] == Span(key, lease.acquiredAt, lease.expiresAt)
  }

  ghost predicate SpansOk(db: Rows, spans: Spans, now: int) {
    forall token :: token in spans ==>
      && spans[token].from <= spans[token].until
      && spans[token].from <= now
      && (Current(db, spans, token) || Past(db, spans, now, token))
  }

  /** No instant belongs to two tokens of one run. */
  ghost predicate Disjoint(spans: Spans) {
    forall s, t :: s in spans && t in spans ==> Apart(spans, s, t)
  }

  predicate Apart(spans: Spans, s: nat, t: nat)
    requires s in spans && t in spans
  {
    s != t && spans[s].key == spans[t].key ==>
      spans[s].until <= spans[t].from || spans[t].until <= spans[s].from
  }

  ghost predicate BookOk(db: Rows, spans: Spans, now: int) {
    RowsOk(db, spans, now) && SpansOk(db, spans, now) && Disjoint(spans)
  }

  function SpansAfterClaim(db: Rows, spans: Spans, key: RunKey, worker: string, ttl: int, now: int, token: nat): Spans {
    match ClaimOutcome(db, key, worker, ttl, now, token)
    case Granted(lease) => spans[token := Span(key, now, lease.expiresAt)]
    case _ => spans
  }

  function SpansAfterRenew(db: Rows, spans: Spans, key: RunKey, worker: string, token: nat, ttl: int, now: int): Spans {
    if ValidTtl(ttl) && Renewable(db, key, worker, token, now) && token in spans then
      spans[token := spans[token].(until := Expiry(now, ttl))]
    else spans
  }

  function SpansAfterRelease(db: Rows, spans: Spans, key: RunKey, worker: string, token: nat, now: int): Spans {
    if Releasable(db, key, worker, token) && token in spans then Cut(spans, token, now) else spans
  }

  /** Ends a span now, unless it is already over. */
  function Cut(spans: Spans, token: nat, now: int): Spans
    requires token in spans
  {
    if now < spans[token].until then spans[token := spans[token].(until := now)] else spans
  }

  /** The row an accepted claim writes. */
  predicate Claimable(db: Rows, spans: Spans, now: int, key: RunKey, lease: Lease) {
    && key in db.runs
    && (key in db.leases ==> db.leases[key].expiresAt <= now)
    && Stripped(lease.worker) && lease.worker != "" && lease.attempt >= 1
    && lease.acquiredAt == lease.heartbeatAt == now < lease.expiresAt
    && lease.token !in spans
  }

  lemma GrantKeepsBook(db: Rows, spans: Spans, now: int, key: RunKey, lease: Lease)
    requires BookOk(db, spans, now) && Claimable(db, spans, now, key, lease)
    ensures BookOk(db.(leases := db.leases[key := lease]), spans[lease.token := Span(key, now, lease.expiresAt)], now)
  {
    var db' := db.(leases := db.leases[key := lease]);
    var spans' := spans[lease.token := Span(key, now, lease.expiresAt)];
    forall k | k in db'.leases
      ensures RowOk(db', spans', now, k)
    {
      assert k != key ==> RowOk(db, spans, now, k);
    }
    forall t | t in spans
      ensures spans[t].key == key ==> spans[t].until <= now
      ensures Current(db', spans', t) || Past(db', spans', now, t)
    {
      assert Current(db, spans, t) || Past(db, spans, now, t);
      assert spans[t].key == key && Current(db, spans, t) ==> RowOk(db, spans, now, key);
    }
    ReplaceKeepsDisjoint(spans, lease.token, spans'[lease.token]);
  }

  lemma ExtendKeepsBook(db: Rows, spans: Spans, now: int, key: RunKey, expires: int)
    requires BookOk(db, spans, now) && now < expires
    requires key in db.leases && now < db.leases[key].expiresAt
    ensures db.leases[key].token in spans
    ensures BookOk(db.(leases := db.leases[key := db.leases[key].(heartbeatAt := now, expiresAt := expires)]),
                   spans[db.leases[key].token := spans[db.leases[key].token].(until := expires)], now)
  {
    assert RowOk(db, spans, now, key);
    var token := db.leases[key].token;
    var db' := db.(leases := db.leases[key := db.leases[key].(heartbeatAt := now, expiresAt := expires)]);
    var spans' := spans[token := spans[token].(until := expires)];
    forall k | k in db'.leases
      ensures RowOk(db', spans', now, k)
    {
      assert RowOk(db, spans, now, k);
    }
    forall t | t in spans && t != token
      ensures spans[t].key == key ==> spans[t].until <= spans[token].from
      ensures Current(db', spans', t) || Past(db', spans', now, t)
    {
      assert Current(db, spans, t) || Past(db, spans, now, t);
    }
    ReplaceKeepsDisjoint(spans, token, spans'[token]);
  }

  /** Replacing one token's span keeps the book disjoint if the new span is apart from the others. */
  lemma ReplaceKeepsDisjoint(spans: Spans, token: nat, span: Span)
    requires Disjoint(spans)
    requires forall t :: t in spans && t != token && spans[t].key == span.key ==> spans[t].until <= span.from
    ensures Disjoint(spans[token := span])
  {
    var spans' := spans[token := span];
    forall s, t | s in spans' && t in spans'
      ensures Apart(spans', s, t)
    {
      assert s in spans && t in spans ==> Apart(spans, s, t);
    }
  }

  lemma CutKeepsDisjoint(spans: Spans, token: nat, now: int)
    requires token in spans && Disjoint(spans)
    ensures Disjoint(Cut(spans, token, now))
  {
    forall s, t | s in spans && t in spans
      ensures Apart(Cut(spans, token, now), s, t)
    {
      assert Apart(spans, s, t);
    }
  }

  lemma RemoveKeepsBook(db: Rows, spans: Spans, now: int, key: RunKey)
    requires BookOk(db, spans, now) && key in db.leases
    ensures db.leases[key].token in spans
    ensures BookOk(db.(leases := db.leases - {key}), Cut(spans, db.leases[key].token, now), now)
  {
    assert RowOk(db, spans, now, key);
    var token := db.leases[key].token;
    var db' := db.(leases := db.leases - {key});
    var spans' := Cut(spans, token, now);
    CutKeepsDisjoint(spans, token, now);
    forall k | k in db'.leases
      ensures RowOk(db', spans', now, k)
    {
      assert RowOk(db, spans, now, k);
    }
    forall t | t in spans'
      ensures Current(db', spans', t) || Past(db', spans', now, t)
    {
      assert Current(db, spans, t) || Past(db, spans, now, t);
    }
  }

  lemma ClaimKeepsBook(db: Rows, spans: Spans, key: RunKey, worker: string, ttl: int, now: int, token: nat)
    requires BookOk(db, spans, now) && token !in spans
    ensures BookOk(AfterClaim(db, key, worker, ttl, now, token),
                   SpansAfterClaim(db, spans, key, worker, ttl, now, token), now)
  {
    match ClaimOutcome(db, key, worker, ttl, now, token)
    case Granted(lease) =>
      assert key in db.leases ==> RowOk(db, spans, now, key);
      StripStrips(worker);
      GrantKeepsBook(db, spans, now, key, lease);
    case _ =>
  }

  lemma RenewKeepsBook(db: Rows, spans: Spans, key: RunKey, worker: string, token: nat, ttl: int, now: int)
    requires BookOk(db, spans, now)
    ensures BookOk(AfterRenew(db, key, worker, token, ttl, now),
                   SpansAfterRenew(db, spans, key, worker, token, ttl, now), now)
  {
    if ValidTtl(ttl) && Renewable(db, key, worker, token, now) {
      ExtendKeepsBook(db, spans, now, key, Expiry(now, ttl));
    }
  }

  lemma ReleaseKeepsBook(db: Rows, spans: Spans, key: RunKey, worker: string, token: nat, now: int)
    requires BookOk(db, spans, now)
    ensures BookOk(AfterRelease(db, key, worker, token), SpansAfterRelease(db, spans, key, worker, token, now), now)
  {
    if Releasable(db, key, worker, token) {
      RemoveKeepsBook(db, spans, now, key);
    }
  }

  /** Time passing, and any change to run rows that deletes none, keep the book. */
  lemma ElsewhereKeepsBook(db: Rows, db': Rows, spans: Spans, now: int, now': int)
    requires BookOk(db, spans, now)
    requires db'.leases == db.leases && db.runs.Keys <= db'.runs.Keys && now <= now'
    ensures BookOk(db', spans, now')
  {
    forall k | k in db'.leases
      ensures RowOk(db', spans, now', k)
    {
      assert RowOk(db, spans, now, k);
    }
    forall t | t in spans
      ensures Current(db', spans, t) || Past(db', spans, now', t)
    {
      assert Current(db, spans, t) || Past(db, spans, now, t);
    }
  }

  /** A lease row is live: its token is the one that excludes every other worker now. */
  predicate Live(db: Rows, key: RunKey, token: nat, now: int) {
    key in db.leases && db.leases[key].token == token && now < db.leases[key].expiresAt
  }

  /** The book tells the truth: a token's lease is live exactly during its span. */
  lemma LiveExactlyInSpan(db: Rows, spans: Spans, key: RunKey, token: nat, now: int)
    requires BookOk(db, spans, now)
    ensures Live(db, key, token, now) <==>
              token in spans && spans[token].key == key && spans[token].from <= now < spans[token].until
  {
    if Live(db, key, token, now) {
      assert RowOk(db, spans, now, key);
    } else if token in spans && spans[token].key == key && Current(db, spans, token) {
      assert RowOk(db, spans, now, key);
    }
  }
}
