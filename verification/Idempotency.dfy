/** Concurrent callers sharing one idempotency key: look for a record, take the lock, look
    again, execute, record, release. Every interleaving, every executor failure and every lost
    Redis reply is a step. */
module Idempotency {
  import opened Evidence
  import opened Histories
  import opened Redis
  import opened Text
  import Sorting

  /** What the request fingerprint hashes. The JSON encoding and SHA-256 are taken as injective,
      so equal fingerprints are equal canonical requests. */
  datatype Fingerprint = Fingerprint(
    query: string,
    provider: string,
    user: Option<nat>,
    documents: Option<seq<string>>)

  function StripAll(ids: seq<string>): seq<string> {
    seq(|ids|, i requires 0 <= i < |ids| => Strip(ids[i]))
  }

  function FingerprintOf(
    query: string, provider: string, user: Option<nat>, documents: Option<seq<string>>): Fingerprint {
    Fingerprint(Strip(query), provider, user,
                match documents
                case None => None
                case Some(ids) => Some(Sorting.Sort(LexLe, StripAll(ids))))
  }

  lemma LexTotal()
    ensures Sorting.TotalOrder(LexLe)
  {
    forall x, y
      ensures LexLe(x, y) || LexLe(y, x)
      ensures LexLe(x, y) && LexLe(y, x) ==> x == y
    {
      LexLeTotal(x, y);
      if LexLe(x, y) && LexLe(y, x) {
        LexLeAntisymmetric(x, y);
      }
    }
    forall x, y, z | LexLe(x, y) && LexLe(y, z)
      ensures LexLe(x, z)
    {
      LexLeTransitive(x, y, z);
    }
  }

  /** Two document scopes are the same request: both absent, or the same ids up to order and
      surrounding whitespace. */
  predicate SameScope(a: Option<seq<string>>, b: Option<seq<string>>) {
    if a.None? || b.None? then a == b
    else multiset(StripAll(a.value)) == multiset(StripAll(b.value))
  }

  /** Fingerprints identify requests: scope order and padding do not matter, everything else does. */
  lemma FingerprintIdentifies(
    q1: string, p1: string, u1: Option<nat>, d1: Option<seq<string>>,
    q2: string, p2: string, u2: Option<nat>, d2: Option<seq<string>>)
    ensures FingerprintOf(q1, p1, u1, d1) == FingerprintOf(q2, p2, u2, d2) <==>
              Strip(q1) == Strip(q2) && p1 == p2 && u1 == u2 && SameScope(d1, d2)
  {
    LexTotal();
    if d1.Some? && d2.Some? {
      Sorting.SortCanonical(LexLe, StripAll(d1.value), StripAll(d2.value));
    }
  }

  // ---- The protocol ----------------------------------------------------------------------

  datatype Record = Record(fingerprint: Fingerprint, run: nat)

  datatype Reply =
    | Success(run: nat)
    | Conflict
    | InProgress
    | Unavailable
    | Failed

  datatype Phase =
    | Looking
    | Acquiring
    | Rechecking
    | Executing
    | Recording(run: nat)
    | Releasing(reply: Reply)
    | Replied(reply: Reply)

  /** `key` stands for the tenant and the digest of the client's idempotency key. */
  datatype Caller = Caller(key: string, fingerprint: Fingerprint, phase: Phase, token: Option<nat>)

  /** `runs` records which caller executed which run. */
  datatype State = State(
    now: int,
    ttl: int,
    locks: Store<nat>,
    records: map<string, Record>,
    callers: map<nat, Caller>,
    tokens: set<nat>,
    runs: map<nat, nat>)

  /** `applied` says whether Redis performed a command whose reply was lost. */
  datatype Action =
    | Look
    | Acquire(token: nat)
    | Recheck
    | Execute(run: nat)
    | Store
    | Renew
    | Release
    | LookUnavailable
    | AcquireUnavailable(token: nat, applied: bool)
    | ExecuteFails
    | StoreUnavailable(applied: bool)
    | ReleaseUnavailable(applied: bool)
    | Abandon

  datatype Step =
    | Tick(to: int)
    | Arrive(id: nat, key: string, fingerprint: Fingerprint)
    | Act(caller: nat, action: Action)

  predicate CanAct(s: State, c: Caller, action: Action) {
    match action
    case Look => c.phase.Looking?
    case Acquire(token) => c.phase.Acquiring? && token !in s.tokens
    case Recheck => c.phase.Rechecking?
    case Execute(run) => c.phase.Executing? && run !in s.runs
    case Store => c.phase.Recording?
    case Renew => c.phase.Executing? && c.token.Some?
    case Release => c.phase.Releasing? && c.token.Some?
    case LookUnavailable => c.phase.Looking? || c.phase.Rechecking?
    case AcquireUnavailable(token, _) => c.phase.Acquiring? && token !in s.tokens
    case ExecuteFails => c.phase.Executing?
    case StoreUnavailable(_) => c.phase.Recording?
    case ReleaseUnavailable(_) => c.phase.Releasing? && c.token.Some?
    case Abandon => !c.phase.Replied?
  }

  predicate Enabled(s: State, step: Step) {
    match step
    case Tick(to) => s.now <= to
    case Arrive(id, _, _) => id !in s.callers
    case Act(c, action) => c in s.callers && CanAct(s, s.callers[c], action)
  }

  /** `_restore_existing_record`: replay, conflict, or nothing found. */
  function Existing(s: State, c: Caller): Option<Reply> {
    if c.key !in s.records then None
    else if s.records[c.key].fingerprint != c.fingerprint then Some(Conflict)
    else Some(Success(s.records[c.key].run))
  }

  function PhaseAfter(s: State, c: Caller, action: Action): Phase {
    match action
    case Look => if Existing(s, c).Some? then Replied(Existing(s, c).value) else Acquiring
    case Acquire(_) => if Live(s.locks, c.key, s.now) then Replied(InProgress) else Rechecking
    case Recheck => if Existing(s, c).Some? then Releasing(Existing(s, c).value) else Executing
    case Execute(run) => Recording(run)
    case Store => if c.phase.Recording? then Releasing(Success(c.phase.run)) else c.phase
    case Renew =>
      // A refused renewal cancels the execution. (A renewal without an answer is an accepted one, if it
      // was performed on a lock still held, and otherwise no step at all.)
      if c.token.Some? && Holds(s.locks, c.key, c.token.value, s.now) then c.phase else Releasing(Failed)
    case Release => if c.phase.Releasing? then Replied(c.phase.reply) else c.phase
    case LookUnavailable => if c.phase.Looking? then Replied(Unavailable) else Releasing(Unavailable)
    case AcquireUnavailable(_, _) => Replied(Unavailable)
    case ExecuteFails => Releasing(Failed)
    case StoreUnavailable(_) => Releasing(Unavailable)
    case ReleaseUnavailable(_) => if c.phase.Releasing? then Replied(c.phase.reply) else c.phase
    case Abandon => Replied(Failed)
  }

  function TokenAfter(s: State, c: Caller, action: Action): Option<nat> {
    if action.Acquire? && !Live(s.locks, c.key, s.now) then Some(action.token) else c.token
  }

  function LocksAfter(s: State, c: Caller, action: Action): Store<nat> {
    match action
    case Acquire(token) => AfterSetIfAbsent(s.locks, c.key, token, s.ttl, s.now)
    case AcquireUnavailable(token, applied) =>
      if applied then AfterSetIfAbsent(s.locks, c.key, token, s.ttl, s.now) else s.locks
    case Renew =>
      if c.token.Some? then AfterExtendIfValue(s.locks, c.key, c.token.value, s.ttl, s.now) else s.locks
    case Release =>
      if c.token.Some? then AfterDeleteIfValue(s.locks, c.key, c.token.value, s.now) else s.locks
    case ReleaseUnavailable(applied) =>
      if applied && c.token.Some? then AfterDeleteIfValue(s.locks, c.key, c.token.value, s.now) else s.locks
    case _ => s.locks
  }

  predicate Stores(c: Caller, action: Action) {
    c.phase.Recording? && (action.Store? || (action.StoreUnavailable? && action.applied))
  }

  function RecordsAfter(s: State, c: Caller, action: Action): map<string, Record> {
    if Stores(c, action) then s.records[c.key := Record(c.fingerprint, c.phase.run)] else s.records
  }

  function Apply(s: State, step: Step): State
    requires Enabled(s, step)
  {
    match step
    case Tick(to) => s.(now := to)
    case Arrive(id, key, fingerprint) => s.(callers := s.callers[id := Caller(key, fingerprint, Looking, None)])
    case Act(c, action) =>
      var caller := s.callers[c];
      State(s.now, s.ttl,
            LocksAfter(s, caller, action),
            RecordsAfter(s, caller, action),
            s.callers[c := caller.(phase := PhaseAfter(s, caller, action), token := TokenAfter(s, caller, action))],
            if action.Acquire? || action.AcquireUnavailable? then s.tokens + {action.token} else s.tokens,
            if action.Execute? then s.runs[action.run := c] else s.runs)
  }

  predicate Init(s: State) {
    && s.ttl >= 1 && s.locks == map[] && s.records == map[]
    && s.callers == map[] && s.tokens == {} && s.runs == map[]
  }

  type Trace = History<State, Step>

  ghost predicate Possible(h: Trace) {
    && |h.states| == |h.steps| + 1
    && Init(h.states[0])
    && forall i :: 0 <= i < |h.steps| ==> Follows(h, i)
  }

  ghost predicate Follows(h: Trace, i: int) {
    && 0 <= i < |h.steps| && i + 1 < |h.states|
    && Enabled(h.states[i], h.steps[i]) && h.states[i + 1] == Apply(h.states[i], h.steps[i])
  }

  /** The caller holds the lock and has not stored a record yet. */
  predicate Holding(c: Caller) {
    c.token.Some? && (c.phase.Rechecking? || c.phase.Executing? || c.phase.Recording?)
  }

  /** The clock does not pass the expiry of a lock of this key that its holder still needs. */
  ghost predicate LocksLast(s: State, step: Step, key: string) {
    step.Tick? ==> forall c :: c in s.callers && s.callers[c].key == key ==> LockLasts(s, s.callers[c], step.to)
  }

  predicate LockLasts(s: State, c: Caller, to: int) {
    Holding(c) && c.key !in s.records && c.key in s.locks && s.locks[c.key].value == c.token.value ==>
      to < s.locks[c.key].expiresAt
  }

  /** From its i-th step on, the history lets no needed lock of this key expire. */
  ghost predicate LocksLastFrom(h: Trace, i: int, key: string) {
    forall k :: i <= k < |h.steps| && 0 <= k < |h.states| ==> LocksLast(h.states[k], h.steps[k], key)
  }

  // ---- What holds whatever happens to the locks ------------------------------------------

  predicate CallerOk(s: State, c: nat)
    requires c in s.callers
  {
    var caller := s.callers[c];
    && (caller.token.Some? ==> caller.token.value in s.tokens)
    && (caller.phase.Rechecking? || caller.phase.Executing? || caller.phase.Recording? || caller.phase.Releasing? ==>
          caller.token.Some?)
    && (caller.phase.Recording? ==> caller.phase.run in s.runs && s.runs[caller.phase.run] == c)
    && (Succeeds(caller) ==> caller.key in s.records && RanFor(s, caller.phase.reply.run, caller.fingerprint))
  }

  predicate Succeeds(c: Caller) {
    (c.phase.Releasing? || c.phase.Replied?) && c.phase.reply.Success?
  }

  /** The run was executed for a request with this fingerprint. */
  predicate RanFor(s: State, run: nat, fingerprint: Fingerprint) {
    run in s.runs && s.runs[run] in s.callers && s.callers[s.runs[run]].fingerprint == fingerprint
  }

  /** A stored run is its request's, and the caller that executed it is past storing. */
  predicate RecordOk(s: State, key: string)
    requires key in s.records
  {
    && RanFor(s, s.records[key].run, s.records[key].fingerprint)
    && var phase := s.callers[s.runs[s.records[key].run]].phase; phase.Releasing? || phase.Replied?
  }

  predicate OwnTokens(s: State, b: nat, c: nat) {
    b in s.callers && c in s.callers && s.callers[b].token.Some? && s.callers[c].token.Some? ==>
      s.callers[b].token.value != s.callers[c].token.value
  }

  ghost predicate Inv(s: State) {
    && s.ttl >= 1
    && (forall c :: c in s.callers ==> CallerOk(s, c))
    && (forall key :: key in s.records ==> RecordOk(s, key))
    && (forall b, c :: b != c ==> OwnTokens(s, b, c))
  }

  /** Callers keep their requests, runs their executors, and nothing is forgotten. */
  lemma StepKeepsNames(s: State, step: Step, c: nat, run: nat)
    requires Enabled(s, step)
    ensures s.records.Keys <= Apply(s, step).records.Keys && s.tokens <= Apply(s, step).tokens
    ensures c in s.callers ==>
              && c in Apply(s, step).callers && Apply(s, step).callers[c].key == s.callers[c].key
              && Apply(s, step).callers[c].fingerprint == s.callers[c].fingerprint
    ensures run in s.runs ==> run in Apply(s, step).runs && Apply(s, step).runs[run] == s.runs[run]
  {
  }

  /** A caller past storing stays past storing. */
  lemma StepKeepsPast(s: State, step: Step, c: nat)
    requires Enabled(s, step) && c in s.callers
    requires s.callers[c].phase.Releasing? || s.callers[c].phase.Replied?
    ensures Apply(s, step).callers[c].phase.Releasing? || Apply(s, step).callers[c].phase.Replied?
  {
  }

  lemma StepKeepsRecordOk(s: State, step: Step, key: string)
    requires Enabled(s, step) && key in Apply(s, step).records
    requires key in s.records ==> RecordOk(s, key)
    requires step.Act? ==> CallerOk(s, step.caller)
    ensures RecordOk(Apply(s, step), key)
  {
    if key in s.records && Apply(s, step).records[key] == s.records[key] {
      var run := s.records[key].run;
      StepKeepsNames(s, step, s.runs[run], run);
      StepKeepsPast(s, step, s.runs[run]);
    }
  }

  lemma StepKeepsTokens(s: State, step: Step, b: nat, c: nat)
    requires Enabled(s, step) && b != c && OwnTokens(s, b, c)
    requires b in s.callers ==> CallerOk(s, b)
    requires c in s.callers ==> CallerOk(s, c)
    ensures OwnTokens(Apply(s, step), b, c)
  {
  }

  lemma StepKeepsCaller(s: State, step: Step, c: nat)
    requires Enabled(s, step) && c in Apply(s, step).callers
    requires c in s.callers ==> CallerOk(s, c)
    requires forall key :: key in s.records ==> RecordOk(s, key)
    ensures CallerOk(Apply(s, step), c)
  {
    if c in s.callers {
      if step.Act? && step.caller == c {
        OwnActionKeepsCaller(s, c, step.action);
      } else {
        var phase := s.callers[c].phase;
        if phase.Recording? {
          StepKeepsNames(s, step, c, phase.run);
        } else if Succeeds(s.callers[c]) {
          StepKeepsNames(s, step, s.runs[phase.reply.run], phase.reply.run);
        }
      }
    }
  }

  lemma OwnActionKeepsCaller(s: State, c: nat, action: Action)
    requires c in s.callers && CanAct(s, s.callers[c], action) && CallerOk(s, c)
    requires forall key :: key in s.records ==> RecordOk(s, key)
    ensures CallerOk(Apply(s, Act(c, action)), c)
  {
    var caller := s.callers[c];
    assert caller.key in s.records ==> RecordOk(s, caller.key);
  }

  lemma StepKeepsInv(s: State, step: Step)
    requires Inv(s) && Enabled(s, step)
    ensures Inv(Apply(s, step))
  {
    var s' := Apply(s, step);
    forall c | c in s'.callers
      ensures CallerOk(s', c)
    {
      StepKeepsCaller(s, step, c);
    }
    forall key | key in s'.records
      ensures RecordOk(s', key)
    {
      StepKeepsRecordOk(s, step, key);
    }
    forall b, c | b != c
      ensures OwnTokens(s', b, c)
    {
      StepKeepsTokens(s, step, b, c);
    }
  }

  lemma {:induction false} Reachable(h: Trace, i: nat)
    requires Possible(h) && i < |h.states|
    ensures Inv(h.states[i])
  {
    if i > 0 {
      Reachable(h, i - 1);
      assert Follows(h, i - 1);
      StepKeepsInv(h.states[i - 1], h.steps[i - 1]);
    }
  }

  // ---- While the locks last --------------------------------------------------------------

  /** The key is settled: who still needs its lock has it, nobody can store a second record, and
      every successful answer carries the stored run. */
  ghost predicate Settled(s: State, key: string) {
    forall c :: c in s.callers && s.callers[c].key == key ==> SettledFor(s, s.callers[c])
  }

  predicate SettledFor(s: State, c: Caller) {
    && (Holding(c) && c.key !in s.records ==> Holds(s.locks, c.key, c.token.value, s.now))
    && (c.phase.Executing? || c.phase.Recording? ==> c.key !in s.records)
    && (Succeeds(c) ==> c.key in s.records && s.records[c.key].run == c.phase.reply.run)
  }

  /** Another caller's action leaves a holder's lock in place. */
  lemma OthersKeepLock(s: State, b: Caller, action: Action, c: Caller)
    requires Holding(c) && Holds(s.locks, c.key, c.token.value, s.now) && s.ttl >= 1
    requires b.token.Some? ==> b.token.value != c.token.value
    ensures Holds(LocksAfter(s, b, action), c.key, c.token.value, s.now)
  {
  }

  /** While one caller holds the lock nobody else stores a record. */
  lemma OthersStoreElsewhere(s: State, b: nat, action: Action, c: nat)
    requires b in s.callers && c in s.callers && OwnTokens(s, b, c) && CallerOk(s, b)
    requires SettledFor(s, s.callers[b]) || s.callers[b].key != s.callers[c].key
    requires SettledFor(s, s.callers[c])
    requires Holding(s.callers[c]) && s.callers[c].key !in s.records
    ensures s.callers[c].key !in RecordsAfter(s, s.callers[b], action)
  {
  }

  lemma OtherActionKeepsSettled(s: State, b: nat, action: Action, c: nat)
    requires b in s.callers && c in s.callers && b != c && CanAct(s, s.callers[b], action) && s.ttl >= 1
    requires OwnTokens(s, b, c) && CallerOk(s, b) && CallerOk(s, c)
    requires SettledFor(s, s.callers[b]) || s.callers[b].key != s.callers[c].key
    requires SettledFor(s, s.callers[c])
    ensures SettledFor(Apply(s, Act(b, action)), s.callers[c])
  {
    var caller := s.callers[c];
    if Holding(caller) && caller.key !in s.records {
      OthersKeepLock(s, s.callers[b], action, caller);
      OthersStoreElsewhere(s, b, action, c);
    }
  }

  lemma OwnActionKeepsSettled(s: State, c: nat, action: Action)
    requires c in s.callers && CanAct(s, s.callers[c], action) && s.ttl >= 1
    requires CallerOk(s, c) && SettledFor(s, s.callers[c])
    ensures SettledFor(Apply(s, Act(c, action)), Apply(s, Act(c, action)).callers[c])
  {
  }

  lemma StepKeepsSettledFor(s: State, step: Step, key: string, c: nat)
    requires Inv(s) && Enabled(s, step) && LocksLast(s, step, key) && Settled(s, key)
    requires c in Apply(s, step).callers && Apply(s, step).callers[c].key == key
    ensures SettledFor(Apply(s, step), Apply(s, step).callers[c])
  {
    if c in s.callers {
      assert SettledFor(s, s.callers[c]);
      match step
      case Tick(to) => assert LockLasts(s, s.callers[c], to);
      case Arrive(_, _, _) =>
      case Act(b, action) =>
        assert CallerOk(s, b) && CallerOk(s, c);
        if b == c {
          OwnActionKeepsSettled(s, c, action);
        } else {
          assert OwnTokens(s, b, c);
          OtherActionKeepsSettled(s, b, action, c);
        }
    }
  }

  /** A step unsettles a key exactly when it lets a lock expire that its holder still needs. */
  lemma SettledExactlyWhileLocksLast(s: State, step: Step, key: string)
    requires Inv(s) && Enabled(s, step) && Settled(s, key)
    ensures Settled(Apply(s, step), key) <==> LocksLast(s, step, key)
  {
    var s' := Apply(s, step);
    if LocksLast(s, step, key) {
      forall c | c in s'.callers && s'.callers[c].key == key
        ensures SettledFor(s', s'.callers[c])
      {
        StepKeepsSettledFor(s, step, key, c);
      }
    } else {
      var c :| c in s.callers && s.callers[c].key == key && !LockLasts(s, s.callers[c], step.to);
      assert !SettledFor(s', s'.callers[c]);
    }
  }

  lemma {:induction false} StaysSettled(h: Trace, i: nat, j: nat, key: string)
    requires Possible(h) && LocksLastFrom(h, i, key) && i <= j < |h.states| && Settled(h.states[i], key)
    ensures Settled(h.states[j], key)
    decreases j - i
  {
    if i < j {
      StaysSettled(h, i, j - 1, key);
      Reachable(h, j - 1);
      assert Follows(h, j - 1);
      SettledExactlyWhileLocksLast(h.states[j - 1], h.steps[j - 1], key);
    }
  }

  predicate Answered(s: State, c: nat) {
    c in s.callers && s.callers[c].phase.Replied? && s.callers[c].phase.reply.Success?
  }

  lemma {:induction false} AnswersLast(h: Trace, i: nat, j: nat, c: nat)
    requires Possible(h) && i <= j < |h.states| && Answered(h.states[i], c)
    ensures Answered(h.states[j], c) && h.states[j].callers[c] == h.states[i].callers[c]
    decreases j - i
  {
    if i < j {
      AnswersLast(h, i, j - 1, c);
      assert Follows(h, j - 1);
    }
  }

  /** While the key's locks last, all its successful answers, whenever they are given, come from
      requests with one fingerprint and carry one research run. */
  lemma OneRunPerKey(h: Trace, i: nat, b: nat, j: nat, c: nat, key: string)
    requires Possible(h) && LocksLastFrom(h, 0, key) && i < |h.states| && j < |h.states|
    requires Answered(h.states[i], b) && Answered(h.states[j], c)
    requires h.states[i].callers[b].key == key == h.states[j].callers[c].key
    ensures h.states[i].callers[b].fingerprint == h.states[j].callers[c].fingerprint
    ensures h.states[i].callers[b].phase.reply.run == h.states[j].callers[c].phase.reply.run
  {
    var n := |h.states| - 1;
    AnswersLast(h, i, n, b);
    AnswersLast(h, j, n, c);
    StaysSettled(h, 0, n, key);
    Reachable(h, n);
    var s := h.states[n];
    assert SettledFor(s, s.callers[b]) && SettledFor(s, s.callers[c]);
    assert CallerOk(s, b) && CallerOk(s, c);
  }

  /** The i-th step stores a record under this key. */
  predicate StoresAt(h: Trace, i: nat, key: string)
    requires i < |h.steps| && |h.states| == |h.steps| + 1
  {
    && h.steps[i].Act? && h.steps[i].caller in h.states[i].callers
    && h.states[i].callers[h.steps[i].caller].key == key
    && Stores(h.states[i].callers[h.steps[i].caller], h.steps[i].action)
  }

  lemma {:induction false} KeysLast(h: Trace, i: nat, j: nat, key: string)
    requires Possible(h) && i <= j < |h.states| && key in h.states[i].records
    ensures key in h.states[j].records
    decreases j - i
  {
    if i < j {
      KeysLast(h, i, j - 1, key);
      assert Follows(h, j - 1);
    }
  }

  lemma StoringIsFirst(h: Trace, i: nat, key: string)
    requires Possible(h) && LocksLastFrom(h, 0, key) && i < |h.steps| && StoresAt(h, i, key)
    ensures key !in h.states[i].records && key in h.states[i + 1].records
  {
    StaysSettled(h, 0, i, key);
    assert Follows(h, i);
    assert SettledFor(h.states[i], h.states[i].callers[h.steps[i].caller]);
  }

  /** And at most one record is ever stored under the key. */
  lemma OneRecordPerKey(h: Trace, i: nat, j: nat, key: string)
    requires Possible(h) && LocksLastFrom(h, 0, key) && i < |h.steps| && j < |h.steps|
    requires StoresAt(h, i, key) && StoresAt(h, j, key)
    ensures i == j
  {
    StoringIsFirst(h, i, key);
    StoringIsFirst(h, j, key);
    if i < j {
      KeysLast(h, i + 1, j, key);
    } else if j < i {
      KeysLast(h, j + 1, i, key);
    }
  }

  // ---- Which reply a caller gets ---------------------------------------------------------

  /** The reply a caller has got or, having to release its lock first, is about to get. */
  function Outcome(s: State, c: nat): Option<Reply> {
    if c !in s.callers then None
    else match s.callers[c].phase
      case Replied(reply) => Some(reply)
      case Releasing(reply) => Some(reply)
      case _ => None
  }

  /** Causes of a reply: the record found, the lock found, an outage, or a failed or abandoned execution. */
  predicate Decides(s: State, c: nat, action: Action, reply: Reply)
    requires c in s.callers
  {
    var caller := s.callers[c];
    var looks := action.Look? || action.Recheck?;
    match reply
    case Success(run) =>
      || (looks && caller.key in s.records && s.records[caller.key] == Record(caller.fingerprint, run))
      || (action.Store? && caller.phase == Recording(run))
    case Conflict =>
      looks && caller.key in s.records && s.records[caller.key].fingerprint != caller.fingerprint
    case InProgress => action.Acquire? && Live(s.locks, caller.key, s.now)
    case Unavailable => action.LookUnavailable? || action.AcquireUnavailable? || action.StoreUnavailable?
    case Failed => action.Abandon? || action.ExecuteFails? || (action.Renew? && Refused(s, c))
  }

  /** A step gives a caller a reply exactly for one of its causes; once given, only the caller's own
      cancellation replaces it. */
  lemma DecidedExactly(s: State, step: Step, c: nat, reply: Reply)
    requires Enabled(s, step)
    ensures Outcome(Apply(s, step), c) == Some(reply) <==>
              || (step.Act? && step.caller == c && Decides(s, c, step.action, reply))
              || (Outcome(s, c) == Some(reply) && step != Act(c, Abandon))
  {
    if step.Act? && step.caller == c {
      var caller := s.callers[c];
      assert Apply(s, step).callers[c].phase == PhaseAfter(s, caller, step.action);
    }
  }

  /** The reply is handed out at once unless the caller holds its lock, which it releases, or fails to
      release, first. */
  lemma HandedOutExactly(s: State, c: nat, action: Action)
    requires Enabled(s, Act(c, action))
    ensures var before := s.callers[c].phase;
      Apply(s, Act(c, action)).callers[c].phase.Replied? <==>
        || action.Release? || action.ReleaseUnavailable? || action.Abandon? || action.AcquireUnavailable?
        || ((action.Look? || action.Acquire? || (action.LookUnavailable? && before.Looking?))
            && Outcome(Apply(s, Act(c, action)), c).Some?)
  {
    assert Apply(s, Act(c, action)).callers[c].phase == PhaseAfter(s, s.callers[c], action);
  }

  /** Along every history each reply has its cause: one step decided it and nothing changed it since. */
  lemma {:induction false} EveryReplyWasDecided(h: Trace, n: nat, c: nat) returns (i: nat)
    requires Possible(h) && n < |h.states| && Outcome(h.states[n], c).Some?
    ensures i < n && i < |h.steps| && h.steps[i].Act? && h.steps[i].caller == c && c in h.states[i].callers
    ensures Decides(h.states[i], c, h.steps[i].action, Outcome(h.states[n], c).value)
    ensures forall k :: i < k <= n ==> Outcome(h.states[k], c) == Outcome(h.states[n], c)
  {
    assert Follows(h, n - 1);
    var reply := Outcome(h.states[n], c).value;
    DecidedExactly(h.states[n - 1], h.steps[n - 1], c, reply);
    if h.steps[n - 1].Act? && h.steps[n - 1].caller == c && Decides(h.states[n - 1], c, h.steps[n - 1].action, reply) {
      i := n - 1;
    } else {
      i := EveryReplyWasDecided(h, n - 1, c);
    }
  }

  // ---- Renewals that are refused ---------------------------------------------------------

  /** The caller asks to renew a lock that is no longer its own. */
  predicate Refused(s: State, c: nat) {
    c in s.callers && s.callers[c].phase.Executing? && s.callers[c].token.Some?
    && !Holds(s.locks, s.callers[c].key, s.callers[c].token.value, s.now)
  }

  predicate HasFailed(s: State, c: nat) {
    c in s.callers && (s.callers[c].phase == Releasing(Failed) || s.callers[c].phase == Replied(Failed))
  }

  lemma StepKeepsFailed(s: State, step: Step, c: nat)
    requires Enabled(s, step) && HasFailed(s, c)
    ensures HasFailed(Apply(s, step), c)
  {
  }

  /** A caller whose renewal is refused is cancelled: it never answers and never stores a record. */
  lemma {:induction false} RefusedNeverAnswers(h: Trace, i: nat, j: nat, c: nat)
    requires Possible(h) && i < |h.steps| && i < j < |h.states|
    requires h.steps[i] == Act(c, Renew) && Refused(h.states[i], c)
    ensures HasFailed(h.states[j], c)
    decreases j
  {
    assert Follows(h, j - 1);
    if i + 1 < j {
      RefusedNeverAnswers(h, i, j - 1, c);
      StepKeepsFailed(h.states[j - 1], h.steps[j - 1], c);
    }
  }

  /** So being refused takes a caller out of the question: afterwards its key is settled exactly if all
      the other callers were. */
  lemma RefusalSettlesTheCaller(s: State, c: nat)
    requires Refused(s, c)
    ensures Enabled(s, Act(c, Renew))
    ensures Settled(Apply(s, Act(c, Renew)), s.callers[c].key) <==>
              forall b :: b in s.callers && b != c && s.callers[b].key == s.callers[c].key ==>
                            SettledFor(s, s.callers[b])
  {
    var s' := Apply(s, Act(c, Renew));
    assert s'.locks == s.locks && s'.records == s.records && s'.callers.Keys == s.callers.Keys;
    forall b | b in s.callers && b != c
      ensures SettledFor(s', s'.callers[b]) <==> SettledFor(s, s.callers[b])
    {
      assert s'.callers[b] == s.callers[b];
    }
    assert SettledFor(s', s'.callers[c]);
  }

  // ---- From an unsettled key to two answers ----------------------------------------------

  /** A continuation that lets no needed lock of the key expire. */
  ghost predicate Future(longer: Trace, h: Trace, key: string) {
    Possible(longer) && Continues(longer, h) && LocksLastFrom(longer, |h.steps|, key)
  }

  /** Two callers were answered with different runs. */
  ghost predicate AnsweredTwice(s: State, key: string) {
    exists b, c :: Disagree(s, b, c, key)
  }

  predicate Disagree(s: State, b: nat, c: nat, key: string) {
    && Answered(s, b) && s.callers[b].key == key
    && Answered(s, c) && s.callers[c].key == key
    && s.callers[b].phase.reply.run != s.callers[c].phase.reply.run
  }

  lemma ExtendHistory(h: Trace, step: Step) returns (longer: Trace)
    requires Possible(h) && Enabled(Last(h), step)
    ensures Possible(longer) && longer == Then(h, step, Apply(Last(h), step))
    ensures Last(longer) == Apply(Last(h), step)
  {
    longer := Then(h, step, Apply(Last(h), step));
    forall i | 0 <= i < |longer.steps|
      ensures Follows(longer, i)
    {
      assert i < |h.steps| ==> Follows(h, i);
    }
  }

  lemma Extend(base: Trace, h: Trace, key: string, step: Step) returns (longer: Trace)
    requires Possible(base) && Future(h, base, key) && Enabled(Last(h), step) && LocksLast(Last(h), step, key)
    ensures Future(longer, base, key) && Last(longer) == Apply(Last(h), step)
  {
    longer := ExtendHistory(h, step);
    forall k | |base.steps| <= k < |longer.steps|
      ensures LocksLast(longer.states[k], longer.steps[k], key)
    {
      assert k < |h.steps| ==> LocksLast(h.states[k], h.steps[k], key);
    }
  }

  /** A holder that finds no record gets as far as recording a run. */
  lemma HolderExecutes(base: Trace, h: Trace, key: string, c: nat) returns (longer: Trace, run: nat)
    requires Possible(base) && Future(h, base, key)
    requires c in Last(h).callers && Holding(Last(h).callers[c])
    requires Last(h).callers[c].phase.Rechecking? ==> Last(h).callers[c].key !in Last(h).records
    ensures Future(longer, base, key) && Last(longer).records == Last(h).records
    ensures Last(longer).callers == Last(h).callers[c := Last(h).callers[c].(phase := Recording(run))]
    ensures run in Last(longer).runs && Last(longer).runs[run] == c
  {
    longer := h;
    if Last(h).callers[c].phase.Recording? {
      run := Last(h).callers[c].phase.run;
      assert Last(h).callers == Last(h).callers[c := Last(h).callers[c].(phase := Recording(run))];
    } else {
      if Last(h).callers[c].phase.Rechecking? {
        longer := Extend(base, longer, key, Act(c, Recheck));
      }
      run := Bound(Last(longer).runs.Keys);
      longer := Extend(base, longer, key, Act(c, Execute(run)));
    }
    Reachable(longer, |longer.states| - 1);
    assert CallerOk(Last(longer), c);
  }

  /** A recording caller stores its run and answers with it. */
  lemma RecorderAnswers(base: Trace, h: Trace, key: string, c: nat) returns (longer: Trace)
    requires Possible(base) && Future(h, base, key)
    requires c in Last(h).callers && Last(h).callers[c].phase.Recording?
    ensures Future(longer, base, key)
    ensures Last(longer).callers ==
              Last(h).callers[c := Last(h).callers[c].(phase := Replied(Success(Last(h).callers[c].phase.run)))]
  {
    Reachable(h, |h.states| - 1);
    assert CallerOk(Last(h), c);
    longer := Extend(base, h, key, Act(c, Store));
    longer := Extend(base, longer, key, Act(c, Release));
  }

  /** A caller repeating the recorded request is answered with the recorded run. */
  lemma RecordIsReplayed(base: Trace, h: Trace, key: string) returns (longer: Trace, e: nat)
    requires Possible(base) && Future(h, base, key) && key in Last(h).records
    ensures Future(longer, base, key) && e !in Last(h).callers && e in Last(longer).callers
    ensures Last(longer).records == Last(h).records && Last(longer).runs == Last(h).runs
    ensures Last(longer).callers == Last(h).callers[e := Last(longer).callers[e]]
    ensures Answered(Last(longer), e) && Last(longer).callers[e].key == key
    ensures Last(longer).callers[e].phase.reply.run == Last(h).records[key].run
  {
    e := Bound(Last(h).callers.Keys);
    longer := Extend(base, h, key, Arrive(e, key, Last(h).records[key].fingerprint));
    longer := Extend(base, longer, key, Act(e, Look));
  }

  /** Two holders that find no record answer with two runs. */
  lemma TwoHoldersAnswer(base: Trace, h: Trace, key: string, b: nat, c: nat) returns (longer: Trace)
    requires Possible(base) && Future(h, base, key) && key !in Last(h).records && b != c
    requires b in Last(h).callers && Last(h).callers[b].key == key && Holding(Last(h).callers[b])
    requires c in Last(h).callers && Last(h).callers[c].key == key && Holding(Last(h).callers[c])
    ensures Future(longer, base, key) && Disagree(Last(longer), b, c, key)
    ensures Last(longer).callers[b].fingerprint == Last(h).callers[b].fingerprint
    ensures Last(longer).callers[c].fingerprint == Last(h).callers[c].fingerprint
  {
    var r, q;
    longer, r := HolderExecutes(base, h, key, b);
    longer, q := HolderExecutes(base, longer, key, c);
    Reachable(longer, |longer.states| - 1);
    assert CallerOk(Last(longer), b);
    longer := RecorderAnswers(base, longer, key, b);
    longer := RecorderAnswers(base, longer, key, c);
  }

  /** Once the lock is free, a newcomer takes it. */
  lemma NewcomerEnters(base: Trace, h: Trace, key: string, g: Fingerprint) returns (longer: Trace, d: nat)
    requires Possible(base) && Future(h, base, key)
    requires key !in Last(h).records && !Live(Last(h).locks, key, Last(h).now)
    ensures Future(longer, base, key) && Last(longer).records == Last(h).records
    ensures d !in Last(h).callers && d in Last(longer).callers
    ensures Last(longer).callers == Last(h).callers[d := Last(longer).callers[d]]
    ensures Last(longer).callers[d].key == key && Last(longer).callers[d].fingerprint == g
    ensures Holding(Last(longer).callers[d])
  {
    d := Bound(Last(h).callers.Keys);
    var token := Bound(Last(h).tokens);
    longer := Extend(base, h, key, Arrive(d, key, g));
    longer := Extend(base, longer, key, Act(d, Look));
    longer := Extend(base, longer, key, Act(d, Acquire(token)));
  }

  /** A holder that lost its lock and has not been told (Case 1): another holder has it, or it will be
      free in time. */
  lemma LapsedHolderAnswersTwice(h: Trace, key: string, c: nat, g: Fingerprint) returns (longer: Trace)
    requires Possible(h) && key !in Last(h).records
    requires c in Last(h).callers && Last(h).callers[c].key == key && Holding(Last(h).callers[c])
    requires !Holds(Last(h).locks, key, Last(h).callers[c].token.value, Last(h).now)
    ensures Future(longer, h, key) && AnsweredTwice(Last(longer), key)
  {
    var s, d := Last(h), c;
    if Live(s.locks, key, s.now) && !LocksLast(s, Tick(s.locks[key].expiresAt), key) {
      d :| d in s.callers && s.callers[d].key == key && !LockLasts(s, s.callers[d], s.locks[key].expiresAt);
      longer := h;
    } else {
      longer := h;
      if Live(s.locks, key, s.now) {
        longer := Extend(h, h, key, Tick(s.locks[key].expiresAt));
      }
      longer, d := NewcomerEnters(h, longer, key, g);
    }
    longer := TwoHoldersAnswer(h, longer, key, c, d);
    assert Disagree(Last(longer), c, d, key);
  }

  /** A caller that will overwrite the record (Case 2). */
  lemma OverwriterAnswersTwice(h: Trace, key: string, c: nat) returns (longer: Trace)
    requires Possible(h) && key in Last(h).records
    requires c in Last(h).callers && Last(h).callers[c].key == key
    requires Last(h).callers[c].phase.Executing? || Last(h).callers[c].phase.Recording?
    ensures Future(longer, h, key) && AnsweredTwice(Last(longer), key)
  {
    Reachable(h, |h.states| - 1);
    assert CallerOk(Last(h), c);
    var e, run;
    longer, e := RecordIsReplayed(h, h, key);
    longer, run := HolderExecutes(h, longer, key, c);
    Reachable(longer, |longer.states| - 1);
    assert RecordOk(Last(longer), key);
    longer := RecorderAnswers(h, longer, key, c);
    assert Disagree(Last(longer), c, e, key);
  }

  /** A caller whose answer is not the recorded one (Case 3). */
  lemma OtherAnswerIsGiven(h: Trace, key: string, c: nat) returns (longer: Trace)
    requires Possible(h) && c in Last(h).callers && Last(h).callers[c].key == key && Succeeds(Last(h).callers[c])
    requires key in Last(h).records && Last(h).records[key].run != Last(h).callers[c].phase.reply.run
    ensures Future(longer, h, key) && AnsweredTwice(Last(longer), key)
  {
    Reachable(h, |h.states| - 1);
    assert CallerOk(Last(h), c);
    longer := h;
    if Last(h).callers[c].phase.Releasing? {
      longer := Extend(h, h, key, Act(c, Release));
    }
    var e;
    longer, e := RecordIsReplayed(h, longer, key);
    assert Disagree(Last(longer), c, e, key);
  }

  lemma UnsettledAnswersTwice(h: Trace, key: string, g: Fingerprint) returns (longer: Trace)
    requires Possible(h) && !Settled(Last(h), key)
    ensures Future(longer, h, key) && AnsweredTwice(Last(longer), key)
  {
    var s := Last(h);
    var c :| c in s.callers && s.callers[c].key == key && !SettledFor(s, s.callers[c]);
    Reachable(h, |h.states| - 1);
    assert CallerOk(s, c);
    if Succeeds(s.callers[c]) {
      longer := OtherAnswerIsGiven(h, key, c);
    } else if key in s.records {
      longer := OverwriterAnswersTwice(h, key, c);
    } else {
      longer := LapsedHolderAnswersTwice(h, key, c, g);
    }
  }

  lemma SettledAnswersOnce(h: Trace, longer: Trace, key: string)
    requires Possible(h) && Future(longer, h, key) && Settled(Last(h), key)
    ensures !AnsweredTwice(Last(longer), key)
  {
    StaysSettled(longer, |h.states| - 1, |longer.states| - 1, key);
    var s := Last(longer);
    forall b, c
      ensures !Disagree(s, b, c, key)
    {
      assert b in s.callers && s.callers[b].key == key ==> SettledFor(s, s.callers[b]);
      assert c in s.callers && s.callers[c].key == key ==> SettledFor(s, s.callers[c]);
    }
  }

  /** After any history whatsoever, a key can come to be answered with two runs (no further lock
      expiring) exactly if it is not settled now: a caller still needs a lock it has lost, or has
      executed the request although there is a record, or answers with another run than the
      recorded one. */
  lemma AnswersTwiceExactlyIfUnsettled(h: Trace, key: string)
    requires Possible(h)
    ensures (exists longer :: Future(longer, h, key) && AnsweredTwice(Last(longer), key)) <==>
              !Settled(Last(h), key)
  {
    if !Settled(Last(h), key) {
      var longer := UnsettledAnswersTwice(h, key, FingerprintOf("", "", None, None));
    } else {
      forall longer | Future(longer, h, key)
        ensures !AnsweredTwice(Last(longer), key)
      {
        SettledAnswersOnce(h, longer, key);
      }
    }
  }

  /** And that happens: a caller executes a request, its lock expires before it stores the record, and
      another caller is let in, even with a different request. */
  lemma ExpiredLockAnswersTwice(key: string, f: Fingerprint, g: Fingerprint) returns (h: Trace, b: nat, c: nat)
    ensures Possible(h) && Disagree(Last(h), b, c, key)
    ensures Last(h).callers[b].fingerprint == f && Last(h).callers[c].fingerprint == g
  {
    var base, run := History([State(0, 1, map[], map[], map[], {}, map[])], []), 0;
    h, b := NewcomerEnters(base, base, key, f);
    h, run := HolderExecutes(base, h, key, b);
    var s := Last(h);
    h := ExtendHistory(h, Tick(if Live(s.locks, key, s.now) then s.locks[key].expiresAt else s.now));
    base := h;
    h, c := NewcomerEnters(base, base, key, g);
    h := TwoHoldersAnswer(base, h, key, b, c);
  }

  // ---- One undisturbed call --------------------------------------------------------------

  /** One attempt to renew the lock: answered, or with the reply lost, whether or not Redis did it. */
  datatype Beat = Reached(at: int) | Lost(at: int, applied: bool)

  /** The locks after these attempts, or nothing once an answer says that the lock is gone. An attempt
      without an answer is passed over. */
  function Renewed(store: Store<nat>, key: string, token: nat, ttl: int, beats: seq<Beat>): Option<Store<nat>>
    decreases |beats|
  {
    if beats == [] then Some(store)
    else
      var extended := AfterExtendIfValue(store, key, token, ttl, beats[0].at);
      match beats[0]
      case Lost(_, applied) => Renewed(if applied then extended else store, key, token, ttl, beats[1..])
      case Reached(at) => if Holds(store, key, token, at) then Renewed(extended, key, token, ttl, beats[1..]) else None
  }

  const MAX_KEY_LENGTH := 200

  class Service {
    const locks: Client<nat>
    const records: Client<Record>
    const ttl: int
    const recordTtl: int

    constructor (locks: Client<nat>, records: Client<Record>, ttl: int, recordTtl: int)
      requires ttl >= 1 && recordTtl >= 1
      ensures this.locks == locks && this.records == records && this.ttl == ttl && this.recordTtl == recordTtl
    {
      this.locks, this.records, this.ttl, this.recordTtl := locks, records, ttl, recordTtl;
    }

    /** `_renew_lease_periodically`: renews until the lock is found lost. */
    method RenewPeriodically(key: string, token: nat, beats: seq<Beat>) returns (kept: bool)
      modifies locks
      ensures kept <==> Renewed(old(locks.store), key, token, ttl, beats).Some?
      ensures kept ==> locks.store == Renewed(old(locks.store), key, token, ttl, beats).value
      ensures locks.store - {key} == old(locks.store) - {key}
    {
      var i := 0;
      while i < |beats|
        invariant 0 <= i <= |beats|
        invariant Renewed(locks.store, key, token, ttl, beats[i..]) == Renewed(old(locks.store), key, token, ttl, beats)
        invariant locks.store - {key} == old(locks.store) - {key}
      {
        assert beats[i..][0] == beats[i] && beats[i..][1..] == beats[i + 1..];
        ExtendTouchesOneKey(locks.store, key, token, ttl, beats[i].at);
        match beats[i] {
          case Lost(at, applied) =>
            if applied {
              var _ := locks.ExtendIfValue(key, token, ttl, at);
            }
          case Reached(at) =>
            var renewed := locks.ExtendIfValue(key, token, ttl, at);
            if !renewed {
              return false;
            }
        }
        i := i + 1;
      }
      assert beats[i..] == [];
      return true;
    }

    /** The part of `execute` under the lock: execute while renewing, store, release. `executed` is
        the executor's answer and `end` the time of storing and releasing. */
    method ExecuteLocked(
      key: string, fingerprint: Fingerprint, token: nat, executed: Option<nat>, beats: seq<Beat>, end: int)
      returns (reply: Reply)
      modifies locks, records
      ensures reply == LockedReply(old(locks.store), key, token, ttl, executed, beats)
      ensures records.store ==
                if reply.Success?
                then AfterSet(old(records.store), key, Record(fingerprint, reply.run), recordTtl, end)
                else old(records.store)
      ensures !Holds(locks.store, key, token, end)
      ensures locks.store - {key} == old(locks.store) - {key}
    {
      var kept := RenewPeriodically(key, token, beats);
      if kept && executed.Some? {
        records.SetText(key, Record(fingerprint, executed.value), recordTtl, end);
        reply := Success(executed.value);
      } else {
        reply := Failed;
      }
      var _ := locks.DeleteIfValue(key, token, end);
    }

    /** `execute`, undisturbed and with Redis in reach: without a key simply execute; replay or refuse
        on an existing record; refuse while the lock is live; otherwise take the lock and execute
        (alone, the second look for a record finds none either). Bad arguments are an error (`None`). */
    method Execute(
      clientKey: Option<string>, query: string, provider: Option<string>, user: Option<nat>,
      documents: Option<seq<string>>, token: nat, executed: Option<nat>, now: int, beats: seq<Beat>, end: int)
      returns (reply: Option<Reply>)
      modifies locks, records
      ensures clientKey.None? ==> reply == Some(if executed.Some? then Success(executed.value) else Failed)
      ensures clientKey.Some? ==>
                (reply.None? <==> || Strip(clientKey.value) == "" || |Strip(clientKey.value)| > 200
                                  || Strip(query) == "" || provider.None?)
      ensures clientKey.Some? && reply.Some? ==>
                reply.value == ReplyTo(old(locks.store), old(records.store), ttl, Strip(clientKey.value),
                                       FingerprintOf(query, provider.value, user, documents),
                                       token, executed, now, beats)
      ensures records.store ==
                if clientKey.Some? && reply.Some? && reply.value.Success?
                   && !Live(old(records.store), Strip(clientKey.value), now)
                then AfterSet(old(records.store), Strip(clientKey.value),
                              Record(FingerprintOf(query, provider.value, user, documents), reply.value.run),
                              recordTtl, end)
                else old(records.store)
      ensures if clientKey.Some? && reply.Some? && !Live(old(records.store), Strip(clientKey.value), now)
                 && !Live(old(locks.store), Strip(clientKey.value), now)
              then !Holds(locks.store, Strip(clientKey.value), token, end)
              else locks.store == old(locks.store)
    {
      if clientKey.None? {
        return Some(if executed.Some? then Success(executed.value) else Failed);
      }
      var key := Strip(clientKey.value);
      if key == "" {
        return None;
      }
      if Strip(query) == "" {
        return None;
      }
      if provider.None? {
        return None;
      }
      var fingerprint := FingerprintOf(query, provider.value, user, documents);
      if |key| > MAX_KEY_LENGTH {
        return None;
      }
      var existing := records.GetText(key, now);
      if existing.Some? {
        if existing.value.fingerprint != fingerprint {
          return Some(Conflict);
        }
        return Some(Success(existing.value.run));
      }
      var acquired := locks.SetIfAbsent(key, token, ttl, now);
      if !acquired {
        return Some(InProgress);
      }
      var answer := ExecuteLocked(key, fingerprint, token, executed, beats, end);
      return Some(answer);
    }
  }

  lemma ExtendTouchesOneKey(store: Store<nat>, key: string, token: nat, ttl: int, now: int)
    ensures AfterExtendIfValue(store, key, token, ttl, now) - {key} == store - {key}
  {
  }

  /** Success exactly when the executor answered and no renewal found the lock lost. */
  function LockedReply(
    locks: Store<nat>, key: string, token: nat, ttl: int, executed: Option<nat>, beats: seq<Beat>): Reply
  {
    if executed.Some? && Renewed(locks, key, token, ttl, beats).Some? then Success(executed.value) else Failed
  }

  function ReplyTo(
    locks: Store<nat>, records: Store<Record>, ttl: int, key: string, fingerprint: Fingerprint,
    token: nat, executed: Option<nat>, now: int, beats: seq<Beat>): Reply
  {
    if Live(records, key, now) then
      if records[key].value.fingerprint == fingerprint then Success(records[key].value.run) else Conflict
    else if Live(locks, key, now) then InProgress
    else LockedReply(AfterSet(locks, key, token, ttl, now), key, token, ttl, executed, beats)
  }

  // ---- Two calls -------------------------------------------------------------------------

  /** A client that calls twice, `again` being later. A successful answer is replayed to the same
      request while its record lives, and any other request is refused. */
  method ExecuteTwice(
    service: Service, clientKey: string, token: nat, executed: Option<nat>, now: int, beats: seq<Beat>, end: int,
    q1: string, p1: string, u1: Option<nat>, d1: Option<seq<string>>,
    q2: string, p2: string, u2: Option<nat>, d2: Option<seq<string>>, token2: nat, executed2: Option<nat>, again: int)
    returns (first: Option<Reply>, second: Option<Reply>)
    requires !Live(service.records.store, Strip(clientKey), now) && again < Later(end, service.recordTtl)
    modifies service.locks, service.records
    ensures first.Some? && first.value.Success? && Strip(q2) != "" ==>
              second == Some(if Strip(q1) == Strip(q2) && p1 == p2 && u1 == u2 && SameScope(d1, d2)
                             then first.value else Conflict)
    ensures first.Some? && first.value.Success? ==> executed == Some(first.value.run)
  {
    FingerprintIdentifies(q1, p1, u1, d1, q2, p2, u2, d2);
    first := service.Execute(Some(clientKey), q1, Some(p1), u1, d1, token, executed, now, beats, end);
    second := service.Execute(Some(clientKey), q2, Some(p2), u2, d2, token2, executed2, again, [], again);
  }

  // ---- An undisturbed call is a run of the protocol --------------------------------------

  /** The protocol's records are the live entries of the store. */
  ghost predicate SameRecords(records: map<string, Record>, store: Store<Record>, now: int) {
    forall key :: && (key in records <==> Live(store, key, now))
                  && (key in records ==> records[key] == store[key].value)
  }

  predicate InOrder(beats: seq<Beat>, from: int) {
    && (beats != [] ==> from <= beats[0].at)
    && forall i, j :: 0 <= i < j < |beats| ==> beats[i].at <= beats[j].at
  }

  /** Where the caller is after the renewals: still executing, or cancelled. */
  predicate RenewedTo(before: State, after: State, c: nat, beats: seq<Beat>)
    requires c in before.callers && before.callers[c].token.Some?
  {
    var caller := before.callers[c];
    var locks := Renewed(before.locks, caller.key, caller.token.value, before.ttl, beats);
    && (locks.Some? ==> after.locks == locks.value && after.callers == before.callers)
    && (locks.None? ==> after.callers == before.callers[c := caller.(phase := Releasing(Failed))])
    && after.records == before.records && after.runs == before.runs && after.ttl == before.ttl
  }

  lemma {:induction false} RenewalsAreSteps(h: Trace, c: nat, beats: seq<Beat>) returns (longer: Trace)
    requires Possible(h) && c in Last(h).callers && InOrder(beats, Last(h).now)
    requires Last(h).callers[c].phase.Executing? && Last(h).callers[c].token.Some?
    ensures Possible(longer) && RenewedTo(Last(h), Last(longer), c, beats)
    decreases |beats|
  {
    longer := h;
    if beats != [] {
      longer := OneRenewal(h, c, beats[0]);
      if Last(longer).callers[c].phase.Executing? {
        longer := RenewalsAreSteps(longer, c, beats[1..]);
      }
    }
  }

  lemma OneRenewal(h: Trace, c: nat, beat: Beat) returns (longer: Trace)
    requires Possible(h) && c in Last(h).callers && Last(h).now <= beat.at
    requires Last(h).callers[c].phase.Executing? && Last(h).callers[c].token.Some?
    ensures Possible(longer) && RenewedTo(Last(h), Last(longer), c, [beat]) && Last(longer).now == beat.at
    ensures c in Last(longer).callers && Last(longer).callers[c].token == Last(h).callers[c].token
    ensures Last(longer).callers[c].phase.Executing? <==>
              Renewed(Last(h).locks, Last(h).callers[c].key, Last(h).callers[c].token.value, Last(h).ttl, [beat]).Some?
  {
    var caller := Last(h).callers[c];
    longer := ExtendHistory(h, Tick(beat.at));
    assert [beat][1..] == [];
    if beat.Reached? || (beat.applied && Holds(Last(h).locks, caller.key, caller.token.value, beat.at)) {
      longer := ExtendHistory(longer, Act(c, Renew));
    }
    assert Last(h).callers[c := caller] == Last(h).callers;
  }

  /** Nobody interfering, the protocol's caller is answered as `Execute` answers. */
  lemma UndisturbedCallIsProtocol(
    h: Trace, store: Store<Record>, key: string, g: Fingerprint, executed: Option<nat>, beats: seq<Beat>)
    returns (longer: Trace, c: nat, token: nat)
    requires Possible(h) && SameRecords(Last(h).records, store, Last(h).now)
    requires executed.Some? ==> executed.value !in Last(h).runs
    requires InOrder(beats, Last(h).now)
    ensures Possible(longer) && c in Last(longer).callers && token !in Last(h).tokens
    ensures Last(longer).callers[c].key == key && Last(longer).callers[c].fingerprint == g
    ensures Last(longer).callers[c].phase ==
              Replied(ReplyTo(Last(h).locks, store, Last(h).ttl, key, g, token, executed, Last(h).now, beats))
    ensures Last(longer).records ==
              if Last(longer).callers[c].phase.reply.Success? && key !in Last(h).records
              then Last(h).records[key := Record(g, Last(longer).callers[c].phase.reply.run)]
              else Last(h).records
  {
    var s := Last(h);
    c := Bound(s.callers.Keys);
    token := Bound(s.tokens);
    longer := ExtendHistory(h, Arrive(c, key, g));
    longer := ExtendHistory(longer, Act(c, Look));
    if key !in s.records {
      longer := ExtendHistory(longer, Act(c, Acquire(token)));
      if !Live(s.locks, key, s.now) {
        longer := LockedCallIsProtocol(longer, c, executed, beats);
      }
    }
  }

  /** From the acquired lock on. */
  lemma LockedCallIsProtocol(h: Trace, c: nat, executed: Option<nat>, beats: seq<Beat>) returns (longer: Trace)
    requires Possible(h) && c in Last(h).callers && InOrder(beats, Last(h).now)
    requires Last(h).callers[c].phase.Rechecking? && Last(h).callers[c].token.Some?
    requires Last(h).callers[c].key !in Last(h).records
    requires executed.Some? ==> executed.value !in Last(h).runs
    ensures Possible(longer) && c in Last(longer).callers
    ensures var caller := Last(h).callers[c];
      var reply := LockedReply(Last(h).locks, caller.key, caller.token.value, Last(h).ttl, executed, beats);
      && Last(longer).callers[c] == caller.(phase := Replied(reply))
      && Last(longer).records == (if reply.Success?
                                  then Last(h).records[caller.key := Record(caller.fingerprint, reply.run)]
                                  else Last(h).records)
  {
    longer := ExtendHistory(h, Act(c, Recheck));
    longer := RenewalsAreSteps(longer, c, beats);
    if Last(longer).callers[c].phase.Executing? {
      if executed.Some? {
        longer := ExtendHistory(longer, Act(c, Execute(executed.value)));
        longer := ExtendHistory(longer, Act(c, Store));
      } else {
        longer := ExtendHistory(longer, Act(c, ExecuteFails));
      }
    }
    longer := ExtendHistory(longer, Act(c, Release));
  }
}
