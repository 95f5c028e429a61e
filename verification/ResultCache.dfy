/** The research-result cache: its string keys, which requests share one, and the cache behaving
    like a map from requests. `digest` stands for SHA-256, taken as collision-free. */
module ResultCache {
  import opened Text
  import opened Evidence
  import Redis
  import Sorting
  import Idempotency

  /** A UUID as text has a fixed length. */
  type Uuid = t: string | |t| == 36 witness seq(36, _ => '0')

  datatype Request = Request(tenant: Uuid, provider: string, query: string, documents: Option<seq<string>>)

  // ---- Keys ------------------------------------------------------------------------------

  predicate Supported(provider: string) {
    provider == "anthropic" || provider == "ollama"
  }

  /** The document ids in the order the key uses. */
  function SortedIds(ids: seq<string>): seq<string> {
    Sorting.Sort(LexLe, Idempotency.StripAll(ids))
  }

  function Marker(documents: Option<seq<string>>): string {
    match documents
    case None => "all"
    case Some(ids) => "documents:" + Join(",", SortedIds(ids))
  }

  function Hashed(r: Request): string {
    Strip(r.query) + "\n" + Marker(r.documents)
  }

  /** The key, or nothing for a blank query or an unknown provider. */
  function KeyOf(digest: string -> string, r: Request): Option<string> {
    if Strip(r.query) == "" || !Supported(r.provider) then None
    else
      Some("enterprise-research:v2:tenant:" + r.tenant
           + (":research-result:" + (r.provider + ":" + digest(Hashed(r)))))
  }

  /** A request has a key exactly if its query is not blank and its provider is one of the two. The key's
      hashed text ends in "all", or in the stripped ids, each as often as it was given, in rising order. */
  lemma KeyReads(digest: string -> string, r: Request) returns (ids: seq<string>, scope: string)
    ensures KeyOf(digest, r).Some? <==> Strip(r.query) != "" && r.provider in {"anthropic", "ollama"}
    ensures if r.documents == None then scope == "all" else
              && scope == "documents:" + Join(",", ids)
              && multiset(ids) == multiset(Idempotency.StripAll(r.documents.value))
              && forall i, j :: 0 <= i < j < |ids| ==> LexLe(ids[i], ids[j])
    ensures KeyOf(digest, r).Some? ==>
              KeyOf(digest, r).value == "enterprise-research:v2:tenant:" + r.tenant + ":research-result:" + r.provider
                                        + ":" + digest(Strip(r.query) + "\n" + scope)
  {
    scope, ids := Marker(r.documents), [];
    if r.documents.Some? {
      ids := SortedIds(r.documents.value);
      Idempotency.LexTotal();
      Sorting.SortSorted(LexLe, Idempotency.StripAll(r.documents.value));
    }
    KeyInParts("enterprise-research:v2:tenant:" + r.tenant, ":research-result:", r.provider, ":", digest(Hashed(r)));
  }

  lemma KeyInParts(a: string, b: string, c: string, d: string, e: string)
    ensures a + (b + (c + d + e)) == a + b + c + d + e
  {
  }

  // ---- What a key identifies -------------------------------------------------------------

  /** What a key tells apart. */
  datatype Identity = Identity(tenant: Uuid, provider: string, hashed: string)

  function IdentityOf(r: Request): Identity {
    Identity(r.tenant, r.provider, Hashed(r))
  }

  /** What the key is made from, spelled out: a scope of one blank id counts as an empty scope. */
  datatype Canonical = Canonical(tenant: Uuid, provider: string, query: string, scope: Option<seq<string>>)

  function ScopeOf(documents: Option<seq<string>>): Option<seq<string>> {
    match documents
    case None => None
    case Some(ids) => Some(if SortedIds(ids) == [""] then [] else SortedIds(ids))
  }

  function CanonicalOf(r: Request): Canonical {
    Canonical(r.tenant, r.provider, Strip(r.query), ScopeOf(r.documents))
  }

  /** A document id without the characters the key uses as separators, once stripped. */
  predicate PlainId(id: string) {
    ',' !in Strip(id) && '\n' !in Strip(id)
  }

  ghost predicate Injective(digest: string -> string) {
    forall a, b :: digest(a) == digest(b) ==> a == b
  }

  lemma {:induction false} JoinKeepsOut(separator: string, parts: seq<string>, c: char)
    requires c !in separator && forall p :: p in parts ==> c !in p
    ensures c !in Join(separator, parts)
  {
    if |parts| > 1 {
      JoinKeepsOut(separator, parts[1..], c);
    }
  }

  lemma JoinOfMore(parts: seq<string>, rest: string)
    requires |parts| > 1 && rest == Join(",", parts[1..])
    ensures Join(",", parts) == parts[0] + "," + rest
    ensures ',' in Join(",", parts)
  {
    assert Join(",", parts)[|parts[0]|] == ',';
  }

  lemma CommaWhenMore(parts: seq<string>)
    requires parts != [] && forall p :: p in parts ==> ',' !in p
    ensures ',' in Join(",", parts) <==> |parts| > 1
  {
    if |parts| > 1 {
      JoinOfMore(parts, Join(",", parts[1..]));
    } else {
      assert parts[0] in parts;
    }
  }

  /** Joining with commas loses nothing, except that no parts and one empty part join alike. */
  lemma {:induction false} JoinIdentifies(a: seq<string>, b: seq<string>)
    requires a != [] && b != []
    requires forall p :: p in a ==> ',' !in p
    requires forall p :: p in b ==> ',' !in p
    ensures Join(",", a) == Join(",", b) <==> a == b
  {
    if Join(",", a) == Join(",", b) {
      assert a[0] in a && b[0] in b;
      CommaWhenMore(a);
      CommaWhenMore(b);
      if |a| == 1 {
        assert a == [a[0]] && b == [b[0]];
      } else {
        var x, y := Join(",", a[1..]), Join(",", b[1..]);
        JoinOfMore(a, x);
        JoinOfMore(b, y);
        FirstSeparator(',', a[0], x, b[0], y);
        JoinIdentifies(a[1..], b[1..]);
        assert a == [a[0]] + a[1..] && b == [b[0]] + b[1..];
      }
    }
  }

  lemma JoinIsEmpty(a: seq<string>)
    requires forall p :: p in a ==> ',' !in p
    ensures Join(",", a) == "" <==> a == [] || a == [""]
  {
    if a != [] {
      JoinIdentifies(a, [""]);
    }
  }

  lemma SortedIdsArePlain(ids: seq<string>)
    requires forall id :: id in ids ==> PlainId(id)
    ensures forall p :: p in SortedIds(ids) ==> ',' !in p && '\n' !in p
  {
    var stripped := Idempotency.StripAll(ids);
    Sorting.SameElements(stripped, SortedIds(ids));
    forall p | p in stripped
      ensures ',' !in p && '\n' !in p
    {
      var i :| 0 <= i < |ids| && stripped[i] == p;
      assert ids[i] in ids;
    }
  }

  predicate PlainScope(documents: Option<seq<string>>) {
    documents.Some? ==> forall id :: id in documents.value ==> PlainId(id)
  }

  /** Markers identify scopes. */
  lemma MarkersIdentify(a: Option<seq<string>>, b: Option<seq<string>>)
    requires PlainScope(a) && PlainScope(b)
    ensures Marker(a) == Marker(b) <==> ScopeOf(a) == ScopeOf(b)
  {
    if a.Some? && b.Some? {
      var x, y := SortedIds(a.value), SortedIds(b.value);
      SortedIdsArePlain(a.value);
      SortedIdsArePlain(b.value);
      AfterPrefix("documents:", Join(",", x), Join(",", y));
      JoinIsEmpty(x);
      JoinIsEmpty(y);
      if x != [] && y != [] {
        JoinIdentifies(x, y);
      }
    } else if a.Some? {
      assert Marker(a)[0] == 'd' && Marker(b)[0] == 'a';
    } else if b.Some? {
      assert Marker(b)[0] == 'd' && Marker(a)[0] == 'a';
    }
  }

  lemma MarkerHasNoBreak(a: Option<seq<string>>)
    requires PlainScope(a)
    ensures '\n' !in Marker(a)
  {
    if a.Some? {
      SortedIdsArePlain(a.value);
      JoinKeepsOut(",", SortedIds(a.value), '\n');
    }
  }

  /** The number of characters after the last `c`. */
  function After(s: string, c: char): nat {
    if s == [] || s[|s| - 1] == c then 0 else 1 + After(s[..|s| - 1], c)
  }

  lemma {:induction false} AfterLast(x: string, c: char, whole: string)
    requires c !in x && |whole| > |x| && whole[|whole| - |x|..] == x && whole[|whole| - |x| - 1] == c
    ensures After(whole, c) == |x|
    decreases |x|
  {
    if x != [] {
      var n := |whole| - 1;
      assert whole[n] == x[|x| - 1];
      assert whole[..n][n - (|x| - 1)..] == x[..|x| - 1];
      AfterLast(x[..|x| - 1], c, whole[..n]);
    }
  }

  lemma LastSeparator(separator: char, a: string, x: string, b: string, y: string)
    requires separator !in x && separator !in y
    requires a + [separator] + x == b + [separator] + y
    ensures a == b && x == y
  {
    var s, t := a + [separator] + x, b + [separator] + y;
    AfterLast(x, separator, s);
    AfterLast(y, separator, t);
    assert a == s[..|a|] && b == t[..|b|];
    assert x == s[|a| + 1..] && y == t[|b| + 1..];
  }

  lemma HashedIdentifies(r: Request, q: Request)
    requires PlainScope(r.documents) && PlainScope(q.documents)
    ensures Hashed(r) == Hashed(q) <==>
              Strip(r.query) == Strip(q.query) && ScopeOf(r.documents) == ScopeOf(q.documents)
  {
    MarkersIdentify(r.documents, q.documents);
    MarkerHasNoBreak(r.documents);
    MarkerHasNoBreak(q.documents);
    if Hashed(r) == Hashed(q) {
      LastSeparator('\n', Strip(r.query), Marker(r.documents), Strip(q.query), Marker(q.documents));
    }
  }

  lemma SameLengthParts(prefix: string, t: string, x: string, u: string, y: string)
    requires |t| == |u|
    ensures prefix + t + x == prefix + u + y <==> t == u && x == y
  {
    if prefix + t + x == prefix + u + y {
      var s := prefix + t + x;
      assert t == s[|prefix|..|prefix| + |t|] && x == s[|prefix| + |t|..];
      assert u == s[|prefix|..|prefix| + |u|] && y == s[|prefix| + |u|..];
    }
  }

  lemma ProvidersAreSeparated(p: string, x: string, q: string, y: string)
    requires Supported(p) && Supported(q)
    ensures p + ":" + x == q + ":" + y <==> p == q && x == y
  {
    if p + ":" + x == q + ":" + y {
      FirstSeparator(':', p, x, q, y);
    }
  }

  /** Two requests, whatever their ids, share a key exactly when tenant, provider and hashed text agree:
      no part of a key runs into the next one. */
  lemma KeysIdentify(digest: string -> string, r: Request, q: Request)
    requires Injective(digest) && KeyOf(digest, r).Some? && KeyOf(digest, q).Some?
    ensures KeyOf(digest, r) == KeyOf(digest, q) <==> IdentityOf(r) == IdentityOf(q)
  {
    var x, y := r.provider + ":" + digest(Hashed(r)), q.provider + ":" + digest(Hashed(q));
    SameLengthParts(
      "enterprise-research:v2:tenant:", r.tenant, ":research-result:" + x, q.tenant, ":research-result:" + y);
    AfterPrefix(":research-result:", x, y);
    ProvidersAreSeparated(r.provider, digest(Hashed(r)), q.provider, digest(Hashed(q)));
  }

  /** With plain document ids, what a key tells apart is the canonical form of the request. */
  lemma PlainIdentity(r: Request, q: Request)
    requires PlainScope(r.documents) && PlainScope(q.documents)
    ensures IdentityOf(r) == IdentityOf(q) <==> CanonicalOf(r) == CanonicalOf(q)
  {
    HashedIdentifies(r, q);
  }

  /** So with plain document ids two requests share a key exactly when their canonical forms agree. */
  lemma KeysIdentifyRequests(digest: string -> string, r: Request, q: Request)
    requires Injective(digest) && PlainScope(r.documents) && PlainScope(q.documents)
    requires KeyOf(digest, r).Some? && KeyOf(digest, q).Some?
    ensures KeyOf(digest, r) == KeyOf(digest, q) <==> CanonicalOf(r) == CanonicalOf(q)
  {
    KeysIdentify(digest, r, q);
    PlainIdentity(r, q);
  }

  /** Both scopes are given, one is empty and the other is a single blank id. */
  predicate EmptyAgainstBlank(a: Option<seq<string>>, b: Option<seq<string>>) {
    a.Some? && b.Some? && ((a.value == [] && OneBlank(b.value)) || (b.value == [] && OneBlank(a.value)))
  }

  predicate OneBlank(ids: seq<string>) {
    |ids| == 1 && Strip(ids[0]) == ""
  }

  lemma SortedBlank(ids: seq<string>)
    ensures SortedIds(ids) == [""] <==> OneBlank(ids)
    ensures SortedIds(ids) == [] <==> ids == []
  {
    var stripped := Idempotency.StripAll(ids);
    assert |SortedIds(ids)| == |ids|;
    if |ids| == 1 {
      assert SortedIds(ids) == [stripped[0]];
    }
  }

  /** Keys are equal exactly when tenant, provider and stripped query are, and the scopes agree up
      to order and padding; the one exception is an empty scope against a single blank id. */
  lemma KeysAgreeExactly(digest: string -> string, r: Request, q: Request)
    requires Injective(digest) && PlainScope(r.documents) && PlainScope(q.documents)
    requires KeyOf(digest, r).Some? && KeyOf(digest, q).Some?
    ensures KeyOf(digest, r) == KeyOf(digest, q) <==>
            && r.tenant == q.tenant && r.provider == q.provider && Strip(r.query) == Strip(q.query)
            && (Idempotency.SameScope(r.documents, q.documents) || EmptyAgainstBlank(r.documents, q.documents))
  {
    KeysIdentifyRequests(digest, r, q);
    if r.documents.Some? && q.documents.Some? {
      ScopesAgreeExactly(r.documents.value, q.documents.value);
    }
  }

  lemma ScopesAgreeExactly(a: seq<string>, b: seq<string>)
    ensures ScopeOf(Some(a)) == ScopeOf(Some(b)) <==>
            Idempotency.SameScope(Some(a), Some(b)) || EmptyAgainstBlank(Some(a), Some(b))
  {
    SortedBlank(a);
    SortedBlank(b);
    Idempotency.LexTotal();
    Sorting.SortCanonical(LexLe, Idempotency.StripAll(a), Idempotency.StripAll(b));
  }

  lemma ScopesOfOtherSizes(a: seq<string>, b: seq<string>)
    requires |a| != |b|
    ensures !Idempotency.SameScope(Some(a), Some(b))
  {
    assert |multiset(Idempotency.StripAll(a))| == |a| && |multiset(Idempotency.StripAll(b))| == |b|;
  }

  /** So an empty scope and one blank id, which are different requests, share a key. */
  lemma EmptyScopeSharesAKey(digest: string -> string, r: Request, q: Request)
    requires r == q.(documents := Some([])) && q.documents == Some([""])
    ensures KeyOf(digest, r) == KeyOf(digest, q)
    ensures !Idempotency.SameScope(r.documents, q.documents)
  {
    SortedBlank([""]);
    ScopesOfOtherSizes([], [""]);
  }

  lemma SortedTwo(two: seq<string>)
    requires |two| == 2 && LexLe(two[0], two[1])
    ensures Sorting.Sort(LexLe, two) == two
  {
    assert two[1..] == [two[1]] && two[1..][1..] == [];
    assert Sorting.Sort(LexLe, two[1..]) == [two[1]];
  }

  lemma SortedPair(ids: seq<string>)
    requires ids == ["a", "b"]
    ensures SortedIds(ids) == ids
  {
    StripFixesStripped(ids[0]);
    StripFixesStripped(ids[1]);
    assert Idempotency.StripAll(ids) == ids;
    assert LexLe(ids[0], ids[1]);
    SortedTwo(ids);
  }

  lemma SortedSingle()
    ensures SortedIds(["a,b"]) == ["a,b"]
  {
    StripFixesStripped("a,b");
    assert Idempotency.StripAll(["a,b"]) == ["a,b"];
  }

  lemma JoinedAlike(one: seq<string>, two: seq<string>)
    requires |one| == 1 && SortedIds(one) == one
    requires |two| == 2 && SortedIds(two) == two && one[0] == two[0] + "," + two[1]
    ensures Marker(Some(one)) == Marker(Some(two))
  {
    JoinOfMore(two, two[1]);
  }

  /** Nor could the key tell apart ids that contain its separator. */
  lemma SeparatorInAnIdSharesAKey(digest: string -> string, r: Request, q: Request)
    requires r == q.(documents := Some(["a,b"])) && q.documents == Some(["a", "b"])
    ensures KeyOf(digest, r) == KeyOf(digest, q)
    ensures !Idempotency.SameScope(r.documents, q.documents)
  {
    SortedSingle();
    SortedPair(q.documents.value);
    JoinedAlike(r.documents.value, q.documents.value);
    ScopesOfOtherSizes(r.documents.value, q.documents.value);
  }

  // ---- The cache -------------------------------------------------------------------------

  /** A stored text: a result the schema accepts, or anything else. */
  datatype Payload = Garbled | Result(provider: string, status: string, answer: string)

  /** The cache's contents by what its keys tell apart. */
  type Entries = map<Identity, Redis.Entry<Payload>>

  function LookupEntry(entries: Entries, c: Identity, now: int): Option<Payload> {
    if c in entries && now < entries[c].expiresAt then Some(entries[c].value) else None
  }

  /** The string-keyed store holds for every request what the request-keyed map holds. */
  ghost predicate Mirrors(digest: string -> string, store: Redis.Store<Payload>, entries: Entries) {
    forall r :: KeyOf(digest, r).Some? ==> Mirrored(digest, store, entries, r)
  }

  ghost predicate Mirrored(digest: string -> string, store: Redis.Store<Payload>, entries: Entries, r: Request)
    requires KeyOf(digest, r).Some?
  {
    var key, c := KeyOf(digest, r).value, IdentityOf(r);
    (key in store <==> c in entries) && (c in entries ==> store[key] == entries[c])
  }

  lemma StoringMirrors(
    digest: string -> string, store: Redis.Store<Payload>, entries: Entries, r: Request, e: Redis.Entry<Payload>)
    requires Injective(digest) && Mirrors(digest, store, entries)
    requires KeyOf(digest, r).Some?
    ensures Mirrors(digest, store[KeyOf(digest, r).value := e], entries[IdentityOf(r) := e])
  {
    forall q | KeyOf(digest, q).Some?
      ensures Mirrored(digest, store[KeyOf(digest, r).value := e], entries[IdentityOf(r) := e], q)
    {
      assert Mirrored(digest, store, entries, q);
      KeysIdentify(digest, q, r);
    }
  }

  lemma RemovingMirrors(digest: string -> string, store: Redis.Store<Payload>, entries: Entries, r: Request)
    requires Injective(digest) && Mirrors(digest, store, entries)
    requires KeyOf(digest, r).Some?
    ensures Mirrors(digest, store - {KeyOf(digest, r).value}, entries - {IdentityOf(r)})
  {
    forall q | KeyOf(digest, q).Some?
      ensures Mirrored(digest, store - {KeyOf(digest, r).value}, entries - {IdentityOf(r)}, q)
    {
      assert Mirrored(digest, store, entries, q);
      KeysIdentify(digest, q, r);
    }
  }

  /** After `Set` for one request, `Get` answers an equivalent request with what was set, until it
      expires, and any other request as before. */
  lemma GetFindsWhatWasSet(
    entries: Entries, r: Request, q: Request, result: Payload, ttl: int, now: int, later: int)
    requires PlainScope(r.documents) && PlainScope(q.documents) && result.Result? && result.provider == r.provider
    ensures var entries' := entries[IdentityOf(r) := Redis.Entry(result, Redis.Later(now, ttl))];
      if CanonicalOf(r) == CanonicalOf(q) then
        && result.provider == q.provider
        && LookupEntry(entries', IdentityOf(q), later) ==
           (if later < Redis.Later(now, ttl) then Some(result) else None)
      else LookupEntry(entries', IdentityOf(q), later) == LookupEntry(entries, IdentityOf(q), later)
  {
    PlainIdentity(r, q);
  }

  class RedisResearchResultCache {
    const client: Redis.Client<Payload>
    const ttl: int
    const digest: string -> string
    /** The same contents, by what the keys tell apart. */
    ghost var entries: Entries

    ghost predicate Valid()
      reads this, client
    {
      ttl >= 1 && Injective(digest) && Mirrors(digest, client.store, entries)
    }

    constructor (client: Redis.Client<Payload>, ttl: int, digest: string -> string)
      requires client.store == map[] && ttl >= 1 && Injective(digest)
      ensures Valid() && this.client == client && this.ttl == ttl && this.digest == digest && entries == map[]
    {
      this.client := client;
      this.ttl := ttl;
      this.digest := digest;
      entries := map[];
    }

    /** The cached result of the request; an entry that is garbled or another provider's is
        deleted. */
    method Get(r: Request, now: int) returns (result: Option<Payload>)
      requires Valid()
      modifies this`entries, client
      ensures Valid()
      ensures KeyOf(digest, r).None? ==> result == None && entries == old(entries)
      ensures KeyOf(digest, r).Some? ==>
                var found := LookupEntry(old(entries), IdentityOf(r), now);
                if found.Some? && (found.value.Garbled? || found.value.provider != r.provider) then
                  result == None && entries == old(entries) - {IdentityOf(r)}
                else result == found && entries == old(entries)
    {
      var key := KeyOf(digest, r);
      if key.None? {
        return None;
      }
      assert Mirrored(digest, client.store, entries, r);
      var raw := client.GetText(key.value, now);
      if raw.None? {
        return None;
      }
      if raw.value.Garbled? || raw.value.provider != r.provider {
        RemovingMirrors(digest, client.store, entries, r);
        var deleted := client.Delete(key.value, now);
        entries := entries - {IdentityOf(r)};
        return None;
      }
      return raw;
    }

    /** Stores a result under the request it answers, for the provider that produced it. */
    method Set(tenant: Uuid, query: string, documents: Option<seq<string>>, result: Payload, now: int)
      returns (stored: bool)
      requires Valid() && result.Result?
      modifies this`entries, client
      ensures Valid()
      ensures var r := Request(tenant, result.provider, query, documents);
              stored == KeyOf(digest, r).Some?
              && entries == if stored then old(entries)[IdentityOf(r) := Redis.Entry(result, Redis.Later(now, ttl))]
                            else old(entries)
    {
      var r := Request(tenant, result.provider, query, documents);
      var key := KeyOf(digest, r);
      if key.None? {
        return false;
      }
      StoringMirrors(digest, client.store, entries, r, Redis.Entry(result, Redis.Later(now, ttl)));
      client.SetText(key.value, result, ttl, now);
      entries := entries[IdentityOf(r) := Redis.Entry(result, Redis.Later(now, ttl))];
      return true;
    }

    method Delete(r: Request, now: int) returns (deleted: bool)
      requires Valid()
      modifies this`entries, client
      ensures Valid()
      ensures deleted == (KeyOf(digest, r).Some? && LookupEntry(old(entries), IdentityOf(r), now).Some?)
      ensures entries == if KeyOf(digest, r).Some? then old(entries) - {IdentityOf(r)} else old(entries)
    {
      var key := KeyOf(digest, r);
      if key.None? {
        return false;
      }
      assert Mirrored(digest, client.store, entries, r);
      RemovingMirrors(digest, client.store, entries, r);
      deleted := client.Delete(key.value, now);
      entries := entries - {IdentityOf(r)};
    }
  }
}
