/** The in-memory vector store: validated upserts, deletion by document, and ranked cosine search.
    Arithmetic is exact, over the reals; `root` stands for the square root. */
module VectorStore {
  import opened Text
  import opened Evidence
  import opened InsertionOrder
  import Chunking
  import Sorting

  datatype Value = Number(r: real) | NotFinite | NotNumeric

  datatype Record = Record(chunk: Chunking.Chunk, embedding: seq<Value>)

  datatype Stored = Stored(chunk: Chunking.Chunk, vector: seq<real>)

  datatype Match = Match(chunk: Chunking.Chunk, score: real)

  datatype Key = Key(tenant: string, chunk: string)

  function KeyOf(r: Stored): Key {
    Key(r.chunk.tenant, r.chunk.id)
  }

  // ---- Vectors ---------------------------------------------------------------------------

  predicate NonZero(v: seq<real>) {
    exists i :: 0 <= i < |v| && v[i] != 0.0
  }

  /** The vector as real numbers, unless it has the wrong length, a value that is not a finite
      number, or only zeros. */
  function Validate(v: seq<Value>, dimensions: nat): Option<seq<real>> {
    if |v| != dimensions || exists i :: 0 <= i < |v| && !v[i].Number? then None
    else
      var numbers := seq(|v|, i requires 0 <= i < |v| => if v[i].Number? then v[i].r else 0.0);
      if NonZero(numbers) then Some(numbers) else None
  }

  /** A vector is accepted exactly if it has the right length, only finite numbers and not only zeros,
      and then its numbers are taken as they are. */
  lemma AcceptedExactly(v: seq<Value>, dimensions: nat)
    ensures Validate(v, dimensions).Some? <==>
            && |v| == dimensions
            && (forall i :: 0 <= i < |v| ==> v[i].Number?)
            && exists i :: 0 <= i < |v| && v[i].Number? && v[i].r != 0.0
    ensures Validate(v, dimensions).Some? ==>
              && |Validate(v, dimensions).value| == dimensions
              && forall i :: 0 <= i < |v| ==> v[i] == Number(Validate(v, dimensions).value[i])
  {
    var numbers := seq(|v|, i requires 0 <= i < |v| => if v[i].Number? then v[i].r else 0.0);
    assert forall i :: 0 <= i < |v| && v[i].Number? ==> numbers[i] == v[i].r;
    if i :| 0 <= i < |v| && v[i].Number? && v[i].r != 0.0 {
      assert numbers[i] != 0.0;
    }
    if NonZero(numbers) && forall i :: 0 <= i < |v| ==> v[i].Number? {
      var i :| 0 <= i < |numbers| && numbers[i] != 0.0;
      assert v[i].r != 0.0;
    }
  }

  function Dot(a: seq<real>, b: seq<real>): real
    requires |a| == |b|
  {
    if a == [] then 0.0 else a[0] * b[0] + Dot(a[1..], b[1..])
  }

  /** `root` is the square root. */
  ghost predicate Exact(root: real -> real) {
    forall x :: x >= 0.0 ==> root(x) >= 0.0 && root(x) * root(x) == x
  }

  // Products and squares are named in the small lemmas below, which keeps the reasoning about
  // them linear.

  lemma ProductPositive(x: real, y: real) returns (p: real)
    requires x > 0.0 && y > 0.0
    ensures p == x * y && p > 0.0
  {
    p := x * y;
  }

  lemma Square(x: real) returns (p: real)
    ensures p == x * x && p >= 0.0 && (p == 0.0 <==> x == 0.0)
  {
    if x > 0.0 {
      p := ProductPositive(x, x);
    } else if x < 0.0 {
      p := ProductPositive(-x, -x);
    } else {
      p := 0.0;
    }
  }

  lemma NonZeroTail(a: seq<real>)
    requires a != []
    ensures NonZero(a) <==> a[0] != 0.0 || NonZero(a[1..])
  {
    if i :| 0 <= i < |a| && a[i] != 0.0 {
      if i > 0 {
        assert a[1..][i - 1] != 0.0;
      }
    }
    if NonZero(a[1..]) {
      var i :| 0 <= i < |a[1..]| && a[1..][i] != 0.0;
      assert a[i + 1] != 0.0;
    }
  }

  lemma {:induction false} NormPositive(a: seq<real>) returns (n: real)
    ensures n == Dot(a, a) && n >= 0.0
    ensures n > 0.0 <==> NonZero(a)
  {
    if a == [] {
      n := 0.0;
    } else {
      NonZeroTail(a);
      var rest := NormPositive(a[1..]);
      var p := Square(a[0]);
      n := p + rest;
    }
  }

  lemma WhenNormIsZero(b: real, A: real, B: real, D: real)
    requires A >= 0.0 && B == 0.0 && D * D <= A * B
    ensures D == 0.0 && b * b * A >= 0.0
  {
    var d := Square(D);
    var p := Square(b);
    var ab := A * B;
    assert ab == 0.0;
    assert d <= ab;
    ProductNonnegative(p, A);
  }

  /** The algebra of one induction step. */
  lemma CrossTerms(a: real, b: real, A: real, B: real, D: real)
    requires A >= 0.0 && B >= 0.0 && D * D <= A * B
    ensures a * a * B + b * b * A - 2.0 * a * b * D >= 0.0
  {
    var t := a * a * B + b * b * A - 2.0 * a * b * D;
    if B == 0.0 {
      WhenNormIsZero(b, A, B, D);
    } else {
      var difference := Square(a * B - b * D);
      var square := Square(b);
      var slack := A * B - D * D;
      ProductNonnegative(square, slack);
      assert B * t == difference + square * slack;
      if t < 0.0 {
        ProductNegative(B, t);
        assert false;
      }
    }
  }

  lemma ProductNonnegative(x: real, y: real)
    requires x >= 0.0 && y >= 0.0
    ensures x * y >= 0.0
  {
  }

  lemma ProductNegative(x: real, y: real)
    requires x > 0.0 && y < 0.0
    ensures x * y < 0.0
  {
  }

  predicate Within(d: real, A: real, B: real) {
    d * d <= A * B
  }

  /** The inner product and the two squared norms: the square of the first is at most the product
      of the others. */
  lemma {:induction false} CauchySchwarz(a: seq<real>, b: seq<real>) returns (d: real, p: real, q: real)
    requires |a| == |b|
    ensures d == Dot(a, b) && p == Dot(a, a) && q == Dot(b, b)
    ensures p >= 0.0 && q >= 0.0 && Within(d, p, q)
  {
    if a == [] {
      d, p, q := 0.0, 0.0, 0.0;
    } else {
      var D, A, B := CauchySchwarz(a[1..], b[1..]);
      d, p, q := CauchyMore(a, b, A, B, D);
    }
  }

  lemma CauchyMore(a: seq<real>, b: seq<real>, A: real, B: real, D: real) returns (d: real, p: real, q: real)
    requires |a| == |b| > 0
    requires D == Dot(a[1..], b[1..]) && A == Dot(a[1..], a[1..]) && B == Dot(b[1..], b[1..])
    requires A >= 0.0 && B >= 0.0 && Within(D, A, B)
    ensures d == Dot(a, b) && p == Dot(a, a) && q == Dot(b, b)
    ensures p >= 0.0 && q >= 0.0 && Within(d, p, q)
  {
    d, p, q := CauchyStep(a[0], b[0], A, B, D);
  }

  lemma CauchyStep(x: real, y: real, A: real, B: real, D: real) returns (d: real, p: real, q: real)
    requires A >= 0.0 && B >= 0.0 && Within(D, A, B)
    ensures d == x * y + D && p == x * x + A && q == y * y + B
    ensures p >= 0.0 && q >= 0.0 && Within(d, p, q)
  {
    var xx := Square(x);
    var yy := Square(y);
    d, p, q := x * y + D, xx + A, yy + B;
    CrossTerms(x, y, A, B, D);
    Expand(x, y, A, B, D);
  }

  lemma Expand(x: real, y: real, A: real, B: real, D: real)
    ensures (x * x + A) * (y * y + B) - (x * y + D) * (x * y + D)
            == (x * x * B + y * y * A - 2.0 * x * y * D) + (A * B - D * D)
  {
  }

  lemma RootPositive(root: real -> real, x: real) returns (r: real)
    requires Exact(root) && x > 0.0
    ensures r == root(x) && r > 0.0 && r * r == x
  {
    r := root(x);
    var p := Square(r);
    assert p == x;
  }

  /** The product of the two magnitudes. */
  function Magnitudes(root: real -> real, A: real, B: real): (m: real)
    requires Exact(root) && A > 0.0 && B > 0.0
    ensures m > 0.0
  {
    MagnitudesPositive(root, A, B);
    root(A) * root(B)
  }

  lemma MagnitudesPositive(root: real -> real, A: real, B: real)
    requires Exact(root) && A > 0.0 && B > 0.0
    ensures root(A) * root(B) > 0.0
  {
    var p := RootPositive(root, A);
    var q := RootPositive(root, B);
    var m := ProductPositive(p, q);
  }

  function Ratio(root: real -> real, d: real, A: real, B: real): real
    requires Exact(root) && A > 0.0 && B > 0.0
  {
    d / Magnitudes(root, A, B)
  }

  lemma NormsPositive(a: seq<real>, b: seq<real>)
    requires NonZero(a) && NonZero(b)
    ensures Dot(a, a) > 0.0 && Dot(b, b) > 0.0
  {
    var m := NormPositive(a);
    var n := NormPositive(b);
  }

  function Cosine(root: real -> real, a: seq<real>, b: seq<real>): real
    requires Exact(root) && |a| == |b| && NonZero(a) && NonZero(b)
  {
    NormsPositive(a, b);
    Ratio(root, Dot(a, b), Dot(a, a), Dot(b, b))
  }

  lemma LargerSquare(d: real, p: real)
    requires p > 0.0 && (d > p || d < -p)
    ensures d * d > p * p
  {
    if d > p {
      var x := ProductPositive(d - p, d + p);
      assert x == d * d - p * p;
    } else {
      var x := ProductPositive(p - d, -p - d);
      assert x == d * d - p * p;
    }
  }

  lemma SquareBound(d: real, p: real)
    requires p > 0.0 && d * d <= p * p
    ensures -p <= d <= p
  {
    if d > p || d < -p {
      LargerSquare(d, p);
    }
  }

  lemma QuotientBound(d: real, p: real)
    requires p > 0.0 && -p <= d <= p
    ensures -1.0 <= d / p <= 1.0
  {
    var q := d / p;
    assert q * p == d;
    LargerProduct(q, p);
  }

  lemma LargerProduct(q: real, p: real)
    requires p > 0.0
    ensures q > 1.0 ==> q * p > p
    ensures q < -1.0 ==> q * p < -p
  {
    if q > 1.0 {
      var x := ProductPositive(q - 1.0, p);
      assert x == q * p - p;
    } else if q < -1.0 {
      var x := ProductPositive(-1.0 - q, p);
      assert x == -p - q * p;
    }
  }

  lemma RegroupSquares(p: real, q: real)
    ensures (p * q) * (p * q) == (p * p) * (q * q)
  {
  }

  lemma RatioBounded(root: real -> real, d: real, A: real, B: real)
    requires Exact(root) && A > 0.0 && B > 0.0 && Within(d, A, B)
    ensures -1.0 <= Ratio(root, d, A, B) <= 1.0
  {
    var p := RootPositive(root, A);
    var q := RootPositive(root, B);
    RegroupSquares(p, q);
    SquareBound(d, Magnitudes(root, A, B));
    QuotientBound(d, Magnitudes(root, A, B));
  }

  /** Every score lies between -1 and 1, as the schema of a private source requires. */
  lemma ScoresAreBounded(root: real -> real, a: seq<real>, b: seq<real>)
    requires Exact(root) && |a| == |b| && NonZero(a) && NonZero(b)
    ensures -1.0 <= Cosine(root, a, b) <= 1.0
  {
    NormsPositive(a, b);
    var d, p, q := CauchySchwarz(a, b);
    RatioBounded(root, d, p, q);
  }

  /** The score times both magnitudes is the inner product, so the two have the same sign. */
  lemma ScoreIsTheCosine(root: real -> real, a: seq<real>, b: seq<real>)
    requires Exact(root) && |a| == |b| && NonZero(a) && NonZero(b)
    ensures Cosine(root, a, b) * (root(Dot(a, a)) * root(Dot(b, b))) == Dot(a, b)
    ensures Cosine(root, a, b) > 0.0 <==> Dot(a, b) > 0.0
    ensures Cosine(root, a, b) < 0.0 <==> Dot(a, b) < 0.0
  {
    NormsPositive(a, b);
    MagnitudesPositive(root, Dot(a, a), Dot(b, b));
    QuotientSign(Dot(a, b), root(Dot(a, a)) * root(Dot(b, b)), Cosine(root, a, b));
  }

  lemma QuotientSign(d: real, m: real, q: real)
    requires m > 0.0 && q == d / m
    ensures q * m == d
    ensures q > 0.0 <==> d > 0.0
    ensures q < 0.0 <==> d < 0.0
  {
    if q > 0.0 {
      var x := ProductPositive(q, m);
    } else if q < 0.0 {
      var x := ProductPositive(-q, m);
      assert x == -(q * m);
    }
  }

  /** A vector is as close to itself as can be. */
  lemma ScoreOfItself(root: real -> real, a: seq<real>)
    requires Exact(root) && NonZero(a)
    ensures Cosine(root, a, a) == 1.0
  {
    NormsPositive(a, a);
    var m := RootPositive(root, Dot(a, a));
    assert m * m / (m * m) == 1.0;
  }

  // ---- Search ----------------------------------------------------------------------------

  predicate ValidStored(r: Stored, dimensions: nat) {
    |r.vector| == dimensions && NonZero(r.vector)
  }

  datatype Query = Query(vector: seq<real>, tenant: string, documents: Option<set<string>>)

  predicate Eligible(r: Stored, q: Query) {
    r.chunk.tenant == q.tenant && (q.documents.None? || r.chunk.documentId in q.documents.value)
  }

  function MatchOf(root: real -> real, q: Query, r: Stored): Match
    requires Exact(root) && NonZero(q.vector) && ValidStored(r, |q.vector|)
  {
    Match(r.chunk, Cosine(root, q.vector, r.vector))
  }

  ghost predicate ValidEntries(d: Dict<Key, Stored>, dimensions: nat) {
    Unique(d) && forall i :: 0 <= i < |d| ==> d[i].key == KeyOf(d[i].value) && ValidStored(d[i].value, dimensions)
  }

  function Matches(root: real -> real, d: Dict<Key, Stored>, q: Query): seq<Match>
    requires Exact(root) && NonZero(q.vector) && forall i :: 0 <= i < |d| ==> ValidStored(d[i].value, |q.vector|)
  {
    if d == [] then []
    else
      var last := d[|d| - 1].value;
      Matches(root, d[..|d| - 1], q) + if Eligible(last, q) then [MatchOf(root, q, last)] else []
  }

  /** Higher scores first; equal scores by chunk id. */
  predicate Better(a: Match, b: Match) {
    a.score > b.score || (a.score == b.score && LexLe(a.chunk.id, b.chunk.id))
  }

  function Ranked(root: real -> real, d: Dict<Key, Stored>, q: Query, limit: nat): seq<Match>
    requires Exact(root) && NonZero(q.vector) && forall i :: 0 <= i < |d| ==> ValidStored(d[i].value, |q.vector|)
  {
    Sorting.Take(Sorting.Sort(Better, Matches(root, d, q)), limit)
  }

  lemma BetterIsPreorder()
    ensures Sorting.Preorder(Better)
  {
    forall a, b
      ensures Better(a, b) || Better(b, a)
    {
      LexLeTotal(a.chunk.id, b.chunk.id);
    }
    forall a, b, c | Better(a, b) && Better(b, c)
      ensures Better(a, c)
    {
      if a.score == b.score == c.score {
        LexLeTransitive(a.chunk.id, b.chunk.id, c.chunk.id);
      }
    }
  }

  /** `m` is what the record under some key of `contents` scores. */
  ghost predicate IsHit(root: real -> real, contents: map<Key, Stored>, q: Query, m: Match)
    requires Exact(root) && NonZero(q.vector)
  {
    exists k :: k in contents && Eligible(contents[k], q) && ValidStored(contents[k], |q.vector|)
                && m == MatchOf(root, q, contents[k])
  }

  ghost predicate Scores(root: real -> real, e: Item<Key, Stored>, q: Query, m: Match)
    requires Exact(root) && NonZero(q.vector)
  {
    Eligible(e.value, q) && ValidStored(e.value, |q.vector|) && m == MatchOf(root, q, e.value)
  }

  lemma {:induction false} MatchesAreScored(root: real -> real, d: Dict<Key, Stored>, q: Query)
    requires Exact(root) && NonZero(q.vector) && ValidEntries(d, |q.vector|)
    ensures forall m :: m in Matches(root, d, q) <==> exists i :: 0 <= i < |d| && Scores(root, d[i], q, m)
    ensures Sorting.Distinct(Matches(root, d, q))
  {
    if d != [] {
      var n := |d| - 1;
      var before, last := d[..n], d[n];
      MatchesAreScored(root, before, q);
      var ms := Matches(root, before, q);
      forall m
        ensures m in Matches(root, d, q) <==> exists i :: 0 <= i < |d| && Scores(root, d[i], q, m)
      {
        if m in ms {
          var i :| 0 <= i < n && Scores(root, before[i], q, m);
          assert Scores(root, d[i], q, m);
        }
        if i :| 0 <= i < |d| && Scores(root, d[i], q, m) {
          if i < n {
            assert Scores(root, before[i], q, m);
          }
        }
      }
      if Eligible(last.value, q) {
        LastMatchIsNew(root, d, q);
      }
    }
  }

  lemma LastMatchIsNew(root: real -> real, d: Dict<Key, Stored>, q: Query)
    requires Exact(root) && NonZero(q.vector) && ValidEntries(d, |q.vector|) && d != []
    requires Eligible(d[|d| - 1].value, q)
    requires var before := d[..|d| - 1];
             forall m :: m in Matches(root, before, q) ==>
                           exists i :: 0 <= i < |before| && Scores(root, before[i], q, m)
    ensures MatchOf(root, q, d[|d| - 1].value) !in Matches(root, d[..|d| - 1], q)
  {
    var before, last := d[..|d| - 1], d[|d| - 1];
    var m := MatchOf(root, q, last.value);
    assert last.key == Key(q.tenant, m.chunk.id);
    forall i | 0 <= i < |before|
      ensures !Scores(root, before[i], q, m)
    {
      assert before[i] == d[i] && d[i].key != last.key;
    }
  }

  lemma MatchesSeparate(root: real -> real, d: Dict<Key, Stored>, q: Query)
    requires Exact(root) && NonZero(q.vector) && ValidEntries(d, |q.vector|)
    ensures Sorting.Separates(Better, Matches(root, d, q))
  {
    MatchesAreScored(root, d, q);
    var ms := Matches(root, d, q);
    forall a, b | a in ms && b in ms && Better(a, b) && Better(b, a)
      ensures a == b
    {
      LexLeAntisymmetric(a.chunk.id, b.chunk.id);
      var i :| 0 <= i < |d| && Scores(root, d[i], q, a);
      var j :| 0 <= j < |d| && Scores(root, d[j], q, b);
      assert d[i].key == d[j].key;
      assert i == j;
    }
  }

  /** The matches of a dictionary are the hits of the map it stands for. */
  lemma MatchesAreHits(root: real -> real, d: Dict<Key, Stored>, q: Query, m: Match)
    requires Exact(root) && NonZero(q.vector) && ValidEntries(d, |q.vector|)
    ensures m in Matches(root, d, q) <==> IsHit(root, AsMap(d), q, m)
  {
    MatchesAreScored(root, d, q);
    if m in Matches(root, d, q) {
      var i :| 0 <= i < |d| && Scores(root, d[i], q, m);
      AsMapHas(d, d[i].key, d[i].value);
      assert d[i] in d;
    }
    if IsHit(root, AsMap(d), q, m) {
      var k :| k in AsMap(d) && Eligible(AsMap(d)[k], q) && ValidStored(AsMap(d)[k], |q.vector|)
               && m == MatchOf(root, q, AsMap(d)[k]);
      AsMapHas(d, k, AsMap(d)[k]);
      var i :| 0 <= i < |d| && d[i] == Item(k, AsMap(d)[k]);
      assert Scores(root, d[i], q, m);
    }
  }

  /** Search is a function of the contents: whatever order the records were inserted in, and
      whatever was inserted and deleted before. */
  lemma SearchIgnoresHistory(root: real -> real, d: Dict<Key, Stored>, e: Dict<Key, Stored>, q: Query, limit: nat)
    requires Exact(root) && NonZero(q.vector) && ValidEntries(d, |q.vector|) && ValidEntries(e, |q.vector|)
    requires AsMap(d) == AsMap(e)
    ensures Ranked(root, d, q, limit) == Ranked(root, e, q, limit)
  {
    var a, b := Matches(root, d, q), Matches(root, e, q);
    MatchesAreScored(root, d, q);
    MatchesAreScored(root, e, q);
    forall m
      ensures m in a <==> m in b
    {
      MatchesAreHits(root, d, q, m);
      MatchesAreHits(root, e, q, m);
    }
    Sorting.SameElementsOnce(a, b);
    BetterIsPreorder();
    MatchesSeparate(root, d, q);
    Sorting.SortCanonical(Better, a, b);
  }

  /** What search returns, for any contents: a ranking without repeats of hits, of which exactly
      those are returned that fewer than `limit` hits beat. */
  lemma SearchIsTopRanked(root: real -> real, d: Dict<Key, Stored>, q: Query, limit: nat)
    requires Exact(root) && NonZero(q.vector) && ValidEntries(d, |q.vector|)
    ensures var hits := Ranked(root, d, q, limit);
      && Sorting.SortedBy(Better, hits) && Sorting.Distinct(hits)
      && |hits| <= limit
      && (forall m :: m in hits <==>
            IsHit(root, AsMap(d), q, m) && Sorting.Before(Better, Matches(root, d, q), m) < limit)
  {
    var ms := Matches(root, d, q);
    var hits := Ranked(root, d, q, limit);
    MatchesAreScored(root, d, q);
    BetterIsPreorder();
    MatchesSeparate(root, d, q);
    Sorting.SortSorted(Better, ms);
    Sorting.SortDistinct(Better, ms);
    forall m
      ensures m in hits <==>
        IsHit(root, AsMap(d), q, m) && Sorting.Before(Better, ms, m) < limit
    {
      Sorting.TakeOfSort(Better, ms, limit, m);
      MatchesAreHits(root, d, q, m);
    }
  }

  /** A hit that is left out is beaten by every hit that is returned, and only a full result
      leaves anything out. */
  lemma NothingBetterIsLeftOut(root: real -> real, d: Dict<Key, Stored>, q: Query, limit: nat, left: Match)
    requires Exact(root) && NonZero(q.vector) && ValidEntries(d, |q.vector|)
    requires IsHit(root, AsMap(d), q, left) && left !in Ranked(root, d, q, limit)
    ensures |Ranked(root, d, q, limit)| == limit
    ensures forall m :: m in Ranked(root, d, q, limit) ==> Better(m, left)
  {
    var ms := Matches(root, d, q);
    MatchesAreHits(root, d, q, left);
    BetterIsPreorder();
    Sorting.SameElements(ms, Sorting.Sort(Better, ms));
    forall m | m in Ranked(root, d, q, limit)
      ensures Better(m, left)
    {
      Sorting.TakeKeepsTheFirst(Better, ms, limit, m, left);
    }
  }

  /** The stored record is the tenant's, and of one of the documents if some are given. */
  predicate InScope(r: Stored, tenant: string, documents: Option<set<string>>) {
    r.chunk.tenant == tenant && (documents.Some? ==> r.chunk.documentId in documents.value)
  }

  /** The match is the chunk stored under its id, with the cosine of its own vector. */
  ghost predicate IsStored(root: real -> real, contents: map<Key, Stored>, vector: seq<real>, m: Match)
    requires Exact(root) && NonZero(vector)
  {
    var k := Key(m.chunk.tenant, m.chunk.id);
    && k in contents && contents[k].chunk == m.chunk
    && ValidStored(contents[k], |vector|) && m.score == Cosine(root, vector, contents[k].vector)
  }

  /** Search gives back stored chunks of the tenant and the documents asked for, with their scores,
      and unless the result is full it gives back all of them. */
  lemma SearchStaysInScope(root: real -> real, d: Dict<Key, Stored>, q: Query, limit: nat)
    requires Exact(root) && NonZero(q.vector) && ValidEntries(d, |q.vector|)
    ensures var hits, contents := Ranked(root, d, q, limit), AsMap(d);
      && (forall m :: m in hits ==>
            IsStored(root, contents, q.vector, m)
            && InScope(contents[Key(m.chunk.tenant, m.chunk.id)], q.tenant, q.documents))
      && (|hits| < limit ==> forall k :: k in contents && InScope(contents[k], q.tenant, q.documents) ==>
            exists m :: m in hits && m.chunk == contents[k].chunk)
  {
    var hits, contents := Ranked(root, d, q, limit), AsMap(d);
    SearchIsTopRanked(root, d, q, limit);
    forall m | m in hits
      ensures IsStored(root, contents, q.vector, m)
      ensures InScope(contents[Key(m.chunk.tenant, m.chunk.id)], q.tenant, q.documents)
    {
      var k :| k in contents && Eligible(contents[k], q) && ValidStored(contents[k], |q.vector|)
               && m == MatchOf(root, q, contents[k]);
      StoredUnderItsKey(d, k, |q.vector|);
    }
    if |hits| < limit {
      forall k | k in contents && InScope(contents[k], q.tenant, q.documents)
        ensures exists m :: m in hits && m.chunk == contents[k].chunk
      {
        StoredUnderItsKey(d, k, |q.vector|);
        var m := MatchOf(root, q, contents[k]);
        assert IsHit(root, contents, q, m);
        if m !in hits {
          NothingBetterIsLeftOut(root, d, q, limit, m);
          assert false;
        }
      }
    }
  }

  lemma StoredUnderItsKey(d: Dict<Key, Stored>, k: Key, dimensions: nat)
    requires ValidEntries(d, dimensions) && k in AsMap(d)
    ensures k == KeyOf(AsMap(d)[k]) && ValidStored(AsMap(d)[k], dimensions)
  {
    AsMapHas(d, k, AsMap(d)[k]);
  }

  /** Results come by falling score, equal scores by rising chunk id. */
  lemma HitsAreOrdered(root: real -> real, d: Dict<Key, Stored>, q: Query, limit: nat, i: nat, j: nat)
    requires Exact(root) && NonZero(q.vector) && ValidEntries(d, |q.vector|)
    requires i < j < |Ranked(root, d, q, limit)|
    ensures var hits := Ranked(root, d, q, limit);
      hits[i].score > hits[j].score
      || (hits[i].score == hits[j].score && LexLe(hits[i].chunk.id, hits[j].chunk.id))
  {
    SearchIsTopRanked(root, d, q, limit);
  }

  /** And what a full result leaves out comes behind everything in it. */
  lemma LeftOutComesBehind(root: real -> real, d: Dict<Key, Stored>, q: Query, limit: nat, k: Key, m: Match)
    requires Exact(root) && NonZero(q.vector) && ValidEntries(d, |q.vector|)
    requires k in AsMap(d) && InScope(AsMap(d)[k], q.tenant, q.documents) && ValidStored(AsMap(d)[k], |q.vector|)
    requires m in Ranked(root, d, q, limit)
    requires forall hit :: hit in Ranked(root, d, q, limit) ==> hit.chunk != AsMap(d)[k].chunk
    ensures |Ranked(root, d, q, limit)| == limit
    ensures var score := Cosine(root, q.vector, AsMap(d)[k].vector);
      m.score > score || (m.score == score && LexLe(m.chunk.id, AsMap(d)[k].chunk.id))
  {
    var left := MatchOf(root, q, AsMap(d)[k]);
    assert IsHit(root, AsMap(d), q, left);
    NothingBetterIsLeftOut(root, d, q, limit, left);
  }

  // ---- The store -------------------------------------------------------------------------

  function Entries(records: seq<Record>, dimensions: nat): (r: seq<Item<Key, Stored>>)
    requires forall i :: 0 <= i < |records| ==> Validate(records[i].embedding, dimensions).Some?
    ensures |r| == |records|
  {
    seq(|records|, i requires 0 <= i < |records| =>
      Item(Key(records[i].chunk.tenant, records[i].chunk.id),
           Stored(records[i].chunk, Validate(records[i].embedding, dimensions).value)))
  }

  predicate AllValid(records: seq<Record>, dimensions: nat) {
    forall i :: 0 <= i < |records| ==> Validate(records[i].embedding, dimensions).Some?
  }

  /** The records of one document of one tenant. */
  predicate Belongs(r: Stored, tenant: string, document: string) {
    r.chunk.tenant == tenant && r.chunk.documentId == document
  }

  /** The document is one of those given, up to padding. */
  predicate IsStripped(document: string, given: seq<string>) {
    exists i :: 0 <= i < |given| && Strip(given[i]) == document
  }

  function StripSet(ids: seq<string>): set<string> {
    set id | id in ids :: Strip(id)
  }

  lemma PutKeepsEntriesValid(d: Dict<Key, Stored>, e: Item<Key, Stored>, dimensions: nat)
    requires ValidEntries(d, dimensions) && e.key == KeyOf(e.value) && ValidStored(e.value, dimensions)
    ensures ValidEntries(Put(d, e.key, e.value), dimensions)
  {
    PutKeepsKeys(d, e.key, e.value);
  }

  lemma RemoveKeepsEntriesValid(d: Dict<Key, Stored>, k: Key, dimensions: nat)
    requires ValidEntries(d, dimensions)
    ensures ValidEntries(Remove(d, k), dimensions)
  {
    RemoveKeepsOthers(d, k);
    var r := Remove(d, k);
    forall i | 0 <= i < |r|
      ensures r[i].key == KeyOf(r[i].value) && ValidStored(r[i].value, dimensions)
    {
      assert r[i] in r;
    }
  }

  /** Deleting the next key on the list, which is still present. */
  lemma RemoveNext(all: Dict<Key, Stored>, d: Dict<Key, Stored>, doomed: seq<Key>, i: nat, e: Item<Key, Stored>)
    requires Unique(d) && i < |doomed| && Sorting.Distinct(doomed)
    requires forall f :: f in d <==> f in all && f.key !in doomed[..i]
    requires e in all && e.key == doomed[i]
    ensures |Remove(d, doomed[i])| + 1 == |d|
    ensures forall f :: f in Remove(d, doomed[i]) <==> f in all && f.key !in doomed[..i + 1]
  {
    RemoveKeepsOthers(d, doomed[i]);
    assert doomed[..i + 1] == doomed[..i] + [doomed[i]];
    assert e.key !in doomed[..i];
    assert e in d;
    var j :| 0 <= j < |d| && d[j] == e;
    PlaceIsUnique(d, j);
  }

  class InMemoryVectorStore {
    const dimensions: nat
    var records: Dict<Key, Stored>

    ghost predicate Valid()
      reads this
    {
      dimensions >= 1 && ValidEntries(records, dimensions)
    }

    ghost function Contents(): map<Key, Stored>
      reads this
    {
      AsMap(records)
    }

    constructor (dimensions: nat)
      requires dimensions >= 1
      ensures Valid() && this.dimensions == dimensions && Contents() == map[]
    {
      this.dimensions := dimensions;
      records := [];
    }

    /** Validates every record before it writes the first one. */
    method Upsert(latest: seq<Record>) returns (accepted: bool)
      requires Valid()
      modifies this`records
      ensures Valid()
      ensures accepted <==> AllValid(latest, dimensions)
      ensures !accepted ==> records == old(records)
      ensures accepted ==> Contents() == MapAll(old(Contents()), Entries(latest, dimensions))
    {
      var validated: seq<Item<Key, Stored>> := [];
      for i := 0 to |latest|
        invariant records == old(records)
        invariant AllValid(latest[..i], dimensions) && validated == Entries(latest[..i], dimensions)
      {
        var vector := Validate(latest[i].embedding, dimensions);
        assert latest[..i + 1] == latest[..i] + [latest[i]];
        if vector.None? {
          return false;
        }
        var chunk := latest[i].chunk;
        validated := validated + [Item(Key(chunk.tenant, chunk.id), Stored(chunk, vector.value))];
      }
      assert latest[..|latest|] == latest;
      for i := 0 to |validated|
        invariant ValidEntries(records, dimensions)
        invariant MapAll(AsMap(records), validated[i..]) == MapAll(old(Contents()), validated)
      {
        assert validated[i..][1..] == validated[i + 1..];
        PutUpdatesMap(records, validated[i].key, validated[i].value);
        PutKeepsEntriesValid(records, validated[i], dimensions);
        records := Put(records, validated[i].key, validated[i].value);
      }
      return true;
    }

    /** The best matches, or nothing for a blank tenant, a limit out of range or a bad vector. */
    method Search(root: real -> real, tenant: string, vector: seq<Value>, limit: int, documents: Option<seq<string>>)
      returns (matches: Option<seq<Match>>)
      requires Valid() && Exact(root)
      ensures matches.Some? <==>
              Strip(tenant) != "" && 1 <= limit <= 100 && Validate(vector, dimensions).Some?
      ensures matches.Some? ==>
              var q := Query(Validate(vector, dimensions).value, Strip(tenant),
                             if documents.Some? then Some(StripSet(documents.value)) else None);
              matches.value == Ranked(root, records, q, limit)
      ensures matches.Some? ==>
                && |matches.value| <= limit
                && (forall m :: m in matches.value ==>
                      && Key(Strip(tenant), m.chunk.id) in Contents() && m.chunk.tenant == Strip(tenant)
                      && Contents()[Key(Strip(tenant), m.chunk.id)].chunk == m.chunk
                      && (documents.Some? ==> IsStripped(m.chunk.documentId, documents.value)))
                && (|matches.value| < limit ==>
                      forall k :: k in Contents() && Contents()[k].chunk.tenant == Strip(tenant)
                                  && (documents.Some? ==>
                                        IsStripped(Contents()[k].chunk.documentId, documents.value)) ==>
                        exists m :: m in matches.value && m.chunk == Contents()[k].chunk)
    {
      var normalized := Strip(tenant);
      if normalized == "" || limit < 1 || limit > 100 {
        return None;
      }
      var validated := Validate(vector, dimensions);
      if validated.None? {
        return None;
      }
      var allowed := if documents.Some? then Some(StripSet(documents.value)) else None;
      var q := Query(validated.value, normalized, allowed);
      SearchIsTopRanked(root, records, q, limit);
      SearchStaysInScope(root, records, q, limit);
      return Some(Sorting.Take(Sorting.Sort(Better, Matches(root, records, q)), limit));
    }

    /** Deletes the records of one document of one tenant, and no others. */
    method DeleteDocument(tenant: string, document: string) returns (deleted: Option<nat>)
      requires Valid()
      modifies this`records
      ensures Valid()
      ensures deleted.None? <==> Strip(tenant) == "" || Strip(document) == ""
      ensures deleted.None? ==> records == old(records)
      ensures deleted.Some? ==>
                && (forall e :: e in records <==>
                      e in old(records) && !(e.value.chunk.tenant == Strip(tenant)
                                             && e.value.chunk.documentId == Strip(document)))
                && |records| + deleted.value == |old(records)|
    {
      var t, doc := Strip(tenant), Strip(document);
      if t == "" || doc == "" {
        return None;
      }
      ghost var all := records;
      var doomed: seq<Key> := [];
      for i := 0 to |records|
        invariant records == old(records)
        invariant forall k :: k in doomed <==>
                    exists j :: 0 <= j < i && records[j].key == k && Belongs(records[j].value, t, doc)
        invariant Sorting.Distinct(doomed)
      {
        if Belongs(records[i].value, t, doc) {
          assert records[i].key !in doomed;
          doomed := doomed + [records[i].key];
        }
      }
      for i := 0 to |doomed|
        invariant ValidEntries(records, dimensions)
        invariant forall e :: e in records <==> e in old(records) && e.key !in doomed[..i]
        invariant |records| + i == |old(records)|
      {
        assert doomed[i] in doomed;
        ghost var j :| 0 <= j < |all| && all[j].key == doomed[i];
        RemoveNext(all, records, doomed, i, all[j]);
        RemoveKeepsEntriesValid(records, doomed[i], dimensions);
        records := Remove(records, doomed[i]);
      }
      assert doomed[..|doomed|] == doomed;
      return Some(|doomed|);
    }
  }
}
