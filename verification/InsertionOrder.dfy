/** Python dictionaries as the code uses them: a key keeps the place where it was first inserted
    and the value it was last given. */
module InsertionOrder {

  datatype Item<+K, +V> = Item(key: K, value: V)

  type Dict<K, V> = seq<Item<K, V>>

  function Keys<K, V>(d: Dict<K, V>): (r: seq<K>)
    ensures |r| == |d|
    ensures forall i :: 0 <= i < |d| ==> r[i] == d[i].key
  {
    seq(|d|, i requires 0 <= i < |d| => d[i].key)
  }

  ghost predicate Unique<K, V>(d: Dict<K, V>) {
    forall i, j :: 0 <= i < j < |d| ==> d[i].key != d[j].key
  }

  /** The place of a key, or the length when the key is absent. */
  function Place<K(==), V>(d: Dict<K, V>, k: K): (p: nat)
    ensures p <= |d| && (p < |d| ==> d[p].key == k)
    ensures forall i :: 0 <= i < p ==> d[i].key != k
  {
    if d == [] || d[0].key == k then 0 else 1 + Place(d[1..], k)
  }

  /** An assignment changes the entry of its key, in place, or appends one at the end. */
  function Put<K(==), V>(d: Dict<K, V>, k: K, v: V): (r: Dict<K, V>)
    ensures |d| <= |r|
  {
    var p := Place(d, k);
    if p < |d| then d[p := Item(k, v)] else d + [Item(k, v)]
  }

  /** The dictionary as a map. */
  function AsMap<K(==), V>(d: Dict<K, V>): map<K, V> {
    map k | k in Keys(d) :: d[Place(d, k)].value
  }

  lemma KeysPlaced<K, V>(d: Dict<K, V>, k: K)
    ensures k in Keys(d) <==> Place(d, k) < |d|
  {
    if Place(d, k) < |d| {
      assert Keys(d)[Place(d, k)] == k;
    }
  }

  lemma PutFinds<K, V>(d: Dict<K, V>, k: K, v: V, l: K)
    ensures l == k ==> Place(Put(d, k, v), l) < |Put(d, k, v)| && Put(d, k, v)[Place(Put(d, k, v), l)].value == v
    ensures l != k ==> (Place(Put(d, k, v), l) < |Put(d, k, v)| <==> Place(d, l) < |d|)
    ensures l != k && Place(d, l) < |d| ==> Put(d, k, v)[Place(Put(d, k, v), l)] == d[Place(d, l)]
  {
    var r, p, q := Put(d, k, v), Place(d, k), Place(d, l);
    assert r[p] == Item(k, v);
    if l == k {
      assert Place(r, l) == p;
    } else if q < |d| {
      assert r[q] == d[q];
      assert Place(r, l) == q;
    }
  }

  lemma PutUpdatesMap<K, V>(d: Dict<K, V>, k: K, v: V)
    ensures AsMap(Put(d, k, v)) == AsMap(d)[k := v]
  {
    var m, m' := AsMap(d)[k := v], AsMap(Put(d, k, v));
    forall l
      ensures l in m' <==> l in m
      ensures l in m' ==> m'[l] == m[l]
    {
      PutFinds(d, k, v, l);
      KeysPlaced(d, l);
      KeysPlaced(Put(d, k, v), l);
    }
  }

  /** Inserts a list of items in order. */
  function PutAll<K(==), V>(d: Dict<K, V>, items: seq<Item<K, V>>): Dict<K, V>
    decreases |items|
  {
    if items == [] then d else PutAll(Put(d, items[0].key, items[0].value), items[1..])
  }

  /** Inserting never loses a key, and earlier keys keep their places. */
  lemma {:induction false} PutAllKeepsKeys<K, V>(d: Dict<K, V>, items: seq<Item<K, V>>)
    requires Unique(d)
    ensures Unique(PutAll(d, items))
    ensures |d| <= |PutAll(d, items)|
    ensures Keys(d) == Keys(PutAll(d, items))[..|d|]
    ensures forall i :: 0 <= i < |items| ==> items[i].key in Keys(PutAll(d, items))
    ensures forall k :: k in Keys(PutAll(d, items)) ==>
              k in Keys(d) || exists i :: 0 <= i < |items| && items[i].key == k
    decreases |items|
  {
    if items != [] {
      var d' := Put(d, items[0].key, items[0].value);
      PutKeepsKeys(d, items[0].key, items[0].value);
      PutAllKeepsKeys(d', items[1..]);
      var all := PutAll(d', items[1..]);
      assert Keys(d')[..|d|] == Keys(d);
      assert Keys(all)[..|d|] == Keys(all)[..|d'|][..|d|];
      forall i | 0 <= i < |items|
        ensures items[i].key in Keys(all)
      {
        if i > 0 {
          assert items[i] == items[1..][i - 1];
        } else {
          var j :| 0 <= j < |Keys(d')| && Keys(d')[j] == items[0].key;
          assert Keys(all)[..|d'|][j] == items[0].key;
        }
      }
      forall k | k in Keys(all)
        ensures k in Keys(d) || exists i :: 0 <= i < |items| && items[i].key == k
      {
        if k !in Keys(d) && k != items[0].key {
          var i :| 0 <= i < |items[1..]| && items[1..][i].key == k;
          assert items[i + 1].key == k;
        }
      }
    } else {
      assert Keys(d)[..|d|] == Keys(d);
    }
  }

  lemma PutKeepsKeys<K, V>(d: Dict<K, V>, k: K, v: V)
    requires Unique(d)
    ensures Unique(Put(d, k, v))
    ensures Keys(Put(d, k, v))[..|d|] == Keys(d)
    ensures k in Keys(Put(d, k, v))
    ensures forall l :: l in Keys(Put(d, k, v)) ==> l == k || l in Keys(d)
    ensures forall l :: l in Keys(d) ==> l in Keys(Put(d, k, v))
  {
    var r, p := Put(d, k, v), Place(d, k);
    assert Keys(r)[p] == k;
    assert Keys(r) == Keys(d) + if p < |d| then [] else [k];
  }

  lemma {:induction false} PutAllUpdatesMap<K, V>(d: Dict<K, V>, items: seq<Item<K, V>>)
    ensures AsMap(PutAll(d, items)) == MapAll(AsMap(d), items)
    decreases |items|
  {
    if items != [] {
      PutUpdatesMap(d, items[0].key, items[0].value);
      PutAllUpdatesMap(Put(d, items[0].key, items[0].value), items[1..]);
    }
  }

  function MapAll<K, V>(m: map<K, V>, items: seq<Item<K, V>>): map<K, V>
    decreases |items|
  {
    if items == [] then m else MapAll(m[items[0].key := items[0].value], items[1..])
  }

  /** The last item given for a key is the one kept. */
  lemma {:induction false} MapAllLast<K, V>(m: map<K, V>, items: seq<Item<K, V>>, i: nat)
    requires i < |items| && forall j :: i < j < |items| ==> items[j].key != items[i].key
    ensures items[i].key in MapAll(m, items) && MapAll(m, items)[items[i].key] == items[i].value
    decreases |items|
  {
    if i == 0 {
      MapAllOthers(m[items[0].key := items[0].value], items[1..], items[0].key);
    } else {
      MapAllLast(m[items[0].key := items[0].value], items[1..], i - 1);
    }
  }

  /** Other keys are left alone. */
  lemma {:induction false} MapAllOthers<K, V>(m: map<K, V>, items: seq<Item<K, V>>, k: K)
    requires forall j :: 0 <= j < |items| ==> items[j].key != k
    ensures k in MapAll(m, items) <==> k in m
    ensures k in m ==> MapAll(m, items)[k] == m[k]
    decreases |items|
  {
    if items != [] {
      MapAllOthers(m[items[0].key := items[0].value], items[1..], k);
    }
  }

  /** Deleting an entry closes the gap. */
  function Remove<K(==), V>(d: Dict<K, V>, k: K): Dict<K, V> {
    var p := Place(d, k);
    if p < |d| then d[..p] + d[p + 1..] else d
  }

  lemma PlaceIsUnique<K, V>(d: Dict<K, V>, i: nat)
    requires Unique(d) && i < |d|
    ensures Place(d, d[i].key) == i
  {
  }

  lemma AsMapHas<K, V>(d: Dict<K, V>, k: K, v: V)
    requires Unique(d)
    ensures k in AsMap(d) && AsMap(d)[k] == v <==> Item(k, v) in d
  {
    KeysPlaced(d, k);
    if Item(k, v) in d {
      var i :| 0 <= i < |d| && d[i] == Item(k, v);
      PlaceIsUnique(d, i);
    }
  }

  lemma RemoveKeepsOthers<K, V>(d: Dict<K, V>, k: K)
    requires Unique(d)
    ensures Unique(Remove(d, k))
    ensures forall e :: e in Remove(d, k) <==> e in d && e.key != k
  {
    var p, r := Place(d, k), Remove(d, k);
    if p < |d| {
      forall e
        ensures e in r <==> e in d && e.key != k
      {
        if e in d && e.key != k {
          var i :| 0 <= i < |d| && d[i] == e;
          assert r[if i < p then i else i - 1] == e;
        }
      }
    }
  }

  // ---- `dict.fromkeys` -------------------------------------------------------------------

  /** The elements in first-occurrence order, each once. */
  function Dedup<K(==)>(xs: seq<K>): (r: seq<K>)
  {
    if xs == [] then []
    else
      var before := Dedup(xs[..|xs| - 1]);
      if xs[|xs| - 1] in before then before else before + [xs[|xs| - 1]]
  }

  lemma {:induction false} DedupKeepsElements<K>(xs: seq<K>)
    ensures forall x :: x in Dedup(xs) <==> x in xs
    ensures forall i, j :: 0 <= i < j < |Dedup(xs)| ==> Dedup(xs)[i] != Dedup(xs)[j]
  {
    if xs != [] {
      DedupKeepsElements(xs[..|xs| - 1]);
      assert xs == xs[..|xs| - 1] + [xs[|xs| - 1]];
    }
  }
}
