/** The Redis commands and scripts the service relies on. Each is atomic; a key whose expiry
    has passed reads as absent. Times are in microseconds. */
module Redis {
  import opened Evidence

  datatype Entry<+V> = Entry(value: V, expiresAt: int)

  type Store<V> = map<string, Entry<V>>

  function Later(now: int, ttl: int): int {
    now + ttl * 1_000_000
  }

  predicate Live<V>(store: Store<V>, key: string, now: int) {
    key in store && now < store[key].expiresAt
  }

  predicate Holds<V(==)>(store: Store<V>, key: string, value: V, now: int) {
    Live(store, key, now) && store[key].value == value
  }

  function Lookup<V>(store: Store<V>, key: string, now: int): Option<V> {
    if Live(store, key, now) then Some(store[key].value) else None
  }

  function AfterSet<V>(store: Store<V>, key: string, value: V, ttl: int, now: int): Store<V> {
    store[key := Entry(value, Later(now, ttl))]
  }

  function AfterSetIfAbsent<V>(store: Store<V>, key: string, value: V, ttl: int, now: int): Store<V> {
    if Live(store, key, now) then store else AfterSet(store, key, value, ttl, now)
  }

  function AfterDeleteIfValue<V(==)>(store: Store<V>, key: string, value: V, now: int): Store<V> {
    if Holds(store, key, value, now) then store - {key} else store
  }

  function AfterExtendIfValue<V(==)>(store: Store<V>, key: string, value: V, ttl: int, now: int): Store<V> {
    if Holds(store, key, value, now) then store[key := Entry(value, Later(now, ttl))] else store
  }

  /** `INCR`, with the window's lifetime attached by the increment that creates the counter. */
  function AfterIncrement(store: Store<nat>, key: string, ttl: int, now: int): Store<nat> {
    if Live(store, key, now) then store[key := Entry(store[key].value + 1, store[key].expiresAt)]
    else AfterSet(store, key, 1, ttl, now)
  }

  /** What `TTL` answers: the lifetime in seconds, rounded to the nearest. */
  function WholeSeconds(left: int): int {
    (left + 500_000) / 1_000_000
  }

  // ---- What the commands do, as later reads see it ---------------------------------------

  lemma WholeSecondsAreNearest(left: int)
    ensures -500_000 <= left - WholeSeconds(left) * 1_000_000 < 500_000
  {
  }

  /** `SET` with a lifetime: the key reads as the value for that long, and every other key as before. */
  lemma SetIsRead<V>(store: Store<V>, key: string, value: V, ttl: int, now: int, other: string, later: int)
    ensures var after := AfterSet(store, key, value, ttl, now);
      && (Lookup(after, key, later) == if later < now + ttl * 1_000_000 then Some(value) else None)
      && (other != key ==> Lookup(after, other, later) == Lookup(store, other, later))
  {
  }

  /** `SET NX` is `SET` on a key that reads as absent, and nothing on any other. */
  lemma SetIfAbsentIsRead<V>(store: Store<V>, key: string, value: V, ttl: int, now: int)
    ensures AfterSetIfAbsent(store, key, value, ttl, now) ==
              if Lookup(store, key, now) == None then AfterSet(store, key, value, ttl, now) else store
  {
  }

  /** Compare and delete: the key is gone exactly if it read as the expected value. */
  lemma DeleteIsRead<V>(store: Store<V>, key: string, value: V, now: int, other: string, later: int)
    ensures var after := AfterDeleteIfValue(store, key, value, now);
      && (Lookup(after, key, later) ==
          if Lookup(store, key, now) == Some(value) then None else Lookup(store, key, later))
      && (other != key ==> Lookup(after, other, later) == Lookup(store, other, later))
  {
  }

  /** Compare and extend: the value lives for the whole lifetime from now on exactly if it was live. */
  lemma ExtendIsRead<V>(store: Store<V>, key: string, value: V, ttl: int, now: int, other: string, later: int)
    ensures var after := AfterExtendIfValue(store, key, value, ttl, now);
      && (Lookup(after, key, later) ==
          if Lookup(store, key, now) != Some(value) then Lookup(store, key, later)
          else if later < now + ttl * 1_000_000 then Some(value) else None)
      && (other != key ==> Lookup(after, other, later) == Lookup(store, other, later))
  {
  }

  /** A counter counts from one within a lifetime that the first increment fixes. */
  lemma IncrementIsRead(store: Store<nat>, key: string, ttl: int, now: int, other: string, later: int)
    requires ttl >= 1 && now <= later
    ensures var after := AfterIncrement(store, key, ttl, now);
      && (Lookup(store, key, now) == None ==>
            Lookup(after, key, later) == if later < now + ttl * 1_000_000 then Some(1) else None)
      && (Lookup(store, key, now) != None ==>
            Lookup(after, key, later) ==
            match Lookup(store, key, later) case None => None case Some(n) => Some(n + 1))
      && (other != key ==> Lookup(after, other, later) == Lookup(store, other, later))
  {
  }

  class Client<V(==)> {
    var store: Store<V>

    constructor ()
      ensures store == map[]
    {
      store := map[];
    }

    method GetText(key: string, now: int) returns (value: Option<V>)
      ensures value == Lookup(store, key, now)
    {
      if key in store && now < store[key].expiresAt {
        return Some(store[key].value);
      }
      return None;
    }

    method SetText(key: string, value: V, ttl: int, now: int)
      modifies this
      ensures store == AfterSet(old(store), key, value, ttl, now)
    {
      store := store[key := Entry(value, now + ttl * 1_000_000)];
    }

    method SetIfAbsent(key: string, value: V, ttl: int, now: int) returns (stored: bool)
      modifies this
      ensures stored == !Live(old(store), key, now)
      ensures store == AfterSetIfAbsent(old(store), key, value, ttl, now)
    {
      if key in store && now < store[key].expiresAt {
        return false;
      }
      store := store[key := Entry(value, now + ttl * 1_000_000)];
      return true;
    }

    method DeleteIfValue(key: string, expected: V, now: int) returns (deleted: bool)
      modifies this
      ensures deleted == Holds(old(store), key, expected, now)
      ensures store == AfterDeleteIfValue(old(store), key, expected, now)
    {
      if key in store && now < store[key].expiresAt && store[key].value == expected {
        store := store - {key};
        return true;
      }
      return false;
    }

    method ExtendIfValue(key: string, expected: V, ttl: int, now: int) returns (extended: bool)
      modifies this
      ensures extended == Holds(old(store), key, expected, now)
      ensures store == AfterExtendIfValue(old(store), key, expected, ttl, now)
    {
      if key in store && now < store[key].expiresAt && store[key].value == expected {
        store := store[key := Entry(expected, now + ttl * 1_000_000)];
        return true;
      }
      return false;
    }

    method Delete(key: string, now: int) returns (deleted: bool)
      modifies this
      ensures deleted == Live(old(store), key, now)
      ensures store == old(store) - {key}
    {
      deleted := key in store && now < store[key].expiresAt;
      store := store - {key};
    }
  }

  class Counters {
    var store: Store<nat>

    constructor ()
      ensures store == map[]
    {
      store := map[];
    }

    /** The counter's new value and the seconds its window has left. */
    method IncrementWithTtl(key: string, ttl: int, now: int) returns (count: nat, seconds: int)
      requires ttl >= 1
      modifies this
      ensures store == AfterIncrement(old(store), key, ttl, now)
      ensures Live(store, key, now) && count == store[key].value
      ensures seconds == WholeSeconds(store[key].expiresAt - now) && seconds >= 0
      ensures count == if Live(old(store), key, now) then old(store)[key].value + 1 else 1
    {
      var current := 0;
      var expires := 0;
      if key in store && now < store[key].expiresAt {
        current, expires := store[key].value, store[key].expiresAt;
      }
      current := current + 1;
      if !(key in store && now < store[key].expiresAt) {
        expires := now + ttl * 1_000_000;
      }
      store := store[key := Entry(current, expires)];
      return current, (expires - now + 500_000) / 1_000_000;
    }
  }
}
