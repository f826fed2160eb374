/**
 The key-value cache: entries with a time to live, and the batch operations on top of them.
 `now` is the server's clock at the command, in seconds. Redis is reachable throughout.
 */
module RedisCache {
  import opened Common

  datatype Cached<V> = Cached(value: V, expires: real)

  type Store<K, V> = map<K, Cached<V>>

  /** What a reader can see: an entry whose time has come is gone. */
  function Live<K, V>(store: Store<K, V>, now: real): map<K, V> {
    map k | k in store && now < store[k].expires :: store[k].value
  }

  function Lookup<K, V>(store: Store<K, V>, key: K, now: real): Option<V> {
    if key in store && now < store[key].expires then Some(store[key].value) else None
  }

  /** The keys of a set that a DEL would find. */
  function LiveAmong<K, V>(store: Store<K, V>, keys: set<K>, now: real): set<K> {
    set k | k in keys && k in store && now < store[k].expires
  }

  lemma DeletionsAddUp<K, V>(store: Store<K, V>, gone: set<K>, more: set<K>, now: real)
    ensures |LiveAmong(store, gone + more, now)| == |LiveAmong(store, gone, now)| + |LiveAmong(store - gone, more, now)|
  {
    assert LiveAmong(store, gone + more, now) == LiveAmong(store, gone, now) + LiveAmong(store - gone, more, now);
  }

  lemma OneMoreDeletion<K, V>(store: Store<K, V>, gone: set<K>, key: K, now: real)
    ensures |LiveAmong(store, gone + {key}, now)| ==
            |LiveAmong(store, gone, now)| + if Lookup(store - gone, key, now).Some? then 1 else 0
  {
    DeletionsAddUp(store, gone, {key}, now);
    assert LiveAmong(store - gone, {key}, now) == if Lookup(store - gone, key, now).Some? then {key} else {};
  }

  class Cache<K(==), V> {
    var store: Store<K, V>

    constructor ()
      ensures store == map[]
    {
      store := map[];
    }

    method Get(key: K, now: real) returns (value: Option<V>)
      ensures value == Lookup(store, key, now)
      ensures value.Some? <==> key in Live(store, now)
    {
      if key !in store || now >= store[key].expires {
        return None;
      }
      return Some(store[key].value);
    }

    /** SETEX: the new time to live replaces whatever the key had. */
    method Set(key: K, value: V, ttl: real, now: real)
      modifies this
      ensures store == old(store)[key := Cached(value, now + ttl)]
    {
      store := store[key := Cached(value, now + ttl)];
    }

    method Delete(key: K)
      modifies this
      ensures store == old(store) - {key}
    {
      store := store - {key};
    }

    /** DEL of several keys counts the ones that were there to delete. */
    method DeleteKeys(keys: seq<K>, now: real) returns (count: nat)
      modifies this
      ensures store == old(store) - SetOf(keys)
      ensures count == |LiveAmong(old(store), SetOf(keys), now)|
    {
      ghost var gone: set<K> := {};
      var i := 0;
      count := 0;
      while i < |keys|
        invariant 0 <= i <= |keys|
        invariant gone == SetOf(keys[..i])
        invariant store == old(store) - gone
        invariant count == |LiveAmong(old(store), gone, now)|
      {
        var key := keys[i];
        OneMoreDeletion(old(store), gone, key, now);
        if key in store && now < store[key].expires {
          count := count + 1;
        }
        store := store - {key};
        gone := gone + {key};
        i := i + 1;
        assert keys[..i] == keys[..i - 1] + [key];
      }
      assert keys[..i] == keys;
    }

    /**
     delete_pattern. `scan` is what the SCAN calls return, batch by batch: only matching keys, every
     matching key that is there throughout at least once, perhaps more than once.
     The count is the number of live keys that match, however often SCAN repeated them.
     */
    method DeletePattern(matches: K -> bool, scan: seq<seq<K>>, now: real) returns (deleted: nat)
      requires forall b, i | 0 <= b < |scan| && 0 <= i < |scan[b]| :: matches(scan[b][i])
      requires forall k | k in store && now < store[k].expires && matches(k) :: exists b | 0 <= b < |scan| :: k in scan[b]
      modifies this
      ensures Live(store, now) == map k | k in Live(old(store), now) && !matches(k) :: Live(old(store), now)[k]
      ensures deleted == |set k | k in Live(old(store), now) && matches(k)|
    {
      ghost var gone: set<K> := {};
      deleted := 0;
      var b := 0;
      while b < |scan|
        invariant 0 <= b <= |scan|
        invariant forall k | k in gone :: matches(k)
        invariant forall c | 0 <= c < b :: SetOf(scan[c]) <= gone
        invariant store == old(store) - gone
        invariant deleted == |LiveAmong(old(store), gone, now)|
      {
        DeletionsAddUp(old(store), gone, SetOf(scan[b]), now);
        var count := DeleteKeys(scan[b], now);
        gone := gone + SetOf(scan[b]);
        deleted := deleted + count;
        b := b + 1;
      }
      forall k | k in old(store) && now < old(store)[k].expires ensures k in gone <==> matches(k) {
        if matches(k) {
          var c :| 0 <= c < |scan| && k in scan[c];
          assert k in SetOf(scan[c]);
        }
      }
      assert LiveAmong(old(store), gone, now) == set k | k in Live(old(store), now) && matches(k);
    }

    /** MGET: one answer per key asked for, in the order asked. */
    method MGet(keys: seq<K>, now: real) returns (values: seq<Option<V>>)
      ensures |values| == |keys|
      ensures forall i | 0 <= i < |keys| :: values[i] == Lookup(store, keys[i], now)
    {
      values := [];
      var i := 0;
      while i < |keys|
        invariant 0 <= i <= |keys| && |values| == i
        invariant forall j | 0 <= j < i :: values[j] == Lookup(store, keys[j], now)
      {
        var value := Get(keys[i], now);
        values := values + [value];
        i := i + 1;
      }
    }
  }
}
