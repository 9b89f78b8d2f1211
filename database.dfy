/**
 * `database` (database.go): a namespace of the cache with its own key -> element map, recency
 * list and byte counter. It shares the capacity of the `MyCache` that owns it. Every method is
 * proved against the same functions of module `Lru` as the corresponding `MyCache` method, so
 * everything proved there about the store holds for a database too.
 *
 * The mutex is left out, and `time.Now()` is the parameter `now`.
 */
module Db {
  import opened Common
  import opened Values
  import Lru
  import Cache

  class Database {
    const owner: Cache.MyCache
    const name: string
    var entries: map<string, Lru.Entry>
    var order: seq<string>
    var size: u64

    ghost function State(): Lru.Store
      reads this
    {
      Lru.Store(entries, order, size)
    }

    ghost predicate Valid()
      reads this
    {
      Lru.WellFormed(State())
    }

    /** An empty namespace of `owner`. */
    constructor (owner: Cache.MyCache, name: string)
      ensures Valid() && State() == Lru.Empty() && this.owner == owner && this.name == name
    {
      this.owner := owner;
      this.name := name;
      entries := map[];
      order := [];
      size := 0;
    }

    /** `remove(key)` and `Remove(key)`: a no-op on an absent key. */
    method Remove(key: string)
      requires Valid()
      modifies this
      ensures Valid() && State() == Lru.Delete(old(State()), key)
    {
      Lru.DeleteWellFormed(State(), key);
      if key !in entries {
        return;
      }
      var n := SizeOf(entries[key].value);
      entries := entries - {key};
      order := Lru.Without(order, {key});
      size := SubU64(size, n);
    }

    /** `get(key)` and `Get(key)`: a miss, a lazy expiry or a hit that moves the key to the front. */
    method Get(key: string, now: int) returns (v: Option<Value>)
      requires Valid()
      modifies this
      ensures Valid() && (State(), v) == Lru.Get(old(State()), key, now)
    {
      Lru.GetWellFormed(State(), key, now);
      if key !in entries {
        return None;
      }
      var e := entries[key];
      if Lru.Expired(e, now) {
        Remove(key);
        return None;
      }
      order := Lru.Promote(order, key);
      return Some(e.value);
    }

    /**
     * `GetString`, `GetList`, `GetHash`, `GetSet`, `GetZset`: `get`, then an assertion to a
     * pointer to a root-package type (`*String`, …).
     */
    method GetTyped(key: string, kind: Kind, now: int) returns (v: Option<Value>)
      requires Valid()
      modifies this
      ensures Valid() && (State(), v) == Lru.GetTyped(old(State()), key, kind, RootPointer, now)
    {
      v := Get(key, now);
      if v.Some? && !Asserts(v.value, kind, RootPointer) {
        v := None;
      }
    }

    /** `GetExpireTime(key)`: `time.Unix(0, 0)` and false for an absent key. */
    method GetExpireTime(key: string) returns (t: Lru.Expiry, ok: bool)
      requires Valid()
      modifies this
      ensures Valid() && (State(), t, ok) == Lru.GetExpireTime(old(State()), key)
    {
      Lru.GetExpireTimeWellFormed(State(), key);
      if key !in entries {
        return Lru.UnixEpoch, false;
      }
      order := Lru.Promote(order, key);
      return entries[key].expire, true;
    }

    /**
     * The eviction loop of `SetValue` and `SetValueAndExpireTime`, bounded by the owner's
     * capacity. It returns true where the Go code dereferences a nil `list.Back()`.
     */
    method Evict() returns (panicked: bool)
      requires Valid()
      modifies this
      ensures Valid() && (State(), panicked) == Lru.Evict(old(State()), owner.capacity)
    {
      panicked := false;
      while size > owner.capacity
        invariant Valid()
        invariant Lru.Evict(State(), owner.capacity) == Lru.Evict(old(State()), owner.capacity)
        decreases |order|
      {
        if order == [] {
          return true;
        }
        ghost var st := State();
        Lru.DeleteLast(st);
        var k := order[|order| - 1];
        var n := SizeOf(entries[k].value);
        entries := entries - {k};
        order := order[..|order| - 1];
        size := SubU64(size, n);
        assert State() == Lru.Delete(st, Lru.Last(st.order));
        assert Lru.Evict(st, owner.capacity) == Lru.Evict(State(), owner.capacity);
      }
    }

    /**
     * `SetValue(key, value)`. As in `MyCache.Set`, the overwrite delta is evaluated after the
     * assignment, on the new value twice.
     */
    method SetValue(key: string, value: Value) returns (panicked: bool)
      requires Valid()
      modifies this
      ensures Valid() && (State(), panicked) == Lru.Set(old(State()), key, value, owner.capacity)
    {
      Lru.AssignWellFormed(State(), key, Lru.Entry(value, if key in entries then entries[key].expire else Lru.Never));
      if key in entries {
        order := Lru.Promote(order, key);
        entries := entries[key := entries[key].(value := value)];
        var a := SizeOf(value);
        var b := SizeOf(entries[key].value);
        size := AddU64(size, SubU64(a, b));
      } else {
        order := [key] + order;
        entries := entries[key := Lru.Entry(value, Lru.Never)];
        var a := SizeOf(value);
        size := AddU64(size, a);
      }
      panicked := Evict();
    }

    /** `SetExpireTime(key, t)`: moves a present key to the front; a no-op on an absent key. */
    method SetExpireTime(key: string, t: Lru.Expiry)
      requires Valid()
      modifies this
      ensures Valid() && State() == Lru.SetExpireTime(old(State()), key, t)
    {
      Lru.GetExpireTimeWellFormed(State(), key);
      if key in entries {
        order := Lru.Promote(order, key);
        entries := entries[key := entries[key].(expire := t)];
      }
    }

    /** `SetValueAndExpireTime(key, value, t)`: as `SetValue`, with the given expireTime. */
    method SetValueAndExpireTime(key: string, value: Value, t: Lru.Expiry) returns (panicked: bool)
      requires Valid()
      modifies this
      ensures Valid() && (State(), panicked) == Lru.SetWithExpiry(old(State()), key, value, t, owner.capacity)
    {
      Lru.AssignWellFormed(State(), key, Lru.Entry(value, t));
      if key in entries {
        order := Lru.Promote(order, key);
        entries := entries[key := Lru.Entry(value, t)];
        var a := SizeOf(value);
        var b := SizeOf(entries[key].value);
        size := AddU64(size, SubU64(a, b));
      } else {
        order := [key] + order;
        entries := entries[key := Lru.Entry(value, t)];
        var a := SizeOf(value);
        size := AddU64(size, a);
      }
      panicked := Evict();
    }

    /** `RemoveExpired()`: a `range` over the map that removes each entry expired by `now`. */
    method RemoveExpired(now: int)
      requires Valid()
      modifies this
      ensures Valid() && State() == Lru.Sweep(old(State()), now)
    {
      ghost var st0 := State();
      ghost var done: set<string> := {};
      Lru.DeleteAllNothing(st0);
      var keys := entries.Keys;
      while keys != {}
        invariant keys <= st0.entries.Keys
        invariant done == Lru.ExpiredKeys(st0, now) - keys
        invariant State() == Lru.DeleteAll(st0, done)
        invariant Valid()
        decreases keys
      {
        var k :| k in keys;
        assert k in entries && entries[k] == st0.entries[k];
        Lru.SweepStep(st0, now, keys, done, k);
        if Lru.Expired(entries[k], now) {
          Lru.DeleteAllStep(st0, done, k);
          Remove(k);
          done := done + {k};
        }
        keys := keys - {k};
      }
      assert done == Lru.ExpiredKeys(st0, now);
    }

    /** `Flush()`: the empty namespace. */
    method Flush()
      modifies this
      ensures Valid() && State() == Lru.Empty()
    {
      entries := map[];
      order := [];
      size := 0;
    }

    /** `Contains(key)`: presence in the map, without an expiry check and without moving the key. */
    method Contains(key: string) returns (b: bool)
      ensures b <==> key in State().entries
    {
      b := key in entries;
    }

    /** `getSize()`: sweeps the expired entries, then reports the counter. */
    method GetSize(now: int) returns (s: u64)
      requires Valid()
      modifies this
      ensures Valid() && State() == Lru.Sweep(old(State()), now) && s == size
    {
      RemoveExpired(now);
      s := size;
    }
  }
}
