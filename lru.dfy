/**
 * The byte-budgeted LRU store shared by `MyCache` (mycache.go) and `database` (database.go),
 * as functions on its abstract state. The classes in mycache.dfy and database.dfy keep this
 * state in fields and are proved to follow these functions step by step.
 *
 * The key -> list-element map becomes a map from key to entry, and the recency list becomes
 * the sequence of the keys of its entries, front (most recently used) first.
 */
module Lru {
  import opened Common
  import opened Values

  /** An entry's expireTime: `Never` is Go's zero `time.Time`, `At(t)` an instant in the unit of `now`. */
  datatype Expiry = Never | At(t: int)

  /** `time.Unix(0, 0)`, what `GetExpireTime` answers for an absent key (it is not the zero time). */
  const UnixEpoch: Expiry := At(0)

  datatype Entry = Entry(value: Value, expire: Expiry)

  datatype Store = Store(entries: map<string, Entry>, order: seq<string>, size: u64)

  /** `!expireTime.IsZero() && expireTime.Before(now)`. */
  predicate Expired(e: Entry, now: int) {
    e.expire.At? && e.expire.t < now
  }

  /** The map and the list are mutually consistent: every key has exactly one list node. */
  ghost predicate WellFormed(st: Store) {
    && Distinct(st.order)
    && forall k :: k in st.order <==> k in st.entries
  }

  function Empty(): Store {
    Store(map[], [], 0)
  }

  /** The list with the nodes of the given keys unlinked. */
  function Without(s: seq<string>, ks: set<string>): (r: seq<string>)
    ensures forall k :: k in r <==> k in s && k !in ks
    ensures |r| <= |s|
  {
    if s == [] then [] else (if s[0] in ks then [] else [s[0]]) + Without(s[1..], ks)
  }

  /** `list.MoveToFront`: the key's node goes to the front, the others keep their order. */
  function Promote(s: seq<string>, k: string): seq<string> {
    [k] + Without(s, {k})
  }

  function Last(s: seq<string>): string
    requires s != []
  {
    s[|s| - 1]
  }

  ghost function EntryBytes(entries: map<string, Entry>, k: string): nat {
    if k in entries then Bytes(entries[k].value) else 0
  }

  /** The sum of the stored values' sizes, over the recency list. */
  ghost function TotalBytes(order: seq<string>, entries: map<string, Entry>): nat {
    if order == [] then 0 else EntryBytes(entries, order[0]) + TotalBytes(order[1..], entries)
  }

  /** The sum of the sizes of the listed entries whose keys are in `ks`. */
  ghost function RemovedBytes(order: seq<string>, entries: map<string, Entry>, ks: set<string>): nat {
    if order == [] then 0
    else (if order[0] in ks then EntryBytes(entries, order[0]) else 0) + RemovedBytes(order[1..], entries, ks)
  }

  /**
   * The accounting invariant: the `size` counter is the uint64 sum of the entries' sizes.
   * The counter is a uint64, so the sum is taken modulo 2^64.
   */
  ghost predicate SizeConsistent(st: Store) {
    st.size == TotalBytes(st.order, st.entries) % U64
  }

  // ---------------------------------------------------------------------------------------
  // Operations
  // ---------------------------------------------------------------------------------------

  /** `remove(key)`: unlink the key from map and list and subtract its size (a wrapping uint64 subtraction). */
  ghost function Delete(st: Store, key: string): Store {
    if key !in st.entries then st
    else Store(st.entries - {key}, Without(st.order, {key}), SubU64(st.size, Bytes(st.entries[key].value)))
  }

  /** Several `remove` calls at once: the keys `ks` leave map and list, their sizes leave the counter. */
  ghost function DeleteAll(st: Store, ks: set<string>): Store {
    Store(st.entries - ks, Without(st.order, ks), SubU64(st.size, RemovedBytes(st.order, st.entries, ks)))
  }

  /**
   * The eviction loop `for size > capacity`: pop the back of the list, delete it from the map and
   * subtract its size. The second component is true when the loop finds the list empty while
   * the counter still exceeds the capacity: `list.Back()` is nil there and the Go code panics.
   */
  ghost function Evict(st: Store, cap: u64): (r: (Store, bool))
    requires WellFormed(st)
    ensures !r.1 ==> r.0.size <= cap
    ensures r.1 ==> r.0.order == [] && r.0.size > cap
    decreases |st.order|
  {
    if st.size <= cap then (st, false)
    else if st.order == [] then (st, true)
    else
      DeleteLast(st);
      Evict(Delete(st, Last(st.order)), cap)
  }

  /**
   * Storing an entry under a key, before eviction, AS WRITTEN in the source: an existing key is
   * moved to the front and its entry replaced, and the size delta `value.Size() - e.value.Size()`
   * is evaluated after the replacement, so both operands are the new value's size. A fresh key
   * is pushed to the front.
   */
  ghost function Assign(st: Store, key: string, e: Entry): Store {
    if key in st.entries then
      Store(st.entries[key := e], Promote(st.order, key), AddU64(st.size, SubU64(Bytes(e.value), Bytes(e.value))))
    else
      Store(st.entries[key := e], [key] + st.order, AddU64(st.size, Bytes(e.value)))
  }

  /** The evidently intended `Assign`: the delta is taken between the new and the old value. */
  ghost function AssignFixed(st: Store, key: string, e: Entry): Store {
    if key in st.entries then
      Store(st.entries[key := e], Promote(st.order, key),
            AddU64(st.size, SubU64(Bytes(e.value), Bytes(st.entries[key].value))))
    else
      Store(st.entries[key := e], [key] + st.order, AddU64(st.size, Bytes(e.value)))
  }

  /** `Set(key, value)`: an overwrite keeps the entry's expireTime, a fresh entry never expires. */
  ghost function Set(st: Store, key: string, v: Value, cap: u64): (Store, bool)
    requires WellFormed(st)
  {
    var exp := if key in st.entries then st.entries[key].expire else Never;
    AssignWellFormed(st, key, Entry(v, exp));
    Evict(Assign(st, key, Entry(v, exp)), cap)
  }

  /** `SetValueAndExpireTime(key, value, t)`. */
  ghost function SetWithExpiry(st: Store, key: string, v: Value, t: Expiry, cap: u64): (Store, bool)
    requires WellFormed(st)
  {
    AssignWellFormed(st, key, Entry(v, t));
    Evict(Assign(st, key, Entry(v, t)), cap)
  }

  /** `get(key)`: a miss, a lazy expiry (remove and miss) or a hit that moves the key to the front. */
  ghost function Get(st: Store, key: string, now: int): (Store, Option<Value>) {
    if key !in st.entries then (st, None)
    else if Expired(st.entries[key], now) then (Delete(st, key), None)
    else (st.(order := Promote(st.order, key)), Some(st.entries[key].value))
  }

  /**
   * A typed getter: `get`, then a type assertion that misses unless the value has the
   * asserted variant and form.
   */
  ghost function GetTyped(st: Store, key: string, kind: Kind, form: Form, now: int): (Store, Option<Value>) {
    var (st', v) := Get(st, key, now);
    (st', if v.Some? && Asserts(v.value, kind, form) then v else None)
  }

  /** `GetExpireTime(key)`: moves a present key to the front and reports its expireTime, without an expiry check. */
  ghost function GetExpireTime(st: Store, key: string): (Store, Expiry, bool) {
    if key !in st.entries then (st, UnixEpoch, false)
    else (st.(order := Promote(st.order, key)), st.entries[key].expire, true)
  }

  /** `SetExpireTime(key, t)`: a no-op on an absent key. */
  ghost function SetExpireTime(st: Store, key: string, t: Expiry): Store {
    if key !in st.entries then st
    else Store(st.entries[key := st.entries[key].(expire := t)], Promote(st.order, key), st.size)
  }

  ghost function ExpiredKeys(st: Store, now: int): set<string> {
    set k | k in st.entries && Expired(st.entries[k], now)
  }

  /** `removeExpired` / `RemoveExpired`: `remove` every entry that has expired by `now`. */
  ghost function Sweep(st: Store, now: int): Store {
    DeleteAll(st, ExpiredKeys(st, now))
  }

  // ---------------------------------------------------------------------------------------
  // Facts about the list
  // ---------------------------------------------------------------------------------------

  lemma {:induction false} WithoutNothing(s: seq<string>, ks: set<string>)
    requires forall k :: k in s ==> k !in ks
    ensures Without(s, ks) == s
  {
    if s != [] {
      WithoutNothing(s[1..], ks);
      assert [s[0]] + s[1..] == s;
    }
  }

  lemma DistinctCons(k: string, t: seq<string>)
    requires k !in t && Distinct(t)
    ensures Distinct([k] + t)
  {
    assert ([k] + t)[1..] == t;
  }

  lemma {:induction false} WithoutDistinct(s: seq<string>, ks: set<string>)
    requires Distinct(s)
    ensures Distinct(Without(s, ks))
  {
    if s != [] {
      WithoutDistinct(s[1..], ks);
      var t := Without(s[1..], ks);
      if s[0] !in ks {
        assert Without(s, ks) == [s[0]] + t;
        DistinctCons(s[0], t);
      } else {
        assert Without(s, ks) == [] + t == t;
      }
    }
  }

  /** Moving a key to the front of a list without duplicates keeps it without duplicates. */
  lemma PromoteDistinct(s: seq<string>, k: string)
    requires Distinct(s)
    ensures Distinct(Promote(s, k))
    ensures forall x :: x in Promote(s, k) <==> x in s || x == k
  {
    WithoutDistinct(s, {k});
    DistinctCons(k, Without(s, {k}));
  }

  lemma {:induction false} WithoutWithout(s: seq<string>, a: set<string>, b: set<string>)
    ensures Without(Without(s, a), b) == Without(s, a + b)
  {
    if s != [] {
      WithoutWithout(s[1..], a, b);
      var h := if s[0] in a then [] else [s[0]];
      assert Without(s, a) == h + Without(s[1..], a);
      WithoutAppend(h, Without(s[1..], a), b);
      if s[0] !in a {
        assert Without(h, b) == (if s[0] in b then [] else [s[0]]) + Without([], b);
      }
    }
  }

  lemma {:induction false} WithoutAppend(s: seq<string>, t: seq<string>, ks: set<string>)
    ensures Without(s + t, ks) == Without(s, ks) + Without(t, ks)
  {
    if s == [] {
      assert s + t == t;
    } else {
      assert (s + t)[1..] == s[1..] + t;
      WithoutAppend(s[1..], t, ks);
    }
  }

  lemma {:induction false} DistinctLast(s: seq<string>)
    requires Distinct(s) && s != []
    ensures Last(s) !in s[..|s| - 1]
  {
    if |s| > 1 {
      DistinctLast(s[1..]);
      assert s[..|s| - 1] == [s[0]] + s[1..][..|s| - 2];
    }
  }

  /** Unlinking the back node of a list without duplicates leaves exactly its prefix. */
  lemma WithoutLast(s: seq<string>)
    requires Distinct(s) && s != []
    ensures Without(s, {Last(s)}) == s[..|s| - 1]
  {
    var n := |s|;
    DistinctLast(s);
    assert s == s[..n - 1] + [s[n - 1]];
    WithoutAppend(s[..n - 1], [s[n - 1]], {s[n - 1]});
    WithoutNothing(s[..n - 1], {s[n - 1]});
    assert Without([s[n - 1]], {s[n - 1]}) == [] + Without([], {s[n - 1]});
  }

  // ---------------------------------------------------------------------------------------
  // Each operation keeps map and list consistent
  // ---------------------------------------------------------------------------------------

  /** `remove` unlinks exactly the key from both the map and the list. */
  lemma DeleteWellFormed(st: Store, key: string)
    requires WellFormed(st)
    ensures var r := Delete(st, key);
      && WellFormed(r)
      && r.entries == st.entries - {key} && r.order == Without(st.order, {key})
  {
    WithoutDistinct(st.order, {key});
    if key !in st.entries {
      WithoutNothing(st.order, {key});
      assert st.entries - {key} == st.entries;
    }
  }

  /** Popping the back of the list: the list loses exactly its last node. */
  lemma DeleteLast(st: Store)
    requires WellFormed(st) && st.order != []
    ensures var r := Delete(st, Last(st.order));
      && WellFormed(r)
      && r.order == st.order[..|st.order| - 1] && r.entries == st.entries - {Last(st.order)}
  {
    DeleteWellFormed(st, Last(st.order));
    WithoutLast(st.order);
  }

  lemma DeleteAllWellFormed(st: Store, ks: set<string>)
    requires WellFormed(st)
    ensures WellFormed(DeleteAll(st, ks))
  {
    WithoutDistinct(st.order, ks);
  }

  /** Storing moves the key to the front of the list and puts the entry in the map. */
  lemma AssignWellFormed(st: Store, key: string, e: Entry)
    requires WellFormed(st)
    ensures var r := Assign(st, key, e);
      && WellFormed(r)
      && r.entries == st.entries[key := e] && r.order == Promote(st.order, key)
  {
    PromoteDistinct(st.order, key);
    if key !in st.entries {
      WithoutNothing(st.order, {key});
    }
  }

  lemma AssignFixedWellFormed(st: Store, key: string, e: Entry)
    requires WellFormed(st)
    ensures var r := AssignFixed(st, key, e);
      && WellFormed(r)
      && r.entries == st.entries[key := e] && r.order == Promote(st.order, key)
  {
    AssignWellFormed(st, key, e);
  }

  lemma {:induction false} EvictWellFormed(st: Store, cap: u64)
    requires WellFormed(st)
    ensures WellFormed(Evict(st, cap).0)
    decreases |st.order|
  {
    if st.size > cap && st.order != [] {
      DeleteLast(st);
      EvictWellFormed(Delete(st, Last(st.order)), cap);
    }
  }

  lemma SetWellFormed(st: Store, key: string, v: Value, t: Expiry, cap: u64)
    requires WellFormed(st)
    ensures WellFormed(Set(st, key, v, cap).0) && WellFormed(SetWithExpiry(st, key, v, t, cap).0)
  {
    var exp := if key in st.entries then st.entries[key].expire else Never;
    AssignWellFormed(st, key, Entry(v, exp));
    EvictWellFormed(Assign(st, key, Entry(v, exp)), cap);
    AssignWellFormed(st, key, Entry(v, t));
    EvictWellFormed(Assign(st, key, Entry(v, t)), cap);
  }

  lemma GetWellFormed(st: Store, key: string, now: int)
    requires WellFormed(st)
    ensures WellFormed(Get(st, key, now).0)
  {
    DeleteWellFormed(st, key);
    PromoteDistinct(st.order, key);
  }

  lemma GetExpireTimeWellFormed(st: Store, key: string)
    requires WellFormed(st)
    ensures WellFormed(GetExpireTime(st, key).0) && WellFormed(SetExpireTime(st, key, UnixEpoch))
    ensures forall t :: WellFormed(SetExpireTime(st, key, t))
  {
    PromoteDistinct(st.order, key);
  }

  // ---------------------------------------------------------------------------------------
  // What eviction keeps
  // ---------------------------------------------------------------------------------------

  /**
   * Eviction only drops entries from the back of the list: what is left is a prefix of the
   * recency order.
   */
  lemma {:induction false} EvictKeepsPrefix(st: Store, cap: u64)
    requires WellFormed(st)
    ensures var r := Evict(st, cap).0; |r.order| <= |st.order| && r.order == st.order[..|r.order|]
    decreases |st.order|
  {
    if st.size > cap && st.order != [] {
      var d := Delete(st, Last(st.order));
      DeleteLast(st);
      EvictKeepsPrefix(d, cap);
      var r := Evict(d, cap).0;
      var n := |st.order|;
      assert d.order == st.order[..n - 1];
      assert r.order == d.order[..|r.order|];
      assert st.order[..n - 1][..|r.order|] == st.order[..|r.order|];
    }
  }

  /** The entries that survive eviction are unchanged. */
  lemma {:induction false} EvictKeepsEntries(st: Store, cap: u64)
    requires WellFormed(st)
    ensures var r := Evict(st, cap).0;
      forall k :: k in r.entries ==> k in st.entries && r.entries[k] == st.entries[k]
    decreases |st.order|
  {
    if st.size > cap && st.order != [] {
      DeleteLast(st);
      EvictKeepsEntries(Delete(st, Last(st.order)), cap);
    }
  }

  // ---------------------------------------------------------------------------------------
  // Facts about the sums
  // ---------------------------------------------------------------------------------------

  lemma {:induction false} TotalFrame(o: seq<string>, e1: map<string, Entry>, e2: map<string, Entry>)
    requires forall k :: k in o ==> EntryBytes(e1, k) == EntryBytes(e2, k)
    ensures TotalBytes(o, e1) == TotalBytes(o, e2)
  {
    if o != [] {
      TotalFrame(o[1..], e1, e2);
    }
  }

  lemma {:induction false} TotalAppend(s: seq<string>, t: seq<string>, e: map<string, Entry>)
    ensures TotalBytes(s + t, e) == TotalBytes(s, e) + TotalBytes(t, e)
  {
    if s == [] {
      assert s + t == t;
    } else {
      assert (s + t)[1..] == s[1..] + t;
      TotalAppend(s[1..], t, e);
    }
  }

  /** Unlinking one node takes exactly that entry's size out of the sum. */
  lemma {:induction false} TotalWithout(o: seq<string>, e: map<string, Entry>, k: string)
    requires Distinct(o) && k in o
    ensures TotalBytes(o, e) == EntryBytes(e, k) + TotalBytes(Without(o, {k}), e)
  {
    if o[0] == k {
      WithoutNothing(o[1..], {k});
      assert Without(o, {k}) == o[1..];
    } else {
      assert k in o[1..];
      TotalWithout(o[1..], e, k);
      assert Without(o, {k}) == [o[0]] + Without(o[1..], {k});
      TotalAppend([o[0]], Without(o[1..], {k}), e);
    }
  }

  /** The sum splits into the part kept and the part removed. */
  lemma {:induction false} TotalSplit(o: seq<string>, e: map<string, Entry>, ks: set<string>)
    ensures TotalBytes(o, e) == TotalBytes(Without(o, ks), e) + RemovedBytes(o, e, ks)
  {
    if o != [] {
      TotalSplit(o[1..], e, ks);
      var h := if o[0] in ks then [] else [o[0]];
      TotalAppend(h, Without(o[1..], ks), e);
    }
  }

  /** Adding one more listed key to a removal set adds its size once. */
  lemma {:induction false} RemovedAdd(o: seq<string>, e: map<string, Entry>, ks: set<string>, k: string)
    requires Distinct(o) && k in o && k !in ks
    ensures RemovedBytes(o, e, ks + {k}) == RemovedBytes(o, e, ks) + EntryBytes(e, k)
  {
    if o[0] == k {
      RemovedSame(o[1..], e, ks, ks + {k});
    } else {
      RemovedAdd(o[1..], e, ks, k);
    }
  }

  lemma {:induction false} RemovedSame(o: seq<string>, e: map<string, Entry>, a: set<string>, b: set<string>)
    requires forall k :: k in o ==> (k in a <==> k in b)
    ensures RemovedBytes(o, e, a) == RemovedBytes(o, e, b)
  {
    if o != [] {
      RemovedSame(o[1..], e, a, b);
    }
  }

  lemma {:induction false} RemovedNone(o: seq<string>, e: map<string, Entry>)
    ensures RemovedBytes(o, e, {}) == 0
  {
    if o != [] {
      RemovedNone(o[1..], e);
    }
  }

  /** Moving a key to the front changes the order but not the sum. */
  lemma PromoteKeepsTotal(o: seq<string>, e: map<string, Entry>, k: string)
    requires Distinct(o) && k in o
    ensures TotalBytes(Promote(o, k), e) == TotalBytes(o, e)
  {
    TotalWithout(o, e, k);
    TotalAppend([k], Without(o, {k}), e);
  }

  // ---------------------------------------------------------------------------------------
  // The accounting invariant, operation by operation
  // ---------------------------------------------------------------------------------------

  /** A fresh key adds exactly its value's size, and the invariant is kept. */
  lemma FreshInsertKeepsSizeConsistent(st: Store, key: string, e: Entry)
    requires WellFormed(st) && SizeConsistent(st) && key !in st.entries
    ensures Assign(st, key, e).size == AddU64(st.size, Bytes(e.value))
    ensures SizeConsistent(Assign(st, key, e))
  {
    var r := Assign(st, key, e);
    var t := TotalBytes(st.order, st.entries);
    assert TotalBytes(r.order, r.entries) == Bytes(e.value) + t by {
      assert r.order[1..] == st.order;
      TotalFrame(st.order, st.entries, r.entries);
    }
    WrapAdd(st.size, t, Bytes(e.value), r.size, TotalBytes(r.order, r.entries));
  }

  /** As written, an overwrite leaves the counter unchanged, whatever the two values' sizes. */
  lemma OverwriteLeavesSize(st: Store, key: string, e: Entry)
    requires key in st.entries
    ensures Assign(st, key, e).size == st.size
  {
  }

  /**
   * As written, an overwrite keeps the invariant exactly when the new value has the old value's
   * size: the counter keeps counting the old value.
   */
  lemma OverwriteKeepsSizeConsistentIff(st: Store, key: string, e: Entry)
    requires WellFormed(st) && SizeConsistent(st) && key in st.entries
    ensures SizeConsistent(Assign(st, key, e)) <==> Bytes(e.value) == Bytes(st.entries[key].value)
  {
    var r := Assign(st, key, e);
    var nb, ob := Bytes(e.value), Bytes(st.entries[key].value);
    var w := TotalBytes(Without(st.order, {key}), st.entries);
    OverwriteTotals(st, key, e);
    OverwriteLeavesSize(st, key, e);
    WrapIff(r.size, TotalBytes(r.order, r.entries), nb, ob, w);
  }

  /** An overwrite swaps the old value's size for the new one's in the sum. */
  lemma OverwriteTotals(st: Store, key: string, e: Entry)
    requires WellFormed(st) && key in st.entries
    ensures var w := TotalBytes(Without(st.order, {key}), st.entries);
      && TotalBytes(st.order, st.entries) == Bytes(st.entries[key].value) + w
      && TotalBytes(Promote(st.order, key), st.entries[key := e]) == Bytes(e.value) + w
  {
    var e2 := st.entries[key := e];
    TotalWithout(st.order, st.entries, key);
    TotalAppend([key], Without(st.order, {key}), e2);
    TotalFrame(Without(st.order, {key}), st.entries, e2);
  }

  /** The corrected overwrite keeps the invariant for every pair of values. */
  lemma AssignFixedKeepsSizeConsistent(st: Store, key: string, e: Entry)
    requires WellFormed(st) && SizeConsistent(st)
    ensures SizeConsistent(AssignFixed(st, key, e))
  {
    if key in st.entries {
      AssignFixedOverwriteKeepsSizeConsistent(st, key, e);
    } else {
      FreshInsertKeepsSizeConsistent(st, key, e);
    }
  }

  lemma AssignFixedOverwriteKeepsSizeConsistent(st: Store, key: string, e: Entry)
    requires WellFormed(st) && SizeConsistent(st) && key in st.entries
    ensures SizeConsistent(AssignFixed(st, key, e))
  {
    var nb, ob := Bytes(e.value), Bytes(st.entries[key].value);
    var w := TotalBytes(Without(st.order, {key}), st.entries);
    var r := AssignFixed(st, key, e);
    assert r.size == AddU64(st.size, SubU64(nb, ob));
    OverwriteTotals(st, key, e);
    WrapShift(st.size, TotalBytes(st.order, st.entries), ob, nb, w, r.size, TotalBytes(r.order, r.entries));
  }

  /** `remove` keeps the invariant: it subtracts exactly what the entry contributed. */
  lemma DeleteKeepsSizeConsistent(st: Store, key: string)
    requires WellFormed(st) && SizeConsistent(st)
    ensures SizeConsistent(Delete(st, key))
  {
    if key in st.entries {
      var r := Delete(st, key);
      var t := TotalBytes(st.order, st.entries);
      var b := Bytes(st.entries[key].value);
      assert TotalBytes(r.order, r.entries) == t - b by {
        TotalWithout(st.order, st.entries, key);
        TotalFrame(r.order, st.entries, r.entries);
      }
      WrapSub(st.size, t, b, r.size, TotalBytes(r.order, r.entries));
    }
  }

  /**
   * Eviction keeps the invariant, and under the invariant it cannot panic: the list is empty
   * only when the counter is 0.
   */
  lemma {:induction false} EvictKeepsSizeConsistent(st: Store, cap: u64)
    requires WellFormed(st) && SizeConsistent(st)
    ensures SizeConsistent(Evict(st, cap).0) && !Evict(st, cap).1
    decreases |st.order|
  {
    if st.size > cap && st.order != [] {
      var k := Last(st.order);
      DeleteLast(st);
      DeleteKeepsSizeConsistent(st, k);
      EvictKeepsSizeConsistent(Delete(st, k), cap);
    }
  }

  /** Under the invariant, a front entry that fits in the capacity survives eviction. */
  lemma {:induction false} EvictKeepsFittingFront(st: Store, cap: u64)
    requires WellFormed(st) && SizeConsistent(st) && st.order != []
    requires EntryBytes(st.entries, st.order[0]) <= cap
    ensures Evict(st, cap).0.order != [] && Evict(st, cap).0.order[0] == st.order[0]
    decreases |st.order|
  {
    if |st.order| == 1 {
      // a single entry that fits: the counter is its size, so nothing is evicted
      assert st.order[1..] == [];
      assert TotalBytes(st.order, st.entries) == EntryBytes(st.entries, st.order[0]);
    }
    if st.size > cap {
      var k := Last(st.order);
      DeleteLast(st);
      DeleteKeepsSizeConsistent(st, k);
      var d := Delete(st, k);
      assert d.order[0] == st.order[0];
      assert EntryBytes(d.entries, d.order[0]) == EntryBytes(st.entries, st.order[0]);
      EvictKeepsFittingFront(d, cap);
    }
  }

  /** Storing a fresh key keeps the invariant through eviction, which then cannot panic. */
  lemma SetFreshKeepsSizeConsistent(st: Store, key: string, v: Value, cap: u64)
    requires WellFormed(st) && SizeConsistent(st) && key !in st.entries
    ensures SizeConsistent(Set(st, key, v, cap).0) && !Set(st, key, v, cap).1
  {
    AssignWellFormed(st, key, Entry(v, Never));
    FreshInsertKeepsSizeConsistent(st, key, Entry(v, Never));
    EvictKeepsSizeConsistent(Assign(st, key, Entry(v, Never)), cap);
  }

  /** A lookup keeps the invariant: a hit only reorders, a lazy expiry is a `remove`. */
  lemma GetKeepsSizeConsistent(st: Store, key: string, now: int)
    requires WellFormed(st) && SizeConsistent(st)
    ensures SizeConsistent(Get(st, key, now).0)
  {
    if key in st.entries {
      if Expired(st.entries[key], now) {
        DeleteKeepsSizeConsistent(st, key);
      } else {
        PromoteKeepsTotal(st.order, st.entries, key);
      }
    }
  }

  /** Changing an expireTime keeps the invariant. */
  lemma SetExpireTimeKeepsSizeConsistent(st: Store, key: string, t: Expiry)
    requires WellFormed(st) && SizeConsistent(st)
    ensures SizeConsistent(SetExpireTime(st, key, t))
  {
    if key in st.entries {
      var r := SetExpireTime(st, key, t);
      PromoteKeepsTotal(st.order, st.entries, key);
      TotalFrame(r.order, st.entries, r.entries);
    }
  }

  /** The sweep keeps the invariant. */
  lemma SweepKeepsSizeConsistent(st: Store, now: int)
    requires WellFormed(st) && SizeConsistent(st)
    ensures SizeConsistent(Sweep(st, now))
  {
    var ks := ExpiredKeys(st, now);
    var r := Sweep(st, now);
    var t := TotalBytes(st.order, st.entries);
    var b := RemovedBytes(st.order, st.entries, ks);
    assert TotalBytes(r.order, r.entries) == t - b by {
      TotalSplit(st.order, st.entries, ks);
      TotalFrame(r.order, st.entries, r.entries);
    }
    WrapSub(st.size, t, b, r.size, TotalBytes(r.order, r.entries));
  }

  /** `Flush` leaves the empty store, which satisfies the invariant. */
  lemma FlushIsEmpty()
    ensures WellFormed(Empty()) && SizeConsistent(Empty())
    ensures forall k, now :: Get(Empty(), k, now).1 == None
  {
  }

  // ---------------------------------------------------------------------------------------
  // What the operations promise their callers
  // ---------------------------------------------------------------------------------------

  /** The sweep removes exactly the expired entries and leaves the others and their order alone. */
  lemma SweepRemovesExactlyExpired(st: Store, now: int)
    ensures forall k :: k in Sweep(st, now).entries <==> k in st.entries && !Expired(st.entries[k], now)
    ensures forall k :: k in Sweep(st, now).entries ==> Sweep(st, now).entries[k] == st.entries[k]
    ensures Sweep(st, now).order == Without(st.order, ExpiredKeys(st, now))
  {
  }

  /** One step of the sweep loop: removing one more key. */
  lemma DeleteAllStep(st: Store, done: set<string>, k: string)
    requires WellFormed(st) && k in st.entries && k !in done
    ensures Delete(DeleteAll(st, done), k) == DeleteAll(st, done + {k})
  {
    WithoutWithout(st.order, done, {k});
    DeleteAllStepSize(st, done, k);
    assert (st.entries - done) - {k} == st.entries - (done + {k});
  }

  /** The counter part of `DeleteAllStep`: two wrapped subtractions are one. */
  lemma DeleteAllStepSize(st: Store, done: set<string>, k: string)
    requires WellFormed(st) && k in st.entries && k !in done
    ensures Delete(DeleteAll(st, done), k).size == DeleteAll(st, done + {k}).size
  {
    var rd := RemovedBytes(st.order, st.entries, done);
    var b := Bytes(st.entries[k].value);
    assert DeleteAll(st, done + {k}).size == SubU64(st.size, rd + b) by {
      RemovedAdd(st.order, st.entries, done, k);
    }
    WrapSubTwice(st.size, rd, b);
  }

  /** The keys of the sweep loop: visiting one more key adds it to the removed ones exactly when it has expired. */
  lemma SweepStep(st: Store, now: int, keys: set<string>, done: set<string>, k: string)
    requires done == ExpiredKeys(st, now) - keys && k in keys && k in st.entries
    ensures (if Expired(st.entries[k], now) then done + {k} else done) == ExpiredKeys(st, now) - (keys - {k})
  {
  }

  lemma DeleteAllNothing(st: Store)
    requires WellFormed(st)
    ensures DeleteAll(st, {}) == st
  {
    WithoutNothing(st.order, {});
    RemovedNone(st.order, st.entries);
    assert st.entries - {} == st.entries;
  }

  /** Once stored, a key that survives eviction and has not expired is found with the stored value. */
  lemma SetThenGet(st: Store, key: string, v: Value, cap: u64, now: int)
    requires WellFormed(st)
    requires key in Set(st, key, v, cap).0.entries
    requires !Expired(Set(st, key, v, cap).0.entries[key], now)
    ensures Get(Set(st, key, v, cap).0, key, now).1 == Some(v)
  {
    var exp := if key in st.entries then st.entries[key].expire else Never;
    AssignWellFormed(st, key, Entry(v, exp));
    EvictKeepsEntries(Assign(st, key, Entry(v, exp)), cap);
  }

  /**
   * A typed getter right after a `Set` that kept the key returns the value exactly when the
   * value is of the asserted variant and form, so a value of a types/ package type is never
   * returned by a getter asserting a pointer to it.
   */
  lemma SetThenGetTyped(st: Store, key: string, v: Value, cap: u64, kind: Kind, form: Form, now: int)
    requires WellFormed(st)
    requires key in Set(st, key, v, cap).0.entries
    requires !Expired(Set(st, key, v, cap).0.entries[key], now)
    ensures GetTyped(Set(st, key, v, cap).0, key, kind, form, now).1 == (if Asserts(v, kind, form) then Some(v) else None)
  {
    SetThenGet(st, key, v, cap, now);
  }

  /** A fresh value that fits in the capacity is stored, at the front of the recency order. */
  lemma SetFreshFits(st: Store, key: string, v: Value, cap: u64)
    requires WellFormed(st) && SizeConsistent(st) && key !in st.entries
    requires Bytes(v) <= cap
    ensures var r := Set(st, key, v, cap).0;
      r.order != [] && r.order[0] == key && key in r.entries && r.entries[key] == Entry(v, Never)
  {
    var a := Assign(st, key, Entry(v, Never));
    AssignWellFormed(st, key, Entry(v, Never));
    FreshInsertKeepsSizeConsistent(st, key, Entry(v, Never));
    EvictKeepsFittingFront(a, cap);
    EvictWellFormed(a, cap);
    EvictKeepsEntries(a, cap);
  }

  /**
   * The defect made concrete. With capacity 0: store "a" -> "" (size 0), overwrite it with "x"
   * (the counter stays 0 although the entry holds 1 byte), remove "a" (the counter wraps to
   * 2^64 - 1), then store "b" -> "": the eviction loop empties the list and panics.
   */
  lemma OverwriteThenRemovePanics()
    ensures var s1 := Set(Empty(), "a", Str("", TypesValue), 0).0;
      var s2 := Set(s1, "a", Str("x", TypesValue), 0).0;
      var s3 := Delete(s2, "a");
      && s2.size == 0 && TotalBytes(s2.order, s2.entries) == 1
      && s3.size == U64 - 1 && s3.order == []
      && Set(s3, "b", Str("", TypesValue), 0).1
  {
    var e0 := Empty();
    var a1 := Assign(e0, "a", Entry(Str("", TypesValue), Never));
    assert a1.order == ["a"] && a1.size == 0;
    var s1 := Set(e0, "a", Str("", TypesValue), 0).0;
    assert s1 == a1;
    var s2 := Set(s1, "a", Str("x", TypesValue), 0).0;
    var a2 := Assign(s1, "a", Entry(Str("x", TypesValue), Never));
    assert a2.size == 0;
    assert a2.order == ["a"] by { assert Without(["a"], {"a"}) == []; }
    assert s2 == a2;
    assert TotalBytes(s2.order, s2.entries) == 1;
    var s3 := Delete(s2, "a");
    assert s3.order == [] by { assert Without(["a"], {"a"}) == []; }
    assert s3.size == U64 - 1;
    var a3 := Assign(s3, "b", Entry(Str("", TypesValue), Never));
    assert a3.order == ["b"] && a3.size == U64 - 1;
    var d := Delete(a3, "b");
    assert d.order == [] by { assert Without(["b"], {"b"}) == []; }
    assert d.size == U64 - 1;
    assert Evict(a3, 0) == Evict(d, 0);
  }
}
