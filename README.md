# MyCache in Dafny

A model of the core of MyCache, an in-memory key-value cache written in Go. It has three parts:

- **The LRU store.** `MyCache` (mycache.go) and its namespaced twin `database` (database.go) each keep three things: a key -> entry map, a recency list with the most recently used key at the front, and a `size` counter in bytes. When `size` exceeds a capacity, entries are evicted from the back of the list. An entry can carry an expiry time: `get` drops an expired entry lazily, and `removeExpired` sweeps all of them.
- **The skip list.** types/skiplist holds an ordered key -> value list with one node per key and randomly drawn node heights. The sorted sets of types/zset.go and zset.go are built on it.
- **The value types and the Bloom filter.** These are the list, hash, set and string values a cache entry can hold (types/ and root-package copies), and the double-hashing Bloom filter of util/bloom.go.

## How the model is organised

- `common.dfy` (`Common`): uint64 and uint32 as bounded integers, and wrapping addition and subtraction. It also holds sums over finite sets and the modular-arithmetic lemmas the size accounting needs.
- `values.dfy` (`Values`): the `Valuer` interface as a tagged union of immutable value snapshots, each tagged with its Go form: a types/ package value, a pointer to one, or a pointer to a root-package type. `Bytes` is the size each variant reports, and `ListSize`, `HashSize` and `SetSize` are the accumulator loops computing it.
- `lru.dfy` (`Lru`): the store as a value `Store(entries, order, size)`. It has one ghost function per operation and the lemmas about them, namely:
  - the list and the map stay consistent;
  - the size counter;
  - what eviction and the sweep remove.
- `mycache.dfy` (`Cache.MyCache`) and `database.dfy` (`Db.Database`): classes whose fields are the map, the recency sequence and the counter. They have one method per Go method, and each method is proved to move its fields exactly as the matching `Lru` function says. The eviction loop and the sweep loop are `while` loops with invariants.
- `skiplist.dfy` (`SkipList`): the skip list over an arena of nodes. Node 0 is the embedded head and `Nil` is a nil pointer. `next[x][i]` is node `x`'s level-`i` successor.
  - A ghost `levels[i]` is the sequence of nodes on level `i`. `Valid()` says four things: each level is the chain its pointers realise; each level is strictly ascending; level `i` holds exactly the nodes taller than `i`; and heights are at most `maxLevel`.
  - `Content()` is the key -> value map of level 0.
  - `getPrevElementNodes`, `Get`, `Set` and `Remove` are loops over the arena, proved against `Content()` and against the positions the search stops at.
- `zset.dfy` (`Zsets.Zset`): the sorted set. It is one class for both files, because they hold the same code; `Type` exists in zset.go only.
- `types_list.dfy` (`TypesList`): the list of types/list.go. It is a slice passed by value, so the backing array is shared with the caller and the header is not.
- `hashes.dfy` (`Hashes.Hash`) and `sets.dfy` (`Sets.Set`): the hash and set values of both packages. A Go map is shared by reference, so one class each models both copies. The set copies differ in `GetAll`.
- `strings.dfy` (`Strings`): the string values of both packages.
- `bloom.dfy` (`Bloom`): the Bloom filter. Its bitmap is an `array<bool>` updated in place. A ghost record of the added elements carries the no-false-negatives invariant.

Time is an integer parameter `now`. An expiry is `Never` (Go's zero `time.Time`) or `At(t)`. An entry is expired when it has an expiry `t` with `t < now`, because `time.Before` is strict.

On an overwrite, the Go code assigns the new value *before* computing `value.Size() - e.value.Size()`, so the delta is always 0. The classes model this as written (see Findings).

A type assertion distinguishes a type `T` from the pointer `*T`. The typed getters of mycache.go assert pointers to types/ package types, such as `*types.String`. However, `types.NewString`, `NewList`, `NewHash` and `NewSet` return plain values. A value stored the way those constructors make it is therefore returned by `Get` but missed by `GetString`, `GetList`, `GetHash` and `GetSet`, and `Lru.SetThenGetTyped` states exactly when a typed getter hits. The getters of database.go assert root-package pointers, which is what the root package's constructors return.

## Model

| member | source | states |
|---|---|---|
| Cache.MyCache.constructor | mycache.go:27-34 | `New(capacity)`: empty map and list, size 0, the given capacity |
| Cache.MyCache.Get | mycache.go:37-51 | `get`: a miss changes nothing; an expired entry is removed and reported as a miss; a hit promotes the key and returns its value; the store stays well formed |
| Cache.MyCache.GetTyped | mycache.go:53-136 | `GetString`…`GetZset`: `get`, then a miss unless the value is a pointer to the asserted types/ package type (`*types.String`, …), so a plain `types.String` value misses |
| Cache.MyCache.GetExpireTime | mycache.go:139-150 | absent key: `time.Unix(0,0)` and false, nothing changes; present key: promoted, its expiry and true |
| Cache.MyCache.Set | mycache.go:153-177 | overwrite promotes and replaces the value with the size delta computed after assignment; fresh key pushed to the front, its size added; then eviction |
| Cache.MyCache.Evict | mycache.go:171-176 | the eviction loop pops the back until `size <= capacity`, reporting a panic when the list runs empty first |
| Cache.MyCache.SetExpireTime | mycache.go:180-188 | a present key is promoted and gets the new expiry; an absent key is a no-op |
| Cache.MyCache.SetValueAndExpireTime | mycache.go:191-217 | as `Set`, with the given expiry on both paths |
| Cache.MyCache.Remove | mycache.go:220-235 | `Remove`/`remove`: absent key is a no-op; otherwise deleted from map and list and its size subtracted with uint64 wrap-around |
| Cache.MyCache.RemoveExpired | mycache.go:238-244 | the `range` loop removes exactly the expired entries, whatever the visiting order |
| Cache.MyCache.Flush | mycache.go:247-254 | empty map and list, size 0, capacity untouched |
| Cache.MyCache.Capacity | mycache.go:257-261 | returns the capacity |
| Cache.MyCache.Size | mycache.go:264-270 | sweeps, then reports the counter |
| Cache.MyCache.Contains | mycache.go:273-276 | map membership, with neither the order nor the entries changed |
| Lru.Expired | mycache.go:44 | an entry is expired when its expire time is set and strictly before `now` |
| Lru.Delete | mycache.go:227-235 | `remove`: an absent key leaves the store; otherwise the key leaves map and list and its size is subtracted with uint64 wrap |
| Lru.Assign | mycache.go:157-169 | an insert or overwrite before eviction, as written: the key goes to the front, and an overwrite adds the delta taken after the assignment (always 0) |
| Lru.AssignFixed | mycache.go:157-169 | the corrected insert or overwrite: the delta is new size minus old size |
| Lru.Set | mycache.go:153-177 | `Set`: an overwrite keeps the old expiry, a fresh key gets none; `Assign`, then eviction against the capacity |
| Lru.SetWithExpiry | mycache.go:191-217 | `SetValueAndExpireTime`: `Assign` with the given expiry, then eviction |
| Lru.Get | mycache.go:37-51 | `get`: a miss on an absent key; an expired entry is removed and missed; a hit moves the key to the front |
| Lru.GetTyped | mycache.go:53-136 | `get`, then a miss unless the value has the asserted variant and form |
| Lru.SetThenGetTyped | mycache.go:53-136 | right after a `Set` that kept the key, a typed getter returns the value iff it has the asserted variant and form |
| Lru.GetExpireTime | mycache.go:139-150 | an absent key gives `time.Unix(0,0)` and false; a present key is promoted and its expiry returned with true |
| Lru.SetExpireTime | mycache.go:180-188 | a present key is promoted and gets the new expiry; an absent key leaves the store |
| Lru.Sweep | mycache.go:238-244 | `removeExpired`: `remove` of every expired key |
| Lru.Evict | mycache.go:171-176 | eviction ends with `size <= cap`, or with an empty list and `size > cap` (the nil `Back()` panic) |
| Lru.EvictKeepsPrefix | mycache.go:171-176 | eviction removes only from the back: the new order is a prefix of the old |
| Lru.EvictKeepsEntries | mycache.go:171-176 | every surviving entry is unchanged |
| Lru.EvictWellFormed | mycache.go:171-176 | each removal deletes from both map and list, so they stay consistent |
| Lru.EvictKeepsSizeConsistent | mycache.go:171-176 | with `size` equal to the sum of entry sizes mod 2^64, eviction keeps that and never panics |
| Lru.EvictKeepsFittingFront | mycache.go:171-176 | a front entry that fits by itself survives eviction |
| Lru.DeleteWellFormed | mycache.go:227-235 | `remove` deletes the key from map and list and keeps them consistent |
| Lru.DeleteKeepsSizeConsistent | mycache.go:227-235 | `remove` keeps `size` equal to the sum of entry sizes mod 2^64 |
| Lru.AssignWellFormed | mycache.go:157-168 | an insert or overwrite puts the key at the front and keeps map and list consistent |
| Lru.FreshInsertKeepsSizeConsistent | mycache.go:161-168 | a fresh insert adds the value's size and keeps the size invariant |
| Lru.OverwriteLeavesSize | mycache.go:157-160 | as written, an overwrite leaves `size` unchanged |
| Lru.OverwriteKeepsSizeConsistentIff | mycache.go:157-160 | as written, an overwrite keeps the size invariant if and only if the old and new values have the same size |
| Lru.OverwriteThenRemovePanics | mycache.go:157-176 | overwriting "" by "x" (capacity 0) then removing the key wraps `size` to 2^64-1, and the next `Set` panics on an empty list |
| Lru.AssignFixedKeepsSizeConsistent | mycache.go:157-168 | with the delta taken before the assignment, every insert or overwrite keeps the size invariant |
| Lru.AssignFixedOverwriteKeepsSizeConsistent | mycache.go:157-160 | the corrected overwrite moves the counter by exactly new size minus old size, mod 2^64 |
| Lru.SetWellFormed | mycache.go:153-217 | `Set` and `SetValueAndExpireTime` keep map and list consistent |
| Lru.SetFreshKeepsSizeConsistent | mycache.go:161-176 | a fresh `Set` keeps the size invariant and never panics |
| Lru.SetFreshFits | mycache.go:161-176 | a fresh value that fits the capacity is at the front after `Set`, with no expiry |
| Lru.SetThenGet | mycache.go:37-51 | a `get` right after a `Set` that kept the key returns the value set |
| Lru.GetWellFormed | mycache.go:37-51 | `get` keeps map and list consistent |
| Lru.GetKeepsSizeConsistent | mycache.go:37-51 | `get`, with its lazy removal, keeps the size invariant |
| Lru.GetExpireTimeWellFormed | mycache.go:139-150 | `GetExpireTime` and `SetExpireTime` keep map and list consistent |
| Lru.SetExpireTimeKeepsSizeConsistent | mycache.go:180-188 | changing an expiry keeps the size invariant |
| Lru.SweepRemovesExactlyExpired | mycache.go:238-244 | after the sweep, a key is held iff it was held and not expired, with its entry unchanged and the order filtered |
| Lru.SweepKeepsSizeConsistent | mycache.go:238-244 | the sweep keeps the size invariant |
| Lru.DeleteAllWellFormed | mycache.go:238-244 | removing any set of keys keeps map and list consistent |
| Lru.FlushIsEmpty | mycache.go:247-254 | the flushed store is consistent, its size is 0 and every `get` misses |
| Lru.PromoteKeepsTotal | mycache.go:49 | `MoveToFront` does not change the sum of entry sizes |
| Db.Database.constructor | database.go:9-16 | a database with its owning cache and name, an empty map and list, and size 0 |
| Db.Database.Get | database.go:26-48 | `get`/`Get`: as the cache's `get`, on the database's own store |
| Db.Database.GetTyped | database.go:51-138 | the typed getters: `get`, then a miss unless the value is a pointer to the asserted root-package type (`*String`, …) |
| Db.Database.GetExpireTime | database.go:141-152 | absent key: `time.Unix(0,0)` and false; present key: promoted, its expiry and true |
| Db.Database.Evict | database.go:173-178 | eviction against the owning cache's capacity `db.mycache.capacity` |
| Db.Database.SetValue | database.go:155-179 | as `MyCache.Set`, against the owner's capacity |
| Db.Database.SetExpireTime | database.go:182-190 | a present key is promoted and gets the expiry; an absent key is a no-op |
| Db.Database.SetValueAndExpireTime | database.go:193-219 | as `SetValue`, with the given expiry |
| Db.Database.Remove | database.go:222-238 | `Remove`/`remove`: no-op on an absent key; otherwise deleted from map and list, size subtracted with wrap-around |
| Db.Database.RemoveExpired | database.go:241-250 | removes exactly the expired entries |
| Db.Database.Flush | database.go:253-260 | empty map and list, size 0 |
| Db.Database.Contains | database.go:263-266 | map membership, nothing changes |
| Db.Database.GetSize | database.go:269-272 | `getSize`: sweeps, then reports `db.size` |
| Values.SizeOf | value.go:4-8 | `Size()` dispatched on the variant equals the size the store charges for the value |
| Values.ListSize | types/list.go:15-21 | the accumulator loop is the sum of the items' byte lengths mod 2^64 |
| Values.HashSize | types/hash.go:9-15 | the `range` accumulator is the sum of `len(k)+len(v)` mod 2^64, in any visiting order |
| Values.SetSize | types/set.go:17-23 | the `range` accumulator is the sum of the members' lengths mod 2^64, in any visiting order |
| SkipList.SkipList.constructor | types/skiplist/skiplist.go:148-155 | an empty list: `Length` 0, a head with `maxLevel` nil slots, `maxLevel` predecessor slots |
| SkipList.NewWithMaxLevel | types/skiplist/skiplist.go:143-156 | nil (the panic) exactly when `maxLevel` is outside 1..64; otherwise an empty valid list |
| SkipList.New | types/skiplist/skiplist.go:159-161 | an empty list with `DefaultMaxLevel` levels |
| SkipList.SkipList.Front | types/skiplist/skiplist.go:15-17 | nil iff the list is empty; otherwise the first node, which has the smallest key |
| SkipList.SkipList.GetPrevElementNodes | types/skiplist/skiplist.go:95-108 | every `prevNodesCache[i]` is the last node of level `i` with key below `k`, or the head |
| SkipList.SkipList.WalkLevel | types/skiplist/skiplist.go:99-104 | the inner walk stops at the last node of its level with key below `k`, with `nx` its successor |
| SkipList.SkipList.Get | types/skiplist/skiplist.go:51-68 | nil iff `k` is not held; otherwise the node with key `k`, whose value is the held one |
| SkipList.SkipList.Contains | types/skiplist/skiplist.go:88-90 | true iff `k` is held |
| SkipList.SkipList.RandLevel | types/skiplist/skiplist.go:129-137 | a height in `[1, maxLevel]`, grown while the draws succeed |
| SkipList.SkipList.Set | types/skiplist/skiplist.go:22-48 | content becomes `old[k := v]`; an existing key only has its value replaced (no pointer, key or `Length` change); a new key gets a new node of the drawn height and `Length + 1` |
| SkipList.SkipList.AddNode | types/skiplist/skiplist.go:33-47 | the new node is linked in on each of its levels; the list stays valid and holds `k -> v` |
| SkipList.SkipList.SpliceAll | types/skiplist/skiplist.go:41-44 | after the loop, each level below the height has the node inserted after `prevs[i]` and every level is still a chain |
| SkipList.SkipList.Remove | types/skiplist/skiplist.go:72-85 | content becomes `old - {k}`; a present key's node is unlinked from every level and `Length - 1`; an absent key returns nil and changes nothing |
| SkipList.SkipList.UnlinkAll | types/skiplist/skiplist.go:77-79 | each level of the node has it removed at its position and stays a chain |
| SkipList.SkipList.Key | types/skiplist/type.go:22-24 | a node's key |
| SkipList.SkipList.Value | types/skiplist/type.go:27-29 | a node's value |
| SkipList.SkipList.NextNodesNum | types/skiplist/type.go:31-33 | the number of levels a node is linked on |
| SkipList.SkipList.Next | types/skiplist/type.go:37-39 | a node's level-0 successor, or nil at the end |
| SkipList.SkipList.ElementEntry | types/skiplist/type.go:22-29 | a node's `Key` is held and maps to its `Value` |
| SkipList.SkipList.ElementHeight | types/skiplist/type.go:31-33 | `NextNodesNum` is the node's height, in `[1, maxLevel]`, and the node is on every level below it |
| SkipList.Lookup | types/skiplist/skiplist.go:64-67 | the node the search stops before has key `k` iff `k` is held, and then carries its value |
| SkipList.InsertShape | types/skiplist/skiplist.go:33-47 | after the splice, every level is ascending, a subset of level 0, and holds exactly the nodes tall enough |
| SkipList.RemoveShape | types/skiplist/skiplist.go:76-80 | after the unlink, the shape holds again without the node |
| SkipList.SpliceIn | types/skiplist/skiplist.go:42-43 | one splice inserts the node into its level's chain and leaves the other levels alone |
| SkipList.SpliceOut | types/skiplist/skiplist.go:78 | one unlink removes the node from its level's chain and leaves the other levels alone |
| SkipList.EntriesInsert | types/skiplist/skiplist.go:33-47 | inserting a node with a new key adds exactly that key -> value |
| SkipList.EntriesRemove | types/skiplist/skiplist.go:76-80 | removing a node removes exactly its key |
| SkipList.EntriesUpdate | types/skiplist/skiplist.go:27-29 | replacing a node's value replaces exactly that key's value |
| SkipList.EntriesSize | types/skiplist/type.go:44 | `Length`, the number of level-0 nodes, is the number of keys held |
| Zsets.Zset.constructor | types/zset.go:9-11 | `NewZset()`: an empty set over a fresh skip list (zset.go:11-13 is the same) |
| Zsets.Zset.Add | types/zset.go:17-19 | content becomes `old[score := member]`, so a held score is overwritten and the count kept (zset.go:27-29 is the same) |
| Zsets.Zset.Get | types/zset.go:21-27 | the member and true for a held score, `("", false)` otherwise (zset.go:31-37 is the same) |
| Zsets.Zset.GetRange | types/zset.go:29-38 | the members at the probe scores `start, start+step, …` below `end`, in probe order, and none when `start >= end` whatever the step (zset.go:39-48 is the same) |
| Zsets.ProbeMembers | types/zset.go:29-38 | a member is in the range iff it is stored at some `start + j*step < end` |
| Zsets.Zset.Remove | types/zset.go:40-42 | content becomes `old - {score}`; an absent score changes nothing (zset.go:50-52 is the same) |
| Zsets.Zset.Len | types/zset.go:44-46 | the number of scores held (zset.go:19-21 is the same) |
| Zsets.Zset.Type | zset.go:23-25 | always "Zset" |
| TypesList.NewEmptyList | types/list.go:7-9 | a fresh slice of length 0 |
| TypesList.NewList | types/list.go:11-13 | the same slice, aliased |
| TypesList.Size | types/list.go:15-21 | sum of the elements' byte lengths mod 2^64 |
| TypesList.Len | types/list.go:23-25 | the element count |
| TypesList.Get | types/list.go:27-33 | `l[i]` and no error in range; `""` and an error for `i >= len` |
| TypesList.GetAll | types/list.go:35-37 | the same slice, aliased |
| TypesList.Set | types/list.go:39-46 | in range, writes slot `i` only; out of range, an error and no change |
| TypesList.Add | types/list.go:48-50 | the receiver's copy becomes the list with `s` appended, and the caller's list is unchanged |
| TypesList.Remove | types/list.go:52-58 | out of range, an error and no change; in range, the tail shifts down one slot in place, the length stays and the last element stays |
| TypesList.Shifted | types/list.go:52-58 | what an in-range `Remove(i)` leaves in the caller's slice: the same length, slots below `i` kept, slots from `i` holding their successor, the last slot kept |
| TypesList.ShiftedPrefix | types/list.go:57 | the receiver's shortened slice is the old list without element `i`; the caller's array loses `l[i]` and duplicates the last element |
| Hashes.Hash.constructor | types/hash.go:5-7 | `NewHash()`: empty (hash.go:7-9 is the same) |
| Hashes.Hash.Size | types/hash.go:9-15 | the sum of `len(k)+len(v)` mod 2^64, which is what the cache charges (hash.go:11-17 is the same) |
| Hashes.Hash.Put | types/hash.go:17-19 | inserts or overwrites one key (hash.go:27-29 is the same) |
| Hashes.Hash.Get | types/hash.go:21-24 | the value and true, or `("", false)` for a missing key (hash.go:31-34 is the same) |
| Hashes.Hash.Remove | types/hash.go:26-28 | only the key is removed; a missing key is a no-op (hash.go:36-38 is the same) |
| Hashes.Hash.Len | types/hash.go:30-32 | the number of keys (hash.go:19-21 is the same) |
| Hashes.Hash.Type | hash.go:23-25 | always "Hash" |
| Hashes.PutThenGet | types/hash.go:17-24 | after `Put(k, v)`, `Get(k)` sees `v` and other keys are unaffected; an overwrite keeps `Len` and a new key adds one |
| Sets.Set.constructor | types/set.go:5-7 | `NewEmptySet()`: empty (set.go:7-9 is the same) |
| Sets.Set.NewSet | types/set.go:9-15 | adds each input string in turn, so the set is the distinct inputs (set.go:11-17 is the same) |
| Sets.Set.Size | types/set.go:17-23 | the sum of the members' lengths mod 2^64, which is what the cache charges (set.go:19-25 is the same) |
| Sets.Set.Add | types/set.go:25-27 | idempotent insertion (set.go:27-29 is the same) |
| Sets.Set.Contains | types/set.go:29-32 | membership (set.go:31-34 is the same) |
| Sets.Set.Remove | types/set.go:34-36 | only that member is removed (set.go:36-38 is the same) |
| Sets.Set.Len | types/set.go:46-48 | the number of members (set.go:48-50 is the same) |
| Sets.Set.GetAll | set.go:40-46 | each member exactly once, `Len` strings, in any order |
| Sets.Set.GetAllPadded | types/set.go:38-44 | `2*Len` strings: `Len` empty strings, then each member once |
| Sets.PaddedExample | types/set.go:38-44 | for `{"a"}` the result is `["", "a"]`, which does not list the set |
| Sets.ListsLength | set.go:40-46 | a duplicate-free listing of a set has exactly `Len` elements |
| Sets.Set.Intersect | types/set.go:50-60 | a fresh set holding exactly the common members (set.go:52-62 is the same) |
| Sets.Set.Union | types/set.go:62-71 | a fresh set holding exactly the members of either (set.go:64-73 is the same) |
| Strings.NewPlain | types/string.go:5-7 | the same bytes |
| Strings.PlainSize | types/string.go:9-11 | the byte length as a uint64 |
| Strings.PlainLen | types/string.go:13-15 | the byte length as a uint64 |
| Strings.PlainSizeIsLen | types/string.go:5-15 | `NewString(s)` keeps the bytes of `s`; its `Size` and `Len` agree, and equal what the cache charges for it |
| Strings.NewString | string.go:7-9 | wraps the string |
| Strings.ToString | string.go:23-25 | the wrapped string, the inverse of `NewString` |
| Strings.Size | string.go:11-13 | the byte length mod 2^64, which is what the cache charges |
| Strings.Len | string.go:15-17 | the byte length |
| Strings.Type | string.go:19-21 | always "String" |
| Strings.RoundTrip | string.go:7-25 | `ToString(NewString(s))` is `s`, and `Size` is `Len` reduced modulo 2^64 |
| Bloom.Split | util/bloom.go:27-34 | `h1` is the low 32 bits and `h2` the high 32 bits of the digest; together they give the digest back |
| Bloom.Index | util/bloom.go:40 | the probe with 32-bit wrap-around lies in `[0, size)` |
| Bloom.Slot | util/bloom.go:40 | the `i`-th probe of an element lies in `[0, size)` |
| Bloom.BloomFilter.constructor | util/bloom.go:17-25 | `size` clear bits, `n == 0`, nothing added |
| Bloom.BloomFilter.GetHash | util/bloom.go:27-34 | the split of the element's digest |
| Bloom.BloomFilter.Add | util/bloom.go:37-44 | sets exactly the element's probe bits, clears none, counts the element, and keeps every added element's bits set |
| Bloom.BloomFilter.Contains | util/bloom.go:47-55 | true iff every probe bit is set; always true for an added element (no false negatives); reads only |
| Bloom.BloomFilter.GetEleNum | util/bloom.go:58-60 | the number of `Add` calls |

## Left out

- Locking: the `sync.RWMutex` in mycache.go and database.go is left out, and so is the fact that `get` mutates under a read lock. The model is sequential.
- Time: `time.Now()` is the parameter `now` and `time.Time` is an integer expiry. The sweep compares every entry against one `now`, whereas the Go loop reads the clock once per entry.
- `container/list` and the Go map are modelled by their observable behaviour, as a sequence and a map.
- Stored values are immutable snapshots (`Values.Value`). Changing a value after it has been stored, such as adding to a stored sorted set, is not modelled.
- `Zset.Size` is left out: it calls a skip-list `Size` that is not part of this model. The sorted-set arm of `Values.Value` carries the size it reports. The skip-list `Len` that `Zset.Len` calls is not part of this model either; it is modelled as the list's `Length`.
- zset.go imports a root-package skiplist that is not part of this model. Its sorted set is modelled over the types/skiplist list.
- Skip-list keys and sorted-set scores are integers. `float64` rounding, NaN, and the floating accumulation in `GetRange` are not modelled.
- Zsets.Zset.GetRange requires `step > 0` or `start >= end`: with `step <= 0` and `start < end` the Go loop does not terminate.
- Random heights: the random source, `probabilityTable`, `SetProbability` and the float comparison in `randLevel` are left out. The draw is the parameter `coin`, so only the height bound and the shape of the climb are modelled, not the probabilities. Consequently `Set` and `Zset.Add` take `coin` as an extra argument.
- Skip-list values are strings, which is what the sorted sets store, instead of `interface{}`.
- A removed skip-list node keeps its arena slot, as a removed `*Element` stays allocated. Slots are never reused.
- SkipList.NewWithMaxLevel returns null where the Go code panics.
- The `database` constructor is not part of this model. `Db.Database.constructor` builds an empty database for a given owner and name.
- types/list.go with a negative index is a Go runtime panic. `Get`, `Set` and `Remove` require `i >= 0`.
- Bloom: the FNV-1 hash and its Reset/Write state are the uninterpreted function `hashfn`. The filter requires `size >= 0`, because `make` panics otherwise. `Add` and `Contains` require `uint32(size) != 0` whenever a probe is computed, because the modulo panics otherwise. The 64-bit overflow of the `int` counter `n` is not modelled.
- The width of `int` lengths and counts (`Len`) is not modelled; `uint64` sizes wrap explicitly.
- A character of the model's strings stands for one byte. UTF-8 encoding is not modelled.
- entry.go and value.go only declare `Valuer` and `entry`, which are folded into `Values.Value` and `Lru.Entry`. The `Node` type of types/skiplist/node.go is unused by the skip list and is left out.

## Findings

| source | as written | input that shows it | evidently intended | confidence | as-written member | corrected member |
|---|---|---|---|---|---|---|
| mycache.go:157-160 (also mycache.go:195-199, database.go:159-162, database.go:197-201) | the new value is assigned before `value.Size() - e.value.Size()` is evaluated, so an overwrite never changes `size` | capacity 0: `Set("a", "")`, `Set("a", "x")`, `Remove("a")`: `size` wraps to 2^64-1 and the next `Set` dereferences the nil `Back()` of an empty list | take the old value's size before assigning, so `size` moves by new size minus old size | not executed | Lru.OverwriteThenRemovePanics | Lru.AssignFixedKeepsSizeConsistent |
| types/set.go:38-44 | `make([]string, len(set))` creates `len(set)` empty strings, and the members are appended after them | the set `{"a"}`: `GetAll()` returns `["", "a"]` | `make([]string, 0, len(set))`: each member once, as set.go:40-46 does | not executed | Sets.PaddedExample | Sets.ListsLength |

The first finding's as-written code is `Lru.Assign`, which `Lru.Set` and the `MyCache` and `Database` methods use, so the classes behave like the Go code. The corrected code is `Lru.AssignFixed`. The second finding's as-written code is `Sets.Set.GetAllPadded`; the corrected `Sets.Set.GetAll` is set.go's version.
