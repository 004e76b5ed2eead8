# SLRUMap and SLRUCache in Dafny

This project models the two in-memory bounded map designs of the `nl.basjes.collections` package.

**`SLRUMap`** is the segmented LRU map.
- A fixed array `hashLookup` holds optional buckets. A bucket (`SameHashValueMap`) is a small key-to-entry map. It is created for the hash of the first key that lands in its slot, and it caches the oldest touch time of its entries.
- A global map `data` holds the same entry objects as the buckets.
- An entry (`HashEntry`) carries its value, its last touch time and its bucket.
- `get` touches the entry it finds, and `put` of a new key runs `flushLRU`.
- `flushLRU` repeats eviction passes until at most `capacity` keys are held. Each pass scans the array for the bucket with the smallest cached time. It removes that bucket's entries touched exactly at that time, then drops the bucket or recomputes its cached time.

**`SLRUCache`** is the simpler design: the same array plus `data`, with no touch times and no eviction.

Files:
- `java_int.dfy`: the 32-bit integer pieces of the slot computation.
- `sizing.dfy`: the table-length formulas.
- `slru_map.dfy`: module `LruMap`, for `SLRUMap.java`.
- `slru_cache.dfy`: module `LruCache`, for `SLRUCache.java`.
- `wrappers.dfy`: `Option`.

How the Java is mapped:
- Keys are any type with equality plus a function `hash` into Java's `int`, standing for `hashCode()`. The null key is `None`.
- `System.nanoTime()` becomes a `now` argument. The predicate `Before(now)` says every held entry was touched before `now`, so the clock moves forward from call to call.
- Classes are Dafny classes with the Java fields.
  - Java maps become `map` fields that the methods reassign.
  - `SLRUMap`'s bucket array is an `array` of nullable bucket objects.
  - `SLRUCache`'s buckets are reachable only through their slot, so its array holds bucket maps as `Option` values.
- `Valid()` states the structure's invariants:
  - `data` and the buckets hold the same keys and entry objects;
  - every bucket sits at the slot of its creating hash;
  - no slot holds an empty bucket;
  - a bucket's cached time is a lower bound of its entries' times.
- `Model()` is the map a caller sees. For `SLRUMap` each key maps to its value and touch time (`Cell`); for `SLRUCache` each key maps to its value.
- The main properties:
  - `flushLRU` leaves an LRU flush of what was there (`LruFlushed`): a sub-map, of at most `capacity` keys when the flush had work to do. No evicted entry was touched later than a survivor, and an evicted entry had more than `capacity` entries at least as recent.
  - Termination of the flush loop uses the pair (number of keys held, set of slots whose cached time is stale).

Three behaviours of the code shape the model:
- A bucket's cached oldest time is recomputed eagerly on every touch; there is no dirty flag, and only `remove` leaves a cached time stale.
- In `SLRUMap`, `size()` counts keys that `get` cannot reach. A key whose hash differs from its bucket's creating hash, but which maps to the same slot, is added to that bucket and counted. Afterwards `SameHashValueMap.get` refuses it.
- The flush runs while `size() > capacity`. It removes one bucket's oldest-stamped entries per pass; the returned `removed` counts passes.

## Model

| member | source | states |
|---|---|---|
| JavaInt.Abs | src/main/java/nl/basjes/collections/SLRUMap.java:38 | `Math.abs` is the magnitude for every int except `Integer.MIN_VALUE`, which it returns unchanged |
| JavaInt.Rem | src/main/java/nl/basjes/collections/SLRUMap.java:38 | Java's `%` takes the dividend's sign, stays below the divisor's magnitude, and agrees with Dafny's `%` for a non-negative dividend |
| LruMap.CleanHashCode | src/main/java/nl/basjes/collections/SLRUMap.java:27-32 | the null key hashes to 0 |
| LruMap.HashIndex | src/main/java/nl/basjes/collections/SLRUMap.java:34-39 | the slot is in `[0, length)` for every int hash; `Integer.MIN_VALUE` goes to slot 0; any other hash goes to its magnitude modulo the length |
| LruMap.KeyIndex | src/main/java/nl/basjes/collections/SLRUMap.java:41-43 | a key's slot is in range, and the null key's slot is 0 |
| LruMap.UnguardedIndexNegative | src/main/java/nl/basjes/collections/SLRUMap.java:35-37 | without the remapping of `Integer.MIN_VALUE`, the slot is negative exactly for the lengths that do not divide 2^31 |
| LruMap.HashEntry.constructor | src/main/java/nl/basjes/collections/SLRUMap.java:60-67 | the new entry joins its bucket under its key, carries the value and the current time, and leaves the bucket's cached time exact |
| LruMap.HashEntry.Touch | src/main/java/nl/basjes/collections/SLRUMap.java:69-72 | the touch time becomes the current time, the value is kept, and the bucket's cached time becomes exact |
| LruMap.HashEntry.SetValue | src/main/java/nl/basjes/collections/SLRUMap.java:88-92 | the value is replaced and the previous one returned; the touch time is kept |
| LruMap.SameHashValueMap.constructor | src/main/java/nl/basjes/collections/SLRUMap.java:126-129 | an empty bucket records the creating hash |
| LruMap.SameHashValueMap.Get | src/main/java/nl/basjes/collections/SLRUMap.java:131-137 | an entry is found iff the key is non-null, held, and has the creating key's hash; otherwise the result is null |
| LruMap.SameHashValueMap.Put | src/main/java/nl/basjes/collections/SLRUMap.java:139-142 | the key maps to the given entry; the cached time is kept |
| LruMap.SameHashValueMap.Remove | src/main/java/nl/basjes/collections/SLRUMap.java:144-147 | the key is gone; the cached time is kept, so it may become stale |
| LruMap.SameHashValueMap.Touch | src/main/java/nl/basjes/collections/SLRUMap.java:168-175 | the cached time becomes the minimum touch time of the entries, or 0 when there are none |
| LruMap.SLRUMap.constructor | src/main/java/nl/basjes/collections/SLRUMap.java:183-187 | an empty map with `(int)(capacity / loadFactor)` empty slots |
| LruMap.SLRUMap.Size | src/main/java/nl/basjes/collections/SLRUMap.java:189-192 | the number of keys held, findable or not |
| LruMap.SLRUMap.IsEmpty | src/main/java/nl/basjes/collections/SLRUMap.java:198-201 | holds iff no key is held |
| LruMap.SLRUMap.ContainsKey | src/main/java/nl/basjes/collections/SLRUMap.java:203-206 | holds iff the key is held |
| LruMap.SLRUMap.FindHashEntry | src/main/java/nl/basjes/collections/SLRUMap.java:213-221 | finds the key's entry iff the key is held and its bucket was created for the key's hash |
| LruMap.SLRUMap.Get | src/main/java/nl/basjes/collections/SLRUMap.java:223-231 | a hit returns the value, stamps the entry with the current time (now the newest), and leaves its bucket's time exact; a miss returns null and changes nothing |
| LruMap.SLRUMap.Put | src/main/java/nl/basjes/collections/SLRUMap.java:233-264 | a findable key gets the new value, keeps its touch time, and the old value is returned with no flush. Otherwise null is returned, the key is inserted at `now`, and the flush leaves an LRU flush of the map with the new entry, which survives. The new key is findable iff its slot was empty or its bucket has the key's hash. Every other key that is still held keeps its entry, so it stays findable if it was |
| LruMap.SLRUMap.PutInNewBucket | src/main/java/nl/basjes/collections/SLRUMap.java:238-244 | a bucket created for the key's hash takes the new entry and the empty slot; the model gains the key at `now` |
| LruMap.SLRUMap.PutInBucket | src/main/java/nl/basjes/collections/SLRUMap.java:250-255 | the slot's bucket takes the new entry; the model gains the key at `now` |
| LruMap.SLRUMap.Flushed | src/main/java/nl/basjes/collections/SLRUMap.java:245 | the flush after an insertion is an LRU flush and keeps the just-inserted key; every surviving key keeps its entry |
| LruMap.NewestSurvives | src/main/java/nl/basjes/collections/SLRUMap.java:245 | with capacity at least one, an LRU flush never evicts the entry touched after all others |
| LruMap.SLRUMap.Remove | src/main/java/nl/basjes/collections/SLRUMap.java:266-289 | a findable key is removed from bucket and `data`, and its value returned; every other key keeps its entry, and other slots and cached times are untouched. Otherwise null is returned and nothing changes |
| LruMap.SLRUMap.RemoveFound | src/main/java/nl/basjes/collections/SLRUMap.java:282-288 | the key leaves its bucket and `data` (which is otherwise unchanged), and a bucket left empty leaves its slot; the map stays well formed |
| LruMap.SLRUMap.Clear | src/main/java/nl/basjes/collections/SLRUMap.java:341-347 | no key is held and every slot is null |
| LruMap.SLRUMap.OldestFirst | src/main/java/nl/basjes/collections/SLRUMap.java:298-312 | the bucket with the smallest cached time caches a time no later than any held entry's; if no entry of it carries that time, its cached time is stale |
| LruMap.SLRUMap.FlushPass | src/main/java/nl/basjes/collections/SLRUMap.java:297-331 | one pass of the flush loop keeps the map well formed and the flush ordered, and either removes a key or makes a stale bucket exact |
| LruMap.SLRUMap.EvictInOrder | src/main/java/nl/basjes/collections/SLRUMap.java:311-330 | evicting from the chosen bucket keeps the flush ordered and makes progress |
| LruMap.SLRUMap.EvictOldest | src/main/java/nl/basjes/collections/SLRUMap.java:311-329 | the removed keys are exactly the bucket's entries at its cached time; they are no newer than any held entry; removing none means the bucket's time was stale and is now exact |
| LruMap.SLRUMap.DropStamped | src/main/java/nl/basjes/collections/SLRUMap.java:319-329 | the chosen keys leave bucket and `data`; the bucket is dropped from its own slot when empty, else its time is recomputed |
| LruMap.SLRUMap.RemoveEntries | src/main/java/nl/basjes/collections/SLRUMap.java:320-323 | the listed keys leave both the bucket and `data`, and nothing else changes |
| LruMap.FlushStep | src/main/java/nl/basjes/collections/SLRUMap.java:312-323 | removing kept keys stamped no later than any kept key keeps the LRU ordering conditions |
| LruMap.SLRUMap.FlushLRU | src/main/java/nl/basjes/collections/SLRUMap.java:291-334 | the result is an LRU flush of the map to `capacity`; the surviving entries are the original objects; the count is 0 iff nothing had to go |
| Sizing.DividedTableLengthCovers | src/main/java/nl/basjes/collections/SLRUMap.java:185 | with a load factor of at most one, `(int)(capacity / loadFactor)` gives at least `capacity` slots |
| Sizing.UsableTableNeedsCapacity | src/main/java/nl/basjes/collections/SLRUMap.java:185 | a table with at least one slot comes from a positive capacity |
| Sizing.MultipliedTableLengthEmpty | src/main/java/nl/basjes/collections/SLRUCache.java:114 | `(int)(capacity * loadFactor)` is 0 for capacity 1 and any load factor below one |
| LruCache.HashIndex | src/main/java/nl/basjes/collections/SLRUCache.java:31-40 | the null key goes to slot 0, `Integer.MIN_VALUE` goes to 0, any other hash goes to its magnitude modulo the length; the slot is always in range |
| LruCache.SameSlotAsMap | src/main/java/nl/basjes/collections/SLRUCache.java:31-40 | the cache puts every key in the same slot as `SLRUMap` does |
| LruCache.HashEntry.constructor | src/main/java/nl/basjes/collections/SLRUCache.java:53-57 | the entry records the key, its hash and the value |
| LruCache.HashEntry.SetValue | src/main/java/nl/basjes/collections/SLRUCache.java:73-77 | the value is replaced and the previous one returned |
| LruCache.SLRUCache.constructor | src/main/java/nl/basjes/collections/SLRUCache.java:110-116 | an empty cache with `(int)(capacity * loadFactor)` slots, all empty |
| LruCache.SLRUCache.HeldIffInSlot | src/main/java/nl/basjes/collections/SLRUCache.java:176-227 | a key is held iff it is in the bucket of its slot, and no slot holds an empty bucket |
| LruCache.SLRUCache.Size | src/main/java/nl/basjes/collections/SLRUCache.java:118-121 | the number of keys held |
| LruCache.SLRUCache.IsEmpty | src/main/java/nl/basjes/collections/SLRUCache.java:127-130 | holds iff no key is held |
| LruCache.SLRUCache.FindHashEntry | src/main/java/nl/basjes/collections/SLRUCache.java:156-164 | finds the key's entry iff the key is held |
| LruCache.SLRUCache.Get | src/main/java/nl/basjes/collections/SLRUCache.java:166-173 | returns the held value or null, and changes nothing |
| LruCache.SLRUCache.Put | src/main/java/nl/basjes/collections/SLRUCache.java:175-202 | the model becomes the old model with the key mapped to the value, so no other key is dropped or changed. The old value or null is returned; the size is unchanged or grows by one |
| LruCache.SLRUCache.PutInNewBucket | src/main/java/nl/basjes/collections/SLRUCache.java:180-188 | a one-entry bucket fills the empty slot and the model gains the key |
| LruCache.SLRUCache.PutInBucket | src/main/java/nl/basjes/collections/SLRUCache.java:191-198 | the slot's bucket and `data` gain the key |
| LruCache.SLRUCache.Remove | src/main/java/nl/basjes/collections/SLRUCache.java:204-227 | a held key is removed from the model and its value returned, the size shrinking by one. A bucket left empty leaves its slot. Otherwise null is returned and nothing changes |
| LruCache.SLRUCache.Clear | src/main/java/nl/basjes/collections/SLRUCache.java:234-240 | no key is held, the size is 0 and every slot is empty |
| LruCache.PutGetScenario | src/test/java/nl/basjes/collections/TestBasicMapOperations.java:28-38 | a fresh cache is empty, and `get` after `put` returns the value, repeatedly and after another key was put |
| LruCache.RemoveFirstScenario | src/test/java/nl/basjes/collections/TestBasicMapOperations.java:40-43 | from two held keys, `remove` returns the first key's value once, then null; `get` of it is null; the other key is kept, so the cache is not empty |
| LruCache.RemoveSecondScenario | src/test/java/nl/basjes/collections/TestBasicMapOperations.java:45-48 | from one held key, `remove` returns its value once, then null; `get` of it is null; the cache is then empty |

## Left out

- Locking: `synchronized` methods and blocks are modelled as one sequential object, and races on touch times are not modelled.
- `SLRUMapBackgroundFlush.java` is not part of this model. It starts a background thread per trigger and calls members that `SLRUMap.java` does not define.
- `System.nanoTime()` becomes the `now` argument. The model assumes that it grows from call to call and does not model 64-bit `long` wrap-around.
- The `float` load factor is a `real`; float rounding before the `(int)` cast is not modelled.
- A null key passed to `put` throws in `key.hashCode()`. In `SLRUMap` it reaches a bucket only when slot 0 already holds one: the entry is created and the bucket takes it before the constructor's `key.hashCode()` throws. When slot 0 is empty, the call throws before any bucket exists. `put` takes a non-null key, and that exception path is not modelled.
- `containsValue`, `putAll`, `getCapacity`, `keySet`, `values`, `entrySet`, the entries' and buckets' `equals`, `hashCode` and `toString`, `Serializable`, and the unused `sameKey` and `sameValue` are not modelled. They are a foreign `HashMap` scan, a loop of `put`, a getter, methods that only throw, and `Object` boilerplate.
- Iteration order: the flush removes its chosen keys in any order, since the final state does not depend on it. The bucket scan is modelled in slot order, as written.
- LruMap.SLRUMap.FlushLRU: the result counts passes, not the entries the doc comment promises. The contract states only that it is 0 exactly when no flush was needed; the number of entries removed is not stated.
- LruCache.SLRUCache.constructor: requires `capacity >= 0` and `loadFactor > 0`, since `new HashMap<>(capacity, loadFactor)` throws `IllegalArgumentException` otherwise; that exception path is not modelled. It also requires `(int)(capacity * loadFactor)` to be at least 1. A length of 0 (the Findings row) is excluded: such a cache still answers `size`, `isEmpty`, `containsKey` and `clear`, but every `put`, and every `get` or `remove`, throws: `% 0` at line 39 for a non-null key, an out-of-range index for the null key. A negative length throws at the array creation.
- The cache's `capacity` field is stored and never read by the modelled operations, because the cache has no eviction.
- `TestBasicLRUMapOperations.java`'s eviction assertions run against `SLRUCache`, which never evicts. They are not modelled.

## Findings

| source | as written | input that shows it | evidently intended | confidence | as-written member | corrected member |
|---|---|---|---|---|---|---|
| src/main/java/nl/basjes/collections/SLRUCache.java:114 | the array length is `(int)(capacity * loadFactor)` | `new SLRUCache<>(1)`: 1 * 0.75 truncates to 0 slots, so the first `put`, or `get` of a non-null key, computes `% 0` and throws | `(int)(capacity / loadFactor)`, as in `SLRUMap.java:185`, which gives at least `capacity` slots | not executed | Sizing.MultipliedTableLengthEmpty | Sizing.DividedTableLengthCovers |
