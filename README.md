# CacheService: a bounded LRU key-value cache

`CacheService` stores string keys and values in an access-ordered `java.util.LinkedHashMap`.
Every operation behaves as follows:

- **Validation.** `put` refuses a null key or value, and any key or value longer than 256 characters. `get` answers null for a null or over-long key. Empty strings and strings of exactly 256 characters are accepted.
- **Recency.** When `maxEntries` is at least 1, a successful `put` makes its key the most recently used entry. When `maxEntries <= 0`, `put` still returns true, but `removeEldestEntry` drops the new entry itself. A `get` that finds its key makes that key the most recently used. A miss changes nothing.
- **Capacity.** The overridden `removeEldestEntry` drops the least recently used entry when inserting a new key pushes the size above `maxEntries`.
- **Memory pressure.** Every `memoryCheckFrequency`-th accepted `put` reads the heap. When the usage in whole percent is strictly above `memoryThresholdPercentage`, `evictEntries(size / 4)` removes that many entries from the least recently used end.

The model has three files:

- `wrappers.dfy` defines `Option`, which stands in for Java's null.
- `access_order_map.dfy` (module `AccessOrderMap`) models the map:
  - the map is a sequence of entries with distinct keys, least recently used first;
  - the functions are `Upsert` (`put` before the eldest check), `PutEntry` (`put` including `removeEldestEntry`), `Touch` (the reordering done by `get`) and `EvictOldest` (the iterator loop of `evictEntries`);
  - the lemmas relate these functions to lookups and to the map view `ToMap`.
- `cache_service.dfy` (module `Cache`) holds the `CacheService` class:
  - its fields are the three configuration values, `entries` and `operationCounter`;
  - its methods are `Put`, `Get`, `Size`, `CheckAndManageMemoryUsage` and `EvictEntries`;
  - each method is specified by a function on the old state, and lemmas prove the cache's promises about those functions.

The Spring `@Value` fields become constructor parameters. The heap reading becomes a `HeapSample(used, max)` parameter of `Put` and `CheckAndManageMemoryUsage`.

The specification of the system describes a larger design that the code does not implement: sharded storage, frequency-based eviction, a background scheduler, `clear()`, and refusal of empty keys and values. The model follows the code. Entries are kept in a single recency-ordered map, the memory check runs inline in `put`, and empty strings are accepted.

## Model

| member | source | states |
|---|---|---|
| Cache.CacheService.constructor | src/main/java/com/cache/service/CacheService.java:26-38 | The cache starts empty with the counter at 0. The configuration values are stored as given. |
| Cache.CacheService.Put | src/main/java/com/cache/service/CacheService.java:60-80 | Returns true exactly when the key and value are both non-null and at most 256 long. On refusal the entries and the counter are unchanged. On success the counter goes up by one and the new entries are the map's `put` followed by the memory check, run when the new counter is divisible by the frequency. Overwriting an existing key never grows the size. With `maxEntries >= 1`, the key then maps to the value and is the most recent entry. The invariant (distinct keys, size within capacity, lengths within 256) is kept. |
| Cache.CacheService.PutOutcome | src/main/java/com/cache/service/CacheService.java:69-74 | For this cache's configuration, a valid put (with or without the memory check) keeps the keys distinct, the size within capacity and the lengths within limits. It adds at most one entry. With `maxEntries >= 1`, the new entry is the last and is found. |
| Cache.CacheService.Get | src/main/java/com/cache/service/CacheService.java:87-99 | A null or over-long key returns None and changes nothing. Otherwise the result is the stored value, or None on a miss. The new order is `Touch` of the old one, so a miss changes nothing and a hit makes the key the most recent. The map view, the size and the counter are unchanged. |
| Cache.CacheService.Size | src/main/java/com/cache/service/CacheService.java:150-157 | Changes nothing. Returns the number of entries, which equals the number of keys in the map view and lies between 0 and the capacity. |
| Cache.CacheService.CheckAndManageMemoryUsage | src/main/java/com/cache/service/CacheService.java:104-122 | The new entries are the old ones, minus the oldest quarter when the usage percentage is strictly above the threshold. The counter and the invariant are kept. |
| Cache.CacheService.EvictEntries | src/main/java/com/cache/service/CacheService.java:128-144 | The loop removes exactly `EvictCount(count, size)` entries (`min(count, size)`, and none for `count <= 0`). They are taken from the front of the sequence, and the result is that count. |
| Cache.IsValidString | src/main/java/com/cache/service/CacheService.java:62-63 | Definition, no contract of its own: the value is non-null and at most 256 characters long. It is the validation of `put` (lines 62-63) and of `get` (line 89). `Put`'s `ok <==>` clause is stated with it. |
| Cache.UsagePercentage | src/main/java/com/cache/service/CacheService.java:110 | Definition, no contract of its own: `used * 100 / max`, rounded down, for `max > 0`. `PercentageBounds` bounds it. |
| Cache.MemoryCheckDue | src/main/java/com/cache/service/CacheService.java:72 | Definition, no contract of its own: the incremented counter is divisible by the frequency. For a non-negative counter, Dafny's remainder is zero exactly when Java's is. |
| Cache.AfterMemoryCheck | src/main/java/com/cache/service/CacheService.java:113-121 | Definition, no contract of its own: the entries without the oldest `size / 4` when the percentage is strictly above the threshold, and unchanged otherwise. `MemoryCheckShape` and `MemoryCheckLookup` state its properties. |
| Cache.AfterValidPut | src/main/java/com/cache/service/CacheService.java:69-74 | Definition, no contract of its own: the map's `put`, followed by the memory check when it is due. `AfterValidPutInvariant` and `PutThenGet` state its properties. |
| Cache.LruScenario | src/main/java/com/cache/service/CacheService.java:47 | Client method, no ensures: with room for two, it stores `a` and `b`, reads `a`, and asserts that `b` is now the least recently used entry and that the size is 2. |
| Cache.ValidationScenario | src/main/java/com/cache/service/CacheService.java:62-65 | Client method, no ensures: it asserts that a 256-character key with an empty value is accepted, and that a 257-character key or a null key is refused. It also asserts that `get` with a 257-character key returns None. |
| AccessOrderMap.Lookup | src/main/java/com/cache/service/CacheService.java:95 | Definition, no contract of its own: the value of the entry holding the key, or None. It has no effect on the order. `LookupSome` and `LookupInView` state its properties. |
| AccessOrderMap.Upsert | src/main/java/com/cache/service/CacheService.java:69 | Definition, no contract of its own: the entry for the key is unlinked if present, and the new entry is appended at the most recent end. The `Upsert*` lemmas state its properties. |
| AccessOrderMap.Touch | src/main/java/com/cache/service/CacheService.java:47 | Definition, no contract of its own: the access-order reordering of a `get` hit (line 95). The entry moves to the most recent end, and a miss changes nothing. `TouchShape` and `TouchPreserves` state its properties. |
| AccessOrderMap.EvictsEldest | src/main/java/com/cache/service/CacheService.java:50 | Definition, no contract of its own: the overridden `removeEldestEntry` answers true. That happens when the key is new and the size after insertion exceeds `maxEntries`. |
| AccessOrderMap.PutEntry | src/main/java/com/cache/service/CacheService.java:47-52 | Definition, no contract of its own: `Upsert`, then the head entry is dropped when `EvictsEldest` holds. It is the map's `put` at line 69. The `PutEntry*` lemmas state its properties. |
| AccessOrderMap.EvictOldest | src/main/java/com/cache/service/CacheService.java:133-138 | Definition, no contract of its own: the sequence without its first `EvictCount(count, size)` entries. It is the closed form of the iterator loop. `EvictOldestFacts` states its properties. |
| Cache.PercentageBounds | src/main/java/com/cache/service/CacheService.java:105-110 | When `used <= max` and `max > 0`, the integer percentage `used * 100 / max` is between 0 and 100. |
| Cache.MemoryCheckShape | src/main/java/com/cache/service/CacheService.java:113-121 | Eviction happens only when the usage is strictly above the threshold. It then removes exactly `size / 4` entries. The keys stay distinct, no entry is invented, and the most recent entry survives. |
| Cache.MemoryCheckLookup | src/main/java/com/cache/service/CacheService.java:114-120 | An eviction loses exactly the keys of the oldest `size / 4` entries. Every other key keeps its value. |
| Cache.AfterValidPutInvariant | src/main/java/com/cache/service/CacheService.java:49-51 | A valid put keeps the keys distinct. A size within capacity stays within it. The size grows by at most one, and not at all for an existing key. Entries within the length limits stay within them. |
| Cache.PutThenGet | src/main/java/com/cache/service/CacheService.java:69-76 | With `maxEntries >= 1`, after a valid put the key is the most recent entry, with or without a memory check. A lookup of the key returns the stored value (the put-then-get round trip). |
| Cache.LruExample | src/main/java/com/cache/service/CacheService.java:47 | With room for two, putting `a` then `b` gives order `[a, b]`. A `get(a)` then finds `1` and reorders the map to `[b, a]`. |
| Cache.EvictionOrderExample | src/main/java/com/cache/service/CacheService.java:49-51 | Putting `c` into the full map `[b, a]` evicts `b`, the least recently used entry, and leaves `[a, c]`. |
| AccessOrderMap.IndexOf | src/main/java/com/cache/service/CacheService.java:95 | The result is -1 when no entry has the key. Otherwise it is the first position holding the key. |
| AccessOrderMap.LookupSome | src/main/java/com/cache/service/CacheService.java:95 | A lookup finds a value exactly when the key is among the stored keys. |
| AccessOrderMap.LookupInView | src/main/java/com/cache/service/CacheService.java:95 | The lookup in the sequence agrees with the map view. |
| AccessOrderMap.ViewKeys | src/main/java/com/cache/service/CacheService.java:153 | The keys of the map view are the keys of the sequence. |
| AccessOrderMap.KeySetSize | src/main/java/com/cache/service/CacheService.java:153 | With distinct keys, the number of keys equals the number of entries. |
| AccessOrderMap.RemoveKeyFacts | src/main/java/com/cache/service/CacheService.java:69 | Unlinking a key removes that key only. The size drops by one exactly when the key was present. Every other lookup is unchanged. |
| AccessOrderMap.UpsertShape | src/main/java/com/cache/service/CacheService.java:69 | The key becomes the last entry, with the new value. The keys stay distinct. The size grows only for a new key. |
| AccessOrderMap.UpsertLookup | src/main/java/com/cache/service/CacheService.java:69 | After the insert the key maps to the new value. Every other key's lookup is unchanged. |
| AccessOrderMap.UpsertOrder | src/main/java/com/cache/service/CacheService.java:69 | The other entries keep their relative order. |
| AccessOrderMap.UpsertView | src/main/java/com/cache/service/CacheService.java:69 | The map view becomes the old view with the key mapped to the new value. |
| AccessOrderMap.PutEntryShape | src/main/java/com/cache/service/CacheService.java:47-52 | The map's `put` drops an entry only when `removeEldestEntry` holds (a new key, and the size would exceed `maxEntries`), and then exactly one. A size within capacity stays within it. Every surviving entry is old or the new one. With `maxEntries >= 1`, the new entry is the last. |
| AccessOrderMap.PutEntryLookup | src/main/java/com/cache/service/CacheService.java:49-51 | Every other key keeps its lookup, except the eldest entry when it is evicted. With `maxEntries >= 1`, the key maps to the new value. |
| AccessOrderMap.PutEntryOrder | src/main/java/com/cache/service/CacheService.java:47-52 | The other entries keep their relative order. When the eldest entry is evicted, they lose only that entry. |
| AccessOrderMap.TouchShape | src/main/java/com/cache/service/CacheService.java:47 | A `get` hit moves the key to the most recent end and keeps size, keys and entries. A miss leaves the sequence as it was. |
| AccessOrderMap.TouchPreserves | src/main/java/com/cache/service/CacheService.java:95 | A `get` changes no lookup and not the map view. The other entries keep their relative order. |
| AccessOrderMap.EvictOldestFacts | src/main/java/com/cache/service/CacheService.java:133-138 | Exactly `min(count, size)` entries are removed, and none for `count <= 0`. They are the oldest ones. The survivors keep their order and values, and the removed keys are no longer found. With `count < size`, the most recent entry survives. |
| AccessOrderMap.LookupSuffix | src/main/java/com/cache/service/CacheService.java:133-138 | Dropping the `n` oldest entries loses exactly their keys. Every other key keeps its value. |
| AccessOrderMap.EvictCount | src/main/java/com/cache/service/CacheService.java:129-138 | The number of entries the eviction loop can remove is never more than the size. |

## Left out

- Locking: the `ReadWriteLock` is not modelled. Each method is one atomic sequential step. This hides a race in the source: `get` reorders the access-ordered map while holding only the read lock.
- Heap sampling: `MemoryMXBean` is replaced by the `HeapSample` parameter, with `max > 0` required. Not modelled: the JVM's `max == -1` ("undefined") reading, `long` overflow of `used * 100`, and the truncating `(int)` cast.
- Logging: SLF4J logging has no effect on the state and is not modelled.
- Configuration: Spring `@Value` injection is replaced by constructor parameters, and the defaults 100000, 70 and 1000 are not built in.
- Cache.CacheService.Put: `operationCounter` is an unbounded `nat`, so the Java `int` wrap-around after 2^31 - 1 puts is not modelled.
- Cache.CacheService.constructor: requires `memoryCheckFrequency != 0`. In Java a zero frequency makes every valid `put` store its entry and then throw `ArithmeticException`; that behaviour is not modelled.
- Cache.IsValidString: lengths are counted in Dafny characters (Unicode scalar values). Java's `String.length()` counts UTF-16 code units, so a character outside the Basic Multilingual Plane counts once here and twice in Java.
- Cache.CacheService.Put: its contract does not restate the map view. The view follows from the returned entries through `PutEntryLookup`, `UpsertView` and `LookupInView`.
- The HTTP controller and the response DTO: `CacheController.java` and `CacheResponse.java` are not part of this model. They map booleans and nulls onto HTTP responses and have no cache logic.
- Sharding, frequency-based eviction, `clear()` and a background scheduler: these appear in the specification of the system but not in the code, so they are not modelled.
