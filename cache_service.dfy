/**
  `CacheService`: a bounded LRU key-value cache over an access-ordered map, with length
  validation of keys and values, a capacity bound enforced on every insert, and an
  eviction of the oldest quarter of the entries when a periodic heap sample is above a
  threshold.
 */
module Cache {
  import opened Wrappers
  import opened AccessOrderMap

  /** Longest key or value, in characters, that `put` and `get` accept. */
  const MAX_STRING_LENGTH := 256

  /** The validation `put` applies to its key and its value, and `get` to its key. */
  predicate IsValidString(s: Option<string>) {
    s.Some? && |s.value| <= MAX_STRING_LENGTH
  }

  /** Every stored key and value passed validation. */
  predicate WithinLimits(s: seq<Entry>) {
    forall e :: e in s ==> |e.key| <= MAX_STRING_LENGTH && |e.value| <= MAX_STRING_LENGTH
  }

  /** One reading of the heap: bytes in use and the maximum the heap may grow to. */
  datatype HeapSample = HeapSample(used: nat, max: nat)

  /** The heap usage in whole percent, rounded down. */
  function UsagePercentage(heap: HeapSample): int
    requires heap.max > 0
  {
    heap.used * 100 / heap.max
  }

  /**
    Whether the `counter`-th valid `put` runs the memory check. For a non-negative counter,
    Dafny's remainder is zero exactly when Java's is, whatever the sign of `frequency`.
   */
  predicate MemoryCheckDue(counter: nat, frequency: int)
    requires frequency != 0
  {
    counter % frequency == 0
  }

  /** The entries after a memory check that read `usagePercentage`. */
  function AfterMemoryCheck(s: seq<Entry>, usagePercentage: int, threshold: int): seq<Entry> {
    if usagePercentage > threshold then EvictOldest(s, |s| / 4) else s
  }

  /** The entries after a `put(k, v)` that passed validation. */
  function AfterValidPut(s: seq<Entry>, k: string, v: string, maxEntries: int, threshold: int,
                         checkDue: bool, usagePercentage: int): seq<Entry>
  {
    var t := PutEntry(s, k, v, maxEntries);
    if checkDue then AfterMemoryCheck(t, usagePercentage, threshold) else t
  }

  /** A heap that is not over-full reads between 0 and 100 percent. */
  lemma PercentageBounds(heap: HeapSample)
    requires 0 < heap.max && heap.used <= heap.max
    ensures 0 <= UsagePercentage(heap) <= 100
  {
  }

  /**
    The memory check evicts only when the usage is strictly above the threshold, and then
    exactly the oldest quarter (rounded down) of the entries; the newest entry survives.
   */
  lemma MemoryCheckShape(s: seq<Entry>, usagePercentage: int, threshold: int)
    requires DistinctKeys(s)
    ensures var r := AfterMemoryCheck(s, usagePercentage, threshold);
      && DistinctKeys(r)
      && (forall x :: x in r ==> x in s)
      && |r| == (if usagePercentage > threshold then |s| - |s| / 4 else |s|)
      && (usagePercentage <= threshold ==> r == s)
      && (0 < |s| ==> 0 < |r| && r[|r| - 1] == s[|s| - 1])
  {
    if usagePercentage > threshold {
      var n := |s| / 4;
      assert 0 <= n <= |s| && (0 < |s| ==> n < |s|);
      assert EvictCount(n, |s|) == n;
      EvictOldestFacts(s, n);
    }
  }

  /** The keys a memory eviction loses are exactly those of the oldest quarter. */
  lemma MemoryCheckLookup(s: seq<Entry>, usagePercentage: int, threshold: int)
    requires DistinctKeys(s) && usagePercentage > threshold
    ensures forall j :: Lookup(AfterMemoryCheck(s, usagePercentage, threshold), j) ==
                          if j in KeySet(s[..|s| / 4]) then None else Lookup(s, j)
  {
    var n := |s| / 4;
    assert EvictCount(n, |s|) == n;
    EvictOldestFacts(s, n);
  }

  /**
    A valid `put` keeps the cache's invariant: the keys stay distinct, the entries within
    the length limits, and the size within the capacity; it never adds more than one entry.
   */
  lemma AfterValidPutInvariant(s: seq<Entry>, k: string, v: string, maxEntries: int, threshold: int,
                               checkDue: bool, usagePercentage: int)
    requires DistinctKeys(s)
    ensures var r := AfterValidPut(s, k, v, maxEntries, threshold, checkDue, usagePercentage);
      && DistinctKeys(r)
      && (|s| <= Capacity(maxEntries) ==> |r| <= Capacity(maxEntries))
      && |r| <= (if k in ToMap(s) then |s| else |s| + 1)
      && (WithinLimits(s) && |k| <= MAX_STRING_LENGTH && |v| <= MAX_STRING_LENGTH ==> WithinLimits(r))
  {
    var t := PutEntry(s, k, v, maxEntries);
    PutEntryShape(s, k, v, maxEntries);
    ViewKeys(s);
    if checkDue {
      MemoryCheckShape(t, usagePercentage, threshold);
    }
  }

  /**
    The round trip: after a valid `put(k, v)` with `maxEntries` at least 1, `k` maps to `v`
    and is the most recent entry, whether or not the memory check ran, so the next `get(k)`
    returns `v`.
   */
  lemma PutThenGet(s: seq<Entry>, k: string, v: string, maxEntries: int, threshold: int,
                   checkDue: bool, usagePercentage: int)
    requires DistinctKeys(s) && 1 <= maxEntries
    ensures var r := AfterValidPut(s, k, v, maxEntries, threshold, checkDue, usagePercentage);
      && 0 < |r| && r[|r| - 1] == Entry(k, v)
      && Lookup(r, k) == Some(v)
  {
    var t := PutEntry(s, k, v, maxEntries);
    PutEntryShape(s, k, v, maxEntries);
    if checkDue {
      var r := AfterMemoryCheck(t, usagePercentage, threshold);
      MemoryCheckShape(t, usagePercentage, threshold);
      LookupAt(r, |r| - 1);
    } else {
      LookupAt(t, |t| - 1);
    }
  }

  /**
    The cache. `entries` is the access-ordered map, least recently used first;
    `operationCounter` counts the valid `put` calls.
   */
  class CacheService {
    const maxEntries: int
    const memoryThresholdPercentage: int
    const memoryCheckFrequency: int
    var entries: seq<Entry>
    var operationCounter: nat

    /** The object invariant. */
    ghost predicate Valid()
      reads this
    {
      && memoryCheckFrequency != 0
      && DistinctKeys(entries)
      && |entries| <= Capacity(maxEntries)
      && WithinLimits(entries)
    }

    /** The contents as a map, without the recency order. */
    ghost function View(): map<string, string>
      reads this
    {
      ToMap(entries)
    }

    constructor (maxEntries: int, memoryThresholdPercentage: int, memoryCheckFrequency: int)
      requires memoryCheckFrequency != 0
      ensures Valid()
      ensures this.maxEntries == maxEntries
      ensures this.memoryThresholdPercentage == memoryThresholdPercentage
      ensures this.memoryCheckFrequency == memoryCheckFrequency
      ensures entries == [] && View() == map[] && operationCounter == 0
    {
      this.maxEntries := maxEntries;
      this.memoryThresholdPercentage := memoryThresholdPercentage;
      this.memoryCheckFrequency := memoryCheckFrequency;
      entries := [];
      operationCounter := 0;
    }

    /**
      Stores `value` under `key`. A null or over-long key or value is refused with no effect.
      Otherwise the map is updated, the counter goes up by one, and every
      `memoryCheckFrequency`-th time the heap reading `heap` is checked.
     */
    method Put(key: Option<string>, value: Option<string>, heap: HeapSample) returns (ok: bool)
      requires Valid() && heap.max > 0
      modifies this
      ensures Valid()
      ensures ok <==> IsValidString(key) && IsValidString(value)
      ensures !ok ==> entries == old(entries) && operationCounter == old(operationCounter)
      ensures ok ==> operationCounter == old(operationCounter) + 1
      ensures ok ==> entries == AfterValidPut(old(entries), key.value, value.value, maxEntries,
                                              memoryThresholdPercentage,
                                              MemoryCheckDue(operationCounter, memoryCheckFrequency),
                                              UsagePercentage(heap))
      ensures ok && key.value in old(View()) ==> |entries| <= |old(entries)|
      ensures ok && 1 <= maxEntries ==> Lookup(entries, key.value) == value
      ensures ok && 1 <= maxEntries ==> entries[|entries| - 1] == Entry(key.value, value.value)
    {
      if key.None? || value.None? || |key.value| > MAX_STRING_LENGTH || |value.value| > MAX_STRING_LENGTH {
        return false;
      }
      var k, v := key.value, value.value;
      ghost var before := entries;
      ghost var usagePercentage := UsagePercentage(heap);
      PutEntryShape(entries, k, v, maxEntries);
      entries := PutEntry(entries, k, v, maxEntries);
      operationCounter := operationCounter + 1;
      if operationCounter % memoryCheckFrequency == 0 {
        CheckAndManageMemoryUsage(heap);
        PutOutcome(before, k, v, true, usagePercentage);
      } else {
        PutOutcome(before, k, v, false, usagePercentage);
      }
      ok := true;
    }

    /** The facts about `AfterValidPut` that `Put` promises, for this cache's configuration. */
    lemma PutOutcome(s: seq<Entry>, k: string, v: string, checkDue: bool, usagePercentage: int)
      requires DistinctKeys(s)
      ensures var r := AfterValidPut(s, k, v, maxEntries, memoryThresholdPercentage, checkDue, usagePercentage);
        && DistinctKeys(r)
        && (|s| <= Capacity(maxEntries) ==> |r| <= Capacity(maxEntries))
        && |r| <= (if k in ToMap(s) then |s| else |s| + 1)
        && (WithinLimits(s) && |k| <= MAX_STRING_LENGTH && |v| <= MAX_STRING_LENGTH ==> WithinLimits(r))
        && (1 <= maxEntries ==> 0 < |r| && r[|r| - 1] == Entry(k, v) && Lookup(r, k) == Some(v))
    {
      AfterValidPutInvariant(s, k, v, maxEntries, memoryThresholdPercentage, checkDue, usagePercentage);
      if 1 <= maxEntries {
        PutThenGet(s, k, v, maxEntries, memoryThresholdPercentage, checkDue, usagePercentage);
      }
    }

    /**
      The value stored under `key`, or `None` for a null or over-long key or a miss. A hit
      makes `key` the most recently used entry; nothing else changes.
     */
    method Get(key: Option<string>) returns (r: Option<string>)
      requires Valid()
      modifies this
      ensures Valid()
      ensures operationCounter == old(operationCounter)
      ensures r == if IsValidString(key) then Lookup(old(entries), key.value) else None
      ensures r == if IsValidString(key) && key.value in old(View()) then Some(old(View())[key.value]) else None
      ensures entries == if IsValidString(key) then Touch(old(entries), key.value) else old(entries)
      ensures View() == old(View()) && |entries| == |old(entries)|
      ensures r.None? ==> entries == old(entries)
      ensures r.Some? ==> entries[|entries| - 1].key == key.value
    {
      if key.None? || |key.value| > MAX_STRING_LENGTH {
        return None;
      }
      LookupInView(entries, key.value);
      TouchShape(entries, key.value);
      TouchPreserves(entries, key.value);
      r := Lookup(entries, key.value);
      entries := Touch(entries, key.value);
    }

    /** The number of stored entries. */
    method Size() returns (n: int)
      requires Valid()
      ensures n == |entries| && n == |View()|
      ensures 0 <= n <= Capacity(maxEntries)
    {
      ViewKeys(entries);
      KeySetSize(entries);
      n := |entries|;
    }

    /** Reads the heap sample and evicts the oldest quarter of the entries above the threshold. */
    method CheckAndManageMemoryUsage(heap: HeapSample)
      requires Valid() && heap.max > 0
      modifies this
      ensures Valid()
      ensures operationCounter == old(operationCounter)
      ensures entries == AfterMemoryCheck(old(entries), UsagePercentage(heap), memoryThresholdPercentage)
    {
      var usagePercentage := UsagePercentage(heap);
      if usagePercentage > memoryThresholdPercentage {
        var currentSize := |entries|;
        var entriesToRemove := currentSize / 4;
        var _ := EvictEntries(entriesToRemove);
      }
    }

    /** Removes up to `count` entries from the least recently used end. */
    method EvictEntries(count: int) returns (evicted: nat)
      requires Valid()
      modifies this
      ensures Valid()
      ensures operationCounter == old(operationCounter)
      ensures evicted == EvictCount(count, |old(entries)|)
      ensures entries == EvictOldest(old(entries), count)
    {
      evicted := 0;
      while 0 < |entries| && evicted < count
        invariant evicted <= |old(entries)|
        invariant evicted == 0 || evicted <= count
        invariant entries == old(entries)[evicted..]
        invariant operationCounter == old(operationCounter)
        decreases |entries|
      {
        entries := entries[1..];
        evicted := evicted + 1;
      }
      EvictOldestFacts(old(entries), count);
    }
  }

  /** The entry sequences `LruScenario` passes through, computed from the specification functions. */
  lemma LruExample(usagePercentage: int)
    ensures AfterValidPut([], "a", "1", 2, 70, false, usagePercentage) == [Entry("a", "1")]
    ensures AfterValidPut([Entry("a", "1")], "b", "2", 2, 70, false, usagePercentage)
         == [Entry("a", "1"), Entry("b", "2")]
    ensures Lookup([Entry("a", "1"), Entry("b", "2")], "a") == Some("1")
    ensures Touch([Entry("a", "1"), Entry("b", "2")], "a") == [Entry("b", "2"), Entry("a", "1")]
  {
    var a := [Entry("a", "1")];
    var ab := [Entry("a", "1"), Entry("b", "2")];
    assert IndexOf([], "a") == -1;
    assert IndexOf(a, "b") == -1;
    assert RemoveKey(a, "b") == a;
    assert IndexOf(ab, "a") == 0;
    assert RemoveKey(ab, "a") == [Entry("b", "2")];
  }

  /**
    A client of the specifications above: with room for two entries, storing `a` and `b`
    and then reading `a` makes `b` the least recently used entry.
   */
  method LruScenario(heap: HeapSample)
    requires heap.max > 0
  {
    LruExample(UsagePercentage(heap));
    var cache := new CacheService(2, 70, 1000);
    var ok := cache.Put(Some("a"), Some("1"), heap);
    assert ok && cache.entries == [Entry("a", "1")];
    ok := cache.Put(Some("b"), Some("2"), heap);
    assert cache.entries == [Entry("a", "1"), Entry("b", "2")];
    var r := cache.Get(Some("a"));
    assert r == Some("1");
    assert cache.entries == [Entry("b", "2"), Entry("a", "1")];
    var n := cache.Size();
    assert n == 2;
  }

  /** Continuing `LruScenario`: storing `c` in the full cache evicts `b`, not `a`. */
  lemma EvictionOrderExample()
    ensures PutEntry([Entry("b", "2"), Entry("a", "1")], "c", "3", 2) == [Entry("a", "1"), Entry("c", "3")]
    ensures Lookup([Entry("a", "1"), Entry("c", "3")], "b") == None
  {
    var ba := [Entry("b", "2"), Entry("a", "1")];
    assert IndexOf(ba, "c") == -1;
    assert RemoveKey(ba, "c") == ba;
    assert IndexOf([Entry("a", "1"), Entry("c", "3")], "b") == -1;
  }

  /** A 256-character key and an empty value are accepted; a 257-character key or a null is not. */
  method ValidationScenario(heap: HeapSample)
    requires heap.max > 0
  {
    var cache := new CacheService(100000, 70, 1000);
    var ok := cache.Put(Some(seq(256, _ => 'k')), Some(""), heap);
    assert ok;
    ok := cache.Put(Some(seq(257, _ => 'k')), Some(""), heap);
    assert !ok;
    ok := cache.Put(None, Some("v"), heap);
    assert !ok;
    var r := cache.Get(Some(seq(257, _ => 'k')));
    assert r == None;
  }
}
