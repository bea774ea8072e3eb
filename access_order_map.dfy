/**
  The `java.util.LinkedHashMap` that `CacheService` builds in access order and whose
  `removeEldestEntry` it overrides, modelled as a sequence of entries with distinct keys,
  least recently used first and most recently used last.
 */
module AccessOrderMap {
  import opened Wrappers

  /** One mapping of the map: a key and the value stored for it. */
  datatype Entry = Entry(key: string, value: string)

  /** No key occurs twice: the sequence is the iteration order of a map. */
  predicate DistinctKeys(s: seq<Entry>) {
    forall i, j :: 0 <= i < j < |s| ==> s[i].key != s[j].key
  }

  /** The set of keys the map holds (its `keySet()`). */
  function KeySet(s: seq<Entry>): set<string> {
    set i | 0 <= i < |s| :: s[i].key
  }

  /** The map as a plain `map`: the abstract view, without the order. */
  function ToMap(s: seq<Entry>): map<string, string> {
    if s == [] then map[] else ToMap(s[1..])[s[0].key := s[0].value]
  }

  /** Position of the entry for `k`, or -1 when there is none. */
  function IndexOf(s: seq<Entry>, k: string): (i: int)
    ensures -1 <= i < |s|
    ensures 0 <= i ==> s[i].key == k
    ensures forall j :: 0 <= j < |s| && (i < 0 || j < i) ==> s[j].key != k
  {
    if s == [] then -1
    else if s[0].key == k then 0
    else
      var i := IndexOf(s[1..], k);
      if i < 0 then -1 else i + 1
  }

  /** `map.get(k)` without its effect on the order: the stored value, if any. */
  function Lookup(s: seq<Entry>, k: string): Option<string> {
    var i := IndexOf(s, k);
    if i < 0 then None else Some(s[i].value)
  }

  /** The sequence without its `i`-th element. */
  function RemoveAt(s: seq<Entry>, i: int): (r: seq<Entry>)
    requires 0 <= i < |s|
    ensures |r| == |s| - 1
    ensures forall q :: 0 <= q < |r| ==> r[q] == if q < i then s[q] else s[q + 1]
  {
    s[..i] + s[i + 1..]
  }

  /** The sequence without the entry for `k`, if there is one. */
  function RemoveKey(s: seq<Entry>, k: string): seq<Entry> {
    var i := IndexOf(s, k);
    if i < 0 then s else RemoveAt(s, i)
  }

  /**
    `put(k, v)` on an access-ordered map before `removeEldestEntry` is consulted: the old
    entry for `k`, if any, is unlinked and `k` now maps to `v` at the most-recent end.
   */
  function Upsert(s: seq<Entry>, k: string, v: string): seq<Entry> {
    RemoveKey(s, k) + [Entry(k, v)]
  }

  /** The reordering done by a `get(k)` hit on an access-ordered map; a miss changes nothing. */
  function Touch(s: seq<Entry>, k: string): seq<Entry> {
    var i := IndexOf(s, k);
    if i < 0 then s else Upsert(s, k, s[i].value)
  }

  /** Whether `put(k, _)` makes the overridden `removeEldestEntry` answer true. */
  predicate EvictsEldest(s: seq<Entry>, k: string, maxEntries: int) {
    k !in KeySet(s) && |s| + 1 > maxEntries
  }

  /**
    `put(k, v)` on the cache's map: `removeEldestEntry` is asked only after a new key was
    linked in, and then drops the single head entry when the size exceeds `maxEntries`.
   */
  function PutEntry(s: seq<Entry>, k: string, v: string, maxEntries: int): seq<Entry> {
    var u := Upsert(s, k, v);
    if EvictsEldest(s, k, maxEntries) then u[1..] else u
  }

  /** The number of entries a request to evict `count` of `size` entries removes. */
  function EvictCount(count: int, size: nat): (n: nat)
    ensures n <= size
  {
    if count <= 0 then 0 else if count < size then count else size
  }

  /** The map after its first `count` entries in iteration order have been removed. */
  function EvictOldest(s: seq<Entry>, count: int): seq<Entry> {
    s[EvictCount(count, |s|)..]
  }

  /** The bound `removeEldestEntry` keeps the size under: `maxEntries`, or 0 if it is negative. */
  function Capacity(maxEntries: int): nat {
    if maxEntries < 0 then 0 else maxEntries
  }

  // ---------------------------------------------------------------------------------------
  // Lookups

  /** A key is found exactly when some entry holds it. */
  lemma LookupSome(s: seq<Entry>, k: string)
    ensures Lookup(s, k).Some? <==> k in KeySet(s)
  {
    var i := IndexOf(s, k);
    if 0 <= i {
      assert s[i].key in KeySet(s);
    }
  }

  /** In a map with distinct keys the `p`-th entry is the one found for its key. */
  lemma LookupAt(s: seq<Entry>, p: int)
    requires DistinctKeys(s) && 0 <= p < |s|
    ensures Lookup(s, s[p].key) == Some(s[p].value)
  {
    var i := IndexOf(s, s[p].key);
    assert i == p;
  }

  /** `Lookup` agrees with the map view: the order is irrelevant to what is stored. */
  lemma {:induction false} LookupInView(s: seq<Entry>, k: string)
    ensures Lookup(s, k) == if k in ToMap(s) then Some(ToMap(s)[k]) else None
  {
    if s != [] && s[0].key != k {
      LookupInView(s[1..], k);
      var i := IndexOf(s[1..], k);
      if 0 <= i {
        assert s[1..][i] == s[i + 1];
      }
    }
  }

  /** The keys of the map view are the keys of the sequence. */
  lemma ViewKeys(s: seq<Entry>)
    ensures ToMap(s).Keys == KeySet(s)
  {
    forall k ensures k in ToMap(s) <==> k in KeySet(s) {
      LookupInView(s, k);
    }
  }

  /** With distinct keys there are as many keys as entries: `size()` counts the mappings. */
  lemma {:induction false} KeySetSize(s: seq<Entry>)
    requires DistinctKeys(s)
    ensures |KeySet(s)| == |s|
  {
    if s != [] {
      var t := s[1..];
      KeySetSize(t);
      forall j ensures j in KeySet(s) <==> j in KeySet(t) || j == s[0].key {
        if j in KeySet(s) && j != s[0].key {
          var q :| 0 <= q < |s| && s[q].key == j;
          assert t[q - 1] == s[q];
        }
        if j in KeySet(t) {
          var q :| 0 <= q < |t| && t[q].key == j;
          assert s[q + 1] == t[q];
        }
      }
      assert KeySet(s) == KeySet(t) + {s[0].key};
    }
  }

  /** Two sequences that answer every lookup alike have the same map view. */
  lemma SameView(s: seq<Entry>, t: seq<Entry>)
    requires forall j :: Lookup(s, j) == Lookup(t, j)
    ensures ToMap(s) == ToMap(t)
  {
    forall j ensures (j in ToMap(s) <==> j in ToMap(t)) && (j in ToMap(s) ==> ToMap(s)[j] == ToMap(t)[j]) {
      LookupInView(s, j);
      LookupInView(t, j);
    }
    assert ToMap(s).Keys == ToMap(t).Keys;
  }

  /** Appending an entry for another key does not change what is found for `j`. */
  lemma LookupAppend(s: seq<Entry>, e: Entry, j: string)
    requires e.key != j
    ensures Lookup(s + [e], j) == Lookup(s, j)
  {
    var a, b := IndexOf(s + [e], j), IndexOf(s, j);
    if 0 <= b {
      assert (s + [e])[b].key == j;
      assert a == b;
    } else {
      assert forall q :: 0 <= q < |s + [e]| ==> (s + [e])[q].key != j;
    }
  }

  /**
    Dropping the `n` oldest entries loses exactly the keys among them; every other key is
    still found, with its value.
   */
  lemma LookupSuffix(s: seq<Entry>, n: int)
    requires DistinctKeys(s) && 0 <= n <= |s|
    ensures DistinctKeys(s[n..])
    ensures KeySet(s[n..]) == KeySet(s) - KeySet(s[..n])
    ensures forall j :: Lookup(s[n..], j) == if j in KeySet(s[..n]) then None else Lookup(s, j)
  {
    var r := s[n..];
    assert forall q :: 0 <= q < |r| ==> r[q] == s[q + n];
    forall j ensures j in KeySet(r) <==> j in KeySet(s) && j !in KeySet(s[..n]) {
      if j in KeySet(r) {
        var q :| 0 <= q < |r| && r[q].key == j;
        assert s[q + n].key == j;
      }
    }
    forall j ensures Lookup(r, j) == if j in KeySet(s[..n]) then None else Lookup(s, j) {
      if j in KeySet(r) {
        var q :| 0 <= q < |r| && r[q].key == j;
        LookupAt(r, q);
        LookupAt(s, q + n);
      }
    }
  }

  // ---------------------------------------------------------------------------------------
  // Removal and insertion

  /** Every entry left after `RemoveAt` was in the sequence, and the keys stay distinct. */
  lemma RemoveAtElements(s: seq<Entry>, i: int)
    requires DistinctKeys(s) && 0 <= i < |s|
    ensures DistinctKeys(RemoveAt(s, i))
    ensures forall x :: x in RemoveAt(s, i) ==> x in s
  {
    var r := RemoveAt(s, i);
    forall x | x in r ensures x in s {
      var q :| 0 <= q < |r| && r[q] == x;
      assert s[if q < i then q else q + 1] == x;
    }
  }

  /** `RemoveAt` takes out exactly the key of the removed entry. */
  lemma RemoveAtKeys(s: seq<Entry>, i: int)
    requires DistinctKeys(s) && 0 <= i < |s|
    ensures KeySet(RemoveAt(s, i)) == KeySet(s) - {s[i].key}
  {
    var r := RemoveAt(s, i);
    forall j ensures j in KeySet(r) <==> j in KeySet(s) && j != s[i].key {
      if j in KeySet(s) && j != s[i].key {
        var p :| 0 <= p < |s| && s[p].key == j;
        assert r[if p < i then p else p - 1] == s[p];
      }
      if j in KeySet(r) {
        var q :| 0 <= q < |r| && r[q].key == j;
        assert s[if q < i then q else q + 1] == r[q];
      }
    }
  }

  /** `RemoveAt` leaves the lookup of every other key as it was. */
  lemma RemoveAtLookup(s: seq<Entry>, i: int, j: string)
    requires DistinctKeys(s) && 0 <= i < |s| && j != s[i].key
    ensures Lookup(RemoveAt(s, i), j) == Lookup(s, j)
  {
    var r := RemoveAt(s, i);
    RemoveAtElements(s, i);
    RemoveAtKeys(s, i);
    if j in KeySet(r) {
      var q :| 0 <= q < |r| && r[q].key == j;
      LookupAt(r, q);
      LookupAt(s, if q < i then q else q + 1);
    }
  }

  /** Unlinking `k` takes that one key out and leaves every other lookup as it was. */
  lemma RemoveKeyFacts(s: seq<Entry>, k: string)
    requires DistinctKeys(s)
    ensures var r := RemoveKey(s, k);
      && DistinctKeys(r)
      && KeySet(r) == KeySet(s) - {k}
      && |r| == (if k in KeySet(s) then |s| - 1 else |s|)
      && (forall x :: x in r ==> x in s)
      && (forall j :: j != k ==> Lookup(r, j) == Lookup(s, j))
  {
    var i := IndexOf(s, k);
    if 0 <= i {
      RemoveAtElements(s, i);
      RemoveAtKeys(s, i);
      forall j | j != k ensures Lookup(RemoveAt(s, i), j) == Lookup(s, j) {
        RemoveAtLookup(s, i, j);
      }
    }
  }

  /**
    `put(k, v)` before the eldest check: `k` is the most recent entry, it maps to `v`, the
    keys stay distinct, and the size grows only for a new key.
   */
  lemma UpsertShape(s: seq<Entry>, k: string, v: string)
    requires DistinctKeys(s)
    ensures var u := Upsert(s, k, v);
      && DistinctKeys(u)
      && |u| == (if k in KeySet(s) then |s| else |s| + 1)
      && u[|u| - 1] == Entry(k, v)
      && KeySet(u) == KeySet(s) + {k}
      && (forall x :: x in u ==> x in s || x == Entry(k, v))
  {
    var r := RemoveKey(s, k);
    var u := r + [Entry(k, v)];
    RemoveKeyFacts(s, k);
    forall i, j | 0 <= i < j < |u| ensures u[i].key != u[j].key {
      if j == |u| - 1 {
        assert u[i].key == r[i].key && r[i].key in KeySet(r);
      }
    }
    forall j ensures j in KeySet(u) <==> j in KeySet(r) || j == k {
      if j in KeySet(r) {
        var q :| 0 <= q < |r| && r[q].key == j;
        assert u[q] == r[q];
      }
      assert u[|u| - 1].key == k;
    }
  }

  /** `put(k, v)` before the eldest check changes the lookup of `k` and of no other key. */
  lemma UpsertLookup(s: seq<Entry>, k: string, v: string)
    requires DistinctKeys(s)
    ensures forall j :: Lookup(Upsert(s, k, v), j) == if j == k then Some(v) else Lookup(s, j)
  {
    var r, e := RemoveKey(s, k), Entry(k, v);
    UpsertShape(s, k, v);
    RemoveKeyFacts(s, k);
    forall j ensures Lookup(r + [e], j) == if j == k then Some(v) else Lookup(s, j) {
      if j == k {
        LookupAt(r + [e], |r|);
      } else {
        LookupAppend(r, e, j);
      }
    }
  }

  /** `put(k, v)` before the eldest check keeps the relative order of the other entries. */
  lemma UpsertOrder(s: seq<Entry>, k: string, v: string)
    requires DistinctKeys(s)
    ensures RemoveKey(Upsert(s, k, v), k) == RemoveKey(s, k)
  {
    var u := Upsert(s, k, v);
    UpsertShape(s, k, v);
    var i := IndexOf(u, k);
    assert i == |u| - 1 by {
      LookupAt(u, |u| - 1);
    }
    assert RemoveAt(u, i) == RemoveKey(s, k);
  }

  /** A `get(k)` hit moves `k` to the most recent end; a miss leaves the map as it was. */
  lemma TouchShape(s: seq<Entry>, k: string)
    requires DistinctKeys(s)
    ensures var t := Touch(s, k);
      && DistinctKeys(t)
      && |t| == |s|
      && KeySet(t) == KeySet(s)
      && (forall x :: x in t ==> x in s)
      && (k in KeySet(s) ==> t[|t| - 1].key == k)
      && (k !in KeySet(s) ==> t == s)
  {
    var i := IndexOf(s, k);
    if 0 <= i {
      UpsertShape(s, k, s[i].value);
    }
  }

  /**
    A `get(k)` changes no lookup and no other key's position relative to the rest: only
    the recency of `k` changes.
   */
  lemma TouchPreserves(s: seq<Entry>, k: string)
    requires DistinctKeys(s)
    ensures var t := Touch(s, k);
      && (forall j :: Lookup(t, j) == Lookup(s, j))
      && ToMap(t) == ToMap(s)
      && RemoveKey(t, k) == RemoveKey(s, k)
  {
    var i := IndexOf(s, k);
    if 0 <= i {
      UpsertLookup(s, k, s[i].value);
      UpsertOrder(s, k, s[i].value);
      LookupAt(s, i);
      SameView(Touch(s, k), s);
    }
  }

  /** The view after `Upsert` is the old view with `k` mapped to `v`. */
  lemma UpsertView(s: seq<Entry>, k: string, v: string)
    requires DistinctKeys(s)
    ensures ToMap(Upsert(s, k, v)) == ToMap(s)[k := v]
  {
    var u, m := Upsert(s, k, v), ToMap(s)[k := v];
    UpsertLookup(s, k, v);
    forall j ensures (j in ToMap(u) <==> j in m) && (j in m ==> ToMap(u)[j] == m[j]) {
      LookupInView(u, j);
      LookupInView(s, j);
    }
    assert ToMap(u).Keys == m.Keys;
  }

  /**
    The cache's `put(k, v)`: at most one entry is dropped, and only when a new key pushed
    the size past `maxEntries`, so a size within the capacity stays within it; the new
    entry is the most recent one when `maxEntries` is at least 1.
   */
  lemma PutEntryShape(s: seq<Entry>, k: string, v: string, maxEntries: int)
    requires DistinctKeys(s)
    ensures var p := PutEntry(s, k, v, maxEntries);
      && DistinctKeys(p)
      && |p| == (if k in KeySet(s) then |s| else |s| + 1) - (if EvictsEldest(s, k, maxEntries) then 1 else 0)
      && (|s| <= Capacity(maxEntries) ==> |p| <= Capacity(maxEntries))
      && (forall x :: x in p ==> x in s || x == Entry(k, v))
      && (1 <= maxEntries ==> 0 < |p| && p[|p| - 1] == Entry(k, v))
  {
    var u := Upsert(s, k, v);
    UpsertShape(s, k, v);
    if EvictsEldest(s, k, maxEntries) {
      var p := u[1..];
      LookupSuffix(u, 1);
      forall x | x in p ensures x in u {
        var q :| 0 <= q < |p| && p[q] == x;
        assert u[q + 1] == x;
      }
    }
  }

  /**
    After the cache's `put(k, v)`, `k` maps to `v` (when `maxEntries` is at least 1) and
    the only other key that can have gone is the eldest one, evicted by `removeEldestEntry`.
   */
  lemma PutEntryLookup(s: seq<Entry>, k: string, v: string, maxEntries: int)
    requires DistinctKeys(s)
    ensures var p := PutEntry(s, k, v, maxEntries);
      && (forall j :: j != k ==>
            Lookup(p, j) == if EvictsEldest(s, k, maxEntries) && 0 < |s| && j == s[0].key then None else Lookup(s, j))
      && (1 <= maxEntries ==> Lookup(p, k) == Some(v))
  {
    var u := Upsert(s, k, v);
    UpsertShape(s, k, v);
    UpsertLookup(s, k, v);
    if EvictsEldest(s, k, maxEntries) {
      assert RemoveKey(s, k) == s;
      LookupSuffix(u, 1);
      assert KeySet(u[..1]) == {u[0].key} by {
        assert u[..1][0] == u[0];
      }
      if 0 < |s| {
        assert u[0] == s[0];
      }
    }
    if 1 <= maxEntries {
      PutEntryShape(s, k, v, maxEntries);
      var p := PutEntry(s, k, v, maxEntries);
      LookupAt(p, |p| - 1);
    }
  }

  /**
    The cache's `put(k, v)` keeps the relative order of the other entries, minus the
    eldest when it is evicted.
   */
  lemma PutEntryOrder(s: seq<Entry>, k: string, v: string, maxEntries: int)
    requires DistinctKeys(s) && 1 <= maxEntries
    ensures RemoveKey(PutEntry(s, k, v, maxEntries), k) ==
              if EvictsEldest(s, k, maxEntries) then RemoveKey(s, k)[1..] else RemoveKey(s, k)
  {
    UpsertOrder(s, k, v);
    if EvictsEldest(s, k, maxEntries) {
      var u := Upsert(s, k, v);
      var p := u[1..];
      UpsertShape(s, k, v);
      PutEntryShape(s, k, v, maxEntries);
      assert RemoveKey(s, k) == s;
      assert u == s + [Entry(k, v)];
      var i := IndexOf(p, k);
      assert i == |p| - 1 by {
        LookupAt(p, |p| - 1);
      }
      assert RemoveAt(p, i) == s[1..];
    }
  }

  /**
    Evicting `count` entries removes exactly the `EvictCount(count, |s|)` oldest ones; the
    survivors keep their order and their values, and a request for fewer entries than the
    map holds keeps the most recent one.
   */
  lemma EvictOldestFacts(s: seq<Entry>, count: int)
    requires DistinctKeys(s)
    ensures var n, r := EvictCount(count, |s|), EvictOldest(s, count);
      && DistinctKeys(r)
      && |r| == |s| - n
      && (forall q :: 0 <= q < |r| ==> r[q] == s[q + n])
      && (forall x :: x in r ==> x in s)
      && KeySet(r) == KeySet(s) - KeySet(s[..n])
      && (forall j :: Lookup(r, j) == if j in KeySet(s[..n]) then None else Lookup(s, j))
      && (0 < |s| && count < |s| ==> 0 < |r| && r[|r| - 1] == s[|s| - 1])
  {
    var n := EvictCount(count, |s|);
    LookupSuffix(s, n);
    var r := s[n..];
    forall x | x in r ensures x in s {
      var q :| 0 <= q < |r| && r[q] == x;
      assert s[q + n] == x;
    }
  }
}
