/**
 * The cache table of CachemanServer/Store.cs: a map from key to stored
 * entry and a running total of stored bytes, with lazy TTL expiry on read,
 * replace-on-write, and an eviction sweep (expire, then least recently
 * accessed first) when a write would overflow the configured capacity.
 */
module Storage {
  import opened Wrappers

  /** The fill ratio the LRU pass brings the store down to (0.7), as a rational. */
  const FillRatioNum: nat := 7
  const FillRatioDen: nat := 10

  /** The default configured capacity in bytes (MAX_CACHE_MEMORY). */
  const DefaultMaxCacheMemory: nat := 500_000_000

  /** One stored entry (class Value); times are seconds on the server's clock. */
  datatype Value = Value(data: seq<bv8>, ttl: int, timeAdded: int, lastAccessed: int, numAccesses: int)

  /** An entry with a positive TTL expires once TimeAdded + TTL is not after now. */
  predicate Expired(v: Value, now: int) {
    v.ttl > 0 && v.timeAdded + v.ttl <= now
  }

  /** The entries an expire pass keeps. */
  function Unexpired(m: map<string, Value>, now: int): (r: map<string, Value>)
    ensures forall k :: k in r <==> k in m && !Expired(m[k], now)
    ensures forall k :: k in r ==> r[k] == m[k]
  {
    map k | k in m && !Expired(m[k], now) :: m[k]
  }

  /** Storage above the fill ratio: storedBytes / capacity > 0.7. */
  predicate OverFill(stored: int, capacity: nat) {
    stored * FillRatioDen > FillRatioNum * capacity
  }

  /** The condition of the LRU loop of CacheExpiry. */
  predicate NeedsEviction(stored: int, minSizeNeeded: int, capacity: nat) {
    OverFill(stored, capacity) || stored + minSizeNeeded > capacity
  }

  /** The entry a successful read leaves behind: LastAccessed is now, one more access. */
  function Touched(v: Value, now: int): (r: Value)
    ensures r.data == v.data && r.ttl == v.ttl && r.timeAdded == v.timeAdded
  {
    v.(lastAccessed := now, numAccesses := v.numAccesses + 1)
  }

  /** The table after GetValue: unchanged on a miss, the entry dropped if expired, touched on a hit. */
  function AfterGet(m: map<string, Value>, key: string, now: int): map<string, Value> {
    if key !in m then m
    else if Expired(m[key], now) then m - {key}
    else m[key := Touched(m[key], now)]
  }

  /** Reading again at the same time gives the same outcome: a hit stays a hit, a miss a miss. */
  lemma GetIsRepeatable(m: map<string, Value>, key: string, now: int)
    ensures var m' := AfterGet(m, key, now);
      && (key in m' && !Expired(m'[key], now) <==> key in m && !Expired(m[key], now))
      && (key in m' && !Expired(m'[key], now) ==> m'[key].data == m[key].data)
  {
  }

  /** A read never changes stored data or any other key; only the expired entry it finds disappears. */
  lemma AfterGetKeepsData(m: map<string, Value>, key: string, now: int)
    ensures var m' := AfterGet(m, key, now);
      && (forall k :: k in m' ==> k in m && m'[k].data == m[k].data)
      && (forall k :: k != key ==> (k in m' <==> k in m) && (k in m ==> m'[k] == m[k]))
      && TotalBytes(m') == TotalBytes(m) - (if key in m && Expired(m[key], now) then |m[key].data| else 0)
  {
    if key in m {
      if Expired(m[key], now) {
        TotalBytesRemove(m, key);
      } else {
        TotalBytesReplace(m, key, Touched(m[key], now));
      }
    }
  }

  /** What GetValue returns: the data of a live entry, nothing for a missing or expired one. */
  function Lookup(m: map<string, Value>, key: string, now: int): (r: Option<seq<bv8>>)
    ensures r.Some? <==> key in m && !Expired(m[key], now)
    ensures r.Some? ==> r.value == m[key].data
  {
    if key in m && !Expired(m[key], now) then Some(m[key].data) else None
  }

  /**
   * Reading back an entry SetValue just stored at time `added`: the read
   * returns its data and keeps the entry until the TTL has run out, and from
   * then on returns nothing and drops the entry.
   */
  lemma ReadAfterStore(m: map<string, Value>, key: string, data: seq<bv8>, ttl: int, added: int, now: int)
    requires added <= now
    ensures var m' := m[key := Value(data, ttl, added, added, 0)];
      && (Lookup(m', key, now) == Some(data) <==> !(0 < ttl <= now - added))
      && (Lookup(m', key, now) != Some(data) ==> Lookup(m', key, now) == None)
      && (key in AfterGet(m', key, now) <==> !(0 < ttl <= now - added))
  {
  }

  // ---------------------------------------------------------------------
  // The byte total
  // ---------------------------------------------------------------------

  ghost function SumBytes(m: map<string, Value>, keys: set<string>): nat
    requires keys <= m.Keys
    decreases keys
  {
    if keys == {} then 0
    else
      var k :| k in keys;
      |m[k].data| + SumBytes(m, keys - {k})
  }

  /** The sum of the data lengths of all entries: what _storedBytes must equal. */
  ghost function TotalBytes(m: map<string, Value>): nat {
    SumBytes(m, m.Keys)
  }

  lemma {:induction false} SumBytesRemove(m: map<string, Value>, keys: set<string>, k: string)
    requires keys <= m.Keys && k in keys
    ensures SumBytes(m, keys) == |m[k].data| + SumBytes(m, keys - {k})
    decreases keys
  {
    var j :| j in keys && SumBytes(m, keys) == |m[j].data| + SumBytes(m, keys - {j});
    if j != k {
      SumBytesRemove(m, keys - {j}, k);
      SumBytesRemove(m, keys - {k}, j);
      assert keys - {j} - {k} == keys - {k} - {j};
    }
  }

  lemma {:induction false} SumBytesAgree(m1: map<string, Value>, m2: map<string, Value>, keys: set<string>)
    requires keys <= m1.Keys && keys <= m2.Keys
    requires forall k :: k in keys ==> |m1[k].data| == |m2[k].data|
    ensures SumBytes(m1, keys) == SumBytes(m2, keys)
    decreases keys
  {
    if keys != {} {
      var k :| k in keys && SumBytes(m1, keys) == |m1[k].data| + SumBytes(m1, keys - {k});
      SumBytesRemove(m2, keys, k);
      SumBytesAgree(m1, m2, keys - {k});
    }
  }

  /** Removing an entry takes its data length off the total. */
  lemma TotalBytesRemove(m: map<string, Value>, k: string)
    requires k in m
    ensures TotalBytes(m - {k}) + |m[k].data| == TotalBytes(m)
  {
    SumBytesRemove(m, m.Keys, k);
    assert (m - {k}).Keys == m.Keys - {k};
    SumBytesAgree(m - {k}, m, m.Keys - {k});
  }

  /** Adding an entry under a fresh key adds its data length to the total. */
  lemma TotalBytesInsert(m: map<string, Value>, k: string, v: Value)
    requires k !in m
    ensures TotalBytes(m[k := v]) == TotalBytes(m) + |v.data|
  {
    var m' := m[k := v];
    SumBytesRemove(m', m'.Keys, k);
    assert m'.Keys - {k} == m.Keys;
    SumBytesAgree(m', m, m.Keys);
  }

  /** Replacing an entry by one with data of the same length keeps the total. */
  lemma TotalBytesReplace(m: map<string, Value>, k: string, v: Value)
    requires k in m && |v.data| == |m[k].data|
    ensures TotalBytes(m[k := v]) == TotalBytes(m)
  {
    var m' := m[k := v];
    SumBytesRemove(m', m'.Keys, k);
    SumBytesRemove(m, m.Keys, k);
    assert m'.Keys == m.Keys;
    SumBytesAgree(m', m, m.Keys - {k});
  }

  lemma TotalBytesEmpty(m: map<string, Value>)
    requires m.Keys == {}
    ensures TotalBytes(m) == 0
  {
  }

  // ---------------------------------------------------------------------
  // Lists of entries
  // ---------------------------------------------------------------------

  function KeysOf(l: seq<(string, Value)>): set<string> {
    set i | 0 <= i < |l| :: l[i].0
  }

  lemma KeysOfAppend(l: seq<(string, Value)>, e: (string, Value))
    ensures KeysOf(l + [e]) == KeysOf(l) + {e.0}
  {
    var l' := l + [e];
    forall k | k in KeysOf(l) ensures k in KeysOf(l') {
      var i :| 0 <= i < |l| && l[i].0 == k;
      assert l'[i].0 == k;
    }
    assert l'[|l|].0 == e.0;
  }

  ghost predicate DistinctKeys(l: seq<(string, Value)>) {
    forall i, j :: 0 <= i < j < |l| ==> l[i].0 != l[j].0
  }

  /** The list holds every entry of the map exactly once. */
  ghost predicate ListsExactly(l: seq<(string, Value)>, m: map<string, Value>) {
    && (forall i :: 0 <= i < |l| ==> l[i].0 in m && m[l[i].0] == l[i].1)
    && KeysOf(l) == m.Keys
    && DistinctKeys(l)
  }

  /** Ascending by LastAccessed, the order GetSortedValues sorts in. */
  ghost predicate SortedByAccess(l: seq<(string, Value)>) {
    forall i, j :: 0 <= i < j < |l| ==> l[i].1.lastAccessed <= l[j].1.lastAccessed
  }

  /** A nonempty set of keys has a least recently accessed member. */
  lemma {:induction false} LeastRecentExists(m: map<string, Value>, keys: set<string>)
    requires keys <= m.Keys && keys != {}
    ensures exists k :: k in keys && forall j :: j in keys ==> m[k].lastAccessed <= m[j].lastAccessed
    decreases keys
  {
    var x :| x in keys;
    if keys != {x} {
      LeastRecentExists(m, keys - {x});
      var y :| y in keys - {x} && forall j :: j in keys - {x} ==> m[y].lastAccessed <= m[j].lastAccessed;
      if m[x].lastAccessed <= m[y].lastAccessed {
        assert forall j :: j in keys ==> m[x].lastAccessed <= m[j].lastAccessed;
      } else {
        assert forall j :: j in keys ==> m[y].lastAccessed <= m[j].lastAccessed;
      }
    } else {
      assert forall j :: j in keys ==> j == x;
    }
  }

  lemma DropHead(l: seq<(string, Value)>, m: map<string, Value>)
    requires ListsExactly(l, m) && l != []
    ensures ListsExactly(l[1..], m - {l[0].0})
  {
    var t := l[1..];
    forall k | k in KeysOf(t) ensures k in (m - {l[0].0}).Keys {
      var i :| 0 <= i < |t| && t[i].0 == k;
      assert l[i + 1].0 == k;
    }
    forall k | k in (m - {l[0].0}).Keys ensures k in KeysOf(t) {
      var i :| 0 <= i < |l| && l[i].0 == k;
      assert i != 0;
      assert t[i - 1].0 == k;
    }
  }

  /** Evicting the head of a sorted listing: the rest lists the rest, and the head was least recent. */
  lemma EvictHead(l: seq<(string, Value)>, m: map<string, Value>)
    requires ListsExactly(l, m) && SortedByAccess(l) && l != []
    ensures l[0].0 in m && m[l[0].0] == l[0].1
    ensures ListsExactly(l[1..], m - {l[0].0}) && SortedByAccess(l[1..])
    ensures forall k :: k in m && k != l[0].0 ==> l[0].1.lastAccessed <= m[k].lastAccessed
    ensures TotalBytes(m - {l[0].0}) + |l[0].1.data| == TotalBytes(m)
  {
    forall k | k in m && k != l[0].0 ensures l[0].1.lastAccessed <= m[k].lastAccessed {
      var i :| 0 <= i < |l| && l[i].0 == k;
      assert i != 0;
    }
    DropHead(l, m);
    TotalBytesRemove(m, l[0].0);
  }

  /** The total data length of a list of entries. */
  function BytesOf(l: seq<(string, Value)>): nat {
    if l == [] then 0 else BytesOf(l[..|l| - 1]) + |l[|l| - 1].1.data|
  }

  /**
   * `evicted` is what an LRU pass took out of `before` to leave `after`:
   * entries of `before`, each once, in ascending LastAccessed order, none
   * accessed later than any survivor, and exactly the entries that are gone.
   */
  ghost predicate EvictedInOrder(evicted: seq<(string, Value)>, before: map<string, Value>, after: map<string, Value>) {
    && (forall i :: 0 <= i < |evicted| ==> evicted[i].0 in before && before[evicted[i].0] == evicted[i].1)
    && DistinctKeys(evicted)
    && SortedByAccess(evicted)
    && after == before - KeysOf(evicted)
    && (forall i, k :: 0 <= i < |evicted| && k in after ==> evicted[i].1.lastAccessed <= after[k].lastAccessed)
  }

  /**
   * The loop condition of the LRU pass held before each eviction: starting
   * from `stored` bytes, no entry of `evicted` was taken once the store was
   * back within the fill ratio with room for `minSizeNeeded` bytes.
   */
  ghost predicate EachEvictionNeeded(evicted: seq<(string, Value)>, stored: int, minSizeNeeded: int, capacity: nat) {
    forall i :: 0 <= i < |evicted| ==> NeedsEviction(stored - BytesOf(evicted[..i]), minSizeNeeded, capacity)
  }

  /**
   * What an LRU pass evicts is a prefix of a sorted exact listing of the
   * table it started from: followed by any sorted listing of the survivors,
   * it lists the original table exactly and in LastAccessed order.
   */
  lemma EvictedIsSortedPrefix(evicted: seq<(string, Value)>, before: map<string, Value>,
                              after: map<string, Value>, rest: seq<(string, Value)>)
    requires EvictedInOrder(evicted, before, after)
    requires ListsExactly(rest, after) && SortedByAccess(rest)
    ensures ListsExactly(evicted + rest, before) && SortedByAccess(evicted + rest)
  {
    PrefixEntries(evicted, before, after, rest);
    PrefixKeys(evicted, before, after, rest);
    PrefixOrder(evicted, before, after, rest);
  }

  lemma PrefixEntries(evicted: seq<(string, Value)>, before: map<string, Value>,
                      after: map<string, Value>, rest: seq<(string, Value)>)
    requires EvictedInOrder(evicted, before, after)
    requires ListsExactly(rest, after)
    ensures forall i :: 0 <= i < |evicted + rest| ==>
              (evicted + rest)[i].0 in before && before[(evicted + rest)[i].0] == (evicted + rest)[i].1
  {
    var l := evicted + rest;
    forall i | 0 <= i < |l| ensures l[i].0 in before && before[l[i].0] == l[i].1 {
      if i >= |evicted| {
        assert l[i] == rest[i - |evicted|];
      }
    }
  }

  lemma PrefixKeys(evicted: seq<(string, Value)>, before: map<string, Value>,
                   after: map<string, Value>, rest: seq<(string, Value)>)
    requires EvictedInOrder(evicted, before, after)
    requires ListsExactly(rest, after)
    ensures KeysOf(evicted + rest) == before.Keys
  {
    var l := evicted + rest;
    forall k | k in KeysOf(l) ensures k in before {
      var i :| 0 <= i < |l| && l[i].0 == k;
      if i >= |evicted| {
        assert l[i] == rest[i - |evicted|];
      }
    }
    forall k | k in before ensures k in KeysOf(l) {
      if k in KeysOf(evicted) {
        var i :| 0 <= i < |evicted| && evicted[i].0 == k;
        assert l[i].0 == k;
      } else {
        assert k in after.Keys;
        var i :| 0 <= i < |rest| && rest[i].0 == k;
        assert l[|evicted| + i].0 == k;
      }
    }
  }

  lemma PrefixOrder(evicted: seq<(string, Value)>, before: map<string, Value>,
                    after: map<string, Value>, rest: seq<(string, Value)>)
    requires EvictedInOrder(evicted, before, after)
    requires ListsExactly(rest, after) && SortedByAccess(rest)
    ensures DistinctKeys(evicted + rest) && SortedByAccess(evicted + rest)
  {
    var l := evicted + rest;
    forall i, j | 0 <= i < j < |l| ensures l[i].0 != l[j].0 && l[i].1.lastAccessed <= l[j].1.lastAccessed {
      if j >= |evicted| {
        var r := rest[j - |evicted|];
        assert l[j] == r;
        assert r.0 in after && after[r.0] == r.1;
        if i < |evicted| {
          assert evicted[i].0 in KeysOf(evicted);
          assert l[i] == evicted[i];
        } else {
          assert l[i] == rest[i - |evicted|];
        }
      }
    }
  }

  /**
   * One eviction of the LRU pass keeps what the pass promises: taking the
   * head of a sorted listing of the current table extends the evicted list
   * in order, and the rest of the listing lists what is left.
   */
  lemma EvictStep(before: map<string, Value>, evicted: seq<(string, Value)>, m: map<string, Value>, l: seq<(string, Value)>)
    requires EvictedInOrder(evicted, before, m)
    requires ListsExactly(l, m) && SortedByAccess(l) && l != []
    ensures EvictedInOrder(evicted + [l[0]], before, m - {l[0].0})
    ensures ListsExactly(l[1..], m - {l[0].0}) && SortedByAccess(l[1..])
    ensures TotalBytes(m - {l[0].0}) + |l[0].1.data| == TotalBytes(m)
    ensures BytesOf(evicted + [l[0]]) == BytesOf(evicted) + |l[0].1.data|
  {
    EvictHead(l, m);
    var e := l[0];
    var ev := evicted + [e];
    var m' := m - {e.0};
    assert ev[..|ev| - 1] == evicted;
    assert e.0 in m;
    assert e.0 !in KeysOf(evicted);
    KeysOfAppend(evicted, e);
    assert m' == before - KeysOf(ev);
    forall i, j | 0 <= i < j < |ev| ensures ev[i].0 != ev[j].0 && ev[i].1.lastAccessed <= ev[j].1.lastAccessed {
      if j == |evicted| {
        assert evicted[i].0 in KeysOf(evicted);
      }
    }
    forall i, k | 0 <= i < |ev| && k in m' ensures ev[i].1.lastAccessed <= m'[k].lastAccessed {
      assert k in m;
    }
  }

  /** An eviction taken while the loop condition holds keeps every eviction needed. */
  lemma EvictionNeededStep(evicted: seq<(string, Value)>, e: (string, Value), stored: int, minSizeNeeded: int, capacity: nat)
    requires EachEvictionNeeded(evicted, stored, minSizeNeeded, capacity)
    requires NeedsEviction(stored - BytesOf(evicted), minSizeNeeded, capacity)
    ensures EachEvictionNeeded(evicted + [e], stored, minSizeNeeded, capacity)
  {
    var ev := evicted + [e];
    forall i | 0 <= i < |ev| ensures NeedsEviction(stored - BytesOf(ev[..i]), minSizeNeeded, capacity) {
      assert ev[..i] == evicted[..i];
      if i == |evicted| {
        assert evicted[..i] == evicted;
      }
    }
  }

  // ---------------------------------------------------------------------
  // The store
  // ---------------------------------------------------------------------

  /**
   * Store: `values` is the _values dictionary, `storedBytes` the running
   * total, `capacity` the configured MAX_CACHE_MEMORY.
   */
  class Store {
    var values: map<string, Value>
    var storedBytes: int
    const capacity: nat

    /** The running total is the sum of the stored lengths and within capacity. */
    ghost predicate Valid()
      reads this
    {
      0 < capacity && storedBytes == TotalBytes(values) && storedBytes <= capacity
    }

    constructor (maxCacheMemory: nat)
      requires maxCacheMemory > 0
      ensures Valid() && values == map[] && storedBytes == 0 && capacity == maxCacheMemory
    {
      values := map[];
      storedBytes := 0;
      capacity := maxCacheMemory;
    }

    /**
     * GetValue: a missing key reads as None; an expired entry is removed and
     * reads as None; otherwise the data is returned, LastAccessed becomes
     * now and NumAccesses goes up by one, and nothing else changes.
     */
    method GetValue(key: string, now: int) returns (data: Option<seq<bv8>>)
      requires Valid()
      modifies this
      ensures Valid()
      ensures key !in old(values) ==> data == None && values == old(values)
      ensures key in old(values) && Expired(old(values)[key], now) ==>
                data == None && values == old(values) - {key}
      ensures key in old(values) && !Expired(old(values)[key], now) ==>
                && data == Some(old(values)[key].data)
                && values == old(values)[key := old(values)[key].(lastAccessed := now,
                                                                 numAccesses := old(values)[key].numAccesses + 1)]
      ensures values == AfterGet(old(values), key, now)
      ensures data == Lookup(old(values), key, now)
    {
      if key !in values {
        return None;
      }
      var value := values[key];
      if value.ttl > 0 {
        if value.timeAdded + value.ttl <= now {
          var _ := RemoveValue(key);
          return None;
        }
      }
      var touched := Touched(value, now);
      TotalBytesReplace(values, key, touched);
      values := values[key := touched];
      return Some(value.data);
    }

    /**
     * RemoveValue: reports whether the key was present; removes only that
     * key and takes its data length off the total.
     */
    method RemoveValue(key: string) returns (found: bool)
      requires Valid()
      modifies this
      ensures Valid()
      ensures found == (key in old(values))
      ensures values == old(values) - {key}
      ensures storedBytes == old(storedBytes) - (if found then |old(values)[key].data| else 0)
    {
      if key !in values {
        assert values - {key} == values;
        return false;
      }
      var value := values[key];
      TotalBytesRemove(values, key);
      values := values - {key};
      storedBytes := storedBytes - |value.data|;
      return true;
    }

    /**
     * GetSortedValues: every entry, exactly once, in ascending LastAccessed
     * order (ties in any order).
     */
    method GetSortedValues() returns (sortedList: seq<(string, Value)>)
      ensures ListsExactly(sortedList, values)
      ensures SortedByAccess(sortedList)
    {
      sortedList := [];
      var remaining := values.Keys;
      while remaining != {}
        invariant remaining <= values.Keys
        invariant forall i :: 0 <= i < |sortedList| ==>
                    sortedList[i].0 in values && values[sortedList[i].0] == sortedList[i].1
        invariant KeysOf(sortedList) == values.Keys - remaining
        invariant DistinctKeys(sortedList)
        invariant SortedByAccess(sortedList)
        invariant forall i, k :: 0 <= i < |sortedList| && k in remaining ==>
                    sortedList[i].1.lastAccessed <= values[k].lastAccessed
        decreases remaining
      {
        LeastRecentExists(values, remaining);
        var key :| key in remaining && forall k :: k in remaining ==> values[key].lastAccessed <= values[k].lastAccessed;
        assert key !in KeysOf(sortedList);
        KeysOfAppend(sortedList, (key, values[key]));
        sortedList := sortedList + [(key, values[key])];
        remaining := remaining - {key};
      }
    }

    /**
     * CacheExpiry: first removes every expired entry, then evicts entries in
     * ascending LastAccessed order while the store is above the fill ratio
     * or `minSizeNeeded` more bytes would not fit, and stops as soon as
     * neither holds. It throws (ok false, the store left empty) when the
     * list of entries runs out first, which happens exactly when
     * `minSizeNeeded` exceeds the capacity. `evicted` is the ghost record of
     * the LRU evictions.
     */
    method CacheExpiry(minSizeNeeded: nat, now: int) returns (ok: bool, ghost evicted: seq<(string, Value)>)
      requires Valid()
      modifies this
      ensures Valid()
      ensures ok <==> minSizeNeeded <= capacity
      ensures !ok ==> values == map[]
      ensures EvictedInOrder(evicted, Unexpired(old(values), now), values)
      ensures EachEvictionNeeded(evicted, TotalBytes(Unexpired(old(values), now)), minSizeNeeded, capacity)
      ensures storedBytes == TotalBytes(Unexpired(old(values), now)) - BytesOf(evicted)
      ensures ok ==> !NeedsEviction(storedBytes, minSizeNeeded, capacity)
    {
      RemoveExpired(now);
      ok, evicted := EvictLeastRecent(minSizeNeeded);
    }

    /** The first pass of CacheExpiry: collect the expired entries, then delete them. */
    method RemoveExpired(now: int)
      requires Valid()
      modifies this
      ensures Valid()
      ensures values == Unexpired(old(values), now)
    {
      ghost var before := values;
      var deleteList: seq<(string, Value)> := [];
      var keys := values.Keys;
      while keys != {}
        invariant values == before && storedBytes == TotalBytes(values)
        invariant keys <= values.Keys
        invariant forall i :: 0 <= i < |deleteList| ==>
                    deleteList[i].0 in values && values[deleteList[i].0] == deleteList[i].1
        invariant DistinctKeys(deleteList)
        invariant KeysOf(deleteList) == set k | k in values && k !in keys && Expired(values[k], now)
        decreases keys
      {
        var key :| key in keys;
        var value := values[key];
        ghost var expiredSoFar := set k | k in values && k !in keys && Expired(values[k], now);
        ghost var expiredNext := set k | k in values && k !in keys - {key} && Expired(values[k], now);
        if value.ttl > 0 && value.timeAdded + value.ttl <= now {
          assert key !in KeysOf(deleteList);
          assert expiredNext == expiredSoFar + {key};
          KeysOfAppend(deleteList, (key, value));
          deleteList := deleteList + [(key, value)];
        } else {
          assert expiredNext == expiredSoFar;
        }
        keys := keys - {key};
      }
      assert KeysOf(deleteList[..0]) == {};
      for i := 0 to |deleteList|
        invariant values == before - KeysOf(deleteList[..i])
        invariant storedBytes == TotalBytes(values) && storedBytes <= capacity
      {
        var key := deleteList[i].0;
        assert key !in KeysOf(deleteList[..i]);
        assert deleteList[..i + 1] == deleteList[..i] + [deleteList[i]];
        KeysOfAppend(deleteList[..i], deleteList[i]);
        TotalBytesRemove(values, key);
        storedBytes := storedBytes - |deleteList[i].1.data|;
        values := values - {key};
      }
      assert deleteList[..|deleteList|] == deleteList;
    }

    /**
     * The second pass of CacheExpiry: evict in ascending LastAccessed order
     * exactly while the loop condition holds.
     */
    method EvictLeastRecent(minSizeNeeded: nat) returns (ok: bool, ghost evicted: seq<(string, Value)>)
      requires Valid()
      modifies this
      ensures Valid()
      ensures ok <==> minSizeNeeded <= capacity
      ensures !ok ==> values == map[]
      ensures EvictedInOrder(evicted, old(values), values)
      ensures EachEvictionNeeded(evicted, old(storedBytes), minSizeNeeded, capacity)
      ensures storedBytes == old(storedBytes) - BytesOf(evicted)
      ensures ok ==> !NeedsEviction(storedBytes, minSizeNeeded, capacity)
    {
      ghost var before := values;
      evicted := [];
      assert before - KeysOf(evicted) == before;
      var sortedList: seq<(string, Value)> := [];
      var haveSorted := false;
      while NeedsEviction(storedBytes, minSizeNeeded, capacity)
        invariant storedBytes == TotalBytes(values)
        invariant storedBytes == old(storedBytes) - BytesOf(evicted)
        invariant EvictedInOrder(evicted, before, values)
        invariant EachEvictionNeeded(evicted, old(storedBytes), minSizeNeeded, capacity)
        invariant !haveSorted ==> evicted == []
        invariant haveSorted ==> ListsExactly(sortedList, values) && SortedByAccess(sortedList)
        decreases !haveSorted, |sortedList|
      {
        if !haveSorted {
          sortedList := GetSortedValues();
          haveSorted := true;
        }
        if sortedList == [] {
          // sortedList[0] throws: the store is empty and the new item still does not fit
          assert values.Keys == {};
          assert values == map[];
          return false, evicted;
        }
        var (key, value) := sortedList[0];
        EvictStep(before, evicted, values, sortedList);
        EvictionNeededStep(evicted, (key, value), old(storedBytes), minSizeNeeded, capacity);
        values := values - {key};
        storedBytes := storedBytes - |value.data|;
        evicted := evicted + [(key, value)];
        sortedList := sortedList[1..];
      }
      return true, evicted;
    }

    /**
     * SetValue: removes any entry for the key, runs the eviction sweep when
     * the new data would overflow the capacity, then stores the new entry.
     * Fails (ok false) exactly when the data alone exceeds the capacity.
     * `evicted` is the ghost record of the sweep's LRU evictions.
     */
    method SetValue(key: string, data: seq<bv8>, ttl: int, now: int) returns (ok: bool, ghost evicted: seq<(string, Value)>)
      requires Valid()
      modifies this
      ensures Valid()
      ensures ok <==> |data| <= capacity
      ensures ok ==> key in values && values[key] == Value(data, ttl, now, now, 0)
      ensures !ok ==> values == map[]
      ensures forall k :: k in values && k != key ==> k in old(values) && values[k] == old(values)[k]
      ensures !Sweeps(old(values), old(storedBytes), key, |data|, capacity) ==>
                evicted == [] && values == old(values)[key := Value(data, ttl, now, now, 0)]
      ensures Sweeps(old(values), old(storedBytes), key, |data|, capacity) ==>
                var survivors := Unexpired(old(values) - {key}, now);
                && EvictedInOrder(evicted, survivors, values - {key})
                && EachEvictionNeeded(evicted, TotalBytes(survivors), |data|, capacity)
                && (ok ==> !NeedsEviction(storedBytes - |data|, |data|, capacity))
      ensures ok ==> Stored(old(values), key, data, ttl, now, capacity, values)
    {
      var value := Value(data, ttl, now, now, 0);
      var _ := RemoveValue(key);
      evicted := [];
      if storedBytes + |data| > capacity {
        ok, evicted := CacheExpiry(|data|, now);
        if !ok {
          assert values - {key} == values;
          return;
        }
      }
      ghost var swept := values;
      Insert(key, value);
      assert values - {key} == swept;
      ok := true;
    }

    /** The last step of SetValue: store the entry under a key that is absent, adding its length to the total. */
    method Insert(key: string, value: Value)
      requires Valid() && key !in values && storedBytes + |value.data| <= capacity
      modifies this
      ensures Valid()
      ensures values == old(values)[key := value] && storedBytes == old(storedBytes) + |value.data|
    {
      TotalBytesInsert(values, key, value);
      values := values[key := value];
      storedBytes := storedBytes + |value.data|;
    }
  }

  /** Whether SetValue's write needs a sweep: the total without the old entry, plus the new data, exceeds the capacity. */
  ghost predicate Sweeps(m: map<string, Value>, stored: int, key: string, size: nat, capacity: nat) {
    stored - (if key in m then |m[key].data| else 0) + size > capacity
  }

  /**
   * The table a successful SetValue leaves, from table `m`: the key maps to
   * the new entry; without a sweep nothing else changes; with one, the
   * other entries are the unexpired ones minus some evicted in LRU order,
   * each eviction needed, and the old total is back within the fill ratio
   * with room for the data.
   */
  ghost predicate Stored(m: map<string, Value>, key: string, data: seq<bv8>, ttl: int, now: int, capacity: nat,
                         m': map<string, Value>) {
    var survivors := Unexpired(m - {key}, now);
    && key in m' && m'[key] == Value(data, ttl, now, now, 0)
    && (!Sweeps(m, TotalBytes(m), key, |data|, capacity) ==> m' == m[key := Value(data, ttl, now, now, 0)])
    && (Sweeps(m, TotalBytes(m), key, |data|, capacity) ==>
          && !NeedsEviction(TotalBytes(m') - |data|, |data|, capacity)
          && exists evicted :: EvictedInOrder(evicted, survivors, m' - {key})
                               && EachEvictionNeeded(evicted, TotalBytes(survivors), |data|, capacity))
  }
}
