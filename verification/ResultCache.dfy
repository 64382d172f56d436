/**
 The bounded result cache, and why equal keys mean equal inputs: the data version
 names the visible files, and identity epoch and sequence name the override map.
 */
module ResultCache {
  import opened Wrappers
  import opened Identity
  import IdentityRuns
  import OverrideFeed
  import LakeFiles
  import LeaseSafety

  datatype CacheKey = CacheKey(project: string, queryHash: seq<nat>, dataVersion: nat, identityEpoch: nat, identitySeq: nat)

  datatype Entry<V> = Entry(value: V, bytes: nat, lastAccess: nat, expires: Option<nat>)

  /** The access clock is an unsigned 64-bit counter that saturates. */
  const CLOCK_MAX: nat := 0xFFFF_FFFF_FFFF_FFFF

  ghost function Sum<V>(entries: map<CacheKey, Entry<V>>): nat
    decreases |entries|
  {
    if entries == map[] then 0 else var k :| k in entries; entries[k].bytes + Sum(entries - {k})
  }

  lemma {:induction false} SumRemove<V>(entries: map<CacheKey, Entry<V>>, key: CacheKey)
    requires key in entries
    ensures Sum(entries) == entries[key].bytes + Sum(entries - {key})
    decreases |entries|
  {
    var k :| k in entries && Sum(entries) == entries[k].bytes + Sum(entries - {k});
    if k != key {
      SumRemove(entries - {k}, key);
      SumRemove(entries - {key}, k);
      assert entries - {k} - {key} == entries - {key} - {k};
    }
  }

  lemma SumPut<V>(entries: map<CacheKey, Entry<V>>, key: CacheKey, entry: Entry<V>)
    requires key !in entries
    ensures Sum(entries[key := entry]) == Sum(entries) + entry.bytes
  {
    SumRemove(entries[key := entry], key);
    assert entries[key := entry] - {key} == entries;
  }

  class Cache<V(!new)> {
    const maxEntries: nat
    const maxBytes: nat
    var entries: map<CacheKey, Entry<V>>
    var responseBytes: nat
    var accessClock: nat
    /** The value most recently put under each key. */
    ghost var last: map<CacheKey, V>

    /** Bytes are counted exactly, hits are what was last put, and access times order the entries. */
    ghost predicate Counted()
      reads this
    {
      responseBytes == Sum(entries) && Remembered(entries, last) && Ordered(entries, accessClock)
    }

    ghost predicate Valid()
      reads this
    {
      Counted() && |entries| <= maxEntries && responseBytes <= maxBytes
    }

    constructor (maxEntries: nat, maxBytes: nat)
      ensures Valid() && fresh(this) && entries == map[] && this.maxEntries == maxEntries && this.maxBytes == maxBytes
    {
      this.maxEntries, this.maxBytes := maxEntries, maxBytes;
      entries, responseBytes, accessClock, last := map[], 0, 0, map[];
    }

    method Tick() returns (access: nat)
      requires Counted()
      modifies this`accessClock
      ensures Counted() && access == accessClock && Ticked(old(accessClock), access)
    {
      OrderedLater(entries, accessClock);
      if accessClock < CLOCK_MAX {
        accessClock := accessClock + 1;
      }
      access := accessClock;
    }

    method Remove(key: CacheKey)
      requires Counted()
      modifies this`entries, this`responseBytes
      ensures Counted() && entries == old(entries) - {key}
      ensures responseBytes <= old(responseBytes) && |entries| <= |old(entries)|
    {
      hide Sum, Remembered, Ordered;
      if key in entries {
        SumRemove(entries, key);
        SizeDrop(entries, key);
        RemovalKeeps(entries, key, last, accessClock);
        responseBytes := responseBytes - entries[key].bytes;
        entries := entries - {key};
      } else {
        assert entries - {key} == entries;
      }
    }

    /** A hit is the value last put under that key, unless it has expired. */
    method Get(key: CacheKey, now: nat) returns (hit: Option<V>)
      requires Valid()
      modifies this`entries, this`responseBytes, this`accessClock
      ensures Valid()
      ensures hit.Some? ==> key in last && hit.value == last[key]
      ensures hit.Some? <==> key in old(entries) && (old(entries)[key].expires.Some? ==> now < old(entries)[key].expires.value)
      ensures hit.Some? ==> entries == old(entries)[key := old(entries)[key].(lastAccess := accessClock)]
      ensures hit.None? ==> entries == old(entries) - {key}
    {
      hide Sum, Ordered;
      assert key in entries ==> key in last && entries[key].value == last[key];
      hide Remembered;
      TouchKeeps(entries, key, last, accessClock);
      var access := Tick();
      if key in entries && entries[key].expires.Some? && entries[key].expires.value <= now {
        Remove(key);
        return None;
      }
      if key in entries {
        hit := Some(entries[key].value);
        entries := entries[key := entries[key].(lastAccess := access)];
      } else {
        hit := None;
        assert entries - {key} == entries;
      }
    }

    /** Least recently used key. */
    method Oldest() returns (oldest: CacheKey)
      requires entries != map[]
      ensures oldest in entries && forall k <- entries :: entries[oldest].lastAccess <= entries[k].lastAccess
    {
      var first :| first in entries;
      oldest := first;
      var todo := entries.Keys - {first};
      while todo != {}
        invariant oldest in entries && todo <= entries.Keys
        invariant forall k <- entries :: k !in todo ==> entries[oldest].lastAccess <= entries[k].lastAccess
        decreases |todo|
      {
        var k :| k in todo;
        todo := todo - {k};
        if entries[k].lastAccess < entries[oldest].lastAccess {
          oldest := k;
        }
      }
    }

    /**
     Store a value. A value that can never fit only removes what was there; any
     other is stored, and the least recently used entries make room for it.
     */
    method Put(key: CacheKey, value: V, bytes: nat, expires: Option<nat>)
      requires Valid()
      modifies this
      ensures Valid() && last == old(last)[key := value]
      ensures maxEntries == 0 || bytes > maxBytes ==> entries == old(entries) - {key}
      ensures (maxEntries > 0 && bytes <= maxBytes ==>
                 var full := (old(entries) - {key})[key := Entry(value, bytes, accessClock, expires)];
                 Evicted(full, entries, key, accessClock) && NoneNeedlessly(full, entries, accessClock, maxEntries, maxBytes))
    {
      hide Sum, Ordered, Remembered, Evicted, NoneNeedlessly;
      Remove(key);
      PutRemembers(entries, key, value, last);
      last := last[key := value];
      if maxEntries == 0 || bytes > maxBytes {
        return;
      }
      UsedBefore(entries, accessClock);
      var access := Tick();
      var entry := Entry(value, bytes, access, expires);
      InsertKeeps(entries, key, entry, last, accessClock);
      entries, responseBytes := entries[key := entry], responseBytes + bytes;
      Evict(key);
    }

    /** Evict until both limits hold again; until the clock saturates, never the entry just stored. */
    method Evict(key: CacheKey)
      requires Counted() && key in entries && entries[key].lastAccess == accessClock
      requires 0 < maxEntries && entries[key].bytes <= maxBytes
      modifies this`entries, this`responseBytes
      ensures Valid() && Evicted(old(entries), entries, key, accessClock)
      ensures NoneNeedlessly(old(entries), entries, accessClock, maxEntries, maxBytes)
    {
      hide Sum, Ordered, Remembered, NoneNeedlessly;
      ghost var full := entries;
      NothingGone(entries, accessClock, maxEntries, maxBytes);
      while |entries| > maxEntries || responseBytes > maxBytes
        invariant Counted() && Evicted(full, entries, key, accessClock)
        invariant NoneNeedlessly(full, entries, accessClock, maxEntries, maxBytes)
        decreases |entries|
      {
        NotEmpty(entries, responseBytes);
        var oldest := Oldest();
        SizeDrop(entries, oldest);
        EvictionStep(full, entries, key, oldest, accessClock, maxEntries, maxBytes);
        EvictionNeeded(full, entries, key, oldest, accessClock, maxEntries, maxBytes);
        Remove(oldest);
      }
    }
  }

  ghost predicate Remembered<V(!new)>(entries: map<CacheKey, Entry<V>>, last: map<CacheKey, V>) {
    forall k <- entries :: k in last && entries[k].value == last[k]
  }

  ghost predicate Ordered<V(!new)>(entries: map<CacheKey, Entry<V>>, clock: nat) {
    && clock <= CLOCK_MAX
    && (forall k <- entries :: entries[k].lastAccess <= clock)
    && (clock < CLOCK_MAX ==> forall a, b | a in entries && b in entries && entries[a].lastAccess == entries[b].lastAccess :: a == b)
  }

  predicate Ticked(before: nat, after: nat) {
    after == if before < CLOCK_MAX then before + 1 else before
  }

  /** `left` is what eviction keeps of `full`: the most recently used entries, the new one among them. */
  ghost predicate Evicted<V(!new)>(full: map<CacheKey, Entry<V>>, left: map<CacheKey, Entry<V>>, key: CacheKey, clock: nat) {
    && left.Keys <= full.Keys && (forall k <- left :: left[k] == full[k])
    && (clock < CLOCK_MAX ==>
          key in left && forall kept <- left, gone <- full :: gone !in left ==> full[gone].lastAccess < left[kept].lastAccess)
  }

  /** Those used at `since` or later. */
  ghost function UsedSince<V(!new)>(full: map<CacheKey, Entry<V>>, since: nat): map<CacheKey, Entry<V>> {
    map k | k in full && since <= full[k].lastAccess :: full[k]
  }

  /** Nothing is evicted needlessly: an evicted entry and those used after it did not fit together. */
  ghost predicate NoneNeedlessly<V(!new)>(full: map<CacheKey, Entry<V>>, left: map<CacheKey, Entry<V>>, clock: nat, maxEntries: nat, maxBytes: nat) {
    clock < 0xFFFF_FFFF_FFFF_FFFF ==>
      forall gone <- full :: gone !in left ==>
        var those := UsedSince(full, full[gone].lastAccess); |those| > maxEntries || Sum(those) > maxBytes
  }

  lemma OrderedLater<V(!new)>(entries: map<CacheKey, Entry<V>>, clock: nat)
    requires Ordered(entries, clock)
    ensures clock < CLOCK_MAX ==> Ordered(entries, clock + 1)
  {
  }

  lemma UsedBefore<V(!new)>(entries: map<CacheKey, Entry<V>>, clock: nat)
    requires Ordered(entries, clock)
    ensures forall k <- entries :: entries[k].lastAccess <= clock
  {
  }

  lemma RemovalKeeps<V(!new)>(entries: map<CacheKey, Entry<V>>, key: CacheKey, last: map<CacheKey, V>, clock: nat)
    requires Remembered(entries, last) && Ordered(entries, clock)
    ensures Remembered(entries - {key}, last) && Ordered(entries - {key}, clock)
  {
  }

  lemma TouchOrders<V(!new)>(entries: map<CacheKey, Entry<V>>, key: CacheKey, last: map<CacheKey, V>, clock: nat)
    requires Remembered(entries, last) && Ordered(entries, clock) && key in entries
    ensures var access := if clock < CLOCK_MAX then clock + 1 else clock;
            var after := entries[key := entries[key].(lastAccess := access)];
            Remembered(after, last) && Ordered(after, access)
  {
  }

  lemma TouchKeeps<V(!new)>(entries: map<CacheKey, Entry<V>>, key: CacheKey, last: map<CacheKey, V>, clock: nat)
    requires Remembered(entries, last) && Ordered(entries, clock)
    ensures (key in entries ==>
               var access := if clock < CLOCK_MAX then clock + 1 else clock;
               var after := entries[key := entries[key].(lastAccess := access)];
               Remembered(after, last) && Ordered(after, access) && Sum(after) == Sum(entries) && |after| == |entries|)
  {
    hide Sum, Remembered, Ordered;
    if key in entries {
      TouchOrders(entries, key, last, clock);
      var access := if clock < CLOCK_MAX then clock + 1 else clock;
      var used := entries[key].(lastAccess := access);
      SumRemove(entries, key);
      SumPut(entries - {key}, key, used);
      assert (entries - {key})[key := used] == entries[key := used];
      SameSize(entries, key, used);
    }
  }

  lemma PutRemembers<V(!new)>(entries: map<CacheKey, Entry<V>>, key: CacheKey, value: V, last: map<CacheKey, V>)
    requires Remembered(entries, last) && key !in entries
    ensures Remembered(entries, last[key := value])
  {
  }

  lemma InsertKeeps<V(!new)>(entries: map<CacheKey, Entry<V>>, key: CacheKey, entry: Entry<V>, last: map<CacheKey, V>, clock: nat)
    requires Remembered(entries, last) && Ordered(entries, clock) && key !in entries
    requires key in last && entry.value == last[key] && entry.lastAccess == clock
    requires clock < CLOCK_MAX ==> forall k <- entries :: entries[k].lastAccess < clock
    ensures Remembered(entries[key := entry], last) && Ordered(entries[key := entry], clock)
    ensures Sum(entries[key := entry]) == Sum(entries) + entry.bytes
  {
    SumPut(entries, key, entry);
  }

  /** While something has to go, it is not the newest entry: alone it would fit. */
  lemma EvictionStep<V(!new)>(full: map<CacheKey, Entry<V>>, entries: map<CacheKey, Entry<V>>, key: CacheKey, oldest: CacheKey,
                              clock: nat, maxEntries: nat, maxBytes: nat)
    requires Evicted(full, entries, key, clock) && Ordered(entries, clock) && Ordered(full, clock)
    requires oldest in entries && forall k <- entries :: entries[oldest].lastAccess <= entries[k].lastAccess
    requires |entries| > maxEntries || Sum(entries) > maxBytes
    requires key in full && full[key].lastAccess == clock && 0 < maxEntries && full[key].bytes <= maxBytes
    ensures Evicted(full, entries - {oldest}, key, clock)
  {
    if clock < CLOCK_MAX && oldest == key {
      forall k | k in entries ensures k == key {
        assert entries[k].lastAccess == entries[key].lastAccess;
      }
      assert entries.Keys == {key};
      OnlyOne(entries, key);
      assert false;
    }
  }

  lemma NothingGone<V(!new)>(entries: map<CacheKey, Entry<V>>, clock: nat, maxEntries: nat, maxBytes: nat)
    ensures NoneNeedlessly(entries, entries, clock, maxEntries, maxBytes)
  {
  }

  lemma EvictionNeeded<V(!new)>(full: map<CacheKey, Entry<V>>, entries: map<CacheKey, Entry<V>>, key: CacheKey, oldest: CacheKey,
                                clock: nat, maxEntries: nat, maxBytes: nat)
    requires Evicted(full, entries, key, clock) && NoneNeedlessly(full, entries, clock, maxEntries, maxBytes)
    requires oldest in entries && forall k <- entries :: entries[oldest].lastAccess <= entries[k].lastAccess
    requires |entries| > maxEntries || Sum(entries) > maxBytes
    ensures NoneNeedlessly(full, entries - {oldest}, clock, maxEntries, maxBytes)
  {
    hide Sum, UsedSince;
    if clock < CLOCK_MAX {
      StillUsed(full, entries, key, oldest, clock);
    }
  }

  /** What is left are those used as recently as the oldest of them. */
  lemma StillUsed<V(!new)>(full: map<CacheKey, Entry<V>>, entries: map<CacheKey, Entry<V>>, key: CacheKey, oldest: CacheKey, clock: nat)
    requires Evicted(full, entries, key, clock) && clock < CLOCK_MAX
    requires oldest in entries && forall k <- entries :: entries[oldest].lastAccess <= entries[k].lastAccess
    ensures oldest in full && UsedSince(full, full[oldest].lastAccess) == entries
  {
    forall k | k in full && k !in entries ensures full[k].lastAccess < full[oldest].lastAccess {
      assert entries[oldest] == full[oldest];
    }
    assert UsedSince(full, full[oldest].lastAccess).Keys == entries.Keys;
  }

  lemma SizeDrop<V(!new)>(entries: map<CacheKey, Entry<V>>, key: CacheKey)
    requires key in entries
    ensures |entries - {key}| == |entries| - 1
  {
    assert (entries - {key}).Keys == entries.Keys - {key};
    assert |entries| == |entries.Keys| && |entries - {key}| == |(entries - {key}).Keys|;
  }

  lemma SameSize<V>(entries: map<CacheKey, Entry<V>>, key: CacheKey, entry: Entry<V>)
    requires key in entries
    ensures |entries[key := entry]| == |entries|
  {
    assert entries[key := entry].Keys == entries.Keys;
    assert |entries| == |entries.Keys| && |entries[key := entry]| == |entries[key := entry].Keys|;
  }

  lemma NotEmpty<V>(entries: map<CacheKey, Entry<V>>, bytes: nat)
    requires bytes == Sum(entries) && (0 < |entries| || 0 < bytes)
    ensures entries != map[]
  {
  }

  lemma OnlyOne<V>(entries: map<CacheKey, Entry<V>>, key: CacheKey)
    requires entries.Keys == {key}
    ensures |entries| == 1 && Sum(entries) == entries[key].bytes
  {
    SumRemove(entries, key);
    assert entries - {key} == map[];
    assert |entries| == |entries.Keys|;
  }

  // -------------------------------------------------------------- what a key determines

  /** Equal identity epoch and sequence, equal override map. */
  lemma IdentityVersionNamesOverrides(s: State, steps: seq<IdentityRuns.Step>)
    requires Valid(s)
    requires IdentityRuns.Run(s, steps).epoch == s.epoch && IdentityRuns.Run(s, steps).stamp == s.stamp
    ensures OverrideFeed.Overrides(IdentityRuns.Run(s, steps)) == OverrideFeed.Overrides(s)
  {
    hide IdentityRuns.Run, RowsResolve, PersonsAreRoots, FirstSeenIsOwn;
    OverrideFeed.RunFollows(s, steps);
    var r := IdentityRuns.Run(s, steps);
    assert StampsMarkOverrides(s) && StampsMarkOverrides(r) && OverrideFeed.Follows(s, r);
    hide Valid;
    forall k ensures k in OverrideFeed.Overrides(r) <==> k in OverrideFeed.Overrides(s) {
      assert k in r.ids ==> r.ids[k].stamp <= s.stamp;
    }
    assert forall k <- OverrideFeed.Overrides(s) :: r.ids[k].stamp <= s.stamp;
  }

  /**
   Two results of one process under equal keys were computed from the same event
   files and the same identity overrides.
   */
  lemma EqualKeysEqualInputs(lake: seq<LeaseSafety.Action>, i: nat, j: nat, s: State, steps: seq<IdentityRuns.Step>,
                             a: CacheKey, b: CacheKey, from: int, to: int)
    requires Valid(s) && a == b
    requires i < |LeaseSafety.Run(LeaseSafety.NewLake, lake).seen| && j < |LeaseSafety.Run(LeaseSafety.NewLake, lake).seen|
    requires a.dataVersion == LeaseSafety.Leased(LeaseSafety.Run(LeaseSafety.NewLake, lake).seen[i], a.project, from, to).version
    requires b.dataVersion == LeaseSafety.Leased(LeaseSafety.Run(LeaseSafety.NewLake, lake).seen[j], b.project, from, to).version
    requires a.identityEpoch == s.epoch && a.identitySeq == s.stamp
    requires b.identityEpoch == IdentityRuns.Run(s, steps).epoch && b.identitySeq == IdentityRuns.Run(s, steps).stamp
    ensures var l := LeaseSafety.Run(LeaseSafety.NewLake, lake);
            LeaseSafety.Leased(l.seen[i], a.project, from, to) == LeaseSafety.Leased(l.seen[j], b.project, from, to)
    ensures OverrideFeed.Overrides(IdentityRuns.Run(s, steps)) == OverrideFeed.Overrides(s)
  {
    hide LeaseSafety.Run, IdentityRuns.Run;
    LeaseSafety.VersionNamesFiles(lake, i, j, a.project, from, to);
    IdentityVersionNamesOverrides(s, steps);
  }
}
