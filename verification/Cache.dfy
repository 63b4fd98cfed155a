/** The DNS cache: a nested map with a separately kept count, and two-stage eviction (serve-stale, RFC 8767). */
module Cache {
  import opened Bytes
  import opened Question
  import opened Dnssec

  type Nanos = nat

  const SECOND: Nanos := 1_000_000_000
  const STALE_WINDOW: Nanos := 3600 * SECOND

  type Key = (Text, QueryType)

  datatype CacheEntry = CacheEntry(wire: seq<byte>, ttlOffsets: seq<nat>, insertedAt: Nanos, ttl: Nanos, status: DnssecStatus)

  datatype Freshness = Fresh | NearExpiry | Stale

  /** `Instant::elapsed`, which saturates. */
  function Elapsed(e: CacheEntry, now: Nanos): Nanos {
    if now >= e.insertedAt then now - e.insertedAt else 0
  }

  predicate Expired(e: CacheEntry, now: Nanos) { Elapsed(e, now) >= e.ttl }

  function Remaining(e: CacheEntry, now: Nanos): Nanos {
    if Elapsed(e, now) < e.ttl then e.ttl - Elapsed(e, now) else 0
  }

  // ---- The nested map and its flat view ----

  type Nested = map<Text, map<QueryType, CacheEntry>>
  type Entries = map<Key, CacheEntry>

  function Flat(m: Nested): Entries {
    map d, t | d in m && t in m[d] :: (d, t) := m[d][t]
  }

  lemma FlatHas(m: Nested, k: Key)
    ensures k in Flat(m) <==> k.0 in m && k.1 in m[k.0]
    ensures k in Flat(m) ==> Flat(m)[k] == m[k.0][k.1]
  {
    assert k == (k.0, k.1);
  }

  ghost predicate NoEmptyInner(m: Nested) { forall d :: d in m ==> m[d] != map[] }

  /** The entries under one name, keyed as in the flat view. */
  function Under(d: Text, inner: map<QueryType, CacheEntry>): Entries {
    map t | t in inner :: (d, t) := inner[t]
  }

  lemma UnderHas(d: Text, inner: map<QueryType, CacheEntry>, k: Key)
    ensures k in Under(d, inner) <==> k.0 == d && k.1 in inner
  {
    assert k == (k.0, k.1);
  }

  lemma {:induction false} UnderSize(d: Text, inner: map<QueryType, CacheEntry>)
    ensures |Under(d, inner)| == |inner|
    decreases |inner|
  {
    if t :| t in inner {
      var rest := inner - {t};
      UnderSize(d, rest);
      assert Under(d, inner).Keys == Under(d, rest).Keys + {(d, t)};
      assert inner.Keys == rest.Keys + {t};
    } else {
      assert inner == map[] && Under(d, inner) == map[];
    }
  }

  /** A name's inner map contributes exactly its size. */
  lemma DropInner(m: Nested, d: Text)
    requires d in m
    ensures |Flat(m)| == |Flat(m - {d})| + |m[d]|
  {
    UnderSize(d, m[d]);
    var rest, under := Flat(m - {d}).Keys, Under(d, m[d]).Keys;
    SameKeys(m, d);
    hide Flat, Under;
    assert |rest + under| == |rest| + |under|;
  }

  lemma SameKeys(m: Nested, d: Text)
    requires d in m
    ensures Flat(m).Keys == Flat(m - {d}).Keys + Under(d, m[d]).Keys
    ensures Flat(m - {d}).Keys !! Under(d, m[d]).Keys
  {
    var n := m - {d};
    forall k: Key
      ensures k in Flat(m) <==> k in Flat(n) || k in Under(d, m[d])
      ensures !(k in Flat(n) && k in Under(d, m[d]))
    {
      FlatHas(m, k);
      FlatHas(n, k);
      UnderHas(d, m[d], k);
    }
    hide Flat, Under;
  }

  lemma SameRest(m: Nested, d: Text, inner: map<QueryType, CacheEntry>)
    ensures m[d := inner] - {d} == m - {d}
    ensures d !in m ==> m - {d} == m
  {
  }

  /** Replacing an inner map changes the size by the difference. */
  lemma ReplaceInner(m: Nested, d: Text, inner: map<QueryType, CacheEntry>)
    ensures |Flat(m[d := inner])| + |if d in m then m[d] else map[]| == |Flat(m)| + |inner|
  {
    hide *;
    DropInner(m[d := inner], d);
    SameRest(m, d, inner);
    if d in m { DropInner(m, d); }
  }

  // ---- Lookups ----

  /** What `lookup_wire` makes of an entry's age: the TTL to serve, and how fresh that is; None past the stale window. */
  function Served(e: CacheEntry, now: Nanos): Option<(nat, Freshness)> {
    var elapsed := Elapsed(e, now);
    if elapsed < e.ttl then
      var secs := (e.ttl - elapsed) / SECOND;
      Some((if secs > 1 then secs else 1, if elapsed * 10 >= e.ttl * 9 then NearExpiry else Fresh))
    else if elapsed < e.ttl + STALE_WINDOW then Some((1, Stale))
    else None
  }

  /** A served TTL is what remains in whole seconds, or 1 if that is less. */
  lemma ServedTtl(e: CacheEntry, now: Nanos)
    ensures Served(e, now).None? <==> Elapsed(e, now) >= e.ttl + STALE_WINDOW
    ensures Served(e, now).Some? ==>
              && Served(e, now).value.0 >= 1
              && (Served(e, now).value.0 > 1 ==> Served(e, now).value.0 * SECOND <= Remaining(e, now))
              && (Served(e, now).value.1 == Stale <==> Expired(e, now))
              && Remaining(e, now) < (Served(e, now).value.0 + 1) * SECOND
              && (Served(e, now).value.1 == Fresh <==> Remaining(e, now) * 10 > e.ttl)
  {
  }

  // ---- Eviction as seen from outside ----

  /** The entries `evict_expired` keeps. */
  function Live(entries: Entries, now: Nanos): Entries {
    map k | k in entries && !Expired(entries[k], now) :: entries[k]
  }

  /** `after` is `before` less one entry with the least time to live, or both are empty. */
  ghost predicate LessStalest(before: Entries, after: Entries, now: Nanos) {
    if before == map[] then after == map[]
    else exists k :: LeastRemaining(before, k, now) && after == before - {k}
  }

  ghost predicate LeastRemaining(entries: Entries, k: Key, now: Nanos) {
    k in entries && forall j :: j in entries ==> Remaining(entries[k], now) <= Remaining(entries[j], now)
  }

  /** What making room leaves: nothing happens below the limit, and the stalest goes only if nothing had expired. */
  ghost predicate MadeRoom(before: Entries, after: Entries, limit: nat, now: Nanos) {
    if |before| < limit then after == before
    else if |Live(before, now)| < limit then after == Live(before, now)
    else LessStalest(Live(before, now), after, now)
  }

  class DnsCache {
    var entries: Nested
    var entryCount: nat
    const maxEntries: nat
    const minTtl: u32
    const maxTtl: u32

    constructor (maxEntries: nat, minTtl: u32, maxTtl: u32)
      ensures this.maxEntries == maxEntries && this.minTtl == minTtl && this.maxTtl == maxTtl
      ensures Valid() && Flat(entries) == map[]
    {
      entries, entryCount := map[], 0;
      this.maxEntries, this.minTtl, this.maxTtl := maxEntries, minTtl, maxTtl;
    }

    /** The count is the number of entries, no inner map is empty, and the limit holds (a limit of 0 lets one in). */
    ghost predicate Valid()
      reads this
    {
      Counted() && entryCount <= if maxEntries > 0 then maxEntries else 1
    }

    ghost predicate Counted()
      reads this
    {
      entryCount == |Flat(entries)| && NoEmptyInner(entries)
    }

    method LookupWire(domain: Text, qtype: QueryType, now: Nanos) returns (r: Option<(CacheEntry, nat, Freshness)>)
      ensures r.Some? <==> (domain, qtype) in Flat(entries) && Served(Flat(entries)[(domain, qtype)], now).Some?
      ensures r.Some? ==> r.value.0 == Flat(entries)[(domain, qtype)] && Some((r.value.1, r.value.2)) == Served(r.value.0, now)
    {
      FlatHas(entries, (domain, qtype));
      hide Flat, Served;
      if domain !in entries { return None; }
      if qtype !in entries[domain] { return None; }
      var e := entries[domain][qtype];
      var served := Served(e, now);
      if served.None? { return None; }
      r := Some((e, served.value.0, served.value.1));
    }

    /** Storing one entry, the last part of `insert_wire`. */
    method Store(domain: Text, qtype: QueryType, e: CacheEntry)
      requires Counted()
      modifies this
      ensures Counted() && Flat(entries) == old(Flat(entries))[(domain, qtype) := e]
    {
      hide Flat, NoEmptyInner, Under;
      var inner := InnerOf(entries, domain);
      ReplaceInner(entries, domain, inner[qtype := e]);
      StillStored(entries, domain, qtype, e);
      ghost var n := entries[domain := inner[qtype := e]];
      forall k: Key
        ensures k in Flat(n) <==> k in Flat(entries) || k == (domain, qtype)
        ensures k in Flat(n) ==> Flat(n)[k] == if k == (domain, qtype) then e else Flat(entries)[k]
      {
        StoredAt(entries, domain, qtype, e, k);
      }
      assert Flat(n) == Flat(entries)[(domain, qtype) := e];
      if qtype !in inner { entryCount := entryCount + 1; }
      entries := entries[domain := inner[qtype := e]];
    }

    /** `clear`. */
    method Clear()
      modifies this
      ensures Valid() && Flat(entries) == map[]
    {
      entries, entryCount := map[], 0;
    }

    /** `remove`: every type under the lower-cased name. */
    method Remove(domain: Text)
      requires Valid()
      modifies this
      ensures Valid() && Flat(entries) == WithoutName(old(Flat(entries)), LowerText(domain))
    {
      hide Flat, NoEmptyInner, Under, WithoutName, LowerText;
      var d := LowerText(domain);
      RemovedFlat(entries, d);
      StillRemoved(entries, d);
      if d in entries {
        DropInner(entries, d);
        entryCount := entryCount - |entries[d]|;
        entries := entries - {d};
      }
    }

    /** `evict_expired`: names in any order; the count is adjusted once at the end. */
    method EvictExpired(now: Nanos)
      requires Counted()
      modifies this
      ensures Counted() && Flat(entries) == Live(old(Flat(entries)), now)
    {
      hide Flat, Live, Expired, NoEmptyInner, Pruned, Under;
      var todo := entries.Keys;
      var count: nat := 0;
      ghost var done: set<Text> := {};
      NothingPruned(entries, now);
      while todo != {}
        invariant todo !! done && todo + done == old(entries).Keys && todo <= entries.Keys
        invariant entryCount == old(entryCount) == |Flat(entries)| + count && NoEmptyInner(entries)
        invariant Pruned(old(entries), entries, done, now)
        decreases |todo|
      {
        var d :| d in todo;
        todo := todo - {d};
        var inner := entries[d];
        var kept := Retained(inner, now);
        PruneStep(old(entries), entries, done, d, now);
        count := count + (|inner| - |kept|);
        entries := if kept == map[] then entries - {d} else entries[d := kept];
        done := done + {d};
      }
      AllPruned(old(entries), entries, done, now);
      entryCount := entryCount - count;
    }

    /** `evict_stalest`: the single entry closest to, or furthest past, expiry. */
    method EvictStalest(now: Nanos)
      requires Counted()
      modifies this
      ensures Counted() && LessStalest(old(Flat(entries)), Flat(entries), now)
    {
      hide Flat, NoEmptyInner, LessStalest, AtMostAll, IsEntry, WithoutEntry;
      var worst := FindStalest(entries, now);
      StalestFacts(entries, worst, now);
      if worst.Some? {
        entryCount := entryCount - 1;
        entries := WithoutEntry(entries, worst.value.0, worst.value.1);
      }
    }

    /** The eviction at the head of `insert_wire`. */
    method MakeRoom(now: Nanos)
      requires Valid()
      modifies this
      ensures Counted() && MadeRoom(old(Flat(entries)), Flat(entries), maxEntries, now)
    {
      hide Flat, NoEmptyInner, Live, LessStalest;
      if entryCount >= maxEntries {
        EvictExpired(now);
        if entryCount >= maxEntries {
          EvictStalest(now);
        }
      }
    }

    /**
     * `insert_wire`. `scan` and `minFromWire` are what scanning the bytes for TTLs gives; a clamp with its bounds the
     * wrong way round would panic.
     */
    method InsertWire(domain: Text, qtype: QueryType, wire: seq<byte>, status: DnssecStatus, now: Nanos,
                      scan: Option<seq<nat>>, minFromWire: Option<u32>)
      requires Valid() && minTtl <= maxTtl
      modifies this
      ensures Valid()
      ensures scan.None? ==> Flat(entries) == old(Flat(entries))
      ensures scan.Some? ==>
                var ttl := Clamp(minFromWire.GetOr(minTtl), minTtl, maxTtl);
                var entry := CacheEntry(wire, scan.value, now, ttl * SECOND, status);
                exists room :: MadeRoom(old(Flat(entries)), room, maxEntries, now) && Flat(entries) == room[(domain, qtype) := entry]
      ensures scan.Some? ==>
                && (domain, qtype) in Flat(entries)
                && var e := Flat(entries)[(domain, qtype)];
                   e.wire == wire && e.ttlOffsets == scan.value && e.insertedAt == now && e.status == status
                   && TtlWithin(minFromWire, minTtl, maxTtl, e.ttl)
    {
      hide Flat, NoEmptyInner, MadeRoom, Clamp;
      if scan.None? { return; }
      MakeRoom(now);
      ghost var room := Flat(entries);
      RoomIsRoom(old(Flat(entries)), room, maxEntries, now);
      var ttl := Clamp(minFromWire.GetOr(minTtl), minTtl, maxTtl);
      var entry := CacheEntry(wire, scan.value, now, ttl * SECOND, status);
      OneMore(room, (domain, qtype), entry);
      ClampIs(minFromWire, minTtl, maxTtl);
      Store(domain, qtype, entry);
    }
  }

  lemma OneMore(room: Entries, k: Key, e: CacheEntry)
    ensures |room[k := e]| <= |room| + 1
  {
    assert room[k := e].Keys == room.Keys + {k};
  }

  /** One entry scanned: a strictly smaller remaining time replaces the worst so far. */
  function Worse(worst: Option<(Text, QueryType, Nanos)>, d: Text, t: QueryType, remaining: Nanos): Option<(Text,
                 QueryType, Nanos)> {
    if worst.None? || remaining < worst.value.2 then Some((d, t, remaining)) else worst
  }

  ghost predicate IsEntry(m: Nested, worst: Option<(Text, QueryType, Nanos)>, now: Nanos) {
    worst.Some? ==> worst.value.0 in m && worst.value.1 in m[worst.value.0]
                    && worst.value.2 == Remaining(m[worst.value.0][worst.value.1], now)
  }

  /** No scanned entry of this inner map has less time left than the worst. */
  ghost predicate AtMostAll(worst: Option<(Text, QueryType, Nanos)>, inner: map<QueryType, CacheEntry>,
                            todo: set<QueryType>, now: Nanos) {
    forall t :: t in inner && t !in todo ==> worst.Some? && worst.value.2 <= Remaining(inner[t], now)
  }

  /** The scan of `evict_stalest`, names and types in any order. */
  method FindStalest(m: Nested, now: Nanos) returns (worst: Option<(Text, QueryType, Nanos)>)
    requires NoEmptyInner(m)
    ensures worst.None? <==> m == map[]
    ensures IsEntry(m, worst, now) && forall d :: d in m ==> AtMostAll(worst, m[d], {}, now)
  {
    hide Remaining;
    worst := None;
    var names := m.Keys;
    while names != {}
      invariant names <= m.Keys && IsEntry(m, worst, now)
      invariant forall d :: d in m && d !in names ==> AtMostAll(worst, m[d], {}, now)
      decreases |names|
    {
      var d :| d in names;
      names := names - {d};
      var types := m[d].Keys;
      while types != {}
        invariant types <= m[d].Keys && IsEntry(m, worst, now) && AtMostAll(worst, m[d], types, now)
        invariant forall d' :: d' in m && d' !in names && d' != d ==> AtMostAll(worst, m[d'], {}, now)
        decreases |types|
      {
        var t :| t in types;
        types := types - {t};
        worst := Worse(worst, d, t, Remaining(m[d][t], now));
      }
    }
    if d :| d in m {
      assert AtMostAll(worst, m[d], {}, now);
      var t :| t in m[d];
    }
  }

  lemma StalestIsLeast(m: Nested, worst: Option<(Text, QueryType, Nanos)>, now: Nanos)
    requires IsEntry(m, worst, now) && worst.Some? && forall d :: d in m ==> AtMostAll(worst, m[d], {}, now)
    ensures LeastRemaining(Flat(m), (worst.value.0, worst.value.1), now)
  {
    hide Flat;
    var k := (worst.value.0, worst.value.1);
    FlatHas(m, k);
    forall j | j in Flat(m) ensures Remaining(Flat(m)[k], now) <= Remaining(Flat(m)[j], now) {
      FlatHas(m, j);
      hide Remaining;
      assert AtMostAll(worst, m[j.0], {}, now);
    }
  }

  /** Taking out one entry, and its name with the last of them. */
  function WithoutEntry(m: Nested, d: Text, t: QueryType): Nested
    requires d in m
  {
    if m[d] - {t} == map[] then m - {d} else m[d := m[d] - {t}]
  }

  lemma EvictedFlat(m: Nested, d: Text, t: QueryType)
    requires d in m && t in m[d]
    ensures Flat(WithoutEntry(m, d, t)) == Flat(m) - {(d, t)}
  {
    hide Flat;
    var n := WithoutEntry(m, d, t);
    forall k: Key
      ensures k in Flat(n) <==> k in Flat(m) - {(d, t)}
      ensures k in Flat(n) ==> Flat(n)[k] == Flat(m)[k]
    {
      FlatHas(m, k);
      FlatHas(n, k);
      if k.0 == d && k.1 in m[d] && k.1 != t { assert k.1 in m[d] - {t}; }
      assert k == (k.0, k.1);
    }
  }

  lemma EvictFacts(m: Nested, d: Text, t: QueryType)
    requires NoEmptyInner(m) && d in m && t in m[d]
    ensures NoEmptyInner(WithoutEntry(m, d, t)) && Flat(WithoutEntry(m, d, t)) == Flat(m) - {(d, t)}
    ensures (d, t) in Flat(m) && |Flat(WithoutEntry(m, d, t))| == |Flat(m)| - 1
  {
    hide Flat, NoEmptyInner, WithoutEntry;
    EvictedFlat(m, d, t);
    FlatHas(m, (d, t));
    OneLess(Flat(m), (d, t));
    StillNotEmpty(m, d, t);
  }

  lemma StillNotEmpty(m: Nested, d: Text, t: QueryType)
    requires NoEmptyInner(m) && d in m
    ensures NoEmptyInner(WithoutEntry(m, d, t))
  {
  }

  lemma OneLess(entries: Entries, k: Key)
    requires k in entries
    ensures |entries - {k}| == |entries| - 1
  {
    assert (entries - {k}).Keys == entries.Keys - {k};
  }

  lemma StalestFacts(m: Nested, worst: Option<(Text, QueryType, Nanos)>, now: Nanos)
    requires NoEmptyInner(m) && (worst.None? <==> m == map[])
    requires IsEntry(m, worst, now) && forall d :: d in m ==> AtMostAll(worst, m[d], {}, now)
    ensures worst.None? ==> Flat(m) == map[] && LessStalest(Flat(m), Flat(m), now)
    ensures worst.Some? ==>
              && worst.value.0 in m
              && var n := WithoutEntry(m, worst.value.0, worst.value.1);
                 NoEmptyInner(n) && |Flat(n)| == |Flat(m)| - 1 && LessStalest(Flat(m), Flat(n), now)
  {
    hide Flat, NoEmptyInner, LeastRemaining, WithoutEntry, AtMostAll, IsEntry;
    if worst.None? {
      NothingFlat();
    } else {
      IsThere(m, worst, now);
      StalestIsLeast(m, worst, now);
      EvictFacts(m, worst.value.0, worst.value.1);
    }
  }

  lemma NothingFlat()
    ensures Flat(map[]) == map[]
  {
  }

  lemma IsThere(m: Nested, worst: Option<(Text, QueryType, Nanos)>, now: Nanos)
    requires IsEntry(m, worst, now) && worst.Some?
    ensures worst.value.0 in m && worst.value.1 in m[worst.value.0]
  {
  }

  function Clamp(x: u32, lo: u32, hi: u32): u32
    requires lo <= hi
  {
    if x < lo then lo else if x > hi then hi else x
  }

  /** The least TTL of the answer, as long as it is between the bounds; the nearer bound otherwise; without one the lower. */
  predicate TtlWithin(minFromWire: Option<u32>, lo: u32, hi: u32, ttl: Nanos) {
    match minFromWire
    case None => ttl == lo * 1_000_000_000
    case Some(x) => ttl == (if x <= lo then lo else if hi <= x then hi else x) * 1_000_000_000
  }

  lemma ClampIs(minFromWire: Option<u32>, lo: u32, hi: u32)
    requires lo <= hi
    ensures TtlWithin(minFromWire, lo, hi, Clamp(minFromWire.GetOr(lo), lo, hi) * SECOND)
  {
  }

  /**
   * What a lookup serves of an answer filed for `ttl` seconds, `age` nanoseconds later: the whole seconds that remain, at
   * least 1, near expiry in the last tenth; for one more hour 1 second and stale; after that nothing.
   */
  predicate ServedAtAge(served: Option<(nat, Freshness)>, ttl: nat, age: Nanos) {
    if age < ttl * 1_000_000_000 then
      && served.Some?
      && (served.value.1 == NearExpiry <==> age * 10 >= ttl * 9_000_000_000)
      && (served.value.1 == Fresh <==> age * 10 < ttl * 9_000_000_000)
      && (ttl * 1_000_000_000 < age + 2_000_000_000 ==> served.value.0 == 1)
      && (ttl * 1_000_000_000 >= age + 2_000_000_000 ==>
            age + served.value.0 * 1_000_000_000 <= ttl * 1_000_000_000 < age + (served.value.0 + 1) * 1_000_000_000)
    else if age < (ttl + 3600) * 1_000_000_000 then served == Some((1, Stale))
    else served == None
  }

  lemma ServedAfter(e: CacheEntry, ttl: nat, now: Nanos)
    requires e.ttl == ttl * SECOND && now >= e.insertedAt
    ensures ServedAtAge(Served(e, now), ttl, now - e.insertedAt)
  {
  }

  /** An answer that is filed and then looked up: its bytes and status come back, with the TTL its age leaves. */
  method InsertThenLookup(cache: DnsCache, domain: Text, qtype: QueryType, wire: seq<byte>, status: DnssecStatus, now: Nanos,
                          scan: seq<nat>, minFromWire: Option<u32>, age: Nanos)
    returns (r: Option<(CacheEntry, nat, Freshness)>)
    requires cache.Valid() && cache.minTtl <= cache.maxTtl
    modifies cache
    ensures exists ttl: nat :: TtlWithin(minFromWire, cache.minTtl, cache.maxTtl, ttl * 1_000_000_000)
              && ServedAtAge(if r.Some? then Some((r.value.1, r.value.2)) else None, ttl, age)
    ensures r.Some? ==> r.value.0.wire == wire && r.value.0.ttlOffsets == scan && r.value.0.status == status
  {
    hide Flat, Served, MadeRoom, ServedAtAge, TtlWithin, Clamp, NoEmptyInner;
    cache.InsertWire(domain, qtype, wire, status, now, Some(scan), minFromWire);
    r := cache.LookupWire(domain, qtype, now + age);
    ghost var ttl := Clamp(minFromWire.GetOr(cache.minTtl), cache.minTtl, cache.maxTtl);
    ClampIs(minFromWire, cache.minTtl, cache.maxTtl);
    ServedAfter(Flat(cache.entries)[(domain, qtype)], ttl, now + age);
  }

  /** Whatever made room, it never took an unexpired entry while an expired one was there, nor one with more time left. */
  lemma EvictionIsFair(before: Entries, after: Entries, limit: nat, now: Nanos, k: Key)
    requires MadeRoom(before, after, limit, now) && |before| <= (if limit > 0 then limit else 1)
    requires k in before && k !in after && !Expired(before[k], now)
    ensures forall j :: j in before ==> !Expired(before[j], now)
    ensures forall j :: j in before ==> Remaining(before[k], now) <= Remaining(before[j], now)
  {
    forall j | j in before ensures !Expired(before[j], now) {
      if Expired(before[j], now) { LiveIsFewer(before, now, j); }
    }
    assert k in Live(before, now);
    assert Live(before, now) == before;
  }

  lemma LiveIsFewer(before: Entries, now: Nanos, j: Key)
    requires j in before && Expired(before[j], now)
    ensures |Live(before, now)| < |before|
  {
    var live := Live(before, now);
    assert live.Keys <= before.Keys - {j};
    assert |before.Keys| == |live.Keys| + |before.Keys - live.Keys|;
    assert j in before.Keys - live.Keys;
  }

  lemma RoomIsRoom(before: Entries, after: Entries, limit: nat, now: Nanos)
    requires MadeRoom(before, after, limit, now) && |before| <= (if limit > 0 then limit else 1)
    ensures |after| < (if limit > 0 then limit else 1)
    ensures after.Keys <= before.Keys && forall k :: k in after ==> after[k] == before[k]
  {
    var live := Live(before, now);
    assert live.Keys <= before.Keys;
    assert |before.Keys| == |live.Keys| + |before.Keys - live.Keys|;
    if |before| >= limit && |live| >= limit && live != map[] {
      var k :| LeastRemaining(live, k, now) && after == live - {k};
      assert after.Keys == live.Keys - {k};
    }
  }

  function InnerOf(m: Nested, d: Text): map<QueryType, CacheEntry> { if d in m then m[d] else map[] }

  function WithoutName(entries: Entries, name: Text): Entries {
    map k | k in entries && k.0 != name :: entries[k]
  }

  /** `remove` never finds what was filed under a capital letter. */
  lemma RemoveMissesCapitals(t: QueryType, e: CacheEntry)
    ensures var name: Text := [65];
            var entries := map[(name, t) := e];
            LowerText(name) != name && WithoutName(entries, LowerText(name)) == entries
  {
    var name: Text := [65];
    assert LowerText(name)[0] == 97;
  }

  /** The inner `retain`. */
  function Retained(inner: map<QueryType, CacheEntry>, now: Nanos): map<QueryType, CacheEntry> {
    map t | t in inner && !Expired(inner[t], now) :: inner[t]
  }

  lemma StillStored(m: Nested, d: Text, t: QueryType, e: CacheEntry)
    requires NoEmptyInner(m)
    ensures NoEmptyInner(m[d := InnerOf(m, d)[t := e]])
  {
    assert t in InnerOf(m, d)[t := e];
  }

  /** What storing an entry does to each key of the flat view. */
  lemma StoredAt(m: Nested, d: Text, t: QueryType, e: CacheEntry, k: Key)
    ensures var n := m[d := InnerOf(m, d)[t := e]];
            && (k in Flat(n) <==> k in Flat(m) || k == (d, t))
            && (k in Flat(n) ==> Flat(n)[k] == if k == (d, t) then e else Flat(m)[k])
  {
    hide Flat;
    FlatHas(m, k);
    FlatHas(m[d := InnerOf(m, d)[t := e]], k);
    assert k == (k.0, k.1);
  }

  lemma StillRemoved(m: Nested, d: Text)
    requires NoEmptyInner(m)
    ensures NoEmptyInner(m - {d}) && (d !in m ==> m - {d} == m)
  {
    if d !in m { assert m - {d} == m; }
  }

  lemma RemovedFlat(m: Nested, d: Text)
    ensures Flat(m - {d}) == WithoutName(Flat(m), d)
  {
    hide Flat;
    forall k: Key
      ensures k in Flat(m - {d}) <==> k in WithoutName(Flat(m), d)
      ensures k in Flat(m - {d}) ==> Flat(m - {d})[k] == WithoutName(Flat(m), d)[k]
    {
      FlatHas(m, k);
      FlatHas(m - {d}, k);
    }
  }

  /** The names in `done` have lost their expired entries, the others are untouched. */
  ghost predicate Pruned(before: Nested, after: Nested, done: set<Text>, now: Nanos) {
    && (forall d :: d in before && d !in done ==> d in after && after[d] == before[d])
    && (forall d, t :: d in done && d in before ==>
          ((d in after && t in after[d]) <==> (t in before[d] && !Expired(before[d][t], now))))
    && (forall d, t :: d in after && t in after[d] ==> d in before && t in before[d] && after[d][t] == before[d][t])
  }

  lemma NothingPruned(m: Nested, now: Nanos)
    ensures Pruned(m, m, {}, now)
  {
  }

  lemma RetainedIsSmaller(inner: map<QueryType, CacheEntry>, now: Nanos)
    ensures |Retained(inner, now)| <= |inner|
  {
    var kept := Retained(inner, now);
    assert |inner.Keys| == |kept.Keys| + |inner.Keys - kept.Keys|;
  }

  lemma PruneStep(before: Nested, mid: Nested, done: set<Text>, d: Text, now: Nanos)
    requires Pruned(before, mid, done, now) && d in before && d !in done && d in mid && NoEmptyInner(mid)
    ensures var kept := Retained(mid[d], now);
            var next := if kept == map[] then mid - {d} else mid[d := kept];
            && Pruned(before, next, done + {d}, now) && NoEmptyInner(next)
            && |kept| <= |mid[d]| && |Flat(mid)| == |Flat(next)| + (|mid[d]| - |kept|)
            && mid.Keys - {d} <= next.Keys
  {
    RetainedIsSmaller(mid[d], now);
    PruneOne(before, mid, done, d, now);
    var kept := Retained(mid[d], now);
    hide Flat, Pruned, Retained, Under;
    if kept == map[] { DropInner(mid, d); } else { ReplaceInner(mid, d, kept); }
  }

  lemma PruneOne(before: Nested, mid: Nested, done: set<Text>, d: Text, now: Nanos)
    requires Pruned(before, mid, done, now) && d in before && d !in done && d in mid
    ensures var kept := Retained(mid[d], now);
            Pruned(before, if kept == map[] then mid - {d} else mid[d := kept], done + {d}, now)
  {
    hide Expired;
    assert mid[d] == before[d];
    var kept := Retained(mid[d], now);
    forall t | t in mid[d] ensures t in kept <==> !Expired(mid[d][t], now) {}
    hide Retained;
  }

  lemma AllPruned(before: Nested, after: Nested, done: set<Text>, now: Nanos)
    requires Pruned(before, after, done, now) && done == before.Keys
    ensures Flat(after) == Live(Flat(before), now)
  {
    hide Flat;
    forall k: Key
      ensures k in Flat(after) <==> k in Live(Flat(before), now)
      ensures k in Flat(after) ==> Flat(after)[k] == Live(Flat(before), now)[k]
    {
      FlatHas(before, k);
      FlatHas(after, k);
      hide Expired;
    }
  }
}
