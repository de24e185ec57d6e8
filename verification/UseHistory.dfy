/**
 What the recency order and the `reused` mark stand for, in every run. An observer notes when each key was last
 hit or stored, and which keys have been hit since they last came into the cache.
 */
module UseHistory {
  import opened Basics
  import opened CacheModel
  import opened CacheRuns

  datatype Seen = Seen(used: map<Key, nat>, hit: set<Key>)

  const NOTHING := Seen(map[], {})

  ghost predicate IsHit(w: World, ev: Event) {
    ev.Lookup? && Get(w.cache, ev.k, ev.now).1.Some?
  }

  /** A key that leaves the cache is forgotten as hit; a replaced entry's key never left. */
  ghost function See(w: World, ev: Event, hash: Key -> u64, seen: Seen): Seen
    requires Enabled(w, ev)
  {
    Seen(
      if IsHit(w, ev) || (ev.Insert? && ev.stored) then seen.used[ev.k := TimeOf(ev)] else seen.used,
      (if IsHit(w, ev) then seen.hit + {ev.k} else seen.hit) * CacheAfter(w, ev, hash).entries.Keys)
  }

  ghost function Watch(w: World, run: seq<Event>, hash: Key -> u64, seen: Seen): Seen
    requires Legal(w, run, hash)
    decreases run
  {
    if run == [] then seen else Watch(Apply(w, run[0], hash), run[1..], hash, See(w, run[0], hash, seen))
  }

  // ---------------------------------------------------------------------- invariant

  /** The keys were used in this order, most recent first, and none after `clock`. */
  ghost predicate Ordered(keys: seq<Key>, used: map<Key, nat>, clock: nat) {
    && (forall i :: 0 <= i < |keys| ==> keys[i] in used && used[keys[i]] <= clock)
    && (forall i, j :: 0 <= i < j < |keys| ==> used[keys[i]] >= used[keys[j]])
  }

  /** Exactly the keys hit since they came in are marked as reused. */
  ghost predicate Marked(entries: map<Key, Entry>, hit: set<Key>) {
    hit <= entries.Keys && forall k :: k in entries ==> (entries[k].reused <==> k in hit)
  }

  ghost predicate SeenOk(w: World, seen: Seen) {
    Ok(w.cache) && Ordered(w.cache.recency, seen.used, w.clock) && Marked(w.cache.entries, seen.hit)
  }

  // -------------------------------------------------------------------------- order

  lemma OrderedWithout(keys: seq<Key>, used: map<Key, nat>, clock: nat, k: Key)
    requires Ordered(keys, used, clock)
    ensures Ordered(Without(keys, k), used, clock)
  {
    if k in keys {
      var at := IndexOf(keys, k);
      hide IndexOf;
      OrderedSplice(keys, used, clock, at);
    }
  }

  lemma OrderedSplice(keys: seq<Key>, used: map<Key, nat>, clock: nat, at: nat)
    requires Ordered(keys, used, clock) && at < |keys|
    ensures Ordered(keys[..at] + keys[at + 1..], used, clock)
  {
    var w := keys[..at] + keys[at + 1..];
    forall j | 0 <= j < |w| ensures w[j] == keys[if j < at then j else j + 1] {
    }
    forall i, j | 0 <= i < j < |w| ensures w[i] in used && w[j] in used && used[w[i]] >= used[w[j]] {
      var x, y := if i < at then i else i + 1, if j < at then j else j + 1;
      assert w[i] == keys[x] && w[j] == keys[y];
    }
  }

  /** A key used now goes to the front. */
  lemma OrderedFront(keys: seq<Key>, used: map<Key, nat>, clock: nat, k: Key, now: nat)
    requires Ordered(keys, used, clock) && clock <= now && k !in keys
    ensures Ordered([k] + keys, used[k := now], now)
  {
    var all := [k] + keys;
    assert forall i :: 1 <= i < |all| ==> all[i] == keys[i - 1] && all[i] != k;
  }

  lemma OrderedPrefix(keys: seq<Key>, used: map<Key, nat>, clock: nat, n: nat)
    requires Ordered(keys, used, clock) && n <= |keys|
    ensures Ordered(keys[..n], used, clock)
  {
  }

  lemma {:induction false} OrderedFilter(keys: seq<Key>, used: map<Key, nat>, clock: nat, drop: set<Key>)
    requires Distinct(keys) && Ordered(keys, used, clock)
    ensures Ordered(FilterOut(keys, drop), used, clock)
  {
    if keys != [] {
      var rest := FilterOut(keys[1..], drop);
      DistinctTail(keys);
      OrderedFilter(keys[1..], used, clock, drop);
      FilterKeeps(keys[1..], drop);
      forall i | 0 <= i < |rest| ensures rest[i] in used && used[keys[0]] >= used[rest[i]] {
        assert rest[i] in rest;
        var j :| 0 <= j < |keys[1..]| && keys[1..][j] == rest[i];
        assert keys[j + 1] == rest[i];
      }
    }
  }

  // ------------------------------------------------------------------- preservation

  lemma LookupSeen(w: World, ev: Event, hash: Key -> u64, seen: Seen)
    requires SeenOk(w, seen) && Enabled(w, ev) && ev.Lookup?
    ensures SeenOk(Apply(w, ev, hash), See(w, ev, hash, seen))
  {
    hide Ok, Without, Ordered, Used, Distinct;
    GetOk(w.cache, ev.k, ev.now);
    OkMembers(w.cache);
    OrderedWithout(w.cache.recency, seen.used, w.clock, ev.k);
    WithoutKeeps(w.cache.recency, ev.k);
    if IsHit(w, ev) {
      OrderedFront(Without(w.cache.recency, ev.k), seen.used, w.clock, ev.k, ev.now);
    }
    OrderedLater(w.cache.recency, seen.used, w.clock, ev.now);
    OrderedLater(Without(w.cache.recency, ev.k), seen.used, w.clock, ev.now);
    UsedIsReused(w.cache, ev.k, ev.now);
  }

  lemma OkMembers(c: Cache)
    requires Ok(c)
    ensures Distinct(c.recency) && forall k :: k in c.entries <==> k in c.recency
  {
  }

  lemma UsedIsReused(c: Cache, k: Key, now: nat)
    ensures k in c.entries ==> Used(c.entries[k], now).reused
  {
  }

  lemma OrderedLater(keys: seq<Key>, used: map<Key, nat>, clock: nat, now: nat)
    requires clock <= now
    ensures Ordered(keys, used, clock) ==> Ordered(keys, used, now)
  {
  }

  /** The recency list after an insert. */
  ghost function ListAfter(recency: seq<Key>, k: Key, dropped: nat, stored: bool): seq<Key>
    requires dropped <= |Without(recency, k)|
  {
    var kept := Without(recency, k)[..|Without(recency, k)| - dropped];
    if stored then [k] + kept else kept
  }

  lemma InsertSeen(w: World, ev: Event, hash: Key -> u64, seen: Seen)
    requires SeenOk(w, seen) && Enabled(w, ev) && ev.Insert?
    ensures SeenOk(Apply(w, ev, hash), See(w, ev, hash, seen))
  {
    hide Ok, Ordered, Marked, Enabled, CacheAfter, ListAfter;
    OkMembers(w.cache);
    InsertTimes(w, ev);
    InsertedCache(w, ev, hash);
    InsertedOrder(w.cache.recency, seen.used, w.clock, ev.k, ev.dropped, ev.stored, ev.t2);
    InsertedMarks(w.cache.entries, CacheAfter(w, ev, hash).entries, seen.hit, ev.k);
  }

  lemma InsertTimes(w: World, ev: Event)
    requires Enabled(w, ev) && ev.Insert?
    ensures w.clock <= ev.t2 && ev.dropped <= |Without(w.cache.recency, ev.k)|
  {
  }

  lemma InsertedCache(w: World, ev: Event, hash: Key -> u64)
    requires Enabled(w, ev) && ev.Insert? && ev.dropped <= |Without(w.cache.recency, ev.k)|
    ensures var c, c' := w.cache, CacheAfter(w, ev, hash);
      && Ok(c') && c'.recency == ListAfter(c.recency, ev.k, ev.dropped, ev.stored)
      && KeepsMarks(c.entries, c'.entries, ev.k)
  {
    hide Ok, Without, ListAfter, KeepsMarks, NewEntry, AddFront, DropOldest, Remove;
    var e := NewEntry(w.cache, ev.k, ev.ttl, ev.wire, ev.request, ev.t0, ev.t1, ev.t2);
    assert e.reused == (ev.k in w.cache.entries && w.cache.entries[ev.k].reused) by {
      NewEntryMark(w.cache, ev.k, ev.ttl, ev.wire, ev.request, ev.t0, ev.t1, ev.t2);
    }
    InsertedParts(w.cache, ev.k, e, ev.dropped, ev.stored);
  }

  lemma NewEntryMark(c: Cache, k: Key, ttl: nat, wire: seq<byte>, request: seq<byte>, t0: nat, t1: nat, t2: nat)
    ensures NewEntry(c, k, ttl, wire, request, t0, t1, t2).reused == (k in c.entries && c.entries[k].reused)
  {
  }

  lemma InsertedParts(c: Cache, k: Key, e: Entry, dropped: nat, stored: bool)
    requires Ok(c) && dropped <= |Remove(c, k).recency| && (!stored ==> dropped == |Remove(c, k).recency|)
    requires e.reused == (k in c.entries && c.entries[k].reused)
    ensures dropped <= |Without(c.recency, k)|
    ensures var rest := DropOldest(Remove(c, k), dropped);
      var c' := if stored then AddFront(rest, k, e) else rest;
      Ok(c') && c'.recency == ListAfter(c.recency, k, dropped, stored) && KeepsMarks(c.entries, c'.entries, k)
  {
    hide Ok, Without, ListAfter, KeepsMarks, DropOldest, AddFront;
    var rest := DropOldest(Remove(c, k), dropped);
    InsertOk(c, if stored then AddFront(rest, k, e) else rest, k, e, dropped, stored) by {
      hide Remove;
    }
    DroppedParts(c, k, dropped, rest);
    AddedParts(c, rest, k, e, dropped);
  }

  lemma DroppedParts(c: Cache, k: Key, dropped: nat, rest: Cache)
    requires dropped <= |Remove(c, k).recency| && rest == DropOldest(Remove(c, k), dropped)
    ensures rest.recency == ListAfter(c.recency, k, dropped, false)
    ensures k !in rest.entries && KeepsMarks(c.entries, rest.entries, k)
  {
    hide Without;
  }

  lemma AddedParts(c: Cache, rest: Cache, k: Key, e: Entry, dropped: nat)
    requires dropped <= |Without(c.recency, k)| && rest.recency == ListAfter(c.recency, k, dropped, false)
    requires k !in rest.entries && KeepsMarks(c.entries, rest.entries, k)
    requires e.reused == (k in c.entries && c.entries[k].reused)
    ensures var c' := AddFront(rest, k, e);
      c'.recency == ListAfter(c.recency, k, dropped, true) && KeepsMarks(c.entries, c'.entries, k)
  {
    hide Without;
  }

  /** No entry but that of `k` is new, and `k` is marked as before. */
  ghost predicate KeepsMarks(entries: map<Key, Entry>, entries': map<Key, Entry>, k: Key) {
    && (forall x :: x in entries' && x != k ==> x in entries && entries'[x].reused == entries[x].reused)
    && (k in entries' ==> entries'[k].reused == (k in entries && entries[k].reused))
  }

  lemma InsertedMarks(entries: map<Key, Entry>, entries': map<Key, Entry>, hit: set<Key>, k: Key)
    requires Marked(entries, hit) && KeepsMarks(entries, entries', k)
    ensures Marked(entries', hit * entries'.Keys)
  {
  }

  lemma InsertedOrder(recency: seq<Key>, used: map<Key, nat>, clock: nat, k: Key, dropped: nat, stored: bool, now: nat)
    requires Distinct(recency) && Ordered(recency, used, clock) && clock <= now && dropped <= |Without(recency, k)|
    ensures Ordered(ListAfter(recency, k, dropped, stored), if stored then used[k := now] else used, now)
  {
    hide Without, Ordered, Distinct;
    var rest := Without(recency, k);
    OrderedWithout(recency, used, clock, k);
    WithoutKeeps(recency, k);
    var kept := rest[..|rest| - dropped];
    OrderedPrefix(rest, used, clock, |rest| - dropped);
    assert forall x :: x in kept ==> x in rest;
    OrderedFront(kept, used, clock, k, now);
    OrderedLater(kept, used, clock, now);
  }

  lemma SameOrderSeen(w: World, ev: Event, hash: Key -> u64, seen: Seen)
    requires SeenOk(w, seen) && Enabled(w, ev) && (ev.ReleaseClaim? || ev.Prefetch?)
    ensures SeenOk(Apply(w, ev, hash), See(w, ev, hash, seen))
  {
    hide Candidates, Ordered, Due, Backoff, Distinct;
    if ev.Prefetch? {
      CandidatesEffect(w.cache, ev.now, ev.budget, hash);
    }
    OrderedLater(w.cache.recency, seen.used, w.clock, TimeOf(ev));
  }

  lemma SweepSeen(w: World, ev: Event, hash: Key -> u64, seen: Seen)
    requires SeenOk(w, seen) && Enabled(w, ev) && ev.Sweep?
    ensures SeenOk(Apply(w, ev, hash), See(w, ev, hash, seen))
  {
    SweptOk(w.cache, ev.drop);
    OrderedFilter(w.cache.recency, seen.used, w.clock, ev.drop);
    OrderedLater(FilterOut(w.cache.recency, ev.drop), seen.used, w.clock, ev.now);
    hide Ok, Ordered, FilterOut;
  }

  lemma {:induction false} RunSeen(w: World, run: seq<Event>, hash: Key -> u64, seen: Seen)
    requires SeenOk(w, seen) && Legal(w, run, hash)
    ensures SeenOk(Final(w, run, hash), Watch(w, run, hash, seen))
    decreases run
  {
    hide SeenOk, Enabled, Apply, See;
    if run != [] {
      match run[0] {
        case Lookup(_, _) => LookupSeen(w, run[0], hash, seen);
        case Insert(_, _, _, _, _, _, _, _, _) => InsertSeen(w, run[0], hash, seen);
        case ReleaseClaim(_, _) => SameOrderSeen(w, run[0], hash, seen);
        case Prefetch(_, _) => SameOrderSeen(w, run[0], hash, seen);
        case Sweep(_, _) => SweepSeen(w, run[0], hash, seen);
      }
      RunSeen(Apply(w, run[0], hash), run[1..], hash, See(w, run[0], hash, seen));
    }
  }

  // ----------------------------------------------------------------------- theorems

  /**
   In every run the cache lists its keys by the time of their latest hit or store, most recent first, and an
   entry is marked as reused exactly when its key was hit since it last came into the cache.
   */
  lemma RecencyIsUse(run: seq<Event>, hash: Key -> u64)
    requires Legal(INITIAL, run, hash)
    ensures var w, seen := Final(INITIAL, run, hash), Watch(INITIAL, run, hash, NOTHING);
      Ordered(w.cache.recency, seen.used, w.clock) && Marked(w.cache.entries, seen.hit)
  {
    assert SeenOk(INITIAL, NOTHING);
    hide Legal, Final, Watch;
    RunSeen(INITIAL, run, hash, NOTHING);
  }

  /** An insert that needs space only drops entries that were last used no later than every entry it keeps. */
  lemma DroppedUsedEarlier(run: seq<Event>, ev: Event, hash: Key -> u64, gone: Key, kept: Key)
    requires Legal(INITIAL, run, hash) && ev.Insert? && Enabled(Final(INITIAL, run, hash), ev)
    requires var w := Final(INITIAL, run, hash);
      && gone in w.cache.entries && gone !in CacheAfter(w, ev, hash).entries
      && kept in CacheAfter(w, ev, hash).entries && gone != ev.k && kept != ev.k
    ensures var used := Watch(INITIAL, run, hash, NOTHING).used;
      kept in used && gone in used && used[gone] <= used[kept]
  {
    var w, seen := Final(INITIAL, run, hash), Watch(INITIAL, run, hash, NOTHING);
    RecencyIsUse(run, hash);
    WithoutKeeps(w.cache.recency, ev.k);
    OrderedWithout(w.cache.recency, seen.used, w.clock, ev.k);
    hide Legal, Final, Watch;
    SuffixGoes(w.cache, ev.k, ev.dropped, seen.used, w.clock, gone, kept);
  }

  lemma SuffixGoes(c: Cache, k: Key, n: nat, used: map<Key, nat>, clock: nat, gone: Key, kept: Key)
    requires Ok(c) && n <= |Without(c.recency, k)| && Ordered(Without(c.recency, k), used, clock)
    requires gone in c.entries && gone != k && kept != k
    requires gone !in DropOldest(Remove(c, k), n).entries && kept in DropOldest(Remove(c, k), n).entries
    ensures kept in used && gone in used && used[gone] <= used[kept]
  {
    var rest := Without(c.recency, k);
    WithoutKeeps(c.recency, k);
    hide Without;
    var i :| 0 <= i < |rest| && rest[i] == gone;
    var j :| 0 <= j < |rest| - n && rest[j] == kept;
    assert gone !in rest[..|rest| - n];
  }
}
