/**
 Every run of the cache. A world is the abstract cache together with what an observer has seen:
 the clock, the latest client hit on each key, and the refresh claims of each key since its entry
 was stored. The invariant relates an entry's bookkeeping to that history.
 */
module CacheRuns {
  import opened Basics
  import opened CacheModel

  datatype World = World(cache: Cache, clock: nat, lastHit: map<Key, nat>, claims: map<Key, seq<nat>>)

  /** One call. The nondeterminism of allocation and of a sweep's slab range is part of the event. */
  datatype Event =
    | Lookup(k: Key, now: nat)
    | Insert(k: Key, ttl: nat, wire: seq<byte>, request: seq<byte>, t0: nat, t1: nat, t2: nat, dropped: nat,
        stored: bool)
    | ReleaseClaim(k: Key, now: nat)
    | Prefetch(now: nat, budget: nat)
    | Sweep(drop: set<Key>, now: nat)

  const INITIAL := World(EMPTY_CACHE, 0, map[], map[])

  // ------------------------------------------------------------------ prefetch scan

  /** A scan claims the entries it returns, which were due and stand at position `from` or later, and nothing else. */
  ghost predicate ScanOutcome(c: Cache, from: nat, r: Scan, now: nat, hash: Key -> u64) {
    && Distinct(r.claimed)
    && r.cache.entries.Keys == c.entries.Keys
    && (forall k :: k in r.claimed ==> k in c.entries && Due(c.entries[k], now, hash(k)))
    && (forall k :: k in r.claimed ==> exists j :: from <= j < |c.recency| && c.recency[j] == k)
    && (forall k :: k in c.entries ==>
          r.cache.entries[k] == if k in r.claimed then c.entries[k].(claimed := true) else c.entries[k])
  }

  lemma {:induction false} ScanEffect(c: Cache, i: nat, steps: nat, now: nat, budget: nat, hash: Key -> u64)
    requires Distinct(c.recency) && forall j :: 0 <= j < |c.recency| ==> c.recency[j] in c.entries
    ensures ScanOutcome(c, i, ScanFrom(c, i, steps, now, budget, hash), now, hash)
    decreases steps
  {
    hide ScanFrom, ScanOutcome, Due;
    if steps > 0 && budget > 0 && i < |c.recency| {
      var k := c.recency[i];
      if Due(c.entries[k], now, hash(k)) {
        ScanEffect(Claim(c, k), i + 1, steps - 1, now, budget - 1, hash);
        ScanFromClaim(c, i, steps, now, budget, hash);
        ScanClaimed(c, i, ScanFrom(Claim(c, k), i + 1, steps - 1, now, budget - 1, hash), now, hash);
      } else {
        ScanEffect(c, i + 1, steps - 1, now, budget, hash);
        ScanSkips(c, i, steps, now, budget, hash);
        ScanEarlier(c, i, ScanFrom(c, i + 1, steps - 1, now, budget, hash), now, hash);
      }
    } else {
      ScanEnds(c, i, steps, now, budget, hash);
    }
  }

  lemma ScanSkips(c: Cache, i: nat, steps: nat, now: nat, budget: nat, hash: Key -> u64)
    requires forall j :: 0 <= j < |c.recency| ==> c.recency[j] in c.entries
    requires steps > 0 && i < |c.recency| && budget > 0 && !Due(c.entries[c.recency[i]], now, hash(c.recency[i]))
    ensures ScanFrom(c, i, steps, now, budget, hash) == ScanFrom(c, i + 1, steps - 1, now, budget, hash)
  {
    hide Due;
  }

  lemma ScanEnds(c: Cache, i: nat, steps: nat, now: nat, budget: nat, hash: Key -> u64)
    requires forall j :: 0 <= j < |c.recency| ==> c.recency[j] in c.entries
    requires steps == 0 || budget == 0 || i >= |c.recency|
    ensures ScanOutcome(c, i, ScanFrom(c, i, steps, now, budget, hash), now, hash)
  {
    hide Due;
  }

  lemma ScanEarlier(c: Cache, i: nat, r: Scan, now: nat, hash: Key -> u64)
    requires ScanOutcome(c, i + 1, r, now, hash)
    ensures ScanOutcome(c, i, r, now, hash)
  {
    hide Due;
    forall k | k in r.claimed ensures exists j :: i <= j < |c.recency| && c.recency[j] == k {
      var j :| i + 1 <= j < |c.recency| && c.recency[j] == k;
    }
  }

  lemma ScanClaimed(c: Cache, i: nat, rest: Scan, now: nat, hash: Key -> u64)
    requires Distinct(c.recency) && i < |c.recency| && c.recency[i] in c.entries
    requires Due(c.entries[c.recency[i]], now, hash(c.recency[i]))
    requires ScanOutcome(Claim(c, c.recency[i]), i + 1, rest, now, hash)
    ensures ScanOutcome(c, i, Scan(rest.cache, [c.recency[i]] + rest.claimed), now, hash)
  {
    var k := c.recency[i];
    var m, claimed := Claim(c, k), [k] + rest.claimed;
    assert k !in rest.claimed;
    assert forall q :: q in claimed <==> q == k || q in rest.claimed;
    forall q | q in claimed
      ensures q in c.entries && Due(c.entries[q], now, hash(q)) && exists j :: i <= j < |c.recency| && c.recency[j] == q
    {
      if q == k {
        assert c.recency[i] == q;
      } else {
        assert q in rest.claimed && m.entries[q] == c.entries[q];
      }
    }
  }

  lemma CandidatesEffect(c: Cache, now: nat, budget: nat, hash: Key -> u64)
    requires Ok(c)
    ensures forall j :: 0 <= j < |c.recency| ==> c.recency[j] in c.entries
    ensures ScanOutcome(c, 0, Candidates(c, now, budget, hash), now, hash)
    ensures |Candidates(c, now, budget, hash).claimed| <= budget
    ensures Candidates(c, now, budget, hash).cache.recency == c.recency
  {
    ScanEffect(c, 0, SCAN_LIMIT, now, budget, hash);
  }

  // ------------------------------------------------------------------------- steps

  function TimeOf(ev: Event): nat {
    match ev
    case Lookup(_, now) => now
    case Insert(_, _, _, _, _, _, t2, _, _) => t2
    case ReleaseClaim(_, now) => now
    case Prefetch(now, _) => now
    case Sweep(_, now) => now
  }

  /**
   When an event can happen: time does not go back, and evictions are those the cache can make. An insert
   reads its expiry clock before it takes the lock, so t0 may lie before the previous event.
   */
  ghost predicate Enabled(w: World, ev: Event) {
    && w.clock <= TimeOf(ev)
    && Ok(w.cache)
    && match ev {
         case Insert(k, _, _, _, t0, t1, t2, dropped, stored) =>
           && t0 <= t1 <= t2 && w.clock <= t1
           && dropped <= |Remove(w.cache, k).recency| && (!stored ==> dropped == |Remove(w.cache, k).recency|)
         case Sweep(drop, now) =>
           forall k :: k in drop ==> k in w.cache.entries && w.cache.entries[k].StaleUntil() <= now
         case _ => true
       }
  }

  ghost function CacheAfter(w: World, ev: Event, hash: Key -> u64): Cache
    requires Enabled(w, ev)
  {
    match ev
    case Lookup(k, now) => Get(w.cache, k, now).0
    case Insert(k, ttl, wire, request, t0, t1, t2, dropped, stored) =>
      var rest := DropOldest(Remove(w.cache, k), dropped);
      if stored then AddFront(rest, k, NewEntry(w.cache, k, ttl, wire, request, t0, t1, t2)) else rest
    case ReleaseClaim(k, now) => Release(w.cache, k, now, hash(k))
    case Prefetch(now, budget) => Candidates(w.cache, now, budget, hash).cache
    case Sweep(drop, _) => Swept(w.cache, drop)
  }

  /** Keys whose refresh the event claims. */
  ghost function ClaimsOf(w: World, ev: Event, hash: Key -> u64): seq<Key>
    requires Enabled(w, ev)
  {
    match ev
    case Lookup(k, now) =>
      var hit := Get(w.cache, k, now).1;
      if hit.Some? && hit.value.refresh then [k] else []
    case Prefetch(now, budget) => Candidates(w.cache, now, budget, hash).claimed
    case _ => []
  }

  ghost function Recorded(claims: map<Key, seq<nat>>, keys: seq<Key>, now: nat): map<Key, seq<nat>> {
    map k | k in claims :: if k in keys then claims[k] + [now] else claims[k]
  }

  ghost function Apply(w: World, ev: Event, hash: Key -> u64): World
    requires Enabled(w, ev)
  {
    World(
      CacheAfter(w, ev, hash),
      TimeOf(ev),
      if ev.Lookup? && Get(w.cache, ev.k, ev.now).1.Some? then w.lastHit[ev.k := ev.now] else w.lastHit,
      if ev.Insert? then w.claims[ev.k := []] else Recorded(w.claims, ClaimsOf(w, ev, hash), TimeOf(ev)))
  }

  // --------------------------------------------------------------------- invariant

  /** Back-off after the i-th release: 500 ms doubled up to five times. */
  function Gap(i: nat): nat {
    Pow2(Min(i, 5)) * 500 * MILLISECOND
  }

  ghost predicate Spaced(claims: seq<nat>) {
    forall i :: 1 <= i < |claims| ==> claims[i] >= claims[i - 1] + Gap(i)
  }

  /** How an entry's claim and back-off fields relate to its claims so far. */
  ghost predicate ClaimsOk(e: Entry, claims: seq<nat>, clock: nat) {
    && Spaced(claims)
    && (e.claimed ==> claims != [])
    && (claims != [] ==> claims[|claims| - 1] <= clock)
    && e.failures == Min(if e.claimed then |claims| - 1 else |claims|, 5)
    && (!e.claimed && claims != [] ==> e.retryAfter >= claims[|claims| - 1] + Gap(|claims|))
  }

  /** A reused entry was last used by the latest client hit on its key. */
  ghost predicate UseOk(e: Entry, k: Key, lastHit: map<Key, nat>) {
    e.reused ==> k in lastHit && lastHit[k] == e.lastUsed
  }

  ghost predicate KeyOk(w: World, k: Key)
    requires k in w.cache.entries
  {
    k in w.claims && ClaimsOk(w.cache.entries[k], w.claims[k], w.clock) && UseOk(w.cache.entries[k], k, w.lastHit)
  }

  ghost predicate Inv(w: World) {
    Ok(w.cache) && forall k :: k in w.cache.entries ==> KeyOk(w, k)
  }

  lemma ClaimNow(e: Entry, claims: seq<nat>, clock: nat, now: nat)
    requires ClaimsOk(e, claims, clock) && clock <= now && !e.claimed && e.retryAfter <= now
    ensures ClaimsOk(e.(claimed := true), claims + [now], now)
  {
    var longer := claims + [now];
    forall i | 1 <= i < |longer| ensures longer[i] >= longer[i - 1] + Gap(i) {
      if i < |claims| {
        assert longer[i] == claims[i] && longer[i - 1] == claims[i - 1];
      }
    }
  }

  lemma LaterClock(e: Entry, claims: seq<nat>, clock: nat, now: nat)
    requires ClaimsOk(e, claims, clock) && clock <= now
    ensures ClaimsOk(e, claims, now)
  {
  }

  lemma ReleaseNow(e: Entry, claims: seq<nat>, clock: nat, now: nat, hash: u64)
    requires ClaimsOk(e, claims, clock) && clock <= now
    ensures ClaimsOk(Released(e, now, hash), claims, now)
  {
    if e.claimed {
      assert Backoff(Min(e.failures + 1, 5), hash) >= Gap(|claims|);
    }
  }

  // ------------------------------------------------------------------- preservation

  lemma LookupKeeps(w: World, ev: Event, hash: Key -> u64)
    requires Inv(w) && ev.Lookup? && Enabled(w, ev)
    ensures Inv(Apply(w, ev, hash))
  {
    hide Ok, Get, ClaimsOk, ShouldRefresh, Used;
    var w' := Apply(w, ev, hash);
    GetOk(w.cache, ev.k, ev.now);
    GetEffect(w.cache, ev.k, ev.now);
    forall k | k in w'.cache.entries ensures KeyOk(w', k) {
      assert KeyOk(w, k);
      LaterClock(w.cache.entries[k], w.claims[k], w.clock, ev.now);
      UsedNow(w.cache.entries[k], w.claims[k], w.clock, ev.now);
    }
  }

  lemma UsedNow(e: Entry, claims: seq<nat>, clock: nat, now: nat)
    requires ClaimsOk(e, claims, clock) && clock <= now
    ensures ClaimsOk(Used(e, now), if ShouldRefresh(e, now) then claims + [now] else claims, now)
    ensures Used(e, now).lastUsed == now
  {
    if ShouldRefresh(e, now) {
      ClaimNow(e, claims, clock, now);
    }
  }

  /** What a lookup does to the entries, and when it hits and claims. */
  lemma GetEffect(c: Cache, k: Key, now: nat)
    ensures var (c', hit) := Get(c, k, now);
      && (hit.Some? <==> k in c.entries && now < c.entries[k].StaleUntil())
      && (hit.Some? ==>
            hit.value.refresh == ShouldRefresh(c.entries[k], now) && hit.value.stale == (c.entries[k].expiresAt <= now))
      && (forall q :: q in c'.entries ==> q in c.entries)
      && (forall q :: q in c'.entries && q != k ==> c'.entries[q] == c.entries[q])
      && (k in c'.entries ==> hit.Some? && c'.entries[k] == Used(c.entries[k], now))
      && (forall q :: q in c.entries && q != k ==> q in c'.entries)
      && (hit.Some? ==> k in c'.entries)
  {
  }

  lemma ReleaseKeeps(w: World, ev: Event, hash: Key -> u64)
    requires Inv(w) && ev.ReleaseClaim? && Enabled(w, ev)
    ensures Inv(Apply(w, ev, hash))
  {
    var w' := Apply(w, ev, hash);
    assert Ok(w'.cache);
    hide Ok;
    forall k | k in w'.cache.entries ensures KeyOk(w', k) {
      assert KeyOk(w, k);
      LaterClock(w.cache.entries[k], w.claims[k], w.clock, ev.now);
      ReleaseNow(w.cache.entries[k], w.claims[k], w.clock, ev.now, hash(k));
    }
  }

  lemma PrefetchKeeps(w: World, ev: Event, hash: Key -> u64)
    requires Inv(w) && ev.Prefetch? && Enabled(w, ev)
    ensures Inv(Apply(w, ev, hash))
  {
    var w' := Apply(w, ev, hash);
    CandidatesEffect(w.cache, ev.now, ev.budget, hash);
    hide Candidates;
    assert Ok(w'.cache);
    forall k | k in w'.cache.entries ensures KeyOk(w', k) {
      assert KeyOk(w, k);
      LaterClock(w.cache.entries[k], w.claims[k], w.clock, ev.now);
      if k in Candidates(w.cache, ev.now, ev.budget, hash).claimed {
        ClaimNow(w.cache.entries[k], w.claims[k], w.clock, ev.now);
      }
    }
  }

  lemma InsertKeeps(w: World, ev: Event, hash: Key -> u64)
    requires Inv(w) && ev.Insert? && Enabled(w, ev)
    ensures Inv(Apply(w, ev, hash))
  {
    var w' := Apply(w, ev, hash);
    InsertOk(w.cache, w'.cache, ev.k, NewEntry(w.cache, ev.k, ev.ttl, ev.wire, ev.request, ev.t0, ev.t1, ev.t2),
             ev.dropped, ev.stored);
    hide Ok;
    forall k | k in w'.cache.entries ensures KeyOk(w', k) {
      if k in w.cache.entries {
        assert KeyOk(w, k);
        LaterClock(w.cache.entries[k], w.claims[k], w.clock, ev.t2);
      }
    }
  }

  lemma SweepKeeps(w: World, ev: Event, hash: Key -> u64)
    requires Inv(w) && ev.Sweep? && Enabled(w, ev)
    ensures Inv(Apply(w, ev, hash))
  {
    var w' := Apply(w, ev, hash);
    SweptOk(w.cache, ev.drop);
    hide Ok, Swept;
    forall k | k in w'.cache.entries ensures KeyOk(w', k) {
      assert KeyOk(w, k);
      LaterClock(w.cache.entries[k], w.claims[k], w.clock, ev.now);
    }
  }

  /** Every step keeps the invariant. */
  lemma StepKeeps(w: World, ev: Event, hash: Key -> u64)
    requires Inv(w) && Enabled(w, ev)
    ensures Inv(Apply(w, ev, hash))
  {
    hide *;
    match ev
    case Lookup(_, _) => LookupKeeps(w, ev, hash);
    case Insert(_, _, _, _, _, _, _, _, _) => InsertKeeps(w, ev, hash);
    case ReleaseClaim(_, _) => ReleaseKeeps(w, ev, hash);
    case Prefetch(_, _) => PrefetchKeeps(w, ev, hash);
    case Sweep(_, _) => SweepKeeps(w, ev, hash);
  }

  // --------------------------------------------------------------------------- runs

  ghost predicate Legal(w: World, run: seq<Event>, hash: Key -> u64)
    decreases run
  {
    run == [] || (Enabled(w, run[0]) && Legal(Apply(w, run[0], hash), run[1..], hash))
  }

  ghost function Final(w: World, run: seq<Event>, hash: Key -> u64): World
    requires Legal(w, run, hash)
    decreases run
  {
    if run == [] then w else Final(Apply(w, run[0], hash), run[1..], hash)
  }

  lemma {:induction false} RunKeeps(w: World, run: seq<Event>, hash: Key -> u64)
    requires Inv(w) && Legal(w, run, hash)
    ensures Inv(Final(w, run, hash))
    decreases run
  {
    hide Inv, Apply, Enabled;
    if run != [] {
      StepKeeps(w, run[0], hash);
      RunKeeps(Apply(w, run[0], hash), run[1..], hash);
    }
  }

  /** Reachable worlds: the ends of legal runs from the empty cache. */
  ghost predicate Reachable(w: World, hash: Key -> u64) {
    exists run :: Legal(INITIAL, run, hash) && Final(INITIAL, run, hash) == w
  }

  lemma ReachableInv(w: World, hash: Key -> u64)
    requires Reachable(w, hash)
    ensures Inv(w)
  {
    assert Inv(INITIAL);
    var run :| Legal(INITIAL, run, hash) && Final(INITIAL, run, hash) == w;
    hide *;
    RunKeeps(INITIAL, run, hash);
  }

  function SumGaps(k: nat): nat {
    if k == 0 then 0 else SumGaps(k - 1) + Gap(k)
  }

  lemma {:induction false} PowGrows(m: nat, n: nat)
    requires m <= n
    ensures Pow2(m) <= Pow2(n)
  {
    if m < n {
      PowGrows(m, n - 1);
    }
  }

  lemma {:induction false} SpacedSpan(claims: seq<nat>, j: nat, k: nat)
    requires Spaced(claims) && j + k < |claims|
    ensures claims[j + k] >= claims[j] + SumGaps(k)
  {
    if k > 0 {
      SpacedSpan(claims, j, k - 1);
      PowGrows(Min(k, 5), Min(j + k, 5));
      assert claims[j + k] >= claims[j + k - 1] + Gap(j + k);
    }
  }

  /**
   In every reachable world, any k + 1 claims in a row of one entry generation span at least the sum of
   the back-off delays 500 ms * 2^min(i, 5) for i = 1..k, whoever claimed.
   */
  lemma ClaimsBackOff(w: World, hash: Key -> u64, key: Key, j: nat, k: nat)
    requires Reachable(w, hash) && key in w.cache.entries
    ensures key in w.claims
    ensures j + k < |w.claims[key]| ==> w.claims[key][j + k] - w.claims[key][j] >= SumGaps(k)
  {
    ReachableInv(w, hash);
    assert KeyOk(w, key);
    if j + k < |w.claims[key]| {
      SpacedSpan(w.claims[key], j, k);
    }
  }

  // ------------------------------------------------------------------ failure counts

  /** Claims of the entry's generation that have been released. */
  function ReleasedClaims(e: Entry, claims: seq<nat>): nat {
    if e.claimed && claims != [] then |claims| - 1 else |claims|
  }

  /** In every reachable world the failure count is the number of released claims, up to five. */
  lemma FailuresCounted(w: World, hash: Key -> u64, key: Key)
    requires Reachable(w, hash) && key in w.cache.entries
    ensures key in w.claims
    ensures w.cache.entries[key].failures == Min(ReleasedClaims(w.cache.entries[key], w.claims[key]), 5)
  {
    ReachableInv(w, hash);
    assert KeyOk(w, key);
  }

  /** The entry under `key`, if still there, is not claimed, backs off until `until` and has this many failures. */
  ghost predicate Resting(c: Cache, key: Key, until: nat, failures: nat) {
    key in c.entries ==>
      !c.entries[key].claimed && c.entries[key].retryAfter == until && c.entries[key].failures == failures
  }

  /** Nothing happens to `key` in this event that could end its back-off. */
  predicate Before(ev: Event, key: Key, until: nat) {
    TimeOf(ev) < until && !(ev.Insert? && ev.k == key)
  }

  lemma RestingStep(w: World, ev: Event, hash: Key -> u64, key: Key, until: nat, failures: nat)
    requires Enabled(w, ev) && Resting(w.cache, key, until, failures) && Before(ev, key, until)
    ensures Resting(CacheAfter(w, ev, hash), key, until, failures)
  {
    match ev {
      case Lookup(k, now) =>
        GetEffect(w.cache, k, now);
      case Insert(_, _, _, _, _, _, _, _, _) =>
        hide Without, NewEntry;
      case ReleaseClaim(_, _) =>
      case Prefetch(now, budget) =>
        CandidatesEffect(w.cache, now, budget, hash);
        hide Candidates;
      case Sweep(drop, _) =>
        SweptOk(w.cache, drop);
        hide Swept;
    }
  }

  lemma {:induction false} RestingRun(w: World, run: seq<Event>, hash: Key -> u64, key: Key, until: nat, failures: nat)
    requires Legal(w, run, hash) && Resting(w.cache, key, until, failures)
    requires forall i :: 0 <= i < |run| ==> Before(run[i], key, until)
    ensures Resting(Final(w, run, hash).cache, key, until, failures)
    decreases run
  {
    hide Resting, Enabled, Before, CacheAfter;
    if run != [] {
      RestingStep(w, run[0], hash, key, until, failures);
      RestingRun(Apply(w, run[0], hash), run[1..], hash, key, until, failures);
    }
  }

  /**
   One failed refresh releases its claim twice, with anything in between. Until the back-off of the first
   release is over, and unless the key is stored anew, the second release changes nothing.
   */
  lemma SecondReleaseIdle(w: World, key: Key, t: nat, run: seq<Event>, t': nat, hash: Key -> u64)
    requires Enabled(w, ReleaseClaim(key, t)) && key in w.cache.entries && w.cache.entries[key].claimed
    requires Legal(Apply(w, ReleaseClaim(key, t), hash), run, hash)
    requires var until := t + Backoff(Min(w.cache.entries[key].failures + 1, 5), hash(key));
      forall i :: 0 <= i < |run| ==> Before(run[i], key, until)
    ensures var c := Final(Apply(w, ReleaseClaim(key, t), hash), run, hash).cache;
      && Release(c, key, t', hash(key)) == c
      && (key in c.entries ==> c.entries[key].failures == Min(w.cache.entries[key].failures + 1, 5))
  {
    var w1 := Apply(w, ReleaseClaim(key, t), hash);
    var failures := Min(w.cache.entries[key].failures + 1, 5);
    assert Resting(w1.cache, key, t + Backoff(failures, hash(key)), failures);
    RestingRun(w1, run, hash, key, t + Backoff(failures, hash(key)), failures);
    var c := Final(w1, run, hash).cache;
    if key in c.entries {
      assert c.entries[key := c.entries[key]] == c.entries;
    }
  }

  /** Claims of a key are only added to, until the key is stored anew. */
  lemma {:induction false} ClaimsGrow(w: World, run: seq<Event>, hash: Key -> u64, key: Key)
    requires Legal(w, run, hash) && key in w.claims
    requires forall i :: 0 <= i < |run| ==> !(run[i].Insert? && run[i].k == key)
    ensures key in Final(w, run, hash).claims && w.claims[key] <= Final(w, run, hash).claims[key]
    decreases run
  {
    hide Enabled, CacheAfter, ClaimsOf;
    if run != [] {
      var w1 := Apply(w, run[0], hash);
      assert key in w1.claims && w.claims[key] <= w1.claims[key];
      ClaimsGrow(w1, run[1..], hash, key);
    }
  }

  /**
   With any run between the two releases, the failed refresh has counted as one failure exactly when nobody
   claimed the key again in between, or the count had reached its limit.
   */
  lemma SecondReleaseExact(w: World, key: Key, t: nat, run: seq<Event>, t': nat, hash: Key -> u64)
    requires Inv(w) && Enabled(w, ReleaseClaim(key, t)) && key in w.cache.entries && w.cache.entries[key].claimed
    requires Legal(Apply(w, ReleaseClaim(key, t), hash), run, hash)
    requires forall i :: 0 <= i < |run| ==> !(run[i].Insert? && run[i].k == key)
    requires key in Final(Apply(w, ReleaseClaim(key, t), hash), run, hash).cache.entries
    ensures var w2, failures := Final(Apply(w, ReleaseClaim(key, t), hash), run, hash), w.cache.entries[key].failures;
      && key in w.claims && key in w2.claims
      && (Release(w2.cache, key, t', hash(key)).entries[key].failures == Min(failures + 1, 5)
          <==> w2.claims[key] == w.claims[key] || failures >= 4)
  {
    var w1 := Apply(w, ReleaseClaim(key, t), hash);
    var w2 := Final(w1, run, hash);
    StepKeeps(w, ReleaseClaim(key, t), hash);
    RunKeeps(w1, run, hash);
    assert KeyOk(w, key) && w1.claims[key] == w.claims[key];
    ClaimsGrow(w1, run, hash, key);
    hide Legal, Final, Apply, Enabled, Spaced, UseOk;
    CountedOnce(w, w2, key, t', hash(key));
  }

  lemma CountedOnce(w: World, w2: World, key: Key, t': nat, hash: u64)
    requires Inv(w) && Inv(w2) && key in w.cache.entries && key in w2.cache.entries && w.cache.entries[key].claimed
    requires key in w.claims && key in w2.claims && w.claims[key] <= w2.claims[key]
    ensures Release(w2.cache, key, t', hash).entries[key].failures == Min(w.cache.entries[key].failures + 1, 5)
       <==> w2.claims[key] == w.claims[key] || w.cache.entries[key].failures >= 4
  {
    hide Ok, Spaced, UseOk, Backoff;
    assert KeyOk(w, key) && KeyOk(w2, key);
  }

  lemma {:induction false} LegalConcat(w: World, a: seq<Event>, b: seq<Event>, hash: Key -> u64)
    requires Legal(w, a, hash) && Legal(Final(w, a, hash), b, hash)
    ensures Legal(w, a + b, hash) && Final(w, a + b, hash) == Final(Final(w, a, hash), b, hash)
    decreases a
  {
    hide Enabled, Apply;
    if a == [] {
      assert a + b == b;
    } else {
      assert (a + b)[0] == a[0] && (a + b)[1..] == a[1..] + b;
      LegalConcat(Apply(w, a[0], hash), a[1..], b, hash);
    }
  }

  lemma LegalOne(w: World, ev: Event, hash: Key -> u64)
    requires Enabled(w, ev)
    ensures Legal(w, [ev], hash) && Final(w, [ev], hash) == Apply(w, ev, hash)
  {
    hide Enabled, Apply;
    assert [ev][1..] == [];
    assert Legal(Apply(w, ev, hash), [], hash);
  }

  /** One event more at the end of a run. */
  lemma LegalMore(w: World, run: seq<Event>, ev: Event, hash: Key -> u64)
    requires Legal(w, run, hash) && Enabled(Final(w, run, hash), ev)
    ensures Legal(w, run + [ev], hash) && Final(w, run + [ev], hash) == Apply(Final(w, run, hash), ev, hash)
  {
    LegalOne(Final(w, run, hash), ev, hash);
    LegalConcat(w, run, [ev], hash);
  }

  /** The entry under `key` in these respects. */
  ghost predicate Held(w: World, key: Key, expiresAt: nat, claimed: bool, failures: nat, retryAfter: nat) {
    && Ok(w.cache) && key in w.cache.entries
    && var e := w.cache.entries[key];
    && e.expiresAt == expiresAt && e.claimed == claimed && e.failures == failures && e.retryAfter == retryAfter
  }

  /** A first entry, stored at time 0. */
  lemma StoredFirst(key: Key, ttl: nat, wire: seq<byte>, request: seq<byte>, hash: Key -> u64)
    ensures var ev := Insert(key, ttl, wire, request, 0, 0, 0, 0, true);
      && Enabled(INITIAL, ev) && Apply(INITIAL, ev, hash).clock == 0
      && Held(Apply(INITIAL, ev, hash), key, ttl * SECOND, false, 0, 0)
  {
    var ev := Insert(key, ttl, wire, request, 0, 0, 0, 0, true);
    assert Enabled(INITIAL, ev);
    var w := Apply(INITIAL, ev, hash);
    assert w.cache.recency == [key];
    assert w.cache.entries.Keys == {key};
  }

  /** A miss on the empty cache leaves the world as it is. */
  lemma MissedFirst(key: Key, hash: Key -> u64)
    ensures Enabled(INITIAL, Lookup(key, 0)) && Apply(INITIAL, Lookup(key, 0), hash) == INITIAL
  {
    assert Recorded(map[], [], 0) == map[];
  }

  /** A hit in the stale window, after the back-off, claims the refresh. */
  lemma ClaimedAt(w: World, key: Key, expiresAt: nat, failures: nat, retryAfter: nat, now: nat, hash: Key -> u64)
    requires Held(w, key, expiresAt, false, failures, retryAfter)
    requires w.clock <= now && retryAfter <= now && expiresAt <= now < expiresAt + STALE_WINDOW
    ensures Enabled(w, Lookup(key, now)) && Apply(w, Lookup(key, now), hash).clock == now
    ensures Held(Apply(w, Lookup(key, now), hash), key, expiresAt, true, failures, retryAfter)
    ensures Get(w.cache, key, now).1.Some? && Get(w.cache, key, now).1.value.refresh
  {
    hide Get, Ok;
    GetOk(w.cache, key, now);
    GetEffect(w.cache, key, now);
  }

  lemma ReleasedAt(w: World, key: Key, expiresAt: nat, failures: nat, retryAfter: nat, now: nat, hash: Key -> u64)
    requires Held(w, key, expiresAt, true, failures, retryAfter) && w.clock <= now && failures <= 1
    ensures Enabled(w, ReleaseClaim(key, now)) && Apply(w, ReleaseClaim(key, now), hash).clock == now
    ensures Held(Apply(w, ReleaseClaim(key, now), hash), key, expiresAt, false, failures + 1,
                 now + Backoff(failures + 1, hash(key)))
  {
    hide Backoff;
  }

  /**
   A prefetch scan in a reachable world claims no more entries than it has budget for, each once, and
   only keys that a client hit within the last 300 seconds.
   */
  lemma PrefetchIsWarranted(w: World, now: nat, budget: nat, hash: Key -> u64)
    requires Reachable(w, hash) && w.clock <= now
    ensures forall j :: 0 <= j < |w.cache.recency| ==> w.cache.recency[j] in w.cache.entries
    ensures var claimed := Candidates(w.cache, now, budget, hash).claimed;
      && |claimed| <= budget && Distinct(claimed)
      && forall k :: k in claimed ==> k in w.lastHit && now - w.lastHit[k] < IDLE_LIMIT
  {
    ReachableInv(w, hash);
    CandidatesEffect(w.cache, now, budget, hash);
    forall k | k in Candidates(w.cache, now, budget, hash).claimed
      ensures k in w.lastHit && now - w.lastHit[k] < IDLE_LIMIT
    {
      assert KeyOk(w, k);
    }
  }

}
