/**
 What the cache operations promise, said in terms of an entry's fields: when a lookup hits and asks for a
 refresh, how long a release backs off, and which entries a prefetch scan must and must not claim.
 */
module CacheLaws {
  import opened Basics
  import opened CacheModel
  import CacheRuns
  import Wire

  // ------------------------------------------------------------------------ lookups

  /** An unclaimed entry past its back-off that is stale or has at most a tenth of its lifetime left. */
  ghost predicate WantsRefresh(e: Entry, now: nat) {
    !e.claimed && e.retryAfter <= now && (e.expiresAt <= now || 10 * (e.expiresAt - now) <= e.ttl)
  }

  /** A lookup hits exactly until 30 s after expiry; a hit is aged, marked and becomes the most recent entry. */
  lemma LookupExact(c: Cache, k: Key, now: nat)
    requires Ok(c)
    ensures var (c', hit) := Get(c, k, now);
      && (hit.Some? <==> k in c.entries && now < c.entries[k].expiresAt + 30 * SECOND)
      && (hit.None? ==> c'.entries == c.entries - {k} && c'.recency == Without(c.recency, k))
      && (hit.Some? ==>
            var e := c.entries[k];
            && hit.value == Hit(Wire.AgeOut(e.wire, ElapsedSecs(e, now), e.expiresAt <= now), WantsRefresh(e, now),
                                e.expiresAt <= now)
            && c'.entries
               == c.entries[k := e.(lastUsed := now, reused := true, claimed := e.claimed || hit.value.refresh)]
            && c'.recency == [k] + Without(c.recency, k))
  {
    if k !in c.entries {
      assert c.entries - {k} == c.entries;
    }
  }

  // ------------------------------------------------------------------------ inserts

  /**
   An insert replaces the key's entry, lets go of the `dropped` least recent other ones and touches no other
   entry. The new one lives for its TTL from the first clock reading, starts unclaimed and without failures, and
   takes over when and whether the replaced one was used.
   */
  lemma InsertExact(c: Cache, c': Cache, k: Key, ttl: nat, wire: seq<byte>, request: seq<byte>, t0: nat, t1: nat,
                    t2: nat, dropped: nat)
    requires Ok(c) && InsertStep(c, c', k, NewEntry(c, k, ttl, wire, request, t0, t1, t2), dropped, true)
    ensures var others := Without(c.recency, k);
      && dropped <= |others| && c'.recency == [k] + others[..|others| - dropped]
      && (forall x :: x in c'.entries <==> x == k || x in others[..|others| - dropped])
      && (forall x :: x in c'.entries && x != k ==> x in c.entries && c'.entries[x] == c.entries[x])
    ensures k in c'.entries
      && var e := c'.entries[k];
      && e.wire == wire && e.request == request && e.ttl == ttl * SECOND && e.expiresAt == t0 + ttl * SECOND
      && !e.claimed && e.failures == 0 && e.retryAfter == t2
      && (e.lastUsed, e.reused) == if k in c.entries then (c.entries[k].lastUsed, c.entries[k].reused) else (t1, false)
  {
    WithoutKeeps(c.recency, k);
    hide Without;
  }

  // ----------------------------------------------------------------------- releases

  /** The back-off after each failure: 1, 2, 4, 8 and 16 s, and less than half a second more. */
  lemma BackoffTable(hash: u64)
    ensures 1 * SECOND <= Backoff(1, hash) < 1 * SECOND + 500 * MILLISECOND
    ensures 2 * SECOND <= Backoff(2, hash) < 2 * SECOND + 500 * MILLISECOND
    ensures 4 * SECOND <= Backoff(3, hash) < 4 * SECOND + 500 * MILLISECOND
    ensures 8 * SECOND <= Backoff(4, hash) < 8 * SECOND + 500 * MILLISECOND
    ensures 16 * SECOND <= Backoff(5, hash) < 16 * SECOND + 500 * MILLISECOND
  {
    assert Pow2(1) == 2 && Pow2(2) == 4 && Pow2(3) == 8;
    assert Pow2(4) == 16 && Pow2(5) == 32;
  }

  /** A release changes nothing but a claimed entry's claim, failure count (up to five) and back-off. */
  lemma ReleaseExact(c: Cache, k: Key, now: nat, hash: u64)
    ensures var c' := Release(c, k, now, hash);
      if k in c.entries && c.entries[k].claimed then
        var e, failures := c.entries[k], Min(c.entries[k].failures + 1, 5);
        c' == c.(entries := c.entries[k := e.(claimed := false, failures := failures,
                                              retryAfter := now + Backoff(failures, hash))])
      else c' == c
  {
    if k in c.entries && !c.entries[k].claimed {
      assert c.entries[k := c.entries[k]] == c.entries;
    }
  }

  // -------------------------------------------------------------------- prefetching

  /** What an entry must be for a prefetch to refresh it. */
  ghost predicate Refreshable(e: Entry, now: nat) {
    && e.reused && !e.claimed && |e.request| > 0 && e.retryAfter <= now
    && now < e.expiresAt + 30 * SECOND && now < e.lastUsed + 300 * SECOND
  }

  /** Due means refreshable with at most a tenth of the lifetime left, and includes all with at most a twentieth. */
  lemma DueBounds(e: Entry, now: nat, hash: u64)
    ensures Due(e, now, hash) ==> Refreshable(e, now) && (e.expiresAt <= now || 10 * (e.expiresAt - now) <= e.ttl)
    ensures Refreshable(e, now) && (e.expiresAt <= now || 20 * (e.expiresAt - now) <= e.ttl) ==> Due(e, now, hash)
  {
    var lead := 5 + hash % 6;
    LeadBounds(e.ttl, lead);
  }

  lemma LeadBounds(ttl: nat, lead: nat)
    requires 5 <= lead <= 10
    ensures 5 * ttl <= lead * ttl <= 10 * ttl && ttl * lead == lead * ttl
    ensures ttl * lead / 100 <= ttl / 10 && ttl / 20 <= ttl * lead / 100
  {
    assert 5 * ttl <= lead * ttl <= 10 * ttl;
    assert ttl / 20 == 5 * ttl / 100 && ttl / 10 == 10 * ttl / 100;
  }

  /** A due entry within reach of the scan is claimed unless the budget went to entries before it. */
  /** The scan of the list from `i` on claimed its entry `j`, or spent its budget on entries before that. */
  ghost predicate Reached(recency: seq<Key>, i: nat, j: nat, claimed: seq<Key>, budget: nat)
    requires i <= j < |recency|
  {
    recency[j] in claimed || (|claimed| == budget && forall k :: k in claimed ==> k in recency[i..j])
  }

  lemma {:induction false} ScanReaches(c: Cache, i: nat, steps: nat, now: nat, budget: nat, hash: Key -> u64, j: nat)
    requires Distinct(c.recency) && forall x :: 0 <= x < |c.recency| ==> c.recency[x] in c.entries
    requires i <= j < |c.recency| && j < i + steps && Due(c.entries[c.recency[j]], now, hash(c.recency[j]))
    ensures Reached(c.recency, i, j, ScanFrom(c, i, steps, now, budget, hash).claimed, budget)
    decreases steps
  {
    hide Due, Reached;
    var k, claimed := c.recency[i], ScanFrom(c, i, steps, now, budget, hash).claimed;
    if budget == 0 || i == j {
      ReachedHere(c.recency, i, j, claimed, budget);
    } else if Due(c.entries[k], now, hash(k)) {
      ScanReaches(Claim(c, k), i + 1, steps - 1, now, budget - 1, hash, j);
      ReachedOn(c.recency, i, j, [k], ScanFrom(Claim(c, k), i + 1, steps - 1, now, budget - 1, hash).claimed,
        budget - 1);
    } else {
      ScanReaches(c, i + 1, steps - 1, now, budget, hash, j);
      ReachedOn(c.recency, i, j, [], claimed, budget);
    }
  }

  lemma ReachedHere(recency: seq<Key>, i: nat, j: nat, claimed: seq<Key>, budget: nat)
    requires i <= j < |recency| && (recency[j] in claimed || (claimed == [] && budget == 0))
    ensures Reached(recency, i, j, claimed, budget)
  {
  }

  lemma ReachedOn(recency: seq<Key>, i: nat, j: nat, first: seq<Key>, rest: seq<Key>, budget: nat)
    requires i < j < |recency| && Reached(recency, i + 1, j, rest, budget) && (first == [] || first == [recency[i]])
    ensures Reached(recency, i, j, first + rest, budget + |first|)
    ensures first == [] ==> Reached(recency, i, j, rest, budget)
  {
    assert recency[i..j] == [recency[i]] + recency[i + 1..j];
    assert first == [] ==> first + rest == rest;
  }

  /**
   A prefetch claims only refreshable entries with at most 10% of their lifetime left. It claims every
   refreshable entry among the 1024 most recent that is stale or has at most 5% left, unless its budget went
   to more recent ones.
   */
  lemma CandidatesExact(c: Cache, now: nat, budget: nat, hash: Key -> u64, j: nat)
    requires Ok(c) && j < |c.recency| && c.recency[j] in c.entries
    requires forall x :: 0 <= x < |c.recency| ==> c.recency[x] in c.entries
    ensures var e, claimed := c.entries[c.recency[j]], Candidates(c, now, budget, hash).claimed;
      && (c.recency[j] in claimed ==>
            Refreshable(e, now) && (e.expiresAt <= now || 10 * (e.expiresAt - now) <= e.ttl))
      && (j < 1024 && Refreshable(e, now) && (e.expiresAt <= now || 20 * (e.expiresAt - now) <= e.ttl) ==>
            || c.recency[j] in claimed
            || (|claimed| == budget && forall k :: k in claimed ==> k in c.recency[..j]))
  {
    hide Due;
    var k := c.recency[j];
    DueBounds(c.entries[k], now, hash(k));
    if k in Candidates(c, now, budget, hash).claimed {
      CacheRuns.CandidatesEffect(c, now, budget, hash);
    }
    if j < 1024 && Due(c.entries[k], now, hash(k)) {
      ScanReaches(c, 0, SCAN_LIMIT, now, budget, hash, j);
      assert c.recency[0..j] == c.recency[..j];
    }
  }
}
