/**
 From calls to runs: any sequence of calls on the real cache structure is a run of the abstract cache, so what
 holds in every reachable world holds of what the structure stands for.
 */
module CacheHistory {
  import opened Basics
  import opened ArenaHeap
  import opened CacheModel
  import opened CacheParts
  import opened CacheRuns
  import opened ResponseCache

  /** A call with the clock readings it makes, or the slab range it looks at. */
  datatype Call =
    | GetCall(k: Key, now: nat)
    | InsertCall(k: Key, ttl: nat, wire: seq<byte>, request: seq<byte>, t0: nat, t1: nat, now: nat)
    | ReleaseCall(k: Key, now: nat)
    | PrefetchCall(now: nat, budget: nat)
    | SweepCall(start: nat, end: nat, now: nat)

  /** The clock never goes back under the lock; an insert reads its expiry clock before taking it. */
  ghost predicate Timely(call: Call, clock: nat) {
    clock <= call.now
    && (call.InsertCall? ==> call.t0 <= call.t1 <= call.now && clock <= call.t1 && call.ttl < U32_LIMIT)
  }

  ghost predicate AllTimely(calls: seq<Call>, clock: nat) {
    calls == [] || (Timely(calls[0], clock) && AllTimely(calls[1..], calls[0].now))
  }

  /** `w` becomes `w'` by the events of `run`, and `w'` is the world of the structure's abstract cache. */
  ghost predicate Follows(w: World, run: seq<Event>, w': World, hash: Key -> u64, model: Cache, clock: nat) {
    Legal(w, run, hash) && Final(w, run, hash) == w' && w'.cache == model && w'.clock <= clock
  }

  lemma FollowsNothing(w: World, hash: Key -> u64, clock: nat)
    requires w.clock <= clock
    ensures Follows(w, [], w, hash, w.cache, clock)
  {
  }

  lemma FollowsOne(w: World, ev: Event, hash: Key -> u64)
    requires CacheRuns.Enabled(w, ev)
    ensures Follows(w, [ev], Apply(w, ev, hash), hash, CacheAfter(w, ev, hash), TimeOf(ev))
  {
    LegalOne(w, ev, hash);
  }

  lemma FollowsMore(w: World, run: seq<Event>, w1: World, more: seq<Event>, w2: World, hash: Key -> u64,
                    model: Cache, clock: nat, model': Cache, clock': nat)
    requires Follows(w, run, w1, hash, model, clock) && Follows(w1, more, w2, hash, model', clock')
    ensures Follows(w, run + more, w2, hash, model', clock')
  {
    hide Legal, Final;
    LegalConcat(w, run, more, hash);
  }

  lemma FollowsIs(w: World, run: seq<Event>, w': World, hash: Key -> u64, model: Cache, clock: nat)
    requires Follows(w, run, w', hash, model, clock)
    ensures Legal(w, run, hash) && Final(w, run, hash) == w' && w'.cache == model && w'.clock <= clock
  {
  }

  /** A call stays timely when the clock it is compared with is earlier. */
  lemma TimelyEarlier(call: Call, clock: nat, earlier: nat)
    requires Timely(call, clock) && earlier <= clock
    ensures Timely(call, earlier)
  {
  }

  /** What a call returns. */
  datatype Result = LookedUp(hit: Option<CacheModel.Hit>) | Requested(requests: seq<seq<byte>>) | Done

  /** The result the abstract cache gives for a call; a disabled cache finds and requests nothing. */
  ghost predicate Returned(c: Cache, call: Call, r: Result, enabled: bool, hash: Key -> u64) {
    match call
    case GetCall(k, now) => r == LookedUp(if enabled && |k.name| <= MAX_NAME_LEN then Get(c, k, now).1 else None)
    case PrefetchCall(now, budget) =>
      (forall j :: 0 <= j < |c.recency| ==> c.recency[j] in c.entries)
      && r == Requested(if enabled then Requests(c, Candidates(c, now, budget, hash).claimed) else [])
    case _ => r == Done
  }

  /** One call makes at most one event and returns what the abstract cache gives. */
  method Perform(cache: CacheState, call: Call, ghost w: World)
    returns (r: Result, ghost run: seq<Event>, ghost w': World)
    requires cache.Valid() && cache.model == w.cache && Timely(call, w.clock)
    modifies cache, cache.pool
    ensures cache.Valid() && Returned(w.cache, call, r, cache.enabled, cache.hash)
    ensures Follows(w, run, w', cache.hash, cache.model, call.now)
  {
    hide CacheState.Valid, Ok, Get, Release, Candidates, Swept, NewEntry, DropOldest, AddFront, Remove, Follows;
    hide Requests;
    cache.Bounds();
    FollowsNothing(w, cache.hash, call.now);
    r, run, w' := Done, [], w;
    ghost var ev;
    match call {
      case GetCall(k, now) =>
        var hit := cache.GetWithFlags(k, now);
        r := LookedUp(hit);
        if !cache.enabled || |k.name| > MAX_NAME_LEN { return; }
        ev := Lookup(k, now);
      case InsertCall(k, ttl, wire, request, t0, t1, now) =>
        var refused := !cache.enabled || |k.name| > MAX_NAME_LEN || |request| >= U16_LIMIT
          || |k.name| + |wire| + |request| > cache.pool.Length;
        ghost var dropped, stored, room := cache.InsertWithFlags(k, ttl, wire, request, t0, t1, now);
        if refused { return; }
        ev := Insert(k, ttl, wire, request, t0, t1, now, dropped, stored);
      case ReleaseCall(k, now) =>
        cache.ReleaseRefreshClaim(k, now);
        ev := ReleaseClaim(k, now);
      case PrefetchCall(now, budget) =>
        var requests := cache.RefreshCandidates(now, budget);
        r := Requested(requests);
        if !cache.enabled { return; }
        ev := Prefetch(now, budget);
      case SweepCall(start, end, now) =>
        SweptExpired(cache);
        ghost var dropped := cache.EvictExpiredBatch(start, end, now);
        ev := Sweep(dropped, now);
    }
    FollowsOne(w, ev, cache.hash);
    run, w' := [ev], Apply(w, ev, cache.hash);
  }

  /** Items carry the entries of the abstract cache. */
  lemma SweptExpired(cache: CacheState)
    requires cache.Valid()
    ensures forall i :: i in cache.items ==>
      cache.items[i].key in cache.model.entries && cache.model.entries[cache.items[i].key] == cache.items[i].entry
  {
  }

  /** `w'` is a world the run from `w` passes through. */
  ghost predicate Along(w: World, run: seq<Event>, w': World, hash: Key -> u64) {
    exists n :: 0 <= n <= |run| && Legal(w, run[..n], hash) && Final(w, run[..n], hash) == w'
  }

  /** Call by call, the results are those of the abstract cache in worlds the run passes through. */
  ghost predicate Results(w: World, run: seq<Event>, calls: seq<Call>, results: seq<Result>, worlds: seq<World>,
                          enabled: bool, hash: Key -> u64)
  {
    |worlds| == |results| <= |calls|
    && forall i :: 0 <= i < |results| ==>
         Along(w, run, worlds[i], hash) && Returned(worlds[i].cache, calls[i], results[i], enabled, hash)
  }

  lemma AlongMore(w: World, run: seq<Event>, more: seq<Event>, w': World, hash: Key -> u64)
    requires Along(w, run, w', hash)
    ensures Along(w, run + more, w', hash)
  {
    hide Legal, Final;
    var n :| 0 <= n <= |run| && Legal(w, run[..n], hash) && Final(w, run[..n], hash) == w';
    assert (run + more)[..n] == run[..n];
  }

  lemma ResultsMore(w: World, run: seq<Event>, more: seq<Event>, w1: World, calls: seq<Call>, results: seq<Result>,
                    worlds: seq<World>, r: Result, enabled: bool, hash: Key -> u64)
    requires Results(w, run, calls, results, worlds, enabled, hash) && |results| < |calls|
    requires Legal(w, run, hash) && Final(w, run, hash) == w1
    requires Returned(w1.cache, calls[|results|], r, enabled, hash)
    ensures Results(w, run + more, calls, results + [r], worlds + [w1], enabled, hash)
  {
    hide Legal, Final, Returned, Along;
    AlongHere(w, run, w1, hash);
    var rs, ws := results + [r], worlds + [w1];
    forall i | 0 <= i < |rs|
      ensures Along(w, run + more, ws[i], hash) && Returned(ws[i].cache, calls[i], rs[i], enabled, hash)
    {
      if i < |results| {
        assert ws[i] == worlds[i] && rs[i] == results[i];
        AlongMore(w, run, more, worlds[i], hash);
      } else {
        AlongMore(w, run, more, w1, hash);
      }
    }
  }

  lemma AlongHere(w: World, run: seq<Event>, w': World, hash: Key -> u64)
    requires Legal(w, run, hash) && Final(w, run, hash) == w'
    ensures Along(w, run, w', hash)
  {
    hide Legal, Final;
    assert run[..|run|] == run;
  }

  /** Any timely sequence of calls on a valid cache is a run of the abstract cache with the same results. */
  method PerformAll(cache: CacheState, calls: seq<Call>, ghost w: World)
    returns (results: seq<Result>, ghost run: seq<Event>, ghost w': World, ghost worlds: seq<World>)
    requires cache.Valid() && cache.model == w.cache && AllTimely(calls, w.clock)
    modifies cache, cache.pool
    ensures cache.Valid() && Legal(w, run, cache.hash) && Final(w, run, cache.hash) == w' && cache.model == w'.cache
    ensures |results| == |calls| && Results(w, run, calls, results, worlds, cache.enabled, cache.hash)
  {
    hide CacheState.Valid, Legal, Final, Follows, Timely, Returned, Along;
    results, run, w', worlds := [], [], w, [];
    ghost var clock := w.clock;
    FollowsNothing(w, cache.hash, clock);
    for i := 0 to |calls|
      invariant cache.Valid() && Follows(w, run, w', cache.hash, cache.model, clock) && AllTimely(calls[i..], clock)
      invariant |results| == i && Results(w, run, calls, results, worlds, cache.enabled, cache.hash)
    {
      assert calls[i..][0] == calls[i] && calls[i..][1..] == calls[i + 1..];
      FollowsIs(w, run, w', cache.hash, cache.model, clock);
      TimelyEarlier(calls[i], clock, w'.clock);
      ghost var model, more, next := cache.model, [], w';
      var r;
      r, more, next := Perform(cache, calls[i], w');
      FollowsMore(w, run, w', more, next, cache.hash, model, clock, cache.model, calls[i].now);
      ResultsMore(w, run, more, w', calls, results, worlds, r, cache.enabled, cache.hash);
      results, run, worlds, w', clock := results + [r], run + more, worlds + [w'], next, calls[i].now;
    }
    FollowsIs(w, run, w', cache.hash, cache.model, clock);
  }

  /** After any calls since it was created a cache stands for a reachable world, reached through the calls' results. */
  method History(enabled: bool, maxSize: nat, hash: Key -> u64, policy: Policy, calls: seq<Call>)
    returns (cache: CacheState, results: seq<Result>, ghost w: World, ghost run: seq<Event>, ghost worlds: seq<World>)
    requires maxSize <= MAX_POOL && AllTimely(calls, 0)
    ensures cache.Valid() && cache.hash == hash && Reachable(w, hash) && cache.model == w.cache
    ensures Legal(INITIAL, run, hash) && Final(INITIAL, run, hash) == w
    ensures |results| == |calls| && Results(INITIAL, run, calls, results, worlds, cache.enabled, hash)
  {
    cache := new CacheState(enabled, maxSize, hash, policy);
    results, run, w, worlds := PerformAll(cache, calls, INITIAL);
  }
}
