/**
 The query handler over every interleaving of its cache operations, block checks, fetches and refreshes.
 A server state holds the cache world, the published block set and one job per query or refresh under way;
 a step is one job's next access to shared state, so a step makes at most one cache operation.
 */
module Handler {
  import opened Basics
  import opened CacheModel
  import opened Wire
  import CacheLaws
  import CacheRuns
  import ServedTtl
  import WireTheorems

  const A_RECORD_TYPE := 1

  /** An IPv4 address and a TTL. */
  type Host = a: Answer | a.Valid() witness Answer([0, 0, 0, 0], 0)

  datatype BlockMode = Nxdomain | Sinkhole(host: Host)

  datatype Config = Config(statics: map<seq<byte>, Host>, mode: BlockMode, hash: Key -> u64)

  /** A query or refresh under way, between two accesses to shared state. */
  datatype Job =
    | Missed(raw: seq<byte>)      // not in the cache, block set not yet consulted
    | Fetching(raw: seq<byte>)    // allowed, waiting for a fetch of its key
    | Spawning(raw: seq<byte>)    // refresh asked for, not yet allowed
    | Refusing(raw: seq<byte>)    // refresh refused, claim not yet released
    | Refreshing(raw: seq<byte>)  // refresh task waiting for a fetch of its key
    | Finishing(raw: seq<byte>)   // refresh task about to release the claim

  datatype Reply =
    | Malformed
    | Static(message: seq<byte>)
    | Cached(message: seq<byte>, stale: bool)
    | Blocked(message: seq<byte>)

  datatype Server = Server(
    world: CacheRuns.World, blocked: set<seq<byte>>, jobs: map<nat, Job>, replies: map<nat, Reply>)

  const START := Server(CacheRuns.INITIAL, {}, map[], map[])

  /** `dropped` and `stored` are the allocator's part in an insert; `accepted` is false for an oversized response. */
  datatype Step =
    | Ask(id: nat, raw: seq<byte>, now: nat)
    | Check(id: nat)
    | Decide(id: nat, granted: bool)
    | FetchEnds(id: nat, response: Option<seq<byte>>, accepted: bool, t0: nat, t1: nat, now: nat, dropped: nat,
        stored: bool)
    | Joined(id: nat)
    | Finish(id: nat, now: nat)
    | Prefetch(first: nat, now: nat, budget: nat)
    | Sweep(drop: set<Key>, now: nat)
    | Publish(names: set<seq<byte>>)

  /** The cache key of a query: its name, type and class with the DO and CD bits. */
  function KeyOf(raw: seq<byte>): Option<Key> {
    var p := Parse(raw);
    if p.None? then None
    else Some(Key(p.value.1, p.value.0.qtype, p.value.0.qclass,
        Bit(p.value.0.dnssecOk) + 2 * Bit(p.value.0.checkingDisabled)))
  }

  predicate IsRefresh(j: Job) {
    j.Spawning? || j.Refusing? || j.Refreshing? || j.Finishing?
  }

  /** A job whose fetch may still insert a response. */
  predicate MayInsert(j: Job) {
    j.Fetching? || j.Refreshing?
  }

  predicate IsStatic(cfg: Config, raw: seq<byte>) {
    Parse(raw).Some? && Parse(raw).value.1 in cfg.statics
  }

  /** The cache operation a step makes, if any. */
  function EventOf(cfg: Config, s: Server, step: Step): Option<CacheRuns.Event> {
    match step
    case Ask(_, raw, now) =>
      if KeyOf(raw).None? || IsStatic(cfg, raw) then None else Some(CacheRuns.Lookup(KeyOf(raw).value, now))
    case FetchEnds(id, response, accepted, t0, t1, now, dropped, stored) =>
      if id !in s.jobs || KeyOf(s.jobs[id].raw).None? then None
      else
        var raw, key := s.jobs[id].raw, KeyOf(s.jobs[id].raw).value;
        if response.None? || ServedTtl.CacheableTtl(response.value).None? then Some(CacheRuns.ReleaseClaim(key, now))
        else if !accepted then None
        else Some(CacheRuns.Insert(key, ServedTtl.CacheableTtl(response.value).value, response.value, raw, t0, t1, now,
            dropped, stored))
    case Finish(id, now) =>
      if id !in s.jobs || KeyOf(s.jobs[id].raw).None? then None
      else Some(CacheRuns.ReleaseClaim(KeyOf(s.jobs[id].raw).value, now))
    case Prefetch(_, now, budget) => Some(CacheRuns.Prefetch(now, budget))
    case Sweep(drop, now) => Some(CacheRuns.Sweep(drop, now))
    case _ => None
  }

  ghost predicate Enabled(cfg: Config, s: Server, step: Step) {
    && Ok(s.world.cache)
    && (EventOf(cfg, s, step).Some? ==> CacheRuns.Enabled(s.world, EventOf(cfg, s, step).value))
    && match step {
         case Ask(id, _, _) => id !in s.jobs && id !in s.replies
         case Check(id) => id in s.jobs && s.jobs[id].Missed?
         case Decide(id, _) => id in s.jobs && s.jobs[id].Spawning?
         case FetchEnds(id, _, _, _, _, _, _, _) => id in s.jobs && MayInsert(s.jobs[id])
         case Joined(id) => id in s.jobs && MayInsert(s.jobs[id])
         case Finish(id, _) => id in s.jobs && (s.jobs[id].Refusing? || s.jobs[id].Finishing?)
         case Prefetch(first, _, _) => forall id :: id in s.jobs || id in s.replies ==> id < first
         case _ => true
       }
  }

  /** The answer to a query for a blocked name. */
  function BlockedAnswer(cfg: Config, raw: seq<byte>): (message: seq<byte>) {
    if Parse(raw).None? then []
    else
      var q := Parse(raw).value.0;
      if cfg.mode.Nxdomain? then Synthesize(raw, q, ServedTtl.RCODE_NXDOMAIN, None)
      else Synthesize(raw, q, ServedTtl.RCODE_NOERROR, if q.qtype == A_RECORD_TYPE then Some(cfg.mode.host) else None)
  }

  function StaticAnswer(cfg: Config, raw: seq<byte>): (message: seq<byte>)
    requires IsStatic(cfg, raw)
  {
    var q, host := Parse(raw).value.0, cfg.statics[Parse(raw).value.1];
    Synthesize(raw, q, ServedTtl.RCODE_NOERROR, if q.qtype == A_RECORD_TYPE then Some(host) else None)
  }

  /** What the lookup of a query finds. */
  function HitFor(s: Server, raw: seq<byte>, now: nat): Option<Hit> {
    if KeyOf(raw).None? then None else Get(s.world.cache, KeyOf(raw).value, now).1
  }

  ghost function WorldAfter(cfg: Config, s: Server, step: Step): CacheRuns.World
    requires Enabled(cfg, s, step)
  {
    var ev := EventOf(cfg, s, step);
    if ev.Some? then CacheRuns.Apply(s.world, ev.value, cfg.hash) else s.world
  }

  ghost function JobsAfter(cfg: Config, s: Server, step: Step): map<nat, Job>
    requires Enabled(cfg, s, step)
  {
    match step
    case Ask(id, raw, now) =>
      if KeyOf(raw).None? || IsStatic(cfg, raw) then s.jobs
      else
        var hit := HitFor(s, raw, now);
        if hit.None? then s.jobs[id := Missed(raw)]
        else if hit.value.refresh then s.jobs[id := Spawning(raw)]
        else s.jobs
    case Check(id) => if InBlocked(s, s.jobs[id].raw) then s.jobs - {id} else s.jobs[id := Fetching(s.jobs[id].raw)]
    case Decide(id, granted) =>
      var raw := s.jobs[id].raw;
      if KeyOf(raw).None? then s.jobs - {id}
      else if granted && !InBlocked(s, raw) then s.jobs[id := Refreshing(raw)]
      else s.jobs[id := Refusing(raw)]
    case FetchEnds(id, _, _, _, _, _, _, _) => Fetched(s.jobs, id)
    case Joined(id) => Fetched(s.jobs, id)
    case Finish(id, _) => s.jobs - {id}
    case Prefetch(first, now, budget) =>
      CacheRuns.CandidatesEffect(s.world.cache, now, budget, cfg.hash);
      s.jobs + Spawned(Requests(s.world.cache, Candidates(s.world.cache, now, budget, cfg.hash).claimed), first)
    case _ => s.jobs
  }

  predicate InBlocked(s: Server, raw: seq<byte>) {
    Parse(raw).Some? && Parse(raw).value.1 in s.blocked
  }

  /** A fetch for the job's key is over: a client is answered, a refresh goes on to release its claim. */
  function Fetched(jobs: map<nat, Job>, id: nat): map<nat, Job>
    requires id in jobs
  {
    if jobs[id].Refreshing? then jobs[id := Finishing(jobs[id].raw)] else jobs - {id}
  }

  /** One refresh per request, under ids from `first` on. */
  function Spawned(requests: seq<seq<byte>>, first: nat): (jobs: map<nat, Job>)
    ensures forall id :: id in jobs <==> first <= id < first + |requests|
    ensures forall id :: id in jobs ==> jobs[id] == Spawning(requests[id - first])
    decreases |requests|
  {
    if requests == [] then map[] else Spawned(requests[1..], first + 1)[first := Spawning(requests[0])]
  }

  ghost function RepliesAfter(cfg: Config, s: Server, step: Step): map<nat, Reply>
    requires Enabled(cfg, s, step)
  {
    match step
    case Ask(id, raw, now) =>
      if KeyOf(raw).None? then s.replies[id := Malformed]
      else if IsStatic(cfg, raw) then s.replies[id := Static(StaticAnswer(cfg, raw))]
      else
        var hit := HitFor(s, raw, now);
        if hit.Some? then s.replies[id := Cached(SetId(hit.value.wire, Parse(raw).value.0.id), hit.value.stale)]
        else s.replies
    case Check(id) =>
      if InBlocked(s, s.jobs[id].raw) then s.replies[id := Blocked(BlockedAnswer(cfg, s.jobs[id].raw))] else s.replies
    case _ => s.replies
  }

  ghost function Apply(cfg: Config, s: Server, step: Step): Server
    requires Enabled(cfg, s, step)
  {
    Server(WorldAfter(cfg, s, step), if step.Publish? then step.names else s.blocked, JobsAfter(cfg, s, step),
        RepliesAfter(cfg, s, step))
  }

  // ------------------------------------------------------------- one cache operation

  ghost predicate SameStored(e: Entry, e': Entry) {
    e'.wire == e.wire && e'.request == e.request && e'.ttl == e.ttl && e'.expiresAt == e.expiresAt
  }

  /** The entry under `k` after `ev`: the inserted one, or the one that was there, its claim kept, released or taken. */
  ghost predicate EntryEvolves(c: Cache, ev: CacheRuns.Event, claimed: seq<Key>, c': Cache, k: Key)
    requires k in c'.entries
  {
    if ev.Insert? && k == ev.k
    then c'.entries[k] == NewEntry(c, k, ev.ttl, ev.wire, ev.request, ev.t0, ev.t1, ev.t2)
    else
      && k in c.entries && SameStored(c.entries[k], c'.entries[k])
      && (c'.entries[k].claimed ==> k in claimed || (c.entries[k].claimed && !(ev.ReleaseClaim? && ev.k == k)))
  }

  ghost predicate Evolves(c: Cache, ev: CacheRuns.Event, claimed: seq<Key>, c': Cache) {
    forall k :: k in c'.entries ==> EntryEvolves(c, ev, claimed, c', k)
  }

  lemma Evolution(w: CacheRuns.World, ev: CacheRuns.Event, hash: Key -> u64)
    requires CacheRuns.Enabled(w, ev)
    ensures Evolves(w.cache, ev, CacheRuns.ClaimsOf(w, ev, hash), CacheRuns.CacheAfter(w, ev, hash))
  {
    hide *;
    match ev {
      case Lookup(_, _) => LookupEvolves(w, ev, hash);
      case Insert(_, _, _, _, _, _, _, _, _) => InsertEvolves(w, ev, hash);
      case ReleaseClaim(_, _) => ReleaseEvolves(w, ev, hash);
      case Prefetch(_, _) => PrefetchEvolves(w, ev, hash);
      case Sweep(_, _) => SweepEvolves(w, ev, hash);
    }
  }

  lemma LookupEvolves(w: CacheRuns.World, ev: CacheRuns.Event, hash: Key -> u64)
    requires CacheRuns.Enabled(w, ev) && ev.Lookup?
    ensures Evolves(w.cache, ev, CacheRuns.ClaimsOf(w, ev, hash), CacheRuns.CacheAfter(w, ev, hash))
  {
    hide Ok, Get, ShouldRefresh;
    CacheRuns.GetEffect(w.cache, ev.k, ev.now);
  }

  lemma InsertEvolves(w: CacheRuns.World, ev: CacheRuns.Event, hash: Key -> u64)
    requires CacheRuns.Enabled(w, ev) && ev.Insert?
    ensures Evolves(w.cache, ev, CacheRuns.ClaimsOf(w, ev, hash), CacheRuns.CacheAfter(w, ev, hash))
  {
    hide Ok, Without, NewEntry;
  }

  lemma ReleaseEvolves(w: CacheRuns.World, ev: CacheRuns.Event, hash: Key -> u64)
    requires CacheRuns.Enabled(w, ev) && ev.ReleaseClaim?
    ensures Evolves(w.cache, ev, CacheRuns.ClaimsOf(w, ev, hash), CacheRuns.CacheAfter(w, ev, hash))
  {
    hide Ok;
  }

  lemma PrefetchEvolves(w: CacheRuns.World, ev: CacheRuns.Event, hash: Key -> u64)
    requires CacheRuns.Enabled(w, ev) && ev.Prefetch?
    ensures Evolves(w.cache, ev, CacheRuns.ClaimsOf(w, ev, hash), CacheRuns.CacheAfter(w, ev, hash))
  {
    hide Ok, Candidates;
    CacheRuns.CandidatesEffect(w.cache, ev.now, ev.budget, hash);
  }

  lemma SweepEvolves(w: CacheRuns.World, ev: CacheRuns.Event, hash: Key -> u64)
    requires CacheRuns.Enabled(w, ev) && ev.Sweep?
    ensures Evolves(w.cache, ev, CacheRuns.ClaimsOf(w, ev, hash), CacheRuns.CacheAfter(w, ev, hash))
  {
    hide Ok, Swept;
    SweptOk(w.cache, ev.drop);
  }

  // --------------------------------------------------------------------- invariant

  /** The entry was stored under the key its request parses to, for as long as its response allows. */
  ghost predicate EntryOk(k: Key, e: Entry, clock: nat) {
    && KeyOf(e.request) == Some(k)
    && e.ttl <= e.expiresAt <= clock + e.ttl
    && ServedTtl.CacheableTtl(e.wire).Some?
    && ServedTtl.StoredAt(e, e.wire, ServedTtl.CacheableTtl(e.wire).value, e.expiresAt - e.ttl)
  }

  ghost predicate EntriesOk(w: CacheRuns.World) {
    forall k :: k in w.cache.entries ==> EntryOk(k, w.cache.entries[k], w.clock)
  }

  ghost predicate JobsOk(jobs: map<nat, Job>) {
    forall id :: id in jobs ==> KeyOf(jobs[id].raw).Some?
  }

  ghost predicate RefreshOf(jobs: map<nat, Job>, id: nat, k: Key) {
    id in jobs && IsRefresh(jobs[id]) && KeyOf(jobs[id].raw) == Some(k)
  }

  /** Every claimed entry has a refresh under way for its key. */
  ghost predicate ClaimsHeld(c: Cache, jobs: map<nat, Job>) {
    forall k :: k in c.entries && c.entries[k].claimed ==> exists id :: RefreshOf(jobs, id, k)
  }

  ghost predicate Inv(s: Server) {
    CacheRuns.Inv(s.world) && EntriesOk(s.world) && JobsOk(s.jobs) && ClaimsHeld(s.world.cache, s.jobs)
  }

  lemma {:induction false} RequestsAt(c: Cache, keys: seq<Key>, i: nat)
    requires (forall k :: k in keys ==> k in c.entries) && i < |keys|
    ensures |Requests(c, keys)| == |keys| && Requests(c, keys)[i] == c.entries[keys[i]].request
  {
    if |keys| > 1 {
      RequestsAt(c, keys[1..], if i > 0 then i - 1 else 0);
    }
  }

  lemma {:induction false} FirstSoaBound(raw: seq<byte>, recs: seq<Rec>)
    requires forall k :: 0 <= k < |recs| ==> recs[k].at + 8 <= |raw|
    ensures ServedTtl.FirstSoa(raw, recs).Some? ==> ServedTtl.FirstSoa(raw, recs).value < U32_LIMIT
  {
    if recs != [] {
      FirstSoaBound(raw, recs[1..]);
    }
  }

  lemma TtlBound(raw: seq<byte>)
    ensures ServedTtl.CacheableTtl(raw).Some? ==> ServedTtl.CacheableTtl(raw).value < U32_LIMIT
  {
    if ServedTtl.CacheableTtl(raw).Some? {
      if ServedTtl.Answers(raw) != [] {
        var i := ServedTtl.MinTtlAttained(raw, ServedTtl.Answers(raw));
      } else {
        FirstSoaBound(raw, ServedTtl.Authorities(raw));
      }
    }
  }

  // ----------------------------------------------------------------- preservation

  /** Stored requests keep parsing to their keys. */
  lemma EntriesKeep(w: CacheRuns.World, ev: CacheRuns.Event, claimed: seq<Key>, w': CacheRuns.World)
    requires EntriesOk(w) && Evolves(w.cache, ev, claimed, w'.cache) && w.clock <= w'.clock
    requires ev.Insert? ==>
      && KeyOf(ev.request) == Some(ev.k) && ServedTtl.CacheableTtl(ev.wire) == Some(ev.ttl) && ev.t0 <= w'.clock
    ensures EntriesOk(w')
  {
    hide KeyOf, ServedTtl.CacheableTtl;
    forall k | k in w'.cache.entries ensures EntryOk(k, w'.cache.entries[k], w'.clock) {
      assert EntryEvolves(w.cache, ev, claimed, w'.cache, k);
      if ev.Insert? && k == ev.k {
        TtlBound(ev.wire);
      } else {
        assert EntryOk(k, w.cache.entries[k], w.clock);
      }
    }
  }

  /** A claim survives with its refresh: no refresh ends without releasing, and every new claim has one. */
  lemma ClaimsKeep(c: Cache, ev: CacheRuns.Event, claimed: seq<Key>, c': Cache, jobs: map<nat, Job>,
                   jobs': map<nat, Job>)
    requires ClaimsHeld(c, jobs) && Evolves(c, ev, claimed, c')
    requires forall k, id :: RefreshOf(jobs, id, k) && !(ev.ReleaseClaim? && ev.k == k) ==> RefreshOf(jobs', id, k)
    requires forall k :: k in claimed ==> exists id :: RefreshOf(jobs', id, k)
    ensures ClaimsHeld(c', jobs')
  {
    hide KeyOf, RefreshOf;
    forall k | k in c'.entries && c'.entries[k].claimed ensures exists id :: RefreshOf(jobs', id, k) {
      assert EntryEvolves(c, ev, claimed, c', k);
      if k !in claimed {
        var id :| RefreshOf(jobs, id, k);
        assert RefreshOf(jobs', id, k);
      }
    }
  }

  /** A refresh goes on until the step in which it releases its claim. */
  lemma RefreshGoesOn(cfg: Config, s: Server, step: Step, id: nat, k: Key)
    requires JobsOk(s.jobs) && Enabled(cfg, s, step) && RefreshOf(s.jobs, id, k)
    ensures RefreshOf(JobsAfter(cfg, s, step), id, k) || (step.Finish? && step.id == id)
  {
    hide KeyOf, CacheRuns.Enabled, Candidates, Get, HitFor, InBlocked, IsStatic;
  }

  lemma JobsKeep(cfg: Config, s: Server, step: Step)
    requires JobsOk(s.jobs) && EntriesOk(s.world) && Enabled(cfg, s, step)
    ensures JobsOk(JobsAfter(cfg, s, step))
  {
    hide KeyOf, CacheRuns.Enabled, Candidates, Get, HitFor, InBlocked, IsStatic, EventOf;
    if step.Prefetch? {
      PrefetchJobs(cfg, s, step);
    }
  }

  lemma PrefetchJobs(cfg: Config, s: Server, step: Step)
    requires JobsOk(s.jobs) && EntriesOk(s.world) && Enabled(cfg, s, step) && step.Prefetch?
    ensures JobsOk(JobsAfter(cfg, s, step))
  {
    hide KeyOf, Candidates, CacheRuns.Enabled, EventOf, JobsAfter, EntriesOk;
    PrefetchRefresh(cfg, s, step);
    SpawnedRefresh(s.world.cache, Candidates(s.world.cache, step.now, step.budget, cfg.hash).claimed, step.first);
  }

  ghost predicate ParsesBack(c: Cache, keys: seq<Key>) {
    forall k :: k in keys ==> k in c.entries && KeyOf(c.entries[k].request) == Some(k)
  }

  /** Every prefetch claim gets a refresh for exactly its key. */
  lemma SpawnedRefresh(c: Cache, keys: seq<Key>, first: nat)
    requires ParsesBack(c, keys)
    ensures var jobs := Spawned(Requests(c, keys), first);
      && JobsOk(jobs) && (forall id :: id in jobs ==> IsRefresh(jobs[id]))
      && forall k :: k in keys ==> exists id :: RefreshOf(jobs, id, k)
  {
    hide KeyOf, Requests;
    var jobs := Spawned(Requests(c, keys), first);
    forall i | 0 <= i < |keys| ensures |Requests(c, keys)| == |keys|
      && Requests(c, keys)[i] == c.entries[keys[i]].request {
      RequestsAt(c, keys, i);
    }
    RequestsLength(c, keys);
    forall k | k in keys ensures exists id :: RefreshOf(jobs, id, k) {
      var i :| 0 <= i < |keys| && keys[i] == k;
      assert RefreshOf(jobs, first + i, k);
    }
  }

  lemma RequestsLength(c: Cache, keys: seq<Key>)
    requires forall k :: k in keys ==> k in c.entries
    ensures |Requests(c, keys)| == |keys|
  {
    if keys != [] {
      RequestsAt(c, keys, 0);
    }
  }

  lemma PrefetchRefresh(cfg: Config, s: Server, step: Step)
    requires EntriesOk(s.world) && Enabled(cfg, s, step) && step.Prefetch?
    ensures var keys := Candidates(s.world.cache, step.now, step.budget, cfg.hash).claimed;
      && ParsesBack(s.world.cache, keys)
      && JobsAfter(cfg, s, step) == s.jobs + Spawned(Requests(s.world.cache, keys), step.first)
  {
    hide EntriesOk, ParsesBack, Candidates, Requests, Due;
    CacheRuns.CandidatesEffect(s.world.cache, step.now, step.budget, cfg.hash);
    StoredParse(s.world, Candidates(s.world.cache, step.now, step.budget, cfg.hash).claimed);
  }

  lemma StoredParse(w: CacheRuns.World, keys: seq<Key>)
    requires EntriesOk(w) && forall k :: k in keys ==> k in w.cache.entries
    ensures ParsesBack(w.cache, keys)
  {
    hide KeyOf, ServedTtl.StoredAt, ServedTtl.CacheableTtl;
    assert forall k :: k in w.cache.entries ==> EntryOk(k, w.cache.entries[k], w.clock);
  }

  /** Whoever claims a refresh spawns one for the key it claimed. */
  lemma NewClaims(cfg: Config, s: Server, step: Step)
    requires EntriesOk(s.world) && Enabled(cfg, s, step) && EventOf(cfg, s, step).Some?
    ensures forall k :: k in CacheRuns.ClaimsOf(s.world, EventOf(cfg, s, step).value, cfg.hash) ==>
      exists id :: RefreshOf(JobsAfter(cfg, s, step), id, k)
  {
    hide KeyOf, Candidates, Get, CacheRuns.Enabled;
    if step.Ask? {
      var claims := CacheRuns.ClaimsOf(s.world, EventOf(cfg, s, step).value, cfg.hash);
      forall k | k in claims ensures exists id :: RefreshOf(JobsAfter(cfg, s, step), id, k) {
        assert claims == [KeyOf(step.raw).value];
        assert RefreshOf(JobsAfter(cfg, s, step), step.id, k);
      }
    } else if step.Prefetch? {
      PrefetchRefresh(cfg, s, step);
      var keys := Candidates(s.world.cache, step.now, step.budget, cfg.hash).claimed;
      SpawnedRefresh(s.world.cache, keys, step.first);
      hide JobsAfter, Requests;
      forall k | k in keys ensures exists id :: RefreshOf(JobsAfter(cfg, s, step), id, k) {
        var id :| RefreshOf(Spawned(Requests(s.world.cache, keys), step.first), id, k);
        assert RefreshOf(JobsAfter(cfg, s, step), id, k);
      }
    }
  }

  /** What the handler passes to an insert: a parsed request, and the lifetime its response allows. */
  lemma InsertsOk(cfg: Config, s: Server, step: Step)
    requires Enabled(cfg, s, step) && EventOf(cfg, s, step).Some?
    ensures var ev := EventOf(cfg, s, step).value;
      && s.world.clock <= CacheRuns.TimeOf(ev)
      && (ev.Insert? ==>
            && KeyOf(ev.request) == Some(ev.k) && ServedTtl.CacheableTtl(ev.wire) == Some(ev.ttl)
            && ev.t0 <= CacheRuns.TimeOf(ev))
      && (ev.Insert? ==> step.FetchEnds? && step.id in s.jobs && s.jobs[step.id].raw == ev.request)
      && (step.Finish? ==> ev.ReleaseClaim? && step.id in s.jobs && KeyOf(s.jobs[step.id].raw) == Some(ev.k))
  {
    hide KeyOf, ServedTtl.CacheableTtl;
  }

  lemma FinishReleases(cfg: Config, s: Server, step: Step)
    requires JobsOk(s.jobs) && Enabled(cfg, s, step) && step.Finish?
    ensures EventOf(cfg, s, step) == Some(CacheRuns.ReleaseClaim(KeyOf(s.jobs[step.id].raw).value, step.now))
  {
    hide KeyOf;
  }

  lemma StepKeeps(cfg: Config, s: Server, step: Step)
    requires Inv(s) && Enabled(cfg, s, step)
    ensures Inv(Apply(cfg, s, step))
  {
    hide CacheRuns.Inv, EntriesOk, JobsOk, ClaimsHeld, RefreshOf, EventOf, KeyOf, JobsAfter, CacheRuns.Enabled, Evolves;
    var s' := Apply(cfg, s, step);
    JobsKeep(cfg, s, step);
    forall id, k | RefreshOf(s.jobs, id, k) ensures RefreshOf(s'.jobs, id, k) || (step.Finish? && step.id == id) {
      RefreshGoesOn(cfg, s, step, id, k);
    }
    if EventOf(cfg, s, step).Some? {
      var ev := EventOf(cfg, s, step).value;
      CacheRuns.StepKeeps(s.world, ev, cfg.hash);
      Evolution(s.world, ev, cfg.hash);
      InsertsOk(cfg, s, step);
      EntriesKeep(s.world, ev, CacheRuns.ClaimsOf(s.world, ev, cfg.hash), s'.world);
      NewClaims(cfg, s, step);
      forall id, k | RefreshOf(s.jobs, id, k) && !(ev.ReleaseClaim? && ev.k == k) ensures RefreshOf(s'.jobs, id, k) {
        FinishedKey(s, step, ev, id, k);
      }
      ClaimsKeep(s.world.cache, ev, CacheRuns.ClaimsOf(s.world, ev, cfg.hash), s'.world.cache, s.jobs, s'.jobs);
    } else {
      if step.Finish? {
        FinishReleases(cfg, s, step);
      }
      SameClaims(s.world.cache, s.jobs, s'.jobs);
    }
  }

  /** A finishing refresh releases its own key. */
  lemma FinishedKey(s: Server, step: Step, ev: CacheRuns.Event, id: nat, k: Key)
    requires RefreshOf(s.jobs, id, k)
    requires step.Finish? ==> ev.ReleaseClaim? && step.id in s.jobs && KeyOf(s.jobs[step.id].raw) == Some(ev.k)
    ensures step.Finish? && step.id == id ==> ev.ReleaseClaim? && ev.k == k
  {
  }

  lemma SameClaims(c: Cache, jobs: map<nat, Job>, jobs': map<nat, Job>)
    requires ClaimsHeld(c, jobs) && forall k, id :: RefreshOf(jobs, id, k) ==> RefreshOf(jobs', id, k)
    ensures ClaimsHeld(c, jobs')
  {
    hide RefreshOf;
    forall k | k in c.entries && c.entries[k].claimed ensures exists id :: RefreshOf(jobs', id, k) {
      var id :| RefreshOf(jobs, id, k);
      assert RefreshOf(jobs', id, k);
    }
  }

  // -------------------------------------------------------------------------- runs

  ghost predicate Legal(cfg: Config, s: Server, run: seq<Step>)
    decreases run
  {
    run == [] || (Enabled(cfg, s, run[0]) && Legal(cfg, Apply(cfg, s, run[0]), run[1..]))
  }

  ghost function Final(cfg: Config, s: Server, run: seq<Step>): Server
    requires Legal(cfg, s, run)
    decreases run
  {
    if run == [] then s else Final(cfg, Apply(cfg, s, run[0]), run[1..])
  }

  lemma {:induction false} RunKeeps(cfg: Config, s: Server, run: seq<Step>)
    requires Inv(s) && Legal(cfg, s, run)
    ensures Inv(Final(cfg, s, run))
    decreases run
  {
    hide Inv, Enabled, Apply;
    if run != [] {
      StepKeeps(cfg, s, run[0]);
      RunKeeps(cfg, Apply(cfg, s, run[0]), run[1..]);
    }
  }

  lemma ReachableInv(cfg: Config, run: seq<Step>)
    requires Legal(cfg, START, run)
    ensures Inv(Final(cfg, START, run))
  {
    assert Inv(START);
    hide Inv;
    RunKeeps(cfg, START, run);
  }

  /**
   Refresh claims never leak: in every run, every stored request parses back to exactly the key it is stored
   under, and a claimed entry has a refresh for the same key under way.
   */
  lemma ClaimsNeverLeak(cfg: Config, run: seq<Step>, k: Key)
    requires Legal(cfg, START, run) && k in Final(cfg, START, run).world.cache.entries
    ensures var s := Final(cfg, START, run);
      && KeyOf(s.world.cache.entries[k].request) == Some(k)
      && (s.world.cache.entries[k].claimed ==> exists id :: RefreshOf(s.jobs, id, k))
  {
    ReachableInv(cfg, run);
    hide RefreshOf, KeyOf, CacheRuns.Inv, JobsOk, ServedTtl.StoredAt;
    var s := Final(cfg, START, run);
    assert EntryOk(k, s.world.cache.entries[k], s.world.clock);
  }

  ghost predicate Unclaimed(s: Server, k: Key) {
    k in s.world.cache.entries ==> !s.world.cache.entries[k].claimed
  }

  /** A refresh ends in no other way than by leaving its key unclaimed. */
  lemma RefreshEndsReleased(cfg: Config, s: Server, step: Step, id: nat, k: Key)
    requires Inv(s) && Enabled(cfg, s, step) && RefreshOf(s.jobs, id, k)
    ensures RefreshOf(Apply(cfg, s, step).jobs, id, k) || Unclaimed(Apply(cfg, s, step), k)
  {
    RefreshGoesOn(cfg, s, step, id, k);
    if step.Finish? && step.id == id {
      FinishReleases(cfg, s, step);
      var ev := CacheRuns.ReleaseClaim(k, step.now);
      ReleasedNow(s.world, ev, cfg.hash);
    }
  }

  lemma ReleasedNow(w: CacheRuns.World, ev: CacheRuns.Event, hash: Key -> u64)
    requires CacheRuns.Enabled(w, ev) && ev.ReleaseClaim?
    ensures var c := CacheRuns.Apply(w, ev, hash).cache; ev.k in c.entries ==> !c.entries[ev.k].claimed
  {
  }

  /** The job that takes a step, for steps that jobs take. */
  function Owner(step: Step): Option<nat> {
    match step
    case Check(id) => Some(id)
    case Decide(id, _) => Some(id)
    case FetchEnds(id, _, _, _, _, _, _, _) => Some(id)
    case Joined(id) => Some(id)
    case Finish(id, _) => Some(id)
    case _ => None
  }

  /** How many more steps of its own a refresh takes at most. */
  function Rank(j: Job): nat {
    match j
    case Spawning(_) => 3
    case Refreshing(_) => 2
    case _ => 1
  }

  /** Nobody else moves a refresh, and each step of its own brings it closer to the release or is the release. */
  lemma RefreshStep(cfg: Config, s: Server, step: Step, id: nat, k: Key)
    requires Inv(s) && Enabled(cfg, s, step) && RefreshOf(s.jobs, id, k)
    ensures var s' := Apply(cfg, s, step);
      if Owner(step) != Some(id) then id in s'.jobs && s'.jobs[id] == s.jobs[id]
      else Unclaimed(s', k) || (RefreshOf(s'.jobs, id, k) && Rank(s'.jobs[id]) < Rank(s.jobs[id]))
  {
    hide Inv, Enabled, RefreshOf, JobsAfter, Unclaimed, Owner, Rank;
    RefreshEndsReleased(cfg, s, step, id, k);
    InvJobs(s);
    RefreshMoves(cfg, s, step, id, k);
  }

  lemma RefreshMoves(cfg: Config, s: Server, step: Step, id: nat, k: Key)
    requires JobsOk(s.jobs) && Enabled(cfg, s, step) && RefreshOf(s.jobs, id, k)
    ensures id in s.jobs
    ensures var jobs := JobsAfter(cfg, s, step);
      && (Owner(step) != Some(id) ==> id in jobs && jobs[id] == s.jobs[id])
      && (Owner(step) == Some(id) && RefreshOf(jobs, id, k) ==> Rank(jobs[id]) < Rank(s.jobs[id]))
  {
    hide KeyOf, CacheRuns.Enabled, Candidates, Get, HitFor, InBlocked, IsStatic;
  }

  ghost function OwnSteps(run: seq<Step>, id: nat): nat {
    if run == [] then 0 else (if Owner(run[0]) == Some(id) then 1 else 0) + OwnSteps(run[1..], id)
  }

  /** At some point of the run the key is unclaimed. */
  ghost predicate Releases(cfg: Config, s: Server, run: seq<Step>, k: Key)
    requires Legal(cfg, s, run)
    decreases run
  {
    Unclaimed(s, k) || (run != [] && Releases(cfg, Apply(cfg, s, run[0]), run[1..], k))
  }

  /** However a run goes on, by the third step of its own a refresh has released or replaced its claim. */
  lemma {:induction false} RefreshReleases(cfg: Config, s: Server, run: seq<Step>, id: nat, k: Key)
    requires Inv(s) && Legal(cfg, s, run) && RefreshOf(s.jobs, id, k) && OwnSteps(run, id) >= Rank(s.jobs[id])
    ensures Releases(cfg, s, run, k)
    decreases run
  {
    hide Inv, Enabled, Apply, RefreshOf, Unclaimed, KeyOf;
    if !Unclaimed(s, k) {
      RefreshStep(cfg, s, run[0], id, k);
      StepKeeps(cfg, s, run[0]);
      var s1 := Apply(cfg, s, run[0]);
      if !Unclaimed(s1, k) {
        SameRefresh(s.jobs, s1.jobs, id, k);
        RefreshReleases(cfg, s1, run[1..], id, k);
      }
    }
  }

  lemma SameRefresh(jobs: map<nat, Job>, jobs': map<nat, Job>, id: nat, k: Key)
    requires RefreshOf(jobs, id, k)
    ensures id in jobs && (id in jobs' && jobs'[id] == jobs[id] ==> RefreshOf(jobs', id, k))
  {
  }

  /** A refresh's own next step when its fetch fails; `granted` is the semaphore's answer. */
  function OwnNext(j: Job, id: nat, granted: bool, now: nat): Step {
    match j
    case Spawning(_) => Decide(id, granted)
    case Refreshing(_) => FetchEnds(id, None, false, now, now, now, 0, false)
    case _ => Finish(id, now)
  }

  /** A refresh never waits for another job: a step of its own is always enabled. */
  lemma RefreshCanStep(cfg: Config, s: Server, id: nat, k: Key, granted: bool, now: nat)
    requires Inv(s) && RefreshOf(s.jobs, id, k) && s.world.clock <= now
    ensures Enabled(cfg, s, OwnNext(s.jobs[id], id, granted, now))
      && Owner(OwnNext(s.jobs[id], id, granted, now)) == Some(id)
  {
    hide KeyOf, EntriesOk, ClaimsHeld;
  }

  // ------------------------------------------------------- one refresh, two failures

  lemma {:induction false} LegalMore(cfg: Config, s: Server, run: seq<Step>, step: Step)
    requires Legal(cfg, s, run) && Enabled(cfg, Final(cfg, s, run), step)
    ensures Legal(cfg, s, run + [step]) && Final(cfg, s, run + [step]) == Apply(cfg, Final(cfg, s, run), step)
    decreases run
  {
    hide Enabled, Apply;
    if run == [] {
      assert run + [step] == [step] && [step][1..] == [];
      assert Legal(cfg, Apply(cfg, s, step), []);
    } else {
      assert (run + [step])[0] == run[0] && (run + [step])[1..] == run[1..] + [step];
      LegalMore(cfg, Apply(cfg, s, run[0]), run[1..], step);
    }
  }

  /** No id from `n` on is in use, nothing is blocked, and the entry under `k` is as given. */
  ghost predicate Stage(s: Server, n: nat, k: Key, expiresAt: nat, claimed: bool, failures: nat, retryAfter: nat) {
    && (forall id :: id in s.jobs || id in s.replies ==> id < n) && s.blocked == {}
    && CacheRuns.Held(s.world, k, expiresAt, claimed, failures, retryAfter)
  }

  /** A query misses, its fetch succeeds and the response is stored, all at time 0. */
  function StoringRun(raw: seq<byte>, wire: seq<byte>): seq<Step> {
    [Ask(0, raw, 0)] + [Check(0)] + [FetchEnds(0, Some(wire), true, 0, 0, 0, 0, true)]
  }

  lemma StoringStage(cfg: Config, raw: seq<byte>, wire: seq<byte>)
    requires KeyOf(raw).Some? && !IsStatic(cfg, raw) && ServedTtl.CacheableTtl(wire).Some?
    ensures var run, m := StoringRun(raw, wire), ServedTtl.CacheableTtl(wire).value;
      && Legal(cfg, START, run) && Final(cfg, START, run).world.clock == 0
      && Stage(Final(cfg, START, run), 1, KeyOf(raw).value, m * SECOND, false, 0, 0)
  {
    hide KeyOf, IsStatic, ServedTtl.CacheableTtl, CacheRuns.Apply, CacheRuns.Enabled, CacheRuns.Held, Legal, Final;
    var k, m := KeyOf(raw).value, ServedTtl.CacheableTtl(wire).value;
    CacheRuns.MissedFirst(k, cfg.hash);
    CacheRuns.StoredFirst(k, m, wire, raw, cfg.hash);
    var s1 := FirstAsk(cfg, raw);
    LegalMore(cfg, START, [Ask(0, raw, 0)], Check(0));
    var s2 := Apply(cfg, s1, Check(0));
    assert s2.jobs == map[0 := Fetching(raw)] && s2.world == CacheRuns.INITIAL && s2.replies == map[];
    LegalMore(cfg, START, [Ask(0, raw, 0)] + [Check(0)], FetchEnds(0, Some(wire), true, 0, 0, 0, 0, true));
  }

  lemma FirstAsk(cfg: Config, raw: seq<byte>) returns (s: Server)
    requires KeyOf(raw).Some? && !IsStatic(cfg, raw)
    ensures Legal(cfg, START, [Ask(0, raw, 0)]) && s == Final(cfg, START, [Ask(0, raw, 0)])
    ensures s == Server(CacheRuns.INITIAL, {}, map[0 := Missed(raw)], map[])
  {
    hide KeyOf, IsStatic;
    CacheRuns.MissedFirst(KeyOf(raw).value, cfg.hash);
    s := Apply(cfg, START, Ask(0, raw, 0));
    LegalMore(cfg, START, [], Ask(0, raw, 0));
    assert [] + [Ask(0, raw, 0)] == [Ask(0, raw, 0)];
  }

  /** A stale hit after the back-off spawns a refresh. */
  lemma AskStage(cfg: Config, s: Server, id: nat, raw: seq<byte>, k: Key, expiresAt: nat, failures: nat,
                 retryAfter: nat, now: nat)
    requires Stage(s, id, k, expiresAt, false, failures, retryAfter) && KeyOf(raw) == Some(k) && !IsStatic(cfg, raw)
    requires s.world.clock <= now && retryAfter <= now && expiresAt <= now < expiresAt + STALE_WINDOW
    ensures Enabled(cfg, s, Ask(id, raw, now))
    ensures var s' := Apply(cfg, s, Ask(id, raw, now));
      && s'.jobs == s.jobs[id := Spawning(raw)] && s'.world.clock == now
      && Stage(s', id + 1, k, expiresAt, true, failures, retryAfter)
  {
    hide KeyOf, IsStatic, Get, CacheRuns.Apply, CacheRuns.Enabled, Parse;
    CacheRuns.ClaimedAt(s.world, k, expiresAt, failures, retryAfter, now, cfg.hash);
    hide CacheRuns.Held;
  }

  /** A step of refresh 1 that releases the claim of its key. */
  lemma ReleaseStage(cfg: Config, s: Server, n: nat, step: Step, raw: seq<byte>, k: Key, expiresAt: nat, failures: nat,
                     retryAfter: nat)
    requires Stage(s, n, k, expiresAt, true, failures, retryAfter) && KeyOf(raw) == Some(k) && failures <= 1
    requires 1 in s.jobs && s.jobs[1].raw == raw
    requires step.FetchEnds? || step.Finish?
    requires step.id == 1 && s.world.clock <= step.now
    requires if step.Finish? then s.jobs[1].Finishing? else s.jobs[1].Refreshing? && step.response.None?
    ensures Enabled(cfg, s, step)
    ensures var s' := Apply(cfg, s, step);
      && s'.world.clock == step.now && (step.FetchEnds? ==> 1 in s'.jobs && s'.jobs[1] == Finishing(raw))
      && Stage(s', n, k, expiresAt, false, failures + 1, step.now + Backoff(failures + 1, cfg.hash(k)))
  {
    hide KeyOf, CacheRuns.Apply, CacheRuns.Enabled, CacheRuns.Held, Backoff, Ok;
    HeldOk(s.world, k, expiresAt, true, failures, retryAfter);
    CacheRuns.ReleasedAt(s.world, k, expiresAt, failures, retryAfter, step.now, cfg.hash);
  }

  lemma HeldOk(w: CacheRuns.World, k: Key, expiresAt: nat, claimed: bool, failures: nat, retryAfter: nat)
    requires CacheRuns.Held(w, k, expiresAt, claimed, failures, retryAfter)
    ensures Ok(w.cache)
  {
  }

  /** Once stale the entry is hit, which spawns refresh 1; its fetch fails and releases the claim. */
  function FailedRun(raw: seq<byte>, wire: seq<byte>, t: nat): seq<Step> {
    StoringRun(raw, wire) + [Ask(1, raw, t)] + [Decide(1, true)] + [FetchEnds(1, None, false, t, t, t, 0, false)]
  }

  /** Another stale hit comes before refresh 1 ends and releases again. */
  function ReclaimedRun(raw: seq<byte>, wire: seq<byte>, t: nat): seq<Step> {
    FailedRun(raw, wire, t) + [Ask(2, raw, t + 2 * SECOND)] + [Finish(1, t + 2 * SECOND)]
  }

  lemma FailedStage(cfg: Config, raw: seq<byte>, wire: seq<byte>, k: Key, m: nat)
    requires KeyOf(raw) == Some(k) && !IsStatic(cfg, raw) && ServedTtl.CacheableTtl(wire) == Some(m)
    ensures var run, t := FailedRun(raw, wire, m * SECOND), m * SECOND;
      && Legal(cfg, START, run)
      && var s := Final(cfg, START, run);
      && s.world.clock == t && 1 in s.jobs && s.jobs[1] == Finishing(raw)
      && Stage(s, 2, k, t, false, 1, t + Backoff(1, cfg.hash(k)))
  {
    hide *;
    var t, run := m * SECOND, StoringRun(raw, wire);
    StoringStage(cfg, raw, wire);
    var s := Final(cfg, START, run);
    StaleWindow();
    AskStage(cfg, s, 1, raw, k, t, 0, 0, t);
    LegalMore(cfg, START, run, Ask(1, raw, t));
    var s1 := Apply(cfg, s, Ask(1, raw, t));
    DecideStage(cfg, s1, raw, k, t);
    LegalMore(cfg, START, run + [Ask(1, raw, t)], Decide(1, true));
    var s2, fails := Apply(cfg, s1, Decide(1, true)), FetchEnds(1, None, false, t, t, t, 0, false);
    ReleaseStage(cfg, s2, 2, fails, raw, k, t, 0, 0);
    LegalMore(cfg, START, run + [Ask(1, raw, t)] + [Decide(1, true)], fails);
    FailedRunIs(raw, wire, t);
  }

  lemma FailedRunIs(raw: seq<byte>, wire: seq<byte>, t: nat)
    ensures FailedRun(raw, wire, t) ==
      StoringRun(raw, wire) + [Ask(1, raw, t)] + [Decide(1, true)] + [FetchEnds(1, None, false, t, t, t, 0, false)]
  {
  }

  lemma StaleWindow()
    ensures 2 * SECOND < STALE_WINDOW && 0 < SECOND
  {
  }

  /** The two releases of one failed refresh count as two failures when a client claims the key again in between. */
  lemma SecondReleaseCounts(cfg: Config, raw: seq<byte>, wire: seq<byte>, k: Key, m: nat)
    requires KeyOf(raw) == Some(k) && !IsStatic(cfg, raw) && ServedTtl.CacheableTtl(wire) == Some(m)
    ensures var run := ReclaimedRun(raw, wire, m * SECOND);
      && Legal(cfg, START, run)
      && var c := Final(cfg, START, run).world.cache;
      && k in c.entries && c.entries[k].failures == 2
  {
    hide FailedRun, KeyOf, IsStatic, ServedTtl.CacheableTtl, Legal, Final, Enabled, Apply, Stage, Backoff;
    var t := m * SECOND;
    var run, again, retry := FailedRun(raw, wire, t), t + 2 * SECOND, t + Backoff(1, cfg.hash(k));
    FailedStage(cfg, raw, wire, k, m);
    var s := Final(cfg, START, run);
    BackoffBound(cfg.hash(k));
    AskStage(cfg, s, 2, raw, k, t, 1, retry, again);
    LegalMore(cfg, START, run, Ask(2, raw, again));
    var s1 := Apply(cfg, s, Ask(2, raw, again));
    ReleaseStage(cfg, s1, 3, Finish(1, again), raw, k, t, 1, retry);
    LegalMore(cfg, START, run + [Ask(2, raw, again)], Finish(1, again));
    CountedTwice(Apply(cfg, s1, Finish(1, again)), 3, k, t, again + Backoff(2, cfg.hash(k)));
  }

  lemma BackoffBound(hash: u64)
    ensures Backoff(1, hash) < 2 * SECOND
  {
    assert Pow2(1) == 2;
  }

  lemma DecideStage(cfg: Config, s: Server, raw: seq<byte>, k: Key, expiresAt: nat)
    requires Stage(s, 2, k, expiresAt, true, 0, 0) && KeyOf(raw) == Some(k) && 1 in s.jobs && s.jobs[1] == Spawning(raw)
    ensures Enabled(cfg, s, Decide(1, true))
    ensures var s' := Apply(cfg, s, Decide(1, true));
      s'.world == s.world && 1 in s'.jobs && s'.jobs[1] == Refreshing(raw) && Stage(s', 2, k, expiresAt, true, 0, 0)
  {
    hide KeyOf;
  }

  lemma CountedTwice(s: Server, n: nat, k: Key, expiresAt: nat, retryAfter: nat)
    requires Stage(s, n, k, expiresAt, false, 2, retryAfter)
    ensures k in s.world.cache.entries && s.world.cache.entries[k].failures == 2
  {
  }

  // ---------------------------------------------------------------------- blocking

  predicate Names(raw: seq<byte>, name: seq<byte>) {
    KeyOf(raw).Some? && KeyOf(raw).value.name == name
  }

  /** The name is blocked and no fetch for it has already passed its check. */
  ghost predicate Barred(s: Server, name: seq<byte>) {
    name in s.blocked && forall id :: id in s.jobs && MayInsert(s.jobs[id]) ==> !Names(s.jobs[id].raw, name)
  }

  /** Every block set published in the run has the name. */
  ghost predicate KeepsBlocked(run: seq<Step>, name: seq<byte>) {
    forall i :: 0 <= i < |run| && run[i].Publish? ==> name in run[i].names
  }

  /** Entries of the name are among the older ones, with the same lifetime. */
  ghost predicate OnlyOlder(c: Cache, c': Cache, name: seq<byte>) {
    forall k :: k in c'.entries && k.name == name ==>
      k in c.entries && c'.entries[k].expiresAt == c.entries[k].expiresAt
  }

  ghost predicate InsertsName(cfg: Config, s: Server, step: Step, name: seq<byte>) {
    var ev := EventOf(cfg, s, step);
    ev.Some? && ev.value.Insert? && ev.value.k.name == name
  }

  /** No step of the run inserts an answer for the name. */
  ghost predicate NeverInserts(cfg: Config, s: Server, run: seq<Step>, name: seq<byte>)
    requires Legal(cfg, s, run)
    decreases run
  {
    run == [] || (!InsertsName(cfg, s, run[0], name) && NeverInserts(cfg, Apply(cfg, s, run[0]), run[1..], name))
  }

  lemma BarredJobs(cfg: Config, s: Server, step: Step, name: seq<byte>)
    requires JobsOk(s.jobs) && Enabled(cfg, s, step) && Barred(s, name) && (step.Publish? ==> name in step.names)
    ensures Barred(Apply(cfg, s, step), name)
  {
    hide CacheRuns.Enabled, Candidates, Get, HitFor, IsStatic, RepliesAfter, WorldAfter, EventOf, Parse;
    var jobs := JobsAfter(cfg, s, step);
    forall id | id in jobs && MayInsert(jobs[id]) ensures !Names(jobs[id].raw, name) {
      if id in s.jobs && MayInsert(s.jobs[id]) {
        assert jobs[id].raw == s.jobs[id].raw;
      }
    }
  }

  lemma BarredCache(cfg: Config, s: Server, step: Step, name: seq<byte>)
    requires Enabled(cfg, s, step) && Barred(s, name)
    ensures !InsertsName(cfg, s, step, name)
    ensures OnlyOlder(s.world.cache, Apply(cfg, s, step).world.cache, name)
  {
    hide KeyOf, JobsAfter, RepliesAfter;
    var c' := Apply(cfg, s, step).world.cache;
    if EventOf(cfg, s, step).Some? {
      var ev := EventOf(cfg, s, step).value;
      InsertsOk(cfg, s, step);
      Evolution(s.world, ev, cfg.hash);
      hide EventOf, CacheRuns.Enabled, CacheRuns.CacheAfter;
      forall k | k in c'.entries && k.name == name
        ensures k in s.world.cache.entries && c'.entries[k].expiresAt == s.world.cache.entries[k].expiresAt
      {
        assert EntryEvolves(s.world.cache, ev, CacheRuns.ClaimsOf(s.world, ev, cfg.hash), c', k);
      }
    }
  }

  /** While a name stays blocked nothing is inserted for it and its entries only run out. */
  lemma {:induction false} BarredRun(cfg: Config, s: Server, run: seq<Step>, name: seq<byte>)
    requires Inv(s) && Legal(cfg, s, run) && Barred(s, name) && KeepsBlocked(run, name)
    ensures NeverInserts(cfg, s, run, name)
    ensures Inv(Final(cfg, s, run)) && Barred(Final(cfg, s, run), name)
    ensures OnlyOlder(s.world.cache, Final(cfg, s, run).world.cache, name)
    decreases run
  {
    if run != [] {
      var s1 := Apply(cfg, s, run[0]);
      StepKeeps(cfg, s, run[0]);
      BarredJobs(cfg, s, run[0], name);
      BarredCache(cfg, s, run[0], name);
      hide Inv, Enabled, Apply, Barred, InsertsName;
      BarredRun(cfg, s1, run[1..], name);
    }
  }

  /** A query still to be checked against the block set, or answered with the blocked answer. */
  ghost predicate Denied(cfg: Config, s: Server, id: nat, raw: seq<byte>) {
    if id in s.replies then s.replies[id] == Blocked(BlockedAnswer(cfg, raw)) && id !in s.jobs
    else id in s.jobs && s.jobs[id] == Missed(raw)
  }

  lemma DeniedStep(cfg: Config, s: Server, step: Step, id: nat, raw: seq<byte>, name: seq<byte>)
    requires Enabled(cfg, s, step) && Barred(s, name) && Names(raw, name) && Denied(cfg, s, id, raw)
    ensures Denied(cfg, Apply(cfg, s, step), id, raw)
  {
    hide CacheRuns.Enabled, Candidates, Get, HitFor, IsStatic, WorldAfter, EventOf, Parse, StaticAnswer, BlockedAnswer,
      Barred;
    BlockedName(s, raw, name);
  }

  lemma BlockedName(s: Server, raw: seq<byte>, name: seq<byte>)
    requires Barred(s, name) && Names(raw, name)
    ensures InBlocked(s, raw)
  {
  }

  lemma {:induction false} DeniedRun(cfg: Config, s: Server, run: seq<Step>, id: nat, raw: seq<byte>, name: seq<byte>)
    requires Inv(s) && Legal(cfg, s, run) && Barred(s, name) && KeepsBlocked(run, name)
    requires Names(raw, name) && Denied(cfg, s, id, raw)
    ensures Denied(cfg, Final(cfg, s, run), id, raw)
    decreases run
  {
    if run != [] {
      StepKeeps(cfg, s, run[0]);
      BarredJobs(cfg, s, run[0], name);
      DeniedStep(cfg, s, run[0], id, raw, name);
      hide Inv, Enabled, Apply, Barred, Denied, Names;
      DeniedRun(cfg, Apply(cfg, s, run[0]), run[1..], id, raw, name);
    }
  }

  /** Every cached answer for the name is past its stale window at `now`. */
  ghost predicate RunOut(c: Cache, name: seq<byte>, now: nat) {
    forall k :: k in c.entries && k.name == name ==> c.entries[k].StaleUntil() <= now
  }

  /** A query for a name whose answers have run out misses. */
  lemma RunOutMisses(cfg: Config, s: Server, id: nat, raw: seq<byte>, now: nat, name: seq<byte>)
    requires Enabled(cfg, s, Ask(id, raw, now)) && Names(raw, name) && name !in cfg.statics
      && RunOut(s.world.cache, name, now)
    ensures Denied(cfg, Apply(cfg, s, Ask(id, raw, now)), id, raw)
  {
    CacheRuns.GetEffect(s.world.cache, KeyOf(raw).value, now);
    assert HitFor(s, raw, now).None?;
    hide Get, EventOf, WorldAfter, BlockedAnswer, StaticAnswer;
  }

  /**
   A name blocked from some state on, with no fetch past its check: whatever happens next, nothing is inserted
   for it, and once its cached answers have run out a query for it, unless static, is answered as blocked.
   */
  lemma BlockedForGood(cfg: Config, s: Server, before: seq<Step>, ask: Step, after: seq<Step>, name: seq<byte>)
    requires Inv(s) && Barred(s, name) && name !in cfg.statics
    requires Legal(cfg, s, before) && KeepsBlocked(before, name)
    requires ask.Ask? && Names(ask.raw, name) && RunOut(s.world.cache, name, ask.now)
    requires Enabled(cfg, Final(cfg, s, before), ask)
    requires Legal(cfg, Apply(cfg, Final(cfg, s, before), ask), after) && KeepsBlocked(after, name)
    ensures NeverInserts(cfg, s, before, name)
    ensures NeverInserts(cfg, Apply(cfg, Final(cfg, s, before), ask), after, name)
    ensures Denied(cfg, Final(cfg, Apply(cfg, Final(cfg, s, before), ask), after), ask.id, ask.raw)
  {
    hide Inv, Enabled, Apply, Barred, Denied, Names;
    BarredRun(cfg, s, before, name);
    var s1 := Final(cfg, s, before);
    StillRunOut(s.world.cache, s1.world.cache, name, ask.now);
    RunOutMisses(cfg, s1, ask.id, ask.raw, ask.now, name);
    StepKeeps(cfg, s1, ask);
    BarredJobs(cfg, s1, ask, name) by {
      InvJobs(s1);
    }
    var s2 := Apply(cfg, s1, ask);
    BarredRun(cfg, s2, after, name);
    DeniedRun(cfg, s2, after, ask.id, ask.raw, name);
  }

  lemma StillRunOut(c: Cache, c': Cache, name: seq<byte>, now: nat)
    requires OnlyOlder(c, c', name) && RunOut(c, name, now)
    ensures RunOut(c', name, now)
  {
  }

  lemma InvJobs(s: Server)
    requires Inv(s)
    ensures JobsOk(s.jobs) && EntriesOk(s.world)
  {
  }

  /** The blocked answer is a response to the query: its code and its address are the configured ones. */
  lemma BlockedAnswerSays(cfg: Config, raw: seq<byte>)
    requires Parse(raw).Some?
    ensures var msg, q := BlockedAnswer(cfg, raw), Parse(raw).value.0;
      && Parse(WireTheorems.ClearQr(msg)) == Parse(raw) && |msg| >= HEADER_LEN
      && WireTheorems.SaysFlags(msg, q, if cfg.mode.Nxdomain? then 3 else 0)
      && (if cfg.mode.Sinkhole? && q.qtype == 1 then WireTheorems.Carries(msg, q.questionEnd, cfg.mode.host)
          else U16(msg, 6) == 0)
  {
    hide Parse, Synthesize, WireTheorems.ClearQr, WireTheorems.Carries, WireTheorems.SaysFlags;
    var q := Parse(raw).value.0;
    var rcode := if cfg.mode.Nxdomain? then ServedTtl.RCODE_NXDOMAIN else ServedTtl.RCODE_NOERROR;
    var answer := if cfg.mode.Sinkhole? && q.qtype == A_RECORD_TYPE then Some(cfg.mode.host) else None;
    WireTheorems.SynthesizeSays(raw, q, rcode, answer);
    WireTheorems.SynthesizeRoundTrip(raw, q, rcode, answer);
    assert BlockedAnswer(cfg, raw) == Synthesize(raw, q, rcode, answer);
  }

  /** So is the static answer, with NOERROR and the host's address. */
  lemma StaticAnswerSays(cfg: Config, raw: seq<byte>)
    requires IsStatic(cfg, raw)
    ensures var msg, q, name := StaticAnswer(cfg, raw), Parse(raw).value.0, Parse(raw).value.1;
      && Parse(WireTheorems.ClearQr(msg)) == Parse(raw) && |msg| >= HEADER_LEN && WireTheorems.SaysFlags(msg, q, 0)
      && (if q.qtype == 1 then WireTheorems.Carries(msg, q.questionEnd, cfg.statics[name]) else U16(msg, 6) == 0)
  {
    hide Parse, Synthesize, WireTheorems.ClearQr, WireTheorems.Carries, WireTheorems.SaysFlags;
    var q := Parse(raw).value.0;
    var answer := if q.qtype == A_RECORD_TYPE then Some(cfg.statics[Parse(raw).value.1]) else None;
    WireTheorems.SynthesizeSays(raw, q, ServedTtl.RCODE_NOERROR, answer);
    WireTheorems.SynthesizeRoundTrip(raw, q, ServedTtl.RCODE_NOERROR, answer);
    assert StaticAnswer(cfg, raw) == Synthesize(raw, q, ServedTtl.RCODE_NOERROR, answer);
  }

  /** Two queries share a cache entry exactly when they agree in name, type, class, DO and CD. */
  lemma KeyExact(a: seq<byte>, b: seq<byte>)
    ensures KeyOf(a).Some? <==> Parse(a).Some?
    ensures Parse(a).Some? && Parse(b).Some? ==>
      var q, r := Parse(a).value.0, Parse(b).value.0;
      (KeyOf(a) == KeyOf(b) <==>
        Parse(a).value.1 == Parse(b).value.1 && q.qtype == r.qtype && q.qclass == r.qclass
        && q.dnssecOk == r.dnssecOk && q.checkingDisabled == r.checkingDisabled)
  {
    hide Parse;
  }

  /**
   What a query sets off: a malformed one is answered as such and a static one from its table, without touching
   the cache; any other is looked up, waits for its check on a miss, and is refreshed in the background when its
   entry is claimed for it.
   */
  lemma AskExact(cfg: Config, s: Server, id: nat, raw: seq<byte>, now: nat)
    requires Enabled(cfg, s, Ask(id, raw, now))
    ensures var s', p := Apply(cfg, s, Ask(id, raw, now)), Parse(raw);
      && s'.blocked == s.blocked
      && (p.None? ==> s' == s.(replies := s.replies[id := Malformed]))
      && (p.Some? && p.value.1 in cfg.statics ==> s' == s.(replies := s.replies[id := Static(StaticAnswer(cfg, raw))]))
      && (p.Some? && p.value.1 !in cfg.statics ==>
            var k, c := KeyOf(raw).value, s.world.cache;
            var hit := k in c.entries && now < c.entries[k].expiresAt + 30 * SECOND;
            && s'.jobs == (if !hit then s.jobs[id := Missed(raw)]
                           else if CacheLaws.WantsRefresh(c.entries[k], now) then s.jobs[id := Spawning(raw)]
                           else s.jobs)
            && (!hit ==> s'.replies == s.replies)
            && (hit ==> s'.replies.Keys == s.replies.Keys + {id} && s'.replies[id].Cached?))
  {
    hide Parse, HitFor, StaticAnswer, CacheRuns.Enabled, CacheRuns.Apply, CacheLaws.WantsRefresh;
    if Parse(raw).Some? && Parse(raw).value.1 !in cfg.statics {
      HitForExact(s, raw, now);
    }
  }

  lemma HitForExact(s: Server, raw: seq<byte>, now: nat)
    requires Ok(s.world.cache) && KeyOf(raw).Some?
    ensures var k, c, hit := KeyOf(raw).value, s.world.cache, HitFor(s, raw, now);
      && (hit.Some? <==> k in c.entries && now < c.entries[k].expiresAt + 30 * SECOND)
      && (hit.Some? ==> hit.value.refresh == CacheLaws.WantsRefresh(c.entries[k], now))
  {
    CacheLaws.LookupExact(s.world.cache, KeyOf(raw).value, now);
    hide Get, KeyOf, CacheLaws.WantsRefresh;
  }

  /** A miss is fetched unless its name is blocked, a refresh is made if it also gets a permit; no cache is touched. */
  lemma ChecksExact(cfg: Config, s: Server, step: Step)
    requires Enabled(cfg, s, step) && (step.Check? || step.Decide?) && Parse(s.jobs[step.id].raw).Some?
    ensures var s', raw := Apply(cfg, s, step), s.jobs[step.id].raw;
      var blocked := Parse(raw).value.1 in s.blocked;
      && s'.world == s.world && s'.blocked == s.blocked
      && (step.Check? && blocked ==>
            s'.jobs == s.jobs - {step.id} && s'.replies == s.replies[step.id := Blocked(BlockedAnswer(cfg, raw))])
      && (step.Check? && !blocked ==> s'.jobs == s.jobs[step.id := Fetching(raw)] && s'.replies == s.replies)
      && (step.Decide? ==>
            && s'.replies == s.replies
            && s'.jobs == s.jobs[step.id := if step.granted && !blocked then Refreshing(raw) else Refusing(raw)])
  {
    hide Parse, BlockedAnswer, CacheRuns.Enabled;
  }

  /**
   The end of a fetch: no response, or one that may not be cached, counts as a failure of a claimed entry; a
   cacheable one is stored whole with its request, for its lifetime from the first clock reading; an oversized
   one leaves the cache alone.
   */
  lemma FetchExact(cfg: Config, s: Server, step: Step)
    requires Enabled(cfg, s, step) && step.FetchEnds? && KeyOf(s.jobs[step.id].raw).Some?
    ensures var c, c', raw := s.world.cache, Apply(cfg, s, step).world.cache, s.jobs[step.id].raw;
      var k, m := KeyOf(raw).value, if step.response.Some? then ServedTtl.CacheableTtl(step.response.value) else None;
      && (m.None? ==> c' == Release(c, k, step.now, cfg.hash(k)))
      && (m.Some? && !step.accepted ==> c' == c)
      && (m.Some? && step.accepted && step.stored ==>
            && k in c'.entries
            && var e := c'.entries[k];
            && e.wire == step.response.value && e.request == raw && !e.claimed && e.failures == 0
            && e.ttl == m.value * SECOND && e.expiresAt == step.t0 + m.value * SECOND)
  {
    hide KeyOf, ServedTtl.CacheableTtl, Release, DropOldest, Remove;
  }

  // ------------------------------------------------------------------- served TTLs

  /** When a query is answered from the cache, and with what. */
  lemma CachedReply(cfg: Config, s: Server, id: nat, raw: seq<byte>, now: nat)
    requires Enabled(cfg, s, Ask(id, raw, now)) && KeyOf(raw).Some? && !IsStatic(cfg, raw)
    ensures var k, replies := KeyOf(raw).value, RepliesAfter(cfg, s, Ask(id, raw, now));
      && (id in replies <==> k in s.world.cache.entries && now < s.world.cache.entries[k].StaleUntil())
      && (id in replies ==>
            var e := s.world.cache.entries[k];
            replies[id] == Cached(SetId(ServedTtl.Served(e, now), Parse(raw).value.0.id), e.expiresAt <= now))
  {
    hide Parse, EventOf, ServedTtl.StoredAt;
  }

  /**
   From upstream to client, in every run: a query is answered from the cache only within the stale window, a
   fresh answer's minimum TTL is the remaining lifetime rounded up (unless that minimum came from an OPT record
   in the answer section), at least 1, and a stale answer has TTL 0 throughout.
   */
  lemma EndToEndTtl(cfg: Config, run: seq<Step>, id: nat, raw: seq<byte>, now: nat)
    requires Legal(cfg, START, run) && Enabled(cfg, Final(cfg, START, run), Ask(id, raw, now))
    requires KeyOf(raw).Some? && !IsStatic(cfg, raw)
      && id in RepliesAfter(cfg, Final(cfg, START, run), Ask(id, raw, now))
    ensures var s, k := Final(cfg, START, run), KeyOf(raw).value;
      && k in s.world.cache.entries
      && var e := s.world.cache.entries[k];
      && e.ttl <= e.expiresAt <= now + e.ttl && now < e.StaleUntil()
      && RepliesAfter(cfg, s, Ask(id, raw, now))[id]
         == Cached(SetId(ServedTtl.Served(e, now), Parse(raw).value.0.id), e.expiresAt <= now)
      && ServedTtl.CacheableTtl(e.wire).Some? && e.ttl == ServedTtl.CacheableTtl(e.wire).value * SECOND
      && ServedTtl.TtlsServed(e, e.expiresAt - e.ttl, now)
  {
    var s, k := Final(cfg, START, run), KeyOf(raw).value;
    ReachableInv(cfg, run);
    CachedReply(cfg, s, id, raw, now);
    hide KeyOf, Parse, ServedTtl.Served, ServedTtl.CacheableTtl, ServedTtl.TtlsServed, RepliesAfter;
    var e := s.world.cache.entries[k];
    assert EntryOk(k, e, s.world.clock);
    AskClock(cfg, s, id, raw, now);
    ServedTtl.HitTtls(e, ServedTtl.CacheableTtl(e.wire).value, e.expiresAt - e.ttl, now);
  }

  lemma AskClock(cfg: Config, s: Server, id: nat, raw: seq<byte>, now: nat)
    requires Enabled(cfg, s, Ask(id, raw, now)) && KeyOf(raw).Some? && !IsStatic(cfg, raw)
    ensures s.world.clock <= now
  {
  }

  // -------------------------------------------------------------- cached questions

  /** A response that came back passed the question check of the transport for its request. */
  ghost predicate Matched(s: Server, step: Step) {
    step.FetchEnds? && step.response.Some? && step.id in s.jobs ==>
      MatchesRequest(s.jobs[step.id].raw, step.response.value)
  }

  ghost predicate MatchesRequest(request: seq<byte>, wire: seq<byte>) {
    QuestionKey(request).Some? && KeyMatches(QuestionKey(request).value, wire)
  }

  ghost predicate RunMatched(cfg: Config, s: Server, run: seq<Step>)
    requires Legal(cfg, s, run)
    decreases run
  {
    run == [] || (Matched(s, run[0]) && RunMatched(cfg, Apply(cfg, s, run[0]), run[1..]))
  }

  /** Every cached message answers the request stored with it. */
  ghost predicate QuestionsOk(c: Cache) {
    forall k :: k in c.entries ==> MatchesRequest(c.entries[k].request, c.entries[k].wire)
  }

  lemma QuestionsKeep(cfg: Config, s: Server, step: Step)
    requires Enabled(cfg, s, step) && QuestionsOk(s.world.cache) && Matched(s, step)
    ensures QuestionsOk(Apply(cfg, s, step).world.cache)
  {
    hide KeyOf, JobsAfter, RepliesAfter, MatchesRequest;
    var c' := Apply(cfg, s, step).world.cache;
    if EventOf(cfg, s, step).Some? {
      var ev := EventOf(cfg, s, step).value;
      Evolution(s.world, ev, cfg.hash);
      assert ev.Insert? ==> MatchesRequest(ev.request, ev.wire);
      hide EventOf, CacheRuns.Enabled, CacheRuns.CacheAfter;
      forall k | k in c'.entries ensures MatchesRequest(c'.entries[k].request, c'.entries[k].wire) {
        assert EntryEvolves(s.world.cache, ev, CacheRuns.ClaimsOf(s.world, ev, cfg.hash), c', k);
      }
    }
  }

  lemma {:induction false} QuestionsRun(cfg: Config, s: Server, run: seq<Step>)
    requires Legal(cfg, s, run) && RunMatched(cfg, s, run) && QuestionsOk(s.world.cache)
    ensures QuestionsOk(Final(cfg, s, run).world.cache)
    decreases run
  {
    hide Enabled, Apply, QuestionsOk, Matched;
    if run != [] {
      QuestionsKeep(cfg, s, run[0]);
      QuestionsRun(cfg, Apply(cfg, s, run[0]), run[1..]);
    }
  }

  /**
   If every fetched response answered its request, then in every run a message served from the cache asks the
   client's own question: the same type and class, and a name with the same canonical form. Where neither
   name has a dot inside a label, that is the same labels up to case.
   */
  lemma CachedAsksOwn(cfg: Config, run: seq<Step>, id: nat, raw: seq<byte>, now: nat)
    requires Legal(cfg, START, run) && RunMatched(cfg, START, run)
    requires Enabled(cfg, Final(cfg, START, run), Ask(id, raw, now)) && KeyOf(raw).Some? && !IsStatic(cfg, raw)
    requires id in RepliesAfter(cfg, Final(cfg, START, run), Ask(id, raw, now))
    ensures DecodeName(raw, HEADER_LEN).Some? && DecodeName(raw, HEADER_LEN).value.end + 4 <= |raw|
    ensures var reply := RepliesAfter(cfg, Final(cfg, START, run), Ask(id, raw, now))[id];
      var d := DecodeName(raw, HEADER_LEN).value;
      && reply.Cached? && IdOf(reply.message) == IdOf(raw) && WireTheorems.AsksLike(raw, d, reply.message)
      && (WireTheorems.DotFree(d.labels) && WireTheorems.DotFree(DecodeName(reply.message, HEADER_LEN).value.labels)
          ==> WireTheorems.AsksSame(raw, d, reply.message))
  {
    var s, k := Final(cfg, START, run), KeyOf(raw).value;
    ReachableInv(cfg, run);
    QuestionsRun(cfg, START, run);
    CachedReply(cfg, s, id, raw, now);
    var e := s.world.cache.entries[k];
    assert EntryOk(k, e, s.world.clock) && MatchesRequest(e.request, e.wire);
    hide *;
    ServedAsks(e, k, raw, now);
  }

  lemma ServedAsks(e: Entry, k: Key, raw: seq<byte>, now: nat)
    requires KeyOf(e.request) == Some(k) && KeyOf(raw) == Some(k) && MatchesRequest(e.request, e.wire)
    ensures Parse(raw).Some? && Parse(raw).value.0.id == IdOf(raw) && IdOf(raw) < U16_LIMIT
    ensures DecodeName(raw, HEADER_LEN).Some? && DecodeName(raw, HEADER_LEN).value.end + 4 <= |raw|
    ensures var msg, d := SetId(ServedTtl.Served(e, now), IdOf(raw)), DecodeName(raw, HEADER_LEN).value;
      && IdOf(msg) == IdOf(raw) && WireTheorems.AsksLike(raw, d, msg)
      && (WireTheorems.DotFree(d.labels) && WireTheorems.DotFree(DecodeName(msg, HEADER_LEN).value.labels)
          ==> WireTheorems.AsksSame(raw, d, msg))
  {
    hide *;
    SameParse(raw, e.request);
    WireTheorems.SameKeyAsksLike(raw, e.request, e.wire) by {
      AnswersKey(e.request, e.wire);
    }
    var d := DecodeName(raw, HEADER_LEN).value;
    WireTheorems.ServedAsksLike(raw, d, e.wire, ElapsedSecs(e, now), e.expiresAt <= now, IdOf(raw));
    ServedIs(e, now);
    var msg := SetId(ServedTtl.Served(e, now), IdOf(raw));
    DecodedMessage(raw, d, msg);
    if WireTheorems.DotFree(d.labels) && WireTheorems.DotFree(DecodeName(msg, HEADER_LEN).value.labels) {
      WireTheorems.AsksLikeDotFree(raw, d, msg);
    }
  }

  /** Queries with the same key agree on what a cached answer depends on. */
  lemma SameParse(raw: seq<byte>, request: seq<byte>)
    requires KeyOf(raw).Some? && KeyOf(request) == KeyOf(raw)
    ensures Parse(raw).Some? && Parse(request).Some? && Parse(raw).value.1 == Parse(request).value.1
    ensures Parse(raw).value.0.qtype == Parse(request).value.0.qtype
    ensures Parse(raw).value.0.qclass == Parse(request).value.0.qclass
    ensures Parse(raw).value.0.id == IdOf(raw)
  {
    ParsedId(raw);
    hide Parse;
  }

  lemma ParsedId(raw: seq<byte>)
    requires Parse(raw).Some?
    ensures Parse(raw).value.0.id == IdOf(raw)
  {
    hide DecodeName, FindOpt, Dotted;
  }

  lemma AnswersKey(request: seq<byte>, wire: seq<byte>)
    requires MatchesRequest(request, wire)
    ensures QuestionKey(request).Some? && KeyMatches(QuestionKey(request).value, wire)
  {
  }

  lemma ServedIs(e: Entry, now: nat)
    ensures ServedTtl.Served(e, now) == AgeOut(e.wire, ElapsedSecs(e, now), e.expiresAt <= now)
  {
    hide AgeOut;
  }

  lemma DecodedMessage(raw: seq<byte>, d: Decoded, msg: seq<byte>)
    requires d.end + 4 <= |raw| && WireTheorems.AsksLike(raw, d, msg)
    ensures DecodeName(msg, HEADER_LEN).Some?
  {
    hide DecodeName;
  }
}
