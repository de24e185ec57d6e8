/**
 The response cache as its callers see it: a map from key to entry and the keys in order of
 recency. Every operation of the real structure is proved to perform one of these steps.
 */
module CacheModel {
  import opened Basics
  import Wire

  // Instants and durations are nanoseconds.
  const MILLISECOND := 1_000_000
  const SECOND := 1_000_000_000
  const STALE_WINDOW := 30 * SECOND
  const IDLE_LIMIT := 300 * SECOND
  const SCAN_LIMIT: nat := 1024

  type u64 = x: nat | x < 0x1_0000_0000_0000_0000

  datatype Key = Key(name: seq<byte>, rtype: nat, qclass: nat, flags: nat)

  datatype Entry = Entry(
    wire: seq<byte>, request: seq<byte>, ttl: nat, expiresAt: nat, lastUsed: nat, retryAfter: nat,
    reused: bool, failures: nat, claimed: bool)
  {
    function StaleUntil(): nat { expiresAt + STALE_WINDOW }
  }

  datatype Cache = Cache(entries: map<Key, Entry>, recency: seq<Key>)

  const EMPTY_CACHE := Cache(map[], [])

  ghost predicate Distinct<T>(s: seq<T>) {
    forall i, j :: 0 <= i < j < |s| ==> s[i] != s[j]
  }

  /** The recency sequence lists each live key exactly once. */
  ghost predicate Ok(c: Cache) {
    && Distinct(c.recency)
    && (forall k :: k in c.entries <==> k in c.recency)
  }

  function IndexOf<T(==)>(s: seq<T>, x: T): (i: nat)
    requires x in s
    ensures i < |s| && s[i] == x
  {
    if s[0] == x then 0 else 1 + IndexOf(s[1..], x)
  }

  function Without<T(==)>(s: seq<T>, x: T): seq<T> {
    if x in s then s[..IndexOf(s, x)] + s[IndexOf(s, x) + 1..] else s
  }

  function Remove(c: Cache, k: Key): Cache {
    Cache(c.entries - {k}, Without(c.recency, k))
  }

  // ------------------------------------------------------------------- lookups

  datatype Hit = Hit(wire: seq<byte>, refresh: bool, stale: bool)

  function Saturating(a: nat, b: nat): nat {
    if a >= b then a - b else 0
  }

  predicate ShouldRefresh(e: Entry, now: nat) {
    && !e.claimed
    && e.retryAfter <= now
    && (e.expiresAt <= now || e.expiresAt - now <= e.ttl / 10)
  }

  /** Whole seconds since the entry was stored, as the aging argument. */
  function ElapsedSecs(e: Entry, now: nat): nat {
    Min(Saturating(e.ttl, Saturating(e.expiresAt, now)) / SECOND, U32_LIMIT - 1)
  }

  function HitOf(e: Entry, now: nat): Hit {
    Hit(Wire.AgeOut(e.wire, ElapsedSecs(e, now), e.expiresAt <= now), ShouldRefresh(e, now), e.expiresAt <= now)
  }

  function Used(e: Entry, now: nat): Entry {
    e.(lastUsed := now, reused := true, claimed := e.claimed || ShouldRefresh(e, now))
  }

  /** `get_with_flags`. */
  function Get(c: Cache, k: Key, now: nat): (Cache, Option<Hit>) {
    if k !in c.entries then (c, None)
    else
      var e := c.entries[k];
      if e.StaleUntil() <= now then (Remove(c, k), None)
      else (Cache(c.entries[k := Used(e, now)], [k] + Without(c.recency, k)), Some(HitOf(e, now)))
  }

  // ------------------------------------------------------------- refresh claims

  function Pow2(n: nat): (p: nat)
    ensures p > 0
  {
    if n == 0 then 1 else 2 * Pow2(n - 1)
  }

  function Backoff(failures: nat, hash: u64): nat {
    (Pow2(failures) * 500 + hash % 500) * MILLISECOND
  }

  function Released(e: Entry, now: nat, hash: u64): Entry {
    if !e.claimed then e
    else
      var failures := Min(e.failures + 1, 5);
      e.(claimed := false, failures := failures, retryAfter := now + Backoff(failures, hash))
  }

  /** `release_refresh_claim_with_flags`. */
  function Release(c: Cache, k: Key, now: nat, hash: u64): Cache {
    if k !in c.entries then c
    else Cache(c.entries[k := Released(c.entries[k], now, hash)], c.recency)
  }

  predicate Due(e: Entry, now: nat, hash: u64) {
    && e.reused
    && |e.request| > 0
    && !e.claimed
    && e.retryAfter <= now
    && e.StaleUntil() > now
    && Saturating(now, e.lastUsed) < IDLE_LIMIT
    && Saturating(e.expiresAt, now) <= e.ttl * (5 + hash % 6) / 100
  }

  function Claim(c: Cache, k: Key): Cache
    requires k in c.entries
  {
    Cache(c.entries[k := c.entries[k].(claimed := true)], c.recency)
  }

  datatype Scan = Scan(cache: Cache, claimed: seq<Key>)

  /** The prefetch scan from position `i` on: claims due entries until a limit is reached. */
  function ScanFrom(c: Cache, i: nat, steps: nat, now: nat, budget: nat, hash: Key -> u64): (r: Scan)
    requires forall j :: 0 <= j < |c.recency| ==> c.recency[j] in c.entries
    ensures r.cache.recency == c.recency && r.cache.entries.Keys == c.entries.Keys
    ensures |r.claimed| <= budget
    ensures forall k :: k in r.claimed ==> k in c.entries
    decreases steps
  {
    if steps == 0 || budget == 0 || i >= |c.recency| then Scan(c, [])
    else
      var k := c.recency[i];
      if Due(c.entries[k], now, hash(k)) then
        var rest := ScanFrom(Claim(c, k), i + 1, steps - 1, now, budget - 1, hash);
        Scan(rest.cache, [k] + rest.claimed)
      else
        ScanFrom(c, i + 1, steps - 1, now, budget, hash)
  }

  /** `refresh_candidates`: the entries claimed and the stored requests handed out. */
  function Candidates(c: Cache, now: nat, budget: nat, hash: Key -> u64): Scan
    requires forall j :: 0 <= j < |c.recency| ==> c.recency[j] in c.entries
  {
    ScanFrom(c, 0, SCAN_LIMIT, now, budget, hash)
  }

  function Requests(c: Cache, keys: seq<Key>): seq<seq<byte>>
    requires forall k :: k in keys ==> k in c.entries
  {
    if keys == [] then [] else [c.entries[keys[0]].request] + Requests(c, keys[1..])
  }

  lemma {:induction false} RequestsAppend(c: Cache, keys: seq<Key>, k: Key)
    requires (forall q :: q in keys ==> q in c.entries) && k in c.entries
    ensures Requests(c, keys + [k]) == Requests(c, keys) + [c.entries[k].request]
  {
    if keys == [] {
      assert keys + [k] == [k] && [k][1..] == [];
    } else {
      assert (keys + [k])[1..] == keys[1..] + [k];
      RequestsAppend(c, keys[1..], k);
    }
  }

  /** A scan in progress: `m` is the cache so far, `done` the keys claimed and `requests` what was handed out. */
  ghost predicate Scanning(c: Cache, m: Cache, step: nat, now: nat, budget: nat, hash: Key -> u64,
                           done: seq<Key>, requests: seq<seq<byte>>)
  {
    && (forall j :: 0 <= j < |c.recency| ==> c.recency[j] in c.entries)
    && m.recency == c.recency && m.entries.Keys == c.entries.Keys
    && (forall k :: k in c.entries ==> m.entries[k].request == c.entries[k].request)
    && (forall k :: k in done ==> k in c.entries)
    && step <= SCAN_LIMIT && |done| == |requests| <= budget && requests == Requests(c, done)
    && var rest := ScanFrom(m, step, SCAN_LIMIT - step, now, budget - |done|, hash);
       Candidates(c, now, budget, hash) == Scan(rest.cache, done + rest.claimed)
  }

  lemma ScanningStart(c: Cache, now: nat, budget: nat, hash: Key -> u64)
    requires forall j :: 0 <= j < |c.recency| ==> c.recency[j] in c.entries
    ensures Scanning(c, c, 0, now, budget, hash, [], [])
  {
    var rest := ScanFrom(c, 0, SCAN_LIMIT, now, budget, hash);
    assert [] + rest.claimed == rest.claimed;
  }

  lemma ScanFromClaim(m: Cache, i: nat, steps: nat, now: nat, budget: nat, hash: Key -> u64)
    requires forall j :: 0 <= j < |m.recency| ==> m.recency[j] in m.entries
    requires steps > 0 && i < |m.recency| && budget > 0 && Due(m.entries[m.recency[i]], now, hash(m.recency[i]))
    ensures var rest := ScanFrom(Claim(m, m.recency[i]), i + 1, steps - 1, now, budget - 1, hash);
      ScanFrom(m, i, steps, now, budget, hash) == Scan(rest.cache, [m.recency[i]] + rest.claimed)
  {
  }

  lemma ScanningClaim(c: Cache, m: Cache, step: nat, now: nat, budget: nat, hash: Key -> u64,
                      done: seq<Key>, requests: seq<seq<byte>>)
    requires Scanning(c, m, step, now, budget, hash, done, requests)
    requires step < SCAN_LIMIT && step < |m.recency| && |requests| < budget
    requires m.recency[step] in m.entries && Due(m.entries[m.recency[step]], now, hash(m.recency[step]))
    ensures var k := m.recency[step];
      Scanning(c, Claim(m, k), step + 1, now, budget, hash, done + [k], requests + [m.entries[k].request])
  {
    hide ScanFrom, Candidates, Requests, Due;
    var k := m.recency[step];
    RequestsAppend(c, done, k);
    var rest := ScanFrom(Claim(m, k), step + 1, SCAN_LIMIT - step - 1, now, budget - |done| - 1, hash);
    ScanFromClaim(m, step, SCAN_LIMIT - step, now, budget - |done|, hash);
    AppendFirst(done, k, rest.claimed);
  }

  lemma AppendFirst<T>(s: seq<T>, x: T, rest: seq<T>)
    ensures s + ([x] + rest) == s + [x] + rest
    ensures forall y :: y in s + [x] ==> y in s || y == x
  {
  }

  lemma ScanningSkip(c: Cache, m: Cache, step: nat, now: nat, budget: nat, hash: Key -> u64,
                     done: seq<Key>, requests: seq<seq<byte>>)
    requires Scanning(c, m, step, now, budget, hash, done, requests)
    requires step < SCAN_LIMIT && step < |m.recency| && |requests| < budget
    requires m.recency[step] in m.entries && !Due(m.entries[m.recency[step]], now, hash(m.recency[step]))
    ensures Scanning(c, m, step + 1, now, budget, hash, done, requests)
  {
  }

  lemma ScanningDone(c: Cache, m: Cache, step: nat, now: nat, budget: nat, hash: Key -> u64,
                     done: seq<Key>, requests: seq<seq<byte>>)
    requires Scanning(c, m, step, now, budget, hash, done, requests)
    requires step == SCAN_LIMIT || step >= |m.recency| || |requests| == budget
    ensures forall j :: 0 <= j < |c.recency| ==> c.recency[j] in c.entries
    ensures var scan := Candidates(c, now, budget, hash);
      m == scan.cache && requests == Requests(c, scan.claimed)
  {
    assert done + [] == done;
  }

  // -------------------------------------------------------------------- inserts

  /** The cache without its `n` least recent entries. */
  function DropOldest(c: Cache, n: nat): Cache
    requires n <= |c.recency|
  {
    var kept := c.recency[..|c.recency| - n];
    Cache(map k | k in c.entries && k in kept :: c.entries[k], kept)
  }

  /** The entry an insert stores; a replaced entry passes on its use history. */
  function NewEntry(c: Cache, k: Key, ttl: nat, wire: seq<byte>, request: seq<byte>, t0: nat, t1: nat, t2: nat): Entry {
    var replaced := k in c.entries;
    Entry(wire, request, ttl * SECOND, t0 + ttl * SECOND,
          if replaced then c.entries[k].lastUsed else t1, t2, replaced && c.entries[k].reused, 0, false)
  }

  function AddFront(c: Cache, k: Key, e: Entry): Cache {
    Cache(c.entries[k := e], [k] + c.recency)
  }

  /**
   The outcomes of `insert_with_flags` once its size checks pass: the key's old entry goes, then
   `dropped` least recent entries, and the new entry becomes the most recent unless nothing is left.
   */
  ghost predicate InsertStep(c: Cache, c': Cache, k: Key, e: Entry, dropped: nat, stored: bool) {
    var base := Remove(c, k);
    && dropped <= |base.recency|
    && (if stored then c' == AddFront(DropOldest(base, dropped), k, e)
        else dropped == |base.recency| && c' == DropOldest(base, dropped))
  }

  // --------------------------------------------------------------------- sweeps

  function FilterOut<T(==)>(s: seq<T>, drop: set<T>): seq<T> {
    if s == [] then [] else (if s[0] in drop then [] else [s[0]]) + FilterOut(s[1..], drop)
  }

  /** The cache without the keys in `drop`; the others keep their order. */
  function Swept(c: Cache, drop: set<Key>): Cache {
    Cache(c.entries - drop, FilterOut(c.recency, drop))
  }

  lemma WithoutCons<T>(x: T, t: seq<T>, k: T)
    ensures Without([x] + t, k) == if x == k then t else [x] + Without(t, k)
  {
    hide Without, IndexOf;
    var s := [x] + t;
    if x == k {
      IndexOfHead(x, t);
      WithoutIs(s, k, 0);
      assert s[..0] + s[1..] == t;
    } else if k in t {
      IndexOfCons(x, t, k);
      WithoutIs(t, k, IndexOf(t, k));
      WithoutIs(s, k, IndexOf(t, k) + 1);
      SpliceCons(x, t, IndexOf(t, k));
    } else {
      WithoutNone(t, k);
      WithoutNone(s, k);
    }
  }

  lemma WithoutIs<T>(s: seq<T>, k: T, i: nat)
    requires k in s && i == IndexOf(s, k)
    ensures i < |s| && Without(s, k) == s[..i] + s[i + 1..]
  {
  }

  lemma IndexOfHead<T>(x: T, t: seq<T>)
    ensures IndexOf([x] + t, x) == 0
  {
  }

  lemma SpliceCons<T>(x: T, t: seq<T>, i: nat)
    requires i < |t|
    ensures ([x] + t)[..i + 1] + ([x] + t)[i + 2..] == [x] + (t[..i] + t[i + 1..])
  {
  }

  lemma IndexOfCons<T>(x: T, t: seq<T>, k: T)
    requires x != k && k in t
    ensures k in [x] + t && IndexOf([x] + t, k) == IndexOf(t, k) + 1
  {
    var s := [x] + t;
    assert s[1..] == t;
    assert s[1 + IndexOf(t, k)] == k;
  }

  lemma {:induction false} FilterNone<T>(s: seq<T>, drop: set<T>)
    requires forall x :: x in s ==> x !in drop
    ensures FilterOut(s, drop) == s
  {
    if s != [] {
      FilterNone(s[1..], drop);
      assert [s[0]] + s[1..] == s;
    }
  }

  lemma {:induction false} FilterMore<T>(s: seq<T>, drop: set<T>, k: T)
    requires Distinct(s) && k !in drop
    ensures Without(FilterOut(s, drop), k) == FilterOut(s, drop + {k})
  {
    if s != [] {
      var t := s[1..];
      DistinctTail(s);
      hide Without, Distinct;
      FilterMore(t, drop, k);
      if s[0] in drop {
        assert FilterOut(s, drop) == FilterOut(t, drop);
        assert FilterOut(s, drop + {k}) == FilterOut(t, drop + {k});
      } else {
        WithoutCons(s[0], FilterOut(t, drop), k);
        if s[0] == k {
          FilterSame(t, drop, k);
          assert FilterOut(s, drop + {k}) == FilterOut(t, drop + {k});
        }
      }
    } else {
      WithoutNone(s, k);
    }
  }

  lemma WithoutNone<T>(s: seq<T>, k: T)
    requires k !in s
    ensures Without(s, k) == s
  {
  }

  lemma DistinctTail<T>(s: seq<T>)
    requires Distinct(s) && s != []
    ensures Distinct(s[1..]) && s[0] !in s[1..]
  {
  }

  lemma {:induction false} FilterSame<T>(s: seq<T>, drop: set<T>, k: T)
    requires k !in s
    ensures FilterOut(s, drop + {k}) == FilterOut(s, drop)
  {
    if s != [] {
      FilterSame(s[1..], drop, k);
    }
  }

  lemma SweepMore(c: Cache, drop: set<Key>, k: Key)
    requires Ok(c) && k !in drop
    ensures Remove(Swept(c, drop), k) == Swept(c, drop + {k})
  {
    FilterMore(c.recency, drop, k);
    assert c.entries - drop - {k} == c.entries - (drop + {k});
  }

  lemma {:induction false} FilterKeeps<T(!new)>(s: seq<T>, drop: set<T>)
    requires Distinct(s)
    ensures Distinct(FilterOut(s, drop))
    ensures forall x :: x in FilterOut(s, drop) <==> x in s && x !in drop
  {
    if s != [] {
      DistinctTail(s);
      FilterKeeps(s[1..], drop);
      assert s == [s[0]] + s[1..];
    }
  }

  lemma SweptOk(c: Cache, drop: set<Key>)
    requires Ok(c)
    ensures Ok(Swept(c, drop))
    ensures forall k :: k in Swept(c, drop).entries <==> k in c.entries && k !in drop
    ensures forall k :: k in Swept(c, drop).entries ==> Swept(c, drop).entries[k] == c.entries[k]
  {
    FilterKeeps(c.recency, drop);
  }

  lemma SweepNothing(c: Cache)
    ensures Swept(c, {}) == c
  {
    FilterNone(c.recency, {});
    assert c.entries - {} == c.entries;
  }

  // -------------------------------------------------------------- sequence facts

  lemma IndexOfDistinct<T>(s: seq<T>, j: nat)
    requires Distinct(s) && j < |s|
    ensures IndexOf(s, s[j]) == j
  {
  }

  lemma WithoutAt<T>(s: seq<T>, j: nat)
    requires Distinct(s) && j < |s|
    ensures Without(s, s[j]) == s[..j] + s[j + 1..]
  {
    IndexOfDistinct(s, j);
  }

  lemma WithoutKeeps<T(!new)>(s: seq<T>, x: T)
    requires Distinct(s)
    ensures Distinct(Without(s, x))
    ensures forall y :: y in Without(s, x) <==> y in s && y != x
  {
    if x in s {
      var i := IndexOf(s, x);
      var w := s[..i] + s[i + 1..];
      assert forall j :: 0 <= j < |w| ==> w[j] == s[if j < i then j else j + 1];
      forall y | y in s && y != x ensures y in w {
        var j :| 0 <= j < |s| && s[j] == y;
        assert w[if j < i then j else j - 1] == y;
      }
    }
  }

  // ---------------------------------------------------- each step keeps the model

  lemma RemoveOk(c: Cache, k: Key)
    requires Ok(c)
    ensures Ok(Remove(c, k))
  {
    WithoutKeeps(c.recency, k);
  }

  lemma RemoveAbsent(c: Cache, k: Key)
    requires Ok(c) && k !in c.entries
    ensures Remove(c, k) == c
  {
    assert c.entries - {k} == c.entries;
  }

  lemma DroppedAbsent(c: Cache, k: Key, n: nat)
    requires Ok(c) && n <= |Remove(c, k).recency|
    ensures k !in DropOldest(Remove(c, k), n).entries
  {
  }

  lemma GetOk(c: Cache, k: Key, now: nat)
    requires Ok(c)
    ensures Ok(Get(c, k, now).0)
  {
    RemoveOk(c, k);
    WithoutKeeps(c.recency, k);
    var r := [k] + Without(c.recency, k);
    assert forall y :: y in r <==> y == k || y in Without(c.recency, k);
  }

  lemma AddFrontOk(c: Cache, k: Key, e: Entry)
    requires Ok(c) && k !in c.entries
    ensures Ok(AddFront(c, k, e))
  {
    var r := [k] + c.recency;
    assert forall y :: y in r <==> y == k || y in c.recency;
  }

  lemma DropOldestOk(c: Cache, n: nat)
    requires Ok(c) && n <= |c.recency|
    ensures Ok(DropOldest(c, n))
  {
    var kept := c.recency[..|c.recency| - n];
    assert forall k :: k in kept ==> k in c.recency;
  }

  /** Removing the least recent key of what is left drops one more. */
  lemma DropOneMore(c: Cache, n: nat)
    requires Ok(c) && n < |c.recency|
    ensures var d := DropOldest(c, n);
      |d.recency| == |c.recency| - n && DropOldest(c, n + 1) == Remove(d, d.recency[|d.recency| - 1])
  {
    hide Ok, Distinct, Without;
    var d := DropOldest(c, n);
    DropOldestOk(c, n);
    OkDistinct(d);
    RecencyOneMore(c.recency, n, d.recency);
    EntriesOneMore(c.entries, d.recency, c.recency[..|c.recency| - n - 1]);
  }

  lemma RecencyOneMore(recency: seq<Key>, n: nat, rest: seq<Key>)
    requires n < |recency| && rest == recency[..|recency| - n] && Distinct(rest)
    ensures Without(rest, rest[|rest| - 1]) == recency[..|recency| - n - 1] == rest[..|rest| - 1]
  {
    hide Distinct, Without;
    WithoutAt(rest, |rest| - 1);
  }

  /** Keeping all but the last of some keys is keeping them and removing the last. */
  lemma EntriesOneMore(entries: map<Key, Entry>, all: seq<Key>, kept: seq<Key>)
    requires Distinct(all) && all != [] && kept == all[..|all| - 1]
    ensures (map k | k in entries && k in kept :: entries[k])
         == (map k | k in entries && k in all :: entries[k]) - {all[|all| - 1]}
  {
    KeptLast(all, kept);
    hide Distinct;
  }

  lemma OkDistinct(c: Cache)
    requires Ok(c)
    ensures Distinct(c.recency)
  {
  }

  lemma KeptLast(all: seq<Key>, kept: seq<Key>)
    requires Distinct(all) && all != [] && kept == all[..|all| - 1]
    ensures forall k :: k in all <==> k in kept || k == all[|all| - 1]
    ensures all[|all| - 1] !in kept
  {
    assert all == kept + [all[|all| - 1]];
  }

  lemma DropNothing(c: Cache)
    requires Ok(c)
    ensures DropOldest(c, 0) == c
  {
    assert c.recency[..|c.recency|] == c.recency;
  }

  lemma InsertOk(c: Cache, c': Cache, k: Key, e: Entry, dropped: nat, stored: bool)
    requires Ok(c) && InsertStep(c, c', k, e, dropped, stored)
    ensures Ok(c')
  {
    RemoveOk(c, k);
    DropOldestOk(Remove(c, k), dropped);
    if stored {
      AddFrontOk(DropOldest(Remove(c, k), dropped), k, e);
    }
  }
}
