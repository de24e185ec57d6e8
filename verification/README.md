# dns-rs: a verified model

dns-rs is a filtering DNS forwarder. A query is parsed from its wire bytes, answered from static
hosts, from a response cache, from a block set, or by asking encrypted upstreams, and popular cache
entries are refreshed in the background. This project models that core in Dafny and proves what it
keeps in every state and over every run.

* `Wire`, `WireTheorems`, `QueryLaws`: the wire layer. Name and record walking, query parsing, question keys,
  TTL aging in place, synthesized answers.
* `CacheModel`, `CacheParts`, `ArenaHeap`, `Probing`, `ResponseCache`: the response cache.
  `CacheModel` is a plain map with a recency sequence. `ResponseCache.CacheState` is the real
  structure (open-addressed table with tombstones, slab with a free list, intrusive LRU list, byte
  pool with a heap), and every one of its operations is proved to be one step of the plain map.
* `CacheLaws`: what each cache operation promises, said in terms of the fields of an entry.
* `CacheRuns`, `UseHistory`, `CacheHistory`: every run of cache operations: refresh back-off, failure counts,
  what the recency order stands for; any sequence of calls on the real structure is such a run.
* `ServedTtl`: how long an answer may be cached and which TTLs a hit shows the client.
* `Blocklist`, `Republish`: the domain index as a set of names, merging, and the protocol by which
  refreshed sources become published block sets.
* `DotConnection`: one multiplexed DNS-over-TLS connection as a transition system.
* `Strategies`: sequential, hedged and racing upstream resolution.
* `Handler`: queries, fetches and refreshes interleaved over the cache and the block set.

Time is a natural number of nanoseconds. Hash functions are arbitrary functions. The allocator is an
arbitrary policy over its own history, filtered by its contract: a block it hands out is inside the
pool and apart from every live block, and it may always fail.

Where the code and its documentation disagree the model follows the code:

* `config.example.toml` (lines 86-87) says that a full pool evicts expired entries first; the code
  making room for a response only evicts the least recently used entry, and so does the model.
* An OPT record in an answer section is never aged, although its TTL field counts towards the cache
  lifetime, so the served minimum is then not the remaining lifetime. `ServedTtl.OptAnswerNotAged` is such
  a message. That it is cached at all assumes that the decoding library, which is not part of this model,
  accepts an OPT record there, as the record walk standing in for it does. `ServedTtl.FreshHitTtl` states
  exactly when the served minimum is right, and `ServedTtl.FreshHitExact` that it always is without OPT
  records among the answers.
* A refresh releases its claim twice, once when its fetch fails and once when it ends. The second release
  is meant to change nothing. When the back-off of the first is over and somebody has claimed the key again
  in between, it counts as a second failure (`Handler.SecondReleaseCounts`);
  `CacheRuns.SecondReleaseExact` states exactly when it does not.
* `age_ttls` may have aged the first records of a message by the time it returns false. `Wire.AgeOut`
  does the same.
* `parse_query` accepts names of 256 encoded octets, one more than section 2.3.4 of RFC 1035 allows;
  for exactly these no question key exists (`WireTheorems.LongNameHasNoKey` is one).
* Case folding in question matching also covers the QTYPE and QCLASS octets.
* The dotted form of a name does not tell a dot inside a label from a separator, so two different queries
  can share a cache key (`WireTheorems.DottedCollision`); `WireTheorems.SameNameExactly` states exactly
  when they do.

## Model

| member | source | states |
|---|---|---|
| Wire.SkipNameLoop | src/dns/wire.rs:169-184 | The loop over labels and compression pointers ends where the recursive reading of a name ends, or fails when that fails. |
| Wire.AgeTtls | src/dns/wire.rs:248-301 | Aging in place returns whether the whole message walks, and leaves exactly the aged message, also in the part reached before a malformed record. |
| Wire.FindOptLoop | src/dns/wire.rs:188-213 | The scan for an OPT record agrees with its record-by-record definition, including malformed records. |
| Wire.ParseQuery | src/dns/wire.rs:104-165 | The one-pass parser accepts exactly the queries whose label-list reading is acceptable, with the same fields, and writes the canonical name. |
| Wire.SetId | src/dns/wire.rs:218-222 | The message ID becomes the given one and nothing else changes; messages too short to have one are left alone. |
| WireTheorems.AgeOutExact | src/dns/wire.rs:248-301 | A message is the result of aging if and only if each non-OPT TTL is the old one reduced with saturation (or zeroed) and every other octet is unchanged. |
| WireTheorems.LayoutSeparated | src/dns/wire.rs:248-301 | The TTL fields the walk finds lie inside the message and never overlap, for every message. |
| WireTheorems.AgeOutLayout | src/dns/wire.rs:248-301 | Aging changes no record boundary. |
| WireTheorems.AgeCompose | src/dns/wire.rs:248-301 | Aging by a and then by b is aging by a+b, and zeroing wins wherever it comes. |
| WireTheorems.DecodeIsEncoding | src/dns/wire.rs:104-149 | A decoded question name is, octet for octet, the encoding of the labels returned. |
| WireTheorems.EncodingDecodes | src/dns/wire.rs:104-149 | The encoding of any valid label list decodes to that list and ends where the encoding ends. |
| WireTheorems.DecodeSkips | src/dns/wire.rs:169-184 | Skipping a name and decoding it agree on where it ends. |
| WireTheorems.SameNameExactly | src/dns/wire.rs:104-149 | Two accepted queries have the same canonical name if and only if their labels, each split at its dots, agree up to ASCII case. |
| WireTheorems.DottedExact | src/dns/wire.rs:120-149 | The same equivalence for any two valid label lists. |
| WireTheorems.DottedInjective | src/dns/wire.rs:120-149 | Hence for labels without dots two names have the same dotted form if and only if their labels agree up to ASCII case. |
| WireTheorems.DottedCollision | src/dns/wire.rs:104-149 | Two accepted queries with different labels and the same canonical name. |
| WireTheorems.SpanOfAccepted | src/dns/wire.rs:226-233 | For every accepted query the question span is the parsed question, and a question key exists if and only if the encoded name has at most 255 octets. |
| WireTheorems.LongNameHasNoKey | src/dns/wire.rs:21-42 | A query for a name of 256 encoded octets is accepted and has no question key. |
| WireTheorems.KeyMatchesExactly | src/dns/wire.rs:30-49 | A question key matches a message if and only if that message has one question with the same labels up to ASCII case and type and class octets equal up to case folding. |
| WireTheorems.SynthesizeRoundTrip | src/dns/wire.rs:310-350 | Clearing the QR bit of a synthesized response and parsing it gives back the same query and name, for every accepted query, with EDNS, DO and CD. |
| WireTheorems.SynthesizeWalks | src/dns/wire.rs:310-350 | A synthesized response has at most 299 octets and its record walk consumes it exactly. |
| WireTheorems.SynthesizeSays | src/dns/wire.rs:310-350 | A synthesized response has QR and RA set, the query's opcode, RD and CD and the given code, carries exactly the given address and TTL as one A record after its question, or no answer, and ends with an OPT record of payload size 1232 and the query's DO if and only if the query had one. |
| QueryLaws.QueryParses | src/dns/wire.rs:104-165 | Every message with QR clear, one question and a name of at most 255 dotted octets is accepted, whatever else it holds, and its ID, canonical name, type, class and question end are those octets of the message. |
| QueryLaws.ParsedIsQuery | src/dns/wire.rs:104-165 | Nothing else is accepted. |
| QueryLaws.FlagsRead | src/dns/wire.rs:104-165 | From flag octets composed field by field, opcode, RD and CD are read back, whatever AA, TC, RA, Z, AD and the code are. |
| QueryLaws.OptExact | src/dns/wire.rs:188-213 | A query has EDNS if and only if the record walk meets an OPT record in the additional section, whatever follows it, and DO is that of the first one. |
| QueryLaws.FoldsLetterCase | src/dns/wire.rs:236-240 | Case folding identifies the two cases of each ASCII letter and nothing else. |
| ResponseCache.CacheState.constructor | src/dns/cache.rs:115-142 | A new cache is valid and empty, and disabled below 64 octets. |
| ResponseCache.CacheState.Locate | src/dns/cache.rs:504-532 | Probing terminates and finds a key exactly when it is live, past tombstones; otherwise it names a free slot every probe for the key reaches. |
| ResponseCache.CacheState.Rehash | src/dns/cache.rs:546-574 | The new table indexes exactly the live entries and has no tombstones. |
| ResponseCache.CacheState.EnsureTableCapacity | src/dns/cache.rs:534-544 | Afterwards one more entry keeps the table under three quarters full; entries are only moved between slots. |
| CacheParts.RehashFreesRoom | src/dns/cache.rs:534-544 | When the table is full to three quarters, a rehash at the chosen size, the same or doubled, always leaves room for one more entry and keeps the size bound. |
| ResponseCache.CacheState.Bounds | src/dns/cache.rs:36-38 | In every valid state the slab is as long as the peak live count, which every insert keeps and the pool bounds, the table has at most max(64, 4 × peak) slots, so slab indexes stay below EMPTY and TOMBSTONE and table positions fit u32, and live and tombstone slots are under three quarters. |
| ResponseCache.CacheState.Unlink | src/dns/cache.rs:587-602 | The LRU links list the same entries in the same order without the unlinked one, read forward and backward. |
| ResponseCache.CacheState.AttachFront | src/dns/cache.rs:604-616 | The LRU links list the new entry first and then the old ones. |
| ResponseCache.CacheState.Touch | src/dns/cache.rs:618-624 | The entry's key becomes the most recent; no entry changes. |
| ResponseCache.CacheState.Evict | src/dns/cache.rs:626-644 | The entry leaves table, slab, list and pool together: the map loses its key, its block is freed and its slot becomes a tombstone. |
| ResponseCache.CacheState.EvictOneForSpace | src/dns/cache.rs:646-654 | Exactly the least recent entry goes; false exactly when the cache is empty. |
| ResponseCache.CacheState.MakeRoom | src/dns/cache.rs:414-424 | Only a least-recent suffix goes, stopping at the first allocation that succeeds or with the cache empty. |
| ResponseCache.CacheState.AllocEntry | src/dns/cache.rs:576-585 | The slab grows only when it has no free index, so its length is the peak number of live entries. |
| ResponseCache.CacheState.GetWithFlags | src/dns/cache.rs:256-301 | A lookup is the plain map's lookup: the aged message with its refresh and stale flags, or a miss that removes an entry past its stale window. |
| ResponseCache.CacheState.ReleaseRefreshClaim | src/dns/cache.rs:308-326 | A claimed entry loses its claim and backs off; an unclaimed or absent one is untouched. |
| ResponseCache.CacheState.RefreshCandidates | src/dns/cache.rs:207-241 | The scan claims due entries in recency order within its scan limit and budget and returns exactly their stored requests. |
| ResponseCache.CacheState.EvictExpiredBatch | src/dns/cache.rs:181-192 | Exactly the entries of the slab range whose stale window is over are removed, and a sweep of the whole slab leaves exactly the entries less than 30 s past expiry. |
| ResponseCache.CacheState.InsertWithFlags | src/dns/cache.rs:373-468 | A disabled cache, a name over 255 octets, a request over 65535 or a sum over the pool leaves the cache alone. Otherwise an insert removes its own old key, then only the shortest least-recent suffix that lets the allocation succeed, and stores the new entry first with the old use history; the recorded peak becomes the larger of itself and the live count. |
| CacheParts.FitsAtOnce | src/dns/cache.rs:414-424 | While the allocator has a free place for the response nothing is dropped and it is stored. |
| CacheLaws.InsertExact | src/dns/cache.rs:373-468 | An insert keeps every other entry as it was except the dropped least recent ones, and the new entry lives for its TTL from the first clock reading, is unclaimed, has no failures and takes over the last use and the reused mark of the one it replaces. |
| CacheLaws.LookupExact | src/dns/cache.rs:256-301 | A lookup hits if and only if less than 30 s have passed since expiry; a hit is aged, becomes the most recent, is marked as used now, and is claimed for a refresh if and only if it was unclaimed, past its back-off and stale or in the last tenth of its lifetime; a miss removes the entry. |
| CacheLaws.ReleaseExact | src/dns/cache.rs:308-326 | A release counts one failure, up to five, of a claimed entry, ends its claim and sets its back-off, and changes nothing else. |
| CacheLaws.BackoffTable | src/dns/cache.rs:308-326 | The back-off is 1, 2, 4, 8 and then 16 s, plus less than half a second. |
| CacheLaws.CandidatesExact | src/dns/cache.rs:207-241 | A prefetch scan claims only unclaimed, reused entries past their back-off, within their stale window, with a request and a use in the last 300 s, that are stale or have at most 10% of their lifetime left; conversely it claims each of them among the 1024 most recent that is stale or has at most 5% left, unless its budget went to more recent entries. |
| CacheParts.NoLeak | src/dns/cache.rs:626-644 | Every live block of the pool belongs to a live entry. |
| CacheParts.UnlinkOk | src/dns/cache.rs:587-602 | Relinking around any position of a well-formed list gives the well-formed list without it. |
| CacheParts.IndexEvict | src/dns/cache.rs:626-634 | A tombstone keeps every other live key reachable from its home slot. |
| ArenaHeap.Allocate | src/dns/cache.rs:414-424 | An allocated block has the requested size, lies in the pool and is apart from every live block. |
| CacheRuns.StepKeeps | src/dns/cache.rs:181-468 | Every cache operation keeps the invariant that ties claims, back-off and last use of each entry to the history of claims and client hits. |
| CacheRuns.ClaimsBackOff | src/dns/cache.rs:308-326 | In every reachable state any k+1 refresh claims in a row of an entry span at least the sum of 500·2^min(i,5) ms for i from 1 to k. |
| CacheRuns.FailuresCounted | src/dns/cache.rs:308-326 | In every reachable state an entry's failure count is the number of its released claims, up to five. |
| CacheRuns.SecondReleaseIdle | src/dns/handler.rs:84-87 | After a release, through any run before its back-off is over that does not store the key anew, the key stays unclaimed and a second release changes nothing. |
| CacheRuns.SecondReleaseExact | src/dns/handler.rs:207-210 | With any run between them the two releases count as one failure if and only if nobody claimed the key again in between or the count was at its limit. |
| CacheHistory.Perform | src/dns/cache.rs:181-468 | One call on the real structure is at most one event of the abstract cache and returns the hit or the requests that the abstract cache gives. |
| CacheHistory.PerformAll | src/dns/cache.rs:181-468 | Any sequence of calls with a clock that does not go back is a legal run of the abstract cache, and every call returns what the abstract cache gives in a world that run passes through. |
| CacheHistory.History | src/dns/cache.rs:115-468 | After any calls since it was created a cache stands for the cache of a reachable world, and all results came from worlds on the way there. |
| UseHistory.RecencyIsUse | src/dns/cache.rs:618-624 | In every run the recency list is in the order of the latest hit or store of each key, and an entry is marked as reused if and only if its key was hit since it last came into the cache. |
| UseHistory.DroppedUsedEarlier | src/dns/cache.rs:646-654 | In every run, entries dropped for space were last used no later than every entry kept. |
| CacheRuns.PrefetchIsWarranted | src/dns/cache.rs:207-241 | In every reachable state a prefetch selects only names with a client hit in the last 300 s, each once, and no more than the free refresh slots. |
| CacheRuns.ScanEffect | src/dns/cache.rs:207-241 | A scan changes nothing but the claim bit of the entries it returns, all of which were due. |
| ServedTtl.FreshHitTtl | src/dns/handler.rs:176-197 | A fresh hit's minimum answer TTL is the remaining lifetime rounded up, at least 1, if and only if the minimum came from a non-OPT record or less than a second has passed. |
| ServedTtl.FreshHitExact | src/dns/handler.rs:176-197 | Without OPT records among the answers a fresh hit's minimum answer TTL is always the remaining lifetime rounded up. |
| ServedTtl.OptAnswerNotAged | src/dns/wire.rs:280-292 | A concrete answer holding an OPT record that matches the question of an accepted query: three seconds remain and a hit shows 5. |
| ServedTtl.StaleHitTtl | src/dns/cache.rs:272-300 | In the stale window every non-OPT record is served with TTL 0 and the boundaries are unchanged. |
| ServedTtl.NegativeHitTtl | src/dns/handler.rs:224-238 | A negative answer lives for the smaller of the TTL and MINIMUM of the first SOA of its authority section, and the TTL served for that record falls second by second with the lifetime. |
| ServedTtl.CacheableExact | src/dns/handler.rs:176-197 | A response is cached for m seconds if and only if it walks to its end, m is positive, and m is its least answer TTL or, without answers, its code is 0 or 3 and m is the smaller of the TTL and MINIMUM of the first usable SOA of the authority section. |
| ServedTtl.NxdomainCached | src/dns/handler.rs:224-238 | A concrete NXDOMAIN response with an SOA of TTL 300 and MINIMUM 60 is cached for 60 s. |
| ServedTtl.HitTtls | src/dns/cache.rs:272-300 | Fresh and stale hits together, for any stored response and any time after it was stored. |
| Blocklist.DomainIndex.WithCapacity | src/blocklist.rs:82-90 | A new index stands for the empty set with a power-of-two table. |
| Blocklist.DomainIndex.Find | src/blocklist.rs:115-130 | Lookup terminates and is exact: a slot for members, None for everything else. |
| Blocklist.DomainIndex.InsertNormalized | src/blocklist.rs:133-149 | The set gains exactly the name, the empty name excepted, and the length is its cardinality. |
| Blocklist.DomainIndex.Grow | src/blocklist.rs:151-166 | Twice the slots, the same set. |
| Blocklist.DomainIndex.Names | src/blocklist.rs:169-175 | Every member is listed exactly once. |
| Blocklist.OffsetsExact | src/blocklist.rs:133-149 | Every name appended to an arena is read back through its 32-bit offset if and only if the arena is below 2^32 octets. |
| Blocklist.MergedWithCapacity | src/blocklist.rs:448-469 | The merged index stands for (inline names and all sources) minus the excluded set, whenever the distinct names of that set fit 2^32 octets. |
| Republish.RepublishMerged | src/blocklist.rs:416-433 | The published index is (block inline and sources) minus (allow inline and sources), and the count reported is the size of the allow set. |
| Republish.StepKeeps | src/blocklist.rs:261-433 | Every fetch, store, snapshot and publication keeps the publication invariant. |
| Republish.PublishedSets | src/blocklist.rs:316-433 | In every interleaving each source holds exactly what was stored into it, each published set is the merge of versions really fetched, versions never go back between publications, and no inline-whitelisted name is published. |
| Republish.RebuildReflects | src/blocklist.rs:362-383 | Whatever is stored while a rebuild runs, its publication is at least as recent, in every source, as the sources were when it took the lock. |
| Republish.PublishedNames | src/blocklist.rs:416-433 | A name is published if and only if an inline block list or the snapshot of some block source holds it and no inline allow list or snapshot of an allow source does. |
| Republish.RebuildPublishes | src/blocklist.rs:362-433 | A rebuild left alone runs to its end and publishes the merge of the latest version of every source. |
| DotConnection.FirstInOrder | src/dns/upstream.rs:241-246 | Below 65536 pending queries there is an unused id, and the one chosen is the first in cyclic order from the start. |
| DotConnection.StepKeeps | src/dns/upstream.rs:165-347 | Every step of callers, writer, reader, failing and draining, with any peer, keeps permits conserved and waiters distinct. |
| DotConnection.OutcomeStable | src/dns/upstream.rs:225-234 | An outcome once delivered to a waiter is never changed. |
| DotConnection.AnyPeerSafe | src/dns/upstream.rs:165-347 | In every run with any peer: permits are conserved, at most 256 queries are pending, no waiter is resolved twice, nothing is or enters pending after draining, and the next id is free. |
| DotConnection.ReplyAsksOwn | src/dns/upstream.rs:319-326 | In every run with any peer, forged answers included, a reply delivered to a caller is a response whose question matches the caller's own query, also after the caller's ID is put back. |
| DotConnection.AnsweringPeerExact | src/dns/upstream.rs:169-345 | In every run with a peer that answers frames at most once, with cancelled callers and late answers: a live connection never reaches the mismatch or unexpected-ID branches, each reply is the peer's answer to that caller's own frame, and no caller fails before the connection is drained. |
| DotConnection.AnswerFindsQuery | src/dns/upstream.rs:310-326 | On an undrained connection an arriving answer finds its own caller's query and passes the checks. |
| DotConnection.TakenExactly | src/dns/upstream.rs:309-344 | For any peer, an answer takes exactly the query pending under its ID out of the pending set; one that is too short or under an unknown ID stops the reader and resolves nobody. |
| DotConnection.DeliveredExactly | src/dns/upstream.rs:318-337 | For any peer, a caller whose answer is delivered gets exactly those octets if and only if QR is set and the question matches its own query; otherwise it fails and the connection stops. |
| DotConnection.FramedExactly | src/dns/upstream.rs:182-204 | A query is framed if and only if it has fewer than 65536 octets and a question key, and the frame is the query under the first free id. |
| DotConnection.QueryAnswered | src/dns/upstream.rs:169-337 | Every query that can be framed can be answered: on a fresh connection any response with its id and question reaches its caller in a legal run that leaves all permits and nothing pending. |
| Strategies.ResolveSequential | src/dns/upstream.rs:727-760 | The answer is the first upstream in order to succeed within the shared deadline; failure means there is none; the error reported is the last one. |
| Strategies.ResolveHedged | src/dns/upstream.rs:767-818 | Upstreams start in order, the first at once, and each later one exactly 25 ms after the one before it or at the very time an earlier upstream failed, a different one for each such start; no start is late; the answer is the earliest success; it fails only when all failed or the deadline passed. It terminates. |
| Strategies.HeadStart | src/dns/upstream.rs:767-818 | A first upstream that succeeds in under 25 ms is the only one asked and gives the answer. |
| Strategies.ResolveRace | src/dns/upstream.rs:820-852 | The answer is the earliest success within the deadline, and it fails exactly when there is none. |
| Strategies.SameFailures | src/dns/upstream.rs:727-852 | A sequential or hedged resolution that did not end by the deadline, and a race with no success after it, fails exactly when all upstreams fail; so without deadline expiry the three fail on the same upstreams. |
| Strategies.ResolveWire | src/dns/upstream.rs:699-710 | A response is one upstream's response with the caller's ID restored; there is none when all upstreams fail, and otherwise only when the strategy can run into the deadline. |
| Handler.StepKeeps | src/dns/handler.rs:43-219 | Every step keeps: stored requests parse to their keys, lifetimes come from the stored response, and each claimed entry has a refresh under way. |
| Handler.ClaimsNeverLeak | src/dns/handler.rs:43-89 | In every run every stored request parses back to exactly its key and a claimed entry has a refresh for the same key. |
| Handler.RefreshEndsReleased | src/dns/handler.rs:59-89 | No step ends a refresh without leaving its key unclaimed. |
| Handler.RefreshStep | src/dns/handler.rs:59-89 | Nobody else moves a refresh, and each step of its own brings it closer to its release or leaves its key unclaimed. |
| Handler.RefreshReleases | src/dns/handler.rs:59-89 | In every run with three steps of a refresh its key is unclaimed at some point: the refresh has released or replaced its claim. |
| Handler.RefreshCanStep | src/dns/handler.rs:59-89 | A refresh always has an enabled step of its own, with its own fetch failing at worst, and never waits for another job. |
| Handler.SecondReleaseCounts | src/dns/handler.rs:59-89 | For every non-static query and cacheable response, a run from the empty server in which one refresh releases its claim when its fetch fails and again when it ends, with a client hit in between, and two failures are counted. |
| Handler.BarredRun | src/dns/handler.rs:112-149 | While a name stays blocked and no fetch had passed its check, no run inserts an answer for it and its cached answers only run out. |
| Handler.BlockedForGood | src/dns/handler.rs:91-150 | Once those answers have run out, every query for that name, unless static, gets the blocked answer. |
| Handler.BlockedAnswerSays | src/dns/handler.rs:129-138 | The blocked answer parses back to the query, has its opcode, RD and CD, and is NXDOMAIN, or NOERROR with the sinkhole address exactly for A queries. |
| Handler.StaticAnswerSays | src/dns/handler.rs:103-110 | The static answer parses back to the query and is NOERROR with the address and TTL of its host exactly for A queries. |
| Handler.KeyExact | src/dns/handler.rs:96-100 | Two queries share a cache key if and only if they agree in canonical name, type, class, DO and CD. |
| Handler.AskExact | src/dns/handler.rs:91-127 | A malformed or static query is answered without touching the cache; any other is answered within the stale window and otherwise waits for its check, and is refreshed exactly when its entry is due and unclaimed. |
| Handler.ChecksExact | src/dns/handler.rs:59-89 | A miss is fetched unless its name is blocked; a refresh is made if and only if it has a permit and its name is not blocked; neither touches the cache. |
| Handler.FetchExact | src/dns/handler.rs:152-219 | A cacheable response is stored whole with its request for its lifetime from the start of the insert; a failed fetch or an uncacheable response releases the claim; an oversized one leaves the cache alone. |
| Handler.CachedReply | src/dns/handler.rs:112-126 | A query is answered from the cache exactly within the stale window, with the aged message and the query's own ID. |
| Handler.EndToEndTtl | src/dns/handler.rs:152-219 | In every run a cached answer to a client has the TTLs that its upstream response and its age call for: exact while fresh unless an OPT record is among the answers, zero while stale, none later. |
| WireTheorems.SameKeyAsksLike | src/dns/wire.rs:30-49 | A message that answers one of two queries with the same canonical name, type and class asks the question of the other. |
| WireTheorems.ServedQuestion | src/dns/wire.rs:248-301 | Aging a message and setting its ID leave its question as it was. |
| Handler.CachedAsksOwn | src/dns/handler.rs:112-126 | If every fetched response passed the question check for its request, then in every run a cached answer has the client's ID and asks the client's own question: type, class and canonical name, and the same labels up to case when no label holds a dot. |

## Left out

- In-flight coalescing (`src/dns/inflight.rs`): a waiting job ends with its own fetch or with some other fetch for the same key.
- TLS, TCP, HTTP/2, dialing, address resolution, connection pooling and keepalive: I/O and library code.
- The heap allocator, hashing, semaphores, channels and atomic pointers are used by contract or as arbitrary functions.
- `& mask` on power-of-two tables is written as remainder.
- Message decoding for the cache lifetime is the record walk of the wire layer with the low four RCODE bits; the decoder library may reject more messages, which are then not cached.
- DotConnection.AnyPeerSafe: frames and answers under way form an unordered collection, which covers every delivery order and does not capture first-in-first-out order; which failure text a waiter gets is not distinguished.
- Strategies.ResolveHedged: timers and wake-ups take exactly the time they wait for; scheduling delay is not modelled.
- Handler.StepKeeps: the four refresh permits are an arbitrary grant or refusal, which covers every number of permits; task panics and shutdown are not modelled.
- Handler.BlockedForGood: response bytes of fetched answers, FORMERR and SERVFAIL are not modelled.
- Blocklist.DomainIndex.InsertNormalized: requires an arena below 2^32 octets, which is exactly when 32-bit offsets read back (Blocklist.OffsetsExact).
- Blocklist.MergedWithCapacity: requires the distinct names of the result to stay below 2^32 octets, for the same reason.
- Republish.RepublishMerged: requires the same of the published set and of the allow set.
- List parsing and name normalisation work on text before the names reach the index; the model starts from normalised names.
- Configuration, listeners, logging and metrics: they hold no state that the cache, the block set or a connection depends on.
