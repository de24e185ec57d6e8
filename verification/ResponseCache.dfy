/**
 The response cache of the forwarder: the mutable structure itself. `Valid` ties the slab, the
 index, the LRU links and the arena to one ghost map of items and to the abstract `model`; every
 method keeps `Valid` and states its effect on `model`.
 */
module ResponseCache {
  import opened Basics
  import opened Probing
  import opened CacheModel
  import opened CacheParts
  import opened ArenaHeap
  import Wire

  datatype Locate = Found(entry: nat) | Vacant(slot: nat)

  class CacheState {
    const hash: Key -> u64
    const policy: Policy
    const enabled: bool
    const pool: array<byte>
    var heap: Heap
    var table: seq<KeySlot>
    var tableLen: nat
    var tombstones: nat
    var entries: Slab
    var freeEntries: seq<nat>
    var lruHead: nat
    var lruTail: nat

    ghost var items: Items
    ghost var order: seq<nat>
    ghost var model: Cache
    ghost var peak: nat  // most entries that were ever live at once

    ghost predicate Valid()
      reads this, pool
    {
      && SizesOk(pool.Length, |entries|, peak, |table|)
      && SlabOk(entries, freeEntries, items)
      && IndexOk(table, items, hash)
      && tableLen == |items| && CountsOk(table, tableLen, tombstones)
      && LruOk(entries, order, lruHead, lruTail)
      && ArenaOk(pool[..], heap, items)
      && ModelOk(model, items, order)
    }

    lemma Open()
      requires Valid()
      ensures SizesOk(pool.Length, |entries|, peak, |table|) && SlabOk(entries, freeEntries, items)
      ensures IndexOk(table, items, hash) && tableLen == |items| && CountsOk(table, tableLen, tombstones)
      ensures LruOk(entries, order, lruHead, lruTail) && ArenaOk(pool[..], heap, items) && ModelOk(model, items, order)
      ensures DistinctKeys(items) && Distinct(order)
    {
    }

    lemma Close()
      requires SizesOk(pool.Length, |entries|, peak, |table|) && SlabOk(entries, freeEntries, items)
      requires IndexOk(table, items, hash) && tableLen == |items| && CountsOk(table, tableLen, tombstones)
      requires LruOk(entries, order, lruHead, lruTail) && ArenaOk(pool[..], heap, items) && ModelOk(model, items, order)
      ensures Valid()
    {
    }

    constructor (enabled: bool, maxSize: nat, hash: Key -> u64, policy: Policy)
      requires maxSize <= MAX_POOL
      ensures Valid() && fresh(pool) && model == EMPTY_CACHE
      ensures this.enabled == (enabled && maxSize >= 64) && this.hash == hash && this.policy == policy
    {
      var on := enabled && maxSize >= 64;
      var size := if on then maxSize else 0;
      this.enabled, this.hash, this.policy := on, hash, policy;
      pool := new byte[size](_ => 0);
      heap := Heap(size, map[], []);
      table := seq(64, _ => KeySlot(0, EMPTY));
      tableLen, tombstones, entries, freeEntries := 0, 0, [], [];
      lruHead, lruTail := NONE, NONE;
      items, order, model, peak := map[], [], EMPTY_CACHE, 0;
      new;
      hide SlabOk, IndexOk, CountsOk, LruOk, ModelOk, TableSize;
      EmptyParts(table, hash);
    }

    // ------------------------------------------------------------------- index

    /** `locate`: finds the key exactly when it is live, else the slot to store it in. */
    method Locate(k: Key, ghost its: Items) returns (r: Locate)
      requires IndexOk(table, its, hash) && Holds(entries, its) && BytesOk(pool[..], its) && CountIf(table, IsEmpty) > 0
      ensures r.Found? ==> r.entry in its && its[r.entry].key == k && KeyIn(its, k)
      ensures r.Vacant? ==> !KeyIn(its, k)
      ensures r.Vacant? ==> r.slot < |table| && TOMBSTONE <= table[r.slot].entry <= EMPTY
      ensures r.Vacant? ==> Reaches(table, Home(hash(k), |table|), r.slot)
    {
      hide KeyOf, Describes, BytesOk, CountIf;
      var n := |table|;
      var h := hash(k);
      ghost var home := Home(h, n);
      ghost var stop := CountWitness(table, IsEmpty);
      var slot: nat := Home(h, n);
      var firstTombstone: Option<nat> := None;
      while true
        invariant slot < n && Dist(home, slot, n) <= Dist(home, stop, n)
        invariant Probed(table, its, home, slot, k)
        invariant firstTombstone.Some? ==> Reusable(table, home, slot, firstTombstone.value)
        decreases Dist(home, stop, n) - Dist(home, slot, n)
      {
        var candidate := table[slot];
        if candidate.entry == EMPTY {
          NotIndexed(table, its, hash, k, slot);
          return Vacant(if firstTombstone.Some? then firstTombstone.value else slot);
        } else if candidate.entry == TOMBSTONE {
          if firstTombstone.None? { firstTombstone := Some(slot); }
        } else {
          KeyOfItem(entries, pool[..], its, candidate.entry);
          assert Indexed(table, candidate.entry, its[candidate.entry], hash);
          if candidate.hash == h && KeyOf(entries[candidate.entry].value, pool[..]) == k {
            return Found(candidate.entry);
          }
        }
        ProbeStep(table, its, home, slot, stop, k);
        slot := Next(slot, n);
      }
    }

    /** `rehash`: a fresh table holding exactly the live entries, with no tombstones. */
    method Rehash(newLen: nat)
      requires SlabOk(entries, freeEntries, items) && DistinctKeys(items) && |entries| < TOMBSTONE
      requires ArenaOk(pool[..], heap, items) && ModelOk(model, items, order) && LruOk(entries, order, lruHead, lruTail)
      requires newLen > 0 && (|items| + 1) * 4 < newLen * 3
      modifies this`table, this`tableLen, this`tombstones, this`entries, this`items
      ensures |table| == newLen && tableLen == |items| && tombstones == 0 && |entries| == old(|entries|)
      ensures IndexOk(table, items, hash) && CountsOk(table, tableLen, tombstones) && SameButSlots(old(items), items)
      ensures |items| == old(|items|)
      ensures SlabOk(entries, freeEntries, items) && LruOk(entries, order, lruHead, lruTail)
      ensures ArenaOk(pool[..], heap, items) && ModelOk(model, items, order)
    {
      hide *;
      ghost var its, entries0 := items, entries;
      table := seq(newLen, _ => KeySlot(0, EMPTY));
      tableLen, tombstones := 0, 0;
      RehashStart(table, entries, freeEntries, pool[..], heap, items, hash);
      for index := 0 to |entries|
        invariant |table| == newLen && tombstones == 0 && |entries| == |entries0| && SameLinks(entries0, entries)
        invariant Rehashing(table, tableLen, entries, pool[..], its, items, index, hash)
      {
        RehashFacts(entries0, freeEntries, table, tableLen, entries, pool[..], its, items, index, hash);
        if entries[index].None? {
          RehashSkip(table, tableLen, entries, pool[..], its, items, index, hash);
        } else {
          ghost var before := entries;
          RehashOne(its, index);
          SameLinksTransitive(entries0, before, entries);
        }
      }
      RehashFacts(entries0, freeEntries, table, tableLen, entries, pool[..], its, items, |entries|, hash);
      RehashFinish(table, tableLen, entries, pool[..], its, items, hash);
      SlotsMoved(entries0, entries, freeEntries, its, items, pool[..], heap, model, order, lruHead, lruTail);
    }

    method RehashOne(ghost its: Items, index: nat)
      requires Rehashing(table, tableLen, entries, pool[..], its, items, index, hash)
      requires index in items && index < TOMBSTONE && DistinctKeys(items) && (|items| + 1) * 4 < |table| * 3
      modifies this`table, this`tableLen, this`entries, this`items
      ensures Rehashing(table, tableLen, entries, pool[..], its, items, index + 1, hash)
      ensures |table| == old(|table|) && |entries| == old(|entries|) && SameLinks(old(entries), entries)
    {
      hide *;
      RehashProbe(table, tableLen, entries, pool[..], its, items, index, hash);
      var k := KeyOf(entries[index].value, pool[..]);
      var r := Locate(k, Below(items, index));
      if r.Found? {
        assert false;
      } else {
        var slot := r.slot;
        RehashPlace(table, tableLen, entries, pool[..], its, items, index, slot, hash);
        table := table[slot := KeySlot(hash(k), index)];
        tableLen := tableLen + 1;
        entries := SetSlot(entries, index, slot);
        items := items[index := items[index].(slot := slot)];
      }
    }

    /** `ensure_table_capacity`: afterwards one more entry fits under three quarters. */
    method EnsureTableCapacity()
      requires Valid()
      modifies this`table, this`tableLen, this`tombstones, this`entries, this`items
      ensures Valid() && (tableLen + tombstones + 1) * 4 < |table| * 3
      ensures SameButSlots(old(items), items)
    {
      hide SlabOk, IndexOk, CountsOk, LruOk, ArenaOk, ModelOk, SameButSlots, TableSize, DistinctKeys;
      SameSlots(items);
      if (tableLen + tombstones + 1) * 4 < |table| * 3 {
        return;
      }
      Bounds();
      RehashFreesRoom(|table|, tableLen, tombstones, |entries|);
      Rehash(GrownSize(|table|, tableLen, tombstones));
    }

    /** Slab indexes stay below the reserved values and table positions fit u32. */
    lemma Bounds()
      requires Valid()
      ensures DistinctKeys(items) && |items| <= |entries| <= pool.Length <= MAX_POOL < TOMBSTONE && |table| <= U32_LIMIT
      ensures |entries| == peak && |table| <= Max(64, 4 * peak)
      ensures Ok(model)
      ensures (tableLen + tombstones) * 4 < |table| * 3
    {
      ModelIsOk(model, items, order);
    }

    lemma PeakKept()
      requires Valid()
      ensures peak == Max(peak, |items|)
    {
      Bounds();
    }

    // --------------------------------------------------------------------- LRU

    method Unlink(entry: nat, ghost j: nat)
      requires LruOk(entries, order, lruHead, lruTail) && j < |order| && order[j] == entry
      modifies this`entries, this`lruHead, this`lruTail, this`order
      ensures order == old(order[..j] + order[j + 1..])
      ensures LruOk(entries, order, lruHead, lruTail) && SameButLinks(old(entries), entries)
        && |entries| == old(|entries|)
    {
      UnlinkOk(entries, order, lruHead, lruTail, j);
      ghost var target := Unlinked(entries, order, j);
      var prev, next := entries[entry].value.prev, entries[entry].value.next;
      if prev == NONE {
        lruHead := next;
      } else {
        entries := SetNext(entries, prev, next);
      }
      if next == NONE {
        lruTail := prev;
      } else {
        entries := SetPrev(entries, next, prev);
      }
      assert entries == target;
      order := order[..j] + order[j + 1..];
    }

    method AttachFront(entry: nat)
      requires LruOk(entries, order, lruHead, lruTail)
      requires entry !in order && entry < |entries| && entry < NONE && entries[entry].Some?
      modifies this`entries, this`lruHead, this`lruTail, this`order
      ensures order == [entry] + old(order)
      ensures LruOk(entries, order, lruHead, lruTail) && SameButLinks(old(entries), entries)
        && |entries| == old(|entries|)
    {
      AttachOk(entries, order, lruHead, lruTail, entry);
      var oldHead := lruHead;
      entries := entries[entry := Some(entries[entry].value.(prev := NONE, next := oldHead))];
      if oldHead != NONE {
        entries := SetPrev(entries, oldHead, entry);
      }
      lruHead := entry;
      if lruTail == NONE {
        lruTail := entry;
      }
      order := [entry] + order;
    }

    /** `touch`: the entry becomes the most recent. */
    method Touch(entry: nat)
      requires Valid() && entry in items
      modifies this`entries, this`lruHead, this`lruTail, this`order, this`model
      ensures Valid()
      ensures var k := items[entry].key;
        model == Cache(old(model).entries, [k] + Without(old(model).recency, k))
    {
      hide *;
      Open();
      ghost var j := PositionOf(items, order, model, entry);
      ghost var k := items[entry].key;
      ModelTouch(model, items, order, j);
      SlabEntry(entries, freeEntries, items, entry);
      if lruHead == entry {
        HeadFirst(entries, order, lruHead, lruTail, j);
      } else {
        MoveToFront(entry, j);
      }
      model := Cache(model.entries, [k] + Without(model.recency, k));
      Close();
    }

    method MoveToFront(entry: nat, ghost j: nat)
      requires SlabOk(entries, freeEntries, items) && LruOk(entries, order, lruHead, lruTail) && Distinct(order)
      requires entry in items && j < |order| && order[j] == entry
      modifies this`entries, this`lruHead, this`lruTail, this`order
      ensures SlabOk(entries, freeEntries, items) && LruOk(entries, order, lruHead, lruTail)
      ensures order == [entry] + old(order[..j] + order[j + 1..]) && |entries| == old(|entries|)
    {
      hide *;
      LruEntry(entries, order, lruHead, lruTail, j);
      GoneFrom(order, j);
      ghost var entries0 := entries;
      Unlink(entry, j);
      SameButLinksKeeps(entries0, entries, freeEntries, items);
      SlabEntry(entries, freeEntries, items, entry);
      ghost var entries1 := entries;
      AttachFront(entry);
      SameButLinksKeeps(entries1, entries, freeEntries, items);
    }

    // ---------------------------------------------------------------- eviction

    /** Freeing needs the very block that one allocation returned. */
    method Free(at: nat, size: nat)
      requires at in heap.live && heap.live[at] == size
      modifies this`heap
      ensures heap == Deallocate(old(heap), at)
    {
      heap := Deallocate(heap, at);
    }

    /** `evict`: the entry leaves all four representations. */
    method Evict(entry: nat)
      requires Valid() && entry in items
      modifies this`heap, this`table, this`tableLen, this`tombstones, this`entries, this`freeEntries,
               this`lruHead, this`lruTail, this`items, this`order, this`model
      ensures Valid() && items == old(items) - {entry} && order == Without(old(order), entry)
      ensures model == Remove(old(model), old(items[entry].key))
      ensures heap == Deallocate(old(heap), old(items[entry].offset)) && |entries| == old(|entries|)
      ensures tableLen + tombstones == old(tableLen + tombstones) && |table| == old(|table|)
    {
      hide *;
      Open();
      ghost var j := EvictRest(pool[..], heap, items, order, model, entry);
      var meta := TakeEntry(entry, j);
      Discard(entry, meta, items - {entry}, Remove(model, items[entry].key));
    }

    /** An entry that has left the slab and the list leaves the index, the pool and the model. */
    method Discard(ghost entry: nat, meta: Meta, ghost rest: Items, ghost left: Cache)
      requires SizesOk(pool.Length, |entries|, peak, |table|) && SlabOk(entries, freeEntries, rest)
      requires IndexOk(table, items, hash) && tableLen == |items| && CountsOk(table, tableLen, tombstones)
      requires LruOk(entries, order, lruHead, lruTail) && entry in items && rest == items - {entry}
      requires meta.tableSlot == items[entry].slot && meta.offset == items[entry].offset
      requires meta.offset in heap.live && heap.live[meta.offset] == meta.nameLen + meta.wireLen + meta.requestLen
      requires ArenaOk(pool[..], Deallocate(heap, meta.offset), rest) && ModelOk(left, rest, order)
      modifies this`heap, this`table, this`tableLen, this`tombstones, this`items, this`model
      ensures Valid() && items == rest && model == left && heap == Deallocate(old(heap), meta.offset)
      ensures tableLen + tombstones == old(tableLen + tombstones) && |table| == old(|table|)
    {
      hide *;
      Bury(entry, meta.tableSlot, rest);
      Free(meta.offset, meta.nameLen + meta.wireLen + meta.requestLen);
      items, model := rest, left;
      Close();
    }

    /** The part of an eviction that concerns the index: the slot becomes a tombstone. */
    method Bury(ghost entry: nat, slot: nat, ghost rest: Items)
      requires IndexOk(table, items, hash) && tableLen == |items| && CountsOk(table, tableLen, tombstones)
      requires entry in items && items[entry].slot == slot && rest == items - {entry}
      modifies this`table, this`tableLen, this`tombstones
      ensures IndexOk(table, rest, hash) && tableLen == |rest|
      ensures CountsOk(table, tableLen, tombstones) && |table| == old(|table|)
      ensures tableLen + tombstones == old(tableLen + tombstones)
    {
      hide *;
      BurySlot(table, tableLen, tombstones, items, hash, entry);
      table := table[slot := table[slot].(entry := TOMBSTONE)];
      tableLen := tableLen - 1;
      tombstones := tombstones + 1;
    }

    /** The part of an eviction that concerns the slab and the LRU links. */
    method TakeEntry(entry: nat, ghost j: nat) returns (meta: Meta)
      requires SlabOk(entries, freeEntries, items) && LruOk(entries, order, lruHead, lruTail)
      requires entry in items && j < |order| && order[j] == entry
      modifies this`entries, this`freeEntries, this`lruHead, this`lruTail, this`order
      ensures SlabOk(entries, freeEntries, items - {entry}) && LruOk(entries, order, lruHead, lruTail)
      ensures order == old(order[..j] + order[j + 1..]) && |entries| == old(|entries|)
      ensures meta.tableSlot == items[entry].slot && meta.offset == items[entry].offset
      ensures meta.nameLen + meta.wireLen + meta.requestLen == items[entry].Span()
    {
      hide *;
      LruDistinct(entries, order, lruHead, lruTail);
      OrderMembers(order, j);
      ghost var entries0 := entries;
      Unlink(entry, j);
      SameButLinksKeeps(entries0, entries, freeEntries, items);
      SlabEntry(entries, freeEntries, items, entry);
      SlabRelease(entries, freeEntries, items, entry);
      meta := entries[entry].value;
      LruElsewhere(entries, entries[entry := None], order, lruHead, lruTail, entry);
      entries := entries[entry := None];
      freeEntries := freeEntries + [entry];
    }

    // ----------------------------------------------------------------- lookups

    /** Rewrites the bookkeeping of one live entry. */
    method Restamp(entry: nat, meta: Meta, ghost e: Entry)
      requires Valid() && entry in items && entry < |entries| && entries[entry].Some?
      requires Restamps(entries[entry].value, meta, items[entry], e)
      modifies this`entries, this`items, this`model
      ensures Valid() && order == old(order) && |entries| == old(|entries|)
      ensures items == old(items)[entry := old(items)[entry].(entry := e)]
      ensures entries == old(entries)[entry := Some(meta)]
      ensures model == Cache(old(model).entries[old(items)[entry].key := e], old(model).recency)
    {
      hide *;
      RestampParts(entries[entry].value, meta, items[entry], e);
      Open();
      RestampSlab(entries, freeEntries, items, entry, meta, e);
      RestampLru(entries, order, lruHead, lruTail, entry, meta);
      RestampRest(table, pool[..], heap, items, order, model, hash, entry, e);
      entries := entries[entry := Some(meta)];
      model := Cache(model.entries[items[entry].key := e], model.recency);
      items := items[entry := items[entry].(entry := e)];
      Close();
    }

    /** Looks up a live key, as every public operation does first. */
    method Find(k: Key) returns (r: Option<nat>)
      requires Valid()
      ensures r.Some? <==> k in model.entries
      ensures r.None? ==> !KeyIn(items, k)
      ensures r.Some? ==> r.value in items && items[r.value].key == k && items[r.value].entry == model.entries[k]
      ensures r.Some? ==>
        r.value < |entries| && entries[r.value].Some? && Describes(entries[r.value].value, items[r.value])
    {
      hide *;
      Open();
      Locatable(table, tableLen, tombstones, entries, freeEntries, pool[..], heap, items);
      var found := Locate(k, items);
      KeyInModel(model, items, order, k);
      match found {
        case Found(i) =>
          SlabEntry(entries, freeEntries, items, i);
          EntryInModel(model, items, order, i);
          return Some(i);
        case Vacant(_) =>
          return None;
      }
    }

    /** The served response: the stored bytes with their TTLs aged, and the refresh decision. */
    method Serve(entry: nat, k: Key, now: nat) returns (r: Option<Hit>)
      requires Valid() && entry in items && items[entry].key == k && k in model.entries
      requires model.entries[k] == items[entry].entry && now < items[entry].entry.StaleUntil()
      modifies this`entries, this`lruHead, this`lruTail, this`order, this`items, this`model
      ensures Valid() && (model, r) == Get(old(model), k, now)
    {
      hide Valid;
      ghost var e := items[entry].entry;
      Touch(entry);
      Readable(entry);
      var meta := entries[entry].value;
      var stale := meta.expiresAt <= now;
      var refresh := !meta.refreshClaimed && meta.retryAfter <= now
                     && (stale || meta.expiresAt - now <= meta.originalTtl / 10);
      var elapsed := Saturating(meta.originalTtl, Saturating(meta.expiresAt, now)) / SECOND;
      var wireStart := meta.offset + meta.nameLen;
      var wire := new byte[meta.wireLen](i requires 0 <= i < meta.wireLen && wireStart + meta.wireLen <= pool.Length
                                           reads this, pool => pool[wireStart + i]);
      assert wire[..] == e.wire;
      var _ := Wire.AgeTtls(wire, Min(elapsed, U32_LIMIT - 1), stale);
      Restamp(entry, meta.(lastUsed := now, reused := true, refreshClaimed := meta.refreshClaimed || refresh),
          Used(e, now));
      r := Some(Hit(wire[..], refresh, stale));
    }

    /** A live entry can be read back from the slab and the arena. */
    lemma Readable(i: nat)
      requires Valid() && i in items
      ensures i < |entries| && entries[i].Some? && Describes(entries[i].value, items[i])
      ensures var it := items[i];
        var w := it.offset + |it.key.name|;
        var r := w + |it.entry.wire|;
        && r + |it.entry.request| <= pool.Length
        && pool[w..r] == it.entry.wire && pool[r..r + |it.entry.request|] == it.entry.request
      ensures items[i].key in model.entries && model.entries[items[i].key] == items[i].entry
    {
      hide *;
      Open();
      SlabEntry(entries, freeEntries, items, i);
      EntryInModel(model, items, order, i);
      ItemReadable(pool[..], heap, items, i);
      var it := items[i];
      var w := it.offset + |it.key.name|;
      var r := w + |it.entry.wire|;
      assert pool[w..r] == pool[..][w..r];
      assert pool[r..r + |it.entry.request|] == pool[..][r..r + |it.entry.request|];
    }

    /** `get_with_flags`. */
    method GetWithFlags(k: Key, now: nat) returns (r: Option<Hit>)
      requires Valid()
      modifies this`heap, this`table, this`tableLen, this`tombstones, this`entries, this`freeEntries,
               this`lruHead, this`lruTail, this`items, this`order, this`model
      ensures Valid()
      ensures (model, r) == if enabled && |k.name| <= MAX_NAME_LEN then Get(old(model), k, now) else (old(model), None)
    {
      if !enabled || |k.name| > MAX_NAME_LEN {
        return None;
      }
      hide Valid;
      var found := Find(k);
      if found.None? {
        return None;
      }
      var entry := found.value;
      if entries[entry].value.staleUntil <= now {
        Evict(entry);
        return None;
      }
      r := Serve(entry, k, now);
    }

    // ---------------------------------------------------------- refresh claims

    /** `release_refresh_claim_with_flags`: a claimed entry backs off, an unclaimed one is left alone. */
    method ReleaseRefreshClaim(k: Key, now: nat)
      requires Valid()
      modifies this`entries, this`items, this`model
      ensures Valid() && model == Release(old(model), k, now, hash(k))
    {
      hide Valid;
      var found := Find(k);
      if found.Some? {
        var entry := found.value;
        var meta := entries[entry].value;
        if meta.refreshClaimed {
          var failures := Min(meta.refreshFailures + 1, 5);
          var delay := (Pow2(failures) * 500 + hash(k) % 500) * MILLISECOND;
          Restamp(entry, meta.(refreshClaimed := false, refreshFailures := failures, retryAfter := now + delay),
                  Released(items[entry].entry, now, hash(k)));
        } else {
          assert model.entries[k := model.entries[k]] == model.entries;
        }
      }
    }

    /** `refresh_candidates`: claims due entries in recency order and hands out their stored requests. */
    method RefreshCandidates(now: nat, budget: nat) returns (requests: seq<seq<byte>>)
      requires Valid()
      modifies this`entries, this`items, this`model
      ensures Valid()
      ensures !enabled ==> model == old(model) && requests == []
      ensures forall j :: 0 <= j < |old(model).recency| ==> old(model).recency[j] in old(model).entries
      ensures enabled ==>
        var scan := Candidates(old(model), now, budget, hash);
        model == scan.cache && requests == Requests(old(model), scan.claimed)
    {
      hide *;
      Scannable();
      requests := [];
      ghost var c, done: seq<Key> := model, [];
      ScanningStart(c, now, budget, hash);
      if !enabled {
        return;
      }
      if budget == 0 {
        ScanningDone(c, c, 0, now, budget, hash, [], []);
        return;
      }
      var entry, step := lruHead, 0;
      while step < SCAN_LIMIT
        invariant 0 <= step <= SCAN_LIMIT && |requests| <= budget
        invariant Valid() && order == old(order)
        invariant entry == if step < |order| then order[step] else NONE
        invariant Scanning(c, model, step, now, budget, hash, done, requests)
      {
        Scannable();
        if entry == NONE || |requests| == budget {
          break;
        }
        ghost var m, k := model, model.recency[step];
        var request;
        entry, request := ScanOne(entry, step, now);
        if request.Some? {
          ScanningClaim(c, m, step, now, budget, hash, done, requests);
          requests, done := requests + [request.value], done + [k];
        } else {
          ScanningSkip(c, m, step, now, budget, hash, done, requests);
        }
        step := step + 1;
      }
      Scannable();
      ScanningDone(c, model, step, now, budget, hash, done, requests);
    }

    lemma Scannable()
      requires Valid()
      ensures |model.recency| == |order| && lruHead == if |order| > 0 then order[0] else NONE
      ensures forall j :: 0 <= j < |order| ==> order[j] < NONE
      ensures forall j :: 0 <= j < |model.recency| ==> model.recency[j] in model.entries
    {
      hide *;
      Open();
      ModelSizes(model, items, order);
      HeadOf(entries, order, lruHead, lruTail);
      forall j | 0 <= j < |order| ensures order[j] < NONE {
        LruEntry(entries, order, lruHead, lruTail, j);
      }
    }

    /** One iteration of the scan, at recency position `step`. */
    method ScanOne(entry: nat, ghost step: nat, now: nat) returns (next: nat, request: Option<seq<byte>>)
      requires Valid() && step < |order| && order[step] == entry
      modifies this`entries, this`items, this`model
      ensures Valid() && order == old(order) && next == if step + 1 < |order| then order[step + 1] else NONE
      ensures step < |old(model).recency| && old(model).recency[step] in old(model).entries
      ensures var k := old(model).recency[step];
        var e := old(model).entries[k];
        if Due(e, now, hash(k)) then request == Some(e.request) && model == Claim(old(model), k)
        else request == None && model == old(model)
    {
      hide Valid;
      Scanned(step);
      Readable(entry);
      var meta := entries[entry].value;
      next := meta.next;
      request := None;
      var lead := meta.originalTtl * (5 + table[meta.tableSlot].hash % 6) / 100;
      if meta.reused && meta.requestLen > 0 && !meta.refreshClaimed && meta.retryAfter <= now && meta.staleUntil > now
         && Saturating(now, meta.lastUsed) < IDLE_LIMIT && Saturating(meta.expiresAt, now) <= lead {
        var start := meta.offset + meta.nameLen + meta.wireLen;
        request := Some(pool[start..start + meta.requestLen]);
        Restamp(entry, meta.(refreshClaimed := true), items[entry].entry.(claimed := true));
      }
    }

    lemma Scanned(j: nat)
      requires Valid() && j < |order|
      ensures order[j] in items && order[j] < |entries| && entries[order[j]].Some?
      ensures var it := items[order[j]];
        && it.slot < |table| && table[it.slot].hash == hash(it.key)
        && j < |model.recency| && model.recency[j] == it.key && it.key in model.entries
           && model.entries[it.key] == it.entry
      ensures entries[order[j]].value.next == if j + 1 < |order| then order[j + 1] else NONE
    {
      hide *;
      Open();
      ScanReads(table, entries, freeEntries, items, order, lruHead, lruTail, model, hash, j);
    }

    // ------------------------------------------------------------------ sweeping

    /** `evict_expired_batch`: removes exactly the entries of the slab range whose stale window is over. */
    method EvictExpiredBatch(start: nat, end: nat, now: nat) returns (ghost dropped: set<Key>)
      requires Valid()
      modifies this`heap, this`table, this`tableLen, this`tombstones, this`entries, this`freeEntries,
               this`lruHead, this`lruTail, this`items, this`order, this`model
      ensures Valid() && items == SweptItems(old(items), start, end, now)
      ensures model == Swept(old(model), dropped)
      ensures forall k :: k in dropped <==> ExpiredIn(old(items), start, end, now, k)
      ensures start == 0 && old(|entries|) <= end ==>
        forall k :: k in model.entries <==>
          k in old(model).entries && now < old(model).entries[k].expiresAt + 30 * SECOND
    {
      hide *;
      ghost var its, c, len, list := items, model, |entries|, order;
      Open();
      ModelIsOk(model, items, order);
      SweepStart(its, c, start, now);
      SlabSlot(entries, freeEntries, items, 0);
      dropped := {};
      var stop := SweepStop(start, end, |entries|);
      for index := start to stop
        invariant Valid() && |entries| == len && model == Swept(c, dropped)
        invariant items == SweptItems(its, start, index, now)
        invariant forall k :: k in dropped <==> ExpiredIn(its, start, index, now, k)
      {
        Open();
        SlabSlot(entries, freeEntries, items, index);
        SweepStep(its, start, index, now, dropped);
        if entries[index].Some? && entries[index].value.staleUntil <= now {
          ghost var k := items[index].key;
          SweepMore(c, dropped, k);
          Evict(index);
          dropped := dropped + {k};
        }
      }
      SweepEnd(its, start, end, stop, len, now);
      if start == 0 && len <= end {
        FullSweep(c, its, list, dropped, len, end, now);
      }
    }

    // ------------------------------------------------------------------- inserts

    /** `evict_one_for_space`: the LRU tail goes, and nothing else. */
    method EvictOneForSpace() returns (evicted: bool)
      requires Valid()
      modifies this`heap, this`table, this`tableLen, this`tombstones, this`entries, this`freeEntries,
               this`lruHead, this`lruTail, this`items, this`order, this`model
      ensures Valid() && evicted == (old(order) != [])
      ensures !evicted ==> model == old(model) && heap == old(heap) && items == old(items) && order == old(order)
      ensures evicted ==>
        var n := |old(order)| - 1;
        && old(order)[n] in old(items) && order == old(order)[..n] && items == old(items) - {old(order)[n]}
        && heap == Deallocate(old(heap), old(items)[old(order)[n]].offset)
        && |old(model).recency| == n + 1 && model == Remove(old(model), old(model).recency[n])
      ensures tableLen + tombstones == old(tableLen + tombstones) && |table| == old(|table|)
    {
      hide *;
      Open();
      LastPosition(entries, order, lruHead, lruTail, model, items);
      var victim := lruTail;
      if victim == NONE {
        return false;
      }
      Evict(victim);
      return true;
    }

    /** Evicts least recent entries until an allocation succeeds or nothing is left. */
    method MakeRoom(size: nat) returns (r: Option<(nat, Heap)>, ghost dropped: nat)
      requires Valid()
      modifies this`heap, this`table, this`tableLen, this`tombstones, this`entries, this`freeEntries,
               this`lruHead, this`lruTail, this`items, this`order, this`model
      ensures Valid() && r == Allocate(heap, policy, size)
      ensures dropped <= |old(order)| == |old(model).recency| && model == DropOldest(old(model), dropped)
      ensures RoomOk(Room(old(heap), old(items), old(order)))
      ensures FirstFit(old(heap), old(items), old(order), policy, size, dropped, r.Some?)
      ensures r.None? ==> dropped == |old(order)|
      ensures tableLen + tombstones == old(tableLen + tombstones) && |table| == old(|table|)
    {
      hide *;
      Open();
      ghost var room, c := Room(heap, items, order), model;
      dropped := 0;
      MakingStart(heap, items, order, model, policy, size);
      while true
        invariant Valid() && Making(room, c, policy, size, heap, items, order, model, dropped)
        invariant tableLen + tombstones == old(tableLen + tombstones) && |table| == old(|table|)
        decreases |order|
      {
        r := Allocate(heap, policy, size);
        if r.Some? {
          break;
        }
        if order != [] {
          Open();
          MakingStep(room, c, policy, size, heap, items, order, model, dropped);
        }
        var evicted := EvictOneForSpace();
        if !evicted {
          break;
        }
        dropped := dropped + 1;
      }
      MakingDone(room, c, policy, size, heap, items, order, model, dropped);
    }

    /** `alloc_entry`: a free slab index if there is one, else a new one at the end. */
    method AllocEntry(meta: Meta, ghost it: Item) returns (index: nat)
      requires SlabOk(entries, freeEntries, items) && LruOk(entries, order, lruHead, lruTail)
      requires ModelOk(model, items, order) && Describes(meta, it) && |entries| < U32_LIMIT
      modifies this`entries, this`freeEntries
      ensures index !in items && index !in order && index < |entries| && entries[index] == Some(meta)
      ensures SlabOk(entries, freeEntries, items[index := it]) && LruOk(entries, order, lruHead, lruTail)
      ensures |entries| == Max(old(|entries|), |items| + 1)
    {
      hide SlabOk, LruOk, ModelOk, Describes;
      OrderIn(model, items, order);
      SlabCount(entries, freeEntries, items);
      if |freeEntries| > 0 {
        index := freeEntries[|freeEntries| - 1];
        SlabPop(entries, freeEntries, items, meta, it);
        LruElsewhere(entries, entries[index := Some(meta)], order, lruHead, lruTail, index);
        freeEntries := freeEntries[..|freeEntries| - 1];
        entries := entries[index := Some(meta)];
      } else {
        index := AsU32(|entries|);
        SlabPush(entries, items, meta, it);
        LruElsewhere(entries, entries + [Some(meta)], order, lruHead, lruTail, index);
        entries := entries + [Some(meta)];
      }
    }

    /** Copies name, response and request into a block. */
    method WriteBlock(at: nat, name: seq<byte>, wire: seq<byte>, request: seq<byte>)
      requires at + |name| + |wire| + |request| <= pool.Length
      modifies pool
      ensures BytesAt(pool[..], at, name + wire + request)
      ensures forall x :: 0 <= x < pool.Length && !(at <= x < at + |name| + |wire| + |request|) ==>
        pool[x] == old(pool[x])
    {
      forall i | 0 <= i < |name| { pool[at + i] := name[i]; }
      forall i | 0 <= i < |wire| { pool[at + |name| + i] := wire[i]; }
      forall i | 0 <= i < |request| { pool[at + |name| + |wire| + i] := request[i]; }
    }

    /** The new entry enters slab, arena, index and LRU order. */
    method Store(k: Key, meta: Meta, at: nat, heap': Heap, wire: seq<byte>, request: seq<byte>, ghost e: Entry)
      requires Valid() && k !in model.entries && (tableLen + tombstones + 1) * 4 < |table| * 3
      requires e.wire == wire && e.request == request
      requires Allocate(heap, policy, |k.name| + |wire| + |request|) == Some((at, heap'))
      requires Describes(meta, Item(k, e, at, meta.tableSlot))
      modifies pool, this`heap, this`table, this`tableLen, this`tombstones, this`entries, this`freeEntries,
               this`lruHead, this`lruTail, this`items, this`order, this`model, this`peak
      ensures Valid() && model == AddFront(old(model), k, e) && peak == Max(old(peak), |items|)
    {
      hide *;
      Open();
      ghost var it := Item(k, e, at, meta.tableSlot);
      SpanOf(it);
      AllocatedBlock(heap, policy, it.Span(), at, heap', pool[..], items);
      StoreSizes(pool.Length, |entries|, peak, |table|, heap', |items|);
      var index := Record(k, meta, at, heap', wire, request, it);
      peak := Max(peak, |items| + 1);
      KeyInModel(model, items, order, k);
      Place(k, index, it);
    }

    /** The first part of an insert: the block is written and the slab gets an entry for it. */
    method Record(k: Key, meta: Meta, at: nat, heap': Heap, wire: seq<byte>, request: seq<byte>, ghost it: Item)
      returns (index: nat)
      requires SlabOk(entries, freeEntries, items) && LruOk(entries, order, lruHead, lruTail)
      requires ModelOk(model, items, order) && ArenaOk(pool[..], heap, items) && |entries| < U32_LIMIT
      requires Describes(meta, it) && it.offset == at && it.Bytes() == k.name + wire + request
      requires it.Span() == |k.name| + |wire| + |request| && at + it.Span() <= pool.Length
      requires Allocate(heap, policy, it.Span()) == Some((at, heap'))
      modifies pool, this`heap, this`entries, this`freeEntries
      ensures heap == heap' && index !in items && index !in order && index < |entries|
      ensures |entries| == Max(old(|entries|), |items| + 1)
      ensures SlabOk(entries, freeEntries, items[index := it]) && LruOk(entries, order, lruHead, lruTail)
      ensures ArenaOk(pool[..], heap, items[index := it])
      ensures Holds(entries, items) && BytesOk(pool[..], items)
    {
      hide *;
      ghost var pool0, heap0 := pool[..], heap;
      WriteBlock(at, k.name, wire, request);
      heap := heap';
      index := AllocEntry(meta, it);
      ArenaAdd(pool0, pool[..], heap0, heap, policy, items, index, it);
      StillReadable(entries, freeEntries, items, pool[..], heap, index, it);
    }

    /** The last part of an insert: the slab entry at `index` gets its table slot and becomes the most recent. */
    method Place(k: Key, index: nat, ghost it: Item)
      requires SizesOk(pool.Length, |entries|, peak, |table|) && |table| <= U32_LIMIT
      requires IndexOk(table, items, hash) && tableLen == |items| && CountsOk(table, tableLen, tombstones)
      requires (tableLen + tombstones + 1) * 4 < |table| * 3
      requires LruOk(entries, order, lruHead, lruTail) && ModelOk(model, items, order)
      requires Holds(entries, items) && BytesOk(pool[..], items)
      requires index !in items && index !in order && index < TOMBSTONE && index < NONE && !KeyIn(items, k)
        && it.key == k
      requires SlabOk(entries, freeEntries, items[index := it]) && ArenaOk(pool[..], heap, items[index := it])
      modifies this`table, this`tableLen, this`tombstones, this`entries,
               this`lruHead, this`lruTail, this`items, this`order, this`model
      ensures Valid() && model == AddFront(old(model), k, it.entry) && |items| == old(|items|) + 1
    {
      hide *;
      CountsRoom(table, tableLen, tombstones);
      var r := Locate(k, items);
      if r.Found? {
        assert false;
      } else {
        var slot := r.slot;
        ghost var placed := it.(slot := slot);
        AddModel(model, items, order, index, placed);
        Occupy(k, index, slot, placed);
        Enlist(index, AsU32(slot), it);
        items, model := items[index := placed], AddFront(model, k, it.entry);
        Close();
      }
    }

    /** Records the table slot of a new slab entry and links it in front. */
    method Enlist(index: nat, slot: nat, ghost it: Item)
      requires LruOk(entries, order, lruHead, lruTail) && index !in order && index < NONE
      requires SlabOk(entries, freeEntries, items[index := it]) && ArenaOk(pool[..], heap, items[index := it])
      modifies this`entries, this`lruHead, this`lruTail, this`order
      ensures LruOk(entries, order, lruHead, lruTail) && order == [index] + old(order) && |entries| == old(|entries|)
      ensures SlabOk(entries, freeEntries, items[index := it.(slot := slot)])
      ensures ArenaOk(pool[..], heap, items[index := it.(slot := slot)])
    {
      hide *;
      MoveItem(pool[..], heap, entries, freeEntries, items, index, it, slot);
      LruElsewhere(entries, SetSlot(entries, index, slot), order, lruHead, lruTail, index);
      entries := SetSlot(entries, index, slot);
      ghost var entries0 := entries;
      AttachFront(index);
      SameButLinksKeeps(entries0, entries, freeEntries, items[index := it.(slot := slot)]);
    }

    /** Writes the vacant slot a probe returned and keeps the counters. */
    method Occupy(k: Key, index: nat, slot: nat, ghost it: Item)
      requires IndexOk(table, items, hash) && tableLen == |items| && CountsOk(table, tableLen, tombstones)
      requires (tableLen + tombstones + 1) * 4 < |table| * 3
      requires index !in items && index < TOMBSTONE && !KeyIn(items, k) && it.key == k && it.slot == slot
      requires slot < |table| && TOMBSTONE <= table[slot].entry <= EMPTY
      requires Reaches(table, Home(hash(k), |table|), slot)
      modifies this`table, this`tableLen, this`tombstones
      ensures |table| == old(|table|) && tableLen == |items[index := it]|
      ensures IndexOk(table, items[index := it], hash) && CountsOk(table, tableLen, tombstones)
    {
      hide *;
      PlaceSlot(table, tableLen, tombstones, items, hash, index, it);
      if table[slot].entry == TOMBSTONE {
        tombstones := tombstones - 1;
      }
      table := table[slot := KeySlot(hash(k), index)];
      tableLen := tableLen + 1;
    }

    /** `insert_with_flags`; a name over 255 octets, a request over 65535 or a sum over the pool is refused. */
    method InsertWithFlags(k: Key, ttl: nat, wire: seq<byte>, request: seq<byte>, t0: nat, t1: nat, t2: nat)
      returns (ghost dropped: nat, ghost stored: bool, ghost room: Room)
      requires Valid() && t0 <= t1 <= t2 && ttl < U32_LIMIT
      modifies pool, this`heap, this`table, this`tableLen, this`tombstones, this`entries, this`freeEntries,
               this`lruHead, this`lruTail, this`items, this`order, this`model, this`peak
      ensures Valid() && peak == Max(old(peak), |items|)
      ensures !enabled || |k.name| > 255 || |request| >= 65536 || |k.name| + |wire| + |request| > pool.Length ==>
        model == old(model)
      ensures enabled && |k.name| <= 255 && |request| < 65536 && |k.name| + |wire| + |request| <= pool.Length ==>
        && InsertStep(old(model), model, k, NewEntry(old(model), k, ttl, wire, request, t0, t1, t2), dropped, stored)
        && WithoutKey(old(heap), old(items), old(order), k, room) && RoomOk(room) && dropped <= |room.order|
        && FirstFit(room.heap, room.items, room.order, policy, |k.name| + |wire| + |request|, dropped, stored)
    {
      dropped, stored, room := 0, false, Room(heap, items, order);
      PeakKept();
      if !enabled || |k.name| > MAX_NAME_LEN || |request| >= U16_LIMIT {
        return;
      }
      if |k.name| + |wire| + |request| > pool.Length {
        return;
      }
      hide Valid, InsertStep, NewEntry, WithoutKey, RoomOk, FirstFit;
      dropped, stored, room := Replace(k, ttl, wire, request, t0, t1, t2);
    }

    /** An insert past its size checks. */
    method Replace(k: Key, ttl: nat, wire: seq<byte>, request: seq<byte>, t0: nat, t1: nat, t2: nat)
      returns (ghost dropped: nat, ghost stored: bool, ghost room: Room)
      requires Valid() && |k.name| <= MAX_NAME_LEN && |request| < U16_LIMIT
      requires |k.name| + |wire| + |request| <= pool.Length
      modifies pool, this`heap, this`table, this`tableLen, this`tombstones, this`entries, this`freeEntries,
               this`lruHead, this`lruTail, this`items, this`order, this`model, this`peak
      ensures Valid() && peak == Max(old(peak), |items|)
      ensures InsertStep(old(model), model, k, NewEntry(old(model), k, ttl, wire, request, t0, t1, t2), dropped, stored)
      ensures WithoutKey(old(heap), old(items), old(order), k, room) && RoomOk(room) && dropped <= |room.order|
      ensures FirstFit(room.heap, room.items, room.order, policy, |k.name| + |wire| + |request|, dropped, stored)
    {
      hide *;
      ghost var c := model;
      Bounds();
      var lastUsed, reused := TakeOld(k, t1);
      room := Room(heap, items, order);
      TakenRoom();
      EnsureTableCapacity();
      ghost var items1 := items;
      var r;
      r, dropped := MakeRoom(|k.name| + |wire| + |request|);
      stored := r.Some?;
      FirstFitSame(room.heap, room.items, items1, room.order, policy, |k.name| + |wire| + |request|, dropped, stored);
      DroppedAbsent(c, k, dropped);
      ghost var e := NewEntry(c, k, ttl, wire, request, t0, t1, t2);
      if r.Some? {
        var meta := NewMeta(r.value.0, k, ttl, |wire|, |request|, t0, t2, lastUsed, reused);
        NewMetaDescribes(c, r.value.0, k, ttl, wire, request, t0, t1, t2, lastUsed, reused);
        Store(k, meta, r.value.0, r.value.1, wire, request, e);
      } else {
        PeakKept();
      }
      InsertStepIntro(c, model, k, e, dropped, stored);
    }

    /** Removes the key's old entry, if any, and passes on its use history. */
    method TakeOld(k: Key, t1: nat) returns (lastUsed: nat, reused: bool)
      requires Valid()
      modifies this`heap, this`table, this`tableLen, this`tombstones, this`entries, this`freeEntries,
               this`lruHead, this`lruTail, this`items, this`order, this`model
      ensures Valid() && model == Remove(old(model), k)
      ensures (lastUsed, reused) ==
        if k in old(model).entries then (old(model).entries[k].lastUsed, old(model).entries[k].reused) else (t1, false)
      ensures WithoutKey(old(heap), old(items), old(order), k, Room(heap, items, order))
    {
      hide Valid, Ok, Remove, WithoutKey, DistinctKeys, KeyIn;
      Bounds();
      RemoveAbsentHint(model, k);
      lastUsed, reused := t1, false;
      var found := Find(k);
      if found.Some? {
        lastUsed, reused := entries[found.value].value.lastUsed, entries[found.value].value.reused;
        WithoutKeyFound(heap, items, order, k, found.value);
        Evict(found.value);
      } else {
        WithoutKeyAbsent(heap, items, order, k);
      }
    }

    lemma TakenRoom()
      requires Valid()
      ensures RoomOk(Room(heap, items, order))
    {
    }
  }

  /** The slab record of a new entry, with the program's narrowing casts. */
  function NewMeta(at: nat, k: Key, ttl: nat, wireLen: nat, requestLen: nat, t0: nat, t2: nat, lastUsed: nat,
                   reused: bool): Meta {
    Meta(at, AsU16(|k.name|), AsU32(wireLen), requestLen, k.rtype, k.qclass, k.flags,
         t0 + ttl * SECOND, t0 + ttl * SECOND + STALE_WINDOW, ttl * SECOND, lastUsed, t2, reused, 0, false,
         NONE, NONE, 0)
  }

  lemma NewMetaDescribes(c: Cache, at: nat, k: Key, ttl: nat, wire: seq<byte>, request: seq<byte>, t0: nat, t1: nat,
                         t2: nat,
                         lastUsed: nat, reused: bool)
    requires |k.name| <= MAX_NAME_LEN && |wire| <= MAX_POOL
    requires (lastUsed, reused) == if k in c.entries then (c.entries[k].lastUsed, c.entries[k].reused) else (t1, false)
    ensures var m := NewMeta(at, k, ttl, |wire|, |request|, t0, t2, lastUsed, reused);
      var e := NewEntry(c, k, ttl, wire, request, t0, t1, t2);
      Describes(m, Item(k, e, at, m.tableSlot)) && e.wire == wire && e.request == request
  {
  }

  lemma RemoveAbsentHint(c: Cache, k: Key)
    requires Ok(c)
    ensures k !in c.entries ==> Remove(c, k) == c
  {
    if k !in c.entries {
      RemoveAbsent(c, k);
    }
  }

  lemma InsertStepIntro(c: Cache, c': Cache, k: Key, e: Entry, dropped: nat, stored: bool)
    requires dropped <= |Remove(c, k).recency|
    requires if stored then c' == AddFront(DropOldest(Remove(c, k), dropped), k, e)
             else dropped == |Remove(c, k).recency| && c' == DropOldest(Remove(c, k), dropped)
    ensures InsertStep(c, c', k, e, dropped, stored)
  {
  }

  /** Some item of the slab range with key `k` is past its stale window. */
  ghost predicate ExpiredIn(items: Items, start: nat, end: nat, now: nat, k: Key) {
    exists i :: i in items && start <= i < end && items[i].key == k && items[i].entry.StaleUntil() <= now
  }

  ghost function SweptItems(items: Items, start: nat, end: nat, now: nat): Items {
    map i | i in items && !(start <= i < end && items[i].entry.StaleUntil() <= now) :: items[i]
  }

  function SweepStop(start: nat, end: nat, len: nat): (stop: nat)
    ensures start <= stop && (stop == start || stop <= len)
  {
    Max(start, Min(end, len))
  }

  lemma SweepStart(its: Items, c: Cache, start: nat, now: nat)
    ensures SweptItems(its, start, start, now) == its && Swept(c, {}) == c
    ensures forall k :: !ExpiredIn(its, start, start, now, k)
  {
    SweepNothing(c);
  }

  lemma SweepEnd(its: Items, start: nat, end: nat, stop: nat, len: nat, now: nat)
    requires stop == SweepStop(start, end, len) && forall i :: i in its ==> i < len
    ensures SweptItems(its, start, stop, now) == SweptItems(its, start, end, now)
    ensures forall k :: ExpiredIn(its, start, stop, now, k) <==> ExpiredIn(its, start, end, now, k)
  {
    assert forall i :: i in its ==> (start <= i < stop <==> start <= i < end);
  }

  /** A sweep of the whole slab leaves exactly the entries within their stale window. */
  lemma FullSweep(c: Cache, its: Items, order: seq<nat>, dropped: set<Key>, len: nat, end: nat, now: nat)
    requires ModelOk(c, its, order) && (forall i :: i in its ==> i < len) && len <= end
    requires forall k :: k in dropped <==> ExpiredIn(its, 0, end, now, k)
    ensures forall k :: k in Swept(c, dropped).entries <==> k in c.entries && now < c.entries[k].expiresAt + 30 * SECOND
  {
  }

  lemma SweepStep(its: Items, start: nat, index: nat, now: nat, dropped: set<Key>)
    requires DistinctKeys(its) && start <= index
    requires forall k :: k in dropped <==> ExpiredIn(its, start, index, now, k)
    ensures var items := SweptItems(its, start, index, now);
      var next := SweptItems(its, start, index + 1, now);
      if index in items && items[index].entry.StaleUntil() <= now then
        && next == items - {index} && items[index].key !in dropped
        && forall k :: ExpiredIn(its, start, index + 1, now, k) <==> k in dropped || k == items[index].key
      else
        next == items && forall k :: ExpiredIn(its, start, index + 1, now, k) <==> k in dropped
  {
    var items := SweptItems(its, start, index, now);
    assert index in its <==> index in items;
    if index in items && items[index].entry.StaleUntil() <= now {
      assert SweptItems(its, start, index + 1, now) == items - {index};
      assert ExpiredIn(its, start, index + 1, now, items[index].key);
    }
    forall k | k in dropped ensures ExpiredIn(its, start, index + 1, now, k) {
      assert ExpiredIn(its, start, index, now, k);
    }
    forall k | ExpiredIn(its, start, index + 1, now, k)
      ensures k in dropped || (index in items && items[index].entry.StaleUntil() <= now && k == items[index].key)
    {
      var i :| i in its && start <= i < index + 1 && its[i].key == k && its[i].entry.StaleUntil() <= now;
      if i < index {
        assert ExpiredIn(its, start, index, now, k);
      }
    }
  }

  /** The slots from `home` up to `slot` are neither EMPTY nor hold the key. */
  ghost predicate Probed(table: seq<KeySlot>, its: Items, home: nat, slot: nat, k: Key)
    requires home < |table| && slot < |table|
  {
    && Reaches(table, home, slot)
    && forall x :: 0 <= x < |table| && Dist(home, x, |table|) < Dist(home, slot, |table|) && table[x].entry in its ==>
         its[table[x].entry].key != k
  }

  ghost predicate Reusable(table: seq<KeySlot>, home: nat, slot: nat, t: nat)
    requires home < |table| && slot < |table|
  {
    t < |table| && table[t].entry == TOMBSTONE && Dist(home, t, |table|) <= Dist(home, slot, |table|)
  }

  lemma ProbeStep(table: seq<KeySlot>, its: Items, home: nat, slot: nat, stop: nat, k: Key)
    requires home < |table| && slot < |table| && stop < |table|
    requires Dist(home, slot, |table|) <= Dist(home, stop, |table|) && table[stop].entry == EMPTY
    requires Probed(table, its, home, slot, k)
    requires table[slot].entry != EMPTY && (table[slot].entry in its ==> its[table[slot].entry].key != k)
    ensures Dist(home, Next(slot, |table|), |table|) == Dist(home, slot, |table|) + 1 <= Dist(home, stop, |table|)
    ensures Probed(table, its, home, Next(slot, |table|), k)
  {
    var n := |table|;
    if Dist(home, slot, n) == Dist(home, stop, n) {
      DistInjective(home, slot, stop, n);
    }
    NextDist(home, slot, stop, n);
    forall x | 0 <= x < n && Dist(home, x, n) < Dist(home, slot, n) + 1
      ensures table[x].entry != EMPTY && (table[x].entry in its ==> its[table[x].entry].key != k)
    {
      if Dist(home, x, n) == Dist(home, slot, n) {
        DistInjective(home, x, slot, n);
      }
    }
  }

  /** An unsuccessful probe up to an EMPTY slot shows that the key is not live. */
  lemma NotIndexed(table: seq<KeySlot>, its: Items, hash: Key -> u64, k: Key, slot: nat)
    requires IndexOk(table, its, hash) && slot < |table| && table[slot].entry == EMPTY
    requires Probed(table, its, Home(hash(k), |table|), slot, k)
    ensures !KeyIn(its, k)
  {
    forall i | i in its ensures its[i].key != k {
      assert Indexed(table, i, its[i], hash);
    }
  }
}
