/**
 The four representations inside the cache, as values: slab, open-addressed index, LRU links and
 byte arena. A ghost map from slab index to `Item` says what each live entry stands for; each
 predicate ties one representation to that map, so each update disturbs one predicate at a time.
 */
module CacheParts {
  import opened Basics
  import opened Probing
  import opened CacheModel
  import opened ArenaHeap

  // Slab indexes and table slots are u32 in the program, with two reserved values.
  const EMPTY: nat := 0xffff_ffff
  const TOMBSTONE: nat := 0xffff_fffe
  const NONE: nat := 0xffff_ffff
  const MAX_POOL: nat := 0x4000_0000
  const MIN_TABLE: nat := 64

  datatype KeySlot = KeySlot(hash: nat, entry: nat)

  datatype Meta = Meta(
    offset: nat, nameLen: nat, wireLen: nat, requestLen: nat, rtype: nat, qclass: nat, flags: nat,
    expiresAt: nat, staleUntil: nat, originalTtl: nat, lastUsed: nat, retryAfter: nat,
    reused: bool, refreshFailures: nat, refreshClaimed: bool, prev: nat, next: nat, tableSlot: nat)

  type Slab = seq<Option<Meta>>

  /** What one live slab entry stands for. */
  datatype Item = Item(key: Key, entry: Entry, offset: nat, slot: nat) {
    function Bytes(): seq<byte> { key.name + entry.wire + entry.request }
    function Span(): nat { |key.name| + |entry.wire| + |entry.request| }
  }

  type Items = map<nat, Item>

  // ---------------------------------------------------------------------- slab

  ghost predicate Describes(m: Meta, it: Item) {
    && m.offset == it.offset && m.tableSlot == it.slot
    && m.nameLen == |it.key.name| && m.wireLen == |it.entry.wire| && m.requestLen == |it.entry.request|
    && m.rtype == it.key.rtype && m.qclass == it.key.qclass && m.flags == it.key.flags
    && m.expiresAt == it.entry.expiresAt && m.staleUntil == it.entry.StaleUntil()
    && m.originalTtl == it.entry.ttl && m.lastUsed == it.entry.lastUsed && m.retryAfter == it.entry.retryAfter
    && m.reused == it.entry.reused && m.refreshFailures == it.entry.failures && m.refreshClaimed == it.entry.claimed
  }

  /** Every item is the content of its slab entry. */
  ghost predicate Holds(entries: Slab, items: Items) {
    forall i :: i in items ==> i < |entries| && entries[i].Some? && Describes(entries[i].value, items[i])
  }

  /** The slab holds the items and nothing else; the free list names unused indexes once each. */
  ghost predicate SlabOk(entries: Slab, free: seq<nat>, items: Items) {
    && Holds(entries, items)
    && (forall i :: 0 <= i < |entries| && entries[i].Some? ==> i in items)
    && (forall j :: 0 <= j < |free| ==> free[j] < |entries| && entries[free[j]].None?)
    && Distinct(free)
    && |items| + |free| == |entries|
  }

  // --------------------------------------------------------------------- index

  predicate IsEmpty(s: KeySlot) { s.entry == EMPTY }
  predicate IsTomb(s: KeySlot) { s.entry == TOMBSTONE }

  /** No EMPTY slot lies between `home` and `slot`, so a probe from home reaches it. */
  ghost predicate Reaches(table: seq<KeySlot>, home: nat, slot: nat)
    requires home < |table| && slot < |table|
  {
    forall x :: 0 <= x < |table| && Dist(home, x, |table|) < Dist(home, slot, |table|) ==> table[x].entry != EMPTY
  }

  ghost predicate Indexed(table: seq<KeySlot>, i: nat, it: Item, hash: Key -> u64) {
    && it.slot < |table|
    && table[it.slot] == KeySlot(hash(it.key), i)
    && Reaches(table, Home(hash(it.key), |table|), it.slot)
  }

  ghost predicate DistinctKeys(items: Items) {
    forall i, j :: i in items && j in items && items[i].key == items[j].key ==> i == j
  }

  /** The table finds every item, and every occupied slot belongs to an item. */
  ghost predicate IndexOk(table: seq<KeySlot>, items: Items, hash: Key -> u64) {
    && |table| > 0
    && DistinctKeys(items)
    && (forall i :: i in items ==> i < TOMBSTONE && Indexed(table, i, items[i], hash))
    && (forall s :: 0 <= s < |table| && table[s].entry < TOMBSTONE ==>
          table[s].entry in items && items[table[s].entry].slot == s)
    && (forall s :: 0 <= s < |table| ==> table[s].entry <= EMPTY)
  }

  /** Counters agree with the table, and under three quarters of it is in use. */
  ghost predicate CountsOk(table: seq<KeySlot>, tableLen: nat, tombstones: nat) {
    && CountIf(table, IsTomb) == tombstones
    && CountIf(table, IsEmpty) + tableLen + tombstones == |table|
    && (tableLen + tombstones) * 4 < |table| * 3
  }

  ghost predicate TableSize(n: nat, slabLen: nat) {
    PowerOfTwo(n) && MIN_TABLE <= n <= Max(MIN_TABLE, 4 * slabLen)
  }

  /** The slab is as long as the peak number of live entries, which the pool bounds; the table is up to 4 times that. */
  ghost predicate SizesOk(poolSize: nat, slabLen: nat, peak: nat, tableSize: nat) {
    poolSize <= MAX_POOL && slabLen == peak <= poolSize && TableSize(tableSize, peak)
  }

  lemma IndexDistinct(table: seq<KeySlot>, items: Items, hash: Key -> u64)
    requires IndexOk(table, items, hash)
    ensures DistinctKeys(items)
  {
  }

  lemma IndexInsert(table: seq<KeySlot>, items: Items, hash: Key -> u64, i: nat, it: Item)
    requires IndexOk(table, items, hash)
    requires i !in items && i < TOMBSTONE && forall j :: j in items ==> items[j].key != it.key
    requires it.slot < |table| && table[it.slot].entry >= TOMBSTONE
    requires Reaches(table, Home(hash(it.key), |table|), it.slot)
    ensures IndexOk(table[it.slot := KeySlot(hash(it.key), i)], items[i := it], hash)
  {
    var t', items' := table[it.slot := KeySlot(hash(it.key), i)], items[i := it];
    forall j | j in items'
      ensures j < TOMBSTONE && Indexed(t', j, items'[j], hash)
    {
      if j != i {
        assert Indexed(table, j, items[j], hash);
      }
    }
  }

  lemma IndexEvict(table: seq<KeySlot>, items: Items, hash: Key -> u64, i: nat)
    requires IndexOk(table, items, hash) && i in items
    ensures items[i].slot < |table| && table[items[i].slot].entry == i < TOMBSTONE
    ensures IndexOk(table[items[i].slot := table[items[i].slot].(entry := TOMBSTONE)], items - {i}, hash)
  {
    assert Indexed(table, i, items[i], hash);
    var s := items[i].slot;
    var t', items' := table[s := table[s].(entry := TOMBSTONE)], items - {i};
    forall j | j in items'
      ensures j < TOMBSTONE && Indexed(t', j, items'[j], hash)
    {
      assert Indexed(table, j, items[j], hash);
    }
  }

  /** The index depends on keys and slots only. */
  lemma IndexSame(table: seq<KeySlot>, items: Items, items': Items, hash: Key -> u64)
    requires IndexOk(table, items, hash) && items'.Keys == items.Keys
    requires forall i :: i in items ==> items'[i].key == items[i].key && items'[i].slot == items[i].slot
    ensures IndexOk(table, items', hash)
  {
    forall j | j in items'
      ensures j < TOMBSTONE && Indexed(table, j, items'[j], hash)
    {
      assert Indexed(table, j, items[j], hash);
    }
  }

  lemma CountsInsert(table: seq<KeySlot>, tableLen: nat, tombstones: nat, s: nat, slot: KeySlot)
    requires CountsOk(table, tableLen, tombstones) && (tableLen + tombstones + 1) * 4 < |table| * 3
    requires s < |table| && slot.entry < TOMBSTONE && (IsEmpty(table[s]) || IsTomb(table[s]))
    ensures IsTomb(table[s]) ==> tombstones > 0
    ensures CountsOk(table[s := slot], tableLen + 1, if IsTomb(table[s]) then tombstones - 1 else tombstones)
  {
    CountUpdate(table, IsTomb, s, slot);
    CountUpdate(table, IsEmpty, s, slot);
  }

  lemma CountsEvict(table: seq<KeySlot>, tableLen: nat, tombstones: nat, s: nat)
    requires CountsOk(table, tableLen, tombstones) && tableLen > 0
    requires s < |table| && table[s].entry < TOMBSTONE
    ensures CountsOk(table[s := table[s].(entry := TOMBSTONE)], tableLen - 1, tombstones + 1)
  {
    CountUpdate(table, IsTomb, s, table[s].(entry := TOMBSTONE));
    CountUpdate(table, IsEmpty, s, table[s].(entry := TOMBSTONE));
  }

  // ----------------------------------------------------------------- LRU links

  function LinkBefore(order: seq<nat>, j: nat): nat
    requires j < |order|
  {
    if j == 0 then NONE else order[j - 1]
  }

  function LinkAfter(order: seq<nat>, j: nat): nat
    requires j < |order|
  {
    if j + 1 == |order| then NONE else order[j + 1]
  }

  ghost predicate Linked(entries: Slab, order: seq<nat>, j: nat)
    requires j < |order|
  {
    && order[j] < |entries| && order[j] < NONE && entries[order[j]].Some?
    && entries[order[j]].value.prev == LinkBefore(order, j)
    && entries[order[j]].value.next == LinkAfter(order, j)
  }

  /** The links spell out `order`, most recent first. */
  ghost predicate LruOk(entries: Slab, order: seq<nat>, head: nat, tail: nat) {
    && Distinct(order)
    && (forall j :: 0 <= j < |order| ==> Linked(entries, order, j))
    && head == (if order == [] then NONE else order[0])
    && tail == (if order == [] then NONE else order[|order| - 1])
  }

  lemma LruDistinct(entries: Slab, order: seq<nat>, head: nat, tail: nat)
    requires LruOk(entries, order, head, tail)
    ensures Distinct(order)
  {
  }

  lemma HeadFirst(entries: Slab, order: seq<nat>, head: nat, tail: nat, j: nat)
    requires LruOk(entries, order, head, tail) && j < |order| && order[j] == head
    ensures j == 0 && [order[j]] + (order[..j] + order[j + 1..]) == order
  {
    assert order[0] == head;
  }

  /** Same entries up to their links. */
  ghost predicate SameButLinks(entries: Slab, entries': Slab) {
    && |entries'| == |entries|
    && forall i :: 0 <= i < |entries| ==>
         && (entries'[i].Some? <==> entries[i].Some?)
         && (entries[i].Some? ==>
               entries'[i].value == entries[i].value.(prev := entries'[i].value.prev, next := entries'[i].value.next))
  }

  lemma SameButLinksKeeps(entries: Slab, entries': Slab, free: seq<nat>, items: Items)
    requires SameButLinks(entries, entries')
    ensures Holds(entries, items) ==> Holds(entries', items)
    ensures SlabOk(entries, free, items) ==> SlabOk(entries', free, items)
  {
  }

  function SetNext(entries: Slab, i: nat, v: nat): Slab
    requires i < |entries| && entries[i].Some?
  {
    entries[i := Some(entries[i].value.(next := v))]
  }

  function SetPrev(entries: Slab, i: nat, v: nat): Slab
    requires i < |entries| && entries[i].Some?
  {
    entries[i := Some(entries[i].value.(prev := v))]
  }

  lemma DropAt(order: seq<nat>, j: nat)
    requires Distinct(order) && j < |order|
    ensures var o := order[..j] + order[j + 1..];
      && Distinct(o) && |o| == |order| - 1
      && (forall x :: 0 <= x < |o| ==> o[x] == order[if x < j then x else x + 1])
      && (forall x :: 0 <= x < |o| ==> o[x] != order[j])
  {
  }

  function Unlinked(entries: Slab, order: seq<nat>, j: nat): Slab
    requires j < |order|
    requires j > 0 ==> order[j - 1] < |entries| && entries[order[j - 1]].Some?
    requires j + 1 < |order| ==> order[j + 1] < |entries| && entries[order[j + 1]].Some?
  {
    var mid := if j == 0 then entries else SetNext(entries, order[j - 1], LinkAfter(order, j));
    if j + 1 == |order| then mid else SetPrev(mid, order[j + 1], LinkBefore(order, j))
  }

  lemma UnlinkAt(entries: Slab, order: seq<nat>, j: nat, x: nat)
    requires Distinct(order) && j < |order| && x < |order| - 1
    requires forall y :: 0 <= y < |order| ==> Linked(entries, order, y)
    ensures (j > 0 ==> Linked(entries, order, j - 1)) && (j + 1 < |order| ==> Linked(entries, order, j + 1))
    ensures Linked(Unlinked(entries, order, j), order[..j] + order[j + 1..], x)
  {
    var y := if x < j then x else x + 1;
    assert Linked(entries, order, y);
    assert j > 0 ==> Linked(entries, order, j - 1);
    assert j + 1 < |order| ==> Linked(entries, order, j + 1);
  }

  /** Relinking the neighbours of position `j` takes it out of the order. */
  lemma UnlinkOk(entries: Slab, order: seq<nat>, head: nat, tail: nat, j: nat)
    requires LruOk(entries, order, head, tail) && j < |order|
    ensures Linked(entries, order, j)
    ensures (j > 0 ==> Linked(entries, order, j - 1)) && (j + 1 < |order| ==> Linked(entries, order, j + 1))
    ensures var p, n := LinkBefore(order, j), LinkAfter(order, j);
      LruOk(Unlinked(entries, order, j), order[..j] + order[j + 1..],
            if p == NONE then n else head, if n == NONE then p else tail)
    ensures SameButLinks(entries, Unlinked(entries, order, j))
  {
    var o := order[..j] + order[j + 1..];
    DropAt(order, j);
    assert Linked(entries, order, j);
    assert j > 0 ==> Linked(entries, order, j - 1);
    assert j + 1 < |order| ==> Linked(entries, order, j + 1);
    forall x | 0 <= x < |o|
      ensures Linked(Unlinked(entries, order, j), o, x)
    {
      UnlinkAt(entries, order, j, x);
    }
  }

  function Attached(entries: Slab, i: nat, head: nat): Slab
    requires i < |entries| && entries[i].Some? && (head != NONE ==> head < |entries| && entries[head].Some?)
  {
    var mid := entries[i := Some(entries[i].value.(prev := NONE, next := head))];
    if head == NONE then mid else SetPrev(mid, head, i)
  }

  lemma AttachAt(entries: Slab, order: seq<nat>, i: nat, head: nat, x: nat)
    requires Distinct(order) && i !in order && i < |entries| && i < NONE && entries[i].Some? && x <= |order|
    requires forall y :: 0 <= y < |order| ==> Linked(entries, order, y)
    requires head == (if order == [] then NONE else order[0])
    ensures order != [] ==> Linked(entries, order, 0)
    ensures Linked(Attached(entries, i, head), [i] + order, x)
  {
    assert order != [] ==> Linked(entries, order, 0);
    if x > 0 {
      assert Linked(entries, order, x - 1);
    }
  }

  /** Linking an entry before the old head puts it first. */
  lemma AttachOk(entries: Slab, order: seq<nat>, head: nat, tail: nat, i: nat)
    requires LruOk(entries, order, head, tail) && i !in order && i < |entries| && i < NONE && entries[i].Some?
    ensures head != NONE ==> head < |entries| && entries[head].Some?
    ensures LruOk(Attached(entries, i, head), [i] + order, i, if tail == NONE then i else tail)
    ensures SameButLinks(entries, Attached(entries, i, head))
  {
    assert order != [] ==> Linked(entries, order, 0) && Linked(entries, order, |order| - 1);
    forall x | 0 <= x < |[i] + order|
      ensures Linked(Attached(entries, i, head), [i] + order, x)
    {
      AttachAt(entries, order, i, head, x);
    }
  }

  // --------------------------------------------------------------------- arena

  ghost predicate BytesAt(pool: seq<byte>, at: nat, bytes: seq<byte>) {
    at + |bytes| <= |pool| && pool[at..at + |bytes|] == bytes
  }

  ghost predicate Owns(heap: Heap, it: Item) {
    it.offset in heap.live && heap.live[it.offset] == it.Span()
  }

  ghost predicate DistinctOffsets(items: Items) {
    forall i, j :: i in items && j in items && i != j ==> items[i].offset != items[j].offset
  }

  /** Each item has its own live block and no block is without an item. */
  ghost predicate BlocksOk(heap: Heap, items: Items) {
    && |heap.live| == |items|
    && (forall i :: i in items ==> Owns(heap, items[i]))
    && DistinctOffsets(items)
  }

  /** The blocks hold exactly the items' bytes. */
  ghost predicate BytesOk(pool: seq<byte>, items: Items) {
    forall i :: i in items ==> BytesAt(pool, items[i].offset, items[i].Bytes())
  }

  ghost predicate ArenaOk(pool: seq<byte>, heap: Heap, items: Items) {
    heap.size == |pool| && HeapOk(heap) && BlocksOk(heap, items) && BytesOk(pool, items)
  }

  lemma BytesElsewhere(pool: seq<byte>, pool': seq<byte>, at: nat, n: nat, lo: nat, bytes: seq<byte>)
    requires |pool'| == |pool| && BytesAt(pool, lo, bytes) && Apart(at, n, lo, |bytes|)
    requires forall x :: 0 <= x < |pool| && !(at <= x < at + n) ==> pool'[x] == pool[x]
    ensures BytesAt(pool', lo, bytes)
  {
  }

  lemma BlocksAdd(heap: Heap, heap': Heap, items: Items, i: nat, it: Item)
    requires BlocksOk(heap, items) && i !in items
    requires it.offset !in heap.live && heap'.live == heap.live[it.offset := it.Span()]
    ensures BlocksOk(heap', items[i := it])
  {
    forall j | j in items
      ensures Owns(heap', items[j]) && items[j].offset != it.offset
    {
      assert Owns(heap, items[j]);
    }
  }

  /** Writing a fresh block leaves every other block's bytes alone. */
  lemma ArenaAdd(pool: seq<byte>, pool': seq<byte>, heap: Heap, heap': Heap, policy: Policy, items: Items, i: nat,
                 it: Item)
    requires ArenaOk(pool, heap, items) && i !in items
    requires Allocate(heap, policy, it.Span()) == Some((it.offset, heap'))
    requires |pool'| == |pool| && BytesAt(pool', it.offset, it.Bytes())
    requires forall x :: 0 <= x < |pool| && !(it.offset <= x < it.offset + it.Span()) ==> pool'[x] == pool[x]
    ensures ArenaOk(pool', heap', items[i := it])
  {
    hide BlocksOk, BytesOk, BytesAt;
    BlocksAdd(heap, heap', items, i, it);
    BytesAdd(pool, pool', heap, items, i, it);
  }

  lemma BytesAdd(pool: seq<byte>, pool': seq<byte>, heap: Heap, items: Items, i: nat, it: Item)
    requires HeapOk(heap) && BlocksOk(heap, items) && BytesOk(pool, items) && i !in items
    requires Fits(heap, it.offset, it.Span())
    requires |pool'| == |pool| && BytesAt(pool', it.offset, it.Bytes())
    requires forall x :: 0 <= x < |pool| && !(it.offset <= x < it.offset + it.Span()) ==> pool'[x] == pool[x]
    ensures BytesOk(pool', items[i := it])
  {
    hide BytesAt;
    forall j | j in items
      ensures BytesAt(pool', items[j].offset, items[j].Bytes())
    {
      assert Owns(heap, items[j]) && BytesAt(pool, items[j].offset, items[j].Bytes());
      BytesElsewhere(pool, pool', it.offset, it.Span(), items[j].offset, items[j].Bytes());
    }
  }

  lemma ArenaRemove(pool: seq<byte>, heap: Heap, items: Items, i: nat)
    requires ArenaOk(pool, heap, items) && i in items
    ensures Owns(heap, items[i])
    ensures ArenaOk(pool, Deallocate(heap, items[i].offset), items - {i})
  {
    hide BlocksOk, BytesOk;
    BlocksRemove(heap, items, i);
    BytesRemove(pool, items, i);
  }

  lemma BytesRemove(pool: seq<byte>, items: Items, i: nat)
    requires BytesOk(pool, items)
    ensures BytesOk(pool, items - {i})
  {
    hide BytesAt;
  }

  lemma BlocksRemove(heap: Heap, items: Items, i: nat)
    requires BlocksOk(heap, items) && i in items
    ensures Owns(heap, items[i]) && BlocksOk(Deallocate(heap, items[i].offset), items - {i})
  {
    assert Owns(heap, items[i]);
    assert |heap.live - {items[i].offset}| == |heap.live| - 1 by {
      assert (heap.live - {items[i].offset}).Keys == heap.live.Keys - {items[i].offset};
    }
    assert |items - {i}| == |items| - 1 by {
      assert (items - {i}).Keys == items.Keys - {i};
    }
    forall j | j in items && j != i
      ensures Owns(Deallocate(heap, items[i].offset), items[j])
    {
      assert Owns(heap, items[j]);
    }
  }

  lemma ArenaSame(pool: seq<byte>, heap: Heap, items: Items, items': Items)
    requires ArenaOk(pool, heap, items) && items'.Keys == items.Keys
    requires forall i :: i in items ==> items'[i].offset == items[i].offset && items'[i].Bytes() == items[i].Bytes()
                                        && items'[i].Span() == items[i].Span()
    ensures ArenaOk(pool, heap, items')
  {
    assert |items| == |items.Keys| && |items'| == |items'.Keys|;
    forall i | i in items'
      ensures Owns(heap, items'[i]) && BytesAt(pool, items'[i].offset, items'[i].Bytes())
    {
      assert Owns(heap, items[i]) && BytesAt(pool, items[i].offset, items[i].Bytes());
    }
  }

  lemma OffsetsCard(heap: Heap, items: Items) returns (offsets: set<nat>)
    requires forall i :: i in items ==> Owns(heap, items[i])
    requires DistinctOffsets(items)
    ensures |offsets| == |items| && offsets <= heap.live.Keys
    ensures forall o :: o in offsets ==> exists i :: i in items && items[i].offset == o
    decreases |items|
  {
    if items == map[] {
      offsets := {};
    } else {
      var i :| i in items;
      assert (items - {i}).Keys == items.Keys - {i};
      var rest := OffsetsCard(heap, items - {i});
      assert items[i].offset !in rest;
      offsets := rest + {items[i].offset};
      assert |items| == |items.Keys| && |items - {i}| == |(items - {i}).Keys|;
    }
  }

  /** Nothing leaks: every live block is the block of some item. */
  lemma NoLeak(pool: seq<byte>, heap: Heap, items: Items, o: nat)
    requires ArenaOk(pool, heap, items) && o in heap.live
    ensures exists i :: i in items && items[i].offset == o
  {
    hide BytesOk, HeapOk;
    var offsets := OffsetsCard(heap, items);
    if o !in offsets {
      CardSubset(offsets + {o}, heap.live.Keys);
    }
  }

  // --------------------------------------------------------------------- model

  /** The recency sequence is the order, read through the items. */
  ghost predicate RecencyOk(recency: seq<Key>, items: Items, order: seq<nat>) {
    && |recency| == |order|
    && (forall j :: 0 <= j < |order| ==> order[j] in items && recency[j] == items[order[j]].key)
  }

  ghost predicate AllIn(items: Items, order: seq<nat>) {
    forall i :: i in items ==> i in order
  }

  ghost predicate KeyIn(items: Items, k: Key) {
    exists i :: i in items && items[i].key == k
  }

  ghost predicate EntriesOk(entries: map<Key, Entry>, items: Items) {
    && (forall i :: i in items ==> items[i].key in entries && entries[items[i].key] == items[i].entry)
    && (forall k :: k in entries ==> KeyIn(items, k))
  }

  /** The abstract cache spelled out by the items and their order. */
  ghost predicate ModelOk(model: Cache, items: Items, order: seq<nat>) {
    RecencyOk(model.recency, items, order) && AllIn(items, order) && EntriesOk(model.entries, items)
  }

  lemma ModelIsOk(model: Cache, items: Items, order: seq<nat>)
    requires ModelOk(model, items, order) && Distinct(order) && DistinctKeys(items)
    ensures Ok(model)
  {
    forall k | k in model.recency ensures k in model.entries {
      var j :| 0 <= j < |model.recency| && model.recency[j] == k;
      assert order[j] in items;
    }
    forall k | k in model.entries ensures k in model.recency {
      var i :| i in items && items[i].key == k;
      var j :| 0 <= j < |order| && order[j] == i;
      assert model.recency[j] == k;
    }
  }

  lemma GoneFrom(order: seq<nat>, j: nat)
    requires Distinct(order) && j < |order|
    ensures order[j] !in order[..j] + order[j + 1..]
  {
    OrderMembers(order, j);
  }

  lemma OrderMembers(order: seq<nat>, j: nat)
    requires Distinct(order) && j < |order|
    ensures forall i :: i in order[..j] + order[j + 1..] <==> i in order && i != order[j]
  {
    WithoutAt(order, j);
    WithoutKeeps(order, order[j]);
  }

  lemma RecencySplice(recency: seq<Key>, items: Items, order: seq<nat>, j: nat)
    requires RecencyOk(recency, items, order) && Distinct(order) && j < |order|
    ensures RecencyOk(recency[..j] + recency[j + 1..], items - {order[j]}, order[..j] + order[j + 1..])
    ensures RecencyOk(recency[..j] + recency[j + 1..], items, order[..j] + order[j + 1..])
  {
    DropAt(order, j);
    var o, r := order[..j] + order[j + 1..], recency[..j] + recency[j + 1..];
    forall x | 0 <= x < |o|
      ensures o[x] in items && o[x] != order[j] && r[x] == items[o[x]].key
    {
      var y := if x < j then x else x + 1;
      assert o[x] == order[y] && r[x] == recency[y];
    }
  }

  lemma ModelRecency(model: Cache, items: Items, order: seq<nat>, j: nat)
    requires ModelOk(model, items, order) && Distinct(order) && DistinctKeys(items) && j < |order|
    ensures Without(model.recency, items[order[j]].key) == model.recency[..j] + model.recency[j + 1..]
  {
    ModelIsOk(model, items, order);
    WithoutAt(model.recency, j);
  }

  lemma ModelEvict(model: Cache, items: Items, order: seq<nat>, j: nat)
    requires ModelOk(model, items, order) && Distinct(order) && DistinctKeys(items) && j < |order|
    ensures ModelOk(Remove(model, items[order[j]].key), items - {order[j]}, order[..j] + order[j + 1..])
  {
    ModelRecency(model, items, order, j);
    RecencySplice(model.recency, items, order, j);
    OrderMembers(order, j);
    EntriesEvict(model.entries, items, order[j]);
  }

  lemma EntriesEvict(entries: map<Key, Entry>, items: Items, i: nat)
    requires EntriesOk(entries, items) && DistinctKeys(items) && i in items
    ensures EntriesOk(entries - {items[i].key}, items - {i})
  {
    forall k | k in entries && k != items[i].key ensures KeyIn(items - {i}, k) {
      assert KeyIn(items, k);
      var j :| j in items && items[j].key == k;
      assert j in items - {i};
    }
  }

  lemma RecencyCons(recency: seq<Key>, items: Items, order: seq<nat>, i: nat)
    requires RecencyOk(recency, items, order) && i in items
    ensures RecencyOk([items[i].key] + recency, items, [i] + order)
  {
    var r, o := [items[i].key] + recency, [i] + order;
    forall x | 0 <= x < |o| ensures o[x] in items && r[x] == items[o[x]].key {
      assert x > 0 ==> o[x] == order[x - 1] && r[x] == recency[x - 1];
    }
  }

  lemma RecencySame(recency: seq<Key>, items: Items, items': Items, order: seq<nat>)
    requires RecencyOk(recency, items, order)
    requires forall i :: i in items ==> i in items' && items'[i].key == items[i].key
    ensures RecencyOk(recency, items', order)
  {
  }

  /** Writing one item, new or under its old key, writes one entry. */
  lemma EntriesPut(entries: map<Key, Entry>, items: Items, i: nat, it: Item)
    requires EntriesOk(entries, items)
    requires forall j :: j in items && j != i ==> items[j].key != it.key
    requires i in items ==> items[i].key == it.key
    ensures EntriesOk(entries[it.key := it.entry], items[i := it])
  {
    var items' := items[i := it];
    forall k | k in entries || k == it.key ensures KeyIn(items', k) {
      if k == it.key {
        assert items'[i].key == k;
      } else {
        assert KeyIn(items, k);
        var j :| j in items && items[j].key == k;
        assert items'[j].key == k;
      }
    }
  }

  lemma ModelTouch(model: Cache, items: Items, order: seq<nat>, j: nat)
    requires ModelOk(model, items, order) && Distinct(order) && DistinctKeys(items) && j < |order|
    ensures var k := items[order[j]].key;
      ModelOk(Cache(model.entries, [k] + Without(model.recency, k)), items, [order[j]] + (order[..j] + order[j + 1..]))
  {
    ModelRecency(model, items, order, j);
    RecencySplice(model.recency, items, order, j);
    OrderMembers(order, j);
    var rest := order[..j] + order[j + 1..];
    RecencyCons(model.recency[..j] + model.recency[j + 1..], items, rest, order[j]);
    MembersCons(rest, order[j]);
  }

  lemma MembersCons(order: seq<nat>, i: nat)
    ensures forall x :: x in [i] + order <==> x == i || x in order
  {
  }

  lemma ModelUpdate(model: Cache, items: Items, order: seq<nat>, i: nat, e: Entry)
    requires ModelOk(model, items, order) && DistinctKeys(items) && i in items
    ensures ModelOk(Cache(model.entries[items[i].key := e], model.recency), items[i := items[i].(entry := e)], order)
  {
    EntriesPut(model.entries, items, i, items[i].(entry := e));
    RecencySame(model.recency, items, items[i := items[i].(entry := e)], order);
  }

  lemma ModelAdd(model: Cache, items: Items, order: seq<nat>, i: nat, it: Item)
    requires ModelOk(model, items, order) && i !in items
    requires forall j :: j in items ==> items[j].key != it.key
    ensures ModelOk(AddFront(model, it.key, it.entry), items[i := it], [i] + order)
  {
    EntriesPut(model.entries, items, i, it);
    RecencySame(model.recency, items, items[i := it], order);
    RecencyCons(model.recency, items[i := it], order, i);
    MembersCons(order, i);
  }

  // ------------------------------------------------------------ reading entries

  /** Name, response and request stand one after the other in an item's block. */
  lemma ItemBytes(pool: seq<byte>, it: Item)
    requires BytesAt(pool, it.offset, it.Bytes())
    ensures it.offset + it.Span() <= |pool| && it.Span() == |it.key.name| + |it.entry.wire| + |it.entry.request|
    ensures var w := it.offset + |it.key.name|;
      var r := w + |it.entry.wire|;
      && pool[it.offset..w] == it.key.name && pool[w..r] == it.entry.wire
      && pool[r..r + |it.entry.request|] == it.entry.request
  {
    SliceParts(pool, it.offset, it.key.name, it.entry.wire, it.entry.request);
  }

  lemma SliceParts(pool: seq<byte>, at: nat, a: seq<byte>, b: seq<byte>, c: seq<byte>)
    requires BytesAt(pool, at, a + b + c)
    ensures at + |a| + |b| + |c| <= |pool|
    ensures pool[at..at + |a|] == a
    ensures pool[at + |a|..at + |a| + |b|] == b
    ensures pool[at + |a| + |b|..at + |a| + |b| + |c|] == c
  {
    var all := a + b + c;
    assert all[..|a|] == a && all[|a|..|a| + |b|] == b && all[|a| + |b|..] == c;
    SubSlice(pool, at, |all|, 0, |a|);
    SubSlice(pool, at, |all|, |a|, |a| + |b|);
    SubSlice(pool, at, |all|, |a| + |b|, |all|);
  }

  lemma SubSlice(pool: seq<byte>, at: nat, n: nat, lo: nat, hi: nat)
    requires at + n <= |pool| && lo <= hi <= n
    ensures pool[at..at + n][lo..hi] == pool[at + lo..at + hi]
  {
    var a, b := pool[at..at + n][lo..hi], pool[at + lo..at + hi];
    assert forall i :: 0 <= i < hi - lo ==> a[i] == pool[at..at + n][lo + i] == pool[at + (lo + i)] == b[i];
  }

  /** The key of a slab entry, its name read from the arena. */
  function KeyOf(m: Meta, pool: seq<byte>): Key
    requires m.offset + m.nameLen <= |pool|
  {
    Key(pool[m.offset..m.offset + m.nameLen], m.rtype, m.qclass, m.flags)
  }

  lemma KeyOfItem(entries: Slab, pool: seq<byte>, items: Items, i: nat)
    requires Holds(entries, items) && BytesOk(pool, items) && i in items
    ensures entries[i].value.offset + entries[i].value.nameLen <= |pool|
    ensures KeyOf(entries[i].value, pool) == items[i].key
  {
    ItemBytes(pool, items[i]);
  }

  lemma LruSame(entries: Slab, entries': Slab, order: seq<nat>, head: nat, tail: nat)
    requires LruOk(entries, order, head, tail)
    requires forall i :: i in order && i < |entries| && entries[i].Some? ==>
      && i < |entries'| && entries'[i].Some?
      && entries'[i].value.prev == entries[i].value.prev && entries'[i].value.next == entries[i].value.next
    ensures LruOk(entries', order, head, tail)
  {
    forall j | 0 <= j < |order| ensures Linked(entries', order, j) {
      assert Linked(entries, order, j) && order[j] in order;
    }
  }

  // ------------------------------------------------------------------ rehashing

  /** The items at slab indexes below `n`. */
  ghost function Below(items: Items, n: nat): Items {
    map i | i in items && i < n :: items[i]
  }

  lemma BelowSkip(items: Items, n: nat)
    requires n !in items
    ensures Below(items, n + 1) == Below(items, n)
  {
  }

  lemma BelowStep(items: Items, n: nat, it: Item)
    requires n in items
    ensures Below(items[n := it], n + 1) == Below(items, n)[n := it]
    ensures |Below(items[n := it], n + 1)| == |Below(items, n)| + 1
  {
    assert Below(items[n := it], n + 1) == Below(items, n)[n := it];
  }

  lemma BelowSize(items: Items, n: nat)
    ensures |Below(items, n)| <= |items|
  {
    CardSubset(Below(items, n).Keys, items.Keys);
    assert |items| == |items.Keys| && |Below(items, n)| == |Below(items, n).Keys|;
  }

  lemma BelowAll(items: Items, n: nat)
    requires forall i :: i in items ==> i < n
    ensures Below(items, n) == items
  {
  }

  /** The same items, perhaps at other table slots. */
  ghost predicate SameButSlots(items: Items, items': Items) {
    items'.Keys == items.Keys && forall i :: i in items ==> items'[i] == items[i].(slot := items'[i].slot)
  }

  lemma SameSlots(items: Items)
    ensures SameButSlots(items, items)
  {
  }

  ghost predicate SameLinks(entries: Slab, entries': Slab) {
    && |entries'| == |entries|
    && forall i :: 0 <= i < |entries| ==>
         && (entries'[i].Some? <==> entries[i].Some?)
         && (entries[i].Some? ==> entries'[i].value.prev == entries[i].value.prev
                                  && entries'[i].value.next == entries[i].value.next)
  }

  lemma SameLinksTransitive(a: Slab, b: Slab, c: Slab)
    requires SameLinks(a, b) && SameLinks(b, c)
    ensures SameLinks(a, c)
  {
  }

  /** Everything but the index survives a change of table slots. */
  lemma SlotsMoved(entries: Slab, entries': Slab, free: seq<nat>, items: Items, items': Items, pool: seq<byte>,
                   heap: Heap,
                   model: Cache, order: seq<nat>, head: nat, tail: nat)
    requires SlabOk(entries, free, items) && ArenaOk(pool, heap, items) && ModelOk(model, items, order)
    requires LruOk(entries, order, head, tail)
    requires SameButSlots(items, items') && SameLinks(entries, entries') && Holds(entries', items')
    ensures SlabOk(entries', free, items') && ArenaOk(pool, heap, items') && ModelOk(model, items', order)
    ensures LruOk(entries', order, head, tail)
  {
    hide *;
    SlotsMovedSlab(entries, entries', free, items, items');
    SlotsMovedArena(pool, heap, items, items');
    SlotsMovedModel(model, items, items', order);
    SlotsMovedLru(entries, entries', order, head, tail);
  }

  lemma SlotsMovedArena(pool: seq<byte>, heap: Heap, items: Items, items': Items)
    requires ArenaOk(pool, heap, items) && SameButSlots(items, items')
    ensures ArenaOk(pool, heap, items')
  {
    hide ArenaOk;
    forall i | i in items ensures items'[i].Bytes() == items[i].Bytes() && items'[i].Span() == items[i].Span() {
    }
    ArenaSame(pool, heap, items, items');
  }

  lemma SlotsMovedLru(entries: Slab, entries': Slab, order: seq<nat>, head: nat, tail: nat)
    requires LruOk(entries, order, head, tail) && SameLinks(entries, entries')
    ensures LruOk(entries', order, head, tail)
  {
    LruSame(entries, entries', order, head, tail);
  }

  lemma SlotsMovedSlab(entries: Slab, entries': Slab, free: seq<nat>, items: Items, items': Items)
    requires SlabOk(entries, free, items) && SameButSlots(items, items')
    requires SameLinks(entries, entries') && Holds(entries', items')
    ensures SlabOk(entries', free, items')
  {
    assert |items'| == |items'.Keys| && |items| == |items.Keys|;
  }

  lemma SlotsMovedModel(model: Cache, items: Items, items': Items, order: seq<nat>)
    requires ModelOk(model, items, order) && SameButSlots(items, items')
    ensures ModelOk(model, items', order)
  {
    RecencySame(model.recency, items, items', order);
    forall k | k in model.entries ensures KeyIn(items', k) {
      assert KeyIn(items, k);
      var i :| i in items && items[i].key == k;
      assert items'[i].key == k;
    }
  }

  function SetSlot(entries: Slab, i: nat, slot: nat): Slab
    requires i < |entries| && entries[i].Some?
  {
    entries[i := Some(entries[i].value.(tableSlot := slot))]
  }

  /** The capacity rule: a rehash, at the same size or doubled, leaves room for one more entry. */
  function GrownSize(n: nat, tableLen: nat, tombstones: nat): nat {
    if tombstones > tableLen / 2 then n else 2 * n
  }

  lemma RehashFreesRoom(n: nat, tableLen: nat, tombstones: nat, slabLen: nat)
    requires TableSize(n, slabLen) && tableLen <= slabLen && (tableLen + tombstones) * 4 < n * 3
    requires (tableLen + tombstones + 1) * 4 >= n * 3
    ensures var n' := GrownSize(n, tableLen, tombstones);
      TableSize(n', slabLen) && (tableLen + 1) * 4 < n' * 3
  {
    DoublePower(n);
    hide PowerOfTwo;
    if 2 * tombstones <= tableLen {
      GrowthBound(n, tableLen, tombstones);
    }
  }

  lemma DoublePower(n: nat)
    requires PowerOfTwo(n)
    ensures PowerOfTwo(2 * n) && (n > 1 ==> n % 2 == 0)
  {
    assert (2 * n) / 2 == n;
  }

  /** A table three quarters full of mostly live slots is at most twice as long as they are many. */
  lemma GrowthBound(n: nat, tableLen: nat, tombstones: nat)
    requires n % 2 == 0 && (tableLen + tombstones + 1) * 4 >= n * 3 && 2 * tombstones <= tableLen
    ensures n <= 2 * tableLen || n <= 4
  {
    var h := n / 2;
    assert n == 2 * h;
    assert 4 * tombstones <= 2 * tableLen;
    assert 6 * h <= 6 * tableLen + 4;
  }

  /** A rehash in progress: `cur` holds the new slots, and the items below `index` are in the new table. */
  ghost predicate Rehashing(table: seq<KeySlot>, tableLen: nat, entries: Slab, pool: seq<byte>,
                            its: Items, cur: Items, index: nat, hash: Key -> u64)
  {
    && SameButSlots(its, cur) && Holds(entries, cur) && BytesOk(pool, cur)
    && IndexOk(table, Below(cur, index), hash)
    && tableLen == |Below(cur, index)|
    && CountIf(table, IsTomb) == 0 && CountIf(table, IsEmpty) + tableLen == |table|
  }

  lemma RehashStart(table: seq<KeySlot>, entries: Slab, free: seq<nat>, pool: seq<byte>, heap: Heap,
                    its: Items, hash: Key -> u64)
    requires SlabOk(entries, free, its) && ArenaOk(pool, heap, its)
    requires |table| > 0 && forall s :: 0 <= s < |table| ==> table[s].entry == EMPTY
    ensures Rehashing(table, 0, entries, pool, its, its, 0, hash) && SameLinks(entries, entries)
  {
    CountAll(table, IsEmpty);
    CountNone(table, IsTomb);
    assert Below(its, 0) == map[];
  }

  lemma RehashSkip(table: seq<KeySlot>, tableLen: nat, entries: Slab, pool: seq<byte>,
                   its: Items, cur: Items, index: nat, hash: Key -> u64)
    requires Rehashing(table, tableLen, entries, pool, its, cur, index, hash)
    requires index < |entries| && entries[index].None?
    ensures Rehashing(table, tableLen, entries, pool, its, cur, index + 1, hash)
  {
    assert index !in cur;
    hide *;
    BelowSkip(cur, index);
  }

  /** The next entry can be probed for among those already placed, and is not there. */
  lemma RehashProbe(table: seq<KeySlot>, tableLen: nat, entries: Slab, pool: seq<byte>,
                    its: Items, cur: Items, index: nat, hash: Key -> u64)
    requires Rehashing(table, tableLen, entries, pool, its, cur, index, hash)
    requires index in cur && DistinctKeys(cur) && |cur| < |table|
    ensures var below := Below(cur, index);
      IndexOk(table, below, hash) && Holds(entries, below) && BytesOk(pool, below) && CountIf(table, IsEmpty) > 0
    ensures index < |entries| && entries[index].Some?
    ensures entries[index].value.offset + entries[index].value.nameLen <= |pool|
    ensures KeyOf(entries[index].value, pool) == cur[index].key && !KeyIn(Below(cur, index), cur[index].key)
  {
    BelowSize(cur, index);
    KeyOfItem(entries, pool, cur, index);
  }

  lemma RehashPlace(table: seq<KeySlot>, tableLen: nat, entries: Slab, pool: seq<byte>,
                    its: Items, cur: Items, index: nat, slot: nat, hash: Key -> u64)
    requires Rehashing(table, tableLen, entries, pool, its, cur, index, hash)
    requires index in cur && index < TOMBSTONE && !KeyIn(Below(cur, index), cur[index].key)
    requires (|cur| + 1) * 4 < |table| * 3
    requires slot < |table| && TOMBSTONE <= table[slot].entry <= EMPTY
    requires Reaches(table, Home(hash(cur[index].key), |table|), slot)
    ensures index < |entries| && entries[index].Some?
    ensures Rehashing(table[slot := KeySlot(hash(cur[index].key), index)], tableLen + 1, SetSlot(entries, index, slot),
                      pool, its, cur[index := cur[index].(slot := slot)], index + 1, hash)
    ensures SameLinks(entries, SetSlot(entries, index, slot)) && |SetSlot(entries, index, slot)| == |entries|
  {
    hide SameButSlots, Holds, BytesOk, SameLinks, IndexOk, SetSlot, Below, Reaches;
    var it, below := cur[index].(slot := slot), Below(cur, index);
    BelowSize(cur, index);
    RehashCounts(table, tableLen, slot, KeySlot(hash(it.key), index));
    RehashMove(entries, pool, its, cur, index, slot);
    assert index < |entries| && entries[index].Some?;
    IndexInsert(table, below, hash, index, it) by {
      BelowKeys(cur, index);
    }
    BelowStep(cur, index, it);
  }

  lemma BelowKeys(items: Items, n: nat)
    ensures n !in Below(items, n)
  {
  }

  lemma RehashCounts(table: seq<KeySlot>, tableLen: nat, slot: nat, ks: KeySlot)
    requires CountIf(table, IsTomb) == 0 && CountIf(table, IsEmpty) + tableLen == |table|
    requires slot < |table| && table[slot].entry >= TOMBSTONE && ks.entry < TOMBSTONE
    requires table[slot].entry <= EMPTY
    ensures var t' := table[slot := ks];
      CountIf(t', IsTomb) == 0 && CountIf(t', IsEmpty) + tableLen + 1 == |t'|
  {
    if IsTomb(table[slot]) {
      CountPositive(table, IsTomb, slot);
    } else {
      CountUpdate(table, IsTomb, slot, ks);
      CountUpdate(table, IsEmpty, slot, ks);
    }
  }

  lemma RehashMove(entries: Slab, pool: seq<byte>, its: Items, cur: Items, index: nat, slot: nat)
    requires SameButSlots(its, cur) && Holds(entries, cur) && BytesOk(pool, cur) && index in cur
    ensures index < |entries| && entries[index].Some?
    ensures var cur' := cur[index := cur[index].(slot := slot)];
      SameButSlots(its, cur') && BytesOk(pool, cur') && Holds(SetSlot(entries, index, slot), cur')
    ensures SameLinks(entries, SetSlot(entries, index, slot)) && |SetSlot(entries, index, slot)| == |entries|
  {
    MovedHolds(entries, cur, index, slot);
    hide Holds, SameLinks;
    MovedBytes(pool, cur, index, slot);
    hide BytesOk;
  }

  lemma MovedHolds(entries: Slab, cur: Items, index: nat, slot: nat)
    requires Holds(entries, cur) && index in cur
    ensures index < |entries| && entries[index].Some?
    ensures Holds(SetSlot(entries, index, slot), cur[index := cur[index].(slot := slot)])
    ensures SameLinks(entries, SetSlot(entries, index, slot))
  {
  }

  lemma MovedBytes(pool: seq<byte>, cur: Items, index: nat, slot: nat)
    requires BytesOk(pool, cur) && index in cur
    ensures BytesOk(pool, cur[index := cur[index].(slot := slot)])
  {
    hide BytesAt;
    assert cur[index].(slot := slot).Bytes() == cur[index].Bytes();
  }

  lemma RehashFacts(entries0: Slab, free: seq<nat>, table: seq<KeySlot>, tableLen: nat, entries: Slab, pool: seq<byte>,
                    its: Items, cur: Items, index: nat, hash: Key -> u64)
    requires SlabOk(entries0, free, its) && DistinctKeys(its) && SameLinks(entries0, entries)
    requires Rehashing(table, tableLen, entries, pool, its, cur, index, hash)
    ensures DistinctKeys(cur) && |cur| == |its|
    ensures forall i :: 0 <= i < |entries| ==> (entries[i].Some? <==> i in cur)
    ensures forall i :: i in cur ==> i < |entries|
  {
    assert |cur| == |cur.Keys| && |its| == |its.Keys|;
  }

  lemma RehashFinish(table: seq<KeySlot>, tableLen: nat, entries: Slab, pool: seq<byte>,
                     its: Items, cur: Items, hash: Key -> u64)
    requires Rehashing(table, tableLen, entries, pool, its, cur, |entries|, hash)
    requires (|cur| + 1) * 4 < |table| * 3
    ensures IndexOk(table, cur, hash) && tableLen == |cur| && CountsOk(table, tableLen, 0)
    ensures SameButSlots(its, cur) && Holds(entries, cur)
  {
    BelowAll(cur, |entries|);
  }

  // ---------------------------------------------------- slab allocation and release

  lemma SlabPop(entries: Slab, free: seq<nat>, items: Items, m: Meta, it: Item)
    requires SlabOk(entries, free, items) && free != [] && Describes(m, it)
    ensures var i := free[|free| - 1];
      && i < |entries| && i !in items
      && SlabOk(entries[i := Some(m)], free[..|free| - 1], items[i := it])
  {
    var i := free[|free| - 1];
    assert i !in items;
    assert |items[i := it]| == |items| + 1;
  }

  lemma SlabPush(entries: Slab, items: Items, m: Meta, it: Item)
    requires SlabOk(entries, [], items) && Describes(m, it)
    ensures |entries| !in items && SlabOk(entries + [Some(m)], [], items[|entries| := it])
  {
    assert |items[|entries| := it]| == |items| + 1;
  }

  lemma SlabRelease(entries: Slab, free: seq<nat>, items: Items, i: nat)
    requires SlabOk(entries, free, items) && i in items
    ensures i < |entries| && SlabOk(entries[i := None], free + [i], items - {i})
  {
    assert (items - {i}).Keys == items.Keys - {i};
    assert |items - {i}| == |(items - {i}).Keys| && |items| == |items.Keys|;
    var f := free + [i];
    assert forall j :: 0 <= j < |f| ==> f[j] == if j < |free| then free[j] else i;
  }

  /** Links of listed entries are untouched by writes to unlisted ones. */
  lemma LruElsewhere(entries: Slab, entries': Slab, order: seq<nat>, head: nat, tail: nat, i: nat)
    requires LruOk(entries, order, head, tail) && i !in order
    requires |entries'| >= |entries|
    requires forall x :: 0 <= x < |entries| && x != i ==> entries'[x] == entries[x]
    ensures LruOk(entries', order, head, tail)
  {
    LruSame(entries, entries', order, head, tail);
  }

  lemma PositionOf(items: Items, order: seq<nat>, model: Cache, i: nat) returns (j: nat)
    requires ModelOk(model, items, order) && i in items
    ensures j < |order| && order[j] == i
  {
    j :| 0 <= j < |order| && order[j] == i;
  }

  lemma SlabEntry(entries: Slab, free: seq<nat>, items: Items, i: nat)
    requires SlabOk(entries, free, items) && i in items
    ensures i < |entries| && entries[i].Some? && Describes(entries[i].value, items[i]) && |items| > 0
    ensures var m := entries[i].value;
      && m.tableSlot == items[i].slot && m.offset == items[i].offset
      && m.nameLen + m.wireLen + m.requestLen == items[i].Span()
  {
  }

  lemma SlabSlot(entries: Slab, free: seq<nat>, items: Items, i: nat)
    requires SlabOk(entries, free, items)
    ensures i in items <==> i < |entries| && entries[i].Some?
    ensures i in items ==> entries[i].value.staleUntil == items[i].entry.StaleUntil()
    ensures forall j :: j in items ==> j < |entries|
  {
  }

  // ------------------------------------------------- rewriting one entry's bookkeeping

  /** `m'` is `m` with new bookkeeping for entry `e`; links, slot and block are kept. */
  ghost predicate Restamps(m: Meta, m': Meta, it: Item, e: Entry) {
    && m'.prev == m.prev && m'.next == m.next
    && Describes(m', it.(entry := e))
    && e.wire == it.entry.wire && e.request == it.entry.request
  }

  lemma RestampSlab(entries: Slab, free: seq<nat>, items: Items, i: nat, m: Meta, e: Entry)
    requires SlabOk(entries, free, items) && i in items && i < |entries| && entries[i].Some?
    requires Restamps(entries[i].value, m, items[i], e)
    ensures SlabOk(entries[i := Some(m)], free, items[i := items[i].(entry := e)])
  {
    var items' := items[i := items[i].(entry := e)];
    assert items'.Keys == items.Keys && |items'| == |items'.Keys| && |items| == |items.Keys|;
  }

  lemma RestampLru(entries: Slab, order: seq<nat>, head: nat, tail: nat, i: nat, m: Meta)
    requires LruOk(entries, order, head, tail) && i < |entries| && entries[i].Some?
    requires m.prev == entries[i].value.prev && m.next == entries[i].value.next
    ensures LruOk(entries[i := Some(m)], order, head, tail)
  {
    LruSame(entries, entries[i := Some(m)], order, head, tail);
  }

  lemma UpdatedSize(items: Items, i: nat, it: Item)
    requires i in items
    ensures |items[i := it]| == |items|
  {
    assert items[i := it].Keys == items.Keys && |items[i := it]| == |items[i := it].Keys| && |items| == |items.Keys|;
  }

  lemma RestampRest(table: seq<KeySlot>, pool: seq<byte>, heap: Heap, items: Items, order: seq<nat>, model: Cache,
                    hash: Key -> u64, i: nat, e: Entry)
    requires IndexOk(table, items, hash) && ArenaOk(pool, heap, items) && ModelOk(model, items, order)
    requires i in items && e.wire == items[i].entry.wire && e.request == items[i].entry.request
    ensures var items' := items[i := items[i].(entry := e)];
      && IndexOk(table, items', hash) && ArenaOk(pool, heap, items') && |items'| == |items|
      && ModelOk(Cache(model.entries[items[i].key := e], model.recency), items', order)
  {
    hide *;
    UpdatedSize(items, i, items[i].(entry := e));
    RestampIndex(table, items, hash, i, e);
    RestampArena(pool, heap, items, i, e);
    IndexDistinct(table, items, hash);
    ModelUpdate(model, items, order, i, e);
  }

  lemma RestampIndex(table: seq<KeySlot>, items: Items, hash: Key -> u64, i: nat, e: Entry)
    requires IndexOk(table, items, hash) && i in items
    ensures IndexOk(table, items[i := items[i].(entry := e)], hash)
  {
    hide IndexOk;
    IndexSame(table, items, items[i := items[i].(entry := e)], hash);
  }

  lemma RestampArena(pool: seq<byte>, heap: Heap, items: Items, i: nat, e: Entry)
    requires ArenaOk(pool, heap, items) && i in items
    requires e.wire == items[i].entry.wire && e.request == items[i].entry.request
    ensures ArenaOk(pool, heap, items[i := items[i].(entry := e)])
  {
    hide ArenaOk;
    var items' := items[i := items[i].(entry := e)];
    assert items'[i].Bytes() == items[i].Bytes();
    ArenaSame(pool, heap, items, items');
  }

  lemma LruEntry(entries: Slab, order: seq<nat>, head: nat, tail: nat, j: nat)
    requires LruOk(entries, order, head, tail) && j < |order|
    ensures Linked(entries, order, j) && order[j] < NONE
  {
  }

  lemma RestampParts(m: Meta, m': Meta, it: Item, e: Entry)
    requires Restamps(m, m', it, e)
    ensures m'.prev == m.prev && m'.next == m.next && e.wire == it.entry.wire && e.request == it.entry.request
  {
  }

  lemma Locatable(table: seq<KeySlot>, tableLen: nat, tombstones: nat, entries: Slab, free: seq<nat>, pool: seq<byte>,
                  heap: Heap, items: Items)
    requires SlabOk(entries, free, items) && ArenaOk(pool, heap, items) && CountsOk(table, tableLen, tombstones)
    ensures Holds(entries, items) && BytesOk(pool, items) && CountIf(table, IsEmpty) > 0
  {
  }

  lemma KeyInModel(model: Cache, items: Items, order: seq<nat>, k: Key)
    requires ModelOk(model, items, order)
    ensures KeyIn(items, k) <==> k in model.entries
  {
  }

  lemma EntryInModel(model: Cache, items: Items, order: seq<nat>, i: nat)
    requires ModelOk(model, items, order) && i in items
    ensures items[i].key in model.entries && model.entries[items[i].key] == items[i].entry
  {
  }

  lemma ItemReadable(pool: seq<byte>, heap: Heap, items: Items, i: nat)
    requires ArenaOk(pool, heap, items) && i in items
    ensures var it := items[i];
      var w := it.offset + |it.key.name|;
      var r := w + |it.entry.wire|;
      && r + |it.entry.request| <= |pool|
      && pool[w..r] == it.entry.wire && pool[r..r + |it.entry.request|] == it.entry.request
  {
    hide *;
    ItemStored(pool, heap, items, i);
    ItemBytes(pool, items[i]);
  }

  lemma ItemStored(pool: seq<byte>, heap: Heap, items: Items, i: nat)
    requires ArenaOk(pool, heap, items) && i in items
    ensures BytesAt(pool, items[i].offset, items[i].Bytes())
  {
  }

  // ------------------------------------------------------------------ prefetch scan

  /** The LRU walk at position `j` reads the key, entry and stored hash of recency position `j`. */
  lemma ScanReads(table: seq<KeySlot>, entries: Slab, free: seq<nat>, items: Items, order: seq<nat>, head: nat,
                  tail: nat,
                  model: Cache, hash: Key -> u64, j: nat)
    requires SlabOk(entries, free, items) && IndexOk(table, items, hash) && LruOk(entries, order, head, tail)
    requires ModelOk(model, items, order) && j < |order|
    ensures order[j] in items && order[j] < NONE
    ensures var it := items[order[j]];
      && it.slot < |table| && table[it.slot].hash == hash(it.key)
      && j < |model.recency| && model.recency[j] == it.key && it.key in model.entries
         && model.entries[it.key] == it.entry
    ensures order[j] < |entries| && entries[order[j]].Some?
    ensures entries[order[j]].value.next == if j + 1 < |order| then order[j + 1] else NONE
  {
    assert Linked(entries, order, j);
    assert Indexed(table, order[j], items[order[j]], hash);
  }

  lemma ModelSizes(model: Cache, items: Items, order: seq<nat>)
    requires ModelOk(model, items, order)
    ensures |model.recency| == |order|
    ensures forall j :: 0 <= j < |model.recency| ==> model.recency[j] in model.entries
  {
  }

  lemma HeadOf(entries: Slab, order: seq<nat>, head: nat, tail: nat)
    requires LruOk(entries, order, head, tail)
    ensures head == if |order| > 0 then order[0] else NONE
    ensures tail == if |order| > 0 then order[|order| - 1] else NONE
    ensures |order| > 0 ==> order[0] < NONE && order[|order| - 1] < NONE
  {
    assert |order| > 0 ==> Linked(entries, order, 0) && Linked(entries, order, |order| - 1);
  }

  // ------------------------------------------------------------------ storing an entry

  lemma SlabSetSlot(entries: Slab, free: seq<nat>, items: Items, i: nat, slot: nat)
    requires SlabOk(entries, free, items) && i in items
    ensures i < |entries| && entries[i].Some?
    ensures SlabOk(SetSlot(entries, i, slot), free, items[i := items[i].(slot := slot)])
  {
    hide Holds;
    UpdatedSize(items, i, items[i].(slot := slot));
    HoldsSetSlot(entries, items, i, slot);
  }

  lemma HoldsSetSlot(entries: Slab, items: Items, i: nat, slot: nat)
    requires Holds(entries, items) && i in items
    ensures i < |entries| && entries[i].Some?
    ensures Holds(SetSlot(entries, i, slot), items[i := items[i].(slot := slot)])
  {
  }

  /** Old items stay readable while a fresh block is written and a fresh slab entry filled. */
  lemma StillReadable(entries: Slab, free: seq<nat>, items: Items, pool: seq<byte>, heap: Heap, i: nat, it: Item)
    requires SlabOk(entries, free, items[i := it]) && ArenaOk(pool, heap, items[i := it]) && i !in items
    ensures Holds(entries, items) && BytesOk(pool, items)
  {
    var items' := items[i := it];
    forall j | j in items
      ensures j < |entries| && entries[j].Some? && Describes(entries[j].value, items[j])
      ensures BytesAt(pool, items[j].offset, items[j].Bytes())
    {
      assert j in items' && items'[j] == items[j];
    }
  }

  /** A slab grown to hold one more entry is still no longer than the pool. */
  lemma StoreSizes(poolSize: nat, slabLen: nat, peak: nat, tableSize: nat, heap: Heap, live: nat)
    requires SizesOk(poolSize, slabLen, peak, tableSize)
    requires HeapOk(heap) && heap.size == poolSize && |heap.live| == live + 1
    ensures SizesOk(poolSize, Max(slabLen, live + 1), Max(peak, live + 1), tableSize)
    ensures slabLen < U32_LIMIT && Max(slabLen, live + 1) < TOMBSTONE < NONE && tableSize <= U32_LIMIT
  {
    BlockCount(heap);
  }

  // ------------------------------------------------------------------- making room

  /** The heap after freeing the blocks of the `n` least recent items. */
  ghost function FreeOldest(heap: Heap, items: Items, order: seq<nat>, n: nat): Heap
    requires n <= |order| && forall j :: 0 <= j < |order| ==> order[j] in items
  {
    if n == 0 then heap
    else Deallocate(FreeOldest(heap, items, order, n - 1), items[order[|order| - n]].offset)
  }

  /** Allocation fails until `n` items are freed; it then succeeds exactly when `fits`. */
  ghost predicate FirstFit(heap: Heap, items: Items, order: seq<nat>, policy: Policy, size: nat, n: nat, fits: bool)
    requires n <= |order| && RoomOk(Room(heap, items, order))
  {
    && (forall d :: 0 <= d < n ==> Allocate(FreeOldest(heap, items, order, d), policy, size).None?)
    && Allocate(FreeOldest(heap, items, order, n), policy, size).Some? == fits
    && (!fits ==> n == |order|)
  }

  /** Nothing is dropped for space while the allocator has a free place for the request. */
  lemma FitsAtOnce(heap: Heap, items: Items, order: seq<nat>, policy: Policy, size: nat, n: nat, fits: bool, at: nat)
    requires n <= |order| && RoomOk(Room(heap, items, order)) && FirstFit(heap, items, order, policy, size, n, fits)
    requires policy(heap.ops, size) == Some(at) && at + size < heap.size
      && forall o :: o in heap.live ==> at + size < o || o + heap.live[o] < at
    ensures n == 0 && fits
  {
    assert FreeOldest(heap, items, order, 0) == heap;
  }

  lemma {:induction false} FreeOldestSame(heap: Heap, items: Items, items': Items, order: seq<nat>, n: nat)
    requires n <= |order| && (forall j :: 0 <= j < |order| ==> order[j] in items) && SameButSlots(items, items')
    ensures FreeOldest(heap, items', order, n) == FreeOldest(heap, items, order, n)
  {
    if n > 0 {
      FreeOldestSame(heap, items, items', order, n - 1);
    }
  }

  lemma FirstFitSame(heap: Heap, items: Items, items': Items, order: seq<nat>, policy: Policy, size: nat, n: nat,
                     fits: bool)
    requires n <= |order| && RoomOk(Room(heap, items, order)) && RoomOk(Room(heap, items', order))
      && SameButSlots(items, items')
    requires FirstFit(heap, items', order, policy, size, n, fits)
    ensures FirstFit(heap, items, order, policy, size, n, fits)
  {
    forall d | 0 <= d <= n ensures FreeOldest(heap, items', order, d) == FreeOldest(heap, items, order, d) {
      FreeOldestSame(heap, items, items', order, d);
    }
  }

  lemma OrderIn(model: Cache, items: Items, order: seq<nat>)
    requires ModelOk(model, items, order)
    ensures forall j :: 0 <= j < |order| ==> order[j] in items
    ensures |model.recency| == |order|
  {
  }

  /** The last position of an order, and the order without it. */
  lemma LastPosition(entries: Slab, order: seq<nat>, head: nat, tail: nat, model: Cache, items: Items)
    requires LruOk(entries, order, head, tail) && ModelOk(model, items, order)
    ensures tail == NONE <==> order == []
    ensures order != [] ==>
      var n := |order| - 1;
      && tail == order[n] && tail in items && Without(order, tail) == order[..n]
      && |model.recency| == n + 1 && items[tail].key == model.recency[n]
  {
    if order != [] {
      var n := |order| - 1;
      assert Linked(entries, order, n);
      WithoutAt(order, n);
      assert order[..n] + order[n + 1..] == order[..n];
    }
  }

  lemma SlabCount(entries: Slab, free: seq<nat>, items: Items)
    requires SlabOk(entries, free, items)
    ensures |items| + |free| == |entries| && forall i :: i in items ==> i < |entries|
  {
  }

  lemma SpanOf(it: Item)
    ensures it.Span() == |it.key.name| + |it.entry.wire| + |it.entry.request| == |it.Bytes()|
    ensures it.Bytes() == it.key.name + it.entry.wire + it.entry.request
  {
  }

  lemma AllocatedBlock(heap: Heap, policy: Policy, size: nat, at: nat, heap': Heap, pool: seq<byte>, items: Items)
    requires ArenaOk(pool, heap, items) && Allocate(heap, policy, size) == Some((at, heap'))
    ensures at + size <= |pool| && HeapOk(heap') && heap'.size == |pool| && |heap'.live| == |items| + 1
  {
  }

  /** Filling the vacant slot a probe returned. */
  lemma PlaceSlot(table: seq<KeySlot>, tableLen: nat, tombstones: nat, items: Items, hash: Key -> u64, index: nat,
                  it: Item)
    requires IndexOk(table, items, hash) && tableLen == |items| && CountsOk(table, tableLen, tombstones)
    requires (tableLen + tombstones + 1) * 4 < |table| * 3
    requires index !in items && index < TOMBSTONE && !KeyIn(items, it.key)
    requires it.slot < |table| && TOMBSTONE <= table[it.slot].entry <= EMPTY
    requires Reaches(table, Home(hash(it.key), |table|), it.slot)
    ensures table[it.slot].entry == TOMBSTONE ==> tombstones > 0
    ensures var t' := table[it.slot := KeySlot(hash(it.key), index)];
      && IndexOk(t', items[index := it], hash) && tableLen + 1 == |items[index := it]|
      && CountsOk(t', tableLen + 1, if table[it.slot].entry == TOMBSTONE then tombstones - 1 else tombstones)
  {
    assert forall j :: j in items ==> items[j].key != it.key;
    hide IndexOk, CountsOk, Reaches, KeyIn;
    IndexInsert(table, items, hash, index, it);
    CountsInsert(table, tableLen, tombstones, it.slot, KeySlot(hash(it.key), index));
  }

  lemma MoveItem(pool: seq<byte>, heap: Heap, entries: Slab, free: seq<nat>, items: Items, index: nat, it: Item,
                 slot: nat)
    requires SlabOk(entries, free, items[index := it]) && ArenaOk(pool, heap, items[index := it])
    ensures index < |entries| && entries[index].Some? && |SetSlot(entries, index, slot)| == |entries|
    ensures SetSlot(entries, index, slot)[index].Some?
    ensures forall x :: 0 <= x < |entries| && x != index ==> SetSlot(entries, index, slot)[x] == entries[x]
    ensures SlabOk(SetSlot(entries, index, slot), free, items[index := it.(slot := slot)])
    ensures ArenaOk(pool, heap, items[index := it.(slot := slot)])
  {
    hide SlabOk, ArenaOk, SameButSlots;
    var a, b := items[index := it], items[index := it.(slot := slot)];
    assert a[index := a[index].(slot := slot)] == b;
    SlotChanged(items, index, it, slot);
    SlabSetSlot(entries, free, a, index, slot);
    SlotsMovedArena(pool, heap, a, b);
  }

  lemma SlotChanged(items: Items, index: nat, it: Item, slot: nat)
    ensures SameButSlots(items[index := it], items[index := it.(slot := slot)])
  {
  }

  lemma CountsRoom(table: seq<KeySlot>, tableLen: nat, tombstones: nat)
    requires CountsOk(table, tableLen, tombstones)
    ensures CountIf(table, IsEmpty) > 0
  {
  }

  lemma AddModel(model: Cache, items: Items, order: seq<nat>, i: nat, it: Item)
    requires ModelOk(model, items, order) && i !in items && !KeyIn(items, it.key)
    ensures ModelOk(AddFront(model, it.key, it.entry), items[i := it], [i] + order)
  {
    assert forall j :: j in items ==> items[j].key != it.key;
    hide *;
    ModelAdd(model, items, order, i, it);
  }

  /** What eviction for space starts from. */
  datatype Room = Room(heap: Heap, items: Items, order: seq<nat>)

  ghost predicate RoomOk(room: Room) {
    forall j :: 0 <= j < |room.order| ==> room.order[j] in room.items
  }

  /** `room` is the given state without the item under key `k`, if there is one. */
  ghost predicate WithoutKey(heap: Heap, items: Items, order: seq<nat>, k: Key, room: Room) {
    && (forall i :: i in items && items[i].key == k ==>
          room == Room(Deallocate(heap, items[i].offset), items - {i}, Without(order, i)))
    && (!KeyIn(items, k) ==> room == Room(heap, items, order))
  }

  lemma WithoutKeyFound(heap: Heap, items: Items, order: seq<nat>, k: Key, i: nat)
    requires DistinctKeys(items) && i in items && items[i].key == k
    ensures WithoutKey(heap, items, order, k, Room(Deallocate(heap, items[i].offset), items - {i}, Without(order, i)))
  {
  }

  lemma WithoutKeyAbsent(heap: Heap, items: Items, order: seq<nat>, k: Key)
    requires !KeyIn(items, k)
    ensures WithoutKey(heap, items, order, k, Room(heap, items, order))
  {
  }

  /** Eviction for space in progress: `n` items are gone, and every allocation so far failed. */
  ghost predicate Making(room: Room, c: Cache, policy: Policy, size: nat, heap: Heap, items: Items, order: seq<nat>,
                         model: Cache, n: nat)
  {
    && RoomOk(room) && Ok(c) && |c.recency| == |room.order|
    && n <= |room.order| && model == DropOldest(c, n)
    && order == room.order[..|room.order| - n]
    && (forall i :: i in order ==> i in items && items[i] == room.items[i])
    && heap == FreeOldest(room.heap, room.items, room.order, n)
    && (forall d :: 0 <= d < n ==> Allocate(FreeOldest(room.heap, room.items, room.order, d), policy, size).None?)
  }

  lemma MakingStart(heap: Heap, items: Items, order: seq<nat>, model: Cache, policy: Policy, size: nat)
    requires ModelOk(model, items, order) && Distinct(order) && DistinctKeys(items)
    ensures RoomOk(Room(heap, items, order))
    ensures Making(Room(heap, items, order), model, policy, size, heap, items, order, model, 0)
  {
    ModelIsOk(model, items, order);
    DropNothing(model);
    assert order[..|order|] == order;
  }

  lemma MakingStep(room: Room, c: Cache, policy: Policy, size: nat, heap: Heap, items: Items, order: seq<nat>,
                   model: Cache, n: nat)
    requires Making(room, c, policy, size, heap, items, order, model, n)
    requires Distinct(order) && order != [] && Allocate(heap, policy, size).None?
    ensures var last := |order| - 1;
      && order[last] in items && |model.recency| == last + 1
      && Making(room, c, policy, size, Deallocate(heap, items[order[last]].offset), items - {order[last]},
                order[..last],
                Remove(model, model.recency[last]), n + 1)
  {
    hide Allocate, DropOldest, Remove, Ok, Distinct, RoomOk;
    var last := |order| - 1;
    DropOneMore(c, n);
    LastGone(order);
    assert order[last] == room.order[|room.order| - n - 1];
    assert order[..last] == room.order[..|room.order| - (n + 1)];
  }

  lemma LastGone(order: seq<nat>)
    requires Distinct(order) && order != []
    ensures var last := |order| - 1;
      order[last] in order && forall i :: i in order[..last] ==> i in order && i != order[last]
  {
  }

  lemma MakingDone(room: Room, c: Cache, policy: Policy, size: nat, heap: Heap, items: Items, order: seq<nat>,
                   model: Cache, n: nat)
    requires Making(room, c, policy, size, heap, items, order, model, n)
    requires Allocate(heap, policy, size).None? ==> order == []
    ensures n <= |room.order| == |c.recency| && model == DropOldest(c, n) && RoomOk(room)
    ensures FirstFit(room.heap, room.items, room.order, policy, size, n, Allocate(heap, policy, size).Some?)
    ensures Allocate(heap, policy, size).None? ==> n == |room.order|
  {
  }

  lemma EmptyParts(table: seq<KeySlot>, hash: Key -> u64)
    requires |table| == MIN_TABLE && forall s :: 0 <= s < |table| ==> table[s].entry == EMPTY
    ensures SlabOk([], [], map[]) && IndexOk(table, map[], hash) && CountsOk(table, 0, 0) && TableSize(|table|, 0)
    ensures LruOk([], [], NONE, NONE) && ModelOk(EMPTY_CACHE, map[], [])
  {
    EmptyIndex(table, hash);
    hide IndexOk, CountsOk, TableSize;
  }

  lemma EmptyIndex(table: seq<KeySlot>, hash: Key -> u64)
    requires |table| == MIN_TABLE && forall s :: 0 <= s < |table| ==> table[s].entry == EMPTY
    ensures IndexOk(table, map[], hash) && CountsOk(table, 0, 0) && TableSize(|table|, 0)
  {
    EmptyCounts(table);
    hide CountsOk, CountIf;
    assert PowerOfTwo(8) && PowerOfTwo(16) && PowerOfTwo(32);
  }

  lemma EmptyCounts(table: seq<KeySlot>)
    requires |table| == MIN_TABLE && forall s :: 0 <= s < |table| ==> table[s].entry == EMPTY
    ensures CountsOk(table, 0, 0)
  {
    CountAll(table, IsEmpty);
    CountNone(table, IsTomb);
    hide CountIf;
  }

  /** A table slot turned into a tombstone. */
  lemma BurySlot(table: seq<KeySlot>, tableLen: nat, tombstones: nat, items: Items, hash: Key -> u64, i: nat)
    requires IndexOk(table, items, hash) && tableLen == |items| && CountsOk(table, tableLen, tombstones) && i in items
    ensures items[i].slot < |table| && tableLen > 0
    ensures var t' := table[items[i].slot := table[items[i].slot].(entry := TOMBSTONE)];
      IndexOk(t', items - {i}, hash) && tableLen - 1 == |items - {i}| && CountsOk(t', tableLen - 1, tombstones + 1)
  {
    hide IndexOk, CountsOk;
    assert (items - {i}).Keys == items.Keys - {i};
    assert |items - {i}| == |(items - {i}).Keys| && |items| == |items.Keys|;
    IndexEvict(table, items, hash, i);
    CountsEvict(table, tableLen, tombstones, items[i].slot);
  }

  lemma FreeItem(pool: seq<byte>, heap: Heap, items: Items, i: nat)
    requires ArenaOk(pool, heap, items) && i in items
    ensures items[i].offset in heap.live && heap.live[items[i].offset] == items[i].Span()
    ensures ArenaOk(pool, Deallocate(heap, items[i].offset), items - {i})
  {
    ArenaRemove(pool, heap, items, i);
  }

  /** What an eviction does to order, arena and model, given where the entry stands. */
  lemma EvictRest(pool: seq<byte>, heap: Heap, items: Items, order: seq<nat>, model: Cache, i: nat) returns (j: nat)
    requires ArenaOk(pool, heap, items) && ModelOk(model, items, order) && i in items
    requires Distinct(order) && DistinctKeys(items)
    ensures j < |order| && order[j] == i && order[..j] + order[j + 1..] == Without(order, i)
    ensures items[i].offset in heap.live && heap.live[items[i].offset] == items[i].Span()
    ensures ArenaOk(pool, Deallocate(heap, items[i].offset), items - {i})
    ensures ModelOk(Remove(model, items[i].key), items - {i}, Without(order, i))
  {
    hide *;
    j := PositionOf(items, order, model, i);
    WithoutAt(order, j);
    OrderMembers(order, j);
    ModelEvict(model, items, order, j);
    FreeItem(pool, heap, items, i);
  }
}
