/**
 The foreign allocator behind the arena, by contract only. A policy may answer any request from
 the whole history of operations; an answer counts as a success when it is in bounds and apart from
 every live block, and anything else is a failure that changes nothing.
 */
module ArenaHeap {
  import opened Basics
  import opened Probing

  datatype HeapOp = Allocated(at: nat, size: nat) | Freed(at: nat)

  type Policy = (seq<HeapOp>, nat) -> Option<nat>

  datatype Heap = Heap(size: nat, live: map<nat, nat>, ops: seq<HeapOp>)

  /** Octets a block takes; even an empty one has an address of its own. */
  function Extent(n: nat): nat { Max(n, 1) }

  predicate Apart(a: nat, n: nat, b: nat, m: nat) {
    a + Extent(n) <= b || b + Extent(m) <= a
  }

  predicate Fits(h: Heap, at: nat, n: nat) {
    at + Extent(n) <= h.size && forall o :: o in h.live ==> Apart(at, n, o, h.live[o])
  }

  /** Live blocks lie in the arena and do not overlap. */
  ghost predicate HeapOk(h: Heap) {
    && (forall o :: o in h.live ==> o + Extent(h.live[o]) <= h.size)
    && (forall o, p :: o in h.live && p in h.live && o != p ==> Apart(o, h.live[o], p, h.live[p]))
  }

  function Allocate(h: Heap, policy: Policy, n: nat): (r: Option<(nat, Heap)>)
    ensures r.Some? ==> Fits(h, r.value.0, n) && r.value.0 !in h.live
    ensures r.Some? ==> r.value.1.size == h.size && r.value.1.live == h.live[r.value.0 := n]
    ensures r.Some? && HeapOk(h) ==> HeapOk(r.value.1)
  {
    var at := policy(h.ops, n);
    if at.Some? && Fits(h, at.value, n)
    then Some((at.value, Heap(h.size, h.live[at.value := n], h.ops + [Allocated(at.value, n)])))
    else None
  }

  function Deallocate(h: Heap, at: nat): (r: Heap)
    ensures HeapOk(h) ==> HeapOk(r)
  {
    Heap(h.size, h.live - {at}, h.ops + [Freed(at)])
  }

  /** No more blocks than octets. */
  lemma BlockCount(h: Heap)
    requires HeapOk(h)
    ensures |h.live| <= h.size
  {
    BoundedSet(h.live.Keys, h.size);
    assert |h.live| == |h.live.Keys|;
  }
}
