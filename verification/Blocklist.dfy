/**
 The blocklist index: an open-addressed set of names whose octets live in one arena, built by
 insertion only and merged wholesale. A ghost map says in which slot each member stands.
 */
module Blocklist {
  import opened Basics
  import opened Probing

  /** Offset and length of a name in the arena; length 0 marks an unused slot. */
  datatype Slot = Slot(at: nat, len: nat)

  type Name = seq<byte>
  type Places = map<Name, nat>

  predicate IsVacant(s: Slot) { s.len == 0 }

  function NameAt(arena: seq<byte>, s: Slot): Name
    requires s.at + s.len <= |arena|
  {
    arena[s.at..s.at + s.len]
  }

  ghost predicate Reaches(slots: seq<Slot>, home: nat, slot: nat)
    requires home < |slots| && slot < |slots|
  {
    forall x :: 0 <= x < |slots| && Dist(home, x, |slots|) < Dist(home, slot, |slots|) ==> slots[x].len != 0
  }

  ghost predicate Stands(slots: seq<Slot>, arena: seq<byte>, hash: Name -> nat, n: Name, s: nat) {
    && s < |slots| && slots[s].len == |n| > 0 && slots[s].at + slots[s].len <= |arena|
    && NameAt(arena, slots[s]) == n
    && Reaches(slots, Home(hash(n), |slots|), s)
  }

  /** Slot `s` is unused or holds a member that stands there. */
  ghost predicate SlotOk(slots: seq<Slot>, arena: seq<byte>, places: Places, s: nat)
    requires s < |slots|
  {
    slots[s].len != 0 ==>
      slots[s].at + slots[s].len <= |arena| && NameAt(arena, slots[s]) in places && places[NameAt(arena, slots[s])] == s
  }

  ghost predicate TableOk(slots: seq<Slot>, arena: seq<byte>, hash: Name -> nat, places: Places) {
    && |slots| > 0
    && (forall n :: n in places ==> Stands(slots, arena, hash, n, places[n]))
    && (forall s :: 0 <= s < |slots| ==> SlotOk(slots, arena, places, s))
    && CountIf(slots, IsVacant) + |places| == |slots|
  }

  lemma ProbeStep(slots: seq<Slot>, home: nat, slot: nat, stop: nat)
    requires home < |slots| && slot < |slots| && stop < |slots| && slots[stop].len == 0 && slots[slot].len != 0
    requires Dist(home, slot, |slots|) <= Dist(home, stop, |slots|) && Reaches(slots, home, slot)
    ensures Dist(home, Next(slot, |slots|), |slots|) == Dist(home, slot, |slots|) + 1 <= Dist(home, stop, |slots|)
    ensures Reaches(slots, home, Next(slot, |slots|))
  {
    var n := |slots|;
    if Dist(home, slot, n) == Dist(home, stop, n) {
      DistInjective(home, slot, stop, n);
    }
    NextDist(home, slot, stop, n);
    forall x | 0 <= x < n && Dist(home, x, n) < Dist(home, slot, n) + 1 ensures slots[x].len != 0 {
      if Dist(home, x, n) == Dist(home, slot, n) {
        DistInjective(home, x, slot, n);
      }
    }
  }

  lemma InBounds(slots: seq<Slot>, arena: seq<byte>, hash: Name -> nat, places: Places)
    requires TableOk(slots, arena, hash, places)
    ensures forall s :: 0 <= s < |slots| && slots[s].len != 0 ==> slots[s].at + slots[s].len <= |arena|
  {
    forall s | 0 <= s < |slots| && slots[s].len != 0 ensures slots[s].at + slots[s].len <= |arena| {
      assert SlotOk(slots, arena, places, s);
    }
  }

  lemma NotHere(slots: seq<Slot>, arena: seq<byte>, hash: Name -> nat, places: Places, n: Name, i: nat)
    requires TableOk(slots, arena, hash, places) && n in places && i < |slots|
    requires slots[i].len != 0 ==> slots[i].at + slots[i].len <= |arena| && NameAt(arena, slots[i]) != n
    ensures Dist(Home(hash(n), |slots|), i, |slots|) != Dist(Home(hash(n), |slots|), places[n], |slots|)
  {
    assert Stands(slots, arena, hash, n, places[n]);
    var home := Home(hash(n), |slots|);
    if Dist(home, i, |slots|) == Dist(home, places[n], |slots|) {
      DistInjective(home, i, places[n], |slots|);
    }
  }

  /** A member stands before the first vacant slot of its probe. */
  lemma FoundBefore(slots: seq<Slot>, arena: seq<byte>, hash: Name -> nat, places: Places, n: Name, slot: nat)
    requires TableOk(slots, arena, hash, places) && n in places && slot < |slots| && slots[slot].len == 0
    ensures Dist(Home(hash(n), |slots|), places[n], |slots|) < Dist(Home(hash(n), |slots|), slot, |slots|)
  {
    assert Stands(slots, arena, hash, n, places[n]);
    var home := Home(hash(n), |slots|);
    if Dist(home, slot, |slots|) == Dist(home, places[n], |slots|) {
      DistInjective(home, slot, places[n], |slots|);
    }
  }

  /** Filling the first vacant slot of a probe with a new name. */
  lemma FillSlot(slots: seq<Slot>, arena: seq<byte>, hash: Name -> nat, places: Places, s: nat, entry: Slot, n: Name)
    requires TableOk(slots, arena, hash, places) && n !in places && n != []
    requires s < |slots| && slots[s].len == 0 && Reaches(slots, Home(hash(n), |slots|), s)
    requires entry.len == |n| && entry.at + entry.len <= |arena| && NameAt(arena, entry) == n
    ensures TableOk(slots[s := entry], arena, hash, places[n := s])
  {
    var slots', places' := slots[s := entry], places[n := s];
    CountUpdate(slots, IsVacant, s, entry);
    forall q | q in places' ensures Stands(slots', arena, hash, q, places'[q]) {
      if q != n {
        assert Stands(slots, arena, hash, q, places[q]);
      }
    }
    forall x | 0 <= x < |slots'| ensures SlotOk(slots', arena, places', x) {
      assert SlotOk(slots, arena, places, x);
    }
  }

  lemma AppendArena(slots: seq<Slot>, arena: seq<byte>, hash: Name -> nat, places: Places, extra: seq<byte>)
    requires TableOk(slots, arena, hash, places)
    ensures TableOk(slots, arena + extra, hash, places)
  {
    InBounds(slots, arena, hash, places);
    assert forall s :: 0 <= s < |slots| && slots[s].len != 0 ==>
      NameAt(arena + extra, slots[s]) == NameAt(arena, slots[s]);
    forall n | n in places ensures Stands(slots, arena + extra, hash, n, places[n]) {
      assert Stands(slots, arena, hash, n, places[n]);
    }
    forall x | 0 <= x < |slots| ensures SlotOk(slots, arena + extra, places, x) {
      assert SlotOk(slots, arena, places, x);
    }
  }

  /** Octets of all names of a set. */
  ghost function Octets(names: set<Name>): nat {
    if names == {} then 0
    else
      var n :| n in names;
      |n| + Octets(names - {n})
  }

  lemma {:induction false} OctetsWithout(names: set<Name>, n: Name)
    requires n in names
    ensures Octets(names) == |n| + Octets(names - {n})
    decreases |names|
  {
    var x :| x in names && Octets(names) == |x| + Octets(names - {x});
    if x != n {
      OctetsWithout(names - {x}, n);
      OctetsWithout(names - {n}, x);
      assert names - {x} - {n} == names - {n} - {x};
    }
  }

  lemma OctetsAdd(names: set<Name>, n: Name)
    requires n !in names
    ensures Octets(names + {n}) == Octets(names) + |n|
  {
    OctetsWithout(names + {n}, n);
    assert names + {n} - {n} == names;
  }

  lemma {:induction false} OctetsSubset(a: set<Name>, b: set<Name>)
    requires a <= b
    ensures Octets(a) <= Octets(b)
    decreases |b|
  {
    if n :| n in b {
      OctetsWithout(b, n);
      if n in a {
        OctetsWithout(a, n);
        OctetsSubset(a - {n}, b - {n});
      } else {
        OctetsSubset(a, b - {n});
      }
    }
  }

  lemma OctetsMember(names: set<Name>, n: Name)
    requires n in names
    ensures |n| <= Octets(names)
  {
    OctetsWithout(names, n);
  }

  // ------------------------------------------------------------------------ growth

  /** Members standing in slots below `i`, with their slots in the new table. */
  ghost predicate Regrown(slots: seq<Slot>, arena: seq<byte>, hash: Name -> nat, places: Places, i: nat, cur: Places) {
    TableOk(slots, arena, hash, cur) && forall n :: n in cur <==> n in places && places[n] < i
  }

  lemma RegrowSkip(old': seq<Slot>, slots: seq<Slot>, arena: seq<byte>, hash: Name -> nat, places: Places, i: nat,
                   cur: Places)
    requires TableOk(old', arena, hash, places) && i < |old'| && old'[i].len == 0
    requires Regrown(slots, arena, hash, places, i, cur)
    ensures Regrown(slots, arena, hash, places, i + 1, cur)
  {
    forall n | n in places ensures places[n] != i {
      assert Stands(old', arena, hash, n, places[n]);
    }
  }

  /** The name in old slot `i` is a member, not yet in the new table, which has room for it. */
  lemma RegrowNext(old': seq<Slot>, slots: seq<Slot>, arena: seq<byte>, hash: Name -> nat, places: Places, i: nat,
                   cur: Places)
    requires TableOk(old', arena, hash, places) && i < |old'| && old'[i].len != 0
    requires Regrown(slots, arena, hash, places, i, cur) && |places| < |slots|
    ensures old'[i].at + old'[i].len <= |arena| && |NameAt(arena, old'[i])| == old'[i].len
    ensures NameAt(arena, old'[i]) in places && NameAt(arena, old'[i]) !in cur && CountIf(slots, IsVacant) > 0
  {
    assert SlotOk(old', arena, places, i);
    MapSubset(cur, places);
  }

  lemma MapSubset(a: Places, b: Places)
    requires a.Keys <= b.Keys
    ensures |a| <= |b|
  {
    CardSubset(a.Keys, b.Keys);
    assert |a| == |a.Keys| && |b| == |b.Keys|;
  }

  lemma RegrowPlace(old': seq<Slot>, slots: seq<Slot>, arena: seq<byte>, hash: Name -> nat, places: Places, i: nat,
                    cur: Places,
                    s: nat)
    requires TableOk(old', arena, hash, places) && i < |old'| && old'[i].len != 0
    requires old'[i].at + old'[i].len <= |arena| && |NameAt(arena, old'[i])| == old'[i].len
    requires Regrown(slots, arena, hash, places, i, cur) && NameAt(arena, old'[i]) !in cur
    requires s < |slots| && slots[s].len == 0 && Reaches(slots, Home(hash(NameAt(arena, old'[i])), |slots|), s)
    ensures Regrown(slots[s := old'[i]], arena, hash, places, i + 1, cur[NameAt(arena, old'[i]) := s])
  {
    var n := NameAt(arena, old'[i]);
    FillSlot(slots, arena, hash, cur, s, old'[i], n);
    assert SlotOk(old', arena, places, i);
    forall q | q in places && places[q] == i ensures q == n {
      assert Stands(old', arena, hash, q, places[q]);
    }
  }

  lemma RegrowDone(old': seq<Slot>, slots: seq<Slot>, arena: seq<byte>, hash: Name -> nat, places: Places, cur: Places)
    requires TableOk(old', arena, hash, places) && Regrown(slots, arena, hash, places, |old'|, cur)
    ensures cur.Keys == places.Keys && |cur| == |places|
  {
    forall n | n in places ensures n in cur {
      assert Stands(old', arena, hash, n, places[n]);
    }
    assert |cur| == |cur.Keys| && |places| == |places.Keys|;
  }

  lemma FreshTable(slots: seq<Slot>, arena: seq<byte>, hash: Name -> nat, places: Places)
    requires |slots| > 0 && forall s :: 0 <= s < |slots| ==> slots[s].len == 0
    ensures TableOk(slots, arena, hash, map[]) && Regrown(slots, arena, hash, places, 0, map[])
  {
    CountAll(slots, IsVacant);
  }

  /** The 32-bit offset of a name appended to the arena reads the name back while the arena is below 2^32 octets. */
  lemma OffsetReadsBack(arena: seq<byte>, n: Name)
    requires |arena| < U32_LIMIT
    ensures NameAt(arena + n, Slot(AsU32(|arena|), |n|)) == n
  {
    assert (arena + n)[|arena|..|arena| + |n|] == n;
  }

  /** A name appended to the arena is read back through its 32-bit offset. */
  ghost predicate ReadsBack(arena: seq<byte>, n: Name) {
    NameAt(arena + n, Slot(AsU32(|arena|), |n|)) == n
  }

  /** Every name an arena can be given is read back exactly while the arena is below 2^32 octets. */
  lemma OffsetsExact(arena: seq<byte>)
    ensures (forall n :: ReadsBack(arena, n)) <==> |arena| < U32_LIMIT
  {
    if |arena| < U32_LIMIT {
      forall n ensures ReadsBack(arena, n) {
        OffsetReadsBack(arena, n);
      }
    } else {
      var at := AsU32(|arena|);
      var n: Name := [if arena[at] == 97 then 98 else 97];
      assert (arena + n)[at..at + 1][0] == arena[at];
      assert !ReadsBack(arena, n);
    }
  }

  class DomainIndex {
    const hash: Name -> nat
    var arena: seq<byte>
    var slots: seq<Slot>
    var len: nat
    ghost var places: Places

    ghost predicate Valid()
      reads this
    {
      && TableOk(slots, arena, hash, places) && |arena| == Octets(places.Keys)
      && len == |places| && len * 4 < |slots| * 3 && PowerOfTwo(|slots|)
    }

    /** The set of names this index stands for. */
    ghost function Contents(): set<Name>
      reads this
    {
      places.Keys
    }

    constructor WithCapacity(expected: nat, hash: Name -> nat)
      ensures Valid() && Contents() == {} && this.hash == hash && arena == []
    {
      var n := Max(NextPowerOfTwo(expected * 2), 16);
      this.hash := hash;
      arena := [];
      slots := seq(n, _ => Slot(0, 0));
      len := 0;
      places := map[];
      new;
      CountAll(slots, IsVacant);
      assert PowerOfTwo(8) && PowerOfTwo(4);
    }

    /** `find`: the slot of a member, and None exactly for non-members. */
    method Find(n: Name) returns (r: Option<nat>)
      requires Valid()
      ensures r.Some? <==> n in Contents()
      ensures r.Some? ==> r.value == places[n]
    {
      hide Octets, CountIf;
      if n == [] {
        assert forall q :: q in places ==> Stands(slots, arena, hash, q, places[q]);
        return None;
      }
      var home := Home(hash(n), |slots|);
      ghost var stop := CountWitness(slots, IsVacant);
      InBounds(slots, arena, hash, places);
      var i: nat := home;
      while true
        invariant i < |slots| && Dist(home, i, |slots|) <= Dist(home, stop, |slots|)
        invariant Reaches(slots, home, i)
        invariant n in places ==> Dist(home, i, |slots|) <= Dist(home, places[n], |slots|)
        decreases Dist(home, stop, |slots|) - Dist(home, i, |slots|)
      {
        if slots[i].len == 0 {
          if n in places {
            FoundBefore(slots, arena, hash, places, n, i);
          }
          return None;
        }
        assert SlotOk(slots, arena, places, i);
        if NameAt(arena, slots[i]) == n {
          return Some(i);
        }
        if n in places {
          NotHere(slots, arena, hash, places, n, i);
        }
        ProbeStep(slots, home, i, stop);
        i := Next(i, |slots|);
      }
    }

    /** First vacant slot of the probe for `n` in a table that has one. */
    static method FirstVacant(slots: seq<Slot>, h: nat) returns (i: nat)
      requires |slots| > 0 && CountIf(slots, IsVacant) > 0
      ensures i < |slots| && slots[i].len == 0 && Reaches(slots, Home(h, |slots|), i)
    {
      var home := Home(h, |slots|);
      ghost var stop := CountWitness(slots, IsVacant);
      i := home;
      while slots[i].len != 0
        invariant i < |slots| && Dist(home, i, |slots|) <= Dist(home, stop, |slots|) && Reaches(slots, home, i)
        decreases Dist(home, stop, |slots|) - Dist(home, i, |slots|)
      {
        ProbeStep(slots, home, i, stop);
        i := Next(i, |slots|);
      }
    }

    /** `grow`: twice the slots, the same members. */
    method Grow()
      requires Valid()
      modifies this`slots, this`places
      ensures Valid() && Contents() == old(Contents()) && |slots| == 2 * old(|slots|)
    {
      hide TableOk, Regrown, SlotOk, Stands, Reaches, Octets;
      ghost var places0 := places;
      var before := slots;
      slots, places := seq(2 * |before|, _ => Slot(0, 0)), map[];
      FreshTable(slots, arena, hash, places0);
      assert before[..0] == [];
      for i := 0 to |before|
        invariant |slots| == 2 * |before| && arena == old(arena) && Regrown(slots, arena, hash, places0, i, places)
      {
        if before[i].len == 0 {
          RegrowSkip(before, slots, arena, hash, places0, i, places);
        } else {
          RegrowNext(before, slots, arena, hash, places0, i, places);
          var n := NameAt(arena, before[i]);
          var s := FirstVacant(slots, hash(n));
          RegrowPlace(before, slots, arena, hash, places0, i, places, s);
          slots, places := slots[s := before[i]], places[n := s];
        }
      }
      RegrowDone(before, slots, arena, hash, places0, places);
      RegrownTable(slots, arena, hash, places0, |before|, places);
      assert before[..|before|] == before;
      assert PowerOfTwo(|slots|) by { assert |slots| / 2 == |before|; }
    }

    /** `insert_normalized`: adds one name to the set; the empty name is ignored. */
    method InsertNormalized(n: Name)
      requires Valid() && |arena| < U32_LIMIT && |n| < U32_LIMIT
      modifies this
      ensures Valid() && Contents() == old(Contents()) + (if n == [] then {} else {n})
      ensures len == |Contents()| && |arena| <= old(|arena|) + |n|
    {
      hide TableOk;
      assert len == |Contents()|;
      if n == [] { return; }
      var found := Find(n);
      if found.Some? {
        assert Contents() + {n} == Contents();
        return;
      }
      if (len + 1) * 4 >= |slots| * 3 {
        Grow();
      }
      AddName(n);
    }

    method AddName(n: Name)
      requires Valid() && |arena| < U32_LIMIT && |n| < U32_LIMIT && n != [] && n !in Contents()
      requires (len + 1) * 4 < |slots| * 3
      modifies this
      ensures Valid() && Contents() == old(Contents()) + {n}
      ensures len == |Contents()| && |arena| == old(|arena|) + |n|
    {
      hide TableOk, Reaches, NameAt, CountIf, Octets;
      var entry := Slot(AsU32(|arena|), AsU32(|n|));
      VacancyLeft(slots, arena, hash, places);
      AppendArena(slots, arena, hash, places, n);
      OffsetReadsBack(arena, n);
      arena := arena + n;
      var i := FirstVacant(slots, hash(n));
      FillSlot(slots, arena, hash, places, i, entry, n);
      OctetsAdd(places.Keys, n);
      assert places[n := i].Keys == places.Keys + {n};
      slots, places := slots[i := entry], places[n := i];
      len := len + 1;
    }

    /** `names`: every member exactly once. */
    method Names() returns (r: seq<Name>)
      requires Valid()
      ensures |r| == len && Listing(r, Contents())
    {
      hide TableOk, SlotOk, Stands, NameAt, Octets;
      r := [];
      ListStart(slots, arena, hash, places);
      for i := 0 to |slots|
        invariant Listed(r, slots, places, i)
      {
        ListStep(r, slots, arena, hash, places, i);
        if slots[i].len != 0 {
          r := r + [NameAt(arena, slots[i])];
        }
      }
      ListDone(r, slots, arena, hash, places);
    }

    /** Inserts every name that `exclude` does not contain, all of them among names that fit. */
    method InsertAll(names: seq<Name>, exclude: DomainIndex?, ghost target: set<Name>)
      requires exclude != null ==> exclude != this && exclude.Valid()
      requires Valid() && Contents() <= target && Kept(names, ExcludedBy(exclude)) <= target
        && Octets(target) < U32_LIMIT
      modifies this
      ensures Valid() && Contents() == old(Contents()) + Kept(names, ExcludedBy(exclude))
    {
      hide *;
      ghost var out := ExcludedBy(exclude);
      KeptStart(names, out);
      for i := 0 to |names|
        invariant Valid() && Contents() == old(Contents()) + Kept(names[..i], out)
        invariant exclude != null ==> exclude.Valid()
        invariant ExcludedBy(exclude) == out
      {
        KeptStep(names, out, i);
        InsertKept(names[i], exclude, target);
      }
    }

    /** Inserts one name unless `exclude` contains it. */
    method InsertKept(n: Name, exclude: DomainIndex?, ghost target: set<Name>)
      requires exclude != null ==> exclude != this && exclude.Valid()
      requires Valid() && Contents() <= target && Octets(target) < U32_LIMIT
      requires n == [] || n in ExcludedBy(exclude) || n in target
      modifies this
      ensures Valid()
      ensures Contents() == old(Contents()) + if n == [] || n in ExcludedBy(exclude) then {} else {n}
      ensures exclude != null ==> exclude.Valid()
      ensures ExcludedBy(exclude) == old(ExcludedBy(exclude))
    {
      hide Valid, Octets;
      if exclude != null {
        var found := exclude.Find(n);
        if found.Some? { return; }
      }
      RoomFor(this, n, target);
      InsertNormalized(n);
    }
  }

  /** An index whose members, and the next name, are among names that fit has room for the next name. */
  lemma RoomFor(index: DomainIndex, n: Name, names: set<Name>)
    requires index.Valid() && index.Contents() <= names && (n == [] || n in names) && Octets(names) < U32_LIMIT
    ensures |index.arena| < U32_LIMIT && |n| < U32_LIMIT
  {
    OctetsSubset(index.Contents(), names);
    if n != [] {
      OctetsMember(names, n);
    }
  }

  /** Members of any of the sources. */
  ghost function UnionOf(sources: seq<DomainIndex>): set<Name>
    reads sources
  {
    if sources == [] then {} else UnionOf(sources[..|sources| - 1]) + sources[|sources| - 1].Contents()
  }

  /** Inline names and a union of sources, without the excluded ones; the empty name is never a member. */
  ghost function MergeOf(inline: seq<Name>, union: set<Name>, excluded: set<Name>): set<Name> {
    (set n | n in inline && n != []) + union - excluded
  }

  ghost function ExcludedBy(exclude: DomainIndex?): set<Name>
    reads exclude
  {
    if exclude == null then {} else exclude.Contents()
  }

  /** `merged_with_capacity`: (inline names and all sources) minus the excluded set, as a new index. */
  method MergedWithCapacity(expected: nat, inline: seq<Name>, sources: seq<DomainIndex>, exclude: DomainIndex?,
                            hash: Name -> nat)
    returns (out: DomainIndex)
    requires forall s :: s in sources ==> s.Valid()
    requires exclude != null ==> exclude.Valid()
    requires Octets(MergeOf(inline, UnionOf(sources), ExcludedBy(exclude))) < U32_LIMIT
    ensures fresh(out) && out.Valid() && out.Contents() == MergeOf(inline, UnionOf(sources), ExcludedBy(exclude))
  {
    hide *;
    ghost var excluded := ExcludedBy(exclude);
    ghost var target := MergeOf(inline, UnionOf(sources), excluded);
    out := new DomainIndex.WithCapacity(expected, hash);
    MergeStart(inline, sources, excluded);
    out.InsertAll(inline, exclude, target);
    for i := 0 to |sources|
      invariant fresh(out) && out.Valid() && out.Contents() == MergeOf(inline, UnionOf(sources[..i]), excluded)
    {
      MergeStep(inline, sources, i, excluded);
      MergeSource(out, sources[i], exclude, MergeOf(inline, UnionOf(sources[..i]), excluded),
        MergeOf(inline, UnionOf(sources[..i + 1]), excluded), target);
    }
  }

  /** Adds the members of one source that are not excluded, going from `done` to `next`. */
  method MergeSource(out: DomainIndex, source: DomainIndex, exclude: DomainIndex?, ghost done: set<Name>,
                     ghost next: set<Name>, ghost target: set<Name>)
    requires out.Valid() && source.Valid() && source != out
    requires exclude != null ==> exclude.Valid() && exclude != out
    requires out.Contents() == done && next == done + (source.Contents() - ExcludedBy(exclude))
    requires next <= target && Octets(target) < U32_LIMIT
    modifies out
    ensures out.Valid() && out.Contents() == next
  {
    hide *;
    var names := source.Names();
    ListingKept(names, source, ExcludedBy(exclude));
    out.InsertAll(names, exclude, target);
  }

  lemma MergeStart(inline: seq<Name>, sources: seq<DomainIndex>, excluded: set<Name>)
    ensures sources[..|sources|] == sources
      && MergeOf(inline, UnionOf(sources[..0]), excluded) == Kept(inline, excluded)
    ensures Kept(inline, excluded) <= MergeOf(inline, UnionOf(sources), excluded)
  {
  }

  lemma ListingKept(names: seq<Name>, source: DomainIndex, out: set<Name>)
    requires source.Valid() && Listing(names, source.Contents())
    ensures Kept(names, out) == source.Contents() - out
  {
    NoEmptyMember(source);
  }

  lemma MergeStep(inline: seq<Name>, sources: seq<DomainIndex>, i: nat, excluded: set<Name>)
    requires i < |sources|
    ensures MergeOf(inline, UnionOf(sources[..i + 1]), excluded)
         == MergeOf(inline, UnionOf(sources[..i]), excluded) + (sources[i].Contents() - excluded)
    ensures MergeOf(inline, UnionOf(sources[..i + 1]), excluded) <= MergeOf(inline, UnionOf(sources), excluded)
  {
    var next := sources[..i + 1];
    assert next[..|next| - 1] == sources[..i] && next[|next| - 1] == sources[i];
    UnionPrefix(sources, i + 1);
  }

  lemma {:induction false} UnionPrefix(sources: seq<DomainIndex>, i: nat)
    requires i <= |sources|
    ensures UnionOf(sources[..i]) <= UnionOf(sources)
    decreases |sources|
  {
    if i < |sources| {
      var front := sources[..|sources| - 1];
      UnionPrefix(front, i);
      assert front[..i] == sources[..i];
    } else {
      assert sources[..i] == sources;
    }
  }

  lemma NoEmptyMember(index: DomainIndex)
    requires index.Valid()
    ensures [] !in index.Contents()
  {
    forall n | n in index.places ensures n != [] {
      assert Stands(index.slots, index.arena, index.hash, n, index.places[n]);
    }
  }

  /** `r` lists the members of `s`, each once. */
  ghost predicate Listing(r: seq<Name>, s: set<Name>) {
    && (forall i, j :: 0 <= i < j < |r| ==> r[i] != r[j])
    && (forall n :: n in r <==> n in s)
  }

  /** The non-empty names of a list that are not excluded. */
  ghost function Kept(names: seq<Name>, out: set<Name>): set<Name> {
    set n | n in names && n != [] && n !in out
  }

  lemma KeptStart(names: seq<Name>, out: set<Name>)
    ensures Kept(names[..0], out) == {}
    ensures names[..|names|] == names
  {
  }

  lemma KeptStep(names: seq<Name>, out: set<Name>, i: nat)
    requires i < |names|
    ensures Kept(names[..i], out) <= Kept(names, out)
      && (names[i] == [] || names[i] in out || names[i] in Kept(names, out))
    ensures Kept(names[..i + 1], out)
         == Kept(names[..i], out) + if names[i] == [] || names[i] in out then {} else {names[i]}
  {
    assert names[..i + 1] == names[..i] + [names[i]];
  }

  /** The listing so far: the members standing in slots below `i`. */
  ghost predicate Listed(r: seq<Name>, slots: seq<Slot>, places: Places, i: nat)
    requires i <= |slots|
  {
    && (forall x, y :: 0 <= x < y < |r| ==> r[x] != r[y])
    && (forall n :: n in r <==> n in places && places[n] < i)
  }

  lemma ListStart(slots: seq<Slot>, arena: seq<byte>, hash: Name -> nat, places: Places)
    ensures Listed([], slots, places, 0)
  {
  }

  lemma ListStep(r: seq<Name>, slots: seq<Slot>, arena: seq<byte>, hash: Name -> nat, places: Places, i: nat)
    requires TableOk(slots, arena, hash, places) && i < |slots| && Listed(r, slots, places, i)
    ensures slots[i].len != 0 ==> slots[i].at + slots[i].len <= |arena|
    ensures Listed(if slots[i].len == 0 then r else r + [NameAt(arena, slots[i])], slots, places, i + 1)
  {
    hide TableOk, SlotOk, Stands, NameAt, Octets;
    MemberAt(slots, arena, hash, places, i);
    if slots[i].len != 0 {
      assert forall q :: q in r + [NameAt(arena, slots[i])] <==> q in r || q == NameAt(arena, slots[i]);
    }
  }

  /** The member standing in a slot is the name stored there. */
  lemma MemberAt(slots: seq<Slot>, arena: seq<byte>, hash: Name -> nat, places: Places, i: nat)
    requires TableOk(slots, arena, hash, places) && i < |slots|
    ensures slots[i].len == 0 ==> forall n :: n in places ==> places[n] != i
    ensures slots[i].len != 0 ==>
      && slots[i].at + slots[i].len <= |arena| && |NameAt(arena, slots[i])| == slots[i].len
      && NameAt(arena, slots[i]) in places
      && forall n :: n in places ==> (places[n] == i <==> n == NameAt(arena, slots[i]))
  {
    assert SlotOk(slots, arena, places, i);
    forall n | n in places && places[n] == i ensures slots[i].len != 0 && n == NameAt(arena, slots[i]) {
      assert Stands(slots, arena, hash, n, places[n]);
    }
  }

  lemma ListDone(r: seq<Name>, slots: seq<Slot>, arena: seq<byte>, hash: Name -> nat, places: Places)
    requires TableOk(slots, arena, hash, places) && Listed(r, slots, places, |slots|)
    ensures Listing(r, places.Keys) && |r| == |places|
  {
    forall n | n in places ensures n in r {
      assert Stands(slots, arena, hash, n, places[n]);
    }
    ListingSize(r, places.Keys);
    assert |places| == |places.Keys|;
  }

  lemma {:induction false} ListingSize(r: seq<Name>, s: set<Name>)
    requires Listing(r, s)
    ensures |r| == |s|
    decreases |r|
  {
    if r == [] {
      assert s == {};
    } else {
      var last := r[|r| - 1];
      assert last in r;
      var front := r[..|r| - 1];
      assert r == front + [last];
      assert forall n :: n in r <==> n in front || n == last;
      ListingSize(front, s - {last});
    }
  }

  lemma VacancyLeft(slots: seq<Slot>, arena: seq<byte>, hash: Name -> nat, places: Places)
    requires TableOk(slots, arena, hash, places) && |places| < |slots|
    ensures |slots| > 0 && CountIf(slots, IsVacant) > 0
  {
  }

  lemma RegrownTable(slots: seq<Slot>, arena: seq<byte>, hash: Name -> nat, places: Places, i: nat, cur: Places)
    requires Regrown(slots, arena, hash, places, i, cur)
    ensures TableOk(slots, arena, hash, cur)
  {
  }
}
