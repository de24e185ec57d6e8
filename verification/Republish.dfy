/**
 The republish protocol of the blocklist manager. Sources are refreshed one by one while a rebuild,
 holding the rebuild lock, takes one snapshot per source and then swaps in the merged set. A source
 is the list of everything ever fetched for it; a snapshot is a position in that list.
 */
module Republish {
  import opened Basics
  import opened Blocklist

  /** (block inline and block sources) minus (allow inline and allow sources). */
  ghost function MergedSet(blockInline: set<Name>, block: set<Name>, allowInline: set<Name>,
                           allow: set<Name>): set<Name> {
    blockInline + block - (allowInline + allow)
  }

  ghost function NonEmpty(names: seq<Name>): set<Name> {
    set n | n in names && n != []
  }

  /** `republish_merged`: the set that gets published for given snapshots. */
  method RepublishMerged(blockInline: seq<Name>, block: seq<DomainIndex>, allowInline: seq<Name>,
                         allow: seq<DomainIndex>,
                         expected: nat, hash: Name -> nat) returns (merged: DomainIndex, whitelisted: nat)
    requires forall s :: s in block + allow ==> s.Valid()
    requires Octets(MergedSet(NonEmpty(blockInline), UnionOf(block), NonEmpty(allowInline), UnionOf(allow))) < U32_LIMIT
    requires Octets(NonEmpty(allowInline) + UnionOf(allow)) < U32_LIMIT
    ensures fresh(merged) && merged.Valid()
    ensures merged.Contents() == MergedSet(NonEmpty(blockInline), UnionOf(block), NonEmpty(allowInline), UnionOf(allow))
    ensures whitelisted == |NonEmpty(allowInline) + UnionOf(allow)|
  {
    hide Octets, MergeOf, MergedSet, NonEmpty, UnionOf, DomainIndex.Valid;
    MembersOfBoth(block, allow);
    MergedIs(blockInline, allowInline, UnionOf(block), UnionOf(allow));
    var allowed := MergedWithCapacity(|allowInline|, allowInline, allow, null, hash);
    merged := MergedWithCapacity(expected, blockInline, block, allowed, hash);
    whitelisted := allowed.len;
    LenIs(allowed);
  }

  lemma MembersOfBoth(a: seq<DomainIndex>, b: seq<DomainIndex>)
    ensures forall s :: s in a || s in b ==> s in a + b
  {
  }

  lemma MergedIs(blockInline: seq<Name>, allowInline: seq<Name>, block: set<Name>, allow: set<Name>)
    ensures MergeOf(allowInline, allow, {}) == NonEmpty(allowInline) + allow
    ensures MergeOf(blockInline, block, MergeOf(allowInline, allow, {}))
         == MergedSet(NonEmpty(blockInline), block, NonEmpty(allowInline), allow)
  {
  }

  lemma LenIs(index: DomainIndex)
    requires index.Valid()
    ensures index.len == |index.Contents()|
  {
    assert |index.places| == |index.places.Keys|;
  }

  // --------------------------------------------------------------------- protocol

  /** Everything ever fetched for a source, oldest first; the first element is the initial empty list. */
  type Fetched = seq<set<Name>>

  /** For each source, the position of the snapshot taken. */
  type Vector = seq<nat>

  datatype Rebuild = Rebuild(blockStart: Vector, allowStart: Vector, block: Vector, allow: Vector)

  datatype Publication = Publication(block: Vector, allow: Vector, names: set<Name>)

  datatype Manager = Manager(
    blockInline: set<Name>, allowInline: set<Name>, block: seq<Fetched>, allow: seq<Fetched>,
    rebuild: Option<Rebuild>, published: seq<Publication>)

  datatype Action =
    | StoreBlock(i: nat, names: set<Name>)
    | StoreAllow(i: nat, names: set<Name>)
    | Acquire
    | SnapshotBlock
    | SnapshotAllow
    | Publish
    | Abandon

  ghost predicate WellFormed(m: Manager) {
    && (forall i :: 0 <= i < |m.block| ==> m.block[i] != [])
    && (forall i :: 0 <= i < |m.allow| ==> m.allow[i] != [])
  }

  function Latest(sources: seq<Fetched>): (v: Vector)
    requires forall i :: 0 <= i < |sources| ==> sources[i] != []
    ensures |v| == |sources| && forall i :: 0 <= i < |v| ==> v[i] == |sources[i]| - 1
  {
    seq(|sources|, i requires 0 <= i < |sources| => |sources[i]| - 1)
  }

  /** Every position names a fetch that has happened. */
  ghost predicate Known(v: Vector, sources: seq<Fetched>) {
    |v| <= |sources| && forall i :: 0 <= i < |v| ==> v[i] < |sources[i]|
  }

  /** `a` is at least as recent as `b` in every source `a` covers. */
  ghost predicate NotOlder(a: Vector, b: Vector) {
    |a| <= |b| && forall i :: 0 <= i < |a| ==> b[i] <= a[i]
  }

  /** Names in the snapshots at the positions of `v`. */
  ghost function NamesAt(sources: seq<Fetched>, v: Vector): set<Name>
    requires Known(v, sources)
  {
    if v == [] then {} else NamesAt(sources, v[..|v| - 1]) + sources[|v| - 1][v[|v| - 1]]
  }

  ghost function SetAt(m: Manager, block: Vector, allow: Vector): set<Name>
    requires Known(block, m.block) && Known(allow, m.allow)
  {
    MergedSet(m.blockInline, NamesAt(m.block, block), m.allowInline, NamesAt(m.allow, allow))
  }

  ghost predicate Enabled(m: Manager, a: Action) {
    && WellFormed(m)
    && match a {
         case StoreBlock(i, _) => i < |m.block|
         case StoreAllow(i, _) => i < |m.allow|
         case Acquire => m.rebuild.None?
         case SnapshotBlock => m.rebuild.Some? && |m.rebuild.value.block| < |m.block|
         case SnapshotAllow => m.rebuild.Some? && |m.rebuild.value.block| == |m.block|
             && |m.rebuild.value.allow| < |m.allow|
         case Publish =>
           && m.rebuild.Some? && |m.rebuild.value.block| == |m.block| && |m.rebuild.value.allow| == |m.allow|
           && Known(m.rebuild.value.block, m.block) && Known(m.rebuild.value.allow, m.allow)
         case Abandon => m.rebuild.Some?
       }
  }

  ghost function Apply(m: Manager, a: Action): Manager
    requires Enabled(m, a)
  {
    match a
    case StoreBlock(i, names) => m.(block := m.block[i := m.block[i] + [names]])
    case StoreAllow(i, names) => m.(allow := m.allow[i := m.allow[i] + [names]])
    case Acquire => m.(rebuild := Some(Rebuild(Latest(m.block), Latest(m.allow), [], [])))
    case SnapshotBlock =>
      var r := m.rebuild.value;
      m.(rebuild := Some(r.(block := r.block + [Latest(m.block)[|r.block|]])))
    case SnapshotAllow =>
      var r := m.rebuild.value;
      m.(rebuild := Some(r.(allow := r.allow + [Latest(m.allow)[|r.allow|]])))
    case Publish =>
      var r := m.rebuild.value;
      m.(rebuild := None, published := m.published + [Publication(r.block, r.allow, SetAt(m, r.block, r.allow))])
    case Abandon => m.(rebuild := None)
  }

  // -------------------------------------------------------------------- invariant

  ghost predicate PublicationOk(m: Manager, p: Publication) {
    && |p.block| == |m.block| && |p.allow| == |m.allow|
    && Known(p.block, m.block) && Known(p.allow, m.allow) && p.names == SetAt(m, p.block, p.allow)
  }

  ghost predicate Ordered(ps: seq<Publication>) {
    forall i, j :: 0 <= i < j < |ps| ==> NotOlder(ps[j].block, ps[i].block) && NotOlder(ps[j].allow, ps[i].allow)
  }

  /** A rebuild in progress is at least as recent as its start, which is at least as recent as any publication. */
  ghost predicate RebuildOk(m: Manager, r: Rebuild) {
    && |r.blockStart| == |m.block| && |r.allowStart| == |m.allow|
    && Known(r.blockStart, m.block) && Known(r.allowStart, m.allow)
    && Known(r.block, m.block) && Known(r.allow, m.allow)
    && NotOlder(r.block, r.blockStart) && NotOlder(r.allow, r.allowStart)
    && forall j :: 0 <= j < |m.published| ==>
         NotOlder(r.blockStart, m.published[j].block) && NotOlder(r.allowStart, m.published[j].allow)
  }

  ghost predicate Inv(m: Manager) {
    && WellFormed(m)
    && (forall j :: 0 <= j < |m.published| ==> PublicationOk(m, m.published[j]))
    && Ordered(m.published)
    && (m.rebuild.Some? ==> RebuildOk(m, m.rebuild.value))
  }

  /** Later fetches do not change what an earlier snapshot held. */
  lemma {:induction false} NamesAtStable(sources: seq<Fetched>, i: nat, names: set<Name>, v: Vector)
    requires i < |sources| && Known(v, sources)
    ensures Known(v, sources[i := sources[i] + [names]])
    ensures NamesAt(sources[i := sources[i] + [names]], v) == NamesAt(sources, v)
    decreases |v|
  {
    if v != [] {
      NamesAtStable(sources, i, names, v[..|v| - 1]);
    }
  }

  lemma StoreKeeps(m: Manager, a: Action)
    requires Inv(m) && Enabled(m, a) && (a.StoreBlock? || a.StoreAllow?)
    ensures Inv(Apply(m, a))
  {
    var m' := Apply(m, a);
    forall j | 0 <= j < |m.published| ensures PublicationOk(m', m'.published[j]) {
      var p := m.published[j];
      assert PublicationOk(m, p);
      if a.StoreBlock? {
        NamesAtStable(m.block, a.i, a.names, p.block);
      } else {
        NamesAtStable(m.allow, a.i, a.names, p.allow);
      }
    }
  }

  lemma RebuildKeeps(m: Manager, a: Action)
    requires Inv(m) && Enabled(m, a) && (a.Acquire? || a.SnapshotBlock? || a.SnapshotAllow? || a.Abandon?)
    ensures Inv(Apply(m, a))
  {
    var m' := Apply(m, a);
    forall j | 0 <= j < |m.published| ensures PublicationOk(m', m'.published[j]) {
      assert PublicationOk(m, m.published[j]);
    }
    hide SetAt, NamesAt;
    if m'.rebuild.Some? {
      RebuildAdvances(m, a);
    }
  }

  lemma RebuildAdvances(m: Manager, a: Action)
    requires Inv(m) && Enabled(m, a) && (a.Acquire? || a.SnapshotBlock? || a.SnapshotAllow?)
    ensures RebuildOk(Apply(m, a), Apply(m, a).rebuild.value)
  {
    hide SetAt, NamesAt, Ordered;
    if a.Acquire? {
      forall j | 0 <= j < |m.published|
        ensures NotOlder(Latest(m.block), m.published[j].block) && NotOlder(Latest(m.allow), m.published[j].allow)
      {
        assert PublicationOk(m, m.published[j]);
      }
    }
  }

  lemma PublishKeeps(m: Manager)
    requires Inv(m) && Enabled(m, Publish)
    ensures Inv(Apply(m, Publish))
  {
    var m', r := Apply(m, Publish), m.rebuild.value;
    forall j | 0 <= j < |m'.published| ensures PublicationOk(m', m'.published[j]) {
      if j < |m.published| {
        assert PublicationOk(m, m.published[j]);
      }
    }
    forall i, j | 0 <= i < j < |m'.published|
      ensures NotOlder(m'.published[j].block, m'.published[i].block)
        && NotOlder(m'.published[j].allow, m'.published[i].allow)
    {
      if j == |m.published| {
        assert NotOlder(r.blockStart, m.published[i].block) && NotOlder(r.allowStart, m.published[i].allow);
      }
    }
  }

  lemma StepKeeps(m: Manager, a: Action)
    requires Inv(m) && Enabled(m, a)
    ensures Inv(Apply(m, a))
  {
    hide *;
    if a.StoreBlock? || a.StoreAllow? {
      StoreKeeps(m, a);
    } else if a.Publish? {
      PublishKeeps(m);
    } else {
      RebuildKeeps(m, a);
    }
  }

  // -------------------------------------------------------------------------- runs

  ghost predicate Legal(m: Manager, run: seq<Action>)
    decreases run
  {
    run == [] || (Enabled(m, run[0]) && Legal(Apply(m, run[0]), run[1..]))
  }

  ghost function Final(m: Manager, run: seq<Action>): Manager
    requires Legal(m, run)
    decreases run
  {
    if run == [] then m else Final(Apply(m, run[0]), run[1..])
  }

  /** The manager before anything was fetched or published. */
  ghost predicate Initial(m: Manager) {
    && (forall i :: 0 <= i < |m.block| ==> m.block[i] == [{}])
    && (forall i :: 0 <= i < |m.allow| ==> m.allow[i] == [{}])
    && m.rebuild.None? && m.published == []
  }

  lemma {:induction false} RunKeeps(m: Manager, run: seq<Action>)
    requires Inv(m) && Legal(m, run)
    ensures Inv(Final(m, run))
    ensures Final(m, run).blockInline == m.blockInline && Final(m, run).allowInline == m.allowInline
    decreases run
  {
    if run != [] {
      StepKeeps(m, run[0]);
      hide Inv, Enabled;
      RunKeeps(Apply(m, run[0]), run[1..]);
    }
  }

  /** Everything a run stores into one block or allow source, in order. */
  ghost function Stored(run: seq<Action>, block: bool, i: nat): Fetched {
    if run == [] then []
    else
      (match run[0]
       case StoreBlock(j, names) => if block && j == i then [names] else []
       case StoreAllow(j, names) => if !block && j == i then [names] else []
       case _ => []) + Stored(run[1..], block, i)
  }

  /** A source holds what was stored into it, and nothing else. */
  lemma {:induction false} SourcesHold(m: Manager, run: seq<Action>)
    requires Legal(m, run)
    ensures var m' := Final(m, run);
      && |m'.block| == |m.block| && |m'.allow| == |m.allow|
      && (forall i :: 0 <= i < |m.block| ==> m'.block[i] == m.block[i] + Stored(run, true, i))
      && (forall i :: 0 <= i < |m.allow| ==> m'.allow[i] == m.allow[i] + Stored(run, false, i))
    decreases run
  {
    if run != [] {
      SourcesStep(m, run[0], run);
      hide Enabled, Apply, Stored;
      SourcesHold(Apply(m, run[0]), run[1..]);
    }
  }

  lemma SourcesStep(m: Manager, a: Action, run: seq<Action>)
    requires Enabled(m, a) && run != [] && run[0] == a
    ensures var m' := Apply(m, a);
      && |m'.block| == |m.block| && |m'.allow| == |m.allow|
      && (forall i :: 0 <= i < |m.block| ==>
            m'.block[i] + Stored(run[1..], true, i) == m.block[i] + Stored(run, true, i))
      && (forall i :: 0 <= i < |m.allow| ==>
            m'.allow[i] + Stored(run[1..], false, i) == m.allow[i] + Stored(run, false, i))
  {
    hide SetAt, Stored;
    var m' := Apply(m, a);
    forall i | 0 <= i < |m.block|
      ensures m'.block[i] + Stored(run[1..], true, i) == m.block[i] + Stored(run, true, i)
    {
      StoredFirst(m.block[i], m'.block[i], run, true, i);
    }
    forall i | 0 <= i < |m.allow|
      ensures m'.allow[i] + Stored(run[1..], false, i) == m.allow[i] + Stored(run, false, i)
    {
      StoredFirst(m.allow[i], m'.allow[i], run, false, i);
    }
  }

  lemma StoredFirst(before: Fetched, after: Fetched, run: seq<Action>, block: bool, i: nat)
    requires run != []
    requires after == if (if block then run[0].StoreBlock? else run[0].StoreAllow?) && run[0].i == i
                      then before + [run[0].names] else before
    ensures after + Stored(run[1..], block, i) == before + Stored(run, block, i)
  {
  }

  /**
   Whatever the interleaving of block and allow refreshes, each published set is the merge of snapshots that
   were really fetched, snapshots never go back from one publication to the next, and no name on the inline
   whitelist is ever published.
   */
  lemma PublishedSets(m0: Manager, run: seq<Action>)
    requires Initial(m0) && Legal(m0, run)
    ensures var m := Final(m0, run);
      && Ordered(m.published)
      && |m.block| == |m0.block| && |m.allow| == |m0.allow|
      && (forall i :: 0 <= i < |m0.block| ==> m.block[i] == [{}] + Stored(run, true, i))
      && (forall i :: 0 <= i < |m0.allow| ==> m.allow[i] == [{}] + Stored(run, false, i))
      && forall j :: 0 <= j < |m.published| ==>
           PublicationOk(m, m.published[j]) && m.published[j].names !! m0.allowInline
  {
    assert Inv(m0);
    RunKeeps(m0, run);
    SourcesHold(m0, run);
    var m := Final(m0, run);
    forall j | 0 <= j < |m.published| ensures m.published[j].names !! m0.allowInline {
      assert PublicationOk(m, m.published[j]);
    }
  }

  /** Some source holds the name at its position of `v`. */
  ghost predicate Listed(sources: seq<Fetched>, v: Vector, name: Name)
    requires Known(v, sources)
  {
    exists i :: 0 <= i < |v| && name in sources[i][v[i]]
  }

  /** A published set holds exactly the names some block list or source holds and no allow list or source does. */
  lemma PublishedNames(m: Manager, p: Publication, name: Name)
    requires PublicationOk(m, p)
    ensures name in p.names <==>
      && (name in m.blockInline || Listed(m.block, p.block, name))
      && name !in m.allowInline && !Listed(m.allow, p.allow, name)
  {
    NamesListed(m.block, p.block, name);
    NamesListed(m.allow, p.allow, name);
  }

  lemma {:induction false} NamesListed(sources: seq<Fetched>, v: Vector, name: Name)
    requires Known(v, sources)
    ensures name in NamesAt(sources, v) <==> Listed(sources, v, name)
    decreases |v|
  {
    if v != [] {
      NamesListed(sources, v[..|v| - 1], name);
    }
  }

  ghost predicate KeepsLock(run: seq<Action>) {
    forall i :: 0 <= i < |run| ==> !run[i].Publish? && !run[i].Abandon?
  }

  lemma {:induction false} LockedRun(m: Manager, run: seq<Action>)
    requires Inv(m) && m.rebuild.Some? && Legal(m, run) && KeepsLock(run)
    ensures var m' := Final(m, run);
      && Inv(m') && m'.rebuild.Some? && |m'.block| == |m.block| && |m'.allow| == |m.allow|
         && m'.published == m.published
      && m'.rebuild.value.blockStart == m.rebuild.value.blockStart
         && m'.rebuild.value.allowStart == m.rebuild.value.allowStart
    decreases run
  {
    if run != [] {
      assert run[0] in run;
      StepKeeps(m, run[0]);
      hide Inv;
      LockedRun(Apply(m, run[0]), run[1..]);
    }
  }

  /**
   A rebuild reflects every fetch stored before it took the lock: its publication is at least as recent as
   the sources were then, in every source, however many stores interleave with its snapshots.
   */
  lemma RebuildReflects(m: Manager, run: seq<Action>)
    requires Inv(m) && Enabled(m, Acquire)
    requires Legal(Apply(m, Acquire), run) && KeepsLock(run) && Enabled(Final(Apply(m, Acquire), run), Publish)
    ensures var after := Apply(Final(Apply(m, Acquire), run), Publish);
      && |after.published| == |m.published| + 1
      && NotOlder(after.published[|m.published|].block, Latest(m.block))
      && NotOlder(after.published[|m.published|].allow, Latest(m.allow))
      && |after.published[|m.published|].block| == |m.block| && |after.published[|m.published|].allow| == |m.allow|
  {
    StepKeeps(m, Acquire);
    LockedRun(Apply(m, Acquire), run);
  }

  /** The snapshots still to take, and the publication. */
  function RestOfRebuild(blocks: nat, allows: nat): seq<Action>
    decreases blocks + allows
  {
    if blocks > 0 then [SnapshotBlock] + RestOfRebuild(blocks - 1, allows)
    else if allows > 0 then [SnapshotAllow] + RestOfRebuild(0, allows - 1)
    else [Publish]
  }

  /** A rebuild left alone can always run to its end, and publishes the merge of what every source holds last. */
  lemma RebuildPublishes(m: Manager)
    requires WellFormed(m) && m.rebuild.None?
    ensures var run := [Acquire] + RestOfRebuild(|m.block|, |m.allow|);
      Legal(m, run) && Final(m, run) == m.(published := m.published + [LatestMerge(m)])
  {
    RebuildGoesOn(Apply(m, Acquire), |m.block|, |m.allow|);
  }

  ghost function LatestMerge(m: Manager): Publication
    requires WellFormed(m)
  {
    Publication(Latest(m.block), Latest(m.allow), SetAt(m, Latest(m.block), Latest(m.allow)))
  }

  lemma {:induction false} RebuildGoesOn(m: Manager, blocks: nat, allows: nat)
    requires WellFormed(m) && m.rebuild.Some? && blocks <= |m.block| && allows <= |m.allow|
    requires m.rebuild.value.block == Latest(m.block)[..|m.block| - blocks]
    requires m.rebuild.value.allow == Latest(m.allow)[..|m.allow| - allows] && (blocks > 0 ==> allows == |m.allow|)
    ensures var run := RestOfRebuild(blocks, allows);
      Legal(m, run) && Final(m, run) == m.(rebuild := None, published := m.published + [LatestMerge(m)])
    decreases blocks + allows
  {
    hide NamesAt, MergedSet;
    if blocks > 0 {
      RebuildGoesOn(Apply(m, SnapshotBlock), blocks - 1, allows);
    } else if allows > 0 {
      RebuildGoesOn(Apply(m, SnapshotAllow), 0, allows - 1);
    } else {
      assert m.rebuild.value.block == Latest(m.block) && m.rebuild.value.allow == Latest(m.allow);
    }
  }
}
