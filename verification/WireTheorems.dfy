/** What the wire code guarantees: aging, names, questions and the synthesize/parse round trip. */
module WireTheorems {
  import opened Basics
  import opened Wire

  // ------------------------------------------------------------------ TTL aging

  /** Octet `i` belongs to the TTL of an ordinary (non-OPT) record. */
  ghost predicate InTtl(recs: seq<Rec>, i: int) {
    exists k :: 0 <= k < |recs| && recs[k].rtype != OPT_RECORD_TYPE && recs[k].at + 4 <= i < recs[k].at + 8
  }

  ghost predicate Fit(recs: seq<Rec>, size: nat) {
    forall k :: 0 <= k < |recs| ==> recs[k].at + 8 <= size
  }

  /** TTL fields lie in the message, in order and apart from each other. */
  ghost predicate Separated(recs: seq<Rec>) {
    forall j, k :: 0 <= j < k < |recs| ==> recs[j].at + 10 <= recs[k].at
  }

  /** Aging without reference to a loop: every ordinary TTL is aged, every other octet is kept. */
  ghost predicate IsAged(before: seq<byte>, after: seq<byte>, recs: seq<Rec>, elapsed: nat, forceZero: bool)
    requires Fit(recs, |before|)
  {
    && |after| == |before|
    && (forall i :: 0 <= i < |before| && !InTtl(recs, i) ==> after[i] == before[i])
    && (forall k :: 0 <= k < |recs| && recs[k].rtype != OPT_RECORD_TYPE ==>
          U32(after, recs[k].at + 4) == AgedTtl(U32(before, recs[k].at + 4), elapsed, forceZero))
  }

  lemma {:induction false} WalkSeparated(raw: seq<byte>, at: nat, n: nat)
    ensures Separated(Walk(raw, at, n).recs)
    decreases n
  {
    if n > 0 && NextAt(raw, at).Some? {
      WalkSeparated(raw, NextAt(raw, at).value, n - 1);
    }
  }

  lemma LayoutSeparated(raw: seq<byte>)
    ensures Separated(Layout(raw).recs) && Fit(Layout(raw).recs, |raw|)
  {
    if |raw| >= HEADER_LEN {
      var start := WalkQuestions(raw, HEADER_LEN, U16(raw, 4));
      if start.Some? {
        WalkSeparated(raw, start.value, RecordCount(raw));
      }
    }
  }

  /** The octets a TTL field is rewritten to, as a function of the octets it held. */
  function AgeField(elapsed: nat, forceZero: bool): seq<byte> -> seq<byte> {
    (s: seq<byte>) => if |s| == 4 then U32Bytes(AgedTtl(U32(s, 0), elapsed, forceZero)) else s
  }

  /** Every ordinary TTL field is rewritten by `f` and every other octet is kept. */
  ghost predicate Patched(before: seq<byte>, after: seq<byte>, recs: seq<Rec>, f: seq<byte> -> seq<byte>)
    requires Fit(recs, |before|)
  {
    && |after| == |before|
    && (forall i :: 0 <= i < |before| && !InTtl(recs, i) ==> after[i] == before[i])
    && (forall k :: 0 <= k < |recs| && recs[k].rtype != OPT_RECORD_TYPE ==>
          after[recs[k].at + 4..recs[k].at + 8] == f(before[recs[k].at + 4..recs[k].at + 8]))
  }

  lemma FieldAged(before: seq<byte>, after: seq<byte>, at: nat, elapsed: nat, forceZero: bool)
    requires |before| == |after| && at + 4 <= |before|
    ensures after[at..at + 4] == AgeField(elapsed, forceZero)(before[at..at + 4])
       <==> U32(after, at) == AgedTtl(U32(before, at), elapsed, forceZero)
  {
    var old4, new4 := before[at..at + 4], after[at..at + 4];
    assert U32(before, at) == U32(old4, 0) && U32(after, at) == U32(new4, 0);
    var aged := AgeField(elapsed, forceZero)(old4);
    assert aged == U32Bytes(AgedTtl(U32(old4, 0), elapsed, forceZero));
    if U32(new4, 0) == U32(aged, 0) {
      U32Injective(new4, 0, aged, 0);
      assert new4[0..4] == new4 && aged[0..4] == aged;
    }
  }

  lemma PatchedIffAged(before: seq<byte>, after: seq<byte>, recs: seq<Rec>, elapsed: nat, forceZero: bool)
    requires Fit(recs, |before|)
    ensures Patched(before, after, recs, AgeField(elapsed, forceZero))
       <==> IsAged(before, after, recs, elapsed, forceZero)
  {
    hide U32, AgedTtl, AgeField, InTtl;
    if |before| == |after| {
      forall k | 0 <= k < |recs|
        ensures
          after[recs[k].at + 4..recs[k].at + 8] == AgeField(elapsed, forceZero)(before[recs[k].at + 4..recs[k].at + 8])
          <==> U32(after, recs[k].at + 4) == AgedTtl(U32(before, recs[k].at + 4), elapsed, forceZero)
      {
        FieldAged(before, after, recs[k].at + 4, elapsed, forceZero);
      }
    }
  }

  lemma SetTtlPatches(raw: seq<byte>, rec: Rec, elapsed: nat, forceZero: bool)
    requires rec.at + 8 <= |raw|
    ensures Patched(raw, SetTtl(raw, rec, elapsed, forceZero), [rec], AgeField(elapsed, forceZero))
  {
    hide U32, U32Bytes, AgedTtl, AgeField;
    var p := rec.at + 4;
    var four := AgeField(elapsed, forceZero)(raw[p..p + 4]);
    var out := SetTtl(raw, rec, elapsed, forceZero);
    if rec.rtype != OPT_RECORD_TYPE {
      AgeFieldAt(raw, p, elapsed, forceZero);
      PatchAt(raw, out, p, four);
      forall i | 0 <= i < |raw| && !InTtl([rec], i)
        ensures out[i] == raw[i]
      {
        assert [rec][0] == rec;
      }
    }
  }

  lemma AgeFieldAt(raw: seq<byte>, p: nat, elapsed: nat, forceZero: bool)
    requires p + 4 <= |raw|
    ensures AgeField(elapsed, forceZero)(raw[p..p + 4]) == U32Bytes(AgedTtl(U32(raw, p), elapsed, forceZero))
  {
    assert U32(raw, p) == U32(raw[p..p + 4], 0);
  }

  lemma PatchAt(raw: seq<byte>, out: seq<byte>, p: nat, four: seq<byte>)
    requires p + 4 <= |raw| && |four| == 4 && out == raw[..p] + four + raw[p + 4..]
    ensures |out| == |raw| && out[p..p + 4] == four
    ensures forall i :: 0 <= i < |raw| && !(p <= i < p + 4) ==> out[i] == raw[i]
  {
  }

  lemma PatchedCons(
    raw: seq<byte>, mid: seq<byte>, out: seq<byte>, first: Rec, tail: seq<Rec>, f: seq<byte> -> seq<byte>)
    requires Fit([first] + tail, |raw|) && Separated([first] + tail)
    requires Fit([first], |raw|) && Patched(raw, mid, [first], f)
    requires Fit(tail, |raw|) && Patched(mid, out, tail, f)
    ensures Patched(raw, out, [first] + tail, f)
  {
    hide InTtl, Separated;
    var recs := [first] + tail;
    InTtlCons(first, tail);
    SeparatedHead(first, tail);
    assert recs[0] == first && [first][0] == first;
    NoTtlBefore(tail, first.at + 10);
    forall k | 0 <= k < |recs| && recs[k].rtype != OPT_RECORD_TYPE
      ensures out[recs[k].at + 4..recs[k].at + 8] == f(raw[recs[k].at + 4..recs[k].at + 8])
    {
      var p := recs[k].at + 4;
      if k == 0 {
        assert out[p..p + 4] == mid[p..p + 4];
      } else {
        assert tail[k - 1] == recs[k];
        assert mid[p..p + 4] == raw[p..p + 4];
      }
    }
  }

  lemma SeparatedHead(first: Rec, tail: seq<Rec>)
    requires Separated([first] + tail)
    ensures forall k :: 0 <= k < |tail| ==> tail[k].at >= first.at + 10
    ensures forall i :: InTtl([first], i) ==> i < first.at + 8
    ensures forall k, i :: 0 <= k < |tail| && tail[k].at + 4 <= i ==> !InTtl([first], i)
    ensures forall i :: first.rtype != OPT_RECORD_TYPE && first.at + 4 <= i < first.at + 8 ==> InTtl([first], i)
  {
    var recs := [first] + tail;
    assert recs[0] == first && [first][0] == first;
    assert forall k :: 0 <= k < |tail| ==> tail[k] == recs[k + 1];
  }

  lemma {:induction false} AgedPatches(raw: seq<byte>, recs: seq<Rec>, elapsed: nat, forceZero: bool)
    requires Fit(recs, |raw|) && Separated(recs)
    ensures Patched(raw, Aged(raw, recs, elapsed, forceZero), recs, AgeField(elapsed, forceZero))
    decreases |recs|
  {
    if recs != [] {
      var mid := SetTtl(raw, recs[0], elapsed, forceZero);
      SetTtlPatches(raw, recs[0], elapsed, forceZero);
      AgedPatches(mid, recs[1..], elapsed, forceZero);
      assert recs == [recs[0]] + recs[1..];
      PatchedCons(raw, mid, Aged(raw, recs, elapsed, forceZero), recs[0], recs[1..], AgeField(elapsed, forceZero));
    }
  }

  lemma PatchedUnique(raw: seq<byte>, x: seq<byte>, y: seq<byte>, recs: seq<Rec>, f: seq<byte> -> seq<byte>)
    requires Fit(recs, |raw|) && Patched(raw, x, recs, f) && Patched(raw, y, recs, f)
    ensures x == y
  {
    forall i | 0 <= i < |raw|
      ensures x[i] == y[i]
    {
      if InTtl(recs, i) {
        var k :| 0 <= k < |recs| && recs[k].rtype != OPT_RECORD_TYPE && recs[k].at + 4 <= i < recs[k].at + 8;
        var p := recs[k].at + 4;
        assert x[i] == x[p..p + 4][i - p] && y[i] == y[p..p + 4][i - p];
      }
    }
  }

  /** `age_ttls` leaves exactly the message that the loop-free description allows, and no other. */
  lemma AgeOutExact(raw: seq<byte>, after: seq<byte>, elapsed: nat, forceZero: bool)
    ensures Fit(Layout(raw).recs, |raw|)
    ensures IsAged(raw, after, Layout(raw).recs, elapsed, forceZero) <==> after == AgeOut(raw, elapsed, forceZero)
  {
    LayoutSeparated(raw);
    var recs := Layout(raw).recs;
    AgedPatches(raw, recs, elapsed, forceZero);
    PatchedIffAged(raw, after, recs, elapsed, forceZero);
    if IsAged(raw, after, recs, elapsed, forceZero) {
      PatchedUnique(raw, after, AgeOut(raw, elapsed, forceZero), recs, AgeField(elapsed, forceZero));
    }
  }

  /** Skipping a name reads only the name itself. */
  lemma {:induction false} SkipNameFrame(a: seq<byte>, b: seq<byte>, at: nat)
    requires |a| == |b|
    requires SkipName(a, at).Some? ==> forall i :: at <= i < SkipName(a, at).value ==> a[i] == b[i]
    requires SkipName(a, at).None? ==> forall i :: at <= i < |a| ==> a[i] == b[i]
    ensures SkipName(b, at) == SkipName(a, at)
    decreases |a| - at
  {
    if at < |a| && 0 < a[at] < 64 {
      SkipNameFrame(a, b, at + 1 + a[at] as nat);
    }
  }

  /** Octets from `at` on agree outside the ordinary TTLs of `recs`. */
  ghost predicate SameOutside(raw: seq<byte>, out: seq<byte>, at: nat, recs: seq<Rec>) {
    |out| == |raw| && forall i :: at <= i < |raw| && !InTtl(recs, i) ==> out[i] == raw[i]
  }

  ghost predicate AllFrom(recs: seq<Rec>, at: nat) {
    forall k :: 0 <= k < |recs| ==> recs[k].at >= at
  }

  /** One record is read from octets that aging keeps. */
  lemma StepAged(raw: seq<byte>, out: seq<byte>, at: nat, rest: seq<Rec>)
    requires FirstRec(raw, at).Some? ==> SameOutside(raw, out, at, [FirstRec(raw, at).value] + rest)
    requires FirstRec(raw, at).None? ==> SameOutside(raw, out, at, [])
    requires NextAt(raw, at).Some? ==> AllFrom(rest, NextAt(raw, at).value)
    requires NextAt(raw, at).None? ==> rest == []
    ensures FirstRec(out, at) == FirstRec(raw, at) && NextAt(out, at) == NextAt(raw, at)
    ensures NextAt(raw, at).Some? ==> SameOutside(raw, out, NextAt(raw, at).value, rest)
  {
    var first, next := FirstRec(raw, at), NextAt(raw, at);
    if first.None? {
      assert forall i :: !InTtl([], i);
      SkipNameFrame(raw, out, at);
    } else {
      var p := first.value.at;
      InTtlCons(first.value, rest);
      assert [first.value][0] == first.value;
      NoTtlBefore(rest, if next.Some? then next.value else p);
      NoTtlBefore([first.value], p);
      SkipNameFrame(raw, out, at);
    }
  }

  /** Aging never moves a record boundary. */
  lemma {:induction false} WalkAged(raw: seq<byte>, out: seq<byte>, at: nat, n: nat)
    requires SameOutside(raw, out, at, Walk(raw, at, n).recs)
    ensures Walk(out, at, n) == Walk(raw, at, n)
    decreases n
  {
    hide *;
    if n == 0 {
      WalkNothing(raw, out, at);
    } else {
      WalkUnfold(raw, at, n);
      WalkUnfold(out, at, n);
      var next := NextAt(raw, at);
      if next.Some? {
        StepAged(raw, out, at, Walk(raw, next.value, n - 1).recs);
        WalkAged(raw, out, next.value, n - 1);
      } else {
        StepAged(raw, out, at, []);
      }
    }
  }

  lemma WalkNothing(raw: seq<byte>, out: seq<byte>, at: nat)
    ensures Walk(out, at, 0) == Walk(raw, at, 0)
  {
  }

  lemma WalkUnfold(raw: seq<byte>, at: nat, n: nat)
    requires n > 0
    ensures var first, next := FirstRec(raw, at), NextAt(raw, at);
      Walk(raw, at, n) ==
      if first.None? then Walked([], None)
      else if next.None? then Walked([first.value] + [], None)
      else Walked([first.value] + Walk(raw, next.value, n - 1).recs, Walk(raw, next.value, n - 1).end)
    ensures FirstRec(raw, at).None? ==> NextAt(raw, at).None?
    ensures NextAt(raw, at).Some? ==> AllFrom(Walk(raw, NextAt(raw, at).value, n - 1).recs, NextAt(raw, at).value)
  {
  }

  lemma NoTtlBefore(recs: seq<Rec>, bound: nat)
    requires forall k :: 0 <= k < |recs| ==> recs[k].at >= bound
    ensures forall i :: i < bound + 4 ==> !InTtl(recs, i)
  {
  }

  lemma InTtlCons(first: Rec, rest: seq<Rec>)
    ensures forall i :: InTtl([first] + rest, i) <==> InTtl([first], i) || InTtl(rest, i)
  {
    var all := [first] + rest;
    assert all[0] == first && [first][0] == first;
    assert forall k :: 0 <= k < |rest| ==> all[k + 1] == rest[k];
    forall i | InTtl([first] + rest, i)
      ensures InTtl([first], i) || InTtl(rest, i)
    {
      var k :| 0 <= k < |all| && all[k].rtype != OPT_RECORD_TYPE && all[k].at + 4 <= i < all[k].at + 8;
      assert k > 0 ==> all[k] == rest[k - 1];
    }
  }

  lemma {:induction false} WalkQuestionsFrame(a: seq<byte>, b: seq<byte>, at: nat, n: nat)
    requires |a| == |b| && WalkQuestions(a, at, n).Some?
    requires forall i :: at <= i < WalkQuestions(a, at, n).value ==> a[i] == b[i]
    ensures WalkQuestions(b, at, n) == WalkQuestions(a, at, n)
    decreases n
  {
    if n > 0 {
      SkipNameFrame(a, b, at);
      WalkQuestionsFrame(a, b, SkipName(a, at).value + 4, n - 1);
    }
  }

  lemma AgeOutOutside(raw: seq<byte>, elapsed: nat, forceZero: bool)
    ensures SameOutside(raw, AgeOut(raw, elapsed, forceZero), 0, Layout(raw).recs)
  {
    AgeOutExact(raw, AgeOut(raw, elapsed, forceZero), elapsed, forceZero);
  }

  lemma LayoutAged(raw: seq<byte>, out: seq<byte>)
    requires SameOutside(raw, out, 0, Layout(raw).recs)
    ensures Layout(out) == Layout(raw)
  {
    if |raw| >= HEADER_LEN {
      var start := WalkQuestions(raw, HEADER_LEN, U16(raw, 4));
      NoTtlBefore(Layout(raw).recs, if start.Some? then start.value else |raw|);
      SameHeader(raw, out);
      hide InTtl, SkipName, Walk, WalkQuestions;
      if start.Some? {
        WalkQuestionsFrame(raw, out, HEADER_LEN, U16(raw, 4));
        WalkAged(raw, out, start.value, RecordCount(raw));
      } else {
        assert raw == out;
      }
    }
  }

  lemma SameHeader(raw: seq<byte>, out: seq<byte>)
    requires |raw| == |out| && |raw| >= HEADER_LEN && SameOutside(raw, out, 0, Layout(raw).recs)
    ensures U16(out, 4) == U16(raw, 4) && RecordCount(out) == RecordCount(raw)
  {
    NoTtlBefore(Layout(raw).recs, HEADER_LEN);
  }

  /** Record boundaries and types survive aging, whether or not the walk completes. */
  lemma AgeOutLayout(raw: seq<byte>, elapsed: nat, forceZero: bool)
    ensures Layout(AgeOut(raw, elapsed, forceZero)) == Layout(raw)
  {
    AgeOutOutside(raw, elapsed, forceZero);
    LayoutAged(raw, AgeOut(raw, elapsed, forceZero));
  }

  lemma IsAgedTwice(raw: seq<byte>, mid: seq<byte>, out: seq<byte>, recs: seq<Rec>, a: nat, f: bool, b: nat, g: bool)
    requires Fit(recs, |raw|) && IsAged(raw, mid, recs, a, f) && IsAged(mid, out, recs, b, g)
    ensures IsAged(raw, out, recs, a + b, f || g)
  {
  }

  /** Aging by `a` and then by `b` is aging by `a + b`; forcing zero once forces it for good. */
  lemma AgeCompose(raw: seq<byte>, a: nat, f: bool, b: nat, g: bool)
    ensures AgeOut(AgeOut(raw, a, f), b, g) == AgeOut(raw, a + b, f || g)
  {
    var mid := AgeOut(raw, a, f);
    var out := AgeOut(mid, b, g);
    AgeOutLayout(raw, a, f);
    AgeOutExact(raw, mid, a, f);
    AgeOutExact(mid, out, b, g);
    IsAgedTwice(raw, mid, out, Layout(raw).recs, a, f, b, g);
    AgeOutExact(raw, out, a + b, f || g);
  }

  // --------------------------------------------------------------------- names

  /** Decoding reads back exactly one well-formed encoding. */
  lemma {:induction false} DecodeIsEncoding(raw: seq<byte>, at: nat)
    requires DecodeName(raw, at).Some?
    ensures var d := DecodeName(raw, at).value;
      ValidLabels(d.labels) && raw[at..d.end] == EncodeLabels(d.labels) + [0]
    decreases |raw| - at
  {
    hide DecodeName, EncodeLabels, ValidLabels;
    DecodeUnfold(raw, at);
    var d := DecodeName(raw, at).value;
    if raw[at] > 0 {
      var next := at + 1 + raw[at] as nat;
      DecodeIsEncoding(raw, next);
      EncodeCons(raw[at + 1..next], DecodeName(raw, next).value.labels);
      assert raw[at..d.end] == [raw[at]] + raw[at + 1..next] + raw[next..d.end];
    } else {
      EncodeNothing();
      assert raw[at..d.end] == [0];
    }
  }

  lemma EncodeCons(first: seq<byte>, rest: seq<seq<byte>>)
    requires ValidLabels(rest) && 1 <= |first| <= 63
    ensures ValidLabels([first] + rest)
    ensures EncodeLabels([first] + rest) == [|first| as byte] + first + EncodeLabels(rest)
  {
    var labels := [first] + rest;
    assert labels[0] == first && labels[1..] == rest;
  }

  lemma EncodeNothing()
    ensures ValidLabels([]) && EncodeLabels([]) == []
  {
  }

  /** The octets of `part` stand at offset `at` of `raw`. */
  ghost predicate At(raw: seq<byte>, at: nat, part: seq<byte>) {
    at + |part| <= |raw| && forall i :: 0 <= i < |part| ==> raw[at + i] == part[i]
  }

  lemma AtConcat(raw: seq<byte>, at: nat, a: seq<byte>, b: seq<byte>)
    requires At(raw, at, a + b)
    ensures At(raw, at, a) && At(raw, at + |a|, b)
  {
    assert forall i :: 0 <= i < |a| ==> (a + b)[i] == a[i];
    assert forall i :: 0 <= i < |b| ==> (a + b)[|a| + i] == b[i];
  }

  /** Every encoding of a valid label list decodes to that list. */
  lemma {:induction false} EncodingDecodes(raw: seq<byte>, at: nat, labels: seq<seq<byte>>)
    requires ValidLabels(labels)
    requires At(raw, at, EncodeLabels(labels) + [0])
    ensures DecodeName(raw, at) == Some(Decoded(labels, at + |EncodeLabels(labels)| + 1))
    decreases |labels|
  {
    hide At;
    if labels == [] {
      assert EncodeLabels(labels) + [0] == [0];
      AtSlice(raw, at, [0]);
    } else {
      var len := |labels[0]|;
      var rest := EncodeLabels(labels[1..]) + [0];
      assert EncodeLabels(labels) + [0] == [len as byte] + (labels[0] + rest);
      AtConcat(raw, at, [len as byte], labels[0] + rest);
      AtConcat(raw, at + 1, labels[0], rest);
      AtSlice(raw, at, [len as byte]);
      AtSlice(raw, at + 1, labels[0]);
      EncodingDecodes(raw, at + 1 + len, labels[1..]);
      assert [labels[0]] + labels[1..] == labels;
    }
  }

  lemma AtSlice(raw: seq<byte>, at: nat, part: seq<byte>)
    requires At(raw, at, part)
    ensures at + |part| <= |raw| && raw[at..at + |part|] == part
    ensures part != [] ==> raw[at] == part[0]
  {
  }

  lemma {:induction false} DecodeSkips(raw: seq<byte>, at: nat)
    requires DecodeName(raw, at).Some?
    ensures SkipName(raw, at) == Some(DecodeName(raw, at).value.end)
    decreases |raw| - at
  {
    if raw[at] > 0 {
      DecodeSkips(raw, at + 1 + raw[at] as nat);
    }
  }

  /** The canonical form has one octet per encoded octet: each length octet becomes a dot. */
  lemma {:induction false} DottedLength(labels: seq<seq<byte>>)
    requires ValidLabels(labels)
    ensures |DottedLabels(labels)| == |EncodeLabels(labels)|
  {
    if labels != [] {
      DottedLength(labels[1..]);
    }
  }

  /** `a` and `b` are the same labels up to ASCII case. */
  ghost predicate SameLabels(a: seq<seq<byte>>, b: seq<seq<byte>>) {
    |a| == |b| && forall i :: 0 <= i < |a| ==> LowerAll(a[i]) == LowerAll(b[i])
  }

  ghost predicate DotFree(labels: seq<seq<byte>>) {
    forall i :: 0 <= i < |labels| ==> DOT !in labels[i]
  }

  lemma LowerKeepsDots(s: seq<byte>)
    requires DOT !in s
    ensures DOT !in LowerAll(s)
  {
  }

  /** Two dot-free strings followed by a dot agree up to the first dot or differ there. */
  lemma SplitAtDot(x: seq<byte>, xs: seq<byte>, y: seq<byte>, ys: seq<byte>)
    requires DOT !in x && DOT !in y
    ensures x + [DOT] + xs == y + [DOT] + ys <==> x == y && xs == ys
  {
    var l, r := x + [DOT] + xs, y + [DOT] + ys;
    assert l[|x|] == DOT && r[|y|] == DOT;
    assert |x| < |y| ==> r[|x|] == y[|x|];
    assert |y| < |x| ==> l[|y|] == x[|y|];
    assert x == l[..|x|] && y == r[..|y|];
    assert xs == l[|x| + 1..] && ys == r[|y| + 1..];
  }

  lemma {:induction false} DottedLabelsInjective(a: seq<seq<byte>>, b: seq<seq<byte>>)
    requires DotFree(a) && DotFree(b)
    ensures DottedLabels(a) == DottedLabels(b) <==> SameLabels(a, b)
    decreases |a|
  {
    if a != [] && b != [] {
      LowerKeepsDots(a[0]);
      LowerKeepsDots(b[0]);
      SplitAtDot(LowerAll(a[0]), DottedLabels(a[1..]), LowerAll(b[0]), DottedLabels(b[1..]));
      DottedLabelsInjective(a[1..], b[1..]);
      SameLabelsCons(a, b);
    }
  }

  lemma SameLabelsCons(a: seq<seq<byte>>, b: seq<seq<byte>>)
    requires a != [] && b != []
    ensures SameLabels(a, b) <==> LowerAll(a[0]) == LowerAll(b[0]) && SameLabels(a[1..], b[1..])
  {
    if LowerAll(a[0]) == LowerAll(b[0]) && SameLabels(a[1..], b[1..]) {
      forall i | 0 <= i < |a| ensures LowerAll(a[i]) == LowerAll(b[i]) {
        assert i > 0 ==> a[i] == a[1..][i - 1] && b[i] == b[1..][i - 1];
      }
    }
    if SameLabels(a, b) {
      assert forall i :: 0 <= i < |a[1..]| ==> a[1..][i] == a[i + 1] && b[1..][i] == b[i + 1];
    }
  }

  /** The parts of a label between its dots. */
  function Split(s: seq<byte>): (r: seq<seq<byte>>)
    ensures r != [] && forall i :: 0 <= i < |r| ==> DOT !in r[i]
  {
    if s == [] then [[]]
    else
      var rest := Split(s[1..]);
      if s[0] == DOT then [[]] + rest else [[s[0]] + rest[0]] + rest[1..]
  }

  /** Every label split at its dots. */
  function Pieces(labels: seq<seq<byte>>): (r: seq<seq<byte>>)
    ensures forall i :: 0 <= i < |r| ==> DOT !in r[i]
    ensures r == [] <==> labels == []
  {
    if labels == [] then [] else Split(labels[0]) + Pieces(labels[1..])
  }

  lemma {:induction false} DottedConcat(a: seq<seq<byte>>, b: seq<seq<byte>>)
    ensures DottedLabels(a + b) == DottedLabels(a) + DottedLabels(b)
  {
    if a == [] {
      assert a + b == b;
    } else {
      assert (a + b)[0] == a[0] && (a + b)[1..] == a[1..] + b;
      DottedConcat(a[1..], b);
    }
  }

  lemma {:induction false} DottedSplit(s: seq<byte>)
    ensures DottedLabels(Split(s)) == LowerAll(s) + [DOT]
  {
    var r := Split(s);
    if s == [] {
      assert r[1..] == [] && LowerAll(r[0]) == [] && LowerAll(s) == [];
    } else {
      var rest := Split(s[1..]);
      DottedSplit(s[1..]);
      assert LowerAll(s) == [Lower(s[0])] + LowerAll(s[1..]);
      if s[0] == DOT {
        assert r[0] == [] && r[1..] == rest && LowerAll(r[0]) == [];
      } else {
        assert r[0] == [s[0]] + rest[0] && r[1..] == rest[1..];
        assert LowerAll(r[0]) == [Lower(s[0])] + LowerAll(rest[0]);
        assert DottedLabels(r) == [Lower(s[0])] + DottedLabels(rest);
        assert [Lower(s[0])] + (LowerAll(s[1..]) + [DOT]) == LowerAll(s) + [DOT];
      }
    }
  }

  /** Splitting labels at their dots does not change the canonical form. */
  lemma {:induction false} DottedPieces(labels: seq<seq<byte>>)
    ensures DottedLabels(Pieces(labels)) == DottedLabels(labels)
  {
    if labels != [] {
      DottedPieces(labels[1..]);
      DottedSplit(labels[0]);
      DottedConcat(Split(labels[0]), Pieces(labels[1..]));
    }
  }

  /** Two names share a canonical form exactly when they agree up to case once their labels are split at dots. */
  lemma DottedExact(a: seq<seq<byte>>, b: seq<seq<byte>>)
    requires ValidLabels(a) && ValidLabels(b)
    ensures Dotted(a) == Dotted(b) <==> SameLabels(Pieces(a), Pieces(b))
  {
    if a == [] || b == [] {
      if a != [] { assert |DottedLabels(a)| >= 2; }
      if b != [] { assert |DottedLabels(b)| >= 2; }
    } else {
      DottedPieces(a);
      DottedPieces(b);
      DottedLabelsInjective(Pieces(a), Pieces(b));
    }
  }

  /** Two accepted queries have the same canonical name exactly when their split labels agree up to case. */
  lemma SameNameExactly(a: seq<byte>, b: seq<byte>)
    requires Parse(a).Some? && Parse(b).Some?
    ensures DecodeName(a, HEADER_LEN).Some? && DecodeName(b, HEADER_LEN).Some?
    ensures Parse(a).value.1 == Parse(b).value.1 <==>
      SameLabels(Pieces(DecodeName(a, HEADER_LEN).value.labels), Pieces(DecodeName(b, HEADER_LEN).value.labels))
  {
    Accepted(a);
    Accepted(b);
    DottedExact(DecodeName(a, HEADER_LEN).value.labels, DecodeName(b, HEADER_LEN).value.labels);
  }

  lemma {:induction false} SplitDotFree(s: seq<byte>)
    requires DOT !in s
    ensures Split(s) == [s]
  {
    if s != [] {
      SplitDotFree(s[1..]);
      assert [s[0]] + s[1..] == s;
    }
  }

  lemma {:induction false} PiecesOfDotFree(labels: seq<seq<byte>>)
    requires DotFree(labels)
    ensures Pieces(labels) == labels
  {
    if labels != [] {
      SplitDotFree(labels[0]);
      PiecesOfDotFree(labels[1..]);
      assert [labels[0]] + labels[1..] == labels;
    }
  }

  /** Without dots inside labels, the cache key's name identifies the labels up to case. */
  lemma DottedInjective(a: seq<seq<byte>>, b: seq<seq<byte>>)
    requires ValidLabels(a) && ValidLabels(b) && DotFree(a) && DotFree(b)
    ensures Dotted(a) == Dotted(b) <==> SameLabels(a, b)
  {
    DottedExact(a, b);
    PiecesOfDotFree(a);
    PiecesOfDotFree(b);
  }

  /** A query with a zeroed header, one question of type A and class IN. */
  function PlainQuery(labels: seq<seq<byte>>): seq<byte>
    requires ValidLabels(labels)
  {
    [0, 0, 0, 0, 0, 1, 0, 0, 0, 0, 0, 0] + (EncodeLabels(labels) + [0]) + [0, 1, 0, 1]
  }

  lemma PlainQueryParses(labels: seq<seq<byte>>)
    requires ValidLabels(labels) && |EncodeLabels(labels)| <= MAX_NAME_LEN
    ensures var raw := PlainQuery(labels);
      && DecodeName(raw, HEADER_LEN) == Some(Decoded(labels, HEADER_LEN + |EncodeLabels(labels)| + 1))
      && Parse(raw).Some? && Parse(raw).value.1 == Dotted(labels)
  {
    hide DecodeName, EncodeLabels, DottedLabels, QueryOf;
    var raw := PlainQuery(labels);
    PlainQueryDecodes(labels);
    DottedLength(labels);
    assert raw[2] == 0 && U16(raw, 4) == 1;
  }

  lemma SliceAt(raw: seq<byte>, at: nat, part: seq<byte>)
    requires at + |part| <= |raw| && raw[at..at + |part|] == part
    ensures At(raw, at, part)
  {
    forall i | 0 <= i < |part| ensures raw[at + i] == part[i] {
      assert raw[at..at + |part|][i] == raw[at + i];
    }
  }

  lemma PlainQueryDecodes(labels: seq<seq<byte>>)
    requires ValidLabels(labels)
    ensures var raw := PlainQuery(labels);
      DecodeName(raw, HEADER_LEN) == Some(Decoded(labels, HEADER_LEN + |EncodeLabels(labels)| + 1))
  {
    hide DecodeName, EncodeLabels;
    var raw, name := PlainQuery(labels), EncodeLabels(labels) + [0];
    assert raw[HEADER_LEN..HEADER_LEN + |name|] == name;
    SliceAt(raw, HEADER_LEN, name);
    EncodingDecodes(raw, HEADER_LEN, labels);
  }

  /** With a dot inside a label two different names share one canonical form, and so one cache key. */
  lemma DottedCollision()
    ensures var a, b := [[97, 46, 98]], [[97], [98]];
      && ValidLabels(a) && ValidLabels(b)
      && var q, r := Parse(PlainQuery(a)), Parse(PlainQuery(b));
      && q.Some? && r.Some? && q.value.1 == r.value.1 && !SameLabels(a, b)
      && DecodeName(PlainQuery(a), HEADER_LEN).Some? && DecodeName(PlainQuery(a), HEADER_LEN).value.labels == a
      && DecodeName(PlainQuery(b), HEADER_LEN).Some? && DecodeName(PlainQuery(b), HEADER_LEN).value.labels == b
  {
    hide Parse, PlainQuery, DecodeName;
    var a: seq<seq<byte>>, b: seq<seq<byte>> := [[97, 46, 98]], [[97], [98]];
    assert a[1..] == [] && b[1..] == [[98]] && b[1..][1..] == [];
    assert EncodeLabels(b[1..]) == [1, 98] && EncodeLabels(a) == [3, 97, 46, 98] && EncodeLabels(b) == [1, 97, 1, 98];
    PlainQueryParses(a);
    PlainQueryParses(b);
    assert LowerAll(a[0]) == [97, 46, 98] && LowerAll(b[0]) == [97] && LowerAll(b[1..][0]) == [98];
    assert DottedLabels(b[1..]) == [98, 46];
    assert Dotted(a) == [97, 46, 98, 46] == Dotted(b);
  }

  // ------------------------------------------------------------------- questions

  /** What acceptance of a query means. */
  lemma Accepted(raw: seq<byte>)
    requires Parse(raw).Some?
    ensures |raw| >= HEADER_LEN && raw[2] < 128 && U16(raw, 4) == 1 && DecodeName(raw, HEADER_LEN).Some?
    ensures var d, q := DecodeName(raw, HEADER_LEN).value, Parse(raw).value.0;
      && ValidLabels(d.labels)
      && At(raw, HEADER_LEN, EncodeLabels(d.labels) + [0])
      && |EncodeLabels(d.labels)| <= MAX_NAME_LEN
      && d.end == HEADER_LEN + |EncodeLabels(d.labels)| + 1
      && q.questionEnd == d.end + 4 <= |raw|
  {
    DecodeIsEncoding(raw, HEADER_LEN);
    var d := DecodeName(raw, HEADER_LEN).value;
    DottedLength(d.labels);
    forall i | 0 <= i < d.end - HEADER_LEN
      ensures raw[HEADER_LEN + i] == (EncodeLabels(d.labels) + [0])[i]
    {
      assert raw[HEADER_LEN + i] == raw[HEADER_LEN..d.end][i];
    }
  }

  /** The span used for matching is the parsed question, and the key exists up to 255 name octets. */
  lemma SpanOfAccepted(raw: seq<byte>)
    requires Parse(raw).Some?
    ensures QuestionSpan(raw) == Some(Parse(raw).value.0.questionEnd)
    ensures DecodeName(raw, HEADER_LEN).Some? && ValidLabels(DecodeName(raw, HEADER_LEN).value.labels)
    ensures QuestionKey(raw).Some? <==> |EncodeLabels(DecodeName(raw, HEADER_LEN).value.labels)| + 1 <= 255
  {
    Accepted(raw);
    DecodeSkips(raw, HEADER_LEN);
  }

  const LONG_LABEL: seq<byte> := seq(63, _ => 97)
  const LONG_NAME: seq<seq<byte>> := [LONG_LABEL, LONG_LABEL, LONG_LABEL, LONG_LABEL[1..]]

  /** A query for a name of 256 encoded octets is accepted and has no question key. */
  lemma LongNameHasNoKey()
    ensures ValidLabels(LONG_NAME) && |EncodeLabels(LONG_NAME)| + 1 == 256
    ensures Parse(PlainQuery(LONG_NAME)).Some? && QuestionKey(PlainQuery(LONG_NAME)).None?
  {
    assert |EncodeLabels([LONG_LABEL[1..]])| == 63;
    assert LONG_NAME[3..] == [LONG_LABEL[1..]];
    assert LONG_NAME[2..][1..] == LONG_NAME[3..] && LONG_NAME[1..][1..] == LONG_NAME[2..];
    assert |EncodeLabels(LONG_NAME[2..])| == 64 + 63;
    assert |EncodeLabels(LONG_NAME[1..])| == 2 * 64 + 63;
    PlainQueryParses(LONG_NAME);
    SpanOfAccepted(PlainQuery(LONG_NAME));
  }

  /** Both names end at `end` and have the same labels up to case. */
  ghost predicate NamesAgree(a: seq<byte>, b: seq<byte>, at: nat, end: nat) {
    && DecodeName(a, at).Some? && DecodeName(a, at).value.end == end
    && DecodeName(b, at).Some? && DecodeName(b, at).value.end == end
    && SameLabels(DecodeName(a, at).value.labels, DecodeName(b, at).value.labels)
  }

  /** Octetwise folded equality of two names is equality of labels up to case. */
  lemma {:induction false} FoldedNames(a: seq<byte>, b: seq<byte>, at: nat, end: nat)
    requires at < end <= |a| && end <= |b|
    requires DecodeName(a, at).Some? && DecodeName(a, at).value.end == end
    ensures FoldEq(a, b, at, end) <==> NamesAgree(a, b, at, end)
    decreases end - at
  {
    hide *;
    DecodeUnfold(a, at);
    if a[at] == 0 || b[at] != a[at] {
      FoldedEnd(a, b, at, end);
    } else {
      var next := at + 1 + a[at] as nat;
      FoldedNames(a, b, next, end);
      FoldedLabel(a, b, at, end);
      FoldSplit(a, b, at, next, end);
    }
  }

  lemma DecodeUnfold(a: seq<byte>, at: nat)
    requires DecodeName(a, at).Some?
    ensures at < |a| && a[at] < 64
    ensures a[at] == 0 ==> DecodeName(a, at).value == Decoded([], at + 1)
    ensures a[at] > 0 ==>
      var next := at + 1 + a[at] as nat;
      && next < DecodeName(a, at).value.end <= |a| && DecodeName(a, next).Some?
      && DecodeName(a, next).value.end == DecodeName(a, at).value.end
      && DecodeName(a, at).value.labels == [a[at + 1..next]] + DecodeName(a, next).value.labels
  {
  }

  lemma FoldedEnd(a: seq<byte>, b: seq<byte>, at: nat, end: nat)
    requires at < end <= |a| && end <= |b| && (a[at] == 0 || b[at] != a[at])
    requires DecodeName(a, at).Some? && DecodeName(a, at).value.end == end
    ensures FoldEq(a, b, at, end) <==> NamesAgree(a, b, at, end)
  {
    if b[at] != a[at] && DecodeName(b, at).Some? {
      DifferentLength(a, b, at);
    }
  }

  lemma FoldedLabel(a: seq<byte>, b: seq<byte>, at: nat, end: nat)
    requires at < end <= |a| && end <= |b| && b[at] == a[at] > 0
    requires DecodeName(a, at).Some? && DecodeName(a, at).value.end == end
    ensures at + 1 + a[at] as nat <= end
    ensures NamesAgree(a, b, at, end) <==>
      FoldEq(a, b, at + 1, at + 1 + a[at] as nat) && NamesAgree(a, b, at + 1 + a[at] as nat, end)
  {
    hide SameLabels, FoldEq;
    var next := at + 1 + a[at] as nat;
    FoldSlice(a, b, at + 1, next);
    if DecodeName(b, at).Some? {
      var la, lb := DecodeName(a, at).value.labels, DecodeName(b, at).value.labels;
      assert la[0] == a[at + 1..next] && la[1..] == DecodeName(a, next).value.labels;
      assert lb[0] == b[at + 1..next] && lb[1..] == DecodeName(b, next).value.labels;
      SameLabelsCons(la, lb);
    }
  }

  lemma FoldJoin(a: seq<byte>, b: seq<byte>, lo: nat, mid: nat, hi: nat)
    requires lo <= mid <= hi <= |a| && hi <= |b|
    ensures FoldEq(a, b, lo, hi) <==> FoldEq(a, b, lo, mid) && FoldEq(a, b, mid, hi)
  {
  }

  lemma FoldSplit(a: seq<byte>, b: seq<byte>, at: nat, next: nat, end: nat)
    requires at < next <= end <= |a| && end <= |b| && a[at] == b[at]
    ensures FoldEq(a, b, at, end) <==> FoldEq(a, b, at + 1, next) && FoldEq(a, b, next, end)
  {
  }

  /** Octets `lo` to `hi` agree up to ASCII case. */
  ghost predicate FoldEq(a: seq<byte>, b: seq<byte>, lo: nat, hi: nat)
    requires hi <= |a| && hi <= |b|
  {
    forall i :: lo <= i < hi ==> Lower(a[i]) == Lower(b[i])
  }

  lemma FoldSlice(a: seq<byte>, b: seq<byte>, lo: nat, hi: nat)
    requires lo <= hi <= |a| && hi <= |b|
    ensures QuestionsMatch(a[lo..hi], b[lo..hi]) <==> FoldEq(a, b, lo, hi)
    ensures QuestionsMatch(b[lo..hi], a[lo..hi]) <==> FoldEq(a, b, lo, hi)
    ensures LowerAll(a[lo..hi]) == LowerAll(b[lo..hi]) <==> FoldEq(a, b, lo, hi)
  {
    var x, y := a[lo..hi], b[lo..hi];
    assert forall i :: lo <= i < hi ==> x[i - lo] == a[i] && y[i - lo] == b[i];
    assert forall i :: 0 <= i < hi - lo ==> LowerAll(x)[i] == Lower(x[i]) && LowerAll(y)[i] == Lower(y[i]);
    if LowerAll(x) == LowerAll(y) {
      assert forall i :: 0 <= i < hi - lo ==> Lower(x[i]) == Lower(y[i]);
    }
  }

  /** First labels of different lengths are different. */
  lemma DifferentLength(a: seq<byte>, b: seq<byte>, at: nat)
    requires at < |a| && at < |b| && a[at] != b[at]
    requires DecodeName(a, at).Some? && DecodeName(b, at).Some?
    ensures !SameLabels(DecodeName(a, at).value.labels, DecodeName(b, at).value.labels)
  {
    var la, lb := DecodeName(a, at).value.labels, DecodeName(b, at).value.labels;
    assert a[at] > 0 ==> |la| > 0 && |LowerAll(la[0])| == a[at] as nat;
    assert b[at] > 0 ==> |lb| > 0 && |LowerAll(lb[0])| == b[at] as nat;
  }

  lemma {:induction false} SameLabelsSameLength(a: seq<seq<byte>>, b: seq<seq<byte>>)
    requires ValidLabels(a) && ValidLabels(b) && SameLabels(a, b)
    ensures |EncodeLabels(a)| == |EncodeLabels(b)|
    decreases |a|
  {
    if a != [] {
      assert |LowerAll(a[0])| == |LowerAll(b[0])|;
      SameLabelsCons(a, b);
      SameLabelsSameLength(a[1..], b[1..]);
    }
  }

  /** `msg` asks one question: these labels up to case, and QTYPE and QCLASS octets equal up to folding. */
  ghost predicate AsksSame(raw: seq<byte>, d: Decoded, msg: seq<byte>)
    requires d.end + 4 <= |raw|
  {
    && |msg| >= HEADER_LEN && U16(msg, 4) == 1
    && var dm := DecodeName(msg, HEADER_LEN);
    && dm.Some? && dm.value.end + 4 <= |msg|
    && SameLabels(d.labels, dm.value.labels)
    && QuestionsMatch(raw[d.end..d.end + 4], msg[dm.value.end..dm.value.end + 4])
  }

  /** A question key accepts exactly the messages that ask the same question. */
  lemma KeyMatchesExactly(raw: seq<byte>, msg: seq<byte>)
    requires Parse(raw).Some? && QuestionKey(raw).Some?
    ensures DecodeName(raw, HEADER_LEN).Some? && DecodeName(raw, HEADER_LEN).value.end + 4 <= |raw|
    ensures KeyMatches(QuestionKey(raw).value, msg) <==> AsksSame(raw, DecodeName(raw, HEADER_LEN).value, msg)
  {
    Accepted(raw);
    SpanOfAccepted(raw);
    var d := DecodeName(raw, HEADER_LEN).value;
    if KeyMatches(QuestionKey(raw).value, msg) {
      MatchAsksSame(raw, d, msg);
    }
    if AsksSame(raw, d, msg) {
      AskedMatches(raw, d, msg);
    }
  }

  lemma MatchAsksSame(raw: seq<byte>, d: Decoded, msg: seq<byte>)
    requires DecodeName(raw, HEADER_LEN) == Some(d) && d.end + 4 <= |raw|
    requires KeyMatches(raw[HEADER_LEN..d.end + 4], msg)
    ensures AsksSame(raw, d, msg)
  {
    hide DecodeName, SkipName, FoldEq;
    assert QuestionSpan(msg).value == d.end + 4;
    FoldSlice(raw, msg, HEADER_LEN, d.end + 4);
    FoldSlice(raw, msg, d.end, d.end + 4);
    FoldJoin(raw, msg, HEADER_LEN, d.end, d.end + 4);
    FoldedNames(raw, msg, HEADER_LEN, d.end);
  }

  lemma SameLabelsSameEnd(raw: seq<byte>, msg: seq<byte>, at: nat)
    requires DecodeName(raw, at).Some? && DecodeName(msg, at).Some?
    requires SameLabels(DecodeName(raw, at).value.labels, DecodeName(msg, at).value.labels)
    ensures DecodeName(raw, at).value.end == DecodeName(msg, at).value.end
  {
    var d, dm := DecodeName(raw, at).value, DecodeName(msg, at).value;
    DecodeIsEncoding(raw, at);
    DecodeIsEncoding(msg, at);
    SameLabelsSameLength(d.labels, dm.labels);
    assert |raw[at..d.end]| == |msg[at..dm.end]|;
  }

  lemma AskedMatches(raw: seq<byte>, d: Decoded, msg: seq<byte>)
    requires DecodeName(raw, HEADER_LEN) == Some(d) && d.end + 4 <= |raw|
    requires AsksSame(raw, d, msg)
    ensures KeyMatches(raw[HEADER_LEN..d.end + 4], msg)
  {
    hide DecodeName, SkipName, SameLabels, FoldEq, QuestionsMatch;
    SameLabelsSameEnd(raw, msg, HEADER_LEN);
    DecodeSkips(msg, HEADER_LEN);
    FoldedNames(raw, msg, HEADER_LEN, d.end);
    FoldSlice(raw, msg, d.end, d.end + 4);
    FoldJoin(raw, msg, HEADER_LEN, d.end, d.end + 4);
    FoldSlice(raw, msg, HEADER_LEN, d.end + 4);
  }

  // -------------------------------------------------- questions of cached answers

  /** As AsksSame, but telling names apart only as canonical names do. */
  ghost predicate AsksLike(raw: seq<byte>, d: Decoded, msg: seq<byte>)
    requires d.end + 4 <= |raw|
  {
    && |msg| >= HEADER_LEN && U16(msg, 4) == 1
    && var dm := DecodeName(msg, HEADER_LEN);
    && dm.Some? && dm.value.end + 4 <= |msg|
    && SameLabels(Pieces(d.labels), Pieces(dm.value.labels))
    && QuestionsMatch(raw[d.end..d.end + 4], msg[dm.value.end..dm.value.end + 4])
  }

  lemma {:induction false} SameLabelsDotted(a: seq<seq<byte>>, b: seq<seq<byte>>)
    requires SameLabels(a, b)
    ensures Dotted(a) == Dotted(b) && DottedLabels(a) == DottedLabels(b)
    decreases |a|
  {
    if a != [] {
      SameLabelsCons(a, b);
      SameLabelsDotted(a[1..], b[1..]);
    }
  }

  /** Without dots inside labels the two notions of asking the same agree. */
  lemma AsksLikeDotFree(raw: seq<byte>, d: Decoded, msg: seq<byte>)
    requires d.end + 4 <= |raw| && AsksLike(raw, d, msg)
    requires DotFree(d.labels) && DotFree(DecodeName(msg, HEADER_LEN).value.labels)
    ensures AsksSame(raw, d, msg)
  {
    PiecesOfDotFree(d.labels);
    PiecesOfDotFree(DecodeName(msg, HEADER_LEN).value.labels);
  }

  /** Two accepted queries with the same canonical name, type and class are answered by the same messages. */
  lemma SameKeyAsksLike(raw: seq<byte>, request: seq<byte>, msg: seq<byte>)
    requires Parse(raw).Some? && Parse(request).Some? && Parse(raw).value.1 == Parse(request).value.1
    requires Parse(raw).value.0.qtype == Parse(request).value.0.qtype
    requires Parse(raw).value.0.qclass == Parse(request).value.0.qclass
    requires QuestionKey(request).Some? && KeyMatches(QuestionKey(request).value, msg)
    ensures DecodeName(raw, HEADER_LEN).Some? && DecodeName(raw, HEADER_LEN).value.end + 4 <= |raw|
    ensures AsksLike(raw, DecodeName(raw, HEADER_LEN).value, msg)
  {
    hide Parse, DecodeName, KeyMatches, QuestionKey, Pieces, SameLabels, AsksSame, AsksLike;
    Accepted(raw);
    Accepted(request);
    KeyMatchesExactly(request, msg);
    SameNameExactly(raw, request);
    var d, r := DecodeName(raw, HEADER_LEN).value, DecodeName(request, HEADER_LEN).value;
    TypeOctets(raw, d, request, r);
    LikeFromSame(raw, d, request, r, msg);
  }

  lemma LikeFromSame(raw: seq<byte>, d: Decoded, request: seq<byte>, r: Decoded, msg: seq<byte>)
    requires d.end + 4 <= |raw| && r.end + 4 <= |request| && raw[d.end..d.end + 4] == request[r.end..r.end + 4]
    requires ValidLabels(r.labels) && SameLabels(Pieces(d.labels), Pieces(r.labels)) && AsksSame(request, r, msg)
    ensures AsksLike(raw, d, msg)
  {
    hide DecodeName, SameLabels, Pieces, ValidLabels, QuestionsMatch;
    var m := DecodeName(msg, HEADER_LEN).value;
    DecodeIsEncoding(msg, HEADER_LEN);
    SameLabelsDotted(r.labels, m.labels);
    DottedExact(r.labels, m.labels);
    SameLabelsChain(Pieces(d.labels), Pieces(r.labels), Pieces(m.labels));
  }

  lemma SameLabelsChain(a: seq<seq<byte>>, b: seq<seq<byte>>, c: seq<seq<byte>>)
    requires SameLabels(a, b) && SameLabels(b, c)
    ensures SameLabels(a, c)
  {
  }

  lemma TypeOctets(raw: seq<byte>, d: Decoded, request: seq<byte>, r: Decoded)
    requires Parse(raw).Some? && DecodeName(raw, HEADER_LEN) == Some(d) && d.end + 4 <= |raw|
    requires Parse(request).Some? && DecodeName(request, HEADER_LEN) == Some(r) && r.end + 4 <= |request|
    requires Parse(raw).value.0.qtype == Parse(request).value.0.qtype
    requires Parse(raw).value.0.qclass == Parse(request).value.0.qclass
    ensures raw[d.end..d.end + 4] == request[r.end..r.end + 4]
  {
    hide *;
    QueryTypes(raw, d);
    QueryTypes(request, r);
    U16Octets(raw, d.end, request, r.end);
    U16Octets(raw, d.end + 2, request, r.end + 2);
  }

  lemma QueryTypes(raw: seq<byte>, d: Decoded)
    requires Parse(raw).Some? && DecodeName(raw, HEADER_LEN) == Some(d) && d.end + 4 <= |raw|
    ensures Parse(raw).value.0.qtype == U16(raw, d.end) && Parse(raw).value.0.qclass == U16(raw, d.end + 2)
  {
    hide DecodeName, FindOpt, Dotted;
  }

  lemma U16Octets(a: seq<byte>, i: nat, b: seq<byte>, j: nat)
    requires i + 2 <= |a| && j + 2 <= |b| && U16(a, i) == U16(b, j)
    ensures a[i] == b[j] && a[i + 1] == b[j + 1]
  {
  }

  /** Aging a message and setting its ID leave its question alone. */
  lemma ServedQuestion(wire: seq<byte>, elapsed: nat, forceZero: bool, id: nat)
    requires |wire| >= HEADER_LEN && U16(wire, 4) == 1 && id < U16_LIMIT
    requires DecodeName(wire, HEADER_LEN).Some? && DecodeName(wire, HEADER_LEN).value.end + 4 <= |wire|
    ensures var msg, end := SetId(AgeOut(wire, elapsed, forceZero), id), DecodeName(wire, HEADER_LEN).value.end;
      && |msg| == |wire| && U16(msg, 4) == 1 && DecodeName(msg, HEADER_LEN) == DecodeName(wire, HEADER_LEN)
      && msg[end..end + 4] == wire[end..end + 4]
  {
    hide AgeOut, DecodeName;
    AgedQuestion(wire, elapsed, forceZero);
    QuestionKept(wire, SetId(AgeOut(wire, elapsed, forceZero), id), DecodeName(wire, HEADER_LEN).value);
  }

  /** A served message asks what the cached one asks. */
  lemma ServedAsksLike(raw: seq<byte>, d: Decoded, wire: seq<byte>, elapsed: nat, forceZero: bool, id: nat)
    requires d.end + 4 <= |raw| && AsksLike(raw, d, wire) && id < U16_LIMIT
    ensures AsksLike(raw, d, SetId(AgeOut(wire, elapsed, forceZero), id))
    ensures IdOf(SetId(AgeOut(wire, elapsed, forceZero), id)) == id
  {
    hide DecodeName, AgeOut, SameLabels, Pieces, QuestionsMatch;
    ServedQuestion(wire, elapsed, forceZero, id);
  }

  lemma AgedQuestion(wire: seq<byte>, elapsed: nat, forceZero: bool)
    requires |wire| >= HEADER_LEN && U16(wire, 4) == 1
    requires DecodeName(wire, HEADER_LEN).Some? && DecodeName(wire, HEADER_LEN).value.end + 4 <= |wire|
    ensures var out := AgeOut(wire, elapsed, forceZero);
      |out| == |wire| && forall i :: 0 <= i < DecodeName(wire, HEADER_LEN).value.end + 4 ==> out[i] == wire[i]
  {
    AgeOutOutside(wire, elapsed, forceZero);
    RecordsAfterQuestion(wire);
    hide AgeOut, Layout, DecodeName;
    NoTtlBefore(Layout(wire).recs, DecodeName(wire, HEADER_LEN).value.end + 4);
  }

  lemma RecordsAfterQuestion(wire: seq<byte>)
    requires |wire| >= HEADER_LEN && U16(wire, 4) == 1
    requires DecodeName(wire, HEADER_LEN).Some? && DecodeName(wire, HEADER_LEN).value.end + 4 <= |wire|
    ensures var recs := Layout(wire).recs;
      forall k :: 0 <= k < |recs| ==> recs[k].at >= DecodeName(wire, HEADER_LEN).value.end + 4
  {
    var end := DecodeName(wire, HEADER_LEN).value.end;
    DecodeSkips(wire, HEADER_LEN);
    assert WalkQuestions(wire, end + 4, 0) == Some(end + 4);
    assert WalkQuestions(wire, HEADER_LEN, 1) == Some(end + 4);
  }

  lemma QuestionKept(wire: seq<byte>, msg: seq<byte>, d: Decoded)
    requires |msg| == |wire| >= HEADER_LEN && DecodeName(wire, HEADER_LEN) == Some(d) && d.end + 4 <= |wire|
    requires forall i :: 2 <= i < d.end + 4 ==> msg[i] == wire[i]
    ensures U16(msg, 4) == U16(wire, 4) && DecodeName(msg, HEADER_LEN) == Some(d)
    ensures msg[d.end..d.end + 4] == wire[d.end..d.end + 4]
  {
    hide DecodeName, EncodeLabels, At;
    DecodeIsEncoding(wire, HEADER_LEN);
    var name := EncodeLabels(d.labels) + [0];
    assert msg[HEADER_LEN..d.end] == wire[HEADER_LEN..d.end] == name;
    SliceAt(msg, HEADER_LEN, name);
    EncodingDecodes(msg, HEADER_LEN, d.labels);
  }

  // ------------------------------------------------------------------- responses

  /** The message with its QR bit cleared, so that it reads as a query again. */
  function ClearQr(msg: seq<byte>): seq<byte>
    requires |msg| >= HEADER_LEN
  {
    if msg[2] >= 128 then msg[2 := msg[2] - 128] else msg
  }

  /** Arguments `synthesize` is called with: an accepted query and its parse. */
  ghost predicate Request(raw: seq<byte>, q: ParsedQuery, answer: Option<Answer>) {
    Parse(raw).Some? && q == Parse(raw).value.0 && (answer.Some? ==> answer.value.Valid())
  }

  lemma RequestBounds(raw: seq<byte>, q: ParsedQuery, answer: Option<Answer>)
    requires Request(raw, q, answer)
    ensures q.id < U16_LIMIT && q.opcode < 16 && HEADER_LEN + 5 <= q.questionEnd <= |raw|
    ensures q.questionEnd - HEADER_LEN <= 260 && (q.dnssecOk ==> q.hasOpt)
  {
    Accepted(raw);
  }

  /** Header fields of a synthesized message, with or without its QR bit. */
  ghost predicate SynthesizedHeader(msg: seq<byte>, q: ParsedQuery, rcode: nat, answered: bool, qr: bool)
    requires |msg| >= HEADER_LEN
  {
    && U16(msg, 0) == q.id && U16(msg, 4) == 1
    && U16(msg, 6) == Bit(answered) && U16(msg, 8) == 0 && U16(msg, 10) == Bit(q.hasOpt)
    && msg[2] as nat == Bit(qr) * 128 + q.opcode * 8 + Bit(q.recursionDesired)
    && msg[3] as nat == 128 + Bit(q.checkingDisabled) * 16 + rcode % 16
  }

  lemma HeaderFields(q: ParsedQuery, rcode: nat, answered: bool)
    requires q.id < U16_LIMIT && q.opcode < 16
    ensures SynthesizedHeader(ResponseHeader(q, rcode, answered), q, rcode, answered, true)
  {
  }

  lemma HeaderAt(msg: seq<byte>, h: seq<byte>, q: ParsedQuery, rcode: nat, answered: bool, qr: bool)
    requires |h| == HEADER_LEN && At(msg, 0, h) && SynthesizedHeader(h, q, rcode, answered, qr)
    ensures SynthesizedHeader(msg, q, rcode, answered, qr)
  {
    assert forall i :: 0 <= i < HEADER_LEN ==> msg[i] == h[i] by {
      forall i | 0 <= i < HEADER_LEN ensures msg[i] == h[i] {
        assert msg[0 + i] == h[i];
      }
    }
  }

  /** Where each part of a synthesized message stands after its header. */
  ghost predicate SynthesizedBody(msg: seq<byte>, raw: seq<byte>, q: ParsedQuery, answer: Option<Answer>)
    requires Request(raw, q, answer) && HEADER_LEN <= q.questionEnd <= |raw|
  {
    && |msg| == q.questionEnd + |AnswerRecord(answer)| + |OptRecord(q)|
    && At(msg, HEADER_LEN, raw[HEADER_LEN..q.questionEnd])
    && At(msg, q.questionEnd, AnswerRecord(answer))
    && At(msg, q.questionEnd + |AnswerRecord(answer)|, OptRecord(q))
  }

  lemma FourParts(h: seq<byte>, question: seq<byte>, a: seq<byte>, opt: seq<byte>)
    ensures var msg := h + question + a + opt;
      && At(msg, 0, h) && At(msg, |h|, question) && At(msg, |h| + |question|, a)
      && At(msg, |h| + |question| + |a|, opt)
  {
    var msg := h + question + a + opt;
    assert msg == h + (question + (a + opt));
    AtConcat(msg, 0, h, question + (a + opt));
    AtConcat(msg, |h|, question, a + opt);
    AtConcat(msg, |h| + |question|, a, opt);
  }

  lemma ClearQrKeeps(msg: seq<byte>, at: nat, part: seq<byte>)
    requires |msg| >= HEADER_LEN && at >= HEADER_LEN && At(msg, at, part)
    ensures At(ClearQr(msg), at, part)
  {
  }

  lemma SynthesizedMessage(raw: seq<byte>, q: ParsedQuery, rcode: nat, answer: Option<Answer>)
    requires Request(raw, q, answer)
    requires q.id < U16_LIMIT && q.opcode < 16 && HEADER_LEN <= q.questionEnd <= |raw|
    ensures var msg := Synthesize(raw, q, rcode, answer);
      SynthesizedBody(msg, raw, q, answer) && SynthesizedHeader(msg, q, rcode, answer.Some?, true)
  {
    var h := ResponseHeader(q, rcode, answer.Some?);
    FourParts(h, raw[HEADER_LEN..q.questionEnd], AnswerRecord(answer), OptRecord(q));
    HeaderFields(q, rcode, answer.Some?);
    HeaderAt(Synthesize(raw, q, rcode, answer), h, q, rcode, answer.Some?, true);
  }

  lemma ClearedMessage(msg: seq<byte>, raw: seq<byte>, q: ParsedQuery, rcode: nat, answer: Option<Answer>)
    requires Request(raw, q, answer) && HEADER_LEN <= q.questionEnd <= |raw|
    requires SynthesizedBody(msg, raw, q, answer) && SynthesizedHeader(msg, q, rcode, answer.Some?, true)
    ensures SynthesizedBody(ClearQr(msg), raw, q, answer)
    ensures SynthesizedHeader(ClearQr(msg), q, rcode, answer.Some?, false)
  {
    hide Parse, At, OptRecord, AnswerRecord;
    ClearQrKeeps(msg, HEADER_LEN, raw[HEADER_LEN..q.questionEnd]);
    ClearQrKeeps(msg, q.questionEnd, AnswerRecord(answer));
    ClearQrKeeps(msg, q.questionEnd + |AnswerRecord(answer)|, OptRecord(q));
  }

  lemma CopyAt(msg: seq<byte>, raw: seq<byte>, lo: nat, hi: nat)
    requires lo <= hi <= |raw| && At(msg, lo, raw[lo..hi])
    ensures hi <= |msg| && forall i :: lo <= i < hi ==> msg[i] == raw[i]
  {
    forall i | lo <= i < hi ensures msg[i] == raw[i] {
      assert msg[lo + (i - lo)] == raw[lo..hi][i - lo];
    }
  }

  lemma {:induction false} SameName(msg: seq<byte>, raw: seq<byte>, at: nat)
    requires DecodeName(raw, at).Some? && DecodeName(raw, at).value.end <= |msg|
    requires forall i :: at <= i < DecodeName(raw, at).value.end ==> msg[i] == raw[i]
    ensures DecodeName(msg, at) == DecodeName(raw, at)
    decreases |raw| - at
  {
    if raw[at] > 0 {
      var next := at + 1 + raw[at] as nat;
      SameName(msg, raw, next);
      assert msg[at + 1..next] == raw[at + 1..next];
    }
  }

  /** The question of a synthesized message decodes like the request's. */
  lemma SynthesizedQuestion(msg: seq<byte>, raw: seq<byte>, q: ParsedQuery, answer: Option<Answer>)
    requires Request(raw, q, answer) && HEADER_LEN <= q.questionEnd <= |raw|
    requires SynthesizedBody(msg, raw, q, answer)
    ensures DecodeName(raw, HEADER_LEN).Some? && DecodeName(msg, HEADER_LEN) == DecodeName(raw, HEADER_LEN)
    ensures var end := DecodeName(raw, HEADER_LEN).value.end;
      end + 4 == q.questionEnd && U16(msg, end) == q.qtype && U16(msg, end + 2) == q.qclass
  {
    Accepted(raw);
    CopyAt(msg, raw, HEADER_LEN, q.questionEnd);
    SameName(msg, raw, HEADER_LEN);
  }

  lemma AnswerOctets(msg: seq<byte>, at: nat, answer: Option<Answer>)
    requires answer.Some? && answer.value.Valid() && At(msg, at, AnswerRecord(answer))
    ensures at + 16 <= |msg| && SkipName(msg, at) == Some(at + 2)
    ensures U16(msg, at + 2) == 1 && U32(msg, at + 6) == answer.value.ttl && U16(msg, at + 10) == 4
  {
    var r := AnswerRecord(answer);
    assert forall i :: 0 <= i < 12 ==> msg[at + i] == r[i];
    assert msg[at] == r[0] && msg[at + 2] == r[2] && msg[at + 3] == r[3];
    assert r[6..10] == U32Bytes(answer.value.ttl);
    assert msg[at + 6] == r[6] && msg[at + 7] == r[7] && msg[at + 8] == r[8] && msg[at + 9] == r[9];
    assert r[6] == r[6..10][0] && r[7] == r[6..10][1] && r[8] == r[6..10][2] && r[9] == r[6..10][3];
    assert msg[at + 10] == r[10] && msg[at + 11] == r[11];
  }

  lemma OptOctets(msg: seq<byte>, at: nat, q: ParsedQuery)
    requires q.hasOpt && At(msg, at, OptRecord(q))
    ensures at + 11 <= |msg| && SkipName(msg, at) == Some(at + 1)
    ensures U16(msg, at + 1) == OPT_RECORD_TYPE && U16(msg, at + 9) == 0
    ensures msg[at + 7] >= 128 <==> q.dnssecOk
  {
    var r := OptRecord(q);
    assert msg[at + 0] == r[0] && msg[at + 1] == r[1] && msg[at + 2] == r[2];
    assert r[5..9] == U32Bytes(if q.dnssecOk then 32768 else 0);
    assert msg[at + 7] == r[7] == r[5..9][2];
    assert msg[at + 9] == r[9] && msg[at + 10] == r[10];
  }

  /** `find_opt` reads the echo back. */
  lemma SynthesizedOpt(msg: seq<byte>, raw: seq<byte>, q: ParsedQuery, rcode: nat, answer: Option<Answer>, qr: bool)
    requires Request(raw, q, answer) && HEADER_LEN <= q.questionEnd <= |raw|
    requires SynthesizedBody(msg, raw, q, answer) && SynthesizedHeader(msg, q, rcode, answer.Some?, qr)
    requires q.dnssecOk ==> q.hasOpt
    ensures FindOpt(msg, q.questionEnd) == Some((q.hasOpt, q.dnssecOk))
  {
    hide Parse, At, OptRecord, U32, SkipName;
    var at := q.questionEnd;
    var after := at + |AnswerRecord(answer)|;
    if q.hasOpt {
      OptOctets(msg, after, q);
    }
    assert FindOptFrom(msg, after, 0, Bit(q.hasOpt)) == Some((q.hasOpt, q.dnssecOk));
    if answer.Some? {
      AnswerOctets(msg, at, answer);
    }
  }

  /**
   Round trip: a synthesized answer with its QR bit cleared parses back to the very query it answers,
   EDNS presence, DO and CD included, under the same canonical name.
   */
  lemma SynthesizeRoundTrip(raw: seq<byte>, q: ParsedQuery, rcode: nat, answer: Option<Answer>)
    requires Request(raw, q, answer)
    ensures q.id < U16_LIMIT && q.opcode < 16 && HEADER_LEN <= q.questionEnd <= |raw|
    ensures Parse(ClearQr(Synthesize(raw, q, rcode, answer))) == Some((q, Parse(raw).value.1))
  {
    RequestBounds(raw, q, answer);
    SynthesizedMessage(raw, q, rcode, answer);
    var full := Synthesize(raw, q, rcode, answer);
    ClearedMessage(full, raw, q, rcode, answer);
    ClearedParses(ClearQr(full), raw, q, rcode, answer);
  }

  lemma ClearedParses(msg: seq<byte>, raw: seq<byte>, q: ParsedQuery, rcode: nat, answer: Option<Answer>)
    requires Request(raw, q, answer) && HEADER_LEN <= q.questionEnd <= |raw| && q.opcode < 16
    requires q.dnssecOk ==> q.hasOpt
    requires SynthesizedBody(msg, raw, q, answer) && SynthesizedHeader(msg, q, rcode, answer.Some?, false)
    ensures Parse(msg) == Some((q, Parse(raw).value.1))
  {
    SynthesizedQuestion(msg, raw, q, answer);
    SynthesizedOpt(msg, raw, q, rcode, answer, false);
    HeaderBits(msg, q, rcode, answer.Some?);
  }

  lemma HeaderBits(msg: seq<byte>, q: ParsedQuery, rcode: nat, answered: bool)
    requires |msg| >= HEADER_LEN && q.opcode < 16 && SynthesizedHeader(msg, q, rcode, answered, false)
    ensures msg[2] < 128 && msg[2] as nat / 8 % 16 == q.opcode
    ensures msg[2] % 2 == 1 <==> q.recursionDesired
    ensures msg[3] / 16 % 2 == 1 <==> q.checkingDisabled
  {
  }

  lemma RecordLengths(answer: Option<Answer>, q: ParsedQuery)
    requires answer.Some? ==> answer.value.Valid()
    ensures |AnswerRecord(answer)| == 16 * Bit(answer.Some?) && |OptRecord(q)| == 11 * Bit(q.hasOpt)
  {
  }

  lemma SynthesizedRecords(msg: seq<byte>, at: nat, q: ParsedQuery, answer: Option<Answer>)
    requires answer.Some? ==> answer.value.Valid()
    requires |msg| == at + |AnswerRecord(answer)| + |OptRecord(q)|
    requires At(msg, at, AnswerRecord(answer)) && At(msg, at + |AnswerRecord(answer)|, OptRecord(q))
    ensures Walk(msg, at, Bit(answer.Some?) + Bit(q.hasOpt)).end == Some(|msg|)
  {
    hide At, OptRecord, AnswerRecord, SkipName;
    RecordLengths(answer, q);
    var after := at + |AnswerRecord(answer)|;
    if q.hasOpt {
      OptOctets(msg, after, q);
      assert Walk(msg, |msg|, 0).end == Some(|msg|);
    }
    assert Walk(msg, after, Bit(q.hasOpt)).end == Some(|msg|);
    if answer.Some? {
      AnswerOctets(msg, at, answer);
    }
  }

  /** A synthesized answer is small, and the record walk consumes it to the last octet. */
  lemma SynthesizeWalks(raw: seq<byte>, q: ParsedQuery, rcode: nat, answer: Option<Answer>)
    requires Request(raw, q, answer)
    ensures q.id < U16_LIMIT && q.opcode < 16 && HEADER_LEN <= q.questionEnd <= |raw|
    ensures var msg := Synthesize(raw, q, rcode, answer);
      |msg| <= 299 && Layout(msg).end == Some(|msg|)
  {
    RequestBounds(raw, q, answer);
    SynthesizedMessage(raw, q, rcode, answer);
    var msg := Synthesize(raw, q, rcode, answer);
    SynthesizedWalks(msg, raw, q, rcode, answer);
  }

  lemma SynthesizedWalks(msg: seq<byte>, raw: seq<byte>, q: ParsedQuery, rcode: nat, answer: Option<Answer>)
    requires Request(raw, q, answer) && HEADER_LEN <= q.questionEnd <= |raw| && q.questionEnd <= HEADER_LEN + 260
    requires SynthesizedBody(msg, raw, q, answer) && SynthesizedHeader(msg, q, rcode, answer.Some?, true)
    ensures |msg| <= 299 && Layout(msg).end == Some(|msg|)
  {
    SynthesizedQuestion(msg, raw, q, answer);
    DecodeSkips(msg, HEADER_LEN);
    assert WalkQuestions(msg, q.questionEnd, 0) == Some(q.questionEnd);
    assert WalkQuestions(msg, HEADER_LEN, 1) == Some(q.questionEnd);
    SynthesizedRecords(msg, q.questionEnd, q, answer);
  }

  /** The one answer record of a message, read back at the end of its question: type A with this address and TTL. */
  ghost predicate Carries(msg: seq<byte>, questionEnd: nat, answer: Answer) {
    && questionEnd + 16 <= |msg| && U16(msg, 6) == 1 && SkipName(msg, questionEnd) == Some(questionEnd + 2)
    && U16(msg, questionEnd + 2) == 1 && U32(msg, questionEnd + 6) == answer.ttl
    && U16(msg, questionEnd + 10) == 4 && msg[questionEnd + 12..questionEnd + 16] == answer.ip
  }

  /** A synthesized message is a response with the given code that carries exactly the given answer. */
  lemma SynthesizeSays(raw: seq<byte>, q: ParsedQuery, rcode: nat, answer: Option<Answer>)
    requires Request(raw, q, answer)
    ensures q.id < U16_LIMIT && q.opcode < 16 && HEADER_LEN <= q.questionEnd <= |raw|
    ensures var msg := Synthesize(raw, q, rcode, answer);
      && |msg| >= HEADER_LEN && msg[2] >= 128 && SaysFlags(msg, q, rcode)
      && (if answer.Some? then Carries(msg, q.questionEnd, answer.value) else U16(msg, 6) == 0)
      && U16(msg, 8) == 0 && if q.hasOpt then U16(msg, 10) == 1 && EndsWithOpt(msg, q.dnssecOk) else U16(msg, 10) == 0
  {
    hide Parse, Synthesize, SynthesizedBody, SynthesizedHeader, Carries, AnswerRecord, OptRecord, SaysFlags,
      EndsWithOpt;
    RequestBounds(raw, q, answer);
    SynthesizedMessage(raw, q, rcode, answer);
    SaysSo(Synthesize(raw, q, rcode, answer), raw, q, rcode, answer);
  }

  lemma SaysSo(msg: seq<byte>, raw: seq<byte>, q: ParsedQuery, rcode: nat, answer: Option<Answer>)
    requires Request(raw, q, answer) && HEADER_LEN <= q.questionEnd <= |raw|
    requires SynthesizedBody(msg, raw, q, answer) && SynthesizedHeader(msg, q, rcode, answer.Some?, true)
    ensures |msg| >= HEADER_LEN && msg[2] >= 128 && SaysFlags(msg, q, rcode)
    ensures if answer.Some? then Carries(msg, q.questionEnd, answer.value) else U16(msg, 6) == 0
    ensures U16(msg, 8) == 0
    ensures if q.hasOpt then U16(msg, 10) == 1 && EndsWithOpt(msg, q.dnssecOk) else U16(msg, 10) == 0
  {
    hide Parse, AnswerRecord, OptRecord, Carries, EndsWithOpt;
    if answer.Some? {
      CarriesAt(msg, q.questionEnd, answer.value);
    }
    if q.hasOpt {
      EndsAt(msg, q.questionEnd + |AnswerRecord(answer)|, q);
    }
  }

  /** The flag octets of a response: QR and RA set, the query's opcode, RD and CD, and the code; AA, TC and AD clear. */
  ghost predicate SaysFlags(msg: seq<byte>, q: ParsedQuery, rcode: nat)
    requires |msg| >= HEADER_LEN
  {
    && msg[2] as nat == 128 + q.opcode * 8 + (if q.recursionDesired then 1 else 0)
    && msg[3] as nat == 128 + (if q.checkingDisabled then 16 else 0) + rcode % 16
  }

  /** The last record is an OPT with a payload size of 1232 octets and this DO bit. */
  ghost predicate EndsWithOpt(msg: seq<byte>, dnssecOk: bool) {
    |msg| >= 11 && msg[|msg| - 11..] == [0, 0, 41, 4, 208, 0, 0, if dnssecOk then 128 else 0, 0, 0, 0]
  }

  lemma EndsAt(msg: seq<byte>, at: nat, q: ParsedQuery)
    requires q.hasOpt && At(msg, at, OptRecord(q)) && |msg| == at + |OptRecord(q)|
    ensures EndsWithOpt(msg, q.dnssecOk)
  {
    var ttl := U32Bytes(if q.dnssecOk then 32768 else 0);
    assert ttl == [0, 0, if q.dnssecOk then 128 else 0, 0];
    assert U16Bytes(41) == [0, 41] && U16Bytes(1232) == [4, 208] && U16Bytes(0) == [0, 0];
    assert OptRecord(q) == [0, 0, 41, 4, 208] + ttl + [0, 0];
    AtSlice(msg, at, OptRecord(q));
  }

  lemma CarriesAt(msg: seq<byte>, at: nat, answer: Answer)
    requires answer.Valid() && at >= HEADER_LEN && At(msg, at, AnswerRecord(Some(answer))) && U16(msg, 6) == 1
    ensures Carries(msg, at, answer)
  {
    var r := AnswerRecord(Some(answer));
    AnswerOctets(msg, at, Some(answer));
    assert r[12..] == answer.ip;
    assert msg[at..at + |r|] == r;
    assert msg[at + 12..at + 16] == msg[at..at + |r|][12..];
  }
}
