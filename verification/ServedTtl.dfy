/**
 TTLs end to end: how long an upstream response is cached, and which TTLs a client then sees.
 TTL and SOA extraction read the same record walk that ages the TTLs.
 */
module ServedTtl {
  import opened Basics
  import opened Wire
  import opened WireTheorems
  import opened CacheModel

  const SOA_RECORD_TYPE := 6
  const RCODE_NOERROR := 0
  const RCODE_NXDOMAIN := 3
  const SOA_MIN_RDATA := 22

  function Rcode(raw: seq<byte>): nat
    requires |raw| >= HEADER_LEN
  {
    raw[3] as nat % 16
  }

  function TtlOf(raw: seq<byte>, rec: Rec): nat
    requires rec.at + 8 <= |raw|
  {
    U32(raw, rec.at + 4)
  }

  function MinTtl(raw: seq<byte>, recs: seq<Rec>): (m: nat)
    requires recs != [] && forall k :: 0 <= k < |recs| ==> recs[k].at + 8 <= |raw|
  {
    if |recs| == 1 then TtlOf(raw, recs[0]) else Min(TtlOf(raw, recs[0]), MinTtl(raw, recs[1..]))
  }

  lemma {:induction false} MinTtlAttained(raw: seq<byte>, recs: seq<Rec>) returns (i: nat)
    requires recs != [] && Fit(recs, |raw|)
    ensures i < |recs| && TtlOf(raw, recs[i]) == MinTtl(raw, recs)
    ensures forall k :: 0 <= k < |recs| ==> MinTtl(raw, recs) <= TtlOf(raw, recs[k])
  {
    i := 0;
    if |recs| > 1 {
      var rest := recs[1..];
      var j := MinTtlAttained(raw, rest);
      assert forall k :: 1 <= k < |recs| ==> recs[k] == rest[k - 1];
      if TtlOf(raw, rest[j]) < TtlOf(raw, recs[0]) {
        i := j + 1;
      }
    }
  }

  /** The answer records of a message whose walk completes. */
  function Answers(raw: seq<byte>): (recs: seq<Rec>)
    requires Layout(raw).end.Some?
    ensures |recs| == U16(raw, 6) && forall k :: 0 <= k < |recs| ==> recs[k] == Layout(raw).recs[k]
  {
    Layout(raw).recs[..U16(raw, 6)]
  }

  function Authorities(raw: seq<byte>): (recs: seq<Rec>)
    requires Layout(raw).end.Some?
    ensures forall k :: 0 <= k < |recs| ==> recs[k].at + 8 <= |raw|
  {
    Layout(raw).recs[U16(raw, 6)..U16(raw, 6) + U16(raw, 8)]
  }

  /** min(TTL, MINIMUM) of one SOA record; MINIMUM is the last field of its data. */
  function SoaBound(raw: seq<byte>, rec: Rec): Option<nat>
    requires rec.at + 8 <= |raw|
  {
    if rec.rtype != SOA_RECORD_TYPE || rec.at + 10 > |raw| then None
    else
      var end := rec.at + 10 + U16(raw, rec.at + 8);
      if U16(raw, rec.at + 8) < SOA_MIN_RDATA || end > |raw| then None
      else Some(Min(TtlOf(raw, rec), U32(raw, end - 4)))
  }

  function FirstSoa(raw: seq<byte>, recs: seq<Rec>): Option<nat>
    requires forall k :: 0 <= k < |recs| ==> recs[k].at + 8 <= |raw|
  {
    if recs == [] then None
    else if SoaBound(raw, recs[0]).Some? then SoaBound(raw, recs[0])
    else FirstSoa(raw, recs[1..])
  }

  /** `negative_ttl`: section 5 of RFC 2308. */
  function NegativeTtl(raw: seq<byte>): Option<nat>
    requires Layout(raw).end.Some?
  {
    if Rcode(raw) == RCODE_NXDOMAIN || (Rcode(raw) == RCODE_NOERROR && U16(raw, 6) == 0)
    then FirstSoa(raw, Authorities(raw)) else None
  }

  /** How long a fetched response may be cached, in seconds; None when it is not cached at all. */
  function CacheableTtl(raw: seq<byte>): (r: Option<nat>)
    ensures r.Some? ==> r.value > 0 && Layout(raw).end.Some?
  {
    if Layout(raw).end.None? then None
    else
      var ttl := if Answers(raw) != [] then Some(MinTtl(raw, Answers(raw))) else NegativeTtl(raw);
      if ttl.Some? && ttl.value > 0 then ttl else None
  }

  // ------------------------------------------------------------ what may be cached

  /** An SOA record with room for its two names and five numbers. */
  ghost predicate UsableSoa(raw: seq<byte>, rec: Rec) {
    && rec.rtype == 6 && rec.at + 10 <= |raw|
    && U16(raw, rec.at + 8) >= 22 && rec.at + 10 + U16(raw, rec.at + 8) <= |raw|
  }

  /** The last of its numbers. */
  ghost function SoaMinimum(raw: seq<byte>, rec: Rec): nat
    requires UsableSoa(raw, rec)
  {
    U32(raw, rec.at + 10 + U16(raw, rec.at + 8) - 4)
  }

  /** Record `k` is the first usable SOA of the authority section. */
  ghost predicate FirstAuthority(raw: seq<byte>, k: nat)
    requires Layout(raw).end.Some?
  {
    var recs := Layout(raw).recs;
    && U16(raw, 6) <= k < U16(raw, 6) + U16(raw, 8) && k < |recs| && UsableSoa(raw, recs[k])
    && forall j :: U16(raw, 6) <= j < k ==> !UsableSoa(raw, recs[j])
  }

  /** The least TTL among the answers. */
  ghost predicate LeastTtl(raw: seq<byte>, m: nat)
    requires Layout(raw).end.Some?
  {
    && (exists k :: 0 <= k < |Answers(raw)| && TtlOf(raw, Answers(raw)[k]) == m)
    && (forall k :: 0 <= k < |Answers(raw)| ==> TtlOf(raw, Answers(raw)[k]) >= m)
  }

  /** RCODE 0 or 3, and a positive bound from the first usable authority SOA. */
  ghost predicate NegativeFor(raw: seq<byte>, m: nat)
    requires Layout(raw).end.Some?
  {
    && (raw[3] % 16 == 0 || raw[3] % 16 == 3)
    && exists k: nat :: FirstAuthority(raw, k)
         && m == Min(TtlOf(raw, Layout(raw).recs[k]), SoaMinimum(raw, Layout(raw).recs[k]))
  }

  /**
   Exactly what is cached and for how long: a message that walks to its end, for its least answer TTL, or, with no
   answers, an NXDOMAIN or NOERROR for the smaller of TTL and MINIMUM of its first SOA; zero is not cached.
   */
  lemma CacheableExact(raw: seq<byte>, m: nat)
    ensures Layout(raw).end.None? ==> CacheableTtl(raw).None?
    ensures Layout(raw).end.Some? ==>
      (CacheableTtl(raw) == Some(m) <==> m > 0 && if U16(raw, 6) > 0 then LeastTtl(raw, m) else NegativeFor(raw, m))
  {
    if Layout(raw).end.Some? {
      if U16(raw, 6) > 0 {
        var i := MinTtlAttained(raw, Answers(raw));
      } else {
        hide Layout;
        NegativeExact(raw, m);
      }
    }
  }

  lemma NegativeExact(raw: seq<byte>, m: nat)
    requires Layout(raw).end.Some? && U16(raw, 6) == 0
    ensures NegativeTtl(raw) == Some(m) <==> NegativeFor(raw, m)
  {
    hide FirstSoa, Layout, FirstAuthority, FirstUsable, TtlOf, SoaMinimum;
    var recs := Authorities(raw);
    FirstSoaExact(raw, recs);
    forall k: nat
      ensures FirstAuthority(raw, k) <==> FirstUsable(raw, recs, k)
      ensures FirstUsable(raw, recs, k) ==>
        k < |recs| && k < |Layout(raw).recs| && recs[k] == Layout(raw).recs[k] && UsableSoa(raw, recs[k])
    {
      AuthorityAt(raw, recs, k);
    }
  }

  /** Record `k` is the first usable SOA among these. */
  ghost predicate FirstUsable(raw: seq<byte>, recs: seq<Rec>, k: nat) {
    k < |recs| && UsableSoa(raw, recs[k]) && forall j :: 0 <= j < k ==> !UsableSoa(raw, recs[j])
  }

  lemma AuthorityAt(raw: seq<byte>, recs: seq<Rec>, k: nat)
    requires Layout(raw).end.Some? && U16(raw, 6) == 0 && recs == Authorities(raw)
    ensures FirstAuthority(raw, k) <==> FirstUsable(raw, recs, k)
    ensures FirstUsable(raw, recs, k) ==>
      k < |recs| && k < |Layout(raw).recs| && recs[k] == Layout(raw).recs[k] && UsableSoa(raw, recs[k])
  {
    hide UsableSoa;
    assert |recs| == U16(raw, 8) <= |Layout(raw).recs|;
    assert forall i :: 0 <= i < |recs| ==> recs[i] == Layout(raw).recs[i];
  }

  lemma SoaBoundExact(raw: seq<byte>, rec: Rec)
    requires rec.at + 8 <= |raw|
    ensures SoaBound(raw, rec).Some? <==> UsableSoa(raw, rec)
    ensures UsableSoa(raw, rec) ==> SoaBound(raw, rec) == Some(Min(TtlOf(raw, rec), SoaMinimum(raw, rec)))
  {
  }

  /** The bound is that of the first usable record, if there is one. */
  lemma {:induction false} FirstSoaExact(raw: seq<byte>, recs: seq<Rec>)
    requires forall k :: 0 <= k < |recs| ==> recs[k].at + 8 <= |raw|
    ensures FirstSoa(raw, recs).Some? ==> exists k: nat :: FirstUsable(raw, recs, k)
    ensures forall k: nat :: FirstUsable(raw, recs, k) ==>
      FirstSoa(raw, recs) == Some(Min(TtlOf(raw, recs[k]), SoaMinimum(raw, recs[k])))
  {
    hide SoaBound, UsableSoa, TtlOf, SoaMinimum, FirstUsable;
    forall k: nat
      ensures FirstUsable(raw, recs, k) ==> k < |recs| && UsableSoa(raw, recs[k])
      ensures recs != [] ==> (FirstUsable(raw, recs, k) <==>
        if UsableSoa(raw, recs[0]) then k == 0 else k > 0 && FirstUsable(raw, recs[1..], k - 1))
    {
      FirstUsableStep(raw, recs, k);
    }
    if recs != [] {
      SoaBoundExact(raw, recs[0]);
      if UsableSoa(raw, recs[0]) {
        assert FirstUsable(raw, recs, 0);
      } else {
        FirstSoaExact(raw, recs[1..]);
        if FirstSoa(raw, recs[1..]).Some? {
          var k: nat :| FirstUsable(raw, recs[1..], k);
          assert FirstUsable(raw, recs, k + 1);
        }
      }
    }
  }

  lemma FirstUsableStep(raw: seq<byte>, recs: seq<Rec>, k: nat)
    ensures FirstUsable(raw, recs, k) ==> k < |recs| && UsableSoa(raw, recs[k])
    ensures recs != [] ==> (FirstUsable(raw, recs, k) <==>
      if UsableSoa(raw, recs[0]) then k == 0 else k > 0 && FirstUsable(raw, recs[1..], k - 1))
  {
    hide UsableSoa;
    assert recs != [] ==> forall j :: 0 <= j < |recs| - 1 ==> recs[1..][j] == recs[j + 1];
    assert recs != [] ==> forall j :: 1 <= j < |recs| ==> recs[j] == recs[1..][j - 1];
  }

  /** NXDOMAIN for a query for the root, with one SOA of TTL 300 and MINIMUM 60. */
  const NXDOMAIN_ANSWER: seq<byte> :=
    [0, 0, 129, 131, 0, 1, 0, 0, 0, 1, 0, 0] + [0, 0, 1, 0, 1] + [0, 0, 6, 0, 1, 0, 0, 1, 44, 0, 22]
    + [0, 0, 0, 0, 0, 1, 0, 0, 0, 2, 0, 0, 0, 3, 0, 0, 0, 4, 0, 0, 0, 60]

  /** It is cached for 60 seconds. */
  lemma NxdomainCached()
    ensures CacheableTtl(NXDOMAIN_ANSWER) == Some(60)
  {
    var raw := NXDOMAIN_ANSWER;
    NxdomainLayout();
    hide Layout;
    assert raw[3] == 131 && U16(raw, 6) == 0 && U16(raw, 8) == 1;
    assert U16(raw, 26) == 22 && U32(raw, 22) == 300 && U32(raw, 46) == 60;
    assert FirstAuthority(raw, 0);
    CacheableExact(raw, 60);
  }

  lemma NxdomainLayout()
    ensures Layout(NXDOMAIN_ANSWER) == Walked([Rec(18, 6)], Some(50))
  {
    var raw := NXDOMAIN_ANSWER;
    NxdomainQuestion();
    NxdomainRecord();
    hide Walk, WalkQuestions;
    assert U16(raw, 4) == 1 && U16(raw, 6) == 0 && U16(raw, 8) == 1 && U16(raw, 10) == 0;
  }

  lemma NxdomainQuestion()
    ensures WalkQuestions(NXDOMAIN_ANSWER, 12, 1) == Some(17)
  {
    assert SkipName(NXDOMAIN_ANSWER, 12) == Some(13);
    assert WalkQuestions(NXDOMAIN_ANSWER, 17, 0) == Some(17);
  }

  lemma NxdomainRecord()
    ensures Walk(NXDOMAIN_ANSWER, 17, 1) == Walked([Rec(18, 6)], Some(50))
  {
    var raw := NXDOMAIN_ANSWER;
    assert SkipName(raw, 17) == Some(18);
    assert U16(raw, 18) == 6 && U16(raw, 26) == 22;
    assert Walk(raw, 50, 0) == Walked([], Some(50));
  }

  // --------------------------------------------------------------- served messages

  /** The message a lookup at `now` serves from an entry. */
  function Served(e: Entry, now: nat): seq<byte> {
    HitOf(e, now).wire
  }

  /** An entry as an insert at `t0` stores it for a cacheable response. */
  ghost predicate StoredAt(e: Entry, raw: seq<byte>, m: nat, t0: nat) {
    e.wire == raw && CacheableTtl(raw) == Some(m) && m < U32_LIMIT && e.ttl == m * SECOND
        && e.expiresAt == t0 + m * SECOND
  }

  /** Remaining lifetime in whole seconds, rounded up. */
  function RemainingSecs(e: Entry, now: nat): nat
    requires now < e.expiresAt
  {
    (e.expiresAt - now + SECOND - 1) / SECOND
  }

  lemma ElapsedAndRemaining(e: Entry, raw: seq<byte>, m: nat, t0: nat, now: nat)
    requires StoredAt(e, raw, m, t0) && t0 <= now < e.expiresAt
    ensures ElapsedSecs(e, now) + RemainingSecs(e, now) == m && 1 <= RemainingSecs(e, now)
    ensures ElapsedSecs(e, now) == (now - t0) / SECOND
  {
    var gone := now - t0;
    var left := m * SECOND - gone;
    assert gone == gone / SECOND * SECOND + gone % SECOND;
    assert (left + SECOND - 1) / SECOND == m - gone / SECOND by {
      assert left + SECOND - 1 == (m - gone / SECOND) * SECOND + (SECOND - 1 - gone % SECOND);
    }
    assert Saturating(e.ttl, Saturating(e.expiresAt, now)) == gone;
    assert gone / SECOND < m;
  }

  /** Aging reaches every walked record: ordinary TTLs are aged, OPT fields are left alone. */
  lemma ServedRecord(raw: seq<byte>, elapsed: nat, forceZero: bool, k: nat)
    requires k < |Layout(raw).recs|
    ensures var rec := Layout(raw).recs[k];
      var out := AgeOut(raw, elapsed, forceZero);
      && rec.at + 8 <= |out| == |raw|
      && TtlOf(out, rec) ==
         if rec.rtype == OPT_RECORD_TYPE then TtlOf(raw, rec) else AgedTtl(TtlOf(raw, rec), elapsed, forceZero)
  {
    hide *;
    LayoutSeparated(raw);
    AgeOutExact(raw, AgeOut(raw, elapsed, forceZero), elapsed, forceZero);
    AgedRecord(raw, AgeOut(raw, elapsed, forceZero), Layout(raw).recs, elapsed, forceZero, k);
  }

  lemma AgedRecord(raw: seq<byte>, out: seq<byte>, recs: seq<Rec>, elapsed: nat, forceZero: bool, k: nat)
    requires Fit(recs, |raw|) && Separated(recs) && IsAged(raw, out, recs, elapsed, forceZero) && k < |recs|
    ensures recs[k].at + 8 <= |out| == |raw|
    ensures TtlOf(out, recs[k]) == if recs[k].rtype == OPT_RECORD_TYPE then TtlOf(raw, recs[k])
                                   else AgedTtl(TtlOf(raw, recs[k]), elapsed, forceZero)
  {
    hide U32, AgedTtl, InTtl, Separated;
    if recs[k].rtype == OPT_RECORD_TYPE {
      OptUntouched(raw, out, recs, k);
    }
  }

  lemma OptUntouched(raw: seq<byte>, out: seq<byte>, recs: seq<Rec>, k: nat)
    requires |out| == |raw| && Separated(recs) && Fit(recs, |raw|) && k < |recs| && recs[k].rtype == OPT_RECORD_TYPE
    requires forall i :: 0 <= i < |raw| && !InTtl(recs, i) ==> out[i] == raw[i]
    ensures TtlOf(out, recs[k]) == TtlOf(raw, recs[k])
  {
    var at := recs[k].at;
    forall i | at + 4 <= i < at + 8 ensures !InTtl(recs, i) {
      forall j | 0 <= j < |recs| && recs[j].rtype != OPT_RECORD_TYPE ensures !(recs[j].at + 4 <= i < recs[j].at + 8) {
        if j < k { assert recs[j].at + 10 <= recs[k].at; } else { assert recs[k].at + 10 <= recs[j].at; }
      }
    }
  }

  /** Some ordinary answer record carries the minimum; OPT does not belong in the answer section. */
  ghost predicate OrdinaryMinimum(raw: seq<byte>)
    requires Layout(raw).end.Some?
  {
    exists k :: 0 <= k < |Answers(raw)| && Answers(raw)[k].rtype != OPT_RECORD_TYPE
                && TtlOf(raw, Answers(raw)[k]) == MinTtl(raw, Answers(raw))
  }

  ghost predicate NoOpt(recs: seq<Rec>) {
    forall k :: 0 <= k < |recs| ==> recs[k].rtype != OPT_RECORD_TYPE
  }

  /** Without OPT records in the answer section the minimum is an ordinary record's. */
  lemma NoOptOrdinary(raw: seq<byte>)
    requires Layout(raw).end.Some? && Answers(raw) != [] && NoOpt(Answers(raw))
    ensures OrdinaryMinimum(raw)
  {
    var i := MinTtlAttained(raw, Answers(raw));
  }

  /** A fresh hit on an answer without OPT records serves exactly the remaining lifetime rounded up. */
  lemma FreshHitExact(e: Entry, raw: seq<byte>, m: nat, t0: nat, now: nat)
    requires StoredAt(e, raw, m, t0) && Answers(raw) != [] && NoOpt(Answers(raw)) && t0 <= now < e.expiresAt
    ensures Layout(Served(e, now)).end.Some? && Answers(Served(e, now)) == Answers(raw)
    ensures MinTtl(Served(e, now), Answers(raw)) == RemainingSecs(e, now) >= 1
  {
    NoOptOrdinary(raw);
    FreshHitTtl(e, raw, m, t0, now);
  }

  /** Minimum of a list of TTLs whose ordinary records were aged by `elapsed` seconds. */
  lemma AgedMinimum(raw: seq<byte>, out: seq<byte>, recs: seq<Rec>, elapsed: nat)
    requires recs != [] && Fit(recs, |raw|) && |out| == |raw|
    requires elapsed < MinTtl(raw, recs)
    requires forall k :: 0 <= k < |recs| ==>
      TtlOf(out, recs[k]) == if recs[k].rtype == OPT_RECORD_TYPE then TtlOf(raw, recs[k])
          else AgedTtl(TtlOf(raw, recs[k]), elapsed, false)
    ensures MinTtl(out, recs) == MinTtl(raw, recs) - elapsed <==>
      || elapsed == 0
      || exists k :: 0 <= k < |recs| && recs[k].rtype != OPT_RECORD_TYPE && TtlOf(raw, recs[k]) == MinTtl(raw, recs)
  {
    var i := MinTtlAttained(raw, recs);
    var j := MinTtlAttained(out, recs);
    hide MinTtl, TtlOf;
    if k :| 0 <= k < |recs| && recs[k].rtype != OPT_RECORD_TYPE && TtlOf(raw, recs[k]) == MinTtl(raw, recs) {
      assert TtlOf(out, recs[k]) == MinTtl(raw, recs) - elapsed;
    }
  }

  /**
   A fresh hit serves a minimum answer TTL equal to the remaining lifetime rounded up, which is at least
   one second, exactly when the minimum came from an ordinary record or no full second has passed.
   */
  lemma FreshHitTtl(e: Entry, raw: seq<byte>, m: nat, t0: nat, now: nat)
    requires StoredAt(e, raw, m, t0) && Answers(raw) != [] && t0 <= now < e.expiresAt
    ensures Layout(Served(e, now)).end.Some? && Answers(Served(e, now)) == Answers(raw)
    ensures RemainingSecs(e, now) >= 1
    ensures MinTtl(Served(e, now), Answers(raw)) == RemainingSecs(e, now) <==> OrdinaryMinimum(raw) || now - t0 < SECOND
  {
    ElapsedAndRemaining(e, raw, m, t0, now);
    var secs := ElapsedSecs(e, now);
    assert secs == 0 <==> now - t0 < SECOND;
    assert m == MinTtl(raw, Answers(raw)) && Served(e, now) == AgeOut(raw, secs, false);
    hide *;
    AgedAnswers(raw, secs, false);
    AgedAnswersMinimum(raw, secs);
  }

  /** Aging keeps the answer section's boundaries. */
  lemma AgedAnswers(raw: seq<byte>, elapsed: nat, forceZero: bool)
    requires Layout(raw).end.Some?
    ensures var out := AgeOut(raw, elapsed, forceZero);
      Layout(out).end.Some? && Answers(out) == Answers(raw) && |out| == |raw|
  {
    var out := AgeOut(raw, elapsed, forceZero);
    AgeOutLayout(raw, elapsed, forceZero);
    AgeOutOutside(raw, elapsed, forceZero);
    SameHeader(raw, out);
    AnswerCountSame(raw, out);
  }

  lemma AnswerCountSame(raw: seq<byte>, out: seq<byte>)
    requires |raw| == |out| && |raw| >= HEADER_LEN && SameOutside(raw, out, 0, Layout(raw).recs)
    ensures U16(out, 6) == U16(raw, 6)
  {
    NoTtlBefore(Layout(raw).recs, HEADER_LEN);
  }

  lemma AgedAnswersMinimum(raw: seq<byte>, secs: nat)
    requires Layout(raw).end.Some? && Answers(raw) != [] && secs < MinTtl(raw, Answers(raw))
    ensures |AgeOut(raw, secs, false)| == |raw|
    ensures MinTtl(AgeOut(raw, secs, false), Answers(raw)) == MinTtl(raw, Answers(raw)) - secs
      <==> OrdinaryMinimum(raw) || secs == 0
  {
    var out, recs := AgeOut(raw, secs, false), Answers(raw);
    AgeOutOutside(raw, secs, false);
    hide AgeOut, MinTtl, SameOutside;
    forall k | 0 <= k < |recs|
      ensures TtlOf(out, recs[k]) == if recs[k].rtype == OPT_RECORD_TYPE then TtlOf(raw, recs[k])
        else AgedTtl(TtlOf(raw, recs[k]), secs, false)
    {
      ServedRecord(raw, secs, false, k);
    }
    AgedMinimum(raw, out, recs, secs);
  }

  /** A hit in the stale window serves TTL 0 in every ordinary record of the message. */
  lemma StaleHitTtl(e: Entry, now: nat, k: nat)
    requires e.expiresAt <= now && k < |Layout(e.wire).recs|
    ensures Layout(Served(e, now)) == Layout(e.wire)
    ensures Layout(e.wire).recs[k].rtype != OPT_RECORD_TYPE ==> TtlOf(Served(e, now), Layout(e.wire).recs[k]) == 0
  {
    AgeOutLayout(e.wire, ElapsedSecs(e, now), true);
    ServedRecord(e.wire, ElapsedSecs(e, now), true, k);
  }

  /** The TTLs a hit at `now` serves from an entry stored at `t0`: exact while fresh, zero while stale. */
  ghost predicate TtlsServed(e: Entry, t0: nat, now: nat) {
    var served := Served(e, now);
    && Layout(served) == Layout(e.wire) && Layout(served).end.Some?
    && (e.expiresAt <= now ==>
          forall k :: 0 <= k < |Layout(served).recs| && Layout(served).recs[k].rtype != OPT_RECORD_TYPE ==>
            TtlOf(served, Layout(served).recs[k]) == 0)
    && (t0 <= now < e.expiresAt && Answers(served) != [] ==>
          && RemainingSecs(e, now) >= 1
          && (MinTtl(served, Answers(served)) == RemainingSecs(e, now)
              <==> OrdinaryMinimum(e.wire) || now - t0 < SECOND)
          && (NoOpt(Answers(served)) ==> MinTtl(served, Answers(served)) == RemainingSecs(e, now)))
  }

  lemma HitTtls(e: Entry, m: nat, t0: nat, now: nat)
    requires StoredAt(e, e.wire, m, t0) && t0 <= now
    ensures TtlsServed(e, t0, now)
  {
    var served := Served(e, now);
    AgedAnswers(e.wire, ElapsedSecs(e, now), e.expiresAt <= now);
    AgeOutLayout(e.wire, ElapsedSecs(e, now), e.expiresAt <= now);
    if e.expiresAt <= now {
      hide Served, TtlOf, Layout;
      forall k | 0 <= k < |Layout(served).recs| && Layout(served).recs[k].rtype != OPT_RECORD_TYPE
        ensures TtlOf(served, Layout(served).recs[k]) == 0
      {
        StaleHitTtl(e, now, k);
      }
    } else if Answers(served) != [] {
      FreshHitTtl(e, e.wire, m, t0, now);
      if NoOpt(Answers(served)) {
        FreshHitExact(e, e.wire, m, t0, now);
      }
    }
  }

  // -------------------------------------------------------------- negative answers

  lemma {:induction false} FirstSoaIndex(raw: seq<byte>, recs: seq<Rec>) returns (i: nat)
    requires Fit(recs, |raw|) && FirstSoa(raw, recs).Some?
    ensures i < |recs| && SoaBound(raw, recs[i]) == FirstSoa(raw, recs)
    ensures forall j :: 0 <= j < i ==> SoaBound(raw, recs[j]).None?
  {
    if SoaBound(raw, recs[0]).Some? {
      i := 0;
    } else {
      i := FirstSoaIndex(raw, recs[1..]);
      assert forall j :: 0 <= j < |recs| - 1 ==> recs[1..][j] == recs[j + 1];
      assert forall j :: 1 <= j < i + 1 ==> recs[j] == recs[1..][j - 1];
      i := i + 1;
    }
  }

  /**
   A cached negative answer lives for min(SOA TTL, SOA MINIMUM) of the first usable SOA of its authority
   section, and until it expires the TTL it serves for that SOA falls with the remaining lifetime rounded up.
   */
  lemma NegativeHitTtl(e: Entry, raw: seq<byte>, m: nat, t0: nat, now: nat) returns (k: nat)
    requires StoredAt(e, raw, m, t0) && Answers(raw) == [] && t0 <= now < e.expiresAt
    ensures Rcode(raw) == RCODE_NXDOMAIN || Rcode(raw) == RCODE_NOERROR
    ensures k < |Layout(raw).recs| && Layout(raw).recs[k].rtype == SOA_RECORD_TYPE
    ensures U16(raw, 6) <= k < U16(raw, 6) + U16(raw, 8)
    ensures forall j :: U16(raw, 6) <= j < k ==> SoaBound(raw, Layout(raw).recs[j]).None?
    ensures var soa := Layout(raw).recs[k];
      && SoaBound(raw, soa) == Some(m) && m <= TtlOf(raw, soa)
      && |Served(e, now)| == |raw| && TtlOf(Served(e, now), soa) - RemainingSecs(e, now) == TtlOf(raw, soa) - m
  {
    ElapsedAndRemaining(e, raw, m, t0, now);
    var secs := ElapsedSecs(e, now);
    var i := FirstSoaIndex(raw, Authorities(raw));
    k := U16(raw, 6) + i;
    assert Layout(raw).recs[k] == Authorities(raw)[i];
    forall j | U16(raw, 6) <= j < k ensures SoaBound(raw, Layout(raw).recs[j]).None? {
      assert Layout(raw).recs[j] == Authorities(raw)[j - U16(raw, 6)];
    }
    ServedRecord(raw, secs, false, k);
  }

  // ---------------------------------------------------------------- a failing input

  /** A response to a query for the root whose only answer is an OPT record with the value 5 in its TTL field. */
  const OPT_ANSWER: seq<byte> :=
    [0, 0, 128, 0, 0, 1, 0, 1, 0, 0, 0, 0] + [0, 0, 1, 0, 1] + [0, 0, 41, 0, 1, 0, 0, 0, 5, 0, 0]

  lemma OptRecordWalk()
    ensures Walk(OPT_ANSWER, 17, 1) == Walked([Rec(18, 41)], Some(28))
  {
    var raw := OPT_ANSWER;
    assert raw[17..] == [0, 0, 41, 0, 1, 0, 0, 0, 5, 0, 0];
    assert SkipName(raw, 17) == Some(18);
    assert U16(raw, 18) == 41 && U16(raw, 26) == 0;
    assert Walk(raw, 28, 0) == Walked([], Some(28));
  }

  lemma OptQuestionWalk()
    ensures WalkQuestions(OPT_ANSWER, 12, 1) == Some(17)
  {
    assert SkipName(OPT_ANSWER, 12) == Some(13);
    assert WalkQuestions(OPT_ANSWER, 17, 0) == Some(17);
  }

  lemma OptAnswerLayout()
    ensures Layout(OPT_ANSWER) == Walked([Rec(18, 41)], Some(28)) && U16(OPT_ANSWER, 6) == 1 && U32(OPT_ANSWER, 22) == 5
  {
    hide Walk, WalkQuestions;
    OptRecordWalk();
    OptQuestionWalk();
    var raw := OPT_ANSWER;
    assert U16(raw, 4) == 1 && U16(raw, 6) == 1 && U16(raw, 8) == 0 && U16(raw, 10) == 0;
  }

  /** It answers an accepted query: the query's question key matches it. */
  lemma OptAnswerMatches()
    ensures Parse(PlainQuery([])).Some? && QuestionKey(PlainQuery([])).Some?
    ensures OPT_ANSWER[2] >= 128 && KeyMatches(QuestionKey(PlainQuery([])).value, OPT_ANSWER)
  {
    hide Parse, DecodeName, SkipName, PlainQuery;
    PlainQueryParses([]);
    RootKey();
    OptSpan();
    assert OPT_ANSWER[12..17] == [0, 0, 1, 0, 1];
  }

  lemma OptSpan()
    ensures QuestionSpan(OPT_ANSWER) == Some(17)
  {
    assert SkipName(OPT_ANSWER, 12) == Some(13) && U16(OPT_ANSWER, 4) == 1;
  }

  lemma RootKey()
    ensures QuestionKey(PlainQuery([])) == Some([0, 0, 1, 0, 1])
  {
    var raw := PlainQuery([]);
    assert raw == [0, 0, 0, 0, 0, 1, 0, 0, 0, 0, 0, 0] + [0, 0, 1, 0, 1];
    assert SkipName(raw, 12) == Some(13) && U16(raw, 4) == 1;
    assert raw[12..17] == [0, 0, 1, 0, 1];
  }

  /** Two seconds after it is cached a hit still shows 5 although 3 seconds remain. */
  lemma OptAnswerNotAged()
    ensures QuestionKey(PlainQuery([])).Some? && KeyMatches(QuestionKey(PlainQuery([])).value, OPT_ANSWER)
    ensures var e := Entry(OPT_ANSWER, PlainQuery([]), 5 * SECOND, 5 * SECOND, 0, 0, false, 0, false);
      && StoredAt(e, OPT_ANSWER, 5, 0) && Answers(OPT_ANSWER) != [] && !OrdinaryMinimum(OPT_ANSWER)
      && RemainingSecs(e, 2 * SECOND) == 3
      && |Served(e, 2 * SECOND)| == |OPT_ANSWER| && MinTtl(Served(e, 2 * SECOND), Answers(OPT_ANSWER)) == 5
  {
    OptAnswerMatches();
    OptAnswerLayout();
    hide Layout, QuestionKey, KeyMatches;
    var raw := OPT_ANSWER;
    assert Answers(raw) == [Rec(18, 41)];
    var e := Entry(raw, PlainQuery([]), 5 * SECOND, 5 * SECOND, 0, 0, false, 0, false);
    ServedRecord(raw, ElapsedSecs(e, 2 * SECOND), false, 0);
  }
}
