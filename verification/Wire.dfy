/**
 DNS wire code: the query parser, the record walk, in-place TTL aging, question matching and
 response synthesis. The functions say what a message means; the methods are the loops over a
 moving offset, proved to compute exactly those functions.
 */
module Wire {
  import opened Basics

  const HEADER_LEN: nat := 12
  const MAX_QUESTION_LEN := 259
  const OPT_RECORD_TYPE := 41
  const EDNS_PAYLOAD_SIZE := 1232
  const DOT: byte := 46

  // ---------------------------------------------------------------- integers

  function U16(raw: seq<byte>, at: nat): (v: nat)
    requires at + 2 <= |raw|
    ensures v < U16_LIMIT
  {
    raw[at] as nat * 256 + raw[at + 1] as nat
  }

  function U32(raw: seq<byte>, at: nat): (v: nat)
    requires at + 4 <= |raw|
    ensures v < U32_LIMIT
  {
    U16(raw, at) * 0x1_0000 + U16(raw, at + 2)
  }

  function U16Bytes(v: nat): (s: seq<byte>)
    requires v < U16_LIMIT
    ensures |s| == 2 && U16(s, 0) == v
  {
    [(v / 256) as byte, (v % 256) as byte]
  }

  function U32Bytes(v: nat): (s: seq<byte>)
    requires v < U32_LIMIT
    ensures |s| == 4 && U32(s, 0) == v
  {
    U16Bytes(v / 0x1_0000) + U16Bytes(v % 0x1_0000)
  }

  /** Four octets are determined by the integer they encode. */
  lemma U32Injective(a: seq<byte>, i: nat, b: seq<byte>, j: nat)
    requires i + 4 <= |a| && j + 4 <= |b|
    requires U32(a, i) == U32(b, j)
    ensures a[i..i + 4] == b[j..j + 4]
  {
    assert U16(a, i) == U16(b, j) && U16(a, i + 2) == U16(b, j + 2);
    assert a[i] == b[j] && a[i + 1] == b[j + 1] && a[i + 2] == b[j + 2] && a[i + 3] == b[j + 3];
  }

  // ------------------------------------------------------------------- names

  /** Offset just past a possibly compressed name: a pointer ends it, reserved label types reject it. */
  function SkipName(raw: seq<byte>, at: nat): (r: Option<nat>)
    ensures r.Some? ==> at < r.value <= |raw|
    decreases |raw| - at
  {
    if at >= |raw| then None
    else
      var len := raw[at] as nat;
      if len >= 192 then if at + 2 <= |raw| then Some(at + 2) else None
      else if len >= 64 then None
      else if len == 0 then Some(at + 1)
      else SkipName(raw, at + 1 + len)
  }

  method SkipNameLoop(raw: seq<byte>, start: nat) returns (r: Option<nat>)
    ensures r == SkipName(raw, start)
  {
    var at: nat := start;
    while true
      invariant SkipName(raw, start) == SkipName(raw, at)
      decreases |raw| - at
    {
      if at >= |raw| { return None; }
      var len := raw[at] as nat;
      if len >= 192 {
        return if at + 2 <= |raw| then Some(at + 2) else None;
      }
      if len >= 64 { return None; }
      at := at + 1 + len;
      if len == 0 {
        return Some(at);
      }
    }
  }

  datatype Decoded = Decoded(labels: seq<seq<byte>>, end: nat)

  /** Labels of an uncompressed name and the offset past its terminating zero octet. */
  function DecodeName(raw: seq<byte>, at: nat): (r: Option<Decoded>)
    ensures r.Some? ==> at < r.value.end <= |raw|
    decreases |raw| - at
  {
    if at >= |raw| then None
    else
      var len := raw[at] as nat;
      if len >= 64 then None
      else if len == 0 then Some(Decoded([], at + 1))
      else if at + 1 + len > |raw| then None
      else
        var rest := DecodeName(raw, at + 1 + len);
        if rest.None? then None
        else Some(Decoded([raw[at + 1..at + 1 + len]] + rest.value.labels, rest.value.end))
  }

  /** Section 2.3.4 of RFC 1035: a label holds 1 to 63 octets. */
  predicate ValidLabels(labels: seq<seq<byte>>) {
    forall i :: 0 <= i < |labels| ==> 1 <= |labels[i]| <= 63
  }

  function EncodeLabels(labels: seq<seq<byte>>): seq<byte>
    requires ValidLabels(labels)
  {
    if labels == [] then []
    else [|labels[0]| as byte] + labels[0] + EncodeLabels(labels[1..])
  }

  /** Lower-cased labels, each followed by a dot. */
  function DottedLabels(labels: seq<seq<byte>>): seq<byte> {
    if labels == [] then [] else LowerAll(labels[0]) + [DOT] + DottedLabels(labels[1..])
  }

  /** The canonical trailing-dot form; the root is a single dot. */
  function Dotted(labels: seq<seq<byte>>): seq<byte> {
    if labels == [] then [DOT] else DottedLabels(labels)
  }

  // ----------------------------------------------------------- resource records

  /** A record whose fixed part starts at `at`, just past its owner name. */
  datatype Rec = Rec(at: nat, rtype: nat)

  /** Records whose TTL field was reached, and the end offset when every record was complete. */
  datatype Walked = Walked(recs: seq<Rec>, end: Option<nat>)

  function Walk(raw: seq<byte>, at: nat, n: nat): (w: Walked)
    ensures w.end.Some? ==> |w.recs| == n && w.end.value >= at
    ensures at <= |raw| && w.end.Some? ==> w.end.value <= |raw|
    ensures |w.recs| <= n
    ensures forall k :: 0 <= k < |w.recs| ==> at < w.recs[k].at && w.recs[k].at + 8 <= |raw|
    decreases n
  {
    if n == 0 then Walked([], Some(at))
    else
      var p := SkipName(raw, at);
      if p.None? || p.value + 8 > |raw| then Walked([], None)
      else
        var rec := Rec(p.value, U16(raw, p.value));
        if p.value + 10 > |raw| || p.value + 10 + U16(raw, p.value + 8) > |raw| then Walked([rec], None)
        else
          var rest := Walk(raw, p.value + 10 + U16(raw, p.value + 8), n - 1);
          Walked([rec] + rest.recs, rest.end)
  }

  function WalkQuestions(raw: seq<byte>, at: nat, n: nat): (r: Option<nat>)
    ensures r.Some? ==> at <= r.value
    ensures r.Some? && at <= |raw| ==> r.value <= |raw|
    decreases n
  {
    if n == 0 then Some(at)
    else
      var p := SkipName(raw, at);
      if p.None? || p.value + 4 > |raw| then None
      else WalkQuestions(raw, p.value + 4, n - 1)
  }

  function RecordCount(raw: seq<byte>): nat
    requires |raw| >= HEADER_LEN
  {
    U16(raw, 6) + U16(raw, 8) + U16(raw, 10)
  }

  /** The whole record walk of a message, all three sections in order. */
  function Layout(raw: seq<byte>): (w: Walked)
    ensures forall k :: 0 <= k < |w.recs| ==> HEADER_LEN < w.recs[k].at && w.recs[k].at + 8 <= |raw|
    ensures w.end.Some? ==> |raw| >= HEADER_LEN && HEADER_LEN <= w.end.value <= |raw|
  {
    if |raw| < HEADER_LEN then Walked([], None)
    else
      var start := WalkQuestions(raw, HEADER_LEN, U16(raw, 4));
      if start.None? then Walked([], None)
      else Walk(raw, start.value, RecordCount(raw))
  }

  // ------------------------------------------------------------------ TTL aging

  function AgedTtl(ttl: nat, elapsed: nat, forceZero: bool): nat {
    if forceZero || ttl <= elapsed then 0 else ttl - elapsed
  }

  function SetTtl(raw: seq<byte>, rec: Rec, elapsed: nat, forceZero: bool): (r: seq<byte>)
    requires rec.at + 8 <= |raw|
    ensures |r| == |raw|
  {
    if rec.rtype == OPT_RECORD_TYPE then raw
    else raw[..rec.at + 4] + U32Bytes(AgedTtl(U32(raw, rec.at + 4), elapsed, forceZero)) + raw[rec.at + 8..]
  }

  /** `raw` with the TTL of every record in `recs` aged, first record first. */
  function Aged(raw: seq<byte>, recs: seq<Rec>, elapsed: nat, forceZero: bool): (r: seq<byte>)
    requires forall k :: 0 <= k < |recs| ==> recs[k].at + 8 <= |raw|
    ensures |r| == |raw|
    decreases |recs|
  {
    if recs == [] then raw
    else Aged(SetTtl(raw, recs[0], elapsed, forceZero), recs[1..], elapsed, forceZero)
  }

  /** What `age_ttls` leaves in the buffer, whether or not the walk completes. */
  function AgeOut(raw: seq<byte>, elapsed: nat, forceZero: bool): seq<byte> {
    Aged(raw, Layout(raw).recs, elapsed, forceZero)
  }

  /** Skipping a name reads nothing before `at`. */
  lemma {:induction false} SkipNameSuffix(a: seq<byte>, b: seq<byte>, at: nat)
    requires |a| == |b|
    requires forall i :: at <= i < |a| ==> a[i] == b[i]
    ensures SkipName(a, at) == SkipName(b, at)
    decreases |a| - at
  {
    if at < |a| && 0 < a[at] < 64 {
      SkipNameSuffix(a, b, at + 1 + a[at] as nat);
    }
  }

  /** `age_ttls`: ages in place, and reports whether the whole message could be walked. */
  method AgeTtls(wire: array<byte>, elapsed: nat, forceZero: bool) returns (ok: bool)
    modifies wire
    ensures ok == Layout(old(wire[..])).end.Some?
    ensures wire[..] == AgeOut(old(wire[..]), elapsed, forceZero)
  {
    if wire.Length < HEADER_LEN { return false; }
    ghost var orig := wire[..];
    var questions := U16(wire[..], 4);
    var records := RecordCount(wire[..]);
    var at: nat := HEADER_LEN;
    for q := 0 to questions
      invariant wire[..] == orig && at <= wire.Length
      invariant WalkQuestions(orig, HEADER_LEN, questions) == WalkQuestions(orig, at, questions - q)
    {
      var end := SkipNameLoop(wire[..], at);
      if end.None? { return false; }
      at := end.value + 4;
      if at > wire.Length { return false; }
    }
    ok := AgeRecords(wire, at, records, elapsed, forceZero);
  }

  method AgeRecords(wire: array<byte>, start: nat, records: nat, elapsed: nat, forceZero: bool) returns (ok: bool)
    requires start <= wire.Length
    modifies wire
    ensures ok == Walk(old(wire[..]), start, records).end.Some?
    ensures wire[..] == Aged(old(wire[..]), Walk(old(wire[..]), start, records).recs, elapsed, forceZero)
  {
    ghost var orig := wire[..];
    ghost var whole := Walk(orig, start, records);
    ghost var target := Aged(orig, whole.recs, elapsed, forceZero);
    var at: nat := start;
    for k := 0 to records
      invariant at <= wire.Length
      invariant forall i :: at <= i < wire.Length ==> wire[i] == orig[i]
      invariant whole.end == Walk(orig, at, records - k).end
      invariant target == Aged(wire[..], Walk(orig, at, records - k).recs, elapsed, forceZero)
    {
      WalkStep(wire[..], orig, at, records - k, elapsed, forceZero);
      var next := AgeRecord(wire, orig, at, elapsed, forceZero);
      if next.None? { return false; }
      at := next.value;
    }
    return true;
  }

  /** The next record of the walk, if its TTL can be reached. */
  function FirstRec(raw: seq<byte>, at: nat): (r: Option<Rec>)
    ensures r.Some? ==> at < r.value.at && r.value.at + 8 <= |raw|
  {
    var p := SkipName(raw, at);
    if p.None? || p.value + 8 > |raw| then None else Some(Rec(p.value, U16(raw, p.value)))
  }

  /** Where the walk continues after that record, if the record is complete. */
  function NextAt(raw: seq<byte>, at: nat): (r: Option<nat>)
    ensures r.Some? ==> at < r.value <= |raw|
  {
    var p := SkipName(raw, at);
    if p.None? || p.value + 10 > |raw| || p.value + 10 + U16(raw, p.value + 8) > |raw| then None
    else Some(p.value + 10 + U16(raw, p.value + 8))
  }

  /** One step of the walk, and what aging the walked records of `cur` amounts to after it. */
  lemma WalkStep(cur: seq<byte>, raw: seq<byte>, at: nat, n: nat, elapsed: nat, forceZero: bool)
    requires n > 0 && |cur| == |raw|
    ensures var first, next := FirstRec(raw, at), NextAt(raw, at);
      var cur' := if first.None? then cur else SetTtl(cur, first.value, elapsed, forceZero);
      var w := Walk(raw, at, n);
      var rest := if next.None? then Walked([], None) else Walk(raw, next.value, n - 1);
      && w.end == rest.end
      && (next.Some? ==> first.Some?)
      && Aged(cur, w.recs, elapsed, forceZero) == Aged(cur', rest.recs, elapsed, forceZero)
  {
    var first, next := FirstRec(raw, at), NextAt(raw, at);
    if first.Some? {
      var rest := if next.None? then [] else Walk(raw, next.value, n - 1).recs;
      assert Walk(raw, at, n).recs == [first.value] + rest;
      assert ([first.value] + rest)[1..] == rest;
    }
  }

  /** One iteration of the record loop, on a buffer that still equals `orig` from `at` on. */
  method AgeRecord(wire: array<byte>, ghost orig: seq<byte>, at: nat, elapsed: nat, forceZero: bool)
    returns (next: Option<nat>)
    requires |orig| == wire.Length && forall i :: at <= i < wire.Length ==> wire[i] == orig[i]
    modifies wire
    ensures next == NextAt(orig, at)
    ensures wire[..] ==
      if FirstRec(orig, at).None? then old(wire[..])
      else SetTtl(old(wire[..]), FirstRec(orig, at).value, elapsed, forceZero)
    ensures next.Some? ==> forall i :: next.value <= i < wire.Length ==> wire[i] == orig[i]
  {
    SkipNameSuffix(wire[..], orig, at);
    var end := SkipNameLoop(wire[..], at);
    if end.None? || end.value + 8 > wire.Length { return None; }
    AgeOne(wire, end.value, elapsed, forceZero);
    if end.value + 10 > wire.Length { return None; }
    var after: nat := end.value + 10 + U16(wire[..], end.value + 8);
    return if after > wire.Length then None else Some(after);
  }

  /** Rewrites the TTL of the record whose fixed part starts at `at`. */
  method AgeOne(wire: array<byte>, at: nat, elapsed: nat, forceZero: bool)
    requires at + 8 <= wire.Length
    modifies wire
    ensures wire[..] == SetTtl(old(wire[..]), Rec(at, U16(old(wire[..]), at)), elapsed, forceZero)
  {
    hide U32, U32Bytes;
    ghost var before := wire[..];
    if U16(wire[..], at) != OPT_RECORD_TYPE {
      var aged := U32Bytes(AgedTtl(U32(wire[..], at + 4), elapsed, forceZero));
      forall i | 0 <= i < 4 {
        wire[at + 4 + i] := aged[i];
      }
      assert wire[..] == before[..at + 4] + aged + before[at + 8..];
    }
  }

  // ---------------------------------------------------------------- queries

  datatype ParsedQuery = ParsedQuery(
    id: nat, opcode: nat, recursionDesired: bool, nameLen: nat, qtype: nat, qclass: nat,
    questionEnd: nat, hasOpt: bool, dnssecOk: bool, checkingDisabled: bool)

  /** Scans `scan` records for an OPT after skipping `plain` of them; None when a record is malformed. */
  function FindOptFrom(raw: seq<byte>, at: nat, plain: nat, scan: nat): (r: Option<(bool, bool)>)
    ensures r.Some? && r.value.1 ==> r.value.0
    decreases plain + scan
  {
    if plain == 0 && scan == 0 then Some((false, false))
    else
      var p := SkipName(raw, at);
      if p.None? || p.value + 10 > |raw| then None
      else if plain == 0 && U16(raw, p.value) == OPT_RECORD_TYPE then Some((true, raw[p.value + 6] >= 128))
      else
        var next := p.value + 10 + U16(raw, p.value + 8);
        if next > |raw| then None
        else if plain > 0 then FindOptFrom(raw, next, plain - 1, scan)
        else FindOptFrom(raw, next, 0, scan - 1)
  }

  /** Presence of an EDNS OPT record in the additional section and its DO bit. */
  function FindOpt(raw: seq<byte>, at: nat): (r: Option<(bool, bool)>)
    requires |raw| >= HEADER_LEN
    ensures r.Some? && r.value.1 ==> r.value.0
  {
    FindOptFrom(raw, at, U16(raw, 6) + U16(raw, 8), U16(raw, 10))
  }

  method FindOptLoop(raw: seq<byte>, start: nat) returns (r: Option<(bool, bool)>)
    requires |raw| >= HEADER_LEN
    ensures r == FindOpt(raw, start)
  {
    hide SkipName;
    var counts := [U16(raw, 6), U16(raw, 8), U16(raw, 10)];
    var at: nat := start;
    for section := 0 to 3
      invariant FindOpt(raw, start) == FindOptFrom(raw, at,
        if section == 0 then counts[0] + counts[1] else if section == 1 then counts[1] else 0,
        if section < 3 then counts[2] else 0)
    {
      for i := 0 to counts[section]
        invariant FindOpt(raw, start) == FindOptFrom(raw, at,
          if section == 0 then counts[0] - i + counts[1] else if section == 1 then counts[1] - i else 0,
          if section < 2 then counts[2] else counts[2] - i)
      {
        var p := SkipNameLoop(raw, at);
        if p.None? || p.value + 10 > |raw| { return None; }
        if section == 2 && U16(raw, p.value) == OPT_RECORD_TYPE {
          return Some((true, raw[p.value + 6] >= 128));
        }
        at := p.value + 10 + U16(raw, p.value + 8);
        if at > |raw| { return None; }
      }
    }
    return Some((false, false));
  }

  /** Header fields and question of a query whose name decoded to `d`. */
  function QueryOf(raw: seq<byte>, d: Decoded): ParsedQuery
    requires |raw| >= HEADER_LEN && d.end + 4 <= |raw|
  {
    var opt := FindOpt(raw, d.end + 4);
    ParsedQuery(
      U16(raw, 0), raw[2] as nat / 8 % 16, raw[2] % 2 == 1, |Dotted(d.labels)|,
      U16(raw, d.end), U16(raw, d.end + 2), d.end + 4,
      opt.Some? && opt.value.0, opt.Some? && opt.value.1, raw[3] / 16 % 2 == 1)
  }

  /** The queries the server answers, by label list: parsed header and canonical name. */
  function Parse(raw: seq<byte>): Option<(ParsedQuery, seq<byte>)> {
    if |raw| < HEADER_LEN || raw[2] >= 128 || U16(raw, 4) != 1 then None
    else
      var d := DecodeName(raw, HEADER_LEN);
      if d.None? || |DottedLabels(d.value.labels)| > MAX_NAME_LEN || d.value.end + 4 > |raw| then None
      else Some((QueryOf(raw, d.value), Dotted(d.value.labels)))
  }

  /** `parse_query`: one pass over the question, lower-casing the name into the caller's buffer. */
  method ParseQuery(raw: seq<byte>, nameBuf: array<byte>) returns (r: Option<ParsedQuery>)
    requires nameBuf.Length == MAX_NAME_LEN
    modifies nameBuf
    ensures r.Some? <==> Parse(raw).Some?
    ensures r.Some? ==> r.value == Parse(raw).value.0
    ensures r.Some? ==> r.value.nameLen <= MAX_NAME_LEN && nameBuf[..r.value.nameLen] == Parse(raw).value.1
  {
    hide FindOpt, DecodeName, DottedLabels, Extended;
    if |raw| < HEADER_LEN || raw[2] >= 128 || U16(raw, 4) != 1 { return None; }
    ExtendedWhole(raw);
    var end, nameLen := ParseName(raw, nameBuf);
    if end.None? { return None; }
    ghost var labels := DecodeName(raw, HEADER_LEN).value.labels;
    var at := end.value;
    if nameLen == 0 {
      nameBuf[0] := DOT;
      nameLen := 1;
    }
    assert nameBuf[..nameLen] == Dotted(labels);
    if at + 4 > |raw| { return None; }
    var opt := FindOptLoop(raw, at + 4);
    var found := if opt.Some? then opt.value else (false, false);
    return Some(ParsedQuery(
      U16(raw, 0), raw[2] as nat / 8 % 16, raw[2] % 2 == 1, nameLen, U16(raw, at), U16(raw, at + 2), at + 4,
      found.0, found.1, raw[3] / 16 % 2 == 1));
  }

  /** The label loop of `parse_query`. */
  method ParseName(raw: seq<byte>, nameBuf: array<byte>) returns (end: Option<nat>, nameLen: nat)
    requires |raw| >= HEADER_LEN && nameBuf.Length == MAX_NAME_LEN
    modifies nameBuf
    ensures nameLen <= MAX_NAME_LEN
    ensures var d := Extended([], DecodeName(raw, HEADER_LEN));
      && (end.Some? <==> d.Some? && |d.value.0| <= MAX_NAME_LEN)
      && (end.Some? ==> (nameBuf[..nameLen], end.value) == d.value)
  {
    hide Extended, DecodeName, DottedLabels, LowerAll;
    var at: nat := HEADER_LEN;
    nameLen := 0;
    ghost var target := Extended([], DecodeName(raw, HEADER_LEN));
    while true
      invariant nameLen <= MAX_NAME_LEN
      invariant target == Extended(nameBuf[..nameLen], DecodeName(raw, at))
      decreases |raw| - at
    {
      ExtendedEnd(nameBuf[..nameLen], raw, at);
      if at >= |raw| { return None, nameLen; }
      var len := raw[at] as nat;
      if len >= 64 { return None, nameLen; }
      at := at + 1;
      if len == 0 {
        return Some(at), nameLen;
      }
      if at + len > |raw| { return None, nameLen; }
      ExtendedStep(nameBuf[..nameLen], raw, at - 1);
      ExtendedEnd(nameBuf[..nameLen] + (LowerAll(raw[at..at + len]) + [DOT]), raw, at + len);
      if nameLen + len + 1 > MAX_NAME_LEN { return None, nameLen; }
      CopyLabel(raw, at, len, nameBuf, nameLen);
      nameLen := nameLen + len + 1;
      at := at + len;
    }
  }

  /** The canonical name that results from appending the labels of `rest` to `buf`, and its end. */
  ghost function Extended(buf: seq<byte>, rest: Option<Decoded>): Option<(seq<byte>, nat)> {
    if rest.None? then None else Some((buf + DottedLabels(rest.value.labels), rest.value.end))
  }

  /** A whole name: its canonical form without the root's dot, and where it ends. */
  lemma ExtendedWhole(raw: seq<byte>)
    ensures var d, r := DecodeName(raw, HEADER_LEN), Extended([], DecodeName(raw, HEADER_LEN));
      && (r.Some? <==> d.Some?)
      && (d.Some? ==> r.value == (DottedLabels(d.value.labels), d.value.end))
      && (d.Some? ==> (DottedLabels(d.value.labels) == [] <==> d.value.labels == []))
  {
    var d := DecodeName(raw, HEADER_LEN);
    if d.Some? {
      assert [] + DottedLabels(d.value.labels) == DottedLabels(d.value.labels);
    }
  }

  /** Where a name ends or breaks off; what was read before is part of the result. */
  lemma ExtendedEnd(buf: seq<byte>, raw: seq<byte>, at: nat)
    ensures var r := Extended(buf, DecodeName(raw, at));
      && (at >= |raw| || raw[at] >= 64 ==> r.None?)
      && (at < |raw| && raw[at] == 0 ==> r == Some((buf, at + 1)))
      && (at < |raw| && raw[at] > 0 && at + 1 + raw[at] as nat > |raw| ==> r.None?)
      && (r.Some? ==> |buf| <= |r.value.0|)
  {
    assert buf + [] == buf;
  }

  lemma ExtendedStep(buf: seq<byte>, raw: seq<byte>, at: nat)
    requires at < |raw| && 0 < raw[at] < 64 && at + 1 + raw[at] as nat <= |raw|
    ensures var next := at + 1 + raw[at] as nat;
      Extended(buf, DecodeName(raw, at)) ==
      Extended(buf + (LowerAll(raw[at + 1..next]) + [DOT]), DecodeName(raw, next))
  {
    var next := at + 1 + raw[at] as nat;
    var rest := DecodeName(raw, next);
    if rest.Some? {
      var piece := LowerAll(raw[at + 1..next]) + [DOT];
      assert DecodeName(raw, at).value.labels[1..] == rest.value.labels;
      assert DottedLabels(DecodeName(raw, at).value.labels) == piece + DottedLabels(rest.value.labels);
      assert buf + (piece + DottedLabels(rest.value.labels)) == buf + piece + DottedLabels(rest.value.labels);
    }
  }

  method CopyLabel(raw: seq<byte>, at: nat, len: nat, nameBuf: array<byte>, nameLen: nat)
    requires at + len <= |raw| && nameLen + len + 1 <= nameBuf.Length
    modifies nameBuf
    ensures nameBuf[..nameLen + len + 1] == old(nameBuf[..nameLen]) + (LowerAll(raw[at..at + len]) + [DOT])
  {
    forall i | 0 <= i < len {
      nameBuf[nameLen + i] := Lower(raw[at + i]);
    }
    nameBuf[nameLen + len] := DOT;
  }

  // ---------------------------------------------------------------- questions

  /** End offset of the one question of a message; its start is always the header length. */
  function QuestionSpan(raw: seq<byte>): (end: Option<nat>)
    ensures end.Some? ==> HEADER_LEN + 4 < end.value <= |raw|
  {
    if |raw| < HEADER_LEN || U16(raw, 4) != 1 then None
    else
      var name := SkipName(raw, HEADER_LEN);
      if name.None? || name.value + 4 > |raw| then None else Some(name.value + 4)
  }

  predicate QuestionsMatch(a: seq<byte>, b: seq<byte>) {
    |a| == |b| && forall i :: 0 <= i < |a| ==> Lower(a[i]) == Lower(b[i])
  }

  /** `QuestionKey::from_wire`: the question octets, if they fit the fixed buffer. */
  function QuestionKey(raw: seq<byte>): Option<seq<byte>> {
    var span := QuestionSpan(raw);
    if span.None? || span.value - HEADER_LEN > MAX_QUESTION_LEN then None
    else Some(raw[HEADER_LEN..span.value])
  }

  predicate KeyMatches(key: seq<byte>, raw: seq<byte>) {
    var span := QuestionSpan(raw);
    span.Some? && QuestionsMatch(raw[HEADER_LEN..span.value], key)
  }

  // --------------------------------------------------------------- responses

  datatype Answer = Answer(ip: seq<byte>, ttl: nat) {
    predicate Valid() { |ip| == 4 && ttl < U32_LIMIT }
  }

  function Bit(b: bool): nat { if b then 1 else 0 }

  function ResponseHeader(q: ParsedQuery, rcode: nat, answered: bool): (h: seq<byte>)
    requires q.id < U16_LIMIT && q.opcode < 16
    ensures |h| == HEADER_LEN
  {
    U16Bytes(q.id)
    + [(128 + q.opcode * 8 + Bit(q.recursionDesired)) as byte,
       (128 + Bit(q.checkingDisabled) * 16 + rcode % 16) as byte]
    + U16Bytes(1) + U16Bytes(Bit(answered)) + U16Bytes(0) + U16Bytes(Bit(q.hasOpt))
  }

  /** One A record whose owner is a pointer to the question. */
  function AnswerRecord(answer: Option<Answer>): seq<byte>
    requires answer.Some? ==> answer.value.Valid()
  {
    if answer.None? then []
    else
      [192, HEADER_LEN as byte] + U16Bytes(1) + U16Bytes(1) + U32Bytes(answer.value.ttl) + U16Bytes(4) + answer.value.ip
  }

  /** The OPT echo of section 6.1 of RFC 6891. */
  function OptRecord(q: ParsedQuery): seq<byte> {
    if !q.hasOpt then []
    else [0] + U16Bytes(OPT_RECORD_TYPE) + U16Bytes(EDNS_PAYLOAD_SIZE)
         + U32Bytes(if q.dnssecOk then 32768 else 0) + U16Bytes(0)
  }

  /** `synthesize`: header and question of the request, one optional A record, an OPT echo. */
  function Synthesize(raw: seq<byte>, q: ParsedQuery, rcode: nat, answer: Option<Answer>): seq<byte>
    requires HEADER_LEN <= q.questionEnd <= |raw|
    requires q.id < U16_LIMIT && q.opcode < 16
    requires answer.Some? ==> answer.value.Valid()
  {
    ResponseHeader(q, rcode, answer.Some?) + raw[HEADER_LEN..q.questionEnd] + AnswerRecord(answer) + OptRecord(q)
  }

  /** `set_id`: overwrites the message ID of a message long enough to have one. */
  function SetId(raw: seq<byte>, id: nat): (r: seq<byte>)
    requires id < U16_LIMIT
    ensures |r| == |raw|
    ensures |raw| >= 2 ==> U16(r, 0) == id && r[2..] == raw[2..]
    ensures |raw| < 2 ==> r == raw
  {
    if |raw| >= 2 then U16Bytes(id) + raw[2..] else raw
  }

  function IdOf(raw: seq<byte>): (id: nat)
    ensures id < U16_LIMIT
  {
    if |raw| >= 2 then U16(raw, 0) else 0
  }
}
