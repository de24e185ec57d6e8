/** What parsing a query yields, octet by octet, and which names and header bits it tells apart. */
module QueryLaws {
  import opened Basics
  import opened Wire
  import opened WireTheorems

  /** `b` is the lower-case form of the ASCII letter `a`. */
  predicate CasePair(a: byte, b: byte) {
    65 <= a <= 90 && b == a + 32
  }

  /** Folding identifies the two cases of each ASCII letter and nothing else. */
  lemma FoldsLetterCase(a: byte, b: byte)
    ensures Lower(a) == Lower(b) <==> a == b || CasePair(a, b) || CasePair(b, a)
    ensures !(65 <= Lower(a) <= 90)
  {
  }

  /** One question for these labels and nothing to reject: QR clear, QDCOUNT 1, a name of at most 255 octets. */
  ghost predicate IsQuery(raw: seq<byte>, labels: seq<seq<byte>>) {
    && ValidLabels(labels) && |raw| >= 12 && raw[2] < 128 && raw[4] == 0 && raw[5] == 1
    && |EncodeLabels(labels)| <= 255 && At(raw, 12, EncodeLabels(labels) + [0])
    && 12 + |EncodeLabels(labels)| + 5 <= |raw|
  }

  /** Every such message is accepted, whatever else it holds, and its ID, name, type and class are read off. */
  lemma QueryParses(raw: seq<byte>, labels: seq<seq<byte>>)
    requires IsQuery(raw, labels)
    ensures Parse(raw).Some? && Parse(raw).value.1 == Dotted(labels)
    ensures var q, at := Parse(raw).value.0, 12 + |EncodeLabels(labels)| + 1;
      && q.id == raw[0] as nat * 256 + raw[1] as nat && q.nameLen == |Dotted(labels)|
      && q.qtype == raw[at] as nat * 256 + raw[at + 1] as nat
      && q.qclass == raw[at + 2] as nat * 256 + raw[at + 3] as nat
      && q.questionEnd == at + 4
  {
    hide DecodeName, EncodeLabels, DottedLabels, QueryOf, Dotted;
    EncodingDecodes(raw, 12, labels);
    DottedLength(labels);
    QueryFields(raw, Decoded(labels, 12 + |EncodeLabels(labels)| + 1));
  }

  lemma QueryFields(raw: seq<byte>, d: Decoded)
    requires |raw| >= 12 && d.end + 4 <= |raw|
    ensures var q, at := QueryOf(raw, d), d.end;
      && q.id == raw[0] as nat * 256 + raw[1] as nat && q.nameLen == |Dotted(d.labels)|
      && q.qtype == raw[at] as nat * 256 + raw[at + 1] as nat
      && q.qclass == raw[at + 2] as nat * 256 + raw[at + 3] as nat
      && q.questionEnd == at + 4
  {
    hide FindOpt, Dotted;
  }

  /** And nothing else is accepted. */
  lemma ParsedIsQuery(raw: seq<byte>) returns (labels: seq<seq<byte>>)
    requires Parse(raw).Some?
    ensures IsQuery(raw, labels)
  {
    Accepted(raw);
    labels := DecodeName(raw, 12).value.labels;
  }

  /** The header's flag octets, field by field: section 4.1.1 of RFC 1035 with AD and CD of section 3 of RFC 4035. */
  lemma FlagsRead(raw: seq<byte>, opcode: nat, aa: nat, tc: nat, rd: nat, ra: nat, z: nat, ad: nat, cd: nat, rcode: nat)
    requires Parse(raw).Some? && |raw| >= 12
    requires opcode < 16 && aa < 2 && tc < 2 && rd < 2 && ra < 2 && z < 2 && ad < 2 && cd < 2 && rcode < 16
    requires raw[2] as nat == opcode * 8 + aa * 4 + tc * 2 + rd
    requires raw[3] as nat == ra * 128 + z * 64 + ad * 32 + cd * 16 + rcode
    ensures var q := Parse(raw).value.0;
      q.opcode == opcode && q.recursionDesired == (rd == 1) && q.checkingDisabled == (cd == 1)
  {
    hide DecodeName, FindOpt, Dotted, DottedLabels;
  }

  /** Record `k` of the walk is the first OPT of the additional section. */
  ghost predicate FirstOpt(raw: seq<byte>, recs: seq<Rec>, plain: nat, k: nat) {
    && plain <= k < |recs| && recs[k].rtype == 41 && recs[k].at + 10 <= |raw|
    && forall j :: plain <= j < k ==> recs[j].rtype != 41
  }

  /** `r` is the presence of an OPT and its DO bit. */
  ghost predicate Found(raw: seq<byte>, recs: seq<Rec>, plain: nat, r: Option<(bool, bool)>) {
    && (r.Some? && r.value.0 <==> exists k: nat :: FirstOpt(raw, recs, plain, k))
    && (forall k: nat :: FirstOpt(raw, recs, plain, k) ==> r.Some? && r.value.1 == (raw[recs[k].at + 6] >= 128))
  }

  /**
   EDNS is present exactly when the walk of the records meets an OPT in the additional section, whatever follows
   it, and DO is the top bit of its third TTL octet; a walk that breaks off first leaves the query without EDNS.
   */
  lemma OptExact(raw: seq<byte>)
    requires Parse(raw).Some?
    ensures var q := Parse(raw).value.0;
      && var recs, plain := Walk(raw, q.questionEnd, RecordCount(raw)).recs, U16(raw, 6) + U16(raw, 8);
      && (q.hasOpt <==> exists k: nat :: FirstOpt(raw, recs, plain, k))
      && (q.dnssecOk <==> exists k: nat :: FirstOpt(raw, recs, plain, k) && raw[recs[k].at + 6] >= 128)
  {
    var q := Parse(raw).value.0;
    OptScan(raw, q.questionEnd, U16(raw, 6) + U16(raw, 8), U16(raw, 10));
    hide DecodeName, FindOptFrom, Walk, Dotted, DottedLabels;
  }

  lemma {:induction false} OptScan(raw: seq<byte>, at: nat, plain: nat, scan: nat)
    ensures Found(raw, Walk(raw, at, plain + scan).recs, plain, FindOptFrom(raw, at, plain, scan))
    decreases plain + scan
  {
    hide Found, FindOptFrom, Walk, SkipName;
    var p := SkipName(raw, at);
    if ScanEnds(raw, plain, scan, p) {
      ScanStops(raw, at, plain, scan);
    } else {
      var next, plain' := p.value + 10 + U16(raw, p.value + 8), if plain > 0 then plain - 1 else 0;
      ScanStep(raw, at, plain, scan, p.value, next);
      OptScan(raw, next, plain', plain + scan - 1 - plain');
      OptLater(raw, Walk(raw, at, plain + scan).recs, Walk(raw, next, plain + scan - 1).recs, plain,
        FindOptFrom(raw, at, plain, scan));
    }
  }

  /** No record after the next one is looked at. */
  ghost predicate ScanEnds(raw: seq<byte>, plain: nat, scan: nat, p: Option<nat>) {
    || plain + scan == 0 || p.None? || p.value + 10 > |raw| || (plain == 0 && U16(raw, p.value) == 41)
    || p.value + 10 + U16(raw, p.value + 8) > |raw|
  }

  lemma ScanStops(raw: seq<byte>, at: nat, plain: nat, scan: nat)
    requires ScanEnds(raw, plain, scan, SkipName(raw, at))
    ensures Found(raw, Walk(raw, at, plain + scan).recs, plain, FindOptFrom(raw, at, plain, scan))
  {
    hide Found, SkipName;
    var recs, r, p := Walk(raw, at, plain + scan).recs, FindOptFrom(raw, at, plain, scan), SkipName(raw, at);
    if plain + scan > 0 && p.Some? && p.value + 10 <= |raw| && plain == 0 && U16(raw, p.value) == 41 {
      OptFirst(raw, recs, r);
    } else {
      OptNowhere(raw, recs, plain, r);
    }
  }

  lemma ScanStep(raw: seq<byte>, at: nat, plain: nat, scan: nat, p: nat, next: nat)
    requires plain + scan > 0 && SkipName(raw, at) == Some(p) && p + 10 <= |raw|
    requires next == p + 10 + U16(raw, p + 8) <= |raw| && (plain > 0 || U16(raw, p) != 41)
    ensures Walk(raw, at, plain + scan).recs == [Rec(p, U16(raw, p))] + Walk(raw, next, plain + scan - 1).recs
    ensures var plain' := if plain > 0 then plain - 1 else 0;
      FindOptFrom(raw, at, plain, scan) == FindOptFrom(raw, next, plain', plain + scan - 1 - plain')
  {
    hide SkipName;
  }

  lemma OptNowhere(raw: seq<byte>, recs: seq<Rec>, plain: nat, r: Option<(bool, bool)>)
    requires recs == [] || (|recs| == 1 && (plain > 0 || recs[0].rtype != 41 || recs[0].at + 10 > |raw|))
    requires r.None? || !r.value.0
    ensures Found(raw, recs, plain, r)
  {
  }

  lemma OptFirst(raw: seq<byte>, recs: seq<Rec>, r: Option<(bool, bool)>)
    requires recs != [] && recs[0].rtype == 41 && recs[0].at + 10 <= |raw|
    requires r == Some((true, raw[recs[0].at + 6] >= 128))
    ensures Found(raw, recs, 0, r)
  {
    assert FirstOpt(raw, recs, 0, 0);
  }

  lemma OptLater(raw: seq<byte>, recs: seq<Rec>, rest: seq<Rec>, plain: nat, r: Option<(bool, bool)>)
    requires recs != [] && rest == recs[1..] && (plain > 0 || recs[0].rtype != 41)
    requires Found(raw, rest, if plain > 0 then plain - 1 else 0, r)
    ensures Found(raw, recs, plain, r)
  {
    var plain' := if plain > 0 then plain - 1 else 0;
    forall k: nat ensures FirstOpt(raw, recs, plain, k) <==> k > 0 && FirstOpt(raw, rest, plain', k - 1) {
      OptShift(raw, recs, rest, plain, k);
    }
    hide FirstOpt;
    if r.Some? && r.value.0 {
      var k: nat :| FirstOpt(raw, rest, plain', k);
      assert FirstOpt(raw, recs, plain, k + 1);
    }
  }

  lemma OptShift(raw: seq<byte>, recs: seq<Rec>, rest: seq<Rec>, plain: nat, k: nat)
    requires recs != [] && rest == recs[1..] && (plain > 0 || recs[0].rtype != 41)
    ensures FirstOpt(raw, recs, plain, k) <==>
      k > 0 && FirstOpt(raw, rest, if plain > 0 then plain - 1 else 0, k - 1)
  {
    assert forall j :: 0 <= j < |rest| ==> rest[j] == recs[j + 1];
    assert forall j :: 1 <= j < |recs| ==> recs[j] == rest[j - 1];
  }
}
