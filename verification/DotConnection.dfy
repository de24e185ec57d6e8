/**
 One multiplexed DNS-over-TLS connection (section 3.3 of RFC 7858, sections 6.2.1.1 and 7 of RFC 7766)
 as a transition system. Callers reserve a permit, register a query under the pending lock and wait; the
 writer, the peer and the reader move frames and answers; failing is two steps, set the flag and drain.
 Queues are unordered here, so every order of delivery is covered.
 */
module DotConnection {
  import opened Basics
  import opened Wire
  import WireTheorems

  const MAX_IN_FLIGHT: nat := 256
  const ID_SPACE: nat := 0x1_0000

  // ------------------------------------------------------------------ message IDs

  /** The id after `i` steps from `start` in cyclic order. */
  function IdAt(start: nat, i: nat): (id: nat)
    requires start < ID_SPACE && i < ID_SPACE
    ensures id < ID_SPACE
  {
    if start + i < ID_SPACE then start + i else start + i - ID_SPACE
  }

  /** First id from `start` on, cyclically, that is not in use, looking at `i` and later. */
  function FirstFree(used: set<nat>, start: nat, i: nat): (r: Option<nat>)
    requires start < ID_SPACE && i <= ID_SPACE
    ensures r.Some? ==> i <= r.value < ID_SPACE && IdAt(start, r.value) !in used
                        && forall j :: i <= j < r.value ==> IdAt(start, j) in used
    ensures r.None? ==> forall j :: i <= j < ID_SPACE ==> IdAt(start, j) in used
    decreases ID_SPACE - i
  {
    if i == ID_SPACE then None
    else if IdAt(start, i) !in used then Some(i)
    else FirstFree(used, start, i + 1)
  }

  lemma {:induction false} UsedIds(used: set<nat>, start: nat, n: nat) returns (ids: set<nat>)
    requires start < ID_SPACE && n <= ID_SPACE && forall j :: 0 <= j < n ==> IdAt(start, j) in used
    ensures ids <= used && |ids| == n && forall x :: x in ids ==> exists j :: 0 <= j < n && IdAt(start, j) == x
  {
    if n == 0 {
      ids := {};
    } else {
      var rest := UsedIds(used, start, n - 1);
      assert IdAt(start, n - 1) !in rest by {
        assert forall j :: 0 <= j < n - 1 ==> IdAt(start, j) != IdAt(start, n - 1);
      }
      ids := rest + {IdAt(start, n - 1)};
    }
  }

  /** The in-flight limit keeps the id space from filling up. */
  lemma FreeIdExists(used: set<nat>, start: nat)
    requires start < ID_SPACE && |used| < ID_SPACE
    ensures FirstFree(used, start, 0).Some?
  {
    if FirstFree(used, start, 0).None? {
      var ids := UsedIds(used, start, ID_SPACE);
      CardSubset(ids, used);
    }
  }

  /** `next_available_id`: an id no pending query uses, the first one in cyclic order from `start`. */
  function NextAvailableId(used: set<nat>, start: nat): (id: nat)
    requires start < ID_SPACE && |used| < ID_SPACE
    ensures id < ID_SPACE && id !in used
  {
    FreeIdExists(used, start);
    IdAt(start, FirstFree(used, start, 0).value)
  }

  /** Every id from `start` up to the one chosen is in use, in cyclic order. */
  lemma FirstInOrder(used: set<nat>, start: nat) returns (i: nat)
    requires start < ID_SPACE && |used| < ID_SPACE
    ensures i < ID_SPACE && NextAvailableId(used, start) == IdAt(start, i) && IdAt(start, i) !in used
    ensures forall j :: 0 <= j < i ==> IdAt(start, j) in used
  {
    FreeIdExists(used, start);
    i := FirstFree(used, start, 0).value;
  }

  // ------------------------------------------------------------------------ states

  /** A registered query: its caller, the question expected back, and whether the caller has gone. */
  datatype Pending = Pending(caller: nat, key: seq<byte>, closed: bool)

  datatype Stage = Unsent | Queued | AtPeer | Answered(answer: seq<byte>)

  /** A frame on its way, or its answer on its way back. */
  datatype Item = Item(id: nat, frame: seq<byte>, stage: Stage)

  datatype Outcome = Reply(answer: seq<byte>) | Failed

  /** A query the reader has taken out of the pending map and not yet resolved. */
  datatype InHand = InHand(query: Pending, answer: seq<byte>)

  datatype State = State(
    pending: map<nat, Pending>, permits: nat, reserved: map<nat, seq<byte>>, lock: Option<nat>,
    dead: bool, drained: bool, stopped: bool, items: map<nat, Item>, inHand: Option<InHand>,
    known: set<nat>, sends: multiset<nat>, outcomes: map<nat, Outcome>, answers: map<nat, seq<byte>>,
    queries: map<nat, seq<byte>>)

  const START :=
    State(map[], MAX_IN_FLIGHT, map[], None, false, false, false, map[], None, {}, multiset{}, map[], map[], map[])

  datatype Step =
    | Reserve(c: nat, query: seq<byte>)
    | GiveUp(c: nat)
    | Enter(c: nat)
    | Register(c: nat, start: nat)
    | Send(c: nat)
    | Transmit(c: nat)
    | Answer(c: nat, answer: seq<byte>)
    | Take(c: nat)
    | TakeForged(answer: seq<byte>)
    | Deliver
    | Cancel(id: nat)
    | SetDead
    | Drain

  /** What the reader accepts as the answer to a registered query. */
  predicate Accepts(key: seq<byte>, answer: seq<byte>) {
    |answer| >= 3 && answer[2] >= 128 && KeyMatches(key, answer)
  }

  /** An answer with the frame's ID and question. */
  ghost predicate AnswersFrame(frame: seq<byte>, answer: seq<byte>) {
    && QuestionKey(frame).Some? && |answer| >= 3 && answer[2] >= 128
    && IdOf(answer) == IdOf(frame) && KeyMatches(QuestionKey(frame).value, answer)
  }

  /** The frame of a caller's query under `id`, unless it cannot be framed or has no valid question. */
  function FrameFor(query: seq<byte>, id: nat): Option<seq<byte>>
    requires id < ID_SPACE
  {
    var out := SetId(query, id);
    if |out| >= U16_LIMIT || QuestionKey(out).None? then None else Some(out)
  }

  predicate ReaderReady(s: State) {
    s.lock.None? && s.inHand.None? && !s.stopped
  }

  ghost predicate Enabled(s: State, step: Step) {
    match step
    case Reserve(c, _) => c !in s.known && s.permits > 0
    case GiveUp(c) => c in s.reserved && s.lock != Some(c)
    case Enter(c) => c in s.reserved && s.lock.None? && !s.dead
    case Register(c, start) => c in s.reserved && s.lock == Some(c) && start < ID_SPACE && |s.pending| < ID_SPACE
    case Send(c) => c in s.items && s.items[c].stage.Unsent?
    case Transmit(c) => c in s.items && s.items[c].stage.Queued?
    case Answer(c, answer) => c in s.items && s.items[c].stage.AtPeer? && AnswersFrame(s.items[c].frame, answer)
    case Take(c) => c in s.items && s.items[c].stage.Answered? && ReaderReady(s)
    case TakeForged(_) => ReaderReady(s)
    case Deliver => s.inHand.Some?
    case Cancel(id) => id in s.pending
    case SetDead => true
    case Drain => s.dead && !s.drained && s.lock.None?
  }

  ghost function Callers(pending: map<nat, Pending>): set<nat> {
    set id | id in pending :: pending[id].caller
  }

  /** The reader finds a query under the answer's ID; on a short answer or an unknown ID it fails and stops. */
  predicate Finds(s: State, answer: seq<byte>) {
    |answer| >= 2 && IdOf(answer) in s.pending
  }

  // What a step does, field by field. `SetDead` and `Drain` are the two halves of failing.

  /** The frame a registering caller builds, under the first free id from `start`. */
  ghost function Framed(s: State, c: nat, start: nat): (r: (nat, Option<seq<byte>>))
    requires c in s.reserved && start < ID_SPACE && |s.pending| < ID_SPACE
    ensures r.0 < ID_SPACE && r.0 !in s.pending
  {
    var id := NextAvailableId(s.pending.Keys, start);
    (id, FrameFor(s.reserved[c], id))
  }

  ghost function PendingAfter(s: State, step: Step): map<nat, Pending>
    requires Enabled(s, step)
  {
    match step
    case Register(c, start) =>
      var (id, frame) := Framed(s, c, start);
      if frame.None? then s.pending else s.pending[id := Pending(c, QuestionKey(frame.value).value, false)]
    case Take(c) => if Finds(s, s.items[c].stage.answer) then s.pending - {IdOf(s.items[c].stage.answer)} else s.pending
    case TakeForged(answer) => if Finds(s, answer) then s.pending - {IdOf(answer)} else s.pending
    case Cancel(id) => s.pending[id := s.pending[id].(closed := true)]
    case Drain => map[]
    case _ => s.pending
  }

  ghost function PermitsAfter(s: State, step: Step): nat
    requires Enabled(s, step)
  {
    match step
    case Reserve(_, _) => s.permits - 1
    case GiveUp(_) => s.permits + 1
    case Register(c, start) => if Framed(s, c, start).1.None? then s.permits + 1 else s.permits
    case Deliver => s.permits + 1
    case Drain => s.permits + |s.pending|
    case _ => s.permits
  }

  ghost function ReservedAfter(s: State, step: Step): map<nat, seq<byte>>
    requires Enabled(s, step)
  {
    match step
    case Reserve(c, query) => s.reserved[c := query]
    case GiveUp(c) => s.reserved - {c}
    case Register(c, _) => s.reserved - {c}
    case _ => s.reserved
  }

  ghost function LockAfter(s: State, step: Step): Option<nat> {
    match step
    case Enter(c) => Some(c)
    case Register(_, _) => None
    case _ => s.lock
  }

  ghost function StoppedAfter(s: State, step: Step): bool
    requires Enabled(s, step)
  {
    match step
    case Take(c) => !Finds(s, s.items[c].stage.answer)
    case TakeForged(answer) => !Finds(s, answer)
    case Deliver => s.stopped || !Accepts(s.inHand.value.query.key, s.inHand.value.answer)
    case _ => s.stopped
  }

  ghost function ItemsAfter(s: State, step: Step): map<nat, Item>
    requires Enabled(s, step)
  {
    match step
    case Register(c, start) =>
      var (id, frame) := Framed(s, c, start);
      if frame.None? then s.items else s.items[c := Item(id, frame.value, Unsent)]
    case Send(c) => s.items[c := s.items[c].(stage := Queued)]
    case Transmit(c) => s.items[c := s.items[c].(stage := AtPeer)]
    case Answer(c, answer) => s.items[c := s.items[c].(stage := Answered(answer))]
    case Take(c) => s.items - {c}
    case _ => s.items
  }

  ghost function Taken(s: State, answer: seq<byte>): Option<InHand> {
    if Finds(s, answer) then Some(InHand(s.pending[IdOf(answer)], answer)) else None
  }

  ghost function InHandAfter(s: State, step: Step): Option<InHand>
    requires Enabled(s, step)
  {
    match step
    case Take(c) => Taken(s, s.items[c].stage.answer)
    case TakeForged(answer) => Taken(s, answer)
    case Deliver => None
    case _ => s.inHand
  }

  ghost function SendsAfter(s: State, step: Step): multiset<nat>
    requires Enabled(s, step)
  {
    match step
    case Deliver => s.sends + multiset{s.inHand.value.query.caller}
    case Drain => s.sends + multiset(Callers(s.pending))
    case _ => s.sends
  }

  ghost function OutcomesAfter(s: State, step: Step): map<nat, Outcome>
    requires Enabled(s, step)
  {
    match step
    case Deliver =>
      var h := s.inHand.value;
      s.outcomes[h.query.caller := if Accepts(h.query.key, h.answer) then Reply(h.answer) else Failed]
    case Drain => s.outcomes + map c | c in Callers(s.pending) :: Failed
    case _ => s.outcomes
  }

  ghost function Apply(s: State, step: Step): State
    requires Enabled(s, step)
  {
    State(
      PendingAfter(s, step), PermitsAfter(s, step), ReservedAfter(s, step), LockAfter(s, step),
      s.dead || step.SetDead?, s.drained || step.Drain?, StoppedAfter(s, step), ItemsAfter(s, step),
      InHandAfter(s, step), if step.Reserve? then s.known + {step.c} else s.known, SendsAfter(s, step),
      OutcomesAfter(s, step), if step.Answer? then s.answers[step.c := step.answer] else s.answers,
      if step.Reserve? then s.queries[step.c := step.query] else s.queries)
  }

  // --------------------------------------------------- invariant, whatever the peer does

  function InHandCount(s: State): nat { if s.inHand.Some? then 1 else 0 }

  /** Every permit is free, reserved, or held by exactly one registered query. */
  ghost predicate PermitsOk(s: State) {
    s.permits + |s.reserved| + |s.pending| + InHandCount(s) == MAX_IN_FLIGHT
  }

  /** Nothing is pending, or being registered, once a failed connection has drained. */
  ghost predicate LockOk(s: State) {
    && (s.lock.Some? ==> s.lock.value in s.reserved)
    && (s.drained ==> s.dead && s.pending == map[] && s.lock.None?)
  }

  ghost predicate DistinctCallers(pending: map<nat, Pending>) {
    forall i, j :: i in pending && j in pending && pending[i].caller == pending[j].caller ==> i == j
  }

  /** A caller that has registered and not been resolved. */
  ghost predicate Unresolved(s: State, c: nat) {
    c in s.known && c !in s.reserved && s.sends[c] == 0
  }

  ghost predicate CallersOk(s: State) {
    && DistinctCallers(s.pending)
    && (forall id :: id in s.pending ==> id < ID_SPACE && Unresolved(s, s.pending[id].caller))
    && (s.inHand.Some? ==>
          && Unresolved(s, s.inHand.value.query.caller)
          && forall id :: id in s.pending ==> s.pending[id].caller != s.inHand.value.query.caller)
    && (forall c :: c in s.reserved ==> c in s.known && s.sends[c] == 0)
    && (forall c :: s.sends[c] <= 1 && (s.sends[c] == 1 <==> c in s.outcomes))
    && (forall c :: c in s.outcomes ==> c in s.known)
  }

  ghost predicate Inv(s: State) {
    PermitsOk(s) && LockOk(s) && CallersOk(s)
  }

  lemma RemoveSize<V>(m: map<nat, V>, k: nat)
    requires k in m
    ensures |m - {k}| == |m| - 1
  {
    assert (m - {k}).Keys == m.Keys - {k};
    assert |m - {k}| == |(m - {k}).Keys| && |m| == |m.Keys|;
  }

  /** Callers stay in order when permits go back and queries keep their callers. */
  lemma SameCallers(s: State, s': State)
    requires CallersOk(s) && s'.known == s.known && s'.sends == s.sends && s'.outcomes == s.outcomes
    requires s'.inHand == s.inHand && s'.reserved.Keys <= s.reserved.Keys && s'.pending.Keys == s.pending.Keys
    requires forall id :: id in s'.pending ==> s'.pending[id].caller == s.pending[id].caller
    ensures CallersOk(s')
  {
  }

  lemma ReservedCallers(s: State, s': State, c: nat, query: seq<byte>)
    requires CallersOk(s) && c !in s.known && s'.known == s.known + {c} && s'.reserved == s.reserved[c := query]
    requires s'.pending == s.pending && s'.inHand == s.inHand && s'.sends == s.sends && s'.outcomes == s.outcomes
    ensures CallersOk(s') && |s'.reserved| == |s.reserved| + 1
  {
    assert s.sends[c] == 0;
  }

  lemma ReserveKeeps(s: State, step: Step)
    requires Inv(s) && Enabled(s, step) && step.Reserve?
    ensures Inv(Apply(s, step))
  {
    hide CallersOk;
    ReservedCallers(s, Apply(s, step), step.c, step.query);
  }

  lemma EnterKeeps(s: State, step: Step)
    requires Inv(s) && Enabled(s, step) && step.Enter?
    ensures Inv(Apply(s, step))
  {
    hide CallersOk;
    SameCallers(s, Apply(s, step));
  }

  /** A reserved permit goes back. */
  lemma PermitBack(s: State, c: nat)
    requires Inv(s) && c in s.reserved && (s.lock.None? || s.lock == Some(c))
    ensures Inv(s.(lock := None, permits := s.permits + 1, reserved := s.reserved - {c}))
  {
    hide CallersOk;
    RemoveSize(s.reserved, c);
    SameCallers(s, s.(lock := None, permits := s.permits + 1, reserved := s.reserved - {c}));
  }

  lemma GiveUpKeeps(s: State, step: Step)
    requires Inv(s) && Enabled(s, step) && step.GiveUp?
    ensures Inv(Apply(s, step))
  {
    hide CallersOk;
    RemoveSize(s.reserved, step.c);
    SameCallers(s, Apply(s, step));
  }

  /** A reserved permit moves into the pending map under an unused id. */
  lemma PermitMoves(s: State, c: nat, id: nat, p: Pending, item: Item)
    requires Inv(s) && c in s.reserved && s.lock == Some(c) && id < ID_SPACE && id !in s.pending && p.caller == c
    ensures Inv(s.(lock := None, reserved := s.reserved - {c}, pending := s.pending[id := p],
      items := s.items[c := item]))
  {
    hide CallersOk;
    var s' := s.(lock := None, reserved := s.reserved - {c}, pending := s.pending[id := p],
                 items := s.items[c := item]);
    RemoveSize(s.reserved, c);
    MovedCallers(s, s', c, id, p);
  }

  lemma MovedCallers(s: State, s': State, c: nat, id: nat, p: Pending)
    requires CallersOk(s) && c in s.reserved && id < ID_SPACE && id !in s.pending && p.caller == c
    requires s'.reserved == s.reserved - {c} && s'.pending == s.pending[id := p]
    requires s'.inHand == s.inHand && s'.known == s.known && s'.sends == s.sends && s'.outcomes == s.outcomes
    ensures CallersOk(s')
  {
  }

  lemma RegisterKeeps(s: State, step: Step)
    requires Inv(s) && Enabled(s, step) && step.Register?
    ensures Inv(Apply(s, step))
  {
    hide Inv, Framed, QuestionKey;
    var c, framed := step.c, Framed(s, step.c, step.start);
    FramedIs(s, c, step.start);
    if framed.1.None? {
      PermitBack(s, c);
    } else {
      PermitMoves(s, c, framed.0, Pending(c, QuestionKey(framed.1.value).value, false),
                  Item(framed.0, framed.1.value, Unsent));
    }
  }

  lemma FramedIs(s: State, c: nat, start: nat)
    requires c in s.reserved && start < ID_SPACE && |s.pending| < ID_SPACE
    ensures var (id, frame) := Framed(s, c, start);
      frame.Some? ==>
        QuestionKey(frame.value).Some? && IdOf(frame.value) == id && frame.value == SetId(s.reserved[c], id)
  {
    hide QuestionKey, FirstFree, NextAvailableId;
    var (id, frame) := Framed(s, c, start);
    if frame.Some? {
      KeyedLength(frame.value);
    }
  }

  lemma KeyedLength(raw: seq<byte>)
    requires QuestionKey(raw).Some?
    ensures |raw| >= HEADER_LEN
  {
  }

  lemma FrameKeeps(s: State, step: Step)
    requires Inv(s) && Enabled(s, step) && (step.Send? || step.Transmit? || step.Answer? || step.SetDead?)
    ensures Inv(Apply(s, step))
  {
    hide Inv, AnswersFrame;
    SameQueries(s, Apply(s, step));
  }

  /** The invariant does not depend on frames under way, and only grows with the dead flag. */
  lemma SameQueries(s: State, s': State)
    requires Inv(s) && (s.dead ==> s'.dead)
    requires s' == s.(items := s'.items, answers := s'.answers, dead := s'.dead, stopped := s'.stopped)
    ensures Inv(s')
  {
    hide CallersOk;
    SameCallers(s, s');
  }

  lemma CancelKeeps(s: State, step: Step)
    requires Inv(s) && Enabled(s, step) && step.Cancel?
    ensures Inv(Apply(s, step))
  {
    hide CallersOk;
    UpdateSize(s.pending, step.id, s.pending[step.id].(closed := true));
    SameCallers(s, Apply(s, step));
  }

  lemma UpdateSize<V>(m: map<nat, V>, k: nat, v: V)
    requires k in m
    ensures |m[k := v]| == |m|
  {
    assert m[k := v].Keys == m.Keys;
    assert |m[k := v]| == |m[k := v].Keys| && |m| == |m.Keys|;
  }

  lemma TakenCallers(s: State, s': State, id: nat)
    requires CallersOk(s) && id in s.pending && s'.pending == s.pending - {id}
    requires s'.inHand.Some? && s'.inHand.value.query == s.pending[id]
    requires s'.known == s.known && s'.sends == s.sends && s'.outcomes == s.outcomes && s'.reserved == s.reserved
    ensures CallersOk(s')
  {
  }

  /** A pending query goes into the reader's hand, with its permit. */
  lemma PermitTaken(s: State, s': State, id: nat)
    requires Inv(s) && s.inHand.None? && id in s.pending && s'.inHand.Some? && s'.inHand.value.query == s.pending[id]
    requires s' == s.(pending := s.pending - {id}, inHand := s'.inHand, items := s'.items, stopped := s'.stopped)
    ensures Inv(s')
  {
    hide CallersOk;
    RemoveSize(s.pending, id);
    TakenCallers(s, s', id);
  }

  lemma TakeKeeps(s: State, step: Step)
    requires Inv(s) && Enabled(s, step) && (step.Take? || step.TakeForged?)
    ensures Inv(Apply(s, step))
  {
    hide Inv, IdOf;
    var answer := if step.Take? then s.items[step.c].stage.answer else step.answer;
    if Finds(s, answer) {
      PermitTaken(s, Apply(s, step), IdOf(answer));
    } else {
      SameQueries(s, Apply(s, step));
    }
  }

  lemma DeliverKeeps(s: State)
    requires Inv(s) && Enabled(s, Deliver)
    ensures Inv(Apply(s, Deliver))
  {
    hide CallersOk, Accepts;
    var s' := Apply(s, Deliver);
    DeliveredCallers(s, s', s'.outcomes[s.inHand.value.query.caller]);
  }

  lemma DeliveredCallers(s: State, s': State, outcome: Outcome)
    requires CallersOk(s) && s.inHand.Some? && s'.inHand.None?
    requires s'.pending == s.pending && s'.known == s.known && s'.reserved == s.reserved
    requires s'.sends == s.sends + multiset{s.inHand.value.query.caller}
    requires s'.outcomes == s.outcomes[s.inHand.value.query.caller := outcome]
    ensures CallersOk(s')
  {
    var c := s.inHand.value.query.caller;
    assert forall x :: s'.sends[x] == s.sends[x] + (if x == c then 1 else 0);
  }

  lemma DrainKeeps(s: State)
    requires Inv(s) && Enabled(s, Drain)
    ensures Inv(Apply(s, Drain))
  {
    hide CallersOk, Callers;
    DrainCallers(s, Apply(s, Drain));
  }

  lemma DrainCallers(s: State, s': State)
    requires CallersOk(s) && s'.pending == map[] && s'.inHand == s.inHand && s'.reserved == s.reserved
      && s'.known == s.known
    requires s'.sends == s.sends + multiset(Callers(s.pending))
    requires s'.outcomes == s.outcomes + map c | c in Callers(s.pending) :: Failed
    ensures CallersOk(s')
  {
    var gone := Callers(s.pending);
    forall c ensures s'.sends[c] <= 1 && (s'.sends[c] == 1 <==> c in s'.outcomes) {
      assert s'.sends[c] == s.sends[c] + (if c in gone then 1 else 0);
      if c in gone {
        var id :| id in s.pending && s.pending[id].caller == c;
      }
    }
  }

  /** Every step of every peer keeps the invariant. */
  lemma StepKeeps(s: State, step: Step)
    requires Inv(s) && Enabled(s, step)
    ensures Inv(Apply(s, step))
  {
    hide *;
    match step
    case Reserve(_, _) => ReserveKeeps(s, step);
    case GiveUp(_) => GiveUpKeeps(s, step);
    case Enter(_) => EnterKeeps(s, step);
    case Register(_, _) => RegisterKeeps(s, step);
    case Send(_) => FrameKeeps(s, step);
    case Transmit(_) => FrameKeeps(s, step);
    case Answer(_, _) => FrameKeeps(s, step);
    case Cancel(_) => CancelKeeps(s, step);
    case SetDead => FrameKeeps(s, step);
    case Take(_) => TakeKeeps(s, step);
    case TakeForged(_) => TakeKeeps(s, step);
    case Deliver => DeliverKeeps(s);
    case Drain => DrainKeeps(s);
  }

  // ------------------------------------------------------------ an answering peer

  /** A frame under way belongs to the query registered under its id, until the connection drains. */
  ghost predicate ItemOk(s: State, c: nat, item: Item) {
    && c in s.known && c !in s.reserved
    && QuestionKey(item.frame).Some? && IdOf(item.frame) == item.id
    && (!s.drained ==>
          && item.id in s.pending && s.pending[item.id].caller == c
          && s.pending[item.id].key == QuestionKey(item.frame).value)
    && (item.stage.Answered? ==>
          AnswersFrame(item.frame, item.stage.answer) && c in s.answers && s.answers[c] == item.stage.answer)
  }

  ghost predicate HandOk(s: State) {
    s.inHand.Some? ==>
      var h := s.inHand.value;
      && Accepts(h.query.key, h.answer)
      && h.query.caller in s.answers && s.answers[h.query.caller] == h.answer
      && h.query.caller !in s.items
  }

  ghost predicate OutcomesOk(s: State) {
    forall c :: c in s.outcomes && s.outcomes[c].Reply? ==> c in s.answers && s.answers[c] == s.outcomes[c].answer
  }

  ghost predicate ItemsOk(s: State) {
    forall c :: c in s.items ==> ItemOk(s, c, s.items[c])
  }

  /** Resolved callers have nothing under way, and every answer belongs to a frame sent or consumed. */
  ghost predicate RecordsOk(s: State) {
    && HandOk(s) && OutcomesOk(s)
    && (forall c :: c in s.answers ==> c in s.known && c !in s.reserved)
    && (forall c :: c in s.items && !s.items[c].stage.Answered? ==> c !in s.answers)
    && (forall c :: c in s.outcomes && s.outcomes[c].Reply? ==> c !in s.items)
  }

  /** Only a connection that drained has failed anyone. */
  ghost predicate NoFailures(s: State) {
    !s.drained ==> forall c :: c in s.outcomes ==> s.outcomes[c].Reply?
  }

  ghost predicate Honest(s: State) {
    ItemsOk(s) && RecordsOk(s) && NoFailures(s) && (s.stopped ==> s.drained)
  }

  /** Frames stay in order when nothing about their queries changes. */
  lemma SameItems(s: State, s': State)
    requires ItemsOk(s) && s'.items.Keys <= s.items.Keys && s'.known >= s.known
      && s'.reserved.Keys - s.reserved.Keys !! s.known
    requires forall c :: c in s'.items ==> s'.items[c] == s.items[c]
    requires !s'.drained ==> !s.drained && forall c :: c in s'.items ==>
      s.items[c].id in s.pending ==>
        && s.items[c].id in s'.pending && s'.pending[s.items[c].id].caller == s.pending[s.items[c].id].caller
        && s'.pending[s.items[c].id].key == s.pending[s.items[c].id].key
    requires s'.answers == s.answers
    ensures ItemsOk(s')
  {
    hide AnswersFrame, QuestionKey;
    forall c | c in s'.items ensures ItemOk(s', c, s'.items[c]) {
      assert ItemOk(s, c, s.items[c]);
    }
  }

  lemma HonestReserve(s: State, step: Step)
    requires Inv(s) && Honest(s) && Enabled(s, step) && (step.Reserve? || step.GiveUp? || step.Enter? || step.SetDead?)
    ensures Honest(Apply(s, step))
  {
    hide ItemsOk, AnswersFrame, Accepts, Inv;
    SameItems(s, Apply(s, step));
  }

  lemma HonestRegister(s: State, step: Step)
    requires Inv(s) && Honest(s) && Enabled(s, step) && step.Register?
    ensures Honest(Apply(s, step))
  {
    hide ItemsOk, RecordsOk, Inv, Framed, QuestionKey;
    var c, framed := step.c, Framed(s, step.c, step.start);
    FramedIs(s, c, step.start);
    if framed.1.None? {
      HonestBack(s, c);
    } else {
      HonestMoves(s, c, framed.0, framed.1.value);
    }
  }

  lemma HonestBack(s: State, c: nat)
    requires Inv(s) && Honest(s) && c in s.reserved
    ensures Honest(s.(lock := None, permits := s.permits + 1, reserved := s.reserved - {c}))
  {
    hide ItemsOk, AnswersFrame, Accepts, Inv;
    SameItems(s, s.(lock := None, permits := s.permits + 1, reserved := s.reserved - {c}));
  }

  lemma HonestMoves(s: State, c: nat, id: nat, frame: seq<byte>)
    requires Inv(s) && Honest(s) && c in s.reserved && id !in s.pending && s.lock == Some(c)
    requires QuestionKey(frame).Some? && IdOf(frame) == id
    ensures Honest(s.(lock := None, reserved := s.reserved - {c},
                      pending := s.pending[id := Pending(c, QuestionKey(frame).value, false)],
                      items := s.items[c := Item(id, frame, Unsent)]))
  {
    hide Inv, ItemsOk, RecordsOk, QuestionKey, IdOf;
    var s' := s.(lock := None, reserved := s.reserved - {c},
                 pending := s.pending[id := Pending(c, QuestionKey(frame).value, false)],
                 items := s.items[c := Item(id, frame, Unsent)]);
    ReservedFresh(s, c);
    MovedItems(s, s', c, id, frame);
    MovedRecords(s, s', c, Item(id, frame, Unsent));
  }

  /** A caller with a reserved permit is known and unresolved, and a connection with its lock held has not drained. */
  lemma ReservedFresh(s: State, c: nat)
    requires Inv(s) && c in s.reserved && s.lock == Some(c)
    ensures c in s.known && c !in s.outcomes && !s.drained
    ensures s.inHand.Some? ==> s.inHand.value.query.caller != c
  {
  }

  lemma MovedItems(s: State, s': State, c: nat, id: nat, frame: seq<byte>)
    requires ItemsOk(s) && c in s.reserved && id !in s.pending && c in s.known && !s.drained
    requires QuestionKey(frame).Some? && IdOf(frame) == id
    requires s'.reserved == s.reserved - {c} && s'.items == s.items[c := Item(id, frame, Unsent)]
    requires s'.pending == s.pending[id := Pending(c, QuestionKey(frame).value, false)]
    requires s'.known == s.known && s'.drained == s.drained && s'.answers == s.answers
    ensures ItemsOk(s')
  {
    hide AnswersFrame, QuestionKey, IdOf;
    forall x | x in s'.items ensures ItemOk(s', x, s'.items[x]) {
      if x != c {
        assert ItemOk(s, x, s.items[x]);
      }
    }
  }

  lemma MovedRecords(s: State, s': State, c: nat, item: Item)
    requires RecordsOk(s) && c in s.reserved && c in s.known && c !in s.outcomes && item.stage.Unsent?
    requires s.inHand.Some? ==> s.inHand.value.query.caller != c
    requires s'.reserved == s.reserved - {c} && s'.items == s.items[c := item]
    requires s'.known == s.known && s'.answers == s.answers && s'.inHand == s.inHand && s'.outcomes == s.outcomes
    ensures RecordsOk(s')
  {
    hide Accepts;
  }

  lemma HonestFrame(s: State, step: Step)
    requires Honest(s) && Enabled(s, step) && (step.Send? || step.Transmit? || step.Answer?)
    ensures Honest(Apply(s, step))
  {
    hide ItemsOk, RecordsOk, AnswersFrame;
    var s' := Apply(s, step);
    ItemKnown(s, step.c);
    FrameItems(s, s', step.c);
    FrameRecords(s, s', step.c);
  }

  lemma ItemKnown(s: State, c: nat)
    requires ItemsOk(s) && c in s.items
    ensures c in s.known && c !in s.reserved
  {
    assert ItemOk(s, c, s.items[c]);
  }

  /** One frame moves on; an answer it gets answers it. */
  lemma FrameItems(s: State, s': State, c: nat)
    requires ItemsOk(s) && c in s.items && s'.items.Keys == s.items.Keys
    requires s' == s.(items := s'.items, answers := s'.answers)
    requires forall x :: x in s.items && x != c ==> s'.items[x] == s.items[x]
    requires s'.items[c] == s.items[c].(stage := s'.items[c].stage)
    requires if s'.items[c].stage.Answered?
      then AnswersFrame(s.items[c].frame, s'.items[c].stage.answer)
           && s'.answers == s.answers[c := s'.items[c].stage.answer]
      else s'.answers == s.answers
    ensures ItemsOk(s')
  {
    hide AnswersFrame, QuestionKey, IdOf;
    forall x | x in s'.items ensures ItemOk(s', x, s'.items[x]) {
      assert ItemOk(s, x, s.items[x]);
    }
  }

  lemma FrameRecords(s: State, s': State, c: nat)
    requires RecordsOk(s) && c in s.items && !s.items[c].stage.Answered? && c in s.known && c !in s.reserved
    requires s' == s.(items := s'.items, answers := s'.answers) && s'.items.Keys == s.items.Keys
    requires forall x :: x in s.items && x != c ==> s'.items[x] == s.items[x]
    requires if s'.items[c].stage.Answered? then s'.answers == s.answers[c := s'.items[c].stage.answer]
      else s'.answers == s.answers
    ensures RecordsOk(s')
  {
    hide Accepts;
  }

  lemma HonestCancel(s: State, step: Step)
    requires Inv(s) && Honest(s) && Enabled(s, step) && step.Cancel?
    ensures Honest(Apply(s, step))
  {
    hide ItemsOk, AnswersFrame, Accepts, Inv;
    SameItems(s, Apply(s, step));
  }

  /** On a connection that has not drained, an arriving answer finds its own query and passes its checks. */
  lemma AnswerFindsQuery(s: State, c: nat)
    requires Honest(s) && c in s.items && s.items[c].stage.Answered? && !s.drained
    ensures var answer := s.items[c].stage.answer;
      && |answer| >= 3 && IdOf(answer) in s.pending
      && s.pending[IdOf(answer)].caller == c && Accepts(s.pending[IdOf(answer)].key, answer)
  {
    assert ItemOk(s, c, s.items[c]);
  }

  lemma HonestTake(s: State, step: Step)
    requires Inv(s) && Honest(s) && Enabled(s, step) && step.Take?
    ensures Honest(Apply(s, step))
  {
    hide ItemsOk, RecordsOk, PermitsOk, CallersOk, Accepts, IdOf;
    var c, s' := step.c, Apply(s, step);
    ItemAnswered(s, c);
    if !s.drained {
      AnswerFindsQuery(s, c);
      OthersElsewhere(s, c);
    }
    SameItems(s, s');
    TakenRecords(s, s', c);
  }

  lemma ItemAnswered(s: State, c: nat)
    requires ItemsOk(s) && c in s.items && s.items[c].stage.Answered?
    ensures c in s.answers && s.answers[c] == s.items[c].stage.answer && IdOf(s.items[c].stage.answer) == s.items[c].id
  {
    assert ItemOk(s, c, s.items[c]);
  }

  /** Frames of an undrained connection have different ids. */
  lemma OthersElsewhere(s: State, c: nat)
    requires ItemsOk(s) && c in s.items && !s.drained
    ensures forall x :: x in s.items && x != c ==> s.items[x].id != s.items[c].id
  {
    hide QuestionKey, IdOf, AnswersFrame;
    assert ItemOk(s, c, s.items[c]);
    forall x | x in s.items && x != c ensures s.items[x].id != s.items[c].id {
      assert ItemOk(s, x, s.items[x]);
    }
  }

  lemma TakenRecords(s: State, s': State, c: nat)
    requires RecordsOk(s) && c in s.items && s.items[c].stage.Answered? && s.inHand.None?
    requires c in s.answers && s.answers[c] == s.items[c].stage.answer && s'.items == s.items - {c}
    requires s'.known == s.known && s'.reserved == s.reserved && s'.answers == s.answers && s'.outcomes == s.outcomes
    requires s'.inHand.Some? ==>
      var h := s'.inHand.value;
      h.query.caller == c && h.answer == s.items[c].stage.answer && Accepts(h.query.key, h.answer)
    ensures RecordsOk(s')
  {
    hide Accepts;
  }

  lemma HonestDeliver(s: State)
    requires Inv(s) && Honest(s) && Enabled(s, Deliver)
    ensures Honest(Apply(s, Deliver))
  {
    hide ItemsOk, AnswersFrame, Accepts, Inv;
    SameItems(s, Apply(s, Deliver));
  }

  lemma HonestDrain(s: State)
    requires Inv(s) && Honest(s) && Enabled(s, Drain)
    ensures Honest(Apply(s, Drain))
  {
    hide ItemsOk, RecordsOk, Inv;
    var s' := Apply(s, Drain);
    SameItems(s, s');
    assert forall c :: c in s'.outcomes && s'.outcomes[c].Reply? ==> c in s.outcomes && s.outcomes[c] == s'.outcomes[c];
    SameRecords(s, s');
  }

  /** Failing more callers leaves the records in order. */
  lemma SameRecords(s: State, s': State)
    requires RecordsOk(s) && s'.items == s.items && s'.answers == s.answers && s'.inHand == s.inHand
    requires s'.known == s.known && s'.reserved == s.reserved
    requires forall c :: c in s'.outcomes && s'.outcomes[c].Reply? ==>
      c in s.outcomes && s.outcomes[c] == s'.outcomes[c]
    ensures RecordsOk(s')
  {
    hide Accepts;
  }

  lemma HonestKeeps(s: State, step: Step)
    requires Inv(s) && Honest(s) && Enabled(s, step) && !step.TakeForged?
    ensures Honest(Apply(s, step))
  {
    hide *;
    match step
    case Reserve(_, _) => HonestReserve(s, step);
    case GiveUp(_) => HonestReserve(s, step);
    case Enter(_) => HonestReserve(s, step);
    case SetDead => HonestReserve(s, step);
    case Register(_, _) => HonestRegister(s, step);
    case Send(_) => HonestFrame(s, step);
    case Transmit(_) => HonestFrame(s, step);
    case Answer(_, _) => HonestFrame(s, step);
    case Cancel(_) => HonestCancel(s, step);
    case Take(_) => HonestTake(s, step);
    case Deliver => HonestDeliver(s);
    case Drain => HonestDrain(s);
  }

  // ------------------------------------------------------- questions, whatever the peer does

  /** The ID is not part of the question. */
  lemma SpanOfSetId(raw: seq<byte>, id: nat)
    requires id < U16_LIMIT
    ensures QuestionSpan(SetId(raw, id)) == QuestionSpan(raw)
    ensures |raw| >= 2 ==> SetId(raw, id)[2..] == raw[2..]
  {
    var out := SetId(raw, id);
    if |raw| >= HEADER_LEN {
      assert forall i :: 2 <= i < |raw| ==> out[i] == out[2..][i - 2] && raw[i] == raw[2..][i - 2];
      WireTheorems.SkipNameFrame(raw, out, HEADER_LEN);
    }
  }

  lemma KeyOfSetId(raw: seq<byte>, id: nat)
    requires id < U16_LIMIT
    ensures QuestionKey(SetId(raw, id)) == QuestionKey(raw)
  {
    hide SkipName;
    SpanOfSetId(raw, id);
    if QuestionSpan(raw).Some? {
      var end := QuestionSpan(raw).value;
      assert SetId(raw, id)[HEADER_LEN..end] == SetId(raw, id)[2..][HEADER_LEN - 2..end - 2];
      assert raw[HEADER_LEN..end] == raw[2..][HEADER_LEN - 2..end - 2];
    }
  }

  lemma MatchesSetId(key: seq<byte>, raw: seq<byte>, id: nat)
    requires id < U16_LIMIT && KeyMatches(key, raw)
    ensures KeyMatches(key, SetId(raw, id))
  {
    hide SkipName;
    SpanOfSetId(raw, id);
    var end := QuestionSpan(raw).value;
    assert SetId(raw, id)[HEADER_LEN..end] == SetId(raw, id)[2..][HEADER_LEN - 2..end - 2];
    assert raw[HEADER_LEN..end] == raw[2..][HEADER_LEN - 2..end - 2];
  }

  /** The key is that of the caller's own query. */
  ghost predicate Expects(queries: map<nat, seq<byte>>, c: nat, key: seq<byte>) {
    c in queries && QuestionKey(queries[c]) == Some(key)
  }

  ghost predicate Satisfies(queries: map<nat, seq<byte>>, c: nat, answer: seq<byte>) {
    c in queries && QuestionKey(queries[c]).Some? && Accepts(QuestionKey(queries[c]).value, answer)
  }

  /** What is expected for a caller is its own question, and what it got as a reply passed the check against it. */
  ghost predicate AskedOk(s: State) {
    && (forall c :: c in s.queries ==> c in s.known)
    && (forall c :: c in s.reserved ==> c in s.queries && s.queries[c] == s.reserved[c])
    && (forall id :: id in s.pending ==> Expects(s.queries, s.pending[id].caller, s.pending[id].key))
    && (s.inHand.Some? ==> Expects(s.queries, s.inHand.value.query.caller, s.inHand.value.query.key))
    && (forall c :: c in s.outcomes && s.outcomes[c].Reply? ==> Satisfies(s.queries, c, s.outcomes[c].answer))
  }

  lemma AskedReserve(s: State, step: Step)
    requires AskedOk(s) && Enabled(s, step) && step.Reserve?
    ensures AskedOk(Apply(s, step))
  {
    hide QuestionKey, Accepts;
  }

  lemma AskedRegister(s: State, step: Step)
    requires AskedOk(s) && Enabled(s, step) && step.Register?
    ensures AskedOk(Apply(s, step))
  {
    hide QuestionKey, Accepts, Framed, SetId;
    FramedIs(s, step.c, step.start);
    KeyOfSetId(s.reserved[step.c], Framed(s, step.c, step.start).0);
  }

  lemma AskedDeliver(s: State)
    requires AskedOk(s) && Enabled(s, Deliver)
    ensures AskedOk(Apply(s, Deliver))
  {
    hide QuestionKey, Accepts;
  }

  lemma AskedDrain(s: State)
    requires AskedOk(s) && Enabled(s, Drain)
    ensures AskedOk(Apply(s, Drain))
  {
    hide AskedOk, Callers;
    AskedFewer(s, Apply(s, Drain));
  }

  /** Failing callers and dropping their queries leaves the rest in order. */
  lemma AskedFewer(s: State, s': State)
    requires AskedOk(s) && s'.pending == map[] && s'.inHand == s.inHand && s'.reserved == s.reserved
    requires s'.queries == s.queries && s'.known == s.known
    requires forall c :: c in s'.outcomes && s'.outcomes[c].Reply? ==>
      c in s.outcomes && s.outcomes[c] == s'.outcomes[c]
    ensures AskedOk(s')
  {
    hide Expects, Satisfies;
  }

  lemma AskedTake(s: State, step: Step)
    requires AskedOk(s) && Enabled(s, step) && (step.Take? || step.TakeForged?)
    ensures AskedOk(Apply(s, step))
  {
    hide QuestionKey, Accepts, Satisfies, Expects, IdOf;
  }

  lemma AskedSame(s: State, step: Step)
    requires AskedOk(s) && Enabled(s, step)
    requires step.GiveUp? || step.Enter? || step.Send? || step.Transmit? || step.Answer? || step.Cancel?
      || step.SetDead?
    ensures AskedOk(Apply(s, step))
  {
    hide QuestionKey, Accepts, Satisfies, Expects, AnswersFrame;
  }

  lemma AskedKeeps(s: State, step: Step)
    requires AskedOk(s) && Enabled(s, step)
    ensures AskedOk(Apply(s, step))
  {
    hide *;
    match step
    case Reserve(_, _) => AskedReserve(s, step);
    case Register(_, _) => AskedRegister(s, step);
    case Deliver => AskedDeliver(s);
    case Drain => AskedDrain(s);
    case Take(_) => AskedTake(s, step);
    case TakeForged(_) => AskedTake(s, step);
    case GiveUp(_) => AskedSame(s, step);
    case Enter(_) => AskedSame(s, step);
    case Send(_) => AskedSame(s, step);
    case Transmit(_) => AskedSame(s, step);
    case Answer(_, _) => AskedSame(s, step);
    case Cancel(_) => AskedSame(s, step);
    case SetDead => AskedSame(s, step);
  }

  // -------------------------------------------------------------------------- runs

  ghost predicate Legal(s: State, run: seq<Step>)
    decreases run
  {
    run == [] || (Enabled(s, run[0]) && Legal(Apply(s, run[0]), run[1..]))
  }

  ghost function Final(s: State, run: seq<Step>): State
    requires Legal(s, run)
    decreases run
  {
    if run == [] then s else Final(Apply(s, run[0]), run[1..])
  }

  /** The peer answers each frame at most once, with that frame's ID and question, and sends nothing else. */
  ghost predicate PeerAnswers(run: seq<Step>) {
    forall i :: 0 <= i < |run| ==> !run[i].TakeForged?
  }

  /** An outcome, once delivered, never changes. */
  lemma OutcomeStable(s: State, step: Step, c: nat)
    requires Inv(s) && Enabled(s, step) && c in s.outcomes
    ensures c in Apply(s, step).outcomes && Apply(s, step).outcomes[c] == s.outcomes[c]
  {
    hide Inv, Accepts, Callers, PendingAfter, ItemsAfter, ReservedAfter, SendsAfter;
    ResolvedGone(s, c);
  }

  /** A resolved caller is neither pending nor in hand. */
  lemma ResolvedGone(s: State, c: nat)
    requires Inv(s) && c in s.outcomes
    ensures c !in Callers(s.pending) && (s.inHand.Some? ==> s.inHand.value.query.caller != c)
  {
  }

  lemma {:induction false} RunKeeps(s: State, run: seq<Step>)
    requires Inv(s) && Legal(s, run)
    ensures var s' := Final(s, run);
      && Inv(s') && (Honest(s) && PeerAnswers(run) ==> Honest(s')) && (s.drained ==> s'.drained)
      && forall c :: c in s.outcomes ==> c in s'.outcomes && s'.outcomes[c] == s.outcomes[c]
    decreases run
  {
    if run != [] {
      var s1 := Apply(s, run[0]);
      StepKeeps(s, run[0]);
      if Honest(s) && PeerAnswers(run) {
        HonestKeeps(s, run[0]);
      }
      forall c | c in s.outcomes ensures c in s1.outcomes && s1.outcomes[c] == s.outcomes[c] {
        OutcomeStable(s, run[0], c);
      }
      DrainedStays(s, run[0]);
      hide Inv, Honest, Enabled, Apply;
      RunKeeps(s1, run[1..]);
    }
  }

  lemma DrainedStays(s: State, step: Step)
    requires Enabled(s, step)
    ensures s.drained ==> Apply(s, step).drained
  {
  }

  lemma StartOk()
    ensures Inv(START) && Honest(START)
  {
  }

  /**
   Whatever the peer sends and however steps interleave: at most 256 queries are pending, every permit is
   accounted for, no waiter is resolved twice, nothing is pending once a failed connection has drained, and
   a query about to be registered always finds an unused id, so no waiter is overwritten.
   */
  lemma AnyPeerSafe(run: seq<Step>, start: nat)
    requires Legal(START, run) && start < ID_SPACE
    ensures var s := Final(START, run);
      && s.permits + |s.reserved| + |s.pending| + InHandCount(s) == 256
      && |s.pending| <= 256 && DistinctCallers(s.pending)
      && (forall c :: s.sends[c] <= 1)
      && (s.drained ==> s.pending == map[] && s.lock.None?)
      && NextAvailableId(s.pending.Keys, start) !in s.pending
  {
    StartOk();
    RunKeeps(START, run);
    var s := Final(START, run);
    assert |s.pending| == |s.pending.Keys|;
  }

  /**
   With an answering peer, including cancelled callers and late answers: the reader's mismatch and unexpected-ID
   branches are reached only after the connection has failed and drained, on a live connection every arriving
   answer finds the query of its own caller, every reply delivered is the peer's answer to that caller's frame,
   and nobody is failed before the connection drains.
   */
  lemma AnsweringPeerExact(run: seq<Step>, c: nat)
    requires Legal(START, run) && PeerAnswers(run)
    ensures var s := Final(START, run);
      && (c in s.items && s.items[c].stage.Answered? && !s.dead ==>
            var answer := s.items[c].stage.answer;
            IdOf(answer) in s.pending && s.pending[IdOf(answer)].caller == c
                && Accepts(s.pending[IdOf(answer)].key, answer))
      && (s.stopped ==> s.drained)
      && (c in s.outcomes && s.outcomes[c].Failed? ==> s.drained)
      && (s.inHand.Some? ==> Accepts(s.inHand.value.query.key, s.inHand.value.answer))
      && (c in s.outcomes && s.outcomes[c].Reply? ==> c in s.answers && s.outcomes[c].answer == s.answers[c])
  {
    StartOk();
    RunKeeps(START, run);
    var s := Final(START, run);
    if c in s.items && s.items[c].stage.Answered? && !s.dead {
      AnswerFindsQuery(s, c);
    }
  }

  lemma {:induction false} AskedRun(s: State, run: seq<Step>)
    requires AskedOk(s) && Legal(s, run)
    ensures AskedOk(Final(s, run))
    decreases run
  {
    hide AskedOk, Enabled, Apply;
    if run != [] {
      AskedKeeps(s, run[0]);
      AskedRun(Apply(s, run[0]), run[1..]);
    }
  }

  /**
   Whatever the peer sends: a reply delivered to a caller is a response whose question matches the caller's own
   query, and still does once the caller's ID is put back.
   */
  lemma ReplyAsksOwn(run: seq<Step>, c: nat)
    requires Legal(START, run)
    ensures var s := Final(START, run);
      c in s.outcomes && s.outcomes[c].Reply? ==>
        && c in s.queries && QuestionKey(s.queries[c]).Some?
        && |s.outcomes[c].answer| >= 3 && s.outcomes[c].answer[2] >= 128
        && KeyMatches(QuestionKey(s.queries[c]).value, SetId(s.outcomes[c].answer, IdOf(s.queries[c])))
  {
    AskedRun(START, run);
    var s := Final(START, run);
    hide QuestionKey, KeyMatches, SetId, IdOf;
    if c in s.outcomes && s.outcomes[c].Reply? {
      MatchesSetId(QuestionKey(s.queries[c]).value, s.outcomes[c].answer, IdOf(s.queries[c]));
    }
  }

  /**
   Whatever the peer sends: a caller whose query the reader has taken gets exactly the octets taken, if they are
   a response whose question matches the caller's own query, and a failure otherwise.
   */
  lemma DeliveredExactly(run: seq<Step>)
    requires Legal(START, run) && Final(START, run).inHand.Some?
    ensures var s := Final(START, run);
      var c, answer, s' := s.inHand.value.query.caller, s.inHand.value.answer, Apply(s, Deliver);
      && c in s.queries && QuestionKey(s.queries[c]).Some? && c in s'.outcomes && s'.inHand.None?
      && (if |answer| >= 3 && answer[2] >= 128 && KeyMatches(QuestionKey(s.queries[c]).value, answer)
          then s'.outcomes[c] == Reply(answer)
          else s'.outcomes[c] == Failed && s'.stopped)
  {
    AskedRun(START, run);
    hide QuestionKey, KeyMatches;
  }

  /** What the reader has just read. */
  ghost function Read(s: State, step: Step): seq<byte>
    requires Enabled(s, step) && (step.Take? || step.TakeForged?)
  {
    if step.Take? then s.items[step.c].stage.answer else step.answer
  }

  /**
   An answer takes the query pending under its first two octets out of the pending set; one that is too short or
   has no such query stops the reader and resolves nobody.
   */
  lemma TakenExactly(s: State, step: Step)
    requires Enabled(s, step) && (step.Take? || step.TakeForged?)
    ensures var answer, s' := Read(s, step), Apply(s, step);
      && s'.outcomes == s.outcomes && s'.permits == s.permits
      && (if |answer| >= 2 && answer[0] as nat * 256 + answer[1] as nat in s.pending then
            var id := answer[0] as nat * 256 + answer[1] as nat;
            && s'.inHand == Some(InHand(s.pending[id], answer)) && !s'.stopped
            && s'.pending == s.pending - {id}
          else s'.inHand.None? && s'.stopped && s'.pending == s.pending)
  {
    hide Framed, Accepts, AnswersFrame, ItemsAfter, ReservedAfter, LockAfter, SendsAfter, Callers, QuestionKey;
    assert OutcomesAfter(s, step) == s.outcomes && PermitsAfter(s, step) == s.permits;
    assert StoppedAfter(s, step) == !Finds(s, Read(s, step));
    assert InHandAfter(s, step) == Taken(s, Read(s, step));
    hide OutcomesAfter, PermitsAfter, StoppedAfter, InHandAfter;
  }

  /** A caller's query is framed under the first free id exactly when it fits a frame and has a question key. */
  lemma FramedExactly(s: State, c: nat, start: nat)
    requires c in s.reserved && start < ID_SPACE && |s.pending| < ID_SPACE
    ensures var (id, frame) := Framed(s, c, start);
      && id == NextAvailableId(s.pending.Keys, start)
      && (frame.Some? <==> |s.reserved[c]| < 0x1_0000 && QuestionKey(s.reserved[c]).Some?)
      && (frame.Some? ==> frame.value == SetId(s.reserved[c], id))
  {
    var id := NextAvailableId(s.pending.Keys, start);
    KeyOfSetId(s.reserved[c], id);
    hide QuestionKey, FirstFree, NextAvailableId;
  }

  /** One query on a fresh connection, from reservation until its answer arrives. */
  function ArrivingRun(query: seq<byte>, start: nat, answer: seq<byte>): seq<Step> {
    [Reserve(0, query)] + [Enter(0)] + [Register(0, start)] + [Send(0)] + [Transmit(0)] + [Step.Answer(0, answer)]
  }

  function QueryRun(query: seq<byte>, start: nat, answer: seq<byte>): seq<Step> {
    ArrivingRun(query, start, answer) + [Take(0)] + [Deliver]
  }

  /** Every query that can be framed can be answered: any response with its ID and question reaches its caller. */
  lemma QueryAnswered(query: seq<byte>, start: nat, answer: seq<byte>)
    requires start < ID_SPACE && |query| < 0x1_0000 && QuestionKey(query).Some?
    requires |answer| >= 3 && answer[2] >= 128 && IdOf(answer) == start
    requires KeyMatches(QuestionKey(query).value, answer)
    ensures Legal(START, QueryRun(query, start, answer))
    ensures var s := Final(START, QueryRun(query, start, answer));
      s.outcomes == map[0 := Reply(answer)] && s.permits == MAX_IN_FLIGHT && s.pending == map[]
  {
    hide QuestionKey, KeyMatches, IdOf, SetId, Legal, Final;
    var s := Arrived(query, start, answer);
    var run := ArrivingRun(query, start, answer);
    var s1 := Apply(s, Take(0));
    assert s1.inHand == Some(InHand(Pending(0, QuestionKey(query).value, false), answer)) && s1.pending == map[];
    LegalMore(START, run, Take(0));
    LegalMore(START, run + [Take(0)], Deliver);
  }

  /** The answer has arrived. */
  lemma Arrived(query: seq<byte>, start: nat, answer: seq<byte>) returns (s: State)
    requires start < ID_SPACE && |query| < 0x1_0000 && QuestionKey(query).Some?
    requires |answer| >= 3 && answer[2] >= 128 && IdOf(answer) == start
    requires KeyMatches(QuestionKey(query).value, answer)
    ensures Legal(START, ArrivingRun(query, start, answer)) && s == Final(START, ArrivingRun(query, start, answer))
    ensures s == START.(permits := MAX_IN_FLIGHT - 1, known := {0}, queries := map[0 := query], answers := s.answers,
                        pending := map[start := Pending(0, QuestionKey(query).value, false)],
                        items := map[0 := Item(start, SetId(query, start), Answered(answer))])
  {
    hide QuestionKey, KeyMatches, IdOf, SetId, Legal, Final;
    var s1 := Registered(query, start);
    FrameIs(query, start);
    var s2 := Apply(s1, Send(0));
    var s3 := Apply(s2, Transmit(0));
    assert AnswersFrame(SetId(query, start), answer);
    s := Apply(s3, Step.Answer(0, answer));
    var run := [Reserve(0, query)] + [Enter(0)] + [Register(0, start)];
    LegalMore(START, run, Send(0));
    LegalMore(START, run + [Send(0)], Transmit(0));
    LegalMore(START, run + [Send(0)] + [Transmit(0)], Step.Answer(0, answer));
  }

  lemma FrameIs(query: seq<byte>, id: nat)
    requires id < ID_SPACE && QuestionKey(query).Some?
    ensures QuestionKey(SetId(query, id)) == QuestionKey(query) && IdOf(SetId(query, id)) == id
  {
    KeyOfSetId(query, id);
    KeyedLength(query);
    hide QuestionKey;
  }

  lemma Registered(query: seq<byte>, start: nat) returns (s: State)
    requires start < ID_SPACE && |query| < 0x1_0000 && QuestionKey(query).Some?
    ensures var run := [Reserve(0, query)] + [Enter(0)] + [Register(0, start)];
      Legal(START, run) && s == Final(START, run)
    ensures s == START.(permits := MAX_IN_FLIGHT - 1, known := {0}, queries := map[0 := query],
                        pending := map[start := Pending(0, QuestionKey(query).value, false)],
                        items := map[0 := Item(start, SetId(query, start), Unsent)])
  {
    hide QuestionKey, SetId, Legal, Final, Framed, FirstFree, NextAvailableId;
    var s1 := Apply(START, Reserve(0, query));
    var s2 := Apply(s1, Enter(0));
    assert s2.reserved == map[0 := query] && s2.pending == map[];
    FirstId(start);
    FramedExactly(s2, 0, start);
    FrameIs(query, start);
    s := Apply(s2, Register(0, start));
    NoSteps();
    LegalMore(START, [], Reserve(0, query));
    assert [] + [Reserve(0, query)] == [Reserve(0, query)];
    LegalMore(START, [Reserve(0, query)], Enter(0));
    LegalMore(START, [Reserve(0, query)] + [Enter(0)], Register(0, start));
    assert s.items == map[0 := Item(start, SetId(query, start), Unsent)] && s.reserved == map[];
  }

  lemma NoSteps()
    ensures Legal(START, []) && Final(START, []) == START
  {
  }

  lemma FirstId(start: nat)
    requires start < ID_SPACE
    ensures NextAvailableId({}, start) == start
  {
    var i := FirstInOrder({}, start);
    assert IdAt(start, 0) == start;
  }

  lemma {:induction false} LegalMore(s: State, run: seq<Step>, step: Step)
    requires Legal(s, run) && Enabled(Final(s, run), step)
    ensures Legal(s, run + [step]) && Final(s, run + [step]) == Apply(Final(s, run), step)
    decreases run
  {
    hide Enabled, Apply;
    if run == [] {
      assert run + [step] == [step] && [step][1..] == [];
      assert Legal(Apply(s, step), []);
    } else {
      assert (run + [step])[0] == run[0] && (run + [step])[1..] == run[1..] + [step];
      LegalMore(Apply(s, run[0]), run[1..], step);
    }
  }
}
