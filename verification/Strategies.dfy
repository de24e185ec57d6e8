/**
 The three ways of asking several upstreams: one after another, hedged, and all at once. Each upstream is
 given by how long its attempt takes and what it returns; waiting takes exactly the time waited for, and
 attempts that finish at the same instant are seen in any order.
 */
module Strategies {
  import opened Basics
  import opened CacheModel
  import opened Wire

  const UPSTREAM_TIMEOUT: nat := 5 * SECOND
  const HEDGE_DELAY: nat := 25 * MILLISECOND

  /** When upstream `i` starts at the latest. */
  function HedgeTime(i: nat): nat {
    HEDGE_DELAY * i
  }

  lemma NextHedge(i: nat)
    ensures HedgeTime(i + 1) == HedgeTime(i) + HEDGE_DELAY
  {
  }

  /** An upstream's attempt: the time it takes and the response, or None for an error. */
  datatype Attempt = Attempt(delay: nat, response: Option<seq<byte>>)

  datatype Error = NoUpstreams | Refused(who: nat) | TimedOut

  datatype Reply = Answered(who: nat, response: seq<byte>) | Failed(error: Error)

  ghost predicate AllFail(upstreams: seq<Attempt>) {
    forall i :: 0 <= i < |upstreams| ==> upstreams[i].response.None?
  }

  /** Time taken by the first `n` upstreams one after another. */
  ghost function Elapsed(upstreams: seq<Attempt>, n: nat): nat
    requires n <= |upstreams|
  {
    if n == 0 then 0 else Elapsed(upstreams, n - 1) + upstreams[n - 1].delay
  }

  lemma {:induction false} ElapsedGrows(upstreams: seq<Attempt>, m: nat, n: nat)
    requires m <= n <= |upstreams|
    ensures Elapsed(upstreams, m) <= Elapsed(upstreams, n)
  {
    if m < n {
      ElapsedGrows(upstreams, m, n - 1);
    }
  }

  /** Upstream `i` is the first to succeed and both starts and ends within the shared deadline. */
  ghost predicate FirstInTime(upstreams: seq<Attempt>, i: nat) {
    && i < |upstreams| && upstreams[i].response.Some?
    && (forall j :: 0 <= j < i ==> upstreams[j].response.None?)
    && Elapsed(upstreams, i) < 5 * SECOND && Elapsed(upstreams, i + 1) <= 5 * SECOND
  }

  ghost predicate SequentialReply(upstreams: seq<Attempt>, r: Reply) {
    && (r.Answered? ==> FirstInTime(upstreams, r.who) && upstreams[r.who].response == Some(r.response))
    && (r.Failed? ==> forall i :: 0 <= i < |upstreams| ==> !FirstInTime(upstreams, i))
    && (r.Failed? ==>
          match r.error
          case NoUpstreams => upstreams == []
          case Refused(who) => who == |upstreams| - 1 && AllFail(upstreams)
              && Elapsed(upstreams, |upstreams|) <= UPSTREAM_TIMEOUT
          case TimedOut => Elapsed(upstreams, |upstreams|) >= UPSTREAM_TIMEOUT)
  }

  /** Before the deadline, every upstream tried so far was found to fail. */
  lemma PriorFailed(upstreams: seq<Attempt>, i: nat)
    requires i <= |upstreams| && Elapsed(upstreams, i) <= UPSTREAM_TIMEOUT
    requires forall j :: 0 <= j < i ==> upstreams[j].response.None? || Elapsed(upstreams, j + 1) > UPSTREAM_TIMEOUT
    ensures forall j :: 0 <= j < i ==> upstreams[j].response.None?
  {
    forall j | 0 <= j < i ensures upstreams[j].response.None? {
      ElapsedGrows(upstreams, j + 1, i);
    }
  }

  /** `resolve_sequential`: the first success in order, provided the shared deadline has not passed. */
  method ResolveSequential(upstreams: seq<Attempt>) returns (r: Reply)
    ensures SequentialReply(upstreams, r)
  {
    var lastError: Option<Error> := None;
    var now: nat := 0;
    var i := 0;
    while i < |upstreams|
      invariant i <= |upstreams| && now <= UPSTREAM_TIMEOUT && (lastError.None? <==> i == 0)
      invariant lastError == Some(TimedOut) ==> now == UPSTREAM_TIMEOUT
      invariant lastError.Some? && lastError.value.Refused? ==>
        && lastError.value.who == i - 1 && now == Elapsed(upstreams, i)
        && forall j :: 0 <= j < i ==> upstreams[j].response.None?
      invariant lastError != Some(NoUpstreams)
      invariant now == Min(Elapsed(upstreams, i), UPSTREAM_TIMEOUT)
      invariant forall j :: 0 <= j < i ==> upstreams[j].response.None? || Elapsed(upstreams, j + 1) > UPSTREAM_TIMEOUT
      invariant forall j :: 0 <= j < i ==> !FirstInTime(upstreams, j)
    {
      var remaining := UPSTREAM_TIMEOUT - now;
      if remaining == 0 {
        lastError := Some(TimedOut);
        forall j | i <= j < |upstreams| ensures !FirstInTime(upstreams, j) {
          ElapsedGrows(upstreams, i, j);
        }
        ElapsedGrows(upstreams, i, |upstreams|);
        break;
      }
      if upstreams[i].delay <= remaining {
        now := now + upstreams[i].delay;
        if upstreams[i].response.Some? {
          PriorFailed(upstreams, i);
          return Answered(i, upstreams[i].response.value);
        }
        PriorFailed(upstreams, i);
        lastError := Some(Refused(i));
      } else {
        now := UPSTREAM_TIMEOUT;
        lastError := Some(TimedOut);
      }
      i := i + 1;
    }
    r := Failed(if lastError.Some? then lastError.value else NoUpstreams);
  }

  // ------------------------------------------------------------------------ hedged

  /** A member of the set that finishes no later than any other. */
  predicate Earliest(active: set<nat>, finish: seq<nat>, i: nat) {
    i in active && i < |finish| && forall j :: j in active && j < |finish| ==> finish[i] <= finish[j]
  }

  lemma {:induction false} EarliestExists(active: set<nat>, finish: seq<nat>) returns (i: nat)
    requires active != {} && forall j :: j in active ==> j < |finish|
    ensures Earliest(active, finish, i)
  {
    var x :| x in active;
    if active == {x} {
      i := x;
    } else {
      i := EarliestExists(active - {x}, finish);
      if finish[x] < finish[i] {
        i := x;
      }
    }
  }

  /**
   What one hedged resolution did: `starts[i]` is when upstream `i` was started and `causes[i]` the failed
   upstream whose place it took, if it did not wait for its own turn; `end` is when the resolution was over.
   */
  datatype Hedge = Hedge(reply: Reply, starts: seq<nat>, causes: seq<Option<nat>>, end: nat)

  /** Upstreams start in order, each at most once, upstream `i` by 25·i ms unless the resolution ended before. */
  ghost predicate Started(upstreams: seq<Attempt>, starts: seq<nat>, end: nat) {
    && |starts| <= |upstreams| && end <= UPSTREAM_TIMEOUT && (upstreams != [] ==> starts != [])
    && (forall i :: 0 <= i < |starts| ==> starts[i] <= HedgeTime(i) && starts[i] <= end)
    && (forall i, j :: 0 <= i < j < |starts| ==> starts[i] <= starts[j])
    && (|starts| < |upstreams| ==> end <= HedgeTime(|starts|))
  }

  /** When the attempt of a started upstream is over. */
  ghost function FinishAt(upstreams: seq<Attempt>, starts: seq<nat>, i: nat): nat
    requires i < |starts| <= |upstreams|
  {
    starts[i] + upstreams[i].delay
  }

  /** Upstream `i` starts 25 ms after the one before it, or at the instant an earlier one fails. */
  ghost predicate StartedBy(upstreams: seq<Attempt>, starts: seq<nat>, i: nat, cause: Option<nat>)
    requires 0 < i < |starts| <= |upstreams|
  {
    match cause
    case None => starts[i] == starts[i - 1] + 25 * MILLISECOND
    case Some(j) => j < i && upstreams[j].response.None? && FinishAt(upstreams, starts, j) == starts[i]
  }

  /** No attempt ends between two instants. */
  ghost predicate Quiet(upstreams: seq<Attempt>, starts: seq<nat>, n: nat, from: nat, to: nat)
    requires n <= |starts| <= |upstreams|
  {
    forall j :: 0 <= j < n ==> !(from < FinishAt(upstreams, starts, j) < to)
  }

  /**
   Nothing starts early: every start but the first has its own cause. And nothing is waited for longer than
   that: no attempt ends between two starts, nor between the last one and the end while upstreams remain.
   */
  ghost predicate Paced(upstreams: seq<Attempt>, starts: seq<nat>, causes: seq<Option<nat>>, end: nat) {
    && |causes| == |starts| <= |upstreams|
    && (starts != [] ==> starts[0] == 0 && causes[0].None?)
    && (forall i :: 0 < i < |starts| ==> StartedBy(upstreams, starts, i, causes[i]))
    && (forall i, j :: 0 <= i < j < |causes| && causes[i].Some? ==> causes[i] != causes[j])
    && (forall i :: 0 < i < |starts| ==> Quiet(upstreams, starts, i, starts[i - 1], starts[i]))
    && (0 < |starts| < |upstreams| ==>
          && end <= starts[|starts| - 1] + 25 * MILLISECOND
          && Quiet(upstreams, starts, |starts|, starts[|starts| - 1], end))
  }

  /** No upstream started so far had succeeded before `end`. */
  ghost predicate NoneBefore(upstreams: seq<Attempt>, starts: seq<nat>, end: nat) {
    |starts| <= |upstreams| &&
    forall i :: 0 <= i < |starts| && upstreams[i].response.Some? ==> starts[i] + upstreams[i].delay >= end
  }

  /** Answered by the earliest success, failed only when every upstream was tried and failed, or out of time. */
  ghost predicate HedgedReply(upstreams: seq<Attempt>, h: Hedge) {
    && Started(upstreams, h.starts, h.end) && NoneBefore(upstreams, h.starts, h.end)
    && (h.reply == Failed(TimedOut) || Paced(upstreams, h.starts, h.causes, h.end))
    && match h.reply
       case Answered(who, response) =>
         && who < |h.starts| && upstreams[who].response == Some(response)
            && h.end == h.starts[who] + upstreams[who].delay
       case Failed(TimedOut) =>
         && h.starts != [] && h.end == UPSTREAM_TIMEOUT
         && Paced(upstreams, h.starts, h.causes, h.starts[|h.starts| - 1])
         && (|h.starts| < |upstreams| ==> h.starts[|h.starts| - 1] + 25 * MILLISECOND > UPSTREAM_TIMEOUT)
         && (forall i :: 0 <= i < |h.starts| && upstreams[i].response.Some? ==>
               FinishAt(upstreams, h.starts, i) > UPSTREAM_TIMEOUT)
         && exists i :: 0 <= i < |h.starts| && h.starts[i] + upstreams[i].delay > UPSTREAM_TIMEOUT
       case Failed(Refused(who)) =>
         && |h.starts| == |upstreams| && AllFail(upstreams)
         && who < |upstreams| && h.end == h.starts[who] + upstreams[who].delay
       case Failed(NoUpstreams) => upstreams == []
  }

  /** The hedging loop: start and finish times of the upstreams started, the ones still active, the time. */
  datatype Loop = Loop(starts: seq<nat>, causes: seq<Option<nat>>, finish: seq<nat>, active: set<nat>, now: nat)

  ghost predicate Hedging(upstreams: seq<Attempt>, l: Loop) {
    && |l.starts| == |l.finish| && Started(upstreams, l.starts, l.now)
    && (forall i :: 0 <= i < |l.starts| ==> l.finish[i] == l.starts[i] + upstreams[i].delay)
    && (forall i :: i in l.active ==> i < |l.starts| && l.finish[i] >= l.now)
    && (forall i :: 0 <= i < |l.starts| && i !in l.active ==> upstreams[i].response.None?)
    && (0 < |l.starts| < |upstreams| ==> l.now + HEDGE_DELAY <= HedgeTime(|l.starts|))
  }

  /** The pace of the loop so far: between starts it waits from the last start on. */
  ghost predicate Pacing(upstreams: seq<Attempt>, l: Loop) {
    && |l.finish| == |l.causes| == |l.starts| > 0 && Paced(upstreams, l.starts, l.causes, l.starts[|l.starts| - 1])
    && (forall i :: 0 <= i < |l.starts| ==> l.finish[i] == FinishAt(upstreams, l.starts, i))
    && (forall i :: i in l.active ==> i < |l.starts|)
    && (forall i :: 0 <= i < |l.causes| && l.causes[i].Some? ==>
          l.causes[i].value < |l.starts| && l.causes[i].value !in l.active)
    && (forall j :: 0 <= j < |l.starts| && j !in l.active ==> l.finish[j] <= l.now)
    && (|l.starts| < |upstreams| ==> l.now == l.starts[|l.starts| - 1])
  }

  /** The next upstream starts at `at`. */
  function Launch(upstreams: seq<Attempt>, l: Loop, at: nat, cause: Option<nat>): Loop
    requires |l.starts| < |upstreams|
  {
    Loop(l.starts + [at], l.causes + [cause], l.finish + [at + upstreams[|l.starts|].delay],
         l.active + {|l.starts|}, at)
  }

  /** Nothing finishes before `at`, and the next upstream starts then. */
  lemma LaunchKeeps(upstreams: seq<Attempt>, l: Loop, at: nat, cause: Option<nat>)
    requires Hedging(upstreams, l) && |l.starts| < |upstreams| && l.now <= at <= UPSTREAM_TIMEOUT
    requires at <= HedgeTime(|l.starts|) && forall i :: i in l.active ==> l.finish[i] >= at
    ensures Hedging(upstreams, Launch(upstreams, l, at, cause))
  {
    hide HedgeTime;
    NextHedge(|l.starts|);
  }

  /** The earliest active attempt fails; the next upstream, if any, takes its place. */
  function Replace(upstreams: seq<Attempt>, l: Loop, i: nat): Loop
    requires i < |l.finish|
  {
    var rest := l.(active := l.active - {i});
    if |l.starts| < |upstreams| then Launch(upstreams, rest, l.finish[i], Some(i)) else rest.(now := l.finish[i])
  }

  lemma ReplaceKeeps(upstreams: seq<Attempt>, l: Loop, i: nat)
    requires Hedging(upstreams, l) && Earliest(l.active, l.finish, i) && upstreams[i].response.None?
    requires l.finish[i] <= UPSTREAM_TIMEOUT && (|l.starts| < |upstreams| ==> l.finish[i] <= HedgeTime(|l.starts|))
    ensures Hedging(upstreams, Replace(upstreams, l, i))
  {
    hide HedgeTime;
    NextHedge(|l.starts|);
  }

  lemma Shape(upstreams: seq<Attempt>, l: Loop)
    requires Hedging(upstreams, l)
    ensures |l.finish| == |l.starts| <= |upstreams| && l.now <= UPSTREAM_TIMEOUT
    ensures forall i :: i in l.active ==> i < |l.starts| && l.finish[i] >= l.now
    ensures 0 < |l.starts| < |upstreams| ==> l.now + HEDGE_DELAY <= HedgeTime(|l.starts|)
    ensures l.starts == [] ==> l.now == 0 || upstreams == []
  {
  }

  /** One more start: its own cause holds, and no attempt ended since the last one. */
  lemma LaunchPaced(upstreams: seq<Attempt>, l: Loop, at: nat, cause: Option<nat>)
    requires Pacing(upstreams, l) && |l.starts| < |upstreams| && l.now <= at
    requires forall i :: i in l.active ==> l.finish[i] >= at
    requires match cause
      case None => at == l.now + 25 * MILLISECOND
      case Some(j) => j in l.active && upstreams[j].response.None? && l.finish[j] == at
    ensures var rest := if cause.Some? then l.(active := l.active - {cause.value}) else l;
      Pacing(upstreams, Launch(upstreams, rest, at, cause))
  {
    hide Paced;
    PacedMore(upstreams, l.starts, l.causes, at, cause, l.active, l.finish);
    var rest := if cause.Some? then l.(active := l.active - {cause.value}) else l;
    var l', n := Launch(upstreams, rest, at, cause), |l.starts|;
    assert l'.starts[n] == at;
    forall i | 0 <= i < n + 1 ensures l'.finish[i] == FinishAt(upstreams, l'.starts, i) {
    }
    forall i | 0 <= i < |l'.causes| && l'.causes[i].Some? 
      ensures l'.causes[i].value < n && l'.causes[i].value !in l'.active
    {
      if i < n {
        assert l'.causes[i] == l.causes[i];
      }
    }
  }

  lemma PacedMore(upstreams: seq<Attempt>, starts: seq<nat>, causes: seq<Option<nat>>, at: nat, cause: Option<nat>,
                  active: set<nat>, finish: seq<nat>)
    requires |starts| == |finish| > 0 && |starts| < |upstreams|
    requires Paced(upstreams, starts, causes, starts[|starts| - 1])
    requires starts[|starts| - 1] <= at
    requires forall i :: 0 <= i < |starts| ==> finish[i] == FinishAt(upstreams, starts, i)
    requires forall i :: 0 <= i < |starts| ==>
      if i in active then finish[i] >= at else finish[i] <= starts[|starts| - 1]
    requires forall i :: 0 <= i < |causes| && causes[i].Some? ==> causes[i].value !in active
    requires match cause
      case None => at == starts[|starts| - 1] + 25 * MILLISECOND
      case Some(j) => j in active && j < |starts| && upstreams[j].response.None? && finish[j] == at
    ensures Paced(upstreams, starts + [at], causes + [cause], at)
  {
    var starts', causes', n := starts + [at], causes + [cause], |starts|;
    forall i | 0 < i < n + 1
      ensures StartedBy(upstreams, starts', i, causes'[i]) && Quiet(upstreams, starts', i, starts'[i - 1], starts'[i])
    {
      if i < n {
        assert StartedBy(upstreams, starts, i, causes[i]) && Quiet(upstreams, starts, i, starts[i - 1], starts[i]);
        SamePrefix(upstreams, starts, at, i, causes[i]);
      } else {
        assert forall j :: 0 <= j < n ==> FinishAt(upstreams, starts', j) == finish[j];
      }
    }
    hide StartedBy, Quiet;
    QuietNow(upstreams, starts', at);
  }

  lemma SamePrefix(upstreams: seq<Attempt>, starts: seq<nat>, at: nat, i: nat, cause: Option<nat>)
    requires 0 < i < |starts| < |upstreams|
    requires StartedBy(upstreams, starts, i, cause) && Quiet(upstreams, starts, i, starts[i - 1], starts[i])
    ensures var more := starts + [at];
      StartedBy(upstreams, more, i, cause) && Quiet(upstreams, more, i, more[i - 1], more[i])
  {
    var more := starts + [at];
    assert forall j :: 0 <= j < i ==> FinishAt(upstreams, more, j) == FinishAt(upstreams, starts, j);
  }

  lemma QuietNow(upstreams: seq<Attempt>, starts: seq<nat>, at: nat)
    requires |starts| <= |upstreams|
    ensures Quiet(upstreams, starts, |starts|, at, at)
  {
  }

  /** The earliest attempt fails; the loop goes on with the next upstream or without it. */
  lemma ReplacePaced(upstreams: seq<Attempt>, l: Loop, i: nat)
    requires Pacing(upstreams, l) && Earliest(l.active, l.finish, i) && upstreams[i].response.None?
    requires forall j :: j in l.active ==> l.finish[j] >= l.now
    ensures Pacing(upstreams, Replace(upstreams, l, i))
  {
    if |l.starts| < |upstreams| {
      hide Pacing;
      ActiveInRange(upstreams, l);
      LaunchPaced(upstreams, l, l.finish[i], Some(i));
    }
  }

  lemma ActiveInRange(upstreams: seq<Attempt>, l: Loop)
    requires Pacing(upstreams, l)
    ensures forall i :: i in l.active ==> i < |l.finish|
  {
  }

  lemma LoopBegins(upstreams: seq<Attempt>)
    ensures if upstreams == [] then HedgedReply(upstreams, Hedge(Failed(NoUpstreams), [], [], 0))
            else var l := Launch(upstreams, Loop([], [], [], {}, 0), 0, None);
                 Hedging(upstreams, l) && Pacing(upstreams, l)
  {
  }

  lemma LoopFails(upstreams: seq<Attempt>, l: Loop, error: Error)
    requires Hedging(upstreams, l) && Pacing(upstreams, l) && l.active == {} && |l.starts| == |upstreams| > 0
    requires error.Refused? && error.who < |l.starts| && l.finish[error.who] == l.now
    ensures HedgedReply(upstreams, Hedge(Failed(error), l.starts, l.causes, l.now))
  {
  }

  lemma LoopAnswers(upstreams: seq<Attempt>, l: Loop, i: nat)
    requires Hedging(upstreams, l) && Pacing(upstreams, l) && Earliest(l.active, l.finish, i)
    requires upstreams[i].response.Some? && l.finish[i] <= UPSTREAM_TIMEOUT
    requires |l.starts| < |upstreams| ==> l.finish[i] <= l.now + HEDGE_DELAY
    ensures HedgedReply(upstreams, Hedge(Answered(i, upstreams[i].response.value), l.starts, l.causes, l.finish[i]))
  {
  }

  lemma LoopExpires(upstreams: seq<Attempt>, l: Loop, i: nat)
    requires Hedging(upstreams, l) && Pacing(upstreams, l) && Earliest(l.active, l.finish, i)
    requires l.finish[i] > UPSTREAM_TIMEOUT && (|l.starts| < |upstreams| ==> UPSTREAM_TIMEOUT < l.now + HEDGE_DELAY)
    ensures HedgedReply(upstreams, Hedge(Failed(TimedOut), l.starts, l.causes, UPSTREAM_TIMEOUT))
  {
  }

  /** `resolve_hedged`: a failure or 25 ms of waiting brings in the next upstream. */
  method ResolveHedged(upstreams: seq<Attempt>) returns (h: Hedge)
    ensures HedgedReply(upstreams, h)
  {
    hide Hedging, Pacing, Started, HedgedReply, NoneBefore, AllFail, HedgeTime;
    LoopBegins(upstreams);
    if upstreams == [] {
      return Hedge(Failed(NoUpstreams), [], [], 0);
    }
    var l := Launch(upstreams, Loop([], [], [], {}, 0), 0, None);
    var lastError: Option<Error> := None;
    while l.active != {}
      invariant Hedging(upstreams, l) && Pacing(upstreams, l)
      invariant (l.active == {} ==> |l.starts| == |upstreams|) && |l.starts| > 0
      invariant l.active == {} ==>
        lastError.Some? && lastError.value.Refused? && lastError.value.who < |l.finish|
            && l.finish[lastError.value.who] == l.now
      decreases 2 * (|upstreams| - |l.starts|) + |l.active|
    {
      Shape(upstreams, l);
      ghost var some := EarliestExists(l.active, l.finish);
      var i :| i in l.active && Earliest(l.active, l.finish, i);
      assert Earliest(l.active, l.finish, i);
      var timer, tie: bool := l.now + HEDGE_DELAY, *;
      var slow := |l.starts| < |upstreams| && (l.finish[i] > timer || (l.finish[i] == timer && tie));
      if (if slow then timer else l.finish[i]) > UPSTREAM_TIMEOUT {
        LoopExpires(upstreams, l, i);
        return Hedge(Failed(TimedOut), l.starts, l.causes, UPSTREAM_TIMEOUT);
      }
      if slow {
        LaunchKeeps(upstreams, l, timer, None);
        LaunchPaced(upstreams, l, timer, None);
        l := Launch(upstreams, l, timer, None);
      } else if upstreams[i].response.Some? {
        LoopAnswers(upstreams, l, i);
        return Hedge(Answered(i, upstreams[i].response.value), l.starts, l.causes, l.finish[i]);
      } else {
        ReplaceKeeps(upstreams, l, i);
        ReplacePaced(upstreams, l, i);
        l, lastError := Replace(upstreams, l, i), Some(Refused(i));
      }
    }
    Shape(upstreams, l);
    LoopFails(upstreams, l, lastError.value);
    h := Hedge(Failed(lastError.value), l.starts, l.causes, l.now);
  }

  /** A second upstream is asked only after 25 ms or when the first has failed. */
  lemma SecondStart(upstreams: seq<Attempt>, h: Hedge)
    requires HedgedReply(upstreams, h) && |h.starts| > 1
    ensures h.starts[0] == 0 && (upstreams[0].response.None? || h.starts[1] >= 25 * MILLISECOND)
  {
    assert StartedBy(upstreams, h.starts, 1, h.causes[1]);
  }

  /** A preferred upstream that succeeds within 25 ms is the only one asked, and its response is the answer. */
  lemma HeadStart(upstreams: seq<Attempt>, h: Hedge)
    requires HedgedReply(upstreams, h) && upstreams != []
    requires upstreams[0].response.Some? && upstreams[0].delay < 25 * MILLISECOND
    ensures h.reply == Answered(0, upstreams[0].response.value) && |h.starts| == 1
  {
    if |h.starts| > 1 {
      SecondStart(upstreams, h);
      assert false;
    }
  }

  // -------------------------------------------------------------------------- race

  ghost predicate InTime(upstreams: seq<Attempt>, i: int) {
    0 <= i < |upstreams| && upstreams[i].response.Some? && upstreams[i].delay <= UPSTREAM_TIMEOUT
  }

  /** Answered by the earliest success within the deadline; failed exactly when there is none. */
  ghost predicate RaceReply(upstreams: seq<Attempt>, r: Reply) {
    && (r.Answered? ==>
          && InTime(upstreams, r.who) && upstreams[r.who].response == Some(r.response)
          && forall i :: InTime(upstreams, i) ==> upstreams[r.who].delay <= upstreams[i].delay)
    && (r.Failed? ==> forall i :: 0 <= i < |upstreams| ==> !InTime(upstreams, i))
    && (r.Failed? ==>
          match r.error
          case NoUpstreams => upstreams == []
          case Refused(who) =>
            && who < |upstreams| && upstreams[who].response.None?
            && forall i :: 0 <= i < |upstreams| ==> Min(upstreams[i].delay, UPSTREAM_TIMEOUT) <= upstreams[who].delay
          case TimedOut => exists i :: 0 <= i < |upstreams| && upstreams[i].delay > UPSTREAM_TIMEOUT)
  }

  function Indices(n: nat): (s: set<nat>)
    ensures forall i :: i in s <==> 0 <= i < n
  {
    if n == 0 then {} else Indices(n - 1) + {n - 1}
  }

  /** `resolve_race`: every upstream starts at once; errors are dropped until one succeeds or none is left. */
  method ResolveRace(upstreams: seq<Attempt>) returns (r: Reply)
    ensures RaceReply(upstreams, r)
  {
    if upstreams == [] {
      return Failed(NoUpstreams);
    }
    var finish := seq(|upstreams|, i requires 0 <= i < |upstreams| => Min(upstreams[i].delay, UPSTREAM_TIMEOUT));
    var active := Indices(|upstreams|);
    var lastError := NoUpstreams;
    ghost var last := 0;
    while active != {}
      invariant forall i :: i in active ==> 0 <= i < |upstreams|
      invariant forall i :: 0 <= i < |upstreams| && i !in active ==> !InTime(upstreams, i)
      invariant last < |upstreams| && (lastError.NoUpstreams? ==> active == Indices(|upstreams|))
      invariant lastError.Refused? ==>
        last == lastError.who && upstreams[last].response.None? && upstreams[last].delay <= UPSTREAM_TIMEOUT
      invariant lastError.TimedOut? ==> upstreams[last].delay > UPSTREAM_TIMEOUT
      invariant !lastError.NoUpstreams? ==>
        forall i, j :: 0 <= i < |upstreams| && i !in active && (j in active || j == last) ==> finish[i] <= finish[j]
    {
      ghost var some := EarliestExists(active, finish);
      var i :| i in active && Earliest(active, finish, i);
      assert Earliest(active, finish, i);
      if upstreams[i].delay <= UPSTREAM_TIMEOUT && upstreams[i].response.Some? {
        forall j | InTime(upstreams, j) ensures upstreams[i].delay <= upstreams[j].delay {
          assert j in active && finish[i] <= finish[j];
        }
        return Answered(i, upstreams[i].response.value);
      }
      lastError := if upstreams[i].delay <= UPSTREAM_TIMEOUT then Refused(i) else TimedOut;
      last, active := i, active - {i};
    }
    assert 0 in Indices(|upstreams|);
    forall i | 0 <= i < |upstreams| ensures Min(upstreams[i].delay, UPSTREAM_TIMEOUT) <= finish[last] {
      assert finish[i] <= finish[last];
    }
    r := Failed(lastError);
  }

  // ---------------------------------------------------------------------- together

  lemma {:induction false} FirstSuccess(upstreams: seq<Attempt>, n: nat) returns (i: nat)
    requires n <= |upstreams| && exists j :: 0 <= j < n && upstreams[j].response.Some?
    ensures i < n && upstreams[i].response.Some? && forall j :: 0 <= j < i ==> upstreams[j].response.None?
  {
    if exists j :: 0 <= j < n - 1 && upstreams[j].response.Some? {
      i := FirstSuccess(upstreams, n - 1);
    } else {
      i := n - 1;
    }
  }

  /** Some upstream would have succeeded, but only after the deadline. */
  ghost predicate LateSuccess(upstreams: seq<Attempt>) {
    exists i :: 0 <= i < |upstreams| && upstreams[i].response.Some? && upstreams[i].delay > UPSTREAM_TIMEOUT
  }

  /**
   Unless the deadline ended it, a strategy fails exactly when all upstreams fail. So on any upstreams where
   no strategy ran out of time, sequential, hedged and racing resolution succeed or fail together.
   */
  lemma SameFailures(upstreams: seq<Attempt>, s: Reply, h: Hedge, r: Reply)
    requires SequentialReply(upstreams, s) && HedgedReply(upstreams, h) && RaceReply(upstreams, r)
    ensures s != Failed(TimedOut) ==> (s.Failed? <==> AllFail(upstreams))
    ensures h.reply != Failed(TimedOut) ==> (h.reply.Failed? <==> AllFail(upstreams))
    ensures !(r.Failed? && LateSuccess(upstreams)) ==> (r.Failed? <==> AllFail(upstreams))
    ensures AllFail(upstreams) ==> s.Failed? && h.reply.Failed? && r.Failed?
  {
    hide Paced, NoneBefore, HedgeTime, FinishAt;
    RaceFails(upstreams, r);
  }

  /** Racing resolution fails exactly when no success comes in time. */
  lemma RaceFails(upstreams: seq<Attempt>, r: Reply)
    requires RaceReply(upstreams, r)
    ensures AllFail(upstreams) ==> r.Failed?
    ensures r.Failed? ==> (AllFail(upstreams) <==> !LateSuccess(upstreams))
  {
    if r.Failed? && !AllFail(upstreams) {
      var i := FirstSuccess(upstreams, |upstreams|);
      assert !InTime(upstreams, i);
    }
  }

  datatype Strategy = Sequential | Hedged | Race

  /** The deadline is within reach of a strategy on these upstreams. */
  ghost predicate MayExpire(strategy: Strategy, upstreams: seq<Attempt>) {
    match strategy
    case Sequential => Elapsed(upstreams, |upstreams|) >= UPSTREAM_TIMEOUT
    case Hedged => exists i :: 0 <= i < |upstreams| && HedgeTime(i) + upstreams[i].delay > UPSTREAM_TIMEOUT
    case Race => LateSuccess(upstreams)
  }

  /** `resolve_wire`: the chosen strategy, with the caller's ID put back on the response. */
  method ResolveWire(strategy: Strategy, query: seq<byte>, upstreams: seq<Attempt>)
    returns (response: Option<seq<byte>>)
    ensures response.Some? ==>
      exists i :: 0 <= i < |upstreams| && upstreams[i].response.Some?
                  && response.value == SetId(upstreams[i].response.value, IdOf(query))
    ensures AllFail(upstreams) ==> response.None?
    ensures response.None? ==> AllFail(upstreams) || MayExpire(strategy, upstreams)
  {
    var reply;
    match strategy {
      case Sequential =>
        reply := ResolveSequential(upstreams);
      case Hedged =>
        var h := ResolveHedged(upstreams);
        reply := h.reply;
        HedgeMayExpire(upstreams, h);
      case Race =>
        reply := ResolveRace(upstreams);
        RaceFails(upstreams, reply);
    }
    response := if reply.Answered? then Some(SetId(reply.response, IdOf(query))) else None;
  }

  lemma HedgeMayExpire(upstreams: seq<Attempt>, h: Hedge)
    requires HedgedReply(upstreams, h)
    ensures h.reply == Failed(TimedOut) ==> MayExpire(Hedged, upstreams)
  {
    if h.reply == Failed(TimedOut) {
      var i :| 0 <= i < |h.starts| && h.starts[i] + upstreams[i].delay > UPSTREAM_TIMEOUT;
      assert h.starts[i] <= HedgeTime(i);
    }
  }
}
