/** The circuit breaker over arbitrary traces of calls. Each call carries the clock reading it sees. */
module Breakers {
  import opened Sequences

  datatype State = Closed | Open | HalfOpen

  datatype Breaker = Breaker(failureCount: int, lastFailure: int, state: State, threshold: int, timeout: int)

  datatype Call = Failure(at: int) | Success(at: int) | Query(at: int)

  function New(threshold: int, timeout: int): Breaker {
    Breaker(0, 0, Closed, threshold, timeout)
  }

  function Step(b: Breaker, c: Call): Breaker {
    match c
    case Failure(at) =>
      var opens := b.state == HalfOpen || b.failureCount + 1 >= b.threshold;
      b.(failureCount := b.failureCount + 1, lastFailure := at, state := if opens then Open else b.state)
    case Success(_) =>
      b.(failureCount := 0, state := if b.state == HalfOpen then Closed else b.state)
    case Query(at) =>
      if b.state == Open && at - b.lastFailure > b.timeout then b.(state := HalfOpen) else b
  }

  /** What IsOpen answers. */
  predicate Blocks(b: Breaker, at: int) {
    b.state == Open && at - b.lastFailure <= b.timeout
  }

  class CircuitBreaker {
    var failureCount: int
    var lastFailureTime: int
    var state: State
    const threshold: int
    const timeout: int

    function View(): Breaker
      reads this
    {
      Breaker(failureCount, lastFailureTime, state, threshold, timeout)
    }

    constructor (threshold: int, timeout: int)
      ensures View() == New(threshold, timeout)
    {
      failureCount, lastFailureTime, state := 0, 0, Closed;
      this.threshold, this.timeout := threshold, timeout;
    }

    method IsOpen(now: int) returns (open: bool)
      modifies this
      ensures open == Blocks(old(View()), now) && View() == Step(old(View()), Query(now))
    {
      match state {
        case Open =>
          if now - lastFailureTime > timeout {
            state := HalfOpen;
            return false;
          }
          return true;
        case HalfOpen =>
          return false;
        case Closed =>
          return false;
      }
    }

    method RecordFailure(now: int)
      modifies this
      ensures View() == Step(old(View()), Failure(now))
    {
      failureCount := failureCount + 1;
      lastFailureTime := now;
      if state == HalfOpen {
        state := Open;
      } else if failureCount >= threshold {
        state := Open;
      }
    }

    method RecordSuccess(now: int)
      modifies this
      ensures View() == Step(old(View()), Success(now))
    {
      failureCount := 0;
      if state == HalfOpen {
        state := Closed;
      }
    }
  }

  // ----- Traces -----

  function Replay(b: Breaker, trace: seq<Call>): Breaker {
    if trace == [] then b else Step(Replay(b, Front(trace)), Last(trace))
  }

  /** Failures after the last success; queries do not matter. */
  function FailuresInARow(trace: seq<Call>): nat {
    if trace == [] then 0
    else match Last(trace)
      case Failure(_) => FailuresInARow(Front(trace)) + 1
      case Success(_) => 0
      case Query(_) => FailuresInARow(Front(trace))
  }

  /** When the latest failure happened, or the given default. */
  function LatestFailure(trace: seq<Call>, none: int): int {
    if trace == [] then none
    else if Last(trace).Failure? then Last(trace).at
    else LatestFailure(Front(trace), none)
  }

  /** Counted from the last success at k, or from the start, these are the failures of the trace. */
  lemma {:induction false} FailuresSinceSuccess(trace: seq<Call>, k: nat)
    requires k <= |trace| && (k > 0 ==> trace[k - 1].Success?) && forall i | k <= i < |trace| :: !trace[i].Success?
    ensures FailuresInARow(trace) == |set i | k <= i < |trace| && trace[i].Failure?|
  {
    var failures := set i | k <= i < |trace| && trace[i].Failure?;
    if k == |trace| {
      assert failures == {};
    } else {
      var front, last := Front(trace), |trace| - 1;
      FailuresSinceSuccess(front, k);
      var before := set i | k <= i < |front| && front[i].Failure?;
      assert failures == before + if trace[last].Failure? then {last} else {};
    }
  }

  /** The latest failure is the last failure of the trace. */
  lemma {:induction false} LatestFailureIs(trace: seq<Call>, none: int, k: nat)
    requires k <= |trace| && (k > 0 ==> trace[k - 1].Failure?) && forall i | k <= i < |trace| :: !trace[i].Failure?
    ensures LatestFailure(trace, none) == if k > 0 then trace[k - 1].at else none
  {
    if k < |trace| {
      LatestFailureIs(Front(trace), none, k);
    }
  }

  /** The failure count is the number of failures since the last success. */
  lemma {:induction false} CountsFailuresInARow(threshold: int, timeout: int, trace: seq<Call>)
    ensures Replay(New(threshold, timeout), trace).failureCount == FailuresInARow(trace)
    ensures Replay(New(threshold, timeout), trace).lastFailure == LatestFailure(trace, 0)
    ensures Replay(New(threshold, timeout), trace).threshold == threshold
    ensures Replay(New(threshold, timeout), trace).timeout == timeout
  {
    if trace != [] {
      CountsFailuresInARow(threshold, timeout, Front(trace));
    }
  }

  /** The calls after the breaker last closed. Only a success in the half-open state closes it. */
  function SinceClosing(b: Breaker, trace: seq<Call>): seq<Call> {
    if trace == [] then []
    else if Replay(b, Front(trace)).state == HalfOpen && Last(trace).Success? then []
    else SinceClosing(b, Front(trace)) + [Last(trace)]
  }

  predicate HasRun(trace: seq<Call>, length: int) {
    exists k :: 0 <= k <= |trace| && FailuresInARow(trace[..k]) >= length
  }

  lemma HasRunSnoc(trace: seq<Call>, c: Call, length: int)
    ensures HasRun(trace + [c], length) <==> HasRun(trace, length) || FailuresInARow(trace + [c]) >= length
  {
    var longer := trace + [c];
    assert longer[..|longer|] == longer;
    forall k | 0 <= k <= |trace|
      ensures longer[..k] == trace[..k]
    {
    }
    if HasRun(trace, length) {
      var k :| 0 <= k <= |trace| && FailuresInARow(trace[..k]) >= length;
      assert FailuresInARow(longer[..k]) >= length;
    }
    if FailuresInARow(longer) >= length {
      assert FailuresInARow(longer[..|longer|]) >= length;
    }
  }

  function RunLength(threshold: int): int {
    if threshold < 1 then 1 else threshold
  }

  lemma SnocParts(trace: seq<Call>, c: Call)
    ensures Front(trace + [c]) == trace && Last(trace + [c]) == c
  {
  }

  lemma {:induction false} CountSinceClosing(threshold: int, timeout: int, trace: seq<Call>)
    ensures FailuresInARow(SinceClosing(New(threshold, timeout), trace)) == FailuresInARow(trace)
  {
    if trace != [] {
      CountSinceClosing(threshold, timeout, Front(trace));
      SnocParts(SinceClosing(New(threshold, timeout), Front(trace)), Last(trace));
    }
  }

  /** The breaker is closed exactly when, since it last closed, no run of threshold failures in a row has
      happened. A threshold below one acts as one. */
  lemma {:induction false} ClosedExactlyWithoutRun(threshold: int, timeout: int, trace: seq<Call>)
    ensures Replay(New(threshold, timeout), trace).state == Closed <==>
            !HasRun(SinceClosing(New(threshold, timeout), trace), if threshold < 1 then 1 else threshold)
  {
    var b := New(threshold, timeout);
    if trace == [] {
      assert !HasRun([], RunLength(threshold));
    } else {
      var before := Replay(b, Front(trace));
      ClosedExactlyWithoutRun(threshold, timeout, Front(trace));
      CountsFailuresInARow(threshold, timeout, Front(trace));
      if before.state == HalfOpen && Last(trace).Success? {
        assert !HasRun([], RunLength(threshold));
      } else {
        var since := SinceClosing(b, Front(trace));
        HasRunSnoc(since, Last(trace), RunLength(threshold));
        CountSinceClosing(threshold, timeout, Front(trace));
        SnocParts(since, Last(trace));
        if !Last(trace).Failure? {
          AlreadyARun(since, RunLength(threshold));
        }
      }
    }
  }

  lemma AlreadyARun(trace: seq<Call>, length: int)
    requires length >= 1
    ensures FailuresInARow(trace) >= length ==> HasRun(trace, length)
  {
    assert trace[..|trace|] == trace;
  }

  /** The answer to a query made after the trace. */
  predicate Answer(b: Breaker, trace: seq<Call>, at: int) {
    Blocks(Replay(b, trace), at)
  }

  lemma {:induction false} StaysOpen(b: Breaker, trace: seq<Call>, k: nat, j: nat)
    requires k <= j <= |trace| && Replay(b, trace[..k]).state == Open
    requires forall i | k <= i < j && trace[i].Query? :: Answer(b, trace[..i], trace[i].at)
    ensures Replay(b, trace[..j]).state == Open
  {
    if k < j {
      StaysOpen(b, trace, k, j - 1);
      assert Front(trace[..j]) == trace[..j - 1];
    }
  }

  /** After an opening the breaker blocks until a query comes more than the timeout after the latest failure, later
      failures and successes included, and that query is let through. */
  lemma FirstAdmission(threshold: int, timeout: int, trace: seq<Call>, k: nat, at: int)
    requires k <= |trace| && Replay(New(threshold, timeout), trace[..k]).state == Open
    requires forall i | k <= i < |trace| && trace[i].Query? :: Answer(New(threshold, timeout), trace[..i], trace[i].at)
    ensures Answer(New(threshold, timeout), trace, at) <==> at - LatestFailure(trace, 0) <= timeout
  {
    StaysOpen(New(threshold, timeout), trace, k, |trace|);
    assert trace[..|trace|] == trace;
    CountsFailuresInARow(threshold, timeout, trace);
  }

  /** A failure that completes the threshold, in whatever state, blocks every query until the timeout has passed. */
  lemma ThresholdBlocks(threshold: int, timeout: int, trace: seq<Call>, at: int)
    requires trace != [] && Last(trace).Failure? && FailuresInARow(trace) >= threshold
    ensures Answer(New(threshold, timeout), trace, at) <==> at - Last(trace).at <= timeout
  {
    CountsFailuresInARow(threshold, timeout, Front(trace));
  }

  // ----- The gap inside IsOpen -----

  /** IsOpen reads the state under one lock and writes it under another. */
  function MarkHalfOpen(b: Breaker): Breaker {
    b.(state := HalfOpen)
  }

  /** The breaker after a query that saw the timeout pass, with other calls between its read and its write. */
  function Split(b: Breaker, between: seq<Call>): Breaker {
    MarkHalfOpen(Replay(b, between))
  }

  /** The same calls with the query at time c in one piece. */
  function Atomic(b: Breaker, c: int, between: seq<Call>): Breaker {
    Replay(Step(b, Query(c)), between)
  }

  /** The calls after the last query that turned the breaker half-open; all of them when there is none. */
  function SinceTrial(b: Breaker, trace: seq<Call>): seq<Call> {
    if trace == [] then []
    else if Replay(b, Front(trace)).state == Open && Replay(b, trace).state == HalfOpen then []
    else SinceTrial(b, Front(trace)) + [Last(trace)]
  }

  predicate OnlyQueries(trace: seq<Call>) {
    forall i | 0 <= i < |trace| :: trace[i].Query?
  }

  /** The first call that is not a query is a success. */
  predicate Passed(trace: seq<Call>) {
    trace != [] && (Passed(Front(trace)) || (OnlyQueries(Front(trace)) && Last(trace).Success?))
  }

  lemma {:induction false} NoVerdict(trace: seq<Call>, length: int)
    requires OnlyQueries(trace) && length >= 1
    ensures FailuresInARow(trace) == 0 && !HasRun(trace, length) && !Passed(trace)
  {
    if trace == [] {
      assert !HasRun([], length);
    } else {
      NoVerdict(Front(trace), length);
      assert Last(trace).Query?;
      assert trace == Front(trace) + [Last(trace)];
      HasRunSnoc(Front(trace), Last(trace), length);
    }
  }

  lemma OnlyQueriesSnoc(trace: seq<Call>, c: Call)
    ensures OnlyQueries(trace + [c]) <==> OnlyQueries(trace) && c.Query?
    ensures Passed(trace + [c]) <==> Passed(trace) || (OnlyQueries(trace) && c.Success?)
  {
    SnocParts(trace, c);
    assert forall i | 0 <= i < |trace| :: (trace + [c])[i] == trace[i];
    assert (trace + [c])[|trace|] == c;
  }

  /** How a trial ends: a half-open breaker stays half-open while there are only queries, closes when a success comes
      first and no run of threshold failures follows, and is open otherwise. */
  lemma {:induction false} TrialOutcome(b: Breaker, trace: seq<Call>)
    requires b.state == HalfOpen
    ensures Replay(b, trace).threshold == b.threshold && Replay(b, trace).timeout == b.timeout
    ensures Passed(SinceTrial(b, trace)) ==> Replay(b, trace).failureCount == FailuresInARow(SinceTrial(b, trace))
    ensures Replay(b, trace).state == HalfOpen <==> OnlyQueries(SinceTrial(b, trace))
    ensures Replay(b, trace).state == Closed <==>
            Passed(SinceTrial(b, trace)) && !HasRun(SinceTrial(b, trace), RunLength(b.threshold))
  {
    NoVerdict([], RunLength(b.threshold));
    if trace != [] {
      TrialOutcome(b, Front(trace));
      var t, c := SinceTrial(b, Front(trace)), Last(trace);
      SnocParts(t, c);
      OnlyQueriesSnoc(t, c);
      HasRunSnoc(t, c, RunLength(b.threshold));
      AlreadyARun(t, RunLength(b.threshold));
      if OnlyQueries(t) {
        NoVerdict(t, RunLength(b.threshold));
      }
    }
  }

  /** The state has no influence on the other fields. */
  lemma {:induction false} StateAside(a: Breaker, b: Breaker, trace: seq<Call>)
    requires MarkHalfOpen(a) == MarkHalfOpen(b)
    ensures MarkHalfOpen(Replay(a, trace)) == MarkHalfOpen(Replay(b, trace))
  {
    if trace != [] {
      StateAside(a, b, Front(trace));
    }
  }

  lemma {:induction false} StampIsLatestFailure(b: Breaker, trace: seq<Call>)
    ensures Replay(b, trace).lastFailure == LatestFailure(trace, b.lastFailure)
  {
    if trace != [] {
      StampIsLatestFailure(b, Front(trace));
    }
  }

  /** What the two locks do, when the second is taken at time d. The split query leaves the breaker of the atomic one,
      except that it is half-open. The two are the same exactly when no failure or success came since the last trial
      began. A query from d on that should be blocked is let through exactly when that trial failed, or passed and was
      followed by a run of failures, and the timeout after the latest failure has not passed at d. One failure opens a
      breaker that should stay closed exactly when the trial passed and the count is still short of the threshold. */
  lemma SplitAgreesExactly(b: Breaker, c: int, between: seq<Call>, d: int, at: int)
    requires b.state == Open && !Blocks(b, c)
    ensures Split(b, between) == Atomic(b, c, between).(state := HalfOpen)
    ensures var t := SinceTrial(Step(b, Query(c)), between);
            && (Split(b, between) == Atomic(b, c, between) <==> OnlyQueries(t))
            && ((exists q :: d <= q && Blocks(Atomic(b, c, between), q) && !Blocks(Split(b, between), q)) <==>
                !OnlyQueries(t) && (Passed(t) ==> HasRun(t, RunLength(b.threshold))) &&
                d - LatestFailure(between, b.lastFailure) <= b.timeout)
            && (Step(Atomic(b, c, between), Failure(at)).state == Closed &&
                Step(Split(b, between), Failure(at)).state == Open
                <==> Passed(t) && !HasRun(t, RunLength(b.threshold)) && FailuresInARow(t) + 1 < b.threshold)
  {
    var a := Atomic(b, c, between);
    StateAside(b, Step(b, Query(c)), between);
    TrialOutcome(Step(b, Query(c)), between);
    StampIsLatestFailure(Step(b, Query(c)), between);
    if a.state == Open && d - a.lastFailure <= a.timeout {
      assert Blocks(a, d);
    }
  }

  predicate Within(from: int, to: int, trace: seq<Call>) {
    trace == [] || (Within(from, to, Front(trace)) && from <= Last(trace).at <= to)
  }

  lemma {:induction false} OpenedInGap(b: Breaker, c: int, to: int, between: seq<Call>)
    requires b.state == HalfOpen && Within(c, to, between)
    ensures Replay(b, between).state == Open ==> Replay(b, between).lastFailure >= c
  {
    if between != [] {
      OpenedInGap(b, c, to, Front(between));
    }
  }

  lemma {:induction false} KeepsTimeout(b: Breaker, trace: seq<Call>)
    ensures Replay(b, trace).timeout == b.timeout
  {
    if trace != [] {
      KeepsTimeout(b, Front(trace));
    }
  }

  /** A gap no longer than the timeout holds no second trial, so the calls that count are all calls in the gap. */
  lemma {:induction false} ShortGapHasOneTrial(b: Breaker, c: int, between: seq<Call>)
    requires b.state == HalfOpen && Within(c, c + b.timeout, between)
    ensures SinceTrial(b, between) == between
  {
    if between != [] {
      ShortGapHasOneTrial(b, c, Front(between));
      KeepsTimeout(b, Front(between));
      OpenedInGap(b, c, c + b.timeout, Front(between));
      assert between == Front(between) + [Last(between)];
    }
  }

  /** The law that only a run of threshold failures opens a closed breaker is lost: with a second query and its success
      in the gap, one failure opens the breaker that the atomic query leaves closed. */
  lemma OneFailureOpensAfterGap(b: Breaker, c: int, at: int)
    requires b.state == Open && !Blocks(b, c) && b.threshold > 1
    ensures var between := [Query(c), Success(c)];
            && Step(Split(b, between), Failure(at)).state == Open
            && Step(Atomic(b, c, between), Failure(at)).state == Closed
            && Step(Split(b, between), Failure(at)).failureCount == 1
  {
    var between := [Query(c), Success(c)];
    assert Front(between) == [Query(c)] && Front([Query(c)]) == [];
    StateAside(b, Step(b, Query(c)), between);
    assert Replay(Step(b, Query(c)), [Query(c)]) == Step(b, Query(c));
  }
}
