/** The retry engine: recursive recovery with capped backoff, its books and its breakers. */
module Recovery {
  import opened Breakers
  import opened Sequences

  datatype Strategy = Strategy(maxRetries: int, retryDelay: int, backoffFactor: real, maxRetryDelay: int,
                               requiresManual: bool)

  // ----- Backoff -----

  /** Conversion of a float to an integer truncates toward zero. */
  function Truncate(x: real): int {
    if x >= 0.0 then x.Floor else -((-x).Floor)
  }

  function Multiplied(delay: int, factor: real): int {
    Truncate(delay as real * factor)
  }

  /** The delay multiplied k times, never capped. */
  function Uncapped(s: Strategy, k: nat): int {
    if k == 0 then s.retryDelay else Multiplied(Uncapped(s, k - 1), s.backoffFactor)
  }

  /** Some multiplication up to the k-th went over the limit. */
  predicate Exceeds(s: Strategy, k: nat) {
    k > 0 && (Exceeds(s, k - 1) || Uncapped(s, k) > s.maxRetryDelay)
  }

  function Delay(s: Strategy, k: nat): int {
    if Exceeds(s, k) then s.maxRetryDelay else Uncapped(s, k)
  }

  method CalculateRetryDelay(s: Strategy, retryCount: nat) returns (delay: int)
    ensures delay == Delay(s, retryCount)
  {
    delay := s.retryDelay;
    var i := 0;
    while i < retryCount
      invariant i <= retryCount && !Exceeds(s, i) && delay == Uncapped(s, i)
    {
      delay := Multiplied(delay, s.backoffFactor);
      i := i + 1;
      if delay > s.maxRetryDelay {
        ExceedsFrom(s, i, retryCount);
        return s.maxRetryDelay;
      }
    }
  }

  lemma {:induction false} ExceedsFrom(s: Strategy, i: nat, k: nat)
    requires i <= k && Exceeds(s, i)
    ensures Exceeds(s, k)
  {
    if i < k {
      ExceedsFrom(s, i, k - 1);
    }
  }

  lemma GrowingStep(delay: int, factor: real)
    requires delay >= 0 && factor >= 1.0
    ensures Multiplied(delay, factor) >= delay
  {
    assert delay as real * factor == delay as real + delay as real * (factor - 1.0);
    assert delay as real * (factor - 1.0) >= 0.0;
  }

  lemma {:induction false} UncappedGrows(s: Strategy, k: nat)
    requires s.retryDelay >= 0 && s.backoffFactor >= 1.0
    ensures 0 <= Uncapped(s, k) <= Uncapped(s, k + 1)
  {
    if k > 0 {
      UncappedGrows(s, k - 1);
    }
    GrowingStep(Uncapped(s, k), s.backoffFactor);
  }

  lemma {:induction false} ExceedsExactly(s: Strategy, k: nat)
    requires s.retryDelay >= 0 && s.backoffFactor >= 1.0 && k > 0
    ensures Exceeds(s, k) <==> Uncapped(s, k) > s.maxRetryDelay
  {
    UncappedGrows(s, k - 1);
    if k > 1 {
      ExceedsExactly(s, k - 1);
    }
  }

  /** Every wait between retries is the uncapped delay cut at the limit, and waits never get shorter. The base
      delay itself, which is never waited for, keeps to the limit exactly when it was configured to. */
  lemma BackoffIsCappedGrowth(s: Strategy, k: nat)
    requires s.retryDelay >= 0 && s.backoffFactor >= 1.0
    ensures k > 0 ==> Delay(s, k) == if Uncapped(s, k) <= s.maxRetryDelay then Uncapped(s, k) else s.maxRetryDelay
    ensures k > 0 ==> Delay(s, k) <= Delay(s, k + 1) <= s.maxRetryDelay
    ensures Delay(s, 0) <= s.maxRetryDelay <==> s.retryDelay <= s.maxRetryDelay
  {
    if k > 0 {
      ExceedsExactly(s, k);
      ExceedsExactly(s, k + 1);
      UncappedGrows(s, k);
    }
  }

  function Power(m: nat, k: nat): nat {
    if k == 0 then 1 else m * Power(m, k - 1)
  }

  lemma ProductNotNegative(delay: int, factor: real)
    requires delay >= 0 && factor >= 1.0
    ensures delay as real * factor >= 0.0
  {
    assert delay as real * factor == delay as real + delay as real * (factor - 1.0);
    assert delay as real * (factor - 1.0) >= 0.0;
  }

  lemma MultipliedWithinOne(delay: int, factor: real, limit: int)
    requires delay >= 0 && factor >= 1.0
    ensures Multiplied(delay, factor) as real <= delay as real * factor < Multiplied(delay, factor) as real + 1.0
    ensures Multiplied(delay, factor) > limit <==> delay as real * factor >= limit as real + 1.0
  {
    ProductNotNegative(delay, factor);
  }

  /** Past the limit once, every later delay is the limit; until then it is the product itself. */
  lemma NextDelay(s: Strategy, k: nat)
    requires s.retryDelay >= 0 && s.backoffFactor >= 1.0 && k > 0
    ensures Delay(s, k - 1) >= 0 || Exceeds(s, k - 1)
    ensures if Exceeds(s, k - 1) then k > 1 && Delay(s, k - 1) == Delay(s, k) == s.maxRetryDelay
            else k > 1 ==> Delay(s, k - 1) <= s.maxRetryDelay
    ensures !Exceeds(s, k - 1) ==>
              var next := Multiplied(Delay(s, k - 1), s.backoffFactor);
              next >= Delay(s, k - 1) && Delay(s, k) == if next > s.maxRetryDelay then s.maxRetryDelay else next
  {
    UncappedGrows(s, k - 1);
    if k > 1 {
      ExceedsExactly(s, k - 1);
    }
  }

  /** Each wait against the one before it, which is the base delay at first: the limit when the wait before already was
      or when the factor times that is over it, otherwise the factor times as long, rounded down to a whole unit. */
  lemma WaitGrowsByFactor(s: Strategy, k: nat)
    requires s.retryDelay >= 0 && s.backoffFactor >= 1.0 && k > 0
    ensures Delay(s, 0) == s.retryDelay
    ensures var d, product := Delay(s, k - 1), Delay(s, k - 1) as real * s.backoffFactor;
            if (k > 1 && d >= s.maxRetryDelay) || product >= s.maxRetryDelay as real + 1.0
            then Delay(s, k) == s.maxRetryDelay
            else Delay(s, k) as real <= product < Delay(s, k) as real + 1.0
  {
    NextDelay(s, k);
    if !Exceeds(s, k - 1) {
      MultipliedWithinOne(Delay(s, k - 1), s.backoffFactor, s.maxRetryDelay);
    }
  }

  lemma WholeProduct(delay: int, m: nat)
    requires delay >= 0 && m >= 1
    ensures Multiplied(delay, m as real) == delay * m
  {
    assert delay as real * m as real == (delay * m) as real;
    ProductNotNegative(delay, m as real);
  }

  lemma Regrouped(a: int, m: int, p: int)
    ensures a * p * m == a * (m * p)
  {
  }

  lemma {:induction false} UncappedIsPower(s: Strategy, m: nat, k: nat)
    requires s.retryDelay >= 0 && m >= 1 && s.backoffFactor == m as real
    ensures Uncapped(s, k) == s.retryDelay * Power(m, k)
  {
    if k > 0 {
      UncappedIsPower(s, m, k - 1);
      UncappedGrows(s, k - 1);
      WholeProduct(Uncapped(s, k - 1), m);
      Regrouped(s.retryDelay, m, Power(m, k - 1));
    }
  }

  /** With a whole factor m the k-th wait is the base delay times m to the k, cut at the limit. */
  lemma WaitIsPower(s: Strategy, m: nat, k: nat)
    requires s.retryDelay >= 0 && m >= 1 && s.backoffFactor == m as real && k > 0
    ensures Delay(s, k) == if s.retryDelay * Power(m, k) <= s.maxRetryDelay then s.retryDelay * Power(m, k)
                           else s.maxRetryDelay
  {
    UncappedIsPower(s, m, k);
    BackoffIsCappedGrowth(s, k);
  }

  // ----- Recovery -----

  datatype Severity = Low | Medium | High | Critical

  function BreakerKey(component: string, errorType: string): string {
    component + "-" + errorType
  }

  /** Errors of different components or types have different breakers when no type contains the separator, as none of
      the predefined types does. */
  lemma KeysSeparate(c: string, t: string, c': string, t': string)
    requires '-' !in t && '-' !in t'
    ensures BreakerKey(c, t) == BreakerKey(c', t') <==> c == c' && t == t'
  {
    JoinSeparates(c, t, '-', c', t');
  }

  class ErrorContext {
    const id: string
    const errorType: string
    const component: string
    const severity: Severity
    const timestamp: int
    var retryCount: nat
    var maxRetries: int

    constructor (id: string, errorType: string, component: string, severity: Severity, timestamp: int)
      ensures this.id == id && this.errorType == errorType && this.component == component
      ensures this.severity == severity && this.timestamp == timestamp && retryCount == 0
    {
      this.id, this.errorType, this.component, this.severity := id, errorType, component, severity;
      this.timestamp := timestamp;
      retryCount, maxRetries := 0, 0;
    }

    /** The name under which the breaker of the error is kept. */
    function Key(): string {
      BreakerKey(component, errorType)
    }

    function Snapshot(): (r: Record)
      reads this
      ensures r.id == id && r.errorType == errorType && r.component == component
      ensures r.timestamp == timestamp && r.retryCount == retryCount
    {
      Record(id, errorType, component, timestamp, retryCount)
    }
  }

  /** The copy of an error that goes into the history. */
  datatype Record = Record(id: string, errorType: string, component: string, timestamp: int, retryCount: nat)

  /** How handling an error ended; only Recovered is a nil error. */
  datatype Outcome = Recovered | Cancelled | ManualIntervention | BreakerOpen | UnknownType

  /** The newest records of a history, up to the limit. */
  function Trimmed(history: seq<Record>, limit: nat): seq<Record> {
    if |history| > limit then history[|history| - limit..] else history
  }

  /** The history after some additions, one after another. */
  function HistoryAfter(start: seq<Record>, added: seq<Record>, limit: nat): seq<Record> {
    if added == [] then start else Trimmed(HistoryAfter(start, Front(added), limit) + [Last(added)], limit)
  }

  lemma TrimmedTwice(all: seq<Record>, r: Record, limit: nat)
    ensures Trimmed(Trimmed(all, limit) + [r], limit) == Trimmed(all + [r], limit)
  {
    if |all| > limit {
      assert (all[|all| - limit..] + [r])[1..] == (all + [r])[|all| + 1 - limit..];
    }
  }

  lemma ConcatFrontLast(a: seq<Record>, b: seq<Record>)
    requires b != []
    ensures a + b == (a + Front(b)) + [Last(b)]
  {
    assert b == Front(b) + [Last(b)];
    Associate(a, Front(b), [Last(b)]);
  }

  /** Trimming at every addition keeps exactly the newest of all records ever added, up to the limit. */
  lemma {:induction false} HistoryKeepsNewest(start: seq<Record>, added: seq<Record>, limit: nat)
    requires |start| <= limit
    ensures HistoryAfter(start, added, limit) ==
            if |start + added| > limit then (start + added)[|start + added| - limit..] else start + added
  {
    if added == [] {
      assert start + added == start;
    } else {
      var all := start + Front(added);
      HistoryKeepsNewest(start, Front(added), limit);
      TrimmedTwice(all, Last(added), limit);
      ConcatFrontLast(start, added);
    }
  }

  /** Earlier errors of the same kind within the last hour. */
  function SimilarErrors(history: seq<Record>, errorType: string, component: string, since: int): nat {
    if history == [] then 0
    else
      var h := Last(history);
      SimilarErrors(Front(history), errorType, component, since) +
      if h.timestamp > since && h.errorType == errorType && h.component == component then 1 else 0
  }

  /** Positions of the errors of one type and component after the given time. */
  function SimilarAt(history: seq<Record>, errorType: string, component: string, since: int): set<int> {
    set i | 0 <= i < |history| && history[i].timestamp > since && history[i].errorType == errorType &&
            history[i].component == component
  }

  lemma SimilarAtSnoc(front: seq<Record>, h: Record, errorType: string, component: string, since: int)
    ensures |SimilarAt(front + [h], errorType, component, since)| ==
            |SimilarAt(front, errorType, component, since)| +
            if h.timestamp > since && h.errorType == errorType && h.component == component then 1 else 0
  {
    assert SimilarAt(front + [h], errorType, component, since) ==
           SimilarAt(front, errorType, component, since) +
           if h.timestamp > since && h.errorType == errorType && h.component == component then {|front|} else {};
  }

  /** The history counts each error of the kind that is recent enough once. */
  lemma {:induction false} SimilarErrorsCount(history: seq<Record>, errorType: string, component: string, since: int)
    ensures SimilarErrors(history, errorType, component, since) == |SimilarAt(history, errorType, component, since)|
  {
    if history == [] {
      assert SimilarAt(history, errorType, component, since) == {};
    } else {
      SimilarErrorsCount(Front(history), errorType, component, since);
      SimilarAtSnoc(Front(history), Last(history), errorType, component, since);
      assert history == Front(history) + [Last(history)];
    }
  }

  /** The trace a breaker sees: one call per handler run. */
  predicate Reports(calls: seq<bool>, trace: seq<Call>) {
    |calls| == |trace| &&
    (calls == [] || ((if calls[0] then trace[0].Success? else trace[0].Failure?) && Reports(calls[1..], trace[1..])))
  }

  lemma ReportsCons(ok: bool, c: Call, calls: seq<bool>, trace: seq<Call>)
    requires Reports(calls, trace) && if ok then c.Success? else c.Failure?
    ensures Reports([ok] + calls, [c] + trace)
  {
    assert ([ok] + calls)[1..] == calls && ([c] + trace)[1..] == trace;
  }

  /** Handler runs of one recovery: failures, and at most a final success. */
  predicate Retries(calls: seq<bool>) {
    forall i | 0 <= i < |calls| - 1 :: !calls[i]
  }

  predicate Succeeded(calls: seq<bool>) {
    calls != [] && Last(calls)
  }

  function Max(a: int, b: int): int {
    if a < b then b else a
  }

  /** The waits before retry k and the ones after it, n in all. */
  function Delays(s: Strategy, k: nat, n: nat): seq<int>
    decreases n
  {
    if n == 0 then [] else [Delay(s, k)] + Delays(s, k + 1, n - 1)
  }

  lemma {:induction false} DelaysAt(s: Strategy, k: nat, n: nat, i: nat)
    requires i < n
    ensures |Delays(s, k, n)| == n && Delays(s, k, n)[i] == Delay(s, k + i)
    decreases n
  {
    if i > 0 {
      DelaysAt(s, k + 1, n - 1, i - 1);
    } else if n > 1 {
      DelaysAt(s, k + 1, n - 1, 0);
    }
  }

  /** What one recovery does, from the retry count before to the one after. A handled error gets one handler run per
      retry counted; it gives up only when the retries are used up, and waits before every run except the first one of
      a fresh error. Only a wait can be cancelled, so a fresh error gets its first run and the last retry is never cut
      short. Without a handler one retry is counted and nothing is run. */
  predicate Attempted(s: Strategy, before: nat, handled: bool, outcome: Outcome, calls: seq<bool>, waits: seq<int>,
                      after: nat) {
    && outcome in {Recovered, Cancelled, ManualIntervention}
    && Retries(calls) && (outcome == Recovered <==> Succeeded(calls))
    && |calls| <= Max(0, s.maxRetries - before)
    && (outcome == Cancelled ==> waits != [])
    && waits == Delays(s, Max(1, before), |waits|)
    && if handled then
         && after == before + |calls|
         && (outcome == Cancelled ==> before + |calls| < s.maxRetries && (before > 0 || calls != []))
         && (outcome == ManualIntervention ==> |calls| == Max(0, s.maxRetries - before))
         && |waits| == |calls| - (if before == 0 && calls != [] then 1 else 0) + (if outcome == Cancelled then 1 else 0)
       else
         && calls == []
         && after == before + (if before < s.maxRetries && outcome != Cancelled then 1 else 0)
         && |waits| == if 0 < before < s.maxRetries then 1 else 0
  }

  /** The wait in front of the next handler run. */
  function WaitBefore(s: Strategy, retryCount: nat): seq<int> {
    if retryCount > 0 then [Delay(s, retryCount)] else []
  }

  lemma FailedAndRetried(s: Strategy, before: nat, outcome: Outcome, calls: seq<bool>, waits: seq<int>, after: nat)
    requires before + 1 < s.maxRetries && Attempted(s, before + 1, true, outcome, calls, waits, after)
    ensures Attempted(s, before, true, outcome, [false] + calls, WaitBefore(s, before) + waits, after)
  {
    assert calls != [] ==> Last([false] + calls) == Last(calls);
    assert forall i | 0 < i < |[false] + calls| :: ([false] + calls)[i] == calls[i - 1];
  }

  lemma SingleRun(s: Strategy, before: nat, ok: bool)
    requires if ok then before < s.maxRetries else before + 1 == s.maxRetries
    ensures Attempted(s, before, true, if ok then Recovered else ManualIntervention, [ok], WaitBefore(s, before),
                      before + 1)
  {
  }

  class ErrorHandler {
    var activeErrors: map<string, ErrorContext>
    var errorHistory: seq<Record>
    const maxHistorySize: nat
    var strategies: map<string, Strategy>
    /** Error types whose recovery action has a handler. */
    var handled: set<string>
    var circuitBreakers: map<string, CircuitBreaker>

    constructor (strategies: map<string, Strategy>, handled: set<string>)
      ensures activeErrors == map[] && errorHistory == [] && circuitBreakers == map[]
      ensures this.strategies == strategies && this.handled == handled && maxHistorySize == 1000
    {
      activeErrors, errorHistory, circuitBreakers := map[], [], map[];
      this.strategies, this.handled := strategies, handled;
      maxHistorySize := 1000;
    }

    method AddToHistory(record: Record)
      modifies this`errorHistory
      ensures errorHistory == Trimmed(old(errorHistory) + [record], maxHistorySize)
    {
      errorHistory := errorHistory + [record];
      if |errorHistory| > maxHistorySize {
        errorHistory := errorHistory[|errorHistory| - maxHistorySize..];
      }
    }

    /** Runs the handler until it succeeds, the retries run out or the context is done. */
    method AttemptRecovery(ctx: ErrorContext, s: Strategy, breaker: CircuitBreaker?)
      returns (outcome: Outcome, ghost calls: seq<bool>, ghost waits: seq<int>, ghost trace: seq<Call>)
      modifies this`activeErrors, this`errorHistory, ctx`retryCount, breaker
      ensures Attempted(s, old(ctx.retryCount), ctx.errorType in handled, outcome, calls, waits, ctx.retryCount)
      ensures if outcome == Recovered
              then activeErrors == old(activeErrors) - {ctx.id} &&
                   errorHistory == Trimmed(old(errorHistory) + [ctx.Snapshot()], maxHistorySize)
              else activeErrors == old(activeErrors) && errorHistory == old(errorHistory)
      ensures Reports(calls, trace)
      ensures breaker != null ==> breaker.View() == Replay(old(breaker.View()), trace)
      decreases Max(0, s.maxRetries - ctx.retryCount), 0
    {
      calls, waits, trace := [], [], [];
      if ctx.retryCount >= s.maxRetries {
        return ManualIntervention, calls, waits, trace;
      }
      var done;
      done, waits := WaitForRetry(s, ctx.retryCount);
      if done {
        return Cancelled, calls, waits, trace;
      }
      ctx.retryCount := ctx.retryCount + 1;
      if ctx.errorType !in handled {
        return ManualIntervention, calls, waits, trace;
      }
      ghost var laterWaits;
      outcome, calls, laterWaits, trace := RunHandler(ctx, s, breaker);
      waits := waits + laterWaits;
    }

    /** One handler run and what follows it; the retry is counted already. */
    method RunHandler(ctx: ErrorContext, s: Strategy, breaker: CircuitBreaker?)
      returns (outcome: Outcome, ghost calls: seq<bool>, ghost waits: seq<int>, ghost trace: seq<Call>)
      requires 0 < ctx.retryCount <= s.maxRetries && ctx.errorType in handled
      modifies this`activeErrors, this`errorHistory, ctx`retryCount, breaker
      ensures Attempted(s, old(ctx.retryCount) - 1, true, outcome, calls, WaitBefore(s, old(ctx.retryCount) - 1) + waits,
                        ctx.retryCount)
      ensures if outcome == Recovered
              then activeErrors == old(activeErrors) - {ctx.id} &&
                   errorHistory == Trimmed(old(errorHistory) + [ctx.Snapshot()], maxHistorySize)
              else activeErrors == old(activeErrors) && errorHistory == old(errorHistory)
      ensures Reports(calls, trace)
      ensures breaker != null ==> breaker.View() == Replay(old(breaker.View()), trace)
      decreases Max(0, s.maxRetries - ctx.retryCount), 1
    {
      ghost var before := ctx.retryCount - 1;
      var succeeded: bool := *;
      var now: int := *;
      ghost var report := if succeeded then Success(now) else Failure(now);
      Report(breaker, succeeded, now);
      if !succeeded && ctx.retryCount < s.maxRetries {
        ghost var laterCalls, laterTrace;
        outcome, laterCalls, waits, laterTrace := AttemptRecovery(ctx, s, breaker);
        FailedAndRetried(s, before, outcome, laterCalls, waits, ctx.retryCount);
        ReportsCons(false, report, laterCalls, laterTrace);
        calls, trace := [false] + laterCalls, [report] + laterTrace;
        if breaker != null {
          ReplayCons(old(breaker.View()), report, laterTrace);
        }
        return;
      }
      SingleRun(s, before, succeeded);
      calls, waits, trace := [succeeded], [], [report];
      assert WaitBefore(s, before) + waits == WaitBefore(s, before);
      ReportsCons(succeeded, report, [], []);
      assert [succeeded] + [] == calls && [report] + [] == trace;
      if breaker != null {
        ReplayCons(old(breaker.View()), report, []);
      }
      if !succeeded {
        return ManualIntervention, calls, waits, trace;
      }
      Close(ctx);
      outcome := Recovered;
    }

    /** Takes a recovered error out of the active ones and into the history. */
    method Close(ctx: ErrorContext)
      modifies this`activeErrors, this`errorHistory
      ensures activeErrors == old(activeErrors) - {ctx.id}
      ensures errorHistory == Trimmed(old(errorHistory) + [ctx.Snapshot()], maxHistorySize)
    {
      activeErrors := activeErrors - {ctx.id};
      AddToHistory(ctx.Snapshot());
    }

    /** Waits before a retry, unless the context is done first. */
    method WaitForRetry(s: Strategy, retryCount: nat) returns (done: bool, ghost waits: seq<int>)
      ensures waits == WaitBefore(s, retryCount) && (done ==> retryCount > 0)
    {
      var retryDelay := CalculateRetryDelay(s, retryCount);
      done, waits := false, [];
      if retryCount > 0 {
        waits := [retryDelay];
        done := *;
      }
    }

    /** Tells the breaker, when there is one, how a handler run ended. */
    method Report(breaker: CircuitBreaker?, succeeded: bool, now: int)
      modifies breaker
      ensures breaker != null ==>
                breaker.View() == Step(old(breaker.View()), if succeeded then Success(now) else Failure(now))
    {
      if breaker != null {
        if succeeded {
          breaker.RecordSuccess(now);
        } else {
          breaker.RecordFailure(now);
        }
      }
    }

    method IsRepeatedErrorPattern(ctx: ErrorContext, now: int) returns (repeated: bool)
      ensures repeated <==> SimilarErrors(errorHistory, ctx.errorType, ctx.component, now - 3600) > 5
    {
      var similar := 0;
      for i := 0 to |errorHistory|
        invariant similar == SimilarErrors(errorHistory[..i], ctx.errorType, ctx.component, now - 3600)
      {
        assert errorHistory[..i + 1][..i] == errorHistory[..i];
        var h := errorHistory[i];
        if h.timestamp > now - 3600 && h.errorType == ctx.errorType && h.component == ctx.component {
          similar := similar + 1;
        }
      }
      assert errorHistory[..|errorHistory|] == errorHistory;
      repeated := similar > 5;
    }

    function BreakerFor(ctx: ErrorContext): CircuitBreaker?
      reads this
    {
      if ctx.Key() in circuitBreakers then circuitBreakers[ctx.Key()] else null
    }

    /** Whether an error is handed to a person without any recovery. */
    predicate GoesToPerson(ctx: ErrorContext, s: Strategy, now: int)
      reads this
    {
      || s.requiresManual
      || ctx.severity == Critical
      || SimilarErrors(errorHistory, ctx.errorType, ctx.component, now - 3600) > 5
    }

    lemma PersonInPlainTerms(ctx: ErrorContext, s: Strategy, now: int)
      ensures GoesToPerson(ctx, s, now) <==>
              s.requiresManual || ctx.severity == Critical ||
              |SimilarAt(errorHistory, ctx.errorType, ctx.component, now - 3600)| > 5
    {
      SimilarErrorsCount(errorHistory, ctx.errorType, ctx.component, now - 3600);
    }

    /** Asks the breaker of the error; a missing one is made. */
    method IsCircuitBreakerOpen(ctx: ErrorContext, now: int) returns (open: bool)
      modifies this`circuitBreakers, BreakerFor(ctx)
      ensures BreakerFor(ctx) != null
      ensures old(BreakerFor(ctx)) != null ==> circuitBreakers == old(circuitBreakers)
      ensures old(BreakerFor(ctx)) == null ==>
                fresh(BreakerFor(ctx)) &&
                circuitBreakers == old(circuitBreakers)[ctx.Key() := BreakerFor(ctx)]
      ensures var b := if old(BreakerFor(ctx)) == null then New(5, 300) else old(BreakerFor(ctx).View());
              open == Blocks(b, now) && BreakerFor(ctx).View() == Step(b, Query(now))
    {
      var breaker := BreakerFor(ctx);
      if breaker == null {
        breaker := new CircuitBreaker(5, 300);
        circuitBreakers := circuitBreakers[ctx.Key() := breaker];
      }
      open := breaker.IsOpen(now);
    }

    /** What follows once the strategy is known: the error becomes active, and a person or the retries deal with it. */
    method Recover(ctx: ErrorContext, s: Strategy, breaker: CircuitBreaker, now: int)
      returns (outcome: Outcome, ghost calls: seq<bool>, ghost waits: seq<int>, ghost trace: seq<Call>)
      modifies this`activeErrors, this`errorHistory, ctx, breaker
      ensures ctx.maxRetries == s.maxRetries
      ensures if old(GoesToPerson(ctx, s, now))
              then outcome == ManualIntervention && calls == [] && waits == [] && ctx.retryCount == old(ctx.retryCount)
              else Attempted(s, old(ctx.retryCount), ctx.errorType in handled, outcome, calls, waits, ctx.retryCount)
      ensures activeErrors == if outcome == Recovered then old(activeErrors) - {ctx.id} else old(activeErrors)[ctx.id := ctx]
      ensures errorHistory == if outcome == Recovered then Trimmed(old(errorHistory) + [ctx.Snapshot()], maxHistorySize)
                              else old(errorHistory)
      ensures Reports(calls, trace) && breaker.View() == Replay(old(breaker.View()), trace)
    {
      calls, waits, trace := [], [], [];
      ctx.maxRetries := s.maxRetries;
      activeErrors := activeErrors[ctx.id := ctx];
      var repeated := IsRepeatedErrorPattern(ctx, now);
      if s.requiresManual || ctx.severity == Critical || repeated {
        return ManualIntervention, calls, waits, trace;
      }
      outcome, calls, waits, trace := AttemptRecovery(ctx, s, breaker);
      PutThenDrop(old(activeErrors), ctx.id, ctx);
    }

    method HandleError(ctx: ErrorContext, now: int)
      returns (outcome: Outcome, ghost calls: seq<bool>, ghost waits: seq<int>, ghost trace: seq<Call>)
      modifies this`activeErrors, this`errorHistory, this`circuitBreakers, ctx, BreakerFor(ctx)
      ensures BreakerFor(ctx) != null
      ensures old(BreakerFor(ctx)) != null ==> circuitBreakers == old(circuitBreakers)
      ensures old(BreakerFor(ctx)) == null ==>
                fresh(BreakerFor(ctx)) && circuitBreakers == old(circuitBreakers)[ctx.Key() := BreakerFor(ctx)]
      ensures outcome == BreakerOpen <==> old(BreakerFor(ctx) != null && Blocks(BreakerFor(ctx).View(), now))
      ensures outcome == UnknownType <==> outcome != BreakerOpen && ctx.errorType !in strategies
      ensures var b := if old(BreakerFor(ctx)) == null then New(5, 300) else old(BreakerFor(ctx).View());
              Reports(calls, trace) && BreakerFor(ctx).View() == Replay(Step(b, Query(now)), trace)
      ensures if outcome in {BreakerOpen, UnknownType}
              then calls == [] && waits == [] && ctx.retryCount == old(ctx.retryCount) && activeErrors == old(activeErrors)
              else
                && ctx.maxRetries == strategies[ctx.errorType].maxRetries
                && (activeErrors == if outcome == Recovered then old(activeErrors) - {ctx.id}
                                    else old(activeErrors)[ctx.id := ctx])
                && if old(GoesToPerson(ctx, strategies[ctx.errorType], now))
                   then outcome == ManualIntervention && calls == [] && waits == [] && ctx.retryCount == old(ctx.retryCount)
                   else Attempted(strategies[ctx.errorType], old(ctx.retryCount), ctx.errorType in handled, outcome, calls,
                                  waits, ctx.retryCount)
      ensures errorHistory == if outcome == Recovered then Trimmed(old(errorHistory) + [ctx.Snapshot()], maxHistorySize)
                              else old(errorHistory)
    {
      calls, waits, trace := [], [], [];
      var open := IsCircuitBreakerOpen(ctx, now);
      if open {
        return BreakerOpen, calls, waits, trace;
      }
      if ctx.errorType !in strategies {
        return UnknownType, calls, waits, trace;
      }
      outcome, calls, waits, trace := Recover(ctx, strategies[ctx.errorType], BreakerFor(ctx), now);
    }
  }

  lemma PutThenDrop(m: map<string, ErrorContext>, id: string, ctx: ErrorContext)
    ensures m[id := ctx] - {id} == m - {id}
  {
  }

  lemma {:induction false} ReplayCons(b: Breaker, c: Call, trace: seq<Call>)
    ensures Replay(b, [c] + trace) == Replay(Step(b, c), trace)
  {
    if trace == [] {
      assert [c] + trace == [c];
      assert Front([c]) == [];
    } else {
      ReplayCons(b, c, Front(trace));
      assert Front([c] + trace) == [c] + Front(trace);
    }
  }
}
