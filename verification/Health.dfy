/** Health checking: what the checker remembers of a shard, the status object it shares with the shard, and the
    phase change to Failed. Clock readings are in seconds. */
module Health {
  import opened Sequences
  import opened Shards

  const HOUR := 3600

  /** What the checker remembers of one shard. */
  datatype Track = Unseen | Seen(healthy: bool, errors: int)

  /** One check as the loop makes it: the verdict, the health recorded in the store before it, and the phase. */
  datatype Check = Check(at: int, healthy: bool, wasHealthy: bool, phase: Phase)

  function NextErrors(t: Track, healthy: bool): int {
    if healthy then 0 else if t.Seen? && !t.healthy then t.errors + 1 else 1
  }

  predicate ReachesThreshold(t: Track, c: Check, threshold: int) {
    c.wasHealthy && !c.healthy && NextErrors(t, c.healthy) >= threshold
  }

  /** The check moves the shard to Failed. */
  predicate Fails(t: Track, c: Check, threshold: int) {
    ReachesThreshold(t, c, threshold) && IsValidPhaseTransition(c.phase, Failed)
  }

  /** The check asks for the move and the phase does not allow it; nothing is written then. */
  predicate Refuses(t: Track, c: Check, threshold: int) {
    ReachesThreshold(t, c, threshold) && !IsValidPhaseTransition(c.phase, Failed)
  }

  function Step(t: Track, c: Check, threshold: int): Track {
    Seen(c.healthy, NextErrors(t, c.healthy) + if Fails(t, c, threshold) then 1 else 0)
  }

  function After(list: seq<int>, cutoff: int): seq<int> {
    if list == [] then []
    else
      var kept := After(Front(list), cutoff);
      if Last(list) > cutoff then kept + [Last(list)] else kept
  }

  class HealthChecker {
    const failureThreshold: int
    const timeout: int
    var shardStatuses: map<string, HealthStatus>
    var failureHistory: map<string, seq<int>>

    constructor (failureThreshold: int, timeout: int)
      ensures this.failureThreshold == failureThreshold && this.timeout == timeout
      ensures shardStatuses == map[] && failureHistory == map[]
    {
      this.failureThreshold, this.timeout := failureThreshold, timeout;
      shardStatuses, failureHistory := map[], map[];
    }

    function TrackOf(id: string): Track
      reads this, if id in shardStatuses then {shardStatuses[id]} else {}
    {
      if id in shardStatuses then Seen(shardStatuses[id].healthy, shardStatuses[id].errorCount) else Unseen
    }

    function FailuresOf(id: string): seq<int>
      reads this
    {
      if id in failureHistory then failureHistory[id] else []
    }

    predicate LooksHealthy(shard: ShardInstance, now: int)
      reads shard
    {
      shard.phase == Running && now - shard.lastHeartbeat <= timeout && shard.load <= 1.0
    }

    /** The new status is a new object; the checker keeps a reference to it. */
    method CheckHealth(shard: ShardInstance, now: int) returns (status: HealthStatus)
      modifies this`shardStatuses, this`failureHistory
      ensures fresh(status) && shardStatuses == old(shardStatuses)[shard.shardId := status]
      ensures status.healthy == LooksHealthy(shard, now)
      ensures status.healthy <==> shard.phase == Running && now - shard.lastHeartbeat <= timeout && shard.load <= 1.0
      ensures status.errorCount == NextErrors(old(TrackOf(shard.shardId)), LooksHealthy(shard, now))
      ensures failureHistory == if LooksHealthy(shard, now) then old(failureHistory)
                else old(failureHistory)[shard.shardId := After(old(FailuresOf(shard.shardId)) + [now], now - HOUR)]
    {
      var exists_ := shard.shardId in shardStatuses;
      status := new HealthStatus(true, now, 0);
      if shard.phase != Running {
        status.healthy := false;
      }
      if now - shard.lastHeartbeat > timeout {
        status.healthy := false;
      }
      if shard.load > 1.0 {
        status.healthy := false;
      }
      if exists_ {
        var prevStatus := shardStatuses[shard.shardId];
        if !status.healthy {
          if prevStatus.healthy {
            status.errorCount := 1;
          } else {
            status.errorCount := prevStatus.errorCount + 1;
          }
          TrackFailure(shard.shardId, now);
        }
      } else if !status.healthy {
        status.errorCount := 1;
        TrackFailure(shard.shardId, now);
      }
      shardStatuses := shardStatuses[shard.shardId := status];
    }

    /** Appends a failure time and keeps those of the last hour. */
    method TrackFailure(id: string, timestamp: int)
      modifies this`failureHistory
      ensures failureHistory == old(failureHistory)[id := After(old(FailuresOf(id)) + [timestamp], timestamp - HOUR)]
    {
      var all := FailuresOf(id) + [timestamp];
      var filtered: seq<int> := [];
      for i := 0 to |all|
        invariant filtered == After(all[..i], timestamp - HOUR)
      {
        assert all[..i + 1][..i] == all[..i];
        if all[i] > timestamp - HOUR {
          filtered := filtered + [all[i]];
        }
      }
      assert all[..|all|] == all;
      failureHistory := failureHistory[id := filtered];
    }

    /** Phase changes that follow a check. On failure the count of the shared status object goes up. */
    method HandleHealthStateTransition(shard: ShardInstance, previouslyHealthy: bool, currentlyHealthy: bool, now: int)
      returns (ok: bool)
      requires shard.healthStatus != null
      modifies shard, shard.healthStatus
      ensures shard.healthStatus == old(shard.healthStatus)
      ensures var tries := previouslyHealthy && !currentlyHealthy && old(shard.healthStatus.errorCount) >= failureThreshold;
              var failed := tries && IsValidPhaseTransition(old(shard.phase), Failed);
              && ok == (tries ==> failed)
              && shard.healthStatus.errorCount == old(shard.healthStatus.errorCount) + (if failed then 1 else 0)
              && shard.healthStatus.healthy == (old(shard.healthStatus.healthy) && !failed)
              && shard.phase == if failed then Failed
                                else if !previouslyHealthy && currentlyHealthy && old(shard.phase) == Failed then Running
                                else old(shard.phase)
    {
      ok := true;
      if previouslyHealthy && !currentlyHealthy {
        if shard.healthStatus.errorCount >= failureThreshold {
          ok := shard.TransitionTo(Failed, now);
          if !ok {
            return;
          }
        }
      }
      if !previouslyHealthy && currentlyHealthy {
        if shard.phase == Failed {
          ok := shard.TransitionTo(Running, now);
        }
      }
    }

    /** Checks one shard. Afterwards the shard and the checker hold the same status object, so the failure count
        that the phase change adds is seen by the next check. A Failed shard is never moved back to Running. */
    method CheckAndUpdateShardHealth(shard: ShardInstance, now: int) returns (ok: bool, ghost c: Check)
      modifies this`shardStatuses, this`failureHistory, shard
      ensures c == Check(now, old(LooksHealthy(shard, now)), old(shard.IsHealthy()), old(shard.phase))
      ensures shard.shardId in shardStatuses && shard.healthStatus == shardStatuses[shard.shardId]
      ensures fresh(shard.healthStatus)
      ensures shardStatuses == old(shardStatuses)[shard.shardId := shardStatuses[shard.shardId]]
      ensures TrackOf(shard.shardId) == Step(old(TrackOf(shard.shardId)), c, failureThreshold)
      ensures shard.phase == if Fails(old(TrackOf(shard.shardId)), c, failureThreshold) then Failed else old(shard.phase)
      ensures ok <==> !Refuses(old(TrackOf(shard.shardId)), c, failureThreshold)
      ensures failureHistory == if c.healthy then old(failureHistory)
                else old(failureHistory)[shard.shardId := After(old(FailuresOf(shard.shardId)) + [now], now - HOUR)]
    {
      c := Check(now, LooksHealthy(shard, now), shard.IsHealthy(), shard.phase);
      var healthStatus := CheckHealth(shard, now);
      var previouslyHealthy := shard.IsHealthy();
      var currentlyHealthy := healthStatus.healthy;
      shard.healthStatus := healthStatus;
      ok := HandleHealthStateTransition(shard, previouslyHealthy, currentlyHealthy, now);
    }

    /** One shard of the loop: the check runs on a deep copy, which is written back unless the phase change is refused
        or the write fails. */
    method CheckStored(stored: ShardInstance, now: int) returns (written: bool, ghost c: Check, ghost served: bool)
      modifies this`shardStatuses, this`failureHistory, stored
      ensures c == Check(now, old(LooksHealthy(stored, now)), old(stored.IsHealthy()), old(stored.phase))
      ensures stored.shardId in shardStatuses
      ensures TrackOf(stored.shardId) == Step(old(TrackOf(stored.shardId)), c, failureThreshold)
      ensures written <==> served && !Refuses(old(TrackOf(stored.shardId)), c, failureThreshold)
      ensures written ==> stored.IsHealthy() == c.healthy
      ensures written ==> stored.phase == if Fails(old(TrackOf(stored.shardId)), c, failureThreshold) then Failed
                                          else old(stored.phase)
      ensures failureHistory == if c.healthy then old(failureHistory)
                else old(failureHistory)[stored.shardId := After(old(FailuresOf(stored.shardId)) + [now], now - HOUR)]
      ensures !written ==> stored.healthStatus == old(stored.healthStatus) && stored.phase == old(stored.phase)
    {
      var status := stored.healthStatus;
      if status != null {
        status := new HealthStatus(status.healthy, status.lastCheck, status.errorCount);
      }
      var copy := new ShardInstance(stored.shardId, stored.phase, stored.load, stored.lastHeartbeat,
                                    stored.assignedResources, status);
      served := true;
      written, c := CheckAndUpdateShardHealth(copy, now);
      if !written {
        return;
      }
      written := *;
      served := written;
      if written {
        stored.phase := copy.phase;
        stored.healthStatus := new HealthStatus(copy.healthStatus.healthy, copy.healthStatus.lastCheck,
                                                copy.healthStatus.errorCount);
      }
    }

    /** What may happen to a stored shard between two checks, a heartbeat with its own health record included. */
    method WorldMoves(stored: ShardInstance, now: int) returns (ghost beat: bool)
      modifies stored
      ensures !beat ==> stored.IsHealthy() == old(stored.IsHealthy())
    {
      stored.phase, stored.load, stored.lastHeartbeat := *, *, *;
      var writes: bool := *;
      beat := writes;
      if writes {
        var healthy: bool := *;
        stored.healthStatus := new HealthStatus(healthy, now, 0);
      }
    }

    /** One turn of the loop, with the run so far. */
    method CheckAgain(stored: ShardInstance, now: int, ghost checks: seq<Check>)
      returns (ghost more: seq<Check>, ghost served: bool)
      requires TrackOf(stored.shardId) == Replay(failureThreshold, checks) && FailuresOf(stored.shardId) == History(checks)
      modifies this`shardStatuses, this`failureHistory, stored
      ensures TrackOf(stored.shardId) == Replay(failureThreshold, more) && FailuresOf(stored.shardId) == History(more)
      ensures more != [] && Front(more) == checks && Last(more).at == now
      ensures Last(more).wasHealthy == old(stored.IsHealthy())
      ensures served ==> stored.IsHealthy() == Recorded(failureThreshold, more)
    {
      var written;
      ghost var c;
      written, c, served := CheckStored(stored, now);
      ReplaySnoc(failureThreshold, checks, c);
      Snoc(checks, c);
      more := checks + [c];
    }

    /** The loop for one stored shard, from its first check on. Between two checks the world may change the shard, and
        others may write its health record. Such a write, or a failed one of the checker, makes the run disturbed. */
    method CheckRepeatedly(stored: ShardInstance, times: seq<int>) returns (ghost checks: seq<Check>, ghost disturbed: bool)
      requires stored.shardId !in shardStatuses && FailuresOf(stored.shardId) == []
      modifies this`shardStatuses, this`failureHistory, stored
      ensures |checks| == |times| && forall i | 0 <= i < |times| :: checks[i].at == times[i]
      ensures TrackOf(stored.shardId) == Replay(failureThreshold, checks) && FailuresOf(stored.shardId) == History(checks)
      ensures !disturbed ==> SoleWriter(failureThreshold, checks)
    {
      checks, disturbed := [], false;
      for k := 0 to |times|
        invariant |checks| == k && forall i | 0 <= i < k :: checks[i].at == times[i]
        invariant TrackOf(stored.shardId) == Replay(failureThreshold, checks) && FailuresOf(stored.shardId) == History(checks)
        invariant !disturbed ==> SoleWriter(failureThreshold, checks)
        invariant !disturbed && checks != [] ==> stored.IsHealthy() == Recorded(failureThreshold, checks)
      {
        ghost var beat, served;
        beat := WorldMoves(stored, times[k]);
        checks, served := CheckAgain(stored, times[k], checks);
        disturbed := disturbed || beat || !served;
      }
    }
  }

  // ----- Runs of checks of one shard -----

  function Replay(threshold: int, checks: seq<Check>): Track {
    if checks == [] then Unseen
    else Step(Replay(threshold, Front(checks)), Last(checks), threshold)
  }

  lemma ReplaySnoc(threshold: int, checks: seq<Check>, c: Check)
    ensures Front(checks + [c]) == checks && Last(checks + [c]) == c
    ensures Replay(threshold, checks + [c]) == Step(Replay(threshold, checks), c, threshold)
  {
    assert Front(checks + [c]) == checks;
  }

  /** Whether the last check of the run moved the shard to Failed. */
  predicate LastFails(threshold: int, checks: seq<Check>)
    requires checks != []
  {
    Fails(Replay(threshold, Front(checks)), Last(checks), threshold)
  }

  /** Unhealthy checks at the end of the run. */
  function UnhealthyInARow(checks: seq<Check>): (n: nat)
    ensures n <= |checks|
  {
    if checks == [] || Last(checks).healthy then 0 else UnhealthyInARow(Front(checks)) + 1
  }

  /** The row is as long as the checks at the end that are unhealthy, back to the last healthy one. */
  lemma {:induction false} UnhealthyRowIs(checks: seq<Check>, n: nat)
    requires n <= |checks| && forall i | |checks| - n <= i < |checks| :: !checks[i].healthy
    requires n < |checks| ==> checks[|checks| - n - 1].healthy
    ensures UnhealthyInARow(checks) == n
  {
    if n > 0 {
      UnhealthyRowIs(Front(checks), n - 1);
    }
  }

  /** Moves to Failed among those checks. */
  function FailedInARow(threshold: int, checks: seq<Check>): nat {
    if checks == [] || Last(checks).healthy then 0
    else FailedInARow(threshold, Front(checks)) + if LastFails(threshold, checks) then 1 else 0
  }

  /** The error count is the number of unhealthy checks in a row plus the moves to Failed among them. */
  lemma {:induction false} ErrorCountExact(threshold: int, checks: seq<Check>)
    requires checks != []
    ensures Replay(threshold, checks) ==
            Seen(Last(checks).healthy, UnhealthyInARow(checks) + FailedInARow(threshold, checks))
  {
    var front := Front(checks);
    if front != [] {
      ErrorCountExact(threshold, front);
    }
  }

  /** A move to Failed among the trailing unhealthy checks means that enough of them had happened by then. */
  lemma {:induction false} FailedMeansEnough(threshold: int, checks: seq<Check>)
    ensures FailedInARow(threshold, checks) > 0 ==> UnhealthyInARow(checks) >= threshold
  {
    if checks != [] && !Last(checks).healthy {
      var front := Front(checks);
      FailedMeansEnough(threshold, front);
      if front != [] {
        ErrorCountExact(threshold, front);
      }
    }
  }

  /** Exactly when a check asks for the move to Failed, in every run and whoever else writes the record: the stored
      record said healthy, the verdict does not, and at least the threshold of unhealthy checks in a row has happened.
      The extra counts of earlier moves change nothing. */
  lemma ReachesExactly(threshold: int, checks: seq<Check>)
    requires checks != []
    ensures ReachesThreshold(Replay(threshold, Front(checks)), Last(checks), threshold) <==>
            Last(checks).wasHealthy && !Last(checks).healthy && UnhealthyInARow(checks) >= threshold
  {
    var front := Front(checks);
    FailedMeansEnough(threshold, front);
    if front != [] {
      ErrorCountExact(threshold, front);
    }
  }

  /** And when the shard is moved: the phase must allow it, too. */
  lemma FailsExactly(threshold: int, checks: seq<Check>)
    requires checks != []
    ensures var c := Last(checks);
            LastFails(threshold, checks) <==>
            c.wasHealthy && !c.healthy && c.phase in {Pending, Running} && UnhealthyInARow(checks) >= threshold
  {
    ReachesExactly(threshold, checks);
  }

  /** A shard is moved to Failed only after at least the threshold of unhealthy checks in a row, although each move
      inflates the count. */
  lemma FailedOnlyAfterThreshold(threshold: int, checks: seq<Check>)
    requires checks != [] && LastFails(threshold, checks)
    ensures UnhealthyInARow(checks) >= threshold
  {
    FailsExactly(threshold, checks);
  }

  /** A check of the trailing unhealthy row that is late enough and finds a healthy record and a phase to leave. */
  predicate MarksAt(threshold: int, checks: seq<Check>, i: nat) {
    && |checks| - UnhealthyInARow(checks) <= i < |checks|
    && checks[i].wasHealthy && checks[i].phase in {Pending, Running}
    && i + 1 - (|checks| - UnhealthyInARow(checks)) >= threshold
  }

  lemma MarksBefore(threshold: int, checks: seq<Check>, i: nat)
    requires checks != [] && !Last(checks).healthy && i < |checks| - 1
    ensures MarksAt(threshold, checks, i) <==> MarksAt(threshold, Front(checks), i)
  {
    assert checks[i] == Front(checks)[i];
  }

  /** When the documented promise is kept: a row of unhealthy checks gets the shard marked if and only if one of its
      checks from the threshold on finds a healthy record in the store, in a phase that can fail. */
  lemma {:induction false} RowIsMarkedExactly(threshold: int, checks: seq<Check>)
    ensures FailedInARow(threshold, checks) > 0 <==> exists i: nat :: MarksAt(threshold, checks, i)
  {
    if checks != [] && !Last(checks).healthy {
      var front, k: nat := Front(checks), |checks| - 1;
      RowIsMarkedExactly(threshold, front);
      FailsExactly(threshold, checks);
      assert MarksAt(threshold, checks, k) <==> LastFails(threshold, checks);
      if i: nat :| MarksAt(threshold, checks, i) && i < k {
        MarksBefore(threshold, checks, i);
      }
      if i: nat :| MarksAt(threshold, front, i) {
        MarksBefore(threshold, checks, i);
        assert MarksAt(threshold, checks, i);
      }
    }
  }

  /** The health that the last check leaves in the store when its write, if it makes one, succeeds. */
  predicate Recorded(threshold: int, checks: seq<Check>)
    requires checks != []
  {
    if Refuses(Replay(threshold, Front(checks)), Last(checks), threshold) then Last(checks).wasHealthy
    else Last(checks).healthy
  }

  /** Runs in which only the checker writes the record, and every write succeeds. */
  predicate SoleWriter(threshold: int, checks: seq<Check>) {
    checks == [] ||
    (SoleWriter(threshold, Front(checks)) &&
     (Front(checks) != [] ==> Last(checks).wasHealthy == Recorded(threshold, Front(checks))))
  }

  /** Some check of the trailing unhealthy row finds a phase that can fail. */
  predicate RowCanFail(checks: seq<Check>) {
    checks != [] && !Last(checks).healthy &&
    (Last(checks).phase in {Pending, Running} || RowCanFail(Front(checks)))
  }

  /** The check with which the trailing unhealthy row begins. */
  function FirstOfRow(checks: seq<Check>): Check
    requires UnhealthyInARow(checks) > 0
  {
    if UnhealthyInARow(Front(checks)) == 0 then Last(checks) else FirstOfRow(Front(checks))
  }

  /** When only the checker writes, a later check of a row finds a healthy record exactly when every move asked for
      before it in the row was refused. */
  lemma {:induction false} RecordInRow(threshold: int, checks: seq<Check>)
    requires SoleWriter(threshold, checks) && UnhealthyInARow(checks) > 1
    ensures Last(checks).wasHealthy <==>
            threshold <= 1 && FirstOfRow(checks).wasHealthy && !RowCanFail(Front(checks))
  {
    var front := Front(checks);
    assert FirstOfRow(checks) == FirstOfRow(front);
    ReachesExactly(threshold, front);
    if UnhealthyInARow(front) > 1 {
      RecordInRow(threshold, front);
    } else {
      assert UnhealthyInARow(Front(front)) == 0 && !RowCanFail(Front(front));
      assert FirstOfRow(front) == Last(front);
    }
  }

  /** When only the checker writes the record and every write succeeds, a row is marked exactly when the threshold is at
      most one, the record before the row was healthy, and some check of the row finds a phase that can fail. */
  lemma {:induction false} SoleWriterMarksExactly(threshold: int, checks: seq<Check>)
    requires SoleWriter(threshold, checks) && UnhealthyInARow(checks) > 0
    ensures FailedInARow(threshold, checks) > 0 <==>
            threshold <= 1 && FirstOfRow(checks).wasHealthy && RowCanFail(checks)
  {
    FailsExactly(threshold, checks);
    if UnhealthyInARow(checks) > 1 {
      RecordInRow(threshold, checks);
      SoleWriterMarksExactly(threshold, Front(checks));
    }
  }

  /** When every check of a row finds a healthy record and a phase that can fail, as with a heartbeat between any two
      checks, the row is marked exactly when it is as long as the threshold: the documented behaviour. */
  lemma HealthyRecordMarksAtThreshold(threshold: int, checks: seq<Check>)
    requires UnhealthyInARow(checks) > 0
    requires forall i | |checks| - UnhealthyInARow(checks) <= i < |checks| ::
               checks[i].wasHealthy && checks[i].phase in {Pending, Running}
    ensures FailedInARow(threshold, checks) > 0 <==> UnhealthyInARow(checks) >= threshold
  {
    RowIsMarkedExactly(threshold, checks);
    if UnhealthyInARow(checks) >= threshold {
      assert MarksAt(threshold, checks, |checks| - 1);
    }
  }

  // ----- Failure history -----

  function History(checks: seq<Check>): seq<int> {
    if checks == [] then []
    else
      var front, c := History(Front(checks)), Last(checks);
      if c.healthy then front else After(front + [c.at], c.at - HOUR)
  }

  function FailureTimes(checks: seq<Check>): seq<int> {
    if checks == [] then []
    else
      var front, c := FailureTimes(Front(checks)), Last(checks);
      if c.healthy then front else front + [c.at]
  }

  function LatestFailure(checks: seq<Check>): int {
    if checks == [] then 0
    else if Last(checks).healthy then LatestFailure(Front(checks))
    else Last(checks).at
  }

  predicate InOrder(checks: seq<Check>) {
    forall i, j | 0 <= i < j < |checks| :: checks[i].at <= checks[j].at
  }

  lemma {:induction false} AfterAfter(list: seq<int>, low: int, high: int)
    requires low <= high
    ensures After(After(list, low), high) == After(list, high)
  {
    if list != [] {
      AfterAfter(Front(list), low, high);
      var kept := After(Front(list), low);
      assert (kept + [Last(list)])[..|kept|] == kept;
    }
  }

  lemma AfterSnoc(list: seq<int>, t: int, cutoff: int)
    ensures After(list + [t], cutoff) == After(list, cutoff) + if t > cutoff then [t] else []
  {
    assert (list + [t])[..|list|] == list;
  }

  lemma {:induction false} LatestFailureBound(checks: seq<Check>, t: int)
    requires FailureTimes(checks) != [] && forall c | c in checks :: c.at <= t
    ensures LatestFailure(checks) <= t
  {
    if Last(checks).healthy {
      LatestFailureBound(Front(checks), t);
    } else {
      assert Last(checks) in checks;
    }
  }

  lemma HistoryGrows(times: seq<int>, low: int, at: int)
    requires times == [] || low <= at - HOUR
    ensures After(After(times, low) + [at], at - HOUR) == After(times + [at], at - HOUR)
  {
    AfterSnoc(times, at, at - HOUR);
    AfterSnoc(After(times, low), at, at - HOUR);
    if times != [] {
      AfterAfter(times, low, at - HOUR);
    }
  }

  /** On a clock that does not go back, the stored history is exactly the failures of the hour before the latest. */
  lemma {:induction false} HistoryIsLastHour(checks: seq<Check>)
    requires InOrder(checks)
    ensures History(checks) == After(FailureTimes(checks), LatestFailure(checks) - HOUR)
  {
    if checks != [] {
      var front, c := Front(checks), Last(checks);
      HistoryIsLastHour(front);
      assert checks == front + [c];
      Snoc(front, c);
      if !c.healthy {
        LatestIsNotAfter(checks);
        HistoryGrows(FailureTimes(front), LatestFailure(front) - HOUR, c.at);
      }
    }
  }

  lemma Snoc(front: seq<Check>, c: Check)
    ensures History(front + [c]) == if c.healthy then History(front) else After(History(front) + [c.at], c.at - HOUR)
    ensures FailureTimes(front + [c]) == if c.healthy then FailureTimes(front) else FailureTimes(front) + [c.at]
    ensures LatestFailure(front + [c]) == if c.healthy then LatestFailure(front) else c.at
  {
    assert (front + [c])[..|front|] == front;
  }

  lemma LatestIsNotAfter(checks: seq<Check>)
    requires checks != [] && InOrder(checks)
    ensures FailureTimes(Front(checks)) == [] ||
            LatestFailure(Front(checks)) <= Last(checks).at
  {
    if FailureTimes(Front(checks)) != [] {
      LatestFailureBound(Front(checks), Last(checks).at);
    }
  }

  lemma CountSnoc(list: seq<int>, x: int, t: int)
    ensures multiset(list + [x])[t] == multiset(list)[t] + if x == t then 1 else 0
  {
  }

  lemma {:induction false} AfterCounts(list: seq<int>, cutoff: int, t: int)
    ensures multiset(After(list, cutoff))[t] == if t > cutoff then multiset(list)[t] else 0
  {
    if list != [] {
      AfterCounts(Front(list), cutoff, t);
      CountSnoc(Front(list), Last(list), t);
      CountSnoc(After(Front(list), cutoff), Last(list), t);
      assert list == Front(list) + [Last(list)];
    }
  }

  /** The unhealthy checks made at time t. */
  function FailedAt(checks: seq<Check>, t: int): set<int> {
    set i | 0 <= i < |checks| && !checks[i].healthy && checks[i].at == t
  }

  lemma FailedAtSnoc(front: seq<Check>, c: Check, t: int)
    ensures |FailedAt(front + [c], t)| == |FailedAt(front, t)| + if !c.healthy && c.at == t then 1 else 0
  {
    assert FailedAt(front + [c], t) == FailedAt(front, t) + if !c.healthy && c.at == t then {|front|} else {};
  }

  lemma {:induction false} FailureTimesCount(checks: seq<Check>, t: int)
    ensures multiset(FailureTimes(checks))[t] == |FailedAt(checks, t)|
  {
    if checks == [] {
      assert FailedAt(checks, t) == {};
    } else {
      FailureTimesCount(Front(checks), t);
      CountSnoc(FailureTimes(Front(checks)), Last(checks).at, t);
      FailedAtSnoc(Front(checks), Last(checks), t);
      assert checks == Front(checks) + [Last(checks)];
    }
  }

  predicate Ascending(list: seq<int>) {
    forall i, j | 0 <= i < j < |list| :: list[i] <= list[j]
  }

  lemma AscendingSnoc(list: seq<int>, t: int, bound: int)
    requires Ascending(list) && t <= bound && forall i | 0 <= i < |list| :: list[i] <= t
    ensures Ascending(list + [t]) && forall i | 0 <= i < |list + [t]| :: (list + [t])[i] <= bound
  {
  }

  lemma {:induction false} FailureTimesAscend(checks: seq<Check>, bound: int)
    requires InOrder(checks) && forall i | 0 <= i < |checks| :: checks[i].at <= bound
    ensures Ascending(FailureTimes(checks))
    ensures forall i | 0 <= i < |FailureTimes(checks)| :: FailureTimes(checks)[i] <= bound
  {
    if checks != [] {
      var front, last := Front(checks), |checks| - 1;
      if Last(checks).healthy {
        FailureTimesAscend(front, bound);
      } else {
        FailureTimesAscend(front, checks[last].at);
        AscendingSnoc(FailureTimes(front), checks[last].at, bound);
      }
    }
  }

  lemma {:induction false} AfterAscends(list: seq<int>, cutoff: int, bound: int)
    requires Ascending(list) && forall i | 0 <= i < |list| :: list[i] <= bound
    ensures Ascending(After(list, cutoff))
    ensures forall i | 0 <= i < |After(list, cutoff)| :: After(list, cutoff)[i] <= bound
  {
    if list != [] {
      AfterAscends(Front(list), cutoff, Last(list));
      if Last(list) > cutoff {
        AscendingSnoc(After(Front(list), cutoff), Last(list), bound);
      }
    }
  }

  lemma {:induction false} LatestFailureIs(checks: seq<Check>, k: nat)
    requires k < |checks| && !checks[k].healthy && forall i | k < i < |checks| :: checks[i].healthy
    ensures LatestFailure(checks) == checks[k].at
  {
    if k < |checks| - 1 {
      LatestFailureIs(Front(checks), k);
    }
  }

  lemma HistoryAfter(checks: seq<Check>, k: nat)
    requires InOrder(checks) && k < |checks| && !checks[k].healthy && forall i | k < i < |checks| :: checks[i].healthy
    ensures History(checks) == After(FailureTimes(checks), checks[k].at - 3600)
  {
    LatestFailureIs(checks, k);
    assert LatestFailure(checks) - HOUR == checks[k].at - 3600;
    HistoryIsLastHour(checks);
  }

  lemma HistoryAscends(checks: seq<Check>, cutoff: int)
    requires checks != [] && InOrder(checks)
    ensures Ascending(After(FailureTimes(checks), cutoff))
  {
    FailureTimesAscend(checks, Last(checks).at);
    AfterAscends(FailureTimes(checks), cutoff, Last(checks).at);
  }

  /** In plain terms, with the latest failure at check k: the history is in time order and holds each time as often as
      an unhealthy check had it, less than 3600 seconds before that failure. */
  lemma HistoryInPlainTerms(checks: seq<Check>, k: nat, t: int)
    requires InOrder(checks) && k < |checks| && !checks[k].healthy && forall i | k < i < |checks| :: checks[i].healthy
    ensures Ascending(History(checks))
    ensures multiset(History(checks))[t] == if t > checks[k].at - 3600 then |FailedAt(checks, t)| else 0
  {
    HistoryAfter(checks, k);
    HistoryAscends(checks, checks[k].at - 3600);
    FailureTimesCount(checks, t);
    AfterCounts(FailureTimes(checks), checks[k].at - 3600, t);
  }
}
