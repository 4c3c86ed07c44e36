/** The migrator itself: it mutates two shard objects batch by batch. Each method is tied to the log of batch
    events it caused; what such logs lead to is proved in Migration.dfy. */
module ResourceMigration {
  import opened Sequences
  import opened Shards
  import opened Migration

  /** The shard the listing loop ends up with: the last one of that name. */
  function Find(shards: seq<ShardInstance>, id: string): (s: ShardInstance?)
    ensures s != null ==> s.shardId == id && exists i ::
              0 <= i < |shards| && shards[i] == s && forall j | i < j < |shards| :: shards[j].shardId != id
    ensures s == null ==> forall i | 0 <= i < |shards| :: shards[i].shardId != id
  {
    if shards == [] then null
    else if Last(shards).shardId == id then Last(shards)
    else Find(Front(shards), id)
  }

  function SideOf(s: ShardInstance): Side
    reads s
  {
    Side(s.load, s.assignedResources)
  }

  function Sides(s: ShardInstance, t: ShardInstance): Pair
    reads s, t
  {
    Pair(SideOf(s), SideOf(t))
  }

  predicate Ready(s: ShardInstance?, t: ShardInstance?)
    reads s, t
  {
    s != null && t != null && (s.phase == Running || s.phase == Draining) && t.phase == Running
  }

  /** The two sides, or an idle pair when a shard is missing. */
  ghost function StateOf(s: ShardInstance?, t: ShardInstance?): Pair
    reads s, t
  {
    if s == null || t == null then Pair(Side(0.0, []), Side(0.0, [])) else Sides(s, t)
  }

  /** What has happened from one state of the two shards to another. */
  ghost predicate Did(before: Pair, log: seq<Event>, after: Pair) {
    Legal(before, log) && after == Replay(before, log)
  }

  lemma DidMore(a: Pair, log: seq<Event>, b: Pair, e: Event, c: Pair)
    requires Did(a, log, b) && Possible(b, e) && c == Apply(b, e)
    ensures Did(a, log + [e], c)
  {
    assert Front(log + [e]) == log;
  }

  function FailedIds(log: seq<Event>): seq<string> {
    if log == [] then [] else FailedIds(Front(log)) + if Last(log).fate == Committed then [] else Last(log).batch
  }

  /** The failed batches of some attempts. */
  function FailedIn(runs: seq<seq<Event>>): seq<string> {
    if runs == [] then [] else FailedIn(Front(runs)) + FailedIds(Last(runs))
  }

  lemma FailedInSnoc(runs: seq<seq<Event>>, log: seq<Event>)
    ensures FailedIn(runs + [log]) == FailedIn(runs) + FailedIds(log)
  {
    assert (runs + [log])[..|runs|] == runs;
  }

  class MigrationExecution {
    var retries: int
    var migratedResources: nat
    var failedResources: seq<string>

    constructor ()
      ensures retries == 0 && migratedResources == 0 && failedResources == []
    {
      retries := 0;
      migratedResources := 0;
      failedResources := [];
    }
  }

  class ResourceMigrator {
    const maxRetries: int

    constructor (maxRetries: int)
      ensures this.maxRetries == maxRetries
    {
      this.maxRetries := maxRetries;
    }

    method PrepareTargetShard(target: ShardInstance, count: nat) returns (ok: bool)
      modifies target`load
      ensures ok == !Refuses(old(target.load), count)
      ensures target.load == if ok then old(target.load) + Estimate(count) else old(target.load)
      ensures ok <==> old(target.load) + count as real * 0.02 <= 0.9
    {
      if target.load + count as real * 0.02 > 0.9 {
        return false;
      }
      target.load := target.load + count as real * 0.02;
      ok := true;
    }

    method RollbackBatchTransfer(target: ShardInstance, count: nat)
      modifies target`load
      ensures target.load == old(target.load) - Estimate(count)
    {
      target.load := target.load - count as real * 0.02;
    }

    method CleanupSourceShard(source: ShardInstance, count: nat)
      modifies source`load
      ensures source.load == Drained(old(source.load), count)
    {
      source.load := source.load - count as real * 0.02;
      if source.load < 0.0 {
        source.load := 0.0;
      }
    }

    /** A transfer succeeds or fails as the network decides. */
    method TransferResource() returns (ok: bool)
    {
      ok := *;
    }

    method Commit(source: ShardInstance, target: ShardInstance, batch: seq<string>)
      requires source != target
      modifies source`assignedResources, target`assignedResources
      ensures source.assignedResources == DropAll(old(source.assignedResources), batch)
      ensures target.assignedResources == AppendAll(old(target.assignedResources), batch)
    {
      for i := 0 to |batch|
        invariant source.assignedResources == DropAll(old(source.assignedResources), batch[..i])
        invariant target.assignedResources == AppendAll(old(target.assignedResources), batch[..i])
      {
        assert batch[..i + 1][..i] == batch[..i];
        source.RemoveResource(batch[i]);
        target.AddResource(batch[i]);
      }
      assert batch[..|batch|] == batch;
      assert target.assignedResources == AppendAll(old(target.assignedResources), batch[..|batch|]);
    }

    method MigrateBatch(source: ShardInstance, target: ShardInstance, batch: seq<string>)
      returns (ok: bool, ghost e: Event)
      requires source != target
      modifies source`load, source`assignedResources, target`load, target`assignedResources
      ensures e.batch == batch && (ok <==> e.fate == Committed)
      ensures Possible(old(Sides(source, target)), e)
      ensures Sides(source, target) == Apply(old(Sides(source, target)), e)
    {
      ok := PrepareTargetShard(target, |batch|);
      if !ok {
        e := Event(batch, Refused);
        return;
      }
      var transferred := 0;
      while transferred < |batch|
        invariant transferred <= |batch| && SideOf(source) == old(SideOf(source))
        invariant target.load == old(target.load) + Estimate(|batch|)
        invariant target.assignedResources == old(target.assignedResources)
      {
        ok := TransferResource();
        if !ok {
          RollbackBatchTransfer(target, transferred);
          e := Event(batch, Broken(transferred));
          return;
        }
        transferred := transferred + 1;
      }
      Commit(source, target, batch);
      CleanupSourceShard(source, |batch|);
      ok := true;
      e := Event(batch, Committed);
    }

    method CalculateBatchSize(total: nat) returns (size: nat)
      ensures size == BatchSize(total) && size <= total && (total > 0 ==> 0 < size <= 20)
    {
      if total <= 10 {
        return total;
      }
      if total <= 100 {
        return 10;
      }
      return 20;
    }

    /** The batch loop of one attempt, between two ready shards. Without a done context only a refused or broken batch
        ends it early. */
    method MigrateBatches(execution: MigrationExecution, source: ShardInstance, target: ShardInstance,
                          resources: seq<string>)
      returns (ok: bool, ghost log: seq<Event>, ghost stopped: bool)
      requires source != target
      modifies execution`migratedResources, execution`failedResources
      modifies source`load, source`assignedResources, target`load, target`assignedResources
      ensures Did(old(Sides(source, target)), log, Sides(source, target))
      ensures Attempt(resources, log) && (ok <==> Complete(resources, log))
      ensures !ok && !stopped <==> !AllCommitted(log)
      ensures execution.migratedResources == old(execution.migratedResources) + |Ids(log)|
      ensures execution.failedResources == old(execution.failedResources) + FailedIds(log)
      ensures FailedIds(log) == if AllCommitted(log) then [] else Last(log).batch
    {
      log, stopped := [], false;
      ghost var start := Sides(source, target);
      var batchSize := CalculateBatchSize(|resources|);
      var i := 0;
      while i < |resources|
        invariant Moved(start, resources, log, Sides(source, target)) && |Ids(log)| == i <= |resources|
        invariant execution.migratedResources == old(execution.migratedResources) + i
        invariant execution.failedResources == old(execution.failedResources)
      {
        var cancelled: bool := *;
        if cancelled {
          return false, log, true;
        }
        var end := if i + batchSize > |resources| then |resources| else i + batchSize;
        ghost var before := Sides(source, target);
        ghost var e;
        ok, e := MigrateBatch(source, target, resources[i..end]);
        MovedOn(start, resources, log, before, e, Sides(source, target));
        log := log + [e];
        if !ok {
          execution.failedResources := execution.failedResources + resources[i..end];
          return;
        }
        execution.migratedResources := execution.migratedResources + |resources[i..end]|;
        i := i + batchSize;
        if i > |resources| {
          i := |resources|;
        }
      }
      ok := true;
    }

    /** The state in which the batch loop stands between two batches. */
    static ghost predicate Moved(start: Pair, plan: seq<string>, log: seq<Event>, now: Pair) {
      Did(start, log, now) && Attempt(plan, log) && AllCommitted(log) && FailedIds(log) == []
    }

    static lemma MovedOn(start: Pair, plan: seq<string>, log: seq<Event>, before: Pair, e: Event, now: Pair)
      requires Moved(start, plan, log, before) && Possible(before, e) && now == Apply(before, e)
      requires |Ids(log)| < |plan| && e.batch == Batch(plan, |Ids(log)|)
      ensures Did(start, log + [e], now) && Attempt(plan, log + [e])
      ensures |Ids(log + [e])| == |Ids(log)| + if e.fate == Committed then |e.batch| else 0
      ensures e.fate == Committed ==> Moved(start, plan, log + [e], now)
      ensures e.fate != Committed ==> !AllCommitted(log + [e]) && FailedIds(log + [e]) == e.batch
    {
      DidMore(start, log, before, e, now);
      LogGrows(plan, log, e);
    }

    static lemma LogGrows(plan: seq<string>, log: seq<Event>, e: Event)
      requires Attempt(plan, log) && AllCommitted(log) && |Ids(log)| < |plan| && e.batch == Batch(plan, |Ids(log)|)
      ensures Attempt(plan, log + [e])
      ensures Ids(log + [e]) == Ids(log) + if e.fate == Committed then e.batch else []
      ensures FailedIds(log + [e]) == FailedIds(log) + if e.fate == Committed then [] else e.batch
      ensures AllCommitted(log + [e]) <==> e.fate == Committed
    {
      assert Front(log + [e]) == log && Last(log + [e]) == e;
      assert e in log + [e];
    }

    /** One attempt. The listing may fail; otherwise it returns the same objects each time. */
    method PerformMigration(execution: MigrationExecution, plan: MigrationPlan, shards: seq<ShardInstance>,
                            ghost s: ShardInstance?, ghost t: ShardInstance?)
      returns (ok: bool, ghost log: seq<Event>, ghost stopped: bool)
      requires plan.source != plan.target
      requires s == Find(shards, plan.source) && t == Find(shards, plan.target)
      modifies execution`migratedResources, execution`failedResources, s, t
      ensures Ready(s, t) == old(Ready(s, t))
      ensures Did(old(StateOf(s, t)), log, StateOf(s, t))
      ensures !old(Ready(s, t)) ==> !ok && log == []
      ensures ok || log != [] ==>
                s != null && t != null && old(s.phase) in {Running, Draining} && old(t.phase) == Running
      ensures Attempt(plan.resources, log) && (ok ==> Complete(plan.resources, log))
      ensures old(Ready(s, t)) ==> (!ok && !stopped <==> !AllCommitted(log))
      ensures execution.migratedResources == old(execution.migratedResources) + |Ids(log)|
      ensures execution.failedResources == old(execution.failedResources) + FailedIds(log)
    {
      log, stopped := [], false;
      var listed: bool := *;
      if !listed {
        return false, log, true;
      }
      var source, target := FindShards(shards, plan);
      if source == null || target == null {
        return false, log, false;
      }
      if !source.IsActive() && source.phase != Draining {
        return false, log, false;
      }
      if !target.IsActive() {
        return false, log, false;
      }
      ok, log, stopped := MigrateBatches(execution, source, target, plan.resources);
    }

    method FindShards(shards: seq<ShardInstance>, plan: MigrationPlan) returns (source: ShardInstance?, target: ShardInstance?)
      ensures source == Find(shards, plan.source) && target == Find(shards, plan.target)
    {
      source, target := null, null;
      for i := 0 to |shards|
        invariant source == Find(shards[..i], plan.source) && target == Find(shards[..i], plan.target)
      {
        assert shards[..i + 1][..i] == shards[..i];
        if shards[i].shardId == plan.source {
          source := shards[i];
        }
        if shards[i].shardId == plan.target {
          target := shards[i];
        }
      }
      assert shards[..|shards|] == shards;
    }

    /** One attempt, with its log put to those of the attempts before it. */
    method AttemptOnce(execution: MigrationExecution, plan: MigrationPlan, shards: seq<ShardInstance>,
                       ghost s: ShardInstance?, ghost t: ShardInstance?, ghost start: Pair, ghost failed: seq<string>,
                       ghost before: seq<seq<Event>>)
      returns (ok: bool, ghost runs: seq<seq<Event>>, ghost stopped: bool)
      requires plan.source != plan.target
      requires s == Find(shards, plan.source) && t == Find(shards, plan.target)
      requires Explains(plan, start, before, StateOf(s, t)) && execution.failedResources == failed + FailedIn(before)
      modifies execution`migratedResources, execution`failedResources, s, t
      ensures Ready(s, t) == old(Ready(s, t))
      ensures |runs| == |before| + 1 && Explains(plan, start, runs, StateOf(s, t))
      ensures ok ==> Ready(s, t) && Complete(plan.resources, runs[|before|])
      ensures Front(runs) == before && (Ready(s, t) && !ok && !stopped && AllFailed(before) ==> AllFailed(runs))
      ensures execution.migratedResources == old(execution.migratedResources) + CommittedIn(runs) - CommittedIn(before)
      ensures execution.failedResources == failed + FailedIn(runs)
    {
      ghost var log;
      ghost var state := StateOf(s, t);
      ok, log, stopped := PerformMigration(execution, plan, shards, s, t);
      AttemptAdds(plan, start, before, state, log, StateOf(s, t), failed);
      runs := before + [log];
    }

    static lemma AttemptAdds(plan: MigrationPlan, start: Pair, before: seq<seq<Event>>, state: Pair, log: seq<Event>,
                             now: Pair, failed: seq<string>)
      requires Explains(plan, start, before, state) && Attempt(plan.resources, log) && Did(state, log, now)
      ensures Explains(plan, start, before + [log], now) && (before + [log])[|before|] == log
      ensures CommittedIn(before + [log]) == CommittedIn(before) + |Ids(log)|
      ensures failed + FailedIn(before) + FailedIds(log) == failed + FailedIn(before + [log])
    {
      RunsSnoc(start, before, log);
      FailedInSnoc(before, log);
      Associate(failed, FailedIn(before), FailedIds(log));
    }

    /** Every attempt ended with a refused or broken batch. */
    static predicate AllFailed(runs: seq<seq<Event>>) {
      forall i | 0 <= i < |runs| :: !AllCommitted(runs[i])
    }

    /** The attempts are legal ones of the plan and lead from the first state to the second. */
    static ghost predicate Explains(plan: MigrationPlan, start: Pair, runs: seq<seq<Event>>, now: Pair) {
      Attempts(plan.resources, runs) && LegalRuns(start, runs) && now == StateAfter(start, runs)
    }

    /** Attempts until one succeeds, the retries are used up or the context is done between two attempts. Unless the
        context stops an attempt or its listing fails, every failed attempt between ready shards ends with a refused or
        broken batch. */
    method ExecuteMigrationWithRetries(execution: MigrationExecution, plan: MigrationPlan, shards: seq<ShardInstance>,
                                       ghost s: ShardInstance?, ghost t: ShardInstance?)
      returns (ok: bool, ghost runs: seq<seq<Event>>, ghost cancelled: bool, ghost stopped: bool)
      requires plan.source != plan.target && execution.retries == 0
      requires s == Find(shards, plan.source) && t == Find(shards, plan.target)
      modifies execution, s, t
      ensures |runs| <= if maxRetries < 0 then 0 else maxRetries + 1
      ensures cancelled ==> !ok
      ensures !ok && !cancelled ==> |runs| == if maxRetries < 0 then 0 else maxRetries + 1
      ensures execution.retries == if ok then |runs| - 1 else |runs|
      ensures old(Ready(s, t)) && !stopped ==> AllFailed(if ok && runs != [] then Front(runs) else runs)
      ensures Explains(plan, old(StateOf(s, t)), runs, StateOf(s, t))
      ensures ok ==> old(Ready(s, t)) && runs != [] && Complete(plan.resources, Last(runs))
      ensures execution.migratedResources == old(execution.migratedResources) + CommittedIn(runs)
      ensures execution.failedResources == old(execution.failedResources) + FailedIn(runs)
    {
      runs, cancelled, stopped := [], false, false;
      ghost var ready, start, failed := Ready(s, t), StateOf(s, t), execution.failedResources;
      assert failed + [] == failed;
      while execution.retries <= maxRetries
        invariant |runs| == execution.retries <= if maxRetries < 0 then 0 else maxRetries + 1
        invariant ready && !stopped ==> AllFailed(runs)
        invariant Ready(s, t) == ready && Explains(plan, start, runs, StateOf(s, t))
        invariant execution.migratedResources == old(execution.migratedResources) + CommittedIn(runs)
        invariant execution.failedResources == failed + FailedIn(runs)
        decreases maxRetries - execution.retries
      {
        var done: bool := *;
        if done {
          return false, runs, true, stopped;
        }
        ghost var disturbed;
        ok, runs, disturbed := AttemptOnce(execution, plan, shards, s, t, start, failed, runs);
        stopped := stopped || disturbed;
        if ok {
          return;
        }
        execution.retries := execution.retries + 1;
        if execution.retries > maxRetries {
          return;
        }
        var doneWaiting: bool := *;
        if doneWaiting {
          cancelled := true;
          return;
        }
      }
      ok := false;
    }
  }
}
