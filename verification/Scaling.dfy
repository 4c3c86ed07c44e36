/** Scaling decisions of the shard manager: rate limited, one shard at a time, inside the configured bounds.
    Clock readings are in seconds. */
module Scaling {
  import opened Sequences
  import opened Shards
  import Migration

  const COOLDOWN := 120

  datatype Config = Config(minShards: int, maxShards: int, scaleUpThreshold: real, scaleDownThreshold: real)

  function SumLoads(shards: seq<ShardInstance>): real
    reads shards
  {
    if shards == [] then 0.0 else SumLoads(Front(shards)) + Last(shards).load
  }

  function AverageLoad(shards: seq<ShardInstance>): real
    reads shards
  {
    if shards == [] then 0.0 else SumLoads(shards) / |shards| as real
  }

  /** The total of two lists is the sum of their totals, and that of one shard its load. */
  lemma {:induction false} SumLoadsAdds(a: seq<ShardInstance>, b: seq<ShardInstance>)
    ensures SumLoads(a + b) == SumLoads(a) + SumLoads(b)
    ensures |b| == 1 ==> SumLoads(b) == b[0].load
  {
    if b == [] {
      assert a + b == a;
    } else {
      SumLoadsAdds(a, Front(b));
      assert Front(a + b) == a + Front(b);
    }
  }

  lemma {:induction false} SumLoadsInRange(shards: seq<ShardInstance>, low: real, high: real)
    requires forall s | s in shards :: low <= s.load <= high
    ensures low * |shards| as real <= SumLoads(shards) <= high * |shards| as real
  {
    if shards != [] {
      SumLoadsInRange(Front(shards), low, high);
      assert Last(shards) in shards;
      assert low * |shards| as real == low * (|shards| - 1) as real + low;
      assert high * |shards| as real == high * (|shards| - 1) as real + high;
    }
  }

  /** The average lies between the loads, and as many shards of that load would carry the same total. */
  lemma AverageIsMean(shards: seq<ShardInstance>, low: real, high: real)
    requires shards != [] && forall s | s in shards :: low <= s.load <= high
    ensures low <= AverageLoad(shards) <= high
    ensures AverageLoad(shards) * |shards| as real == SumLoads(shards)
  {
    var n := |shards| as real;
    SumLoadsInRange(shards, low, high);
    MeanInRange(SumLoads(shards), n, low, high);
  }

  lemma MeanInRange(sum: real, n: real, low: real, high: real)
    requires n > 0.0 && low * n <= sum <= high * n
    ensures low <= sum / n <= high && sum / n * n == sum
  {
    assert sum / n * n == sum;
  }

  method CalculateTotalLoad(shards: seq<ShardInstance>) returns (load: real)
    ensures load == AverageLoad(shards)
  {
    if |shards| == 0 {
      return 0.0;
    }
    load := 0.0;
    for i := 0 to |shards|
      invariant load == SumLoads(shards[..i])
    {
      assert shards[..i + 1][..i] == shards[..i];
      load := load + shards[i].load;
    }
    assert shards[..|shards|] == shards;
    load := load / |shards| as real;
  }

  // ----- Choice of shards to remove -----

  /** The health of each shard, by position. */
  function HealthFlags(shards: seq<ShardInstance>): (flags: seq<bool>)
    reads shards, set s | s in shards && s.healthStatus != null :: s.healthStatus
    ensures HaveHealth(shards, flags)
  {
    if shards == [] then [] else HealthFlags(Front(shards)) + [Last(shards).IsHealthy()]
  }

  predicate HaveHealth(shards: seq<ShardInstance>, flags: seq<bool>)
    reads shards, set s | s in shards && s.healthStatus != null :: s.healthStatus
  {
    |flags| == |shards| && forall i | 0 <= i < |shards| :: flags[i] == shards[i].IsHealthy()
  }

  /** The shards of one health, in list order. */
  function WithHealth(shards: seq<ShardInstance>, flags: seq<bool>, healthy: bool): seq<ShardInstance>
    requires |flags| == |shards|
  {
    if shards == [] then
      []
    else
      var k := |shards| - 1;
      var w := WithHealth(shards[..k], flags[..k], healthy);
      if flags[k] == healthy then w + [shards[k]] else w
  }

  lemma WithHealthSnoc(shards: seq<ShardInstance>, flags: seq<bool>, healthy: bool, i: nat)
    requires |flags| == |shards| && i < |shards|
    ensures WithHealth(shards[..i + 1], flags[..i + 1], healthy) ==
            var w := WithHealth(shards[..i], flags[..i], healthy); if flags[i] == healthy then w + [shards[i]] else w
  {
    assert shards[..i + 1][..i] == shards[..i] && flags[..i + 1][..i] == flags[..i];
  }

  predicate DistinctIds(shards: seq<ShardInstance>) {
    forall i, j | 0 <= i < j < |shards| :: shards[i].shardId != shards[j].shardId
  }

  /** Where each shard of one health comes from. */
  lemma {:induction false} WithHealthOrigin(shards: seq<ShardInstance>, flags: seq<bool>, healthy: bool, s: ShardInstance)
    requires |flags| == |shards|
    ensures s in WithHealth(shards, flags, healthy) ==> exists i :: 0 <= i < |shards| && shards[i] == s && flags[i] == healthy
  {
    if shards != [] {
      var k := |shards| - 1;
      WithHealthOrigin(shards[..k], flags[..k], healthy, s);
      if s in WithHealth(shards[..k], flags[..k], healthy) {
        var i :| 0 <= i < k && shards[..k][i] == s && flags[..k][i] == healthy;
        assert shards[i] == s && flags[i] == healthy;
      }
    }
  }

  function Prefix<T>(s: seq<T>, n: nat): seq<T> {
    if n <= |s| then s[..n] else s
  }

  lemma PrefixSnoc<T>(s: seq<T>, x: T, n: nat)
    ensures Prefix(s + [x], n) == if |Prefix(s, n)| < n then Prefix(s, n) + [x] else Prefix(s, n)
  {
  }

  predicate HasId(shards: seq<ShardInstance>, id: string) {
    exists m :: 0 <= m < |shards| && shards[m].shardId == id
  }

  method ContainsId(selected: seq<ShardInstance>, id: string) returns (found: bool)
    ensures found == HasId(selected, id)
  {
    found := false;
    for k := 0 to |selected|
      invariant found <==> exists m :: 0 <= m < k && selected[m].shardId == id
    {
      if selected[k].shardId == id {
        found := true;
      }
    }
  }

  /** All unhealthy shards, then those healthy ones among the first i whose name is not there yet. */
  function Candidates(shards: seq<ShardInstance>, flags: seq<bool>, i: nat): seq<ShardInstance>
    requires |flags| == |shards| && i <= |shards|
  {
    if i == 0 then
      WithHealth(shards, flags, false)
    else
      var c := Candidates(shards, flags, i - 1);
      if flags[i - 1] && !HasId(c, shards[i - 1].shardId) then c + [shards[i - 1]] else c
  }

  /** The order of removal. Loads are not looked at. */
  function RemovalOrder(shards: seq<ShardInstance>, flags: seq<bool>): seq<ShardInstance>
    requires |flags| == |shards|
  {
    Candidates(shards, flags, |shards|)
  }

  function Selection(shards: seq<ShardInstance>, flags: seq<bool>, count: nat): seq<ShardInstance>
    requires |flags| == |shards|
  {
    if count >= |shards| then shards else Prefix(RemovalOrder(shards, flags), count)
  }

  method SelectShardsForRemoval(shards: seq<ShardInstance>, count: nat) returns (selected: seq<ShardInstance>)
    ensures selected == Selection(shards, HealthFlags(shards), count)
  {
    if count >= |shards| {
      return shards;
    }
    ghost var flags := HealthFlags(shards);
    selected := SelectUnhealthy(shards, count, flags);
    selected := AppendHealthy(shards, count, selected, flags);
  }

  method SelectUnhealthy(shards: seq<ShardInstance>, count: nat, ghost flags: seq<bool>)
    returns (selected: seq<ShardInstance>)
    requires HaveHealth(shards, flags)
    ensures selected == Prefix(WithHealth(shards, flags, false), count)
  {
    selected := [];
    for i := 0 to |shards|
      invariant selected == Prefix(WithHealth(shards[..i], flags[..i], false), count)
    {
      WithHealthSnoc(shards, flags, false, i);
      PrefixSnoc(WithHealth(shards[..i], flags[..i], false), shards[i], count);
      if |selected| < count && !shards[i].IsHealthy() {
        selected := selected + [shards[i]];
      }
    }
    assert shards[..|shards|] == shards && flags[..|shards|] == flags;
  }

  lemma CandidatesNext(shards: seq<ShardInstance>, flags: seq<bool>, i: nat, count: nat)
    requires |flags| == |shards| && i < |shards|
    ensures var p := Prefix(Candidates(shards, flags, i), count);
            Prefix(Candidates(shards, flags, i + 1), count) ==
            if |p| < count && flags[i] && !HasId(p, shards[i].shardId) then p + [shards[i]] else p
  {
    PrefixSnoc(Candidates(shards, flags, i), shards[i], count);
  }

  method AppendHealthy(shards: seq<ShardInstance>, count: nat, chosen: seq<ShardInstance>, ghost flags: seq<bool>)
    returns (selected: seq<ShardInstance>)
    requires HaveHealth(shards, flags)
    requires chosen == Prefix(WithHealth(shards, flags, false), count)
    ensures selected == Prefix(RemovalOrder(shards, flags), count)
  {
    selected := chosen;
    for i := 0 to |shards|
      invariant selected == Prefix(Candidates(shards, flags, i), count)
    {
      CandidatesNext(shards, flags, i, count);
      if |selected| < count && shards[i].IsHealthy() {
        var alreadySelected := ContainsId(selected, shards[i].shardId);
        if !alreadySelected {
          selected := selected + [shards[i]];
        }
      }
    }
  }

  lemma NewName(shards: seq<ShardInstance>, flags: seq<bool>, i: nat)
    requires DistinctIds(shards) && |flags| == |shards| && i < |shards| && flags[i]
    ensures !HasId(WithHealth(shards, flags, false) + WithHealth(shards[..i], flags[..i], true), shards[i].shardId)
  {
    var a: seq<ShardInstance>, b := WithHealth(shards, flags, false), WithHealth(shards[..i], flags[..i], true);
    forall m | 0 <= m < |a + b|
      ensures (a + b)[m].shardId != shards[i].shardId
    {
      var s: ShardInstance := (a + b)[m];
      WithHealthOrigin(shards, flags, false, s);
      WithHealthOrigin(shards[..i], flags[..i], true, s);
      if k :| 0 <= k < i && shards[..i][k] == s && flags[..i][k] {
        assert shards[k] == s;
      }
    }
  }

  lemma {:induction false} CandidatesByHealth(shards: seq<ShardInstance>, flags: seq<bool>, i: nat)
    requires DistinctIds(shards) && |flags| == |shards| && i <= |shards|
    ensures Candidates(shards, flags, i) == WithHealth(shards, flags, false) + WithHealth(shards[..i], flags[..i], true)
  {
    if i > 0 {
      var a, b, x := WithHealth(shards, flags, false), WithHealth(shards[..i - 1], flags[..i - 1], true), shards[i - 1];
      CandidatesByHealth(shards, flags, i - 1);
      WithHealthSnoc(shards, flags, true, i - 1);
      Associate(a, b, [x]);
      if flags[i - 1] {
        NewName(shards, flags, i - 1);
      }
    }
  }

  /** With unique names the order of removal is the unhealthy shards, then the healthy ones, each in list order. */
  lemma RemovalOrderByHealth(shards: seq<ShardInstance>, flags: seq<bool>)
    requires DistinctIds(shards) && |flags| == |shards|
    ensures RemovalOrder(shards, flags) == WithHealth(shards, flags, false) + WithHealth(shards, flags, true)
  {
    CandidatesByHealth(shards, flags, |shards|);
    assert shards[..|shards|] == shards && flags[..|shards|] == flags;
  }

  lemma {:induction false} WithHealthHas(shards: seq<ShardInstance>, flags: seq<bool>, healthy: bool, i: nat)
    requires |flags| == |shards| && i < |shards| && flags[i] == healthy
    ensures shards[i] in WithHealth(shards, flags, healthy)
  {
    if i < |shards| - 1 {
      WithHealthHas(Front(shards), Front(flags), healthy, i);
    }
  }

  lemma {:induction false} WithHealthInOrder(shards: seq<ShardInstance>, flags: seq<bool>, healthy: bool, i: nat, j: nat)
    returns (p: nat, q: nat)
    requires |flags| == |shards| && i < j < |shards| && flags[i] == flags[j] == healthy
    ensures p < q < |WithHealth(shards, flags, healthy)|
    ensures WithHealth(shards, flags, healthy)[p] == shards[i] && WithHealth(shards, flags, healthy)[q] == shards[j]
  {
    var w := WithHealth(Front(shards), Front(flags), healthy);
    if j == |shards| - 1 {
      WithHealthHas(Front(shards), Front(flags), healthy, i);
      p :| p < |w| && w[p] == shards[i];
      q := |w|;
    } else {
      p, q := WithHealthInOrder(Front(shards), Front(flags), healthy, i, j);
    }
  }

  /** Which of two shards leaves first: the unhealthy one, or the earlier of the list when both are healthy or both are
      not. */
  lemma LeavesFirst(shards: seq<ShardInstance>, flags: seq<bool>, i: nat, j: nat) returns (p: nat, q: nat)
    requires DistinctIds(shards) && |flags| == |shards| && i < |shards| && j < |shards|
    requires (!flags[i] && flags[j]) || (flags[i] == flags[j] && i < j)
    ensures p < q < |RemovalOrder(shards, flags)|
    ensures RemovalOrder(shards, flags)[p] == shards[i] && RemovalOrder(shards, flags)[q] == shards[j]
  {
    var a, b := WithHealth(shards, flags, false), WithHealth(shards, flags, true);
    RemovalOrderByHealth(shards, flags);
    if flags[i] != flags[j] {
      WithHealthHas(shards, flags, false, i);
      WithHealthHas(shards, flags, true, j);
      p :| p < |a| && a[p] == shards[i];
      q :| q < |b| && b[q] == shards[j];
      q := |a| + q;
    } else {
      p, q := WithHealthInOrder(shards, flags, flags[i], i, j);
      if flags[i] {
        p, q := |a| + p, |a| + q;
      }
    }
  }

  /** Position of the first unhealthy shard, zero when all are healthy. */
  function FirstToLeave(flags: seq<bool>): (k: nat)
    ensures flags != [] ==> k < |flags|
    ensures if exists i :: 0 <= i < |flags| && !flags[i]
            then k < |flags| && !flags[k] && forall i | 0 <= i < k :: flags[i]
            else k == 0
  {
    if flags == [] then 0
    else if exists i :: 0 <= i < |flags| - 1 && !flags[i] then
      assert forall i | 0 <= i < |Front(flags)| :: Front(flags)[i] == flags[i];
      FirstToLeave(Front(flags))
    else if Last(flags) then 0
    else |flags| - 1
  }

  lemma {:induction false} HealthHead(shards: seq<ShardInstance>, flags: seq<bool>, healthy: bool, k: nat)
    requires |flags| == |shards| && k < |flags| && flags[k] == healthy && forall i | 0 <= i < k :: flags[i] != healthy
    ensures WithHealth(shards, flags, healthy) != [] && WithHealth(shards, flags, healthy)[0] == shards[k]
  {
    var front := |shards| - 1;
    if k < front {
      HealthHead(Front(shards), Front(flags), healthy, k);
    } else {
      NoneOfHealth(Front(shards), Front(flags), healthy);
    }
  }

  lemma {:induction false} NoneOfHealth(shards: seq<ShardInstance>, flags: seq<bool>, healthy: bool)
    requires |flags| == |shards| && forall i | 0 <= i < |flags| :: flags[i] != healthy
    ensures WithHealth(shards, flags, healthy) == []
  {
    if shards != [] {
      NoneOfHealth(Front(shards), Front(flags), healthy);
    }
  }

  /** A removal of one shard takes the first unhealthy one of the list, whatever its load and phase, and the first of
      all when every shard is healthy. */
  lemma RemovalOfOne(shards: seq<ShardInstance>, flags: seq<bool>)
    requires DistinctIds(shards) && |flags| == |shards| && shards != []
    ensures Selection(shards, flags, 1) == [shards[FirstToLeave(flags)]]
  {
    var k := FirstToLeave(flags);
    RemovalOrderByHealth(shards, flags);
    if flags[k] {
      NoneOfHealth(shards, flags, false);
      HealthHead(shards, flags, true, 0);
    } else {
      HealthHead(shards, flags, false, k);
    }
  }

  // ----- Decisions -----

  /** One scaling decision: when it was asked for and the shard counts around it. */
  datatype Decision = Decision(at: int, before: nat, after: nat)

  predicate Acts(last: int, at: int) {
    at - last >= COOLDOWN
  }

  /** What one call may do, given the time of the last decision that was not skipped. */
  predicate Allowed(cfg: Config, last: int, d: Decision) {
    || d.after == d.before
    || (Acts(last, d.at) && d.after == d.before + 1 && d.before < cfg.maxShards)
    || (Acts(last, d.at) && d.after == d.before - 1 && d.before > cfg.minShards)
  }

  /** The shards that a scale-down to the target removes, in order. */
  function Leaving(shards: seq<ShardInstance>, flags: seq<bool>, targetCount: int): seq<ShardInstance>
    requires |flags| == |shards|
  {
    if targetCount < |shards| then Selection(shards, flags, |shards| - targetCount) else []
  }

  // ----- Who can leave -----

  /** What the choice of migration targets reads of a shard. */
  datatype Info = Info(phase: Phase, healthy: bool, load: real, resources: nat)

  type Snapshot = map<ShardInstance, Info>

  function InfoOf(s: ShardInstance): Info
    reads s, s.healthStatus
  {
    Info(s.phase, s.IsHealthy(), s.load, |s.assignedResources|)
  }

  predicate Shows(snap: Snapshot, s: ShardInstance)
    reads s, s.healthStatus
  {
    s in snap && snap[s] == InfoOf(s)
  }

  predicate ShowsAll(snap: Snapshot, shards: seq<ShardInstance>)
    reads shards, set s | s in shards && s.healthStatus != null :: s.healthStatus
  {
    forall i | 0 <= i < |shards| :: Shows(snap, shards[i])
  }

  /** What the store shows of its shards. */
  ghost function SnapshotOf(shards: seq<ShardInstance>): (snap: Snapshot)
    reads shards, set s | s in shards && s.healthStatus != null :: s.healthStatus
    ensures ShowsAll(snap, shards)
  {
    map s | s in shards :: InfoOf(s)
  }

  predicate IsTarget(s: ShardInstance, id: string, snap: Snapshot) {
    s.shardId != id && s in snap && snap[s].healthy && snap[s].phase == Running
  }

  /** The shards that can take over resources, in list order. */
  function Targets(shards: seq<ShardInstance>, id: string, snap: Snapshot): seq<ShardInstance> {
    if shards == [] then []
    else Targets(Front(shards), id, snap) + if IsTarget(Last(shards), id, snap) then [Last(shards)] else []
  }

  /** The targets are the other shards that are healthy and Running. */
  lemma {:induction false} TargetsAre(shards: seq<ShardInstance>, id: string, snap: Snapshot, t: ShardInstance)
    ensures t in Targets(shards, id, snap) <==>
            t in shards && t.shardId != id && t in snap && snap[t].healthy && snap[t].phase == Running
  {
    if shards != [] {
      TargetsAre(Front(shards), id, snap, t);
      assert shards == Front(shards) + [Last(shards)];
    }
  }

  /** Resources go to the targets in turn, one plan each, and every target that gets one must have room for one. */
  predicate TakeInTurn(targets: seq<ShardInstance>, resources: nat, snap: Snapshot) {
    targets != [] &&
    forall i | 0 <= i < |targets| && i < resources :: targets[i] in snap && Migration.CanAccept(snap[targets[i]].load, 1)
  }

  /** When the list lets a shard be drained: it is Running, and its resources, if any, find targets. */
  predicate CanLeave(shards: seq<ShardInstance>, s: ShardInstance, snap: Snapshot) {
    && s in snap && snap[s].phase == Running
    && (snap[s].resources > 0 ==> TakeInTurn(Targets(shards, s.shardId, snap), snap[s].resources, snap))
  }

  /** In numbers: only a Running shard can leave; without resources that is all, and with them there must be another
      healthy Running shard. With at least as many resources as targets, no target may carry 0.78 or more. */
  lemma LeavingInPlainTerms(shards: seq<ShardInstance>, s: ShardInstance, snap: Snapshot)
    requires s in snap
    ensures CanLeave(shards, s, snap) ==> snap[s].phase == Running
    ensures snap[s].resources == 0 ==> (CanLeave(shards, s, snap) <==> snap[s].phase == Running)
    ensures CanLeave(shards, s, snap) && snap[s].resources > 0 ==>
              exists t :: t in shards && t.shardId != s.shardId && t in snap && snap[t].healthy && snap[t].phase == Running
    ensures snap[s].phase == Running && snap[s].resources >= |Targets(shards, s.shardId, snap)| > 0 ==>
              (CanLeave(shards, s, snap) <==> forall t | t in Targets(shards, s.shardId, snap) :: t in snap && snap[t].load < 0.78)
  {
    var targets := Targets(shards, s.shardId, snap);
    forall t | t in targets
      ensures t in shards && t.shardId != s.shardId && t in snap && snap[t].healthy && snap[t].phase == Running
    {
      TargetsAre(shards, s.shardId, snap, t);
    }
    if CanLeave(shards, s, snap) && snap[s].resources > 0 {
      assert targets[0] in targets;
    }
    assert forall i | 0 <= i < |targets| :: targets[i] in targets;
  }

  /** Each shard can leave the list that the ones before it leave behind. */
  predicate AllCanLeave(shards: seq<ShardInstance>, leaving: seq<ShardInstance>, snap: Snapshot) {
    leaving == [] ||
    (AllCanLeave(shards, Front(leaving), snap) && CanLeave(Rest(shards, Front(leaving)), Last(leaving), snap))
  }

  /** What a pass outside the cooldown does to the count when no call fails: above the upper threshold it adds a shard;
      below the lower one it removes a shard, or fails when the shard to go first cannot leave; else nothing. */
  predicate Passes(cfg: Config, load: real, before: nat, after: nat, firstCanLeave: bool, ok: bool) {
    if load > cfg.scaleUpThreshold && before < cfg.maxShards then ok && after == before + 1
    else if load < cfg.scaleDownThreshold && before > cfg.minShards then
      ok == firstCanLeave && after == before - if ok && before > 0 then 1 else 0
    else ok && after == before
  }

  /** What a pass may do to the shards, whether or not calls fail. */
  predicate Scaled(cfg: Config, load: real, before: seq<ShardInstance>, after: seq<ShardInstance>, flags: seq<bool>,
                   snap: Snapshot)
    requires |flags| == |before|
  {
    || after == before
    || (before <= after && |after| == |before| + 1 && load > cfg.scaleUpThreshold && |before| < cfg.maxShards)
    || (before != [] && after == Rest(before, [First(before, flags)]) && |after| == |before| - 1 &&
        CanLeave(before, First(before, flags), snap) && load < cfg.scaleDownThreshold && |before| > cfg.minShards)
  }

  /** When a pass grows or shrinks the list, and when it must. */
  lemma PassInPlainTerms(cfg: Config, load: real, before: seq<ShardInstance>, after: seq<ShardInstance>, flags: seq<bool>,
                         snap: Snapshot, firstCanLeave: bool, ok: bool)
    requires |flags| == |before| && Scaled(cfg, load, before, after, flags, snap)
    ensures |after| > |before| ==>
              load > cfg.scaleUpThreshold && |before| < cfg.maxShards && |after| == |before| + 1 && before <= after
    ensures |after| < |before| ==>
              load < cfg.scaleDownThreshold && |before| > cfg.minShards && |after| == |before| - 1
    ensures Passes(cfg, load, |before|, |after|, firstCanLeave, ok) ==>
              (load > cfg.scaleUpThreshold && |before| < cfg.maxShards ==> ok && |after| == |before| + 1)
    ensures Passes(cfg, load, |before|, |after|, firstCanLeave, ok) ==>
              (load < cfg.scaleDownThreshold && load <= cfg.scaleUpThreshold && |before| > cfg.minShards && before != [] ==>
               ok == firstCanLeave && |after| == |before| - if firstCanLeave then 1 else 0)
  {
    if before != [] {
      assert First(before, flags) in before;
    }
  }

  lemma ScaledIsAllowed(cfg: Config, load: real, before: seq<ShardInstance>, after: seq<ShardInstance>, flags: seq<bool>,
                        snap: Snapshot, last: int, now: int)
    requires |flags| == |before| && Scaled(cfg, load, before, after, flags, snap) && Acts(last, now)
    ensures Allowed(cfg, last, Decision(now, |before|, |after|))
  {
  }

  class ShardManager {
    var shards: seq<ShardInstance>
    var lastScaleDecision: int

    constructor ()
      ensures shards == []
    {
      shards := [];
      lastScaleDecision := 0;
    }

    /** Names are unique in the store. */
    predicate Valid()
      reads this
    {
      DistinctIds(shards)
    }

    /** Creates shards one by one until the target is reached or a call fails. A new shard is Pending and unhealthy. */
    method ScaleUp(targetCount: int, now: int) returns (ok: bool, ghost served: bool)
      requires Valid()
      modifies this`shards
      ensures Valid() && old(shards) <= shards && ok == served
      ensures |shards| <= if |old(shards)| < targetCount then targetCount else |old(shards)|
      ensures ok && |old(shards)| < targetCount ==> |shards| == targetCount
      ensures forall i | |old(shards)| <= i < |shards| ::
                fresh(shards[i]) && shards[i].phase == Pending && !shards[i].IsHealthy()
    {
      var listed: bool := *;
      if !listed {
        return false, false;
      }
      ok, served := true, true;
      var i := |shards|;
      while i < targetCount
        invariant Valid() && |shards| == i && old(shards) <= shards
        invariant i <= if |old(shards)| < targetCount then targetCount else |old(shards)|
        invariant forall k | |old(shards)| <= k < i ::
                    fresh(shards[k]) && shards[k].phase == Pending && !shards[k].IsHealthy()
      {
        var created: bool := *;
        var id: string := *;
        if !created || exists s :: s in shards && s.shardId == id {
          return false, false;
        }
        var status := new HealthStatus(false, now, 0);
        var shard := new ShardInstance(id, Pending, 0.0, now, [], status);
        shards := shards + [shard];
        i := i + 1;
      }
    }

    /** Moves a copy of the shard to Draining and writes its phase to the store. */
    method StartDraining(shard: ShardInstance, now: int) returns (ok: bool, copy: ShardInstance, ghost served: bool)
      modifies shard`phase
      ensures ok <==> old(shard.phase) == Running && served
      ensures fresh(copy) && copy.healthStatus == null && copy.shardId == shard.shardId && (ok ==> copy.phase == Draining)
      ensures copy.assignedResources == shard.assignedResources
    {
      served := true;
      copy := new ShardInstance(shard.shardId, shard.phase, shard.load, shard.lastHeartbeat, shard.assignedResources, null);
      ok := copy.TransitionTo(Draining, now);
      if !ok {
        return;
      }
      ok := *;
      served := ok;
      if ok {
        shard.phase := copy.phase;
      }
    }

    /** Drains one listed shard and deletes it. The store keeps the Draining phase even when a later step fails. */
    method DrainAndRemoveShard(shard: ShardInstance, now: int, ghost snap: Snapshot) returns (ok: bool, ghost served: bool)
      requires Valid() && shard in shards && ShowsAll(snap, shards)
      modifies this`shards, shard`phase
      ensures Valid()
      ensures ok <==> CanLeave(old(shards), shard, snap) && served
      ensures shards == if ok then Rest(old(shards), [shard]) else old(shards)
      ensures |shards| == |old(shards)| - if ok then 1 else 0
      ensures ok ==> ShowsAll(snap, shards)
    {
      assert Shows(snap, shard);
      var copy;
      ok, copy, served := StartDraining(shard, now);
      if !ok {
        return;
      }
      ok, served := MigrateShardResources(copy.shardId, |copy.assignedResources|, snap);
      if !ok {
        return;
      }
      ok := copy.TransitionTo(Terminated, now);
      if !ok {
        return;
      }
      ok := DeleteShard(shard);
      served := ok;
    }

    method DeleteShard(shard: ShardInstance) returns (ok: bool)
      requires Valid() && shard in shards
      modifies this`shards
      ensures Valid()
      ensures shards == if ok then Rest(old(shards), [shard]) else old(shards)
      ensures |shards| == |old(shards)| - if ok then 1 else 0
      ensures ok ==> forall i | 0 <= i < |shards| :: shards[i] in old(shards) && shards[i] != shard
    {
      ok := *;
      if ok {
        var i :| 0 <= i < |shards| && shards[i] == shard;
        DistinctSplice(shards, i);
        DistinctNames(shards);
        SpliceIsRest(shards, i);
        RestElements(shards, [shard]);
        shards := shards[..i] + shards[i + 1..];
      }
    }

    /** Sends the resources to the healthy Running shards in turn. It fails when there is none, or when one that gets a
        resource has no room. */
    method MigrateShardResources(id: string, resources: nat, ghost snap: Snapshot) returns (ok: bool, ghost served: bool)
      requires forall i | 0 <= i < |shards| :: shards[i].shardId == id || Shows(snap, shards[i])
      ensures ok <==> (resources > 0 ==> TakeInTurn(Targets(shards, id, snap), resources, snap)) && served
    {
      if resources == 0 {
        return true, true;
      }
      ok := *;
      if !ok {
        return false, false;
      }
      served := true;
      var targets := FindTargets(id, snap);
      if |targets| == 0 {
        return false, true;
      }
      for i := 0 to resources
        invariant ok && served
        invariant forall j | 0 <= j < |targets| && j < i :: targets[j] in snap && Migration.CanAccept(snap[targets[j]].load, 1)
      {
        var target := targets[i % |targets|];
        TurnIndex(i, |targets|);
        ok := target.load + 0.02 < 0.8;
        if !ok {
          return;
        }
        ok := *;
        if !ok {
          return false, false;
        }
      }
    }

    method FindTargets(id: string, ghost snap: Snapshot) returns (targets: seq<ShardInstance>)
      requires forall i | 0 <= i < |shards| :: shards[i].shardId == id || Shows(snap, shards[i])
      ensures targets == Targets(shards, id, snap)
      ensures forall i | 0 <= i < |targets| :: Shows(snap, targets[i])
    {
      targets := [];
      for i := 0 to |shards|
        invariant targets == Targets(shards[..i], id, snap)
        invariant forall j | 0 <= j < |targets| :: Shows(snap, targets[j])
      {
        assert shards[..i + 1][..i] == shards[..i];
        if shards[i].shardId != id && shards[i].IsHealthy() && shards[i].IsActive() {
          targets := targets + [shards[i]];
        }
      }
      assert shards[..|shards|] == shards;
    }

    /** Drains and removes shards one by one until one of them cannot leave or a call fails. */
    method DrainAndRemoveAll(leaving: seq<ShardInstance>, now: int, ghost snap: Snapshot)
      returns (ok: bool, ghost served: bool, ghost done: nat)
      requires Valid() && NoDuplicates(leaving) && forall i | 0 <= i < |leaving| :: leaving[i] in shards
      requires ShowsAll(snap, shards)
      modifies this`shards, shards
      ensures Valid() && done <= |leaving|
      ensures shards == Rest(old(shards), leaving[..done]) && |shards| == |old(shards)| - done
      ensures AllCanLeave(old(shards), leaving[..done], snap)
      ensures ok ==> served && done == |leaving|
      ensures served && !ok ==> done < |leaving| && !CanLeave(Rest(old(shards), leaving[..done]), leaving[done], snap)
    {
      ok, served, done := true, true, 0;
      RestOfNone(shards, []);
      for k := 0 to |leaving|
        invariant Valid() && ok && served && done == k && ShowsAll(snap, shards)
        invariant shards == Rest(old(shards), leaving[..k]) && |shards| == |old(shards)| - k
        invariant AllCanLeave(old(shards), leaving[..k], snap)
      {
        NextToLeave(old(shards), leaving, k);
        AllCanLeaveNext(old(shards), leaving, k, snap);
        assert leaving[k] in old(shards);
        ok, served := DrainAndRemoveShard(leaving[k], now, snap);
        if !ok {
          return;
        }
        done := done + 1;
      }
    }

    /** The part of a scale-down that has shards to remove. */
    method RemoveSelected(count: nat, now: int, ghost flags: seq<bool>, ghost snap: Snapshot, ghost leaving: seq<ShardInstance>)
      returns (ok: bool, ghost served: bool, ghost done: nat)
      requires Valid() && flags == HealthFlags(shards) && ShowsAll(snap, shards)
      requires leaving == Selection(shards, flags, count)
      modifies this`shards, shards
      ensures Valid() && done <= |leaving|
      ensures shards == Rest(old(shards), leaving[..done]) && |shards| == |old(shards)| - done
      ensures AllCanLeave(old(shards), leaving[..done], snap)
      ensures ok ==> served && done == |leaving|
      ensures served ==> (ok <==> AllCanLeave(old(shards), leaving, snap))
    {
      ghost var was := shards;
      var shardsToRemove := SelectShardsForRemoval(shards, count);
      assert shardsToRemove == leaving;
      SelectionFits(shards, flags, count);
      ok, served, done := DrainAndRemoveAll(shardsToRemove, now, snap);
      if ok {
        assert leaving[..done] == leaving;
      } else if served {
        AllOrBlocked(was, leaving, done, snap);
      }
    }

    /** Removes the selected shards in order. Without a failed call it succeeds exactly when each of them can leave the
        list that the ones before it left behind; what remains are the old shards without those removed, in their
        order. */
    method ScaleDownGracefully(targetCount: int, now: int, ghost flags: seq<bool>, ghost snap: Snapshot)
      returns (ok: bool, ghost served: bool, ghost leaving: seq<ShardInstance>, ghost done: nat)
      requires Valid() && flags == HealthFlags(shards) && ShowsAll(snap, shards)
      modifies this`shards, shards
      ensures Valid() && leaving == Leaving(old(shards), flags, targetCount) && done <= |leaving|
      ensures |leaving| == if 0 <= targetCount <= |old(shards)| then |old(shards)| - targetCount
                           else if targetCount < 0 then |old(shards)| else 0
      ensures shards == Rest(old(shards), leaving[..done]) && |shards| == |old(shards)| - done
      ensures AllCanLeave(old(shards), leaving[..done], snap)
      ensures ok ==> served && done == |leaving|
      ensures served ==> (ok <==> AllCanLeave(old(shards), leaving, snap))
    {
      done, leaving := 0, Leaving(shards, flags, targetCount);
      LeavingFits(shards, flags, targetCount);
      RestOfNone(shards, []);
      var listed: bool := *;
      if !listed {
        return false, false, leaving, done;
      }
      if |shards| <= targetCount {
        return true, true, leaving, done;
      }
      ok, served, done := RemoveSelected(|shards| - targetCount, now, flags, snap, leaving);
    }

    /** The part of a pass that acts on the load. */
    method ScaleByLoad(cfg: Config, load: real, now: int, ghost flags: seq<bool>, ghost snap: Snapshot)
      returns (ok: bool, ghost served: bool)
      requires Valid() && flags == HealthFlags(shards) && ShowsAll(snap, shards)
      modifies this`shards, shards
      ensures Valid() && Scaled(cfg, load, old(shards), shards, flags, snap)
      ensures forall i | |old(shards)| <= i < |shards| :: fresh(shards[i])
      ensures served ==> Passes(cfg, load, |old(shards)|, |shards|, FirstCanLeave(old(shards), flags, snap), ok)
    {
      ok, served := true, true;
      var currentCount := |shards|;
      if load > cfg.scaleUpThreshold && currentCount < cfg.maxShards {
        ok, served := ScaleUp(currentCount + 1, now);
      } else if load < cfg.scaleDownThreshold && currentCount > cfg.minShards {
        ghost var was, leaving, done := shards, [], 0;
        ok, served, leaving, done := ScaleDownGracefully(currentCount - 1, now, flags, snap);
        LeavingOne(was, flags, snap, leaving, done);
      }
    }

    /** The part of a pass that reads and acts on the store. */
    method Scale(cfg: Config, now: int, ghost flags: seq<bool>, ghost snap: Snapshot) returns (ok: bool, ghost served: bool)
      requires Valid() && flags == HealthFlags(shards) && ShowsAll(snap, shards)
      modifies this`shards, shards
      ensures Valid() && Scaled(cfg, old(AverageLoad(shards)), old(shards), shards, flags, snap)
      ensures forall i | |old(shards)| <= i < |shards| :: fresh(shards[i])
      ensures served ==> Passes(cfg, old(AverageLoad(shards)), |old(shards)|, |shards|,
                                FirstCanLeave(old(shards), flags, snap), ok)
    {
      var loaded: bool := *;
      if !loaded {
        return false, false;
      }
      var totalLoad := CalculateTotalLoad(shards);
      ok, served := ScaleByLoad(cfg, totalLoad, now, flags, snap);
    }

    /** One pass of the scaling loop. */
    method MakeScalingDecision(cfg: Config, now: int, ghost flags: seq<bool>, ghost snap: Snapshot)
      returns (ok: bool, ghost d: Decision, ghost served: bool)
      requires Valid() && flags == HealthFlags(shards) && ShowsAll(snap, shards)
      modifies this, shards
      ensures Valid()
      ensures d == Decision(now, |old(shards)|, |shards|) && Allowed(cfg, old(lastScaleDecision), d)
      ensures lastScaleDecision == if Acts(old(lastScaleDecision), now) then now else old(lastScaleDecision)
      ensures now - old(lastScaleDecision) < 120 ==> shards == old(shards) && lastScaleDecision == old(lastScaleDecision)
      ensures now - old(lastScaleDecision) >= 120 ==> lastScaleDecision == now
      ensures forall i | |old(shards)| <= i < |shards| :: fresh(shards[i])
      ensures Scaled(cfg, old(AverageLoad(shards)), old(shards), shards, flags, snap)
      ensures served && Acts(old(lastScaleDecision), now) ==>
                Passes(cfg, old(AverageLoad(shards)), |old(shards)|, |shards|, FirstCanLeave(old(shards), flags, snap), ok)
    {
      ghost var was, load := shards, AverageLoad(shards);
      if now - lastScaleDecision < COOLDOWN {
        return true, Decision(now, |was|, |shards|), true;
      }
      lastScaleDecision := now;
      ok, served := Scale(cfg, now, flags, snap);
      ScaledIsAllowed(cfg, load, was, shards, flags, snap, old(lastScaleDecision), now);
      d := Decision(now, |was|, |shards|);
    }

    /** One turn of the loop, with the run so far. */
    method PassAgain(cfg: Config, now: int, ghost start: int, ghost run: seq<Decision>) returns (ghost more: seq<Decision>)
      requires Valid() && Run(cfg, start, run) && lastScaleDecision == LastActed(start, run)
      requires run != [] ==> Last(run).after == |shards| && Last(run).at <= now
      modifies this, shards
      ensures Valid() && Run(cfg, start, more) && lastScaleDecision == LastActed(start, more)
      ensures more == run + [Decision(now, |old(shards)|, |shards|)]
      ensures forall i | 0 <= i < |shards| :: shards[i] in old(shards) || fresh(shards[i])
    {
      ghost var was, flags, snap, load := shards, HealthFlags(shards), SnapshotOf(shards), AverageLoad(shards);
      var ok;
      ghost var d, served;
      ok, d, served := MakeScalingDecision(cfg, now, flags, snap);
      RunSnoc(cfg, start, run, d);
      ScaledMembers(cfg, load, was, shards, flags, snap);
      more := run + [d];
    }

    /** The scaling loop with a fixed configuration. Between two passes the world may change the shards, but neither adds
        nor removes any. */
    method RunScaling(cfg: Config, times: seq<int>) returns (ghost run: seq<Decision>)
      requires Valid() && forall i, j | 0 <= i < j < |times| :: times[i] <= times[j]
      modifies this, shards
      ensures Valid() && |run| == |times| && Run(cfg, old(lastScaleDecision), run)
      ensures run != [] ==> run[0].before == |old(shards)| && Last(run).after == |shards|
      ensures forall i | 0 <= i < |run| :: run[i].at == times[i]
      ensures lastScaleDecision == LastActed(old(lastScaleDecision), run)
    {
      run := [];
      ghost var start := lastScaleDecision;
      for k := 0 to |times|
        invariant Valid() && |run| == k && Run(cfg, start, run) && lastScaleDecision == LastActed(start, run)
        invariant forall i | 0 <= i < k :: run[i].at == times[i]
        invariant if run == [] then |shards| == |old(shards)|
                  else run[0].before == |old(shards)| && Last(run).after == |shards|
        invariant forall i | 0 <= i < |shards| :: shards[i] in old(shards) || fresh(shards[i])
      {
        modify shards;
        run := PassAgain(cfg, times[k], start, run);
      }
    }
  }

  lemma ScaledMembers(cfg: Config, load: real, before: seq<ShardInstance>, after: seq<ShardInstance>, flags: seq<bool>,
                      snap: Snapshot)
    requires |flags| == |before| && Scaled(cfg, load, before, after, flags, snap)
    ensures forall i | 0 <= i < |after| :: after[i] in before || i >= |before|
  {
    if before != [] {
      RestElements(before, [First(before, flags)]);
    }
  }

  lemma RunSnoc(cfg: Config, start: int, run: seq<Decision>, d: Decision)
    requires Run(cfg, start, run) && Allowed(cfg, LastActed(start, run), d)
    requires run != [] ==> d.before == Last(run).after && Last(run).at <= d.at
    ensures Run(cfg, start, run + [d]) && Last(run + [d]) == d
    ensures LastActed(start, run + [d]) == if Acts(LastActed(start, run), d.at) then d.at else LastActed(start, run)
  {
    assert Front(run + [d]) == run;
  }

  /** The shard that goes first. */
  function First(shards: seq<ShardInstance>, flags: seq<bool>): ShardInstance
    requires |flags| == |shards| && shards != []
  {
    shards[FirstToLeave(flags)]
  }

  predicate FirstCanLeave(shards: seq<ShardInstance>, flags: seq<bool>, snap: Snapshot)
    requires |flags| == |shards|
  {
    shards == [] || CanLeave(shards, First(shards, flags), snap)
  }

  lemma LeavingOne(shards: seq<ShardInstance>, flags: seq<bool>, snap: Snapshot, leaving: seq<ShardInstance>, done: nat)
    requires DistinctIds(shards) && |flags| == |shards|
    requires leaving == Leaving(shards, flags, |shards| - 1) && done <= |leaving|
    ensures |leaving| == if shards == [] then 0 else 1
    ensures AllCanLeave(shards, leaving, snap) <==> FirstCanLeave(shards, flags, snap)
    ensures done > 0 && AllCanLeave(shards, leaving[..done], snap) ==> CanLeave(shards, First(shards, flags), snap)
    ensures Rest(shards, leaving[..done]) == if done == 0 then shards else Rest(shards, [First(shards, flags)])
  {
    RestOfNone(shards, []);
    if shards == [] {
      assert leaving == [];
    } else {
      RemovalOfOne(shards, flags);
      assert leaving == [First(shards, flags)];
      assert leaving[..0] == [];
      assert Front(leaving) == [] && AllCanLeave(shards, [], snap);
      assert leaving[..done] == if done == 0 then [] else leaving;
    }
  }

  lemma AllCanLeaveNext(shards: seq<ShardInstance>, leaving: seq<ShardInstance>, k: nat, snap: Snapshot)
    requires k < |leaving|
    ensures AllCanLeave(shards, leaving[..k + 1], snap) <==>
            AllCanLeave(shards, leaving[..k], snap) && CanLeave(Rest(shards, leaving[..k]), leaving[k], snap)
  {
    assert Front(leaving[..k + 1]) == leaving[..k];
  }

  lemma {:induction false} AllOrBlocked(shards: seq<ShardInstance>, leaving: seq<ShardInstance>, done: nat, snap: Snapshot)
    requires done < |leaving| && !CanLeave(Rest(shards, leaving[..done]), leaving[done], snap)
    ensures !AllCanLeave(shards, leaving, snap)
  {
    if done == |leaving| - 1 {
      assert leaving[..done] == Front(leaving);
    } else {
      assert Front(leaving)[..done] == leaving[..done];
      AllOrBlocked(shards, Front(leaving), done, snap);
    }
  }

  lemma TurnIndex(i: nat, n: nat)
    requires n > 0
    ensures i % n <= i && (i < n ==> i % n == i)
  {
  }

  lemma LeavingFits(shards: seq<ShardInstance>, flags: seq<bool>, targetCount: int)
    requires DistinctIds(shards) && |flags| == |shards|
    ensures var leaving := Leaving(shards, flags, targetCount);
            && NoDuplicates(leaving) && (forall i | 0 <= i < |leaving| :: leaving[i] in shards)
            && |leaving| == if 0 <= targetCount <= |shards| then |shards| - targetCount
                            else if targetCount < 0 then |shards| else 0
  {
    if targetCount < |shards| {
      SelectionFits(shards, flags, |shards| - targetCount);
    }
  }

  /** A fresh shard, unhealthy and not Running, is the first to leave a list of healthy ones. Until it runs no pass
      removes any shard, whatever the load. */
  lemma FreshShardBlocksScaleDown(cfg: Config, load: real, shards: seq<ShardInstance>, flags: seq<bool>,
                                  shard: ShardInstance, snap: Snapshot, after: seq<ShardInstance>)
    requires |flags| == |shards| && (forall i | 0 <= i < |flags| :: flags[i]) && !(shard in snap && snap[shard].phase == Running)
    requires Scaled(cfg, load, shards + [shard], after, flags + [false], snap)
    ensures shards + [shard] <= after
  {
    assert !(flags + [false])[|flags|];
    assert FirstToLeave(flags + [false]) == |flags|;
  }

  lemma DistinctNames(list: seq<ShardInstance>)
    requires DistinctIds(list)
    ensures NoDuplicates(list)
  {
    forall j, k | 0 <= j < k < |list|
      ensures list[j] != list[k]
    {
      assert list[j].shardId != list[k].shardId;
    }
  }

  lemma DistinctSplice(list: seq<ShardInstance>, i: nat)
    requires DistinctIds(list) && i < |list|
    ensures DistinctIds(list[..i] + list[i + 1..])
  {
    var rest: seq<ShardInstance> := list[..i] + list[i + 1..];
    forall j, k | 0 <= j < k < |rest|
      ensures rest[j].shardId != rest[k].shardId
    {
      assert rest[j] == list[if j < i then j else j + 1];
      assert rest[k] == list[if k < i then k else k + 1];
    }
  }

  /** The next shard to leave is still there, and when it goes the list has lost one more. */
  lemma NextToLeave(all: seq<ShardInstance>, leaving: seq<ShardInstance>, k: nat)
    requires k < |leaving| && NoDuplicates(leaving) && leaving[k] in all
    ensures leaving[k] in Rest(all, leaving[..k])
    ensures Rest(Rest(all, leaving[..k]), [leaving[k]]) == Rest(all, leaving[..k + 1])
  {
    RestElements(all, leaving[..k]);
    RestTwice(all, leaving[..k], leaving[k]);
    assert leaving[..k] + [leaving[k]] == leaving[..k + 1];
  }

  lemma {:induction false} SelectionSize(shards: seq<ShardInstance>, flags: seq<bool>)
    requires |flags| == |shards|
    ensures |WithHealth(shards, flags, false)| + |WithHealth(shards, flags, true)| == |shards|
  {
    if shards != [] {
      SelectionSize(Front(shards), Front(flags));
    }
  }

  lemma {:induction false} WithHealthDistinct(shards: seq<ShardInstance>, flags: seq<bool>, healthy: bool)
    requires DistinctIds(shards) && |flags| == |shards|
    ensures DistinctIds(WithHealth(shards, flags, healthy))
  {
    if shards != [] {
      var k := |shards| - 1;
      WithHealthDistinct(shards[..k], flags[..k], healthy);
      forall s | s in WithHealth(shards[..k], flags[..k], healthy)
        ensures s.shardId != shards[k].shardId
      {
        WithHealthOrigin(shards[..k], flags[..k], healthy, s);
        var i :| 0 <= i < k && shards[..k][i] == s;
      }
    }
  }

  lemma HealthsApart(shards: seq<ShardInstance>, flags: seq<bool>, s: ShardInstance, t: ShardInstance)
    requires DistinctIds(shards) && |flags| == |shards|
    requires s in WithHealth(shards, flags, false) && t in WithHealth(shards, flags, true)
    ensures s in shards && t in shards && s != t
  {
    WithHealthOrigin(shards, flags, false, s);
    WithHealthOrigin(shards, flags, true, t);
    var i :| 0 <= i < |shards| && shards[i] == s && !flags[i];
    var j :| 0 <= j < |shards| && shards[j] == t && flags[j];
    assert i != j;
  }

  lemma ConcatDiffers(a: seq<ShardInstance>, b: seq<ShardInstance>, i: nat, j: nat)
    requires DistinctIds(a) && DistinctIds(b) && i < j < |a + b|
    requires forall s, t | s in a && t in b :: s != t
    ensures (a + b)[i] != (a + b)[j]
  {
    if j < |a| {
      assert a[i].shardId != a[j].shardId;
    } else if i >= |a| {
      assert b[i - |a|].shardId != b[j - |a|].shardId;
    } else {
      assert a[i] in a && b[j - |a|] in b;
    }
  }

  /** The selection has the wanted size and names different shards of the list. */
  lemma SelectionFits(shards: seq<ShardInstance>, flags: seq<bool>, count: nat)
    requires DistinctIds(shards) && |flags| == |shards|
    ensures |Selection(shards, flags, count)| == if count <= |shards| then count else |shards|
    ensures NoDuplicates(Selection(shards, flags, count))
    ensures forall s | s in Selection(shards, flags, count) :: s in shards
  {
    var a, b, selected := WithHealth(shards, flags, false), WithHealth(shards, flags, true), Selection(shards, flags, count);
    RemovalOrderByHealth(shards, flags);
    SelectionSize(shards, flags);
    WithHealthDistinct(shards, flags, false);
    WithHealthDistinct(shards, flags, true);
    forall s, t | s in a && t in b
      ensures s != t
    {
      HealthsApart(shards, flags, s, t);
    }
    forall i | 0 <= i < |a + b|
      ensures (a + b)[i] in shards
    {
      WithHealthOrigin(shards, flags, i >= |a|, (a + b)[i]);
    }
    forall i, j | 0 <= i < j < |selected|
      ensures selected[i] != selected[j]
    {
      if count >= |shards| {
        assert shards[i].shardId != shards[j].shardId;
      } else {
        ConcatDiffers(a, b, i, j);
      }
    }
  }

  // ----- Runs -----

  /** The time of the last decision that was not skipped, after a run. */
  function LastActed(start: int, run: seq<Decision>): int {
    if run == [] then start
    else
      var last := LastActed(start, Front(run));
      if Acts(last, Last(run).at) then Last(run).at else last
  }

  /** A run of scaling passes on a clock that does not go back, with nothing else changing the shard count. */
  predicate Run(cfg: Config, start: int, run: seq<Decision>) {
    run == [] ||
    (var front, d := Front(run), Last(run);
     && Run(cfg, start, front)
     && Allowed(cfg, LastActed(start, front), d)
     && (front != [] ==> d.before == Last(front).after && Last(front).at <= d.at))
  }

  /** A shard count inside the bounds stays inside them. */
  lemma {:induction false} CountStaysInBounds(cfg: Config, start: int, run: seq<Decision>)
    requires Run(cfg, start, run) && run != [] && cfg.minShards <= run[0].before <= cfg.maxShards
    ensures cfg.minShards <= Last(run).after <= cfg.maxShards
  {
    var front := Front(run);
    if front != [] {
      CountStaysInBounds(cfg, start, front);
    }
  }

  function Change(d: Decision): nat {
    if d.after < d.before then d.before - d.after else d.after - d.before
  }

  /** Changes made by the decisions at or after the given time. */
  function Moves(run: seq<Decision>, from: int): nat {
    if run == [] then 0
    else Moves(Front(run), from) + if from <= Last(run).at then Change(Last(run)) else 0
  }

  lemma NextSlot(from: int, last: int, at: int)
    requires from <= last && at - last >= COOLDOWN
    ensures (at - from) / COOLDOWN >= (last - from) / COOLDOWN + 1
  {
  }

  lemma {:induction false} MovesBounded(cfg: Config, start: int, run: seq<Decision>, from: int)
    requires Run(cfg, start, run)
    ensures var last := LastActed(start, run);
            || Moves(run, from) == 0
            || (run != [] && from <= last <= Last(run).at && Moves(run, from) <= (last - from) / COOLDOWN + 1)
  {
    if run != [] {
      var front, d := Front(run), Last(run);
      var last := LastActed(start, front);
      MovesBounded(cfg, start, front, from);
      if Acts(last, d.at) && Moves(front, from) > 0 {
        NextSlot(from, last, d.at);
      } else if from <= d.at {
        assert (d.at - from) / COOLDOWN >= 0;
      }
    }
  }

  lemma {:induction false} RunPrefix(cfg: Config, start: int, run: seq<Decision>, k: nat)
    requires Run(cfg, start, run) && k <= |run|
    ensures Run(cfg, start, run[..k])
  {
    if k == |run| {
      assert run[..k] == run;
    } else {
      RunPrefix(cfg, start, Front(run), k);
      assert Front(run)[..k] == run[..k];
    }
  }

  lemma {:induction false} NetChange(cfg: Config, start: int, run: seq<Decision>, k: nat)
    requires Run(cfg, start, run) && k < |run|
    ensures run[k].at <= Last(run).at
    ensures Last(run).after <= run[k].before + Moves(run, run[k].at)
    ensures run[k].before <= Last(run).after + Moves(run, run[k].at)
  {
    var front := Front(run);
    if k < |front| {
      NetChange(cfg, start, front, k);
    }
  }

  /** Over any window of a run the shard count changes by at most one per full cooldown, plus one. */
  lemma ScalingRate(cfg: Config, start: int, run: seq<Decision>, k: nat, j: nat)
    requires Run(cfg, start, run) && k <= j < |run|
    ensures run[k].at <= run[j].at
    ensures var bound: int := (run[j].at - run[k].at) / 120 + 1;
            run[j].after <= run[k].before + bound && run[k].before <= run[j].after + bound
  {
    var window := run[..j + 1];
    RunPrefix(cfg, start, run, j + 1);
    NetChange(cfg, start, window, k);
    MovesBounded(cfg, start, window, run[k].at);
    var last := LastActed(start, window);
    assert last <= run[j].at ==> (last - run[k].at) / COOLDOWN <= (run[j].at - run[k].at) / COOLDOWN;
  }
}
