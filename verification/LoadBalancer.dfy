/** The part of the load balancer that keeps the hash ring in step with the Running shards and assigns resources. */
module LoadBalancing {
  import opened HashRing
  import opened FailoverOrder
  import opened Sequences
  import opened RingLayout
  import opened Rebuild
  import opened ConsistentHashing
  import opened Shards

  datatype Strategy = ConsistentHashStrategy | RoundRobin | LeastLoaded | Unsupported

  const VIRTUAL_NODES := 10
  const HEARTBEAT_LIMIT := 120

  /** Identifiers of the Running shards, in list order. */
  function RunningIds(shards: seq<ShardInstance>): (ids: seq<string>)
    reads set s | s in shards
    ensures forall n :: n in ids <==> exists i :: 0 <= i < |shards| && shards[i].phase == Running && shards[i].shardId == n
  {
    if shards == [] then
      []
    else
      assert forall i | 0 <= i < |Front(shards)| :: shards[i] == Front(shards)[i];
      var ids := RunningIds(Front(shards));
      if Last(shards).phase == Running then ids + [Last(shards).shardId] else ids
  }

  /** Identifiers of all shards, in list order. */
  function AllIds(shards: seq<ShardInstance>): (ids: seq<string>)
    ensures |ids| == |shards| && forall i | 0 <= i < |shards| :: ids[i] == shards[i].shardId
  {
    if shards == [] then [] else AllIds(Front(shards)) + [Last(shards).shardId]
  }

  /** The identifiers of a list are those of its parts one after the other. */
  lemma {:induction false} RunningIdsInOrder(a: seq<ShardInstance>, b: seq<ShardInstance>)
    ensures RunningIds(a + b) == RunningIds(a) + RunningIds(b)
    ensures forall s | s in a :: RunningIds([s]) == if s.phase == Running then [s.shardId] else []
  {
    if b == [] {
      assert a + b == a;
    } else {
      RunningIdsInOrder(a, Front(b));
      assert Front(a + b) == a + Front(b);
    }
    forall s | s in a
      ensures RunningIds([s]) == if s.phase == Running then [s.shardId] else []
    {
      assert Front([s]) == [];
    }
  }

  predicate Eligible(shard: ShardInstance, now: int)
    reads shard, shard.healthStatus
  {
    shard.phase == Running && shard.IsHealthy() && (shard.lastHeartbeat != 0 ==> now - shard.lastHeartbeat <= HEARTBEAT_LIMIT)
  }

  /** Load of an eligible shard: the reported value, or one thousandth per assigned resource, at most one. */
  function ShardLoad(shard: ShardInstance): real
    reads shard
  {
    if shard.load > 0.0 then shard.load
    else
      var resourceLoad := |shard.assignedResources| as real / 1000.0;
      if resourceLoad > 1.0 then 1.0 else resourceLoad
  }

  function EligibleShards(shards: seq<ShardInstance>, now: int): (e: seq<ShardInstance>)
    reads set s | s in shards, set s | s in shards && s.healthStatus != null :: s.healthStatus
    ensures forall i | 0 <= i < |e| :: e[i] in shards && Eligible(e[i], now)
    ensures forall i | 0 <= i < |shards| && Eligible(shards[i], now) :: shards[i] in e
  {
    if shards == [] then
      []
    else
      assert shards == Front(shards) + [Last(shards)];
      var e := EligibleShards(Front(shards), now);
      if Eligible(Last(shards), now) then e + [Last(shards)] else e
  }

  /** Which shards can be given a resource: Running ones with a healthy record and no heartbeat older than 120 seconds. */
  lemma EligibleInPlainTerms(shards: seq<ShardInstance>, now: int, s: ShardInstance)
    ensures s in EligibleShards(shards, now) <==>
            s in shards && s.phase == Running && s.healthStatus != null && s.healthStatus.healthy &&
            (s.lastHeartbeat == 0 || now - s.lastHeartbeat <= 120)
  {
    var e := EligibleShards(shards, now);
    assert forall i | 0 <= i < |e| :: Eligible(e[i], now);
    if s in shards && Eligible(s, now) {
      var i :| 0 <= i < |shards| && shards[i] == s;
    }
  }

  /** Eligible shards keep the order of the list. */
  lemma {:induction false} EligibleInOrder(a: seq<ShardInstance>, b: seq<ShardInstance>, now: int)
    ensures EligibleShards(a + b, now) == EligibleShards(a, now) + EligibleShards(b, now)
  {
    if b == [] {
      assert a + b == a;
    } else {
      EligibleInOrder(a, Front(b), now);
      assert Front(a + b) == a + Front(b);
    }
  }

  predicate IsLeastLoaded(shard: ShardInstance, shards: seq<ShardInstance>)
    reads shard, set s | s in shards
  {
    shard in shards && forall s | s in shards :: ShardLoad(shard) <= ShardLoad(s)
  }

  /** What least loaded means in plain numbers: reported loads are compared as they are, and a shard that reports none
      counts a thousandth per resource, up to a thousand of them. */
  lemma LeastLoadedInPlainTerms(shard: ShardInstance, shards: seq<ShardInstance>, t: ShardInstance)
    requires IsLeastLoaded(shard, shards) && t in shards
    ensures shard.load > 0.0 && t.load > 0.0 ==> shard.load <= t.load
    ensures shard.load <= 0.0 && t.load <= 0.0 && |t.assignedResources| < 1000 ==>
              |shard.assignedResources| <= |t.assignedResources|
    ensures shard.load > 0.0 && t.load <= 0.0 ==>
              shard.load * 1000.0 <= |t.assignedResources| as real && shard.load <= 1.0
    ensures shard.load <= 0.0 && t.load > 0.0 && |shard.assignedResources| <= 1000 ==>
              |shard.assignedResources| as real <= t.load * 1000.0
  {
    assert ShardLoad(shard) <= ShardLoad(t);
  }

  /** The head of the list after an unstable sort by load: some shard of least load. */
  method GetLeastLoaded(shards: seq<ShardInstance>) returns (shard: ShardInstance)
    requires shards != []
    ensures IsLeastLoaded(shard, shards)
  {
    shard := shards[0];
    for i := 1 to |shards|
      invariant shard in shards && forall k | 0 <= k < i :: ShardLoad(shard) <= ShardLoad(shards[k])
    {
      if * {
        if ShardLoad(shards[i]) <= ShardLoad(shard) {
          shard := shards[i];
        }
      } else if ShardLoad(shards[i]) < ShardLoad(shard) {
        shard := shards[i];
      }
    }
  }

  lemma NamesSkip(done: seq<string>, all: set<string>, rest: set<string>, node: string)
    requires Names(done) == all - rest && node !in all
    ensures Names(done) == all - (rest - {node})
  {
  }

  lemma NamesGrow(done: seq<string>, all: set<string>, rest: set<string>, node: string)
    requires NoDuplicates(done) && Names(done) == all - rest && node in rest && node in all
    ensures NoDuplicates(done + [node]) && Names(done + [node]) == all - (rest - {node})
  {
    assert node !in Names(done);
    NamesOfSnoc(done, node);
  }

  method RemoveDeparted(ring: ConsistentHash, current: set<string>, running: set<string>) returns (ghost gone: seq<string>)
    requires ring.Valid()
    modifies ring
    ensures ring.Valid() && NoDuplicates(gone) && Names(gone) == current - running
    ensures ring.View() == RemoveAll(ring.layout, old(ring.View()), gone)
  {
    var rest := current;
    gone := [];
    while rest != {}
      invariant ring.Valid() && rest <= current && NoDuplicates(gone) && Names(gone) == (current - running) - rest
      invariant ring.View() == RemoveAll(ring.layout, old(ring.View()), gone)
      decreases rest
    {
      var node :| node in rest;
      if node !in running {
        ring.RemoveNode(node);
        NamesGrow(gone, current - running, rest, node);
        gone := gone + [node];
      } else {
        NamesSkip(gone, current - running, rest, node);
      }
      rest := rest - {node};
    }
  }

  method AddArrived(ring: ConsistentHash, current: set<string>, running: set<string>) returns (ghost arrived: seq<string>)
    requires ring.Valid()
    modifies ring
    ensures ring.Valid() && NoDuplicates(arrived) && Names(arrived) == running - current
    ensures ring.View() == AddAll(ring.layout, old(ring.View()), arrived)
  {
    var rest := running;
    arrived := [];
    while rest != {}
      invariant ring.Valid() && rest <= running && NoDuplicates(arrived) && Names(arrived) == (running - current) - rest
      invariant ring.View() == AddAll(ring.layout, old(ring.View()), arrived)
      decreases rest
    {
      var node :| node in rest;
      if node !in current {
        ring.AddNode(node);
        NamesGrow(arrived, running - current, rest, node);
        arrived := arrived + [node];
      } else {
        NamesSkip(arrived, running - current, rest, node);
      }
      rest := rest - {node};
    }
  }

  method RingOf(hashKey: string -> Hash, ids: seq<string>) returns (ring: ConsistentHash)
    ensures fresh(ring) && ring.Valid() && ring.layout == Layout(hashKey, VIRTUAL_NODES)
    ensures ring.View() == Build(ring.layout, ids)
  {
    ring := new ConsistentHash(hashKey, VIRTUAL_NODES);
    for i := 0 to |ids|
      invariant ring.Valid() && ring.View() == Build(ring.layout, ids[..i])
    {
      assert ids[..i + 1][..i] == ids[..i];
      ring.AddNode(ids[i]);
    }
    assert ids[..|ids|] == ids;
  }

  class LoadBalancer {
    var strategy: Strategy
    const hashKey: string -> Hash
    var consistentHash: ConsistentHash?
    var lastShardIndex: int

    function Points(): Layout {
      Layout(hashKey, VIRTUAL_NODES)
    }

    ghost predicate Valid()
      reads this, consistentHash
    {
      && -1 <= lastShardIndex
      && (consistentHash != null ==> consistentHash.Valid() && consistentHash.layout == Points())
    }

    ghost function RingView(): Ring
      reads this, consistentHash
    {
      if consistentHash == null then EMPTY_RING else consistentHash.View()
    }

    constructor (strategy: Strategy, hashKey: string -> Hash, shards: seq<ShardInstance>)
      requires strategy != Unsupported
      ensures Valid() && this.strategy == strategy && this.hashKey == hashKey
      ensures lastShardIndex == if strategy == RoundRobin then -1 else 0
      ensures strategy != ConsistentHashStrategy ==> consistentHash == null
      ensures strategy == ConsistentHashStrategy ==>
                consistentHash != null && fresh(consistentHash) && RingView() == Build(Points(), AllIds(shards))
    {
      this.strategy := strategy;
      this.hashKey := hashKey;
      consistentHash := null;
      lastShardIndex := if strategy == RoundRobin then -1 else 0;
      new;
      if strategy == ConsistentHashStrategy {
        consistentHash := RingOf(hashKey, AllIds(shards));
      }
    }

    /** The update itself. The two node sets are visited in arbitrary order. */
    method SyncRing(shards: seq<ShardInstance>) returns (ghost gone: seq<string>, ghost arrived: seq<string>)
      requires Valid() && strategy == ConsistentHashStrategy
      modifies this`consistentHash, consistentHash
      ensures Valid() && consistentHash != null
      ensures if old(consistentHash) != null then consistentHash == old(consistentHash) else fresh(consistentHash)
      ensures UpdateBy(Points(), old(RingView().nodes.Values), Names(old(RunningIds(shards))), old(RingView()),
                       RingView(), gone, arrived)
    {
      if consistentHash == null {
        consistentHash := new ConsistentHash(hashKey, VIRTUAL_NODES);
      }
      var currentNodes := consistentHash.GetUniqueNodes();
      var current := set n | n in currentNodes;
      assert current == Names(currentNodes) == RingView().nodes.Values;
      var running := CollectRunning(shards);
      assert running == Names(old(RunningIds(shards)));
      gone := RemoveDeparted(consistentHash, current, running);
      arrived := AddArrived(consistentHash, current, running);
    }

    /** Brings the ring in step with the Running shards: after it the nodes on a canonical ring are exactly them, unless
        two of them share a hash. */
    method UpdateShardNodes(shards: seq<ShardInstance>) returns (ghost gone: seq<string>, ghost arrived: seq<string>)
      requires Valid()
      modifies this`consistentHash, consistentHash
      ensures Valid()
      ensures strategy != ConsistentHashStrategy ==> RingView() == old(RingView())
      ensures strategy == ConsistentHashStrategy ==>
                consistentHash != null && (old(consistentHash) != null ==> consistentHash == old(consistentHash)) &&
                UpdateBy(Points(), old(RingView().nodes.Values), Names(old(RunningIds(shards))), old(RingView()),
                         RingView(), gone, arrived)
      ensures strategy == ConsistentHashStrategy && NoSharedHash(Points(), Names(old(RunningIds(shards)))) &&
              Canonical(Points(), old(RingView().nodes.Values), old(RingView())) ==>
                forall n :: n in RingView().nodes.Values <==>
                            exists i :: 0 <= i < |shards| && shards[i].phase == Running && shards[i].shardId == n
    {
      gone, arrived := [], [];
      if strategy != ConsistentHashStrategy {
        return;
      }
      ghost var was, running := RingView(), RunningIds(shards);
      gone, arrived := SyncRing(shards);
      if NoSharedHash(Points(), Names(running)) && Canonical(Points(), was.nodes.Values, was) {
        UpdateReaches(Points(), was.nodes.Values, Names(running), was, RingView(), gone, arrived);
      }
    }

    /** Picks the shard for a resource; null stands for an error. */
    method AssignResource(resourceId: string, shards: seq<ShardInstance>, now: int) returns (shard: ShardInstance?)
      requires Valid() && (strategy == ConsistentHashStrategy ==> consistentHash != null)
      modifies this`lastShardIndex
      ensures Valid()
      ensures shard == null <==> EligibleShards(shards, now) == [] || strategy == Unsupported
      ensures shard != null ==> shard in EligibleShards(shards, now)
      ensures shard != null && strategy == ConsistentHashStrategy ==>
                var owner := Owner(RingView(), hashKey(resourceId));
                if exists s :: s in EligibleShards(shards, now) && s.shardId == owner
                then shard.shardId == owner
                else IsLeastLoaded(shard, EligibleShards(shards, now))
      ensures shard != null && strategy == LeastLoaded ==> IsLeastLoaded(shard, EligibleShards(shards, now))
      ensures if shard != null && strategy == RoundRobin
              then lastShardIndex == (old(lastShardIndex) + 1) % |EligibleShards(shards, now)| &&
                   shard == EligibleShards(shards, now)[lastShardIndex]
              else lastShardIndex == old(lastShardIndex)
    {
      var healthy := EligibleShards(shards, now);
      if healthy == [] {
        return null;
      }
      match strategy {
        case ConsistentHashStrategy =>
          var shardId := consistentHash.GetNode(resourceId);
          for i := 0 to |healthy|
            invariant forall k | 0 <= k < i :: healthy[k].shardId != shardId
          {
            if healthy[i].shardId == shardId {
              return healthy[i];
            }
          }
          shard := GetLeastLoaded(healthy);
        case RoundRobin =>
          lastShardIndex := (lastShardIndex + 1) % |healthy|;
          shard := healthy[lastShardIndex];
        case LeastLoaded =>
          shard := GetLeastLoaded(healthy);
        case Unsupported =>
          shard := null;
      }
    }

    method CollectRunning(shards: seq<ShardInstance>) returns (running: set<string>)
      ensures running == Names(RunningIds(shards))
    {
      running := {};
      for i := 0 to |shards|
        invariant running == Names(RunningIds(shards[..i]))
      {
        assert shards[..i + 1][..i] == shards[..i];
        if shards[i].phase == Running {
          NamesOfSnoc(RunningIds(shards[..i]), shards[i].shardId);
          running := running + {shards[i].shardId};
        }
      }
      assert shards[..|shards|] == shards;
    }

    /** Switching to consistent hashing adds every Running shard in list order to a new ring. */
    method SetStrategy(newStrategy: Strategy, shards: seq<ShardInstance>)
      requires Valid()
      modifies this
      ensures Valid()
      ensures newStrategy == old(strategy) || newStrategy == Unsupported ==>
                strategy == old(strategy) && consistentHash == old(consistentHash)
      ensures newStrategy != old(strategy) && newStrategy != Unsupported ==>
                strategy == newStrategy &&
                (if newStrategy == ConsistentHashStrategy
                 then consistentHash != null && fresh(consistentHash) &&
                      RingView() == Build(Points(), RunningIds(shards)) &&
                      (NoDuplicates(RunningIds(shards)) && NoSharedHash(Points(), Names(RunningIds(shards))) ==>
                       forall n :: n in RingView().nodes.Values <==>
                                   exists i :: 0 <= i < |shards| && shards[i].phase == Running && shards[i].shardId == n)
                 else consistentHash == null)
      ensures lastShardIndex == if newStrategy != old(strategy) && newStrategy == RoundRobin then -1 else old(lastShardIndex)
    {
      if strategy == newStrategy {
        return;
      }
      match newStrategy {
        case ConsistentHashStrategy =>
          strategy := newStrategy;
          consistentHash := RingOf(hashKey, RunningIds(shards));
          if NoDuplicates(RunningIds(shards)) && NoSharedHash(Points(), Names(RunningIds(shards))) {
            BuildReaches(Points(), RunningIds(shards));
          }
        case RoundRobin =>
          strategy := newStrategy;
          lastShardIndex := -1;
          consistentHash := null;
        case LeastLoaded =>
          strategy := newStrategy;
          consistentHash := null;
        case Unsupported =>
      }
    }
  }

  /** A new balancer puts every shard on the ring, whatever its phase; null stands for the error of an unsupported
      strategy. */
  method NewLoadBalancer(strategy: Strategy, hashKey: string -> Hash, shards: seq<ShardInstance>)
    returns (lb: LoadBalancer?)
    ensures lb == null <==> strategy == Unsupported
    ensures lb != null ==> fresh(lb) && lb.Valid() && lb.strategy == strategy && lb.hashKey == hashKey
    ensures lb != null && strategy != ConsistentHashStrategy ==> lb.consistentHash == null
    ensures lb != null && strategy == ConsistentHashStrategy ==>
              fresh(lb.consistentHash) && lb.RingView() == Build(lb.Points(), AllIds(shards))
    ensures lb != null && strategy == ConsistentHashStrategy ==> lb.consistentHash.layout == Layout(hashKey, 10)
    ensures lb != null ==> lb.lastShardIndex == if strategy == RoundRobin then -1 else 0
  {
    if strategy == Unsupported {
      return null;
    }
    lb := new LoadBalancer(strategy, hashKey, shards);
  }
}
