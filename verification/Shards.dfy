/** Shard objects and their status, as the controllers share and mutate them. */
module Shards {

  datatype Phase = Pending | Running | Draining | Failed | Terminated

  datatype Priority = High | Medium | Low | Other(name: string)

  datatype MigrationPlan = MigrationPlan(source: string, target: string, resources: seq<string>, priority: Priority)

  predicate IsValidPhaseTransition(oldPhase: Phase, newPhase: Phase) {
    match oldPhase
    case Pending => newPhase == Running || newPhase == Failed
    case Running => newPhase == Draining || newPhase == Failed
    case Draining => newPhase == Terminated || newPhase == Running
    case Failed => newPhase == Running || newPhase == Terminated
    case Terminated => false
  }

  /** The phases by what can happen in them: what can fail, what is final, and what each phase is entered from. */
  lemma PhaseGraph(oldPhase: Phase, newPhase: Phase)
    ensures IsValidPhaseTransition(oldPhase, Failed) <==> oldPhase in {Pending, Running}
    ensures IsValidPhaseTransition(oldPhase, Running) <==> oldPhase in {Pending, Draining, Failed}
    ensures IsValidPhaseTransition(oldPhase, Draining) <==> oldPhase == Running
    ensures IsValidPhaseTransition(oldPhase, Terminated) <==> oldPhase in {Draining, Failed}
    ensures !IsValidPhaseTransition(oldPhase, Pending) && !IsValidPhaseTransition(Terminated, newPhase)
  {
  }

  predicate PhasePath(path: seq<Phase>) {
    forall i | 0 <= i < |path| - 1 :: IsValidPhaseTransition(path[i], path[i + 1])
  }

  /** What every life of a shard from Pending on keeps: it drains only after it ran, it terminates only after it
      drained or failed, and nothing follows that. */
  lemma {:induction false} LifeOfShard(path: seq<Phase>)
    requires path != [] && path[0] == Pending && PhasePath(path)
    ensures Draining in path ==> Running in path
    ensures Terminated in path ==> Draining in path || Failed in path
    ensures forall i | 0 <= i < |path| - 1 :: path[i] != Terminated
    ensures forall i | 0 < i < |path| :: path[i] != Pending
  {
    var last := |path| - 1;
    if last > 0 {
      LifeOfShard(path[..last]);
      assert IsValidPhaseTransition(path[last - 1], path[last]);
      assert path == path[..last] + [path[last]] && path[..last][last - 1] == path[last - 1];
    }
  }

  class HealthStatus {
    var healthy: bool
    var lastCheck: int
    var errorCount: int

    constructor (healthy: bool, lastCheck: int, errorCount: int)
      ensures this.healthy == healthy && this.lastCheck == lastCheck && this.errorCount == errorCount
    {
      this.healthy := healthy;
      this.lastCheck := lastCheck;
      this.errorCount := errorCount;
    }
  }

  /** The list after the first occurrence of the resource is spliced out. */
  function Dropped(list: seq<string>, resource: string): seq<string> {
    if list == [] then []
    else if list[0] == resource then list[1..]
    else [list[0]] + Dropped(list[1..], resource)
  }

  /** The list after the resource is appended unless it is already there. */
  function Appended(list: seq<string>, resource: string): seq<string> {
    if resource in list then list else list + [resource]
  }

  lemma {:induction false} DroppedAt(list: seq<string>, resource: string, i: nat)
    requires i <= |list| && (forall k | 0 <= k < i :: list[k] != resource)
    requires i < |list| ==> list[i] == resource
    ensures Dropped(list, resource) == if i < |list| then list[..i] + list[i + 1..] else list
  {
    if i > 0 {
      DroppedAt(list[1..], resource, i - 1);
      assert list == [list[0]] + list[1..];
      assert i < |list| ==> list[..i] == [list[0]] + list[1..][..i - 1];
    }
  }

  class ShardInstance {
    const shardId: string
    var phase: Phase
    var load: real
    /** Zero stands for the zero time. */
    var lastHeartbeat: int
    var assignedResources: seq<string>
    var healthStatus: HealthStatus?

    constructor (shardId: string, phase: Phase, load: real, lastHeartbeat: int, assignedResources: seq<string>,
                 healthStatus: HealthStatus?)
      ensures this.shardId == shardId && this.phase == phase && this.load == load
      ensures this.lastHeartbeat == lastHeartbeat && this.assignedResources == assignedResources
      ensures this.healthStatus == healthStatus
    {
      this.shardId := shardId;
      this.phase := phase;
      this.load := load;
      this.lastHeartbeat := lastHeartbeat;
      this.assignedResources := assignedResources;
      this.healthStatus := healthStatus;
    }

    predicate IsHealthy()
      reads this, healthStatus
    {
      healthStatus != null && healthStatus.healthy
    }

    predicate IsActive()
      reads this
    {
      phase == Running
    }

    /** Moves the shard to a new phase; on entry to Failed the shared status object is mutated. */
    method TransitionTo(newPhase: Phase, now: int) returns (ok: bool)
      modifies this, healthStatus
      ensures ok == IsValidPhaseTransition(old(phase), newPhase)
      ensures newPhase == Failed ==> ok == (old(phase) in {Pending, Running})
      ensures newPhase == Draining ==> ok == (old(phase) == Running)
      ensures phase == if ok then newPhase else old(phase)
      ensures !ok || newPhase != Running ==> healthStatus == old(healthStatus) && lastHeartbeat == old(lastHeartbeat)
      ensures ok && newPhase == Running ==> lastHeartbeat == now && healthStatus != null
      ensures ok && newPhase == Running && old(healthStatus) != null ==> healthStatus == old(healthStatus)
      ensures ok && newPhase == Running && old(healthStatus) == null ==>
                fresh(healthStatus) && healthStatus.healthy && healthStatus.lastCheck == now && healthStatus.errorCount == 0
      ensures old(healthStatus) != null ==>
                if ok && newPhase == Failed
                then !old(healthStatus).healthy && old(healthStatus).lastCheck == now &&
                     old(healthStatus).errorCount == old(healthStatus.errorCount) + 1
                else unchanged(old(healthStatus))
      ensures assignedResources == if ok && newPhase == Terminated then [] else old(assignedResources)
      ensures load == if ok && newPhase == Terminated then 0.0 else old(load)
    {
      if !IsValidPhaseTransition(phase, newPhase) {
        return false;
      }
      phase := newPhase;
      match newPhase {
        case Running =>
          lastHeartbeat := now;
          if healthStatus == null {
            healthStatus := new HealthStatus(true, now, 0);
          }
        case Failed =>
          if healthStatus != null {
            healthStatus.healthy := false;
            healthStatus.lastCheck := now;
            healthStatus.errorCount := healthStatus.errorCount + 1;
          }
        case Terminated =>
          assignedResources := [];
          load := 0.0;
        case _ =>
      }
      ok := true;
    }

    method AddResource(resource: string)
      modifies this`assignedResources
      ensures assignedResources == Appended(old(assignedResources), resource)
    {
      for i := 0 to |assignedResources|
        invariant forall k | 0 <= k < i :: assignedResources[k] != resource
      {
        if assignedResources[i] == resource {
          return;
        }
      }
      assignedResources := assignedResources + [resource];
    }

    method RemoveResource(resource: string)
      modifies this`assignedResources
      ensures assignedResources == Dropped(old(assignedResources), resource)
    {
      for i := 0 to |assignedResources|
        invariant assignedResources == old(assignedResources)
        invariant forall k | 0 <= k < i :: assignedResources[k] != resource
      {
        if assignedResources[i] == resource {
          DroppedAt(assignedResources, resource, i);
          assignedResources := assignedResources[..i] + assignedResources[i + 1..];
          return;
        }
      }
      DroppedAt(assignedResources, resource, |assignedResources|);
    }
  }
}
