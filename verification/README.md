# Verified model of the shard controller

Dafny 4.11 models of the parts of the shard controller that carry state and arithmetic, with proofs of what they
promise. `dafny verify dfyconfig.toml` checks everything.

| files | what they model |
|---|---|
| `HashRing`, `FailoverOrder`, `LoadShares`, `RingLayout`, `Rebuild`, `ConsistentHash` | the consistent-hash ring: a map from points to nodes beside a sorted list of points, changed in place |
| `LoadBalancer` | keeping the ring in step with the Running shards, switching strategy, assigning a resource |
| `Shards` | shard objects, their status object, phase changes, resource lists |
| `Migration`, `Migrator` | moving a plan between two shard objects in batches, with partial rollback and retries from the start |
| `Scheduler` | the bounded priority queue of plans |
| `CircuitBreaker`, `Recovery` | the timed breaker, and error handling with capped backoff |
| `HashRanges` | range allocation for new shards and the overlap validator |
| `Health` | error counting through a status object that checker and shard share |
| `Scaling` | rate-limited scaling by one shard, and the choice of shards to remove |

Each class keeps the fields of its original and is proved against functions on values (`Added`, `Removed`, `Replay`,
`Step`, ...). The lemmas are about those functions and about runs of them.

## What the proofs show

The ring. The hash function is a parameter about which nothing is assumed. A new node takes exactly the hash values
that have one of its points at least as near as their old successor (`AddTakesNearest`). Removing a node deletes it from
the failover order of every key and reorders nothing (`RemovalKeepsOrder`). The load distribution is the exact fraction
of hash values for which a lookup gives each node, and it sums to one, duplicate points included (`SharesAreExact`).
Building a ring node by node gives the canonical ring exactly when no node is listed twice and no two nodes share a hash
(`BuildIsCanonical`), and then any sequence of incremental updates, in any iteration order, ends with the ring built from
nothing (`IncrementalEqualsRebuild`).

Several properties hold only under a condition, and the condition is proved exact:

- Adding a node and removing it again restores the ring if and only if none of its points already had an entry
  (`AddThenRemoveRestores`). After any removal a lookup finds no node if and only if the successor among the remaining
  points is a point of the removed node (`RemovalLosesExactly`). So a node added twice and removed once loses exactly the
  values that its first addition took (`DoubleAddLosesTakenValues`), and a node that shares hashes with others, added and
  removed, loses exactly the values whose successor is a shared hash (`SharedHashLosesItsArc`); every value gets its owner
  back if and only if no hash is shared (`SharedHashLosesSomeValue`).
- A migration keeps the combined resources of the two shards if and only if every committed resource was held by one of
  them, because a planned resource that nobody holds is made up on the way (`Conservation`).
- A completed plan and its reverse restore the source load if and only if the source carried at least the estimated load
  of the plan, since the source load is cut at zero (`RollbackRoundTrip`).
- `IsOpen` reads an expired timeout under one lock and writes the half-open state under another. Against the same calls
  with the query in one piece, the breaker ends up half-open whatever happened between the two locks. That is the same
  breaker if and only if the trial that was then under way saw queries only; it lets later queries through that should be
  blocked if and only if the trial failed, or passed and a run of threshold failures followed, and the timeout after the
  latest failure has not passed at the second lock; and one failure opens a breaker that should stay closed if and only
  if the trial passed and the count is still short of the threshold
  (`SplitAgreesExactly`). When the gap is no longer than the timeout, that trial is all calls in the gap
  (`ShortGapHasOneTrial`). A second query and its success in the gap is the plain case in which
  `ClosedExactlyWithoutRun` is lost (`OneFailureOpensAfterGap`).
- `HashRange.Size` is the number of values if and only if the range is not the whole hash space, where it wraps to zero
  (`SizeWrapsOnFullRange`).
- The overlap validator accepts a list, inverted ranges included, if and only if each range ends before the start of every
  range that a stable sort by start puts after it; without inverted ranges that is pairwise disjointness
  (`ValidateHashRanges`, `AcceptsExactlyDisjoint`).

Where the code and its documentation disagree, the model follows the code:

- `calculateHashRangeForNewShard` is said to divide the hash space evenly. The new shard is always the last one, so every
  range ends at the largest value and any two overlap; the validator rejects every list with two of them
  (`AllocatedRangesAreRejected`). The test in `pkg/controllers/shard_manager_test.go:724` expects the second shard to
  start at 0x80000000; the code gives 0x7FFFFFFF.
- `docs/configuration.md:27` says that a shard is marked after `failureThreshold` consecutive failures (3 by default).
  A check moves the shard to Failed if and only if the stored record still says healthy, the verdict does not, the phase
  allows the move, and at least the threshold of unhealthy checks in a row has happened (`FailsExactly`). So a row of
  unhealthy checks gets the shard marked if and only if one of its checks from the threshold on finds a healthy record in
  a phase that can fail (`RowIsMarkedExactly`). Who writes the record decides that. If the checker is the only writer and
  its writes succeed, a row is marked if and only if the threshold is at most one, the record before the row was healthy
  and some check of the row finds a phase that can fail: a check whose move is refused writes nothing and leaves the
  record healthy for the next one (`SoleWriterMarksExactly`). The worker's heartbeat (`pkg/worker/worker.go:567-590`)
  writes the record, too, as healthy while the worker runs. When every check of the row finds a healthy record, as with a
  heartbeat between any two of them, and a phase that can fail, the documented threshold is met
  (`HealthyRecordMarksAtThreshold`).
- `selectShardsForRemoval` is said to prefer the least loaded healthy shards. It takes unhealthy shards and then healthy
  ones in list order (`RemovalOrderByHealth`). A shard can leave if it is Running and its resources, if it has any, find
  targets: other healthy Running shards, of which each that gets a resource has room for one (`CanLeave`). A scale-down by
  one therefore succeeds, when no call fails, if and only if the first unhealthy shard of the list, or the first of all
  when every one is healthy, can leave (`MakeScalingDecision`, `RemovalOfOne`); one fresh shard among healthy ones blocks
  every scale-down (`FreshShardBlocksScaleDown`).
- `docs/configuration.md:39` has a configurable cooldown of 300 seconds. The scaling loop waits 120 seconds.
- A batch that fails in transfer gives back only the transferred part of its reservation, and a retry charges committed
  batches again. `Ledger` states the charge as it is.

## Modelling choices

Loads are `real`, so the rounding of 0.02 is not modelled. Clock readings are parameters, and outcomes that the
environment decides (transfers, API calls, cancellation, recovery handlers) are arbitrary values. Map iteration visits
elements in arbitrary order. A missing map entry reads as the empty string, as in Go. Methods that take part in a run
return it as a ghost log. `ListShards` hands the same two shard objects to every attempt of a migration, and the plan
names two different shards, as plan creation demands (`pkg/controllers/resource_migrator.go:156`). Shard names are
unique in the store. During one scale-down nothing else changes the shards in the store; the migrations that it starts
run on copies from later listings. Sorting calls of the Go library are replaced by an insertion sort, or by the choice of
some minimum where only the head is used.

## Model

| member | source | states |
|---|---|---|
| `HashRing.SuccessorIsNearest` | pkg/utils/hash.go:174-184 | search with wrap-around finds the point at the least clockwise distance from the hash value |
| `HashRing.OwnerIsNextPoint` | pkg/utils/hash.go:166-185 | in plain order: a hash value belongs to the least point at or after it, and past the last point to the least of all |
| `HashRing.AddTakesNearest` | pkg/utils/hash.go:28-40 | exactly which hash values a node takes when it is added; all others keep their owner; on any sorted ring, collisions included |
| `HashRing.AddRemapsMinimally` | pkg/utils/hash.go:28-40 | after an addition every owner is the old one or the new node |
| `HashRing.RemoveRemapsMinimally` | pkg/utils/hash.go:43-59 | after a removal only values of the removed node have a new owner, for points that no other node holds; the node may be there twice or not at all |
| `HashRing.AddThenRemoveRestores` | pkg/utils/hash.go:28-59 | add then remove restores the sorted list always, and the ring exactly when no point of the node had an entry |
| `HashRing.RemoveLeavesNoDanglingPoint` | pkg/utils/hash.go:43-59 | every point keeps an entry after a removal exactly when no removed point occurred more often than the node listed it |
| `HashRing.AddsCommute` | pkg/utils/hash.go:28-40 | two nodes can be added in either order with the same result exactly when they share no hash |
| `HashRing.RemovalLosesExactly` | pkg/utils/hash.go:43-83 | which lookups a removal leaves without a node: exactly those whose successor among the remaining points is a point of the removed node |
| `HashRing.DoubleAddLosesTakenValues` | pkg/utils/hash.go:28-83 | a node added twice and removed once: the values it had taken find no node, all others keep their owner |
| `HashRing.SharedHashLosesItsArc` | pkg/utils/hash.go:28-83 | a node that shares hashes, added and removed: values whose old successor is a shared hash find no node, all others have their owner back |
| `HashRing.SharedHashLosesSomeValue` | pkg/utils/hash.go:28-83 | every value has its owner back exactly when no hash is shared |
| `FailoverOrder.OrderReachesEveryNode` | pkg/utils/hash.go:103-115 | the walk meets every node with an entry, so it ends; each node is listed once |
| `FailoverOrder.OrderByNearestPoint` | pkg/utils/hash.go:98-115 | nodes come in clockwise order of first appearance: an earlier node has a point nearer than all points of a later one |
| `FailoverOrder.ServedNodes` | pkg/utils/hash.go:86-118 | different nodes, exactly as many as asked for up to the number there are, the owner first, and fewer is a prefix of more |
| `FailoverOrder.RemovalKeepsOrder` | pkg/utils/hash.go:43-118 | after a removal the full node list of any key is the old list without that node, in the same order |
| `FailoverOrder.OwnerHandsOver` | pkg/utils/hash.go:43-118 | removing the owner of a key hands it to the second node of its old list |
| `LoadShares.ArcsCoverOwned` | pkg/utils/hash.go:207-221 | the arcs of a node are as long as the number of hash values whose lookup gives that node |
| `RingLayout.VirtualKeysDiffer` | pkg/utils/hash.go:32-36 | different nodes and different indices have different keys |
| `RingLayout.PointsAre` | pkg/utils/hash.go:32-36 | the points of a node are the hashes of its keys in turn, one for each replica |
| `RingLayout.CanonicalUnique` | pkg/utils/hash.go:28-59 | a node set has at most one ring with exactly its points, owners and counts |
| `RingLayout.CanonicalSeparates` | pkg/utils/hash.go:28-40 | on such a ring no two nodes share a hash and every point has an entry |
| `Rebuild.AddKeepsCanonical` | pkg/utils/hash.go:28-40 | adding a fresh node that shares no hash gives the ring of the larger set |
| `Rebuild.RemoveKeepsCanonical` | pkg/utils/hash.go:43-59 | removing a node gives the ring of the smaller set |
| `Rebuild.BuildIsCanonical` | pkg/controllers/load_balancer.go:36-44 | building node by node gives the ring of the set exactly when no node is repeated and no two share a hash |
| `Rebuild.UpdateIsCanonical` | pkg/controllers/load_balancer.go:271-310 | one update, in any iteration order, gives the ring of the new node set |
| `Rebuild.UpdateReaches` | pkg/controllers/load_balancer.go:271-310 | after an update the nodes of the map are exactly the wanted ones |
| `Rebuild.IncrementalEqualsRebuild` | pkg/controllers/load_balancer.go:271-310 | after any run of updates the ring equals the one built from nothing out of the last node set in any order |
| `Rebuild.OwnersAgree` | pkg/controllers/load_balancer.go:271-310 | between any two node sets a value changes owner only if its old owner left or its new owner arrived |
| `ConsistentHashing.ConsistentHash.AddNode` | pkg/utils/hash.go:28-40 | the loop over virtual nodes and the sort give exactly the ring with the node added, and keep map and list consistent |
| `ConsistentHashing.ConsistentHash.RemoveNode` | pkg/utils/hash.go:43-59 | deleting and splicing point by point gives exactly the ring with the node removed |
| `ConsistentHashing.ConsistentHash.Search` | pkg/utils/hash.go:73-75 | binary search returns the number of points before the hash |
| `ConsistentHashing.ConsistentHash.GetNodeWithHash` | pkg/utils/hash.go:166-185 | returns the owner of the hash value, no node on an empty ring |
| `ConsistentHashing.ConsistentHash.GetNode` | pkg/utils/hash.go:62-83 | returns the owner of the hash of the key |
| `ConsistentHashing.ConsistentHash.GetUniqueNodes` | pkg/utils/hash.go:131-144 | lists every node of the map once |
| `ConsistentHashing.ConsistentHash.GetNodes` | pkg/utils/hash.go:86-118 | terminates on every ring that calls can produce and returns the served prefix of the failover order, of the size asked for or of all nodes |
| `ConsistentHashing.SharesAreExact` | pkg/utils/hash.go:204-223 | adding up arcs gives every owner its exact fraction of the hash space, and the fractions sum to one |
| `ConsistentHashing.ConsistentHash.GetLoadDistribution` | pkg/utils/hash.go:188-224 | returns exact shares, nothing on an empty ring |
| `LoadBalancing.NewLoadBalancer` | pkg/controllers/load_balancer.go:26-49 | a new balancer builds its ring from all listed shards, whatever their phase, starts round robin before the first shard, and is an error exactly for an unsupported strategy |
| `LoadBalancing.LoadBalancer.UpdateShardNodes` | pkg/controllers/load_balancer.go:271-310 | removes departed and adds arrived nodes in the orders it returns, and nothing else; afterwards the nodes on the ring are exactly the names of the shards in phase Running |
| `LoadBalancing.LoadBalancer.SetStrategy` | pkg/controllers/load_balancer.go:330-361 | switching to consistent hashing builds a new ring with exactly the shards in phase Running, switching to round robin starts over; same or unsupported strategies change nothing |
| `LoadBalancing.RunningIdsInOrder` | pkg/controllers/load_balancer.go:343-349 | the names of the Running shards, in list order |
| `LoadBalancing.LoadBalancer.AssignResource` | pkg/controllers/load_balancer.go:222-268 | the ring owner when it is eligible, otherwise some least loaded eligible shard; next in turn for round robin; an error exactly when none is eligible |
| `LoadBalancing.EligibleInPlainTerms` | pkg/utils/validation.go:13-30 | a shard can be given a resource exactly when it is Running with a healthy record and no heartbeat older than two minutes |
| `LoadBalancing.EligibleInOrder` | pkg/controllers/load_balancer.go:231-237 | the shards that can be given a resource keep the order of the list, which round robin goes by |
| `LoadBalancing.LeastLoadedInPlainTerms` | pkg/controllers/load_balancer.go:52-75 | reported loads are compared as they are; without a report a thousandth per resource counts, up to one |
| `Shards.ShardInstance.TransitionTo` | pkg/apis/shard/v1/types.go:194-225 | only valid phase changes happen; entering Failed mutates the shared status object and stamps it, Terminated clears resources and load |
| `Shards.PhaseGraph` | pkg/apis/shard/v1/types.go:367-391 | which phases can fail, run, drain and terminate, what is final, and that nothing returns to Pending |
| `Shards.LifeOfShard` | pkg/apis/shard/v1/types.go:367-391 | over every life of a shard: it drains only after it ran, terminates only after it drained or failed, and nothing follows that |
| `Shards.ShardInstance.AddResource` | pkg/apis/shard/v1/types.go:256-263 | appends unless present |
| `Shards.ShardInstance.RemoveResource` | pkg/apis/shard/v1/types.go:266-273 | splices out the first occurrence |
| `Migration.CommittedIsPrefix` | pkg/controllers/resource_migrator.go:350-375 | the batches tile the plan: an attempt has committed a prefix of it |
| `Migration.EventInPlainTerms` | pkg/controllers/resource_migrator.go:381-435 | one batch in numbers: refused exactly above 0.9, broken off with 0.02 left for each resource not transferred, committed with 0.02 moved for each |
| `Migration.Conservation` | pkg/controllers/resource_migrator.go:381-417 | at any point of any run the combined resources are unchanged exactly when every committed resource was held by one of the shards |
| `Migration.RunMovesPrefix` | pkg/controllers/resource_migrator.go:274-417 | at every batch boundary of every run the target holds its list and a prefix of the plan, the source the rest, and nothing is lost |
| `Migration.SuccessMovesPlan` | pkg/controllers/resource_migrator.go:274-378 | a run whose last attempt completed has moved the whole plan |
| `Migration.Ledger` | pkg/controllers/resource_migrator.go:381-487 | target load is its start plus the charge of every event and never exceeds the larger of its start and 0.9 |
| `Migration.ChargeIsCommittedPlusLeaked` | pkg/controllers/resource_migrator.go:484-486 | the charge is what was committed, once per attempt, plus what broken batches did not give back |
| `Migration.SourceLedger` | pkg/controllers/resource_migrator.go:490-507 | source load is its start less every committed batch, cut at zero, and stays between zero and its start |
| `Migration.CommittedBound` | pkg/controllers/resource_migrator.go:372 | the migrated count is at most the number of attempts times the plan size |
| `Migration.RunsAreOneLog` | pkg/controllers/resource_migrator.go:274-307 | attempts one after another have the effect and the legality of one log |
| `Migration.AdmissionImpliesCapacity` | pkg/controllers/resource_migrator.go:420-426 | a plan that canAcceptResources admits as a whole has no batch of its first attempt refused |
| `Migration.RollbackRoundTrip` | pkg/controllers/resource_migrator.go:561-575 | plan and reverse plan on first attempts restore both resource sets and the target load, and the source load exactly when it was large enough |
| `ResourceMigration.ResourceMigrator.PrepareTargetShard` | pkg/controllers/resource_migrator.go:420-435 | refuses exactly above 0.9, otherwise reserves the estimate |
| `ResourceMigration.ResourceMigrator.RollbackBatchTransfer` | pkg/controllers/resource_migrator.go:469-487 | gives back the estimate of the transferred part only |
| `ResourceMigration.ResourceMigrator.CleanupSourceShard` | pkg/controllers/resource_migrator.go:490-507 | drains the source load, cut at zero |
| `ResourceMigration.ResourceMigrator.MigrateBatch` | pkg/controllers/resource_migrator.go:381-417 | one batch has exactly the effect of one possible event: refused, broken off or committed |
| `Migration.BatchesOfAttempt` | pkg/controllers/resource_migrator.go:622-631 | no batch is empty or larger than 20, an attempt has at most the number of batches its plan takes (one up to 10, tens up to 100, twenties beyond), and one without a failure is complete exactly with all of them |
| `ResourceMigration.ResourceMigrator.MigrateBatches` | pkg/controllers/resource_migrator.go:350-377 | the loop leaves the log of one attempt, succeeds exactly when it is complete, stops early only for a failed batch or a done context, and counts migrated and failed resources by it |
| `ResourceMigration.ResourceMigrator.PerformMigration` | pkg/controllers/resource_migrator.go:310-378 | one attempt between the shards found; nothing changes unless both are in the right phases |
| `ResourceMigration.ResourceMigrator.ExecuteMigrationWithRetries` | pkg/controllers/resource_migrator.go:274-307 | one attempt more than the retries unless it succeeds or is cancelled; each legal where it starts, and undisturbed ones fail only by a refused or broken batch; their replay is the final state of both shards and the counters |
| `Scheduling.MigrationScheduler.AddPlan` | pkg/controllers/resource_migrator.go:72-90 | inserts before the first plan that is outranked |
| `Scheduling.MigrationScheduler.GetNextPlan` | pkg/controllers/resource_migrator.go:93-106 | hands out the head when there is capacity |
| `Scheduling.MigrationScheduler.MarkCompleted` | pkg/controllers/resource_migrator.go:109-116 | frees a slot, never below zero |
| `Scheduling.HeadIsNext` | pkg/controllers/resource_migrator.go:72-106 | the head of the queue is the earliest-added of the highest-ranked plans, and the tail is the queue of the others |
| `Scheduling.SchedulerRefinesReference` | pkg/controllers/resource_migrator.go:72-127 | over every run of calls the outputs equal those of a scheduler that picks the earliest highest-ranked plan from arrival order |
| `Scheduling.HandsOutByPriority` | pkg/controllers/resource_migrator.go:72-127 | over every run, by name: a High plan if one waits, else a Medium one, else a Low one, else any other, and of those the one added first |
| `Scheduling.NothingLost` | pkg/controllers/resource_migrator.go:72-106 | plans added are plans handed out and plans queued, as multisets, over every run |
| `Scheduling.RunningBounded` | pkg/controllers/resource_migrator.go:92-116 | the running count stays between zero and the limit over every run |
| `Breakers.CircuitBreaker.IsOpen` | pkg/controllers/error_handler.go:736-757 | blocks exactly while open and within the timeout, and moves to half-open after it |
| `Breakers.CircuitBreaker.RecordFailure` | pkg/controllers/error_handler.go:760-774 | counts, stamps and opens on the threshold or from half-open |
| `Breakers.CircuitBreaker.RecordSuccess` | pkg/controllers/error_handler.go:777-787 | resets the count and closes from half-open |
| `Breakers.CountsFailuresInARow` | pkg/controllers/error_handler.go:736-787 | over every trace the count is the failures since the last success and the stamp the latest failure |
| `Breakers.FailuresSinceSuccess` | pkg/controllers/error_handler.go:760-787 | the failures in a row are the failures of the trace after its last success |
| `Breakers.LatestFailureIs` | pkg/controllers/error_handler.go:764-765 | the latest failure is the last one of the trace |
| `Breakers.ClosedExactlyWithoutRun` | pkg/controllers/error_handler.go:736-787 | closed exactly when no run of threshold failures happened since the breaker last closed |
| `Breakers.FirstAdmission` | pkg/controllers/error_handler.go:736-757 | after any opening the first query let through is one more than the timeout after the latest failure |
| `Breakers.ThresholdBlocks` | pkg/controllers/error_handler.go:760-774 | a failure that completes the threshold blocks queries exactly for the timeout |
| `Breakers.TrialOutcome` | pkg/controllers/error_handler.go:736-787 | a half-open breaker stays so under queries only, closes when a success comes first and no run of threshold failures follows, and is open otherwise, counted since the last query that began a trial |
| `Breakers.SplitAgreesExactly` | pkg/controllers/error_handler.go:743-749 | what other calls between the two locks of IsOpen break: exactly when the breaker is the atomic one, lets blocked queries through, or opens on one failure |
| `Breakers.ShortGapHasOneTrial` | pkg/controllers/error_handler.go:743-749 | a gap no longer than the timeout holds no second trial |
| `Breakers.OneFailureOpensAfterGap` | pkg/controllers/error_handler.go:743-749 | a second query and its success in the gap: one failure opens the breaker that the atomic query leaves closed |
| `Recovery.CalculateRetryDelay` | pkg/controllers/error_handler.go:550-560 | the loop returns the repeated product, or the limit once a product exceeded it |
| `Recovery.BackoffIsCappedGrowth` | pkg/controllers/error_handler.go:550-560 | for factors from one up, every wait is the uncapped delay cut at the limit and waits never get shorter |
| `Recovery.WaitGrowsByFactor` | pkg/controllers/error_handler.go:550-560 | each wait is the factor times the one before, rounded down to a whole unit, or the limit when that is over it |
| `Recovery.WaitIsPower` | pkg/controllers/error_handler.go:550-560 | with a whole factor the k-th wait is the base delay times its k-th power, cut at the limit |
| `Recovery.HistoryKeepsNewest` | pkg/controllers/error_handler.go:538-548 | after any number of additions the history is the newest records of all ever added, up to the limit |
| `Recovery.ErrorHandler.AttemptRecovery` | pkg/controllers/error_handler.go:296-394 | bounded handler calls, success exactly when the last call succeeded, giving up only when the retries are used up, one wait by the backoff before every call but the first of a fresh error, books and breaker updated accordingly |
| `Recovery.ErrorHandler.IsCircuitBreakerOpen` | pkg/controllers/error_handler.go:655-671 | asks the breaker kept under the joined name of component and error type, making a new one when there is none |
| `Recovery.KeysSeparate` | pkg/controllers/error_handler.go:656 | joined names tell components and types apart as long as no type contains the separator |
| `Recovery.DelaysAt` | pkg/controllers/error_handler.go:305-318 | the waits of one recovery are the delays before consecutive retries |
| `Recovery.ErrorHandler.IsRepeatedErrorPattern` | pkg/controllers/error_handler.go:576-594 | more than five similar errors within the hour |
| `Recovery.SimilarErrorsCount` | pkg/controllers/error_handler.go:576-594 | each record of the type and component that is recent enough counts once |
| `Recovery.ErrorHandler.PersonInPlainTerms` | pkg/controllers/error_handler.go:562-594 | a person is asked when the strategy says so, when the error is critical, or after more than five similar ones within the hour |
| `Recovery.ErrorHandler.HandleError` | pkg/controllers/error_handler.go:239-293 | refuses exactly when the breaker blocks, goes to a person without a handler call when required, and otherwise recovers with the stated books |
| `HashRanges.SizeWrapsOnFullRange` | pkg/apis/shard/v1/types.go:291-296 | the uint32 size is the number of values exactly off the full range |
| `HashRanges.NewRangeIsLastShare` | pkg/controllers/shard_manager.go:1003-1021 | no overflow, the range ends at the largest value and has between q+1 and q+n+1 values |
| `HashRanges.NewRangeIsNested` | pkg/controllers/shard_manager.go:1003-1021 | each new range lies inside the one before while the cube of the shard count fits |
| `HashRanges.AllocatedRangesAreRejected` | pkg/controllers/shard_manager.go:1013-1015 | any two allocated ranges overlap and the validator rejects every list holding two |
| `HashRanges.BubbleSort` | pkg/utils/validation.go:165-171 | the swap loops sort by start, permute, and keep ties in order |
| `HashRanges.ValidateHashRanges` | pkg/utils/validation.go:155-185 | accepts exactly the acceptable lists, on all inputs, and leaves the input as it was |
| `HashRanges.AcceptsExactlyDisjoint` | pkg/utils/validation.go:173-184 | accepted lists are pairwise disjoint, and without inverted ranges exactly those are accepted |
| `HashRanges.AcceptsInBounds` | pkg/utils/validation.go:155-185 | without inverted ranges a list is accepted exactly when of any two ranges one ends before the other starts |
| `HashRanges.InvertedRangeCanBeRejected` | pkg/utils/validation.go:173-184 | a disjoint list with an inverted range that is rejected |
| `Health.HealthChecker.CheckHealth` | pkg/controllers/health_checker.go:66-154 | stores a new status object with the verdict and the next error count, and tracks the failure |
| `Health.HealthChecker.TrackFailure` | pkg/controllers/health_checker.go:157-177 | appends the time and keeps those of the last hour |
| `Health.HealthChecker.HandleHealthStateTransition` | pkg/controllers/health_checker.go:292-350 | moves to Failed at the threshold and raises the count of the shared status object; an impossible move is an error |
| `Health.HealthChecker.CheckAndUpdateShardHealth` | pkg/controllers/health_checker.go:256-289 | shard and checker share the status object, so what the checker remembers is one step of the model with the extra count |
| `Health.HealthChecker.CheckStored` | pkg/controllers/health_checker.go:235-289 | the check of a deep copy: written exactly when the move is not refused and the call succeeds, and then the verdict is in the store; otherwise the stored shard is as before |
| `Health.HealthChecker.CheckRepeatedly` | pkg/controllers/health_checker.go:207-289 | the loop produces the runs the lemmas are about: the checker remembers their replay and their failure history, and an undisturbed loop is a sole-writer run |
| `Health.ErrorCountExact` | pkg/controllers/health_checker.go:109-154 | over every run the error count is the unhealthy checks in a row plus the moves to Failed among them |
| `Health.UnhealthyRowIs` | pkg/controllers/health_checker.go:109-154 | the row is as long as the unhealthy checks at the end, back to the last healthy one |
| `Health.FailedOnlyAfterThreshold` | pkg/controllers/health_checker.go:296-310 | a move to Failed comes only after threshold unhealthy checks in a row |
| `Health.FailsExactly` | pkg/controllers/health_checker.go:256-310 | exactly which check of any run moves the shard to Failed |
| `Health.RowIsMarkedExactly` | pkg/controllers/health_checker.go:256-310 | a row of unhealthy checks gets the shard marked exactly when one of them from the threshold on finds a healthy record and a phase that can fail |
| `Health.ReachesExactly` | pkg/controllers/health_checker.go:256-300 | exactly which check of any run asks for the move to Failed |
| `Health.SoleWriterMarksExactly` | pkg/controllers/health_checker.go:256-310 | with the checker as the only writer and no write lost, a row is marked exactly when the threshold is at most one, the record before it was healthy and some check of it finds a phase that can fail |
| `Health.HealthyRecordMarksAtThreshold` | pkg/controllers/health_checker.go:265-310 | a row whose checks all find a healthy record and a phase that can fail is marked exactly when it is as long as the threshold |
| `Health.HistoryIsLastHour` | pkg/controllers/health_checker.go:157-177 | the failure history is exactly the failures of the hour before the latest one |
| `Health.HistoryInPlainTerms` | pkg/controllers/health_checker.go:157-177 | the history is in time order and holds each time as often as an unhealthy check had it, less than 3600 seconds before the latest |
| `Scaling.CalculateTotalLoad` | pkg/controllers/shard_manager.go:867-878 | the average load, zero without shards |
| `Scaling.SumLoadsAdds` | pkg/controllers/shard_manager.go:867-878 | the total of two lists is the sum of their totals, and that of one shard its load |
| `Scaling.AverageIsMean` | pkg/controllers/shard_manager.go:867-878 | the average lies between the loads and times the count is the total |
| `Scaling.SelectShardsForRemoval` | pkg/controllers/shard_manager.go:810-853 | the first shards of the removal order: unhealthy ones, then healthy ones whose name is not selected yet |
| `Scaling.RemovalOrderByHealth` | pkg/controllers/shard_manager.go:810-853 | with unique names the order is the unhealthy shards, then the healthy ones, each in list order |
| `Scaling.LeavesFirst` | pkg/controllers/shard_manager.go:810-853 | of two shards the unhealthy one leaves first, and of two of the same health the earlier in the list |
| `Scaling.RemovalOfOne` | pkg/controllers/shard_manager.go:810-853 | a removal of one takes the first unhealthy shard of the list, or the first of all when every one is healthy |
| `Scaling.SelectionFits` | pkg/controllers/shard_manager.go:810-853 | the selection has the wanted size and names different shards of the list |
| `Scaling.ShardManager.ScaleUp` | pkg/controllers/shard_manager.go:251-273 | keeps all shards, never passes the target, reaches it when no call fails; new shards are Pending and unhealthy |
| `Scaling.ShardManager.MigrateShardResources` | pkg/controllers/shard_manager.go:731-806 | without a failed call it succeeds exactly when there are targets and each that gets a resource has room for one |
| `Scaling.TargetsAre` | pkg/controllers/shard_manager.go:742-750 | the targets are the other shards that are healthy and Running |
| `Scaling.LeavingInPlainTerms` | pkg/controllers/shard_manager.go:693-806 | who can leave in numbers: only a Running shard, and with resources only when another healthy Running shard exists and those that get a resource carry less than 0.78 |
| `Scaling.ShardManager.DrainAndRemoveShard` | pkg/controllers/shard_manager.go:693-729 | removes exactly that shard when it can leave and no call fails, and none otherwise |
| `Scaling.ShardManager.ScaleDownGracefully` | pkg/controllers/shard_manager.go:669-690 | the survivors are the old shards without the first of those selected, each of which could leave what the ones before it left behind; without a failed call it succeeds exactly when all selected can |
| `Scaling.ShardManager.MakeScalingDecision` | pkg/controllers/shard_manager.go:446-539 | nothing inside the cooldown; outside it, when no call fails, one shard more above the upper threshold, one less below the lower one exactly when the first to go can leave; never outside the bounds |
| `Scaling.PassInPlainTerms` | pkg/controllers/shard_manager.go:483-512 | a pass grows the list only above the upper threshold and below the maximum, shrinks it only below the lower one and above the minimum, and must do so when no call fails and a shard can leave |
| `Scaling.ShardManager.RunScaling` | pkg/controllers/shard_manager.go:373-443 | the loop produces the runs the lemmas are about, whatever happens to the shards between two passes |
| `Scaling.FreshShardBlocksScaleDown` | pkg/controllers/shard_manager.go:669-853 | a fresh shard that is not Running, among healthy ones, keeps every pass from removing a shard |
| `Scaling.CountStaysInBounds` | pkg/controllers/shard_manager.go:483-512 | over every run a count inside the bounds stays inside |
| `Scaling.ScalingRate` | pkg/controllers/shard_manager.go:449-456 | over any window of any run the count changes by at most one per full cooldown, plus one |

## Left out

- Kubernetes calls, leader election, leases and generated clients; the store is a list of shard objects.
- Alerts, metrics, logging and HTTP endpoints.
- SHA-256; the hash function is a parameter.
- Locks and races, except the gap inside IsOpen; calls are atomic otherwise.
- RollbackMigration, CancelMigration and the registry of active and finished executions; the reverse plan itself is modelled.
- Freeing of scheduler slots on completion, which the code does not do.
- Migration between a shard and itself, which plan creation rejects.
- Recovery handlers and strategies themselves; a handler only succeeds or fails and is taken not to change the retry count.
- ScaleRecoveryHandler, which scales without regard to the bounds.
- The second health loop in the shard manager, which also checks and writes health records; health callbacks and recovery history.
- Worker queues, configuration parsing and field validation.
- AssignResource: which of several least loaded shards is returned is left open, because the library sort is unstable.
- SplitAgreesExactly: follows one split query at a time; the other calls in the gap, queries included, are atomic.
