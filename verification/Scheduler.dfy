/** The bounded priority scheduler of migration plans, against a scheduler that keeps plans in the order they
    were added and looks for the best one only when asked. */
module Scheduling {
  import opened Sequences
  import opened Shards

  type Plan = MigrationPlan

  function Rank(p: Priority): nat {
    match p
    case High => 3
    case Medium => 2
    case Low => 1
    case Other(_) => 0
  }

  predicate Outranks(p: Plan, q: Plan) {
    Rank(p.priority) > Rank(q.priority)
  }

  /** The queue after a plan goes in before the first one it outranks. */
  function Enqueued(queue: seq<Plan>, plan: Plan): seq<Plan> {
    if queue == [] || Outranks(plan, queue[0]) then [plan] + queue
    else [queue[0]] + Enqueued(queue[1..], plan)
  }

  class MigrationScheduler {
    var priorityQueue: seq<Plan>
    var currentRunning: int
    const maxConcurrent: int

    constructor (maxConcurrent: int)
      ensures priorityQueue == [] && currentRunning == 0 && this.maxConcurrent == maxConcurrent
    {
      priorityQueue := [];
      currentRunning := 0;
      this.maxConcurrent := maxConcurrent;
    }

    function View(): Queued
      reads this
    {
      Queued(priorityQueue, currentRunning, maxConcurrent)
    }

    method AddPlan(plan: Plan)
      modifies this
      ensures View() == Step(old(View()), Add(plan)).0
    {
      for i := 0 to |priorityQueue|
        invariant priorityQueue == old(priorityQueue)
        invariant forall k | 0 <= k < i :: !Outranks(plan, priorityQueue[k])
      {
        if Outranks(plan, priorityQueue[i]) {
          EnqueuedAt(priorityQueue, plan, i);
          priorityQueue := priorityQueue[..i] + ([plan] + priorityQueue[i..]);
          return;
        }
      }
      EnqueuedAt(priorityQueue, plan, |priorityQueue|);
      priorityQueue := priorityQueue + [plan];
    }

    method GetNextPlan() returns (plan: Option)
      modifies this
      ensures (View(), plan) == Step(old(View()), Next)
      ensures plan == None <==> old(currentRunning) >= maxConcurrent || old(priorityQueue) == []
      ensures currentRunning == old(currentRunning) + if plan == None then 0 else 1
    {
      if currentRunning >= maxConcurrent || |priorityQueue| == 0 {
        return None;
      }
      plan := Some(priorityQueue[0]);
      priorityQueue := priorityQueue[1..];
      currentRunning := currentRunning + 1;
    }

    method MarkCompleted()
      modifies this
      ensures View() == Step(old(View()), Done).0
      ensures currentRunning == if old(currentRunning) > 0 then old(currentRunning) - 1 else old(currentRunning)
      ensures priorityQueue == old(priorityQueue)
    {
      if currentRunning > 0 {
        currentRunning := currentRunning - 1;
      }
    }
  }

  lemma {:induction false} EnqueuedAt(queue: seq<Plan>, plan: Plan, i: nat)
    requires i <= |queue| && (forall k | 0 <= k < i :: !Outranks(plan, queue[k]))
    requires i < |queue| ==> Outranks(plan, queue[i])
    ensures Enqueued(queue, plan) == queue[..i] + ([plan] + queue[i..])
  {
    if i == 0 {
      assert queue[..0] + ([plan] + queue[0..]) == [plan] + queue;
    } else {
      EnqueuedAt(queue[1..], plan, i - 1);
      assert queue[..i] + ([plan] + queue[i..]) == [queue[0]] + (queue[1..][..i - 1] + ([plan] + queue[1..][i - 1..]));
    }
  }

  datatype Option = None | Some(plan: Plan)
  datatype Call = Add(plan: Plan) | Next | Done

  /** The scheduler as the class keeps it. */
  datatype Queued = Queued(queue: seq<Plan>, running: int, max: int)

  function Step(s: Queued, c: Call): (Queued, Option) {
    match c
    case Add(plan) => (s.(queue := Enqueued(s.queue, plan)), None)
    case Next =>
      if s.running >= s.max || s.queue == [] then (s, None)
      else (s.(queue := s.queue[1..], running := s.running + 1), Some(s.queue[0]))
    case Done => (if s.running > 0 then s.(running := s.running - 1) else s, None)
  }

  /** The reference: waiting plans in the order they were added. */
  datatype Waiting = Waiting(plans: seq<Plan>, running: int, max: int)

  /** Position of the plan to run next: no plan waiting outranks it, and it outranks every plan added earlier. */
  predicate IsNext(plans: seq<Plan>, i: nat) {
    && i < |plans|
    && (forall k | 0 <= k < |plans| :: !Outranks(plans[k], plans[i]))
    && (forall k | 0 <= k < i :: Outranks(plans[i], plans[k]))
  }

  lemma {:induction false} NextExists(plans: seq<Plan>)
    requires plans != []
    ensures exists i: nat :: IsNext(plans, i)
  {
    var front, last := Front(plans), |plans| - 1;
    if front == [] {
      assert IsNext(plans, 0);
    } else {
      NextExists(front);
      var i: nat :| IsNext(front, i);
      if Outranks(plans[last], front[i]) {
        forall k | 0 <= k < last
          ensures Outranks(plans[last], plans[k])
        {
          assert !Outranks(front[k], front[i]);
        }
        assert IsNext(plans, last);
      } else {
        assert forall k | 0 <= k < last :: plans[k] == front[k];
        assert IsNext(plans, i);
      }
    }
  }

  ghost function Best(plans: seq<Plan>): (i: nat)
    requires plans != []
    ensures IsNext(plans, i)
  {
    NextExists(plans);
    var i: nat :| IsNext(plans, i);
    i
  }

  lemma BestIs(plans: seq<Plan>, i: nat)
    requires IsNext(plans, i)
    ensures Best(plans) == i
  {
    var b := Best(plans);
    assert !Outranks(plans[b], plans[i]) && !Outranks(plans[i], plans[b]);
  }

  function Taken(plans: seq<Plan>, i: nat): seq<Plan>
    requires i < |plans|
  {
    plans[..i] + plans[i + 1..]
  }

  ghost function Reference(w: Waiting, c: Call): (Waiting, Option) {
    match c
    case Add(plan) => (w.(plans := w.plans + [plan]), None)
    case Next =>
      if w.running >= w.max || w.plans == [] then (w, None)
      else (w.(plans := Taken(w.plans, Best(w.plans)), running := w.running + 1), Some(w.plans[Best(w.plans)]))
    case Done => (if w.running > 0 then w.(running := w.running - 1) else w, None)
  }

  /** The queue that adding the plans one after another gives. */
  function Arranged(plans: seq<Plan>): seq<Plan> {
    if plans == [] then [] else Enqueued(Arranged(Front(plans)), Last(plans))
  }

  lemma {:induction false} ArrangedContents(plans: seq<Plan>)
    ensures multiset(Arranged(plans)) == multiset(plans) && |Arranged(plans)| == |plans|
  {
    if plans != [] {
      ArrangedContents(Front(plans));
      EnqueuedContents(Arranged(Front(plans)), Last(plans));
      assert plans == Front(plans) + [Last(plans)];
    }
  }

  lemma {:induction false} EnqueuedContents(queue: seq<Plan>, plan: Plan)
    ensures multiset(Enqueued(queue, plan)) == multiset(queue) + multiset{plan}
    ensures |Enqueued(queue, plan)| == |queue| + 1
  {
    if queue != [] && !Outranks(plan, queue[0]) {
      EnqueuedContents(queue[1..], plan);
      assert queue == [queue[0]] + queue[1..];
    }
  }

  lemma LastIsNext(front: seq<Plan>, last: Plan, i: nat)
    requires IsNext(front, i) && Outranks(last, front[i])
    ensures Best(front + [last]) == |front| && Taken(front + [last], |front|) == front
    ensures forall k | 0 <= k < |front| :: Outranks(last, front[k])
  {
    forall k | 0 <= k < |front|
      ensures Outranks(last, front[k])
    {
      assert !Outranks(front[k], front[i]);
    }
    BestIs(front + [last], |front|);
  }

  lemma FrontIsNext(front: seq<Plan>, last: Plan, i: nat)
    requires IsNext(front, i) && !Outranks(last, front[i])
    ensures Best(front + [last]) == i && Taken(front + [last], i) == Taken(front, i) + [last]
  {
    assert forall k | 0 <= k < |front| :: (front + [last])[k] == front[k];
    BestIs(front + [last], i);
  }

  lemma ArrangedSnoc(front: seq<Plan>, last: Plan)
    ensures Arranged(front + [last]) == Enqueued(Arranged(front), last)
  {
    assert (front + [last])[..|front|] == front;
  }

  lemma EnqueuedBehind(queue: seq<Plan>, plan: Plan)
    requires queue != [] && !Outranks(plan, queue[0])
    ensures Enqueued(queue, plan)[0] == queue[0] && Enqueued(queue, plan)[1..] == Enqueued(queue[1..], plan)
  {
  }

  lemma EnqueuedFirst(queue: seq<Plan>, plan: Plan)
    requires queue == [] || Outranks(plan, queue[0])
    ensures Enqueued(queue, plan)[0] == plan && Enqueued(queue, plan)[1..] == queue
  {
  }

  ghost predicate HeadFits(plans: seq<Plan>)
    requires plans != []
  {
    var queue := Arranged(plans);
    queue != [] && queue[0] == plans[Best(plans)] && queue[1..] == Arranged(Taken(plans, Best(plans)))
  }

  lemma HeadFitsSnoc(front: seq<Plan>, last: Plan)
    requires front != [] && HeadFits(front)
    ensures HeadFits(front + [last])
  {
    var i := Best(front);
    ArrangedSnoc(front, last);
    if Outranks(last, front[i]) {
      LastIsNext(front, last, i);
      EnqueuedFirst(Arranged(front), last);
    } else {
      FrontIsNext(front, last, i);
      EnqueuedBehind(Arranged(front), last);
      ArrangedSnoc(Taken(front, i), last);
    }
  }

  /** The head of the arranged queue is the plan to run next, and its tail is what arranging the others gives. */
  lemma {:induction false} HeadIsNext(plans: seq<Plan>)
    requires plans != []
    ensures Arranged(plans) != []
    ensures Arranged(plans)[0] == plans[Best(plans)]
    ensures Arranged(plans)[1..] == Arranged(Taken(plans, Best(plans)))
  {
    var front, last := Front(plans), Last(plans);
    assert plans == front + [last];
    if front == [] {
      BestIs(plans, 0);
      ArrangedSnoc([], last);
      EnqueuedFirst([], last);
      assert Taken(plans, 0) == [];
    } else {
      HeadIsNext(front);
      HeadFitsSnoc(front, last);
    }
  }

  // ----- Runs -----

  function Run(s: Queued, calls: seq<Call>): Queued {
    if calls == [] then s else Step(Run(s, Front(calls)), Last(calls)).0
  }

  function Outputs(s: Queued, calls: seq<Call>): seq<Option> {
    if calls == [] then []
    else Outputs(s, Front(calls)) + [Step(Run(s, Front(calls)), Last(calls)).1]
  }

  ghost function ReferenceRun(w: Waiting, calls: seq<Call>): Waiting {
    if calls == [] then w else Reference(ReferenceRun(w, Front(calls)), Last(calls)).0
  }

  ghost function ReferenceOutputs(w: Waiting, calls: seq<Call>): seq<Option> {
    if calls == [] then []
    else ReferenceOutputs(w, Front(calls)) +
         [Reference(ReferenceRun(w, Front(calls)), Last(calls)).1]
  }

  predicate Refines(s: Queued, w: Waiting) {
    s == Queued(Arranged(w.plans), w.running, w.max)
  }

  lemma StepRefines(s: Queued, w: Waiting, c: Call)
    requires Refines(s, w)
    ensures Refines(Step(s, c).0, Reference(w, c).0)
    ensures Step(s, c).1 == Reference(w, c).1
  {
    match c {
      case Add(plan) =>
        assert (w.plans + [plan])[..|w.plans|] == w.plans;
      case Next =>
        if w.plans != [] {
          HeadIsNext(w.plans);
        }
      case Done =>
    }
  }

  /** Over every run the scheduler hands out exactly the plans that the reference hands out: each time the
      earliest-added of the highest-ranked plans still waiting. */
  lemma {:induction false} SchedulerRefinesReference(max: int, calls: seq<Call>)
    ensures Outputs(Queued([], 0, max), calls) == ReferenceOutputs(Waiting([], 0, max), calls)
    ensures Refines(Run(Queued([], 0, max), calls), ReferenceRun(Waiting([], 0, max), calls))
  {
    if calls != [] {
      var front := Front(calls);
      SchedulerRefinesReference(max, front);
      StepRefines(Run(Queued([], 0, max), front), ReferenceRun(Waiting([], 0, max), front), Last(calls));
    }
  }

  /** The priorities by name: nothing waiting goes before the plan handed out. */
  predicate GoesFirst(plans: seq<Plan>, i: nat)
    requires i < |plans|
  {
    match plans[i].priority
    case High => forall k | 0 <= k < i :: plans[k].priority != High
    case Medium =>
      && (forall k | 0 <= k < |plans| :: plans[k].priority != High)
      && (forall k | 0 <= k < i :: plans[k].priority != Medium)
    case Low =>
      && (forall k | 0 <= k < |plans| :: plans[k].priority !in {High, Medium})
      && (forall k | 0 <= k < i :: plans[k].priority != Low)
    case Other(_) => i == 0 && forall k | 0 <= k < |plans| :: plans[k].priority.Other?
  }

  lemma BestGoesFirst(plans: seq<Plan>)
    requires plans != []
    ensures GoesFirst(plans, Best(plans))
  {
    var i := Best(plans);
    forall k | 0 <= k < |plans|
      ensures Rank(plans[k].priority) <= Rank(plans[i].priority)
      ensures k < i ==> Rank(plans[k].priority) < Rank(plans[i].priority)
    {
      assert !Outranks(plans[k], plans[i]);
      assert k < i ==> Outranks(plans[i], plans[k]);
    }
    assert i > 0 ==> Rank(plans[0].priority) < Rank(plans[i].priority);
  }

  /** Over every run, by the names of the priorities: with capacity the next call hands out a High plan if one waits, else
      a Medium one, else a Low one, else any other, and of those it is the one added first. The plans waiting in the order
      they were added are those of the queue. */
  lemma HandsOutByPriority(max: int, calls: seq<Call>)
    ensures var s, plans := Run(Queued([], 0, max), calls), ReferenceRun(Waiting([], 0, max), calls).plans;
            && multiset(s.queue) == multiset(plans)
            && (s.running < s.max && plans != [] ==>
                exists i :: 0 <= i < |plans| && GoesFirst(plans, i) && Step(s, Next).1 == Some(plans[i]))
  {
    var s, w := Run(Queued([], 0, max), calls), ReferenceRun(Waiting([], 0, max), calls);
    SchedulerRefinesReference(max, calls);
    ArrangedContents(w.plans);
    if s.running < s.max && w.plans != [] {
      StepRefines(s, w, Next);
      BestGoesFirst(w.plans);
    }
  }

  function AddedBy(c: Call): multiset<Plan> {
    if c.Add? then multiset{c.plan} else multiset{}
  }

  function GivenBy(o: Option): multiset<Plan> {
    if o.Some? then multiset{o.plan} else multiset{}
  }

  function AddedPlans(calls: seq<Call>): multiset<Plan> {
    if calls == [] then multiset{} else AddedPlans(Front(calls)) + AddedBy(Last(calls))
  }

  function GivenOut(outputs: seq<Option>): multiset<Plan> {
    if outputs == [] then multiset{} else GivenOut(Front(outputs)) + GivenBy(Last(outputs))
  }

  lemma StepAccounts(s: Queued, c: Call)
    ensures multiset(s.queue) + AddedBy(c) == GivenBy(Step(s, c).1) + multiset(Step(s, c).0.queue)
  {
    match c {
      case Add(plan) => EnqueuedContents(s.queue, plan);
      case Next =>
        if s.queue != [] {
          assert s.queue == [s.queue[0]] + s.queue[1..];
        }
      case Done =>
    }
  }

  lemma GivenOutSnoc(outputs: seq<Option>, o: Option)
    ensures GivenOut(outputs + [o]) == GivenOut(outputs) + GivenBy(o)
  {
    assert (outputs + [o])[..|outputs|] == outputs;
  }

  lemma Regroup(added: multiset<Plan>, given: multiset<Plan>, queue: multiset<Plan>, more: multiset<Plan>,
                out: multiset<Plan>, rest: multiset<Plan>)
    requires added == given + queue && queue + more == out + rest
    ensures added + more == given + out + rest
  {
    assert added + more == given + (queue + more);
    assert given + (out + rest) == given + out + rest;
  }

  /** Plans added are the plans handed out and the plans still queued. */
  lemma {:induction false} NothingLost(max: int, calls: seq<Call>)
    ensures AddedPlans(calls) == GivenOut(Outputs(Queued([], 0, max), calls)) + multiset(Run(Queued([], 0, max), calls).queue)
  {
    if calls != [] {
      var s, front := Queued([], 0, max), Front(calls);
      var mid, c := Run(s, front), Last(calls);
      NothingLost(max, front);
      GivenOutSnoc(Outputs(s, front), Step(mid, c).1);
      StepAccounts(mid, c);
      Regroup(AddedPlans(front), GivenOut(Outputs(s, front)), multiset(mid.queue), AddedBy(c), GivenBy(Step(mid, c).1),
              multiset(Step(mid, c).0.queue));
    }
  }

  /** The number of running migrations stays within the limit. */
  lemma {:induction false} RunningBounded(max: int, calls: seq<Call>)
    ensures 0 <= Run(Queued([], 0, max), calls).running <= if max < 0 then 0 else max
    ensures Run(Queued([], 0, max), calls).max == max
  {
    if calls != [] {
      RunningBounded(max, Front(calls));
    }
  }
}
