/** What a migration does to the two shards, as a log of batch events and the state they lead to. */
module Migration {
  import opened Sequences
  import opened Shards

  datatype Side = Side(load: real, resources: seq<string>)
  datatype Pair = Pair(source: Side, target: Side)

  /** How one batch ended: refused for lack of capacity, broken off after some transfers, or committed. */
  datatype Fate = Refused | Broken(transferred: nat) | Committed
  datatype Event = Event(batch: seq<string>, fate: Fate)

  function Estimate(n: nat): real {
    n as real * 0.02
  }

  predicate Refuses(load: real, n: nat) {
    load + Estimate(n) > 0.9
  }

  function Drained(load: real, n: nat): real {
    if load - Estimate(n) < 0.0 then 0.0 else load - Estimate(n)
  }

  function DropAll(list: seq<string>, ids: seq<string>): seq<string> {
    if ids == [] then list else Dropped(DropAll(list, Front(ids)), Last(ids))
  }

  function AppendAll(list: seq<string>, ids: seq<string>): seq<string> {
    if ids == [] then list else Appended(AppendAll(list, Front(ids)), Last(ids))
  }

  /** The effect of one batch; EventInPlainTerms says it in numbers. A broken batch gives back only what was
      transferred. */
  function Apply(p: Pair, e: Event): Pair {
    match e.fate
    case Refused => p
    case Broken(k) => p.(target := p.target.(load := p.target.load + Estimate(|e.batch|) - Estimate(k)))
    case Committed =>
      Pair(Side(Drained(p.source.load, |e.batch|), DropAll(p.source.resources, e.batch)),
           Side(p.target.load + Estimate(|e.batch|), AppendAll(p.target.resources, e.batch)))
  }

  predicate Possible(p: Pair, e: Event) {
    match e.fate
    case Refused => Refuses(p.target.load, |e.batch|)
    case Broken(k) => !Refuses(p.target.load, |e.batch|) && k < |e.batch|
    case Committed => !Refuses(p.target.load, |e.batch|)
  }

  /** One batch in numbers. Refused above 0.9, it changes nothing; broken off after k transfers, it leaves 0.02 on the
      target for each resource not transferred and moves none; committed, it moves them all, and 0.02 of load each. */
  lemma EventInPlainTerms(p: Pair, e: Event)
    requires Possible(p, e)
    ensures var q, n := Apply(p, e), |e.batch|;
            && (e.fate == Refused <==> p.target.load + n as real * 0.02 > 0.9)
            && (e.fate == Refused ==> q == p)
            && (e.fate.Broken? ==> e.fate.transferred < n && q.source == p.source &&
                                   q.target == Side(p.target.load + (n - e.fate.transferred) as real * 0.02,
                                                    p.target.resources))
            && (e.fate == Committed ==>
                && q.target.load == p.target.load + n as real * 0.02
                && q.source.load == (if p.source.load >= n as real * 0.02 then p.source.load - n as real * 0.02 else 0.0)
                && (forall r :: r in q.target.resources <==> r in p.target.resources || r in e.batch)
                && p.target.resources <= q.target.resources)
  {
    AppendAllGrows(p.target.resources, e.batch);
  }

  lemma {:induction false} AppendAllGrows(list: seq<string>, ids: seq<string>)
    ensures list <= AppendAll(list, ids) && forall r :: r in AppendAll(list, ids) <==> r in list || r in ids
  {
    if ids != [] {
      AppendAllGrows(list, Front(ids));
      assert ids == Front(ids) + [Last(ids)];
    }
  }

  function Replay(p: Pair, log: seq<Event>): Pair {
    if log == [] then p else Apply(Replay(p, Front(log)), Last(log))
  }

  /** Every event is one that can happen in the state it meets. */
  predicate Legal(p: Pair, log: seq<Event>) {
    log == [] || (Legal(p, Front(log)) && Possible(Replay(p, Front(log)), Last(log)))
  }

  /** Resources committed so far, one batch after another. */
  function Ids(log: seq<Event>): seq<string> {
    if log == [] then [] else Ids(Front(log)) + if Last(log).fate == Committed then Last(log).batch else []
  }

  /** Resources charged to the target so far. */
  function Charged(log: seq<Event>): nat {
    if log == [] then
      0
    else
      Charged(Front(log)) +
      match Last(log).fate
      case Refused => 0
      case Broken(k) => if k <= |Last(log).batch| then |Last(log).batch| - k else 0
      case Committed => |Last(log).batch|
  }

  // ----- One attempt -----

  function BatchSize(total: nat): nat {
    if total <= 10 then total else if total <= 100 then 10 else 20
  }

  /** The batch of the plan that starts at position off. */
  function Batch(plan: seq<string>, off: nat): seq<string>
    requires off < |plan|
  {
    plan[off..if off + BatchSize(|plan|) > |plan| then |plan| else off + BatchSize(|plan|)]
  }

  predicate AllCommitted(log: seq<Event>) {
    forall e | e in log :: e.fate == Committed
  }

  /** The log of one attempt up to some point: consecutive batches from the start of the plan, of which only the
      last may have failed. */
  predicate Attempt(plan: seq<string>, log: seq<Event>) {
    log == [] ||
    (Attempt(plan, Front(log)) && AllCommitted(Front(log)) && |Ids(Front(log))| < |plan| &&
     Last(log).batch == Batch(plan, |Ids(Front(log))|))
  }

  predicate Complete(plan: seq<string>, log: seq<Event>) {
    Attempt(plan, log) && AllCommitted(log) && |Ids(log)| == |plan|
  }

  lemma BatchFollows(plan: seq<string>, off: nat)
    requires off < |plan|
    ensures off + |Batch(plan, off)| <= |plan|
    ensures plan[..off] + Batch(plan, off) == plan[..off + |Batch(plan, off)|]
  {
  }

  /** The batches tile the plan: what an attempt has committed is a prefix of it. */
  lemma {:induction false} CommittedIsPrefix(plan: seq<string>, log: seq<Event>)
    requires Attempt(plan, log)
    ensures |Ids(log)| <= |plan| && Ids(log) == plan[..|Ids(log)|]
  {
    if log != [] {
      CommittedIsPrefix(plan, Front(log));
      BatchFollows(plan, |Ids(Front(log))|);
    }
  }

  /** How many batches a plan of this size takes: one up to 10 resources, tens up to 100, twenties beyond. */
  function BatchCount(total: nat): nat {
    if total == 0 then 0 else if total <= 10 then 1 else if total <= 100 then (total + 9) / 10 else (total + 19) / 20
  }

  lemma {:induction false} CommittedSize(plan: seq<string>, log: seq<Event>)
    requires Attempt(plan, log) && AllCommitted(log)
    ensures |Ids(log)| == if |log| * BatchSize(|plan|) <= |plan| then |log| * BatchSize(|plan|) else |plan|
  {
    if log != [] {
      CommittedSize(plan, Front(log));
      assert Last(log) in log;
      OneMore(|log| - 1, BatchSize(|plan|));
    }
  }

  lemma CountOfBatches(total: nat, k: nat)
    ensures k * BatchSize(total) < total <==> k < BatchCount(total)
  {
    if total <= 10 {
      assert k > 0 ==> k * total >= total;
    }
  }

  lemma {:induction false} BatchesAreSmall(plan: seq<string>, log: seq<Event>)
    requires Attempt(plan, log)
    ensures forall e | e in log :: 0 < |e.batch| <= 20
  {
    if log != [] {
      BatchesAreSmall(plan, Front(log));
      assert log == Front(log) + [Last(log)];
    }
  }

  /** The batch size decides how an attempt ends: it has at most the number of batches that the plan takes, none of
      them empty or larger than 20, and an attempt without a failure is complete exactly when it has all of them. */
  lemma BatchesOfAttempt(plan: seq<string>, log: seq<Event>)
    requires Attempt(plan, log)
    ensures |log| <= if |plan| == 0 then 0 else if |plan| <= 10 then 1
                     else if |plan| <= 100 then (|plan| + 9) / 10 else (|plan| + 19) / 20
    ensures forall e | e in log :: 0 < |e.batch| <= 20
    ensures AllCommitted(log) ==>
              (Complete(plan, log) <==> |log| == if |plan| == 0 then 0 else if |plan| <= 10 then 1
                                                 else if |plan| <= 100 then (|plan| + 9) / 10 else (|plan| + 19) / 20)
  {
    BatchesAreSmall(plan, log);
    if log != [] {
      CommittedSize(plan, Front(log));
      CountOfBatches(|plan|, |log| - 1);
    }
    CountOfBatches(|plan|, |log|);
    if AllCommitted(log) {
      CommittedSize(plan, log);
    }
  }

  // ----- Whole runs -----

  /** All attempts one after the other. */
  function Flatten(runs: seq<seq<Event>>): seq<Event> {
    if runs == [] then [] else Flatten(Front(runs)) + Last(runs)
  }

  /** The state after some attempts. */
  function StateAfter(p: Pair, runs: seq<seq<Event>>): Pair {
    if runs == [] then p else Replay(StateAfter(p, Front(runs)), Last(runs))
  }

  /** Every attempt is legal in the state it finds. */
  predicate LegalRuns(p: Pair, runs: seq<seq<Event>>) {
    runs == [] ||
    (LegalRuns(p, Front(runs)) && Legal(StateAfter(p, Front(runs)), Last(runs)))
  }

  /** Resources counted as migrated over some attempts: a batch counts once for each attempt that commits it. */
  function CommittedIn(runs: seq<seq<Event>>): nat {
    if runs == [] then 0 else CommittedIn(Front(runs)) + |Ids(Last(runs))|
  }

  lemma RunsSnoc(p: Pair, runs: seq<seq<Event>>, log: seq<Event>)
    ensures StateAfter(p, runs + [log]) == Replay(StateAfter(p, runs), log)
    ensures LegalRuns(p, runs + [log]) <==> LegalRuns(p, runs) && Legal(StateAfter(p, runs), log)
    ensures CommittedIn(runs + [log]) == CommittedIn(runs) + |Ids(log)|
  {
    assert (runs + [log])[..|runs|] == runs;
  }

  lemma {:induction false} ReplayConcat(p: Pair, a: seq<Event>, b: seq<Event>)
    ensures Replay(p, a + b) == Replay(Replay(p, a), b)
    ensures Legal(p, a + b) <==> Legal(p, a) && Legal(Replay(p, a), b)
  {
    if b == [] {
      assert a + b == a;
    } else {
      ReplayConcat(p, a, Front(b));
      assert Front(a + b) == a + Front(b);
    }
  }

  /** A run of attempts is one long log. */
  lemma {:induction false} RunsAreOneLog(p: Pair, runs: seq<seq<Event>>)
    ensures StateAfter(p, runs) == Replay(p, Flatten(runs))
    ensures LegalRuns(p, runs) <==> Legal(p, Flatten(runs))
    ensures CommittedIn(runs) == |Ids(Flatten(runs))|
  {
    if runs != [] {
      var front, last := Front(runs), Last(runs);
      RunsAreOneLog(p, front);
      ReplayConcat(p, Flatten(front), last);
      IdsConcat(Flatten(front), last);
    }
  }

  predicate Attempts(plan: seq<string>, runs: seq<seq<Event>>) {
    forall i | 0 <= i < |runs| :: Attempt(plan, runs[i])
  }

  /** How much of the plan some attempt has committed. */
  function Frontier(runs: seq<seq<Event>>): nat {
    if runs == [] then
      0
    else
      var k, j := Frontier(Front(runs)), |Ids(Last(runs))|;
      if k < j then j else k
  }

  // ----- Resources -----

  lemma {:induction false} DroppedAbsent(list: seq<string>, r: string)
    requires r !in list
    ensures Dropped(list, r) == list
  {
    if list != [] {
      DroppedAbsent(list[1..], r);
    }
  }

  lemma {:induction false} RestAgree(list: seq<string>, a: seq<string>, b: seq<string>)
    requires forall r | r in list :: r in a <==> r in b
    ensures Rest(list, a) == Rest(list, b)
  {
    if list != [] {
      RestAgree(list[1..], a, b);
    }
  }

  lemma {:induction false} DropFromRest(list: seq<string>, ids: seq<string>, r: string)
    requires NoDuplicates(list)
    ensures Dropped(Rest(list, ids), r) == Rest(list, ids + [r])
  {
    if list != [] {
      var tail := list[1..];
      DropFromRest(tail, ids, r);
      if list[0] !in ids && list[0] == r {
        assert r !in tail;
        RestAgree(tail, ids, ids + [r]);
      }
    }
  }

  lemma {:induction false} DropAllIsRest(list: seq<string>, done: seq<string>, ids: seq<string>)
    requires NoDuplicates(list)
    ensures DropAll(Rest(list, done), ids) == Rest(list, done + ids)
  {
    if ids == [] {
      assert done + ids == done;
    } else {
      var front, r := Front(ids), Last(ids);
      DropAllIsRest(list, done, front);
      DropFromRest(list, done + front, r);
      assert done + ids == done + front + [r];
    }
  }

  lemma {:induction false} AppendAllConcat(list: seq<string>, a: seq<string>, b: seq<string>)
    ensures AppendAll(AppendAll(list, a), b) == AppendAll(list, a + b)
  {
    if b == [] {
      assert a + b == a;
    } else {
      AppendAllConcat(list, a, Front(b));
      assert Front(a + b) == a + Front(b);
    }
  }

  lemma {:induction false} AppendAllElements(list: seq<string>, ids: seq<string>)
    requires NoDuplicates(list)
    ensures NoDuplicates(AppendAll(list, ids))
    ensures forall r :: r in AppendAll(list, ids) <==> r in list || r in ids
  {
    if ids != [] {
      AppendAllElements(list, Front(ids));
      assert ids == Front(ids) + [Last(ids)];
    }
  }

  /** After any log the lists depend only on the resources committed, in order. */
  lemma {:induction false} ReplayResources(p: Pair, log: seq<Event>)
    requires NoDuplicates(p.source.resources)
    ensures Replay(p, log).source.resources == Rest(p.source.resources, Ids(log))
    ensures Replay(p, log).target.resources == AppendAll(p.target.resources, Ids(log))
  {
    if log == [] {
      RestOfNone(p.source.resources, []);
    } else {
      ReplayResources(p, Front(log));
      if Last(log).fate == Committed {
        DropAllIsRest(p.source.resources, Ids(Front(log)), Last(log).batch);
        AppendAllConcat(p.target.resources, Ids(Front(log)), Last(log).batch);
      } else {
        assert Ids(log) == Ids(Front(log));
      }
    }
  }

  function Combined(p: Pair): multiset<string> {
    multiset(p.source.resources) + multiset(p.target.resources)
  }

  lemma CountOf(s: seq<string>, r: string)
    requires NoDuplicates(s)
    ensures multiset(s)[r] == if r in s then 1 else 0
  {
    if r in s {
      var i :| 0 <= i < |s| && s[i] == r;
      assert s == s[..i] + [r] + s[i + 1..];
      assert r !in s[..i] && r !in s[i + 1..];
    } else {
      assert r !in multiset(s);
    }
  }

  lemma CombinedCount(p: Pair, log: seq<Event>, r: string)
    requires NoDuplicates(p.source.resources) && NoDuplicates(p.target.resources)
    requires Apart(p.source.resources, p.target.resources)
    ensures Combined(Replay(p, log))[r] ==
            if r in p.source.resources || r in p.target.resources || r in Ids(log) then 1 else 0
    ensures Combined(p)[r] == if r in p.source.resources || r in p.target.resources then 1 else 0
  {
    var q := Replay(p, log);
    ReplayResources(p, log);
    RestElements(p.source.resources, Ids(log));
    AppendAllElements(p.target.resources, Ids(log));
    CountOf(p.source.resources, r);
    CountOf(p.target.resources, r);
    CountOf(q.source.resources, r);
    CountOf(q.target.resources, r);
  }

  /** Exact conservation law, for any plan and at any point of any run: the combined resources are unchanged if
      and only if every committed resource was held by one of the two shards. */
  lemma Conservation(p: Pair, log: seq<Event>)
    requires NoDuplicates(p.source.resources) && NoDuplicates(p.target.resources)
    requires Apart(p.source.resources, p.target.resources)
    ensures Combined(Replay(p, log)) == Combined(p) <==>
            forall r | r in Ids(log) :: r in p.source.resources || r in p.target.resources
  {
    forall r: string
      ensures Combined(Replay(p, log))[r] == Combined(p)[r] <==>
              (r in Ids(log) ==> r in p.source.resources || r in p.target.resources)
    {
      CombinedCount(p, log, r);
    }
    if r :| r in Ids(log) && r !in p.source.resources && r !in p.target.resources {
      assert Combined(Replay(p, log))[r] != Combined(p)[r];
    } else {
      assert Combined(Replay(p, log)) == Combined(p);
    }
  }

  lemma AppendNext(list: seq<string>, plan: seq<string>, k: nat, j: nat)
    requires k <= |plan| && j < |plan| && NoDuplicates(plan) && Apart(plan, list)
    ensures Appended(list + plan[..if k < j then j else k], plan[j]) == list + plan[..if k < j + 1 then j + 1 else k]
  {
    var m := if k < j then j else k;
    assert plan[j] in plan && plan[j] !in list;
    if j < k {
      assert plan[..m][j] == plan[j];
    } else {
      assert plan[j] !in plan[..j];
      assert list + plan[..j] + [plan[j]] == list + plan[..j + 1];
    }
  }

  lemma AppendAllSnoc(list: seq<string>, ids: seq<string>, r: string)
    ensures AppendAll(list, ids + [r]) == Appended(AppendAll(list, ids), r)
  {
    assert (ids + [r])[..|ids|] == ids;
  }

  lemma {:induction false} AppendPrefix(list: seq<string>, plan: seq<string>, k: nat, j: nat)
    requires k <= |plan| && j <= |plan| && NoDuplicates(plan) && Apart(plan, list)
    ensures AppendAll(list + plan[..k], plan[..j]) == list + plan[..if k < j then j else k]
  {
    if j > 0 {
      AppendPrefix(list, plan, k, j - 1);
      AppendNext(list, plan, k, j - 1);
      AppendAllSnoc(list + plan[..k], plan[..j - 1], plan[j - 1]);
      assert plan[..j] == plan[..j - 1] + [plan[j - 1]];
    }
  }

  lemma {:induction false} IdsConcat(a: seq<Event>, b: seq<Event>)
    ensures Ids(a + b) == Ids(a) + Ids(b)
  {
    if b == [] {
      assert a + b == a;
    } else {
      IdsConcat(a, Front(b));
      assert Front(a + b) == a + Front(b);
    }
  }

  lemma {:induction false} RunsAppend(list: seq<string>, plan: seq<string>, runs: seq<seq<Event>>)
    requires Attempts(plan, runs) && NoDuplicates(plan) && Apart(plan, list)
    ensures Frontier(runs) <= |plan|
    ensures AppendAll(list, Ids(Flatten(runs))) == list + plan[..Frontier(runs)]
    ensures forall r :: r in Ids(Flatten(runs)) <==> r in plan[..Frontier(runs)]
  {
    if runs == [] {
      assert list + plan[..0] == list;
    } else {
      var front, last := Front(runs), Last(runs);
      RunsAppend(list, plan, front);
      CommittedIsPrefix(plan, last);
      IdsConcat(Flatten(front), last);
      AppendAllConcat(list, Ids(Flatten(front)), Ids(last));
      AppendPrefix(list, plan, Frontier(front), |Ids(last)|);
      PrefixUnion(plan, Frontier(front), |Ids(last)|);
    }
  }

  lemma PrefixUnion(plan: seq<string>, k: nat, j: nat)
    requires k <= |plan| && j <= |plan|
    ensures forall r :: r in plan[..if k < j then j else k] <==> r in plan[..k] || r in plan[..j]
  {
    assert k < j ==> plan[..j] == plan[..k] + plan[k..j];
    assert j <= k ==> plan[..k] == plan[..j] + plan[j..k];
  }

  /** At every batch boundary of every run, through failed attempts and restarts: the target holds its old list
      followed by a prefix of the plan, the source its old list without that prefix, and nothing is lost or made. */
  lemma RunMovesPrefix(p: Pair, plan: seq<string>, runs: seq<seq<Event>>)
    requires NoDuplicates(p.source.resources) && NoDuplicates(p.target.resources) && NoDuplicates(plan)
    requires Apart(p.source.resources, p.target.resources)
    requires forall r | r in plan :: r in p.source.resources
    requires Attempts(plan, runs)
    ensures Frontier(runs) <= |plan|
    ensures var q := Replay(p, Flatten(runs)); var moved := plan[..Frontier(runs)];
            && q.target.resources == p.target.resources + moved
            && q.source.resources == Rest(p.source.resources, moved)
            && Combined(q) == Combined(p)
  {
    var log := Flatten(runs);
    RunsAppend(p.target.resources, plan, runs);
    ReplayResources(p, log);
    RestAgree(p.source.resources, Ids(log), plan[..Frontier(runs)]);
    assert forall r | r in plan[..Frontier(runs)] :: r in plan;
    Conservation(p, log);
  }

  /** A run whose last attempt completed has moved the whole plan. */
  lemma SuccessMovesPlan(p: Pair, plan: seq<string>, runs: seq<seq<Event>>)
    requires NoDuplicates(p.source.resources) && NoDuplicates(p.target.resources) && NoDuplicates(plan)
    requires Apart(p.source.resources, p.target.resources)
    requires forall r | r in plan :: r in p.source.resources
    requires Attempts(plan, runs) && runs != [] && Complete(plan, Last(runs))
    ensures Replay(p, Flatten(runs)).target.resources == p.target.resources + plan
    ensures Replay(p, Flatten(runs)).source.resources == Rest(p.source.resources, plan)
  {
    RunMovesPrefix(p, plan, runs);
    assert plan[..|plan|] == plan;
  }

  // ----- Loads -----

  lemma EstimateAdds(a: int, b: int)
    requires 0 <= a && 0 <= b
    ensures Estimate(a + b) == Estimate(a) + Estimate(b)
    ensures a <= b ==> Estimate(a) <= Estimate(b)
  {
  }

  /** The exact ledger: the target carries its old load plus the charge of every event, and admission keeps it
      under the limit; the source is drained by every committed batch, repeated ones included, down to zero. */
  lemma {:induction false} Ledger(p: Pair, log: seq<Event>)
    requires Legal(p, log)
    ensures var q := Replay(p, log);
            && q.target.load == p.target.load + Charged(log) as real * 0.02
            && (q.target.load <= p.target.load || q.target.load <= 0.9)
  {
    if log != [] {
      var before, e := Replay(p, Front(log)), Last(log);
      Ledger(p, Front(log));
      match e.fate {
        case Refused =>
        case Broken(k) =>
          EstimateAdds(|e.batch| - k, k);
          EstimateAdds(Charged(Front(log)), |e.batch| - k);
        case Committed =>
          EstimateAdds(Charged(Front(log)), |e.batch|);
      }
    }
  }

  lemma {:induction false} SourceLedger(p: Pair, log: seq<Event>)
    requires p.source.load >= 0.0
    ensures Replay(p, log).source.load ==
            if p.source.load >= |Ids(log)| as real * 0.02 then p.source.load - |Ids(log)| as real * 0.02 else 0.0
    ensures 0.0 <= Replay(p, log).source.load <= p.source.load
  {
    if log != [] {
      SourceLedger(p, Front(log));
      EstimateAdds(|Ids(Front(log))|, if Last(log).fate == Committed then |Last(log).batch| else 0);
    }
  }

  /** The charge splits into what was committed and what broken batches never gave back. */
  function Leaked(log: seq<Event>): nat {
    if log == [] then
      0
    else
      Leaked(Front(log)) +
      match Last(log).fate
      case Broken(k) => if k <= |Last(log).batch| then |Last(log).batch| - k else 0
      case _ => 0
  }

  lemma {:induction false} ChargeIsCommittedPlusLeaked(log: seq<Event>)
    ensures Charged(log) == |Ids(log)| + Leaked(log)
  {
    if log != [] {
      ChargeIsCommittedPlusLeaked(Front(log));
    }
  }

  lemma {:induction false} CommittedBound(plan: seq<string>, runs: seq<seq<Event>>)
    requires Attempts(plan, runs)
    ensures CommittedIn(runs) <= |runs| * |plan|
  {
    if runs != [] {
      var front, last := Front(runs), Last(runs);
      CommittedBound(plan, front);
      CommittedIsPrefix(plan, last);
      OneMore(|front|, |plan|);
    }
  }

  // ----- Admission -----

  predicate CanAccept(load: real, n: nat) {
    load + Estimate(n) < 0.8
  }

  lemma {:induction false} NoneBroken(log: seq<Event>)
    requires AllCommitted(log)
    ensures Charged(log) == |Ids(log)|
  {
    if log != [] {
      assert log == Front(log) + [Last(log)];
      assert Last(log) in log && forall e | e in Front(log) :: e in log;
      NoneBroken(Front(log));
    }
  }

  lemma NotRefused(load: real, done: nat, batch: nat, total: nat)
    requires CanAccept(load, total) && done + batch <= total
    ensures !Refuses(load + Estimate(done), batch)
  {
    EstimateAdds(done, batch);
    EstimateAdds(done + batch, total - (done + batch));
  }

  /** A plan admitted as a whole has no batch of its first attempt refused. */
  lemma {:induction false} AdmissionImpliesCapacity(p: Pair, plan: seq<string>, log: seq<Event>)
    requires p.target.load + |plan| as real * 0.02 < 0.8 && Attempt(plan, log) && Legal(p, log)
    ensures forall e | e in log :: e.fate != Refused
  {
    if log != [] {
      var n := |Ids(Front(log))|;
      CommittedIsPrefix(plan, Front(log));
      NoneBroken(Front(log));
      Ledger(p, Front(log));
      BatchFollows(plan, n);
      NotRefused(p.target.load, n, |Last(log).batch|, |plan|);
      assert log == Front(log) + [Last(log)];
      AdmissionImpliesCapacity(p, plan, Front(log));
    }
  }

  // ----- Rolling back -----

  function Swapped(p: Pair): Pair {
    Pair(p.target, p.source)
  }

  lemma MembersOnce(list: seq<string>, plan: seq<string>)
    requires NoDuplicates(list) && NoDuplicates(plan) && forall r | r in plan :: r in list
    ensures multiset(Rest(list, plan) + plan) == multiset(list)
  {
    RestElements(list, plan);
    forall r: string
      ensures multiset(Rest(list, plan) + plan)[r] == multiset(list)[r]
    {
      CountOf(Rest(list, plan), r);
      CountOf(plan, r);
      CountOf(list, r);
    }
  }

  lemma {:induction false} RestOfSelf(s: seq<string>, ids: seq<string>)
    requires forall r | r in s :: r in ids
    ensures Rest(s, ids) == []
  {
    if s != [] {
      RestOfSelf(s[1..], ids);
    }
  }

  lemma FullRun(p: Pair, plan: seq<string>, log: seq<Event>)
    requires Complete(plan, log)
    requires NoDuplicates(p.source.resources)
    ensures Ids(log) == plan
    ensures Replay(p, log).source.resources == Rest(p.source.resources, plan)
    ensures Replay(p, log).target.resources == AppendAll(p.target.resources, plan)
  {
    CommittedIsPrefix(plan, log);
    ReplayResources(p, log);
  }

  lemma FreshAppend(list: seq<string>, plan: seq<string>)
    requires NoDuplicates(plan) && Apart(plan, list)
    ensures AppendAll(list, plan) == list + plan
  {
    AppendPrefix(list, plan, 0, |plan|);
    assert list + plan[..0] == list && plan[..|plan|] == plan;
  }

  /** A plan completed on its first attempt and then its reverse plan completed on its first attempt: the target
      gets back its list, the source the same resources with the plan at the end. The target load is restored, and
      the source load exactly when the source carried at least the estimate of the plan. */
  lemma RollbackRoundTrip(p: Pair, plan: seq<string>, there: seq<Event>, back: seq<Event>)
    requires NoDuplicates(p.source.resources) && NoDuplicates(p.target.resources) && NoDuplicates(plan)
    requires Apart(p.source.resources, p.target.resources)
    requires forall r | r in plan :: r in p.source.resources
    requires p.source.load >= 0.0 && p.target.load >= 0.0
    requires Complete(plan, there) && Legal(p, there)
    requires Complete(plan, back) && Legal(Swapped(Replay(p, there)), back)
    ensures var q := Swapped(Replay(Swapped(Replay(p, there)), back));
            && q.target == p.target
            && q.source.resources == Rest(p.source.resources, plan) + plan
            && multiset(q.source.resources) == multiset(p.source.resources)
            && (q.source.load == p.source.load <==> p.source.load >= Estimate(|plan|))
  {
    var mid := Swapped(Replay(p, there));
    assert Apart(plan, p.target.resources);
    FullRun(p, plan, there);
    FreshAppend(p.target.resources, plan);
    AppendAllElements(p.target.resources, plan);
    FullRun(mid, plan, back);
    RestElements(p.source.resources, plan);
    FreshAppend(Rest(p.source.resources, plan), plan);
    RestConcat(p.target.resources, plan, plan);
    RestOfNone(p.target.resources, plan);
    RestOfSelf(plan, plan);
    MembersOnce(p.source.resources, plan);
    RollbackLoads(p, plan, there, back);
  }

  lemma RollbackLoads(p: Pair, plan: seq<string>, there: seq<Event>, back: seq<Event>)
    requires p.source.load >= 0.0 && p.target.load >= 0.0
    requires Complete(plan, there) && Legal(p, there)
    requires Complete(plan, back) && Legal(Swapped(Replay(p, there)), back)
    ensures var q := Swapped(Replay(Swapped(Replay(p, there)), back));
            && q.target.load == p.target.load
            && (q.source.load == p.source.load <==> p.source.load >= Estimate(|plan|))
  {
    var mid := Swapped(Replay(p, there));
    NoneBroken(there);
    NoneBroken(back);
    Ledger(p, there);
    SourceLedger(p, there);
    Ledger(mid, back);
    SourceLedger(mid, back);
  }
}
