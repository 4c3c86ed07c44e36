/** Incremental maintenance of the ring against building it from nothing. */
module Rebuild {
  import opened HashRing
  import opened FailoverOrder
  import opened Sequences
  import opened RingLayout

  lemma AddedCount(r: Ring, node: string, pts: seq<Hash>, p: Hash)
    ensures multiset(Added(r, node, pts).points)[p] == multiset(r.points)[p] + multiset(pts)[p]
  {
  }

  lemma AddKeepsOwner(l: Layout, nodes: set<string>, r: Ring, n: string, m: string)
    requires Canonical(l, nodes, r) && n !in nodes && NoSharedHash(l, nodes + {n}) && m in nodes
    ensures Owns(Added(r, n, l.Points(n)), m, l.Points(m))
  {
    var s := Added(r, n, l.Points(n));
    AddedPoints(r, n, l.Points(n));
    forall p: Hash
      ensures p in l.Points(m) ==> p in s.nodes && s.nodes[p] == m && multiset(s.points)[p] == multiset(l.Points(m))[p]
      ensures p in s.points && NodeAt(s, p) == m ==> p in l.Points(m)
    {
      CanonicalPoint(l, nodes, r, m, p);
      AddedCount(r, n, l.Points(n), p);
      AddedNodeAt(r, n, l.Points(n), p);
      if p in l.Points(m) {
        assert p in PointSet(l.Points(m));
        assert p !in PointSet(l.Points(n));
      }
    }
  }

  lemma FreshPoints(l: Layout, nodes: set<string>, r: Ring, n: string, p: Hash)
    requires Canonical(l, nodes, r) && n !in nodes && NoSharedHash(l, nodes + {n})
    ensures !(p in r.points && p in l.Points(n))
  {
    if p in r.points {
      assert p in PointSet(l.Points(NodeAt(r, p)));
      assert p !in PointSet(l.Points(n));
    }
  }

  lemma AddedOwnPoint(l: Layout, nodes: set<string>, r: Ring, n: string, p: Hash)
    requires Canonical(l, nodes, r) && n !in nodes && NoSharedHash(l, nodes + {n}) && p in l.Points(n)
    ensures p in Added(r, n, l.Points(n)).nodes && NodeAt(Added(r, n, l.Points(n)), p) == n
    ensures multiset(Added(r, n, l.Points(n)).points)[p] == multiset(l.Points(n))[p]
  {
    AddedCount(r, n, l.Points(n), p);
    FreshPoints(l, nodes, r, n, p);
    assert p !in multiset(r.points);
  }

  lemma AddOwnsNew(l: Layout, nodes: set<string>, r: Ring, n: string)
    requires Canonical(l, nodes, r) && n !in nodes && NoSharedHash(l, nodes + {n})
    ensures Owns(Added(r, n, l.Points(n)), n, l.Points(n))
  {
    var s := Added(r, n, l.Points(n));
    forall p | p in l.Points(n)
      ensures p in s.nodes && s.nodes[p] == n && multiset(s.points)[p] == multiset(l.Points(n))[p]
    {
      AddedOwnPoint(l, nodes, r, n, p);
    }
    AddedPoints(r, n, l.Points(n));
    forall p | p in s.points && NodeAt(s, p) == n
      ensures p in l.Points(n)
    {
      AddedNodeAt(r, n, l.Points(n), p);
    }
  }

  lemma AddKeepsPoint(l: Layout, nodes: set<string>, r: Ring, n: string, p: Hash)
    requires Canonical(l, nodes, r) && p in Added(r, n, l.Points(n)).points
    ensures var who := NodeAt(Added(r, n, l.Points(n)), p); who in nodes + {n} && p in l.Points(who)
  {
    AddedPoints(r, n, l.Points(n));
    AddedNodeAt(r, n, l.Points(n), p);
  }

  lemma AddKeepsCanonical(l: Layout, nodes: set<string>, r: Ring, n: string)
    requires Canonical(l, nodes, r) && n !in nodes && NoSharedHash(l, nodes + {n})
    ensures Canonical(l, nodes + {n}, Added(r, n, l.Points(n)))
  {
    var s := Added(r, n, l.Points(n));
    AddKeepsConsistent(r, n, l.Points(n));
    AddOwnsNew(l, nodes, r, n);
    forall m | m in nodes
      ensures Owns(s, m, l.Points(m))
    {
      AddKeepsOwner(l, nodes, r, n, m);
    }
    forall p | p in s.points
      ensures NodeAt(s, p) in nodes + {n} && p in l.Points(NodeAt(s, p))
    {
      AddKeepsPoint(l, nodes, r, n, p);
    }
  }

  lemma RemovedPoint(l: Layout, nodes: set<string>, r: Ring, n: string, p: Hash)
    requires Canonical(l, nodes, r) && n in nodes
    ensures p in Removed(r, l.Points(n)).points <==> p in r.points && NodeAt(r, p) != n
    ensures p !in l.Points(n) ==> multiset(Removed(r, l.Points(n)).points)[p] == multiset(r.points)[p]
    ensures p !in l.Points(n) ==> NodeAt(Removed(r, l.Points(n)), p) == NodeAt(r, p)
    ensures p !in l.Points(n) ==> (p in Removed(r, l.Points(n)).nodes <==> p in r.nodes)
  {
    assert Owns(r, n, l.Points(n));
    OwnedPointsLeave(r, n, l.Points(n));
    OwnedCount(r, n, l.Points(n), p);
    CanonicalPoint(l, nodes, r, n, p);
  }

  lemma RemoveKeepsOwner(l: Layout, nodes: set<string>, r: Ring, n: string, m: string)
    requires Canonical(l, nodes, r) && n in nodes && m in nodes && m != n
    ensures Owns(Removed(r, l.Points(n)), m, l.Points(m))
  {
    var s := Removed(r, l.Points(n));
    forall p: Hash
      ensures p in l.Points(m) ==> p in s.nodes && s.nodes[p] == m && multiset(s.points)[p] == multiset(l.Points(m))[p]
      ensures p in s.points && NodeAt(s, p) == m ==> p in l.Points(m)
    {
      CanonicalPoint(l, nodes, r, m, p);
      CanonicalPoint(l, nodes, r, n, p);
      RemovedPoint(l, nodes, r, n, p);
    }
  }

  lemma RemoveKeepsPoint(l: Layout, nodes: set<string>, r: Ring, n: string, p: Hash)
    requires Canonical(l, nodes, r) && n in nodes && p in Removed(r, l.Points(n)).points
    ensures NodeAt(Removed(r, l.Points(n)), p) == NodeAt(r, p) && NodeAt(r, p) in nodes - {n}
    ensures p in l.Points(NodeAt(r, p))
  {
    RemovedPoint(l, nodes, r, n, p);
    CanonicalPoint(l, nodes, r, n, p);
  }

  lemma RemoveKeepsCanonical(l: Layout, nodes: set<string>, r: Ring, n: string)
    requires Canonical(l, nodes, r) && n in nodes
    ensures Canonical(l, nodes - {n}, Removed(r, l.Points(n)))
  {
    var s := Removed(r, l.Points(n));
    RemoveKeepsConsistent(r, l.Points(n));
    forall m | m in nodes - {n}
      ensures Owns(s, m, l.Points(m))
    {
      RemoveKeepsOwner(l, nodes, r, n, m);
    }
    forall p | p in s.points
      ensures NodeAt(s, p) in nodes - {n} && p in l.Points(NodeAt(s, p))
    {
      RemoveKeepsPoint(l, nodes, r, n, p);
    }
  }

  // ----- Building from nothing -----

  /** The ring after adding the listed nodes, in order, to ring r. */
  ghost function AddAll(l: Layout, r: Ring, ids: seq<string>): Ring {
    if ids == [] then
      r
    else
      var n := Last(ids);
      Added(AddAll(l, r, Front(ids)), n, l.Points(n))
  }

  ghost function RemoveAll(l: Layout, r: Ring, ids: seq<string>): Ring {
    if ids == [] then r else Removed(RemoveAll(l, r, Front(ids)), l.Points(Last(ids)))
  }

  ghost function Build(l: Layout, ids: seq<string>): Ring {
    AddAll(l, EMPTY_RING, ids)
  }

  lemma NamesSnoc(ids: seq<string>)
    requires ids != []
    ensures Names(ids) == Names(Front(ids)) + {Last(ids)}
    ensures NoDuplicates(ids) ==> Last(ids) !in Names(Front(ids))
  {
    assert ids == Front(ids) + [Last(ids)];
  }

  lemma {:induction false} AddAllCanonical(l: Layout, nodes: set<string>, r: Ring, ids: seq<string>)
    requires Canonical(l, nodes, r) && NoDuplicates(ids) && nodes !! Names(ids)
    requires NoSharedHash(l, nodes + Names(ids))
    ensures Canonical(l, nodes + Names(ids), AddAll(l, r, ids))
  {
    if ids == [] {
      assert nodes + Names(ids) == nodes;
    } else {
      var front, n := Front(ids), Last(ids);
      NamesSnoc(ids);
      AddAllCanonical(l, nodes, r, front);
      assert nodes + Names(ids) == nodes + Names(front) + {n};
      AddKeepsCanonical(l, nodes + Names(front), AddAll(l, r, front), n);
    }
  }

  lemma {:induction false} RemoveAllCanonical(l: Layout, nodes: set<string>, r: Ring, ids: seq<string>)
    requires Canonical(l, nodes, r) && NoDuplicates(ids) && Names(ids) <= nodes
    ensures Canonical(l, nodes - Names(ids), RemoveAll(l, r, ids))
  {
    if ids == [] {
      assert nodes - Names(ids) == nodes;
    } else {
      var front, n := Front(ids), Last(ids);
      NamesSnoc(ids);
      RemoveAllCanonical(l, nodes, r, front);
      assert nodes - Names(ids) == nodes - Names(front) - {n};
      RemoveKeepsCanonical(l, nodes - Names(front), RemoveAll(l, r, front), n);
    }
  }

  lemma EmptyCanonical(l: Layout)
    ensures Canonical(l, {}, EMPTY_RING)
  {
  }

  function Count(ids: seq<string>, n: string): nat {
    multiset(ids)[n]
  }

  lemma CountSnoc(ids: seq<string>, m: string, n: string)
    ensures Count(ids + [m], n) == Count(ids, n) + if m == n then 1 else 0
  {
  }

  lemma BuildSnoc(l: Layout, ids: seq<string>, p: Hash)
    requires ids != []
    ensures multiset(Build(l, ids).points)[p] ==
            multiset(Build(l, Front(ids)).points)[p] + multiset(l.Points(Last(ids)))[p]
  {
    AddedCount(Build(l, Front(ids)), Last(ids), l.Points(Last(ids)), p);
  }

  lemma {:induction false} BuildCount(l: Layout, ids: seq<string>, n: string, p: Hash)
    ensures Count(ids, n) * multiset(l.Points(n))[p] <= multiset(Build(l, ids).points)[p]
  {
    var c := multiset(l.Points(n))[p];
    if ids != [] {
      var front, m := Front(ids), Last(ids);
      BuildCount(l, front, n, p);
      BuildSnoc(l, ids, p);
      assert ids == front + [m];
      CountSnoc(front, m, n);
      OneMore(Count(front, n), c);
    } else {
      assert Count(ids, n) == 0;
      OneMore(0, c);
    }
  }

  lemma RepeatedName(ids: seq<string>)
    ensures NoDuplicates(ids) || exists n :: n in ids && Count(ids, n) >= 2
  {
    if i, j :| 0 <= i < j < |ids| && ids[i] == ids[j] {
      assert ids == ids[..j] + ids[j..];
      assert ids[j..] == [ids[j]] + ids[j + 1..];
      assert ids[i] in ids[..j];
      assert ids[i] in multiset(ids[..j]);
      assert Count(ids, ids[j]) >= 2;
    }
  }

  /** Building a ring by adding nodes one by one gives the canonical ring of those nodes exactly when no node is
      listed twice and no two of them share a hash. */
  lemma BuildIsCanonical(l: Layout, ids: seq<string>)
    requires l.replicas > 0
    ensures Canonical(l, Names(ids), Build(l, ids)) <==> NoDuplicates(ids) && NoSharedHash(l, Names(ids))
  {
    if NoDuplicates(ids) && NoSharedHash(l, Names(ids)) {
      EmptyCanonical(l);
      assert {} + Names(ids) == Names(ids);
      AddAllCanonical(l, {}, EMPTY_RING, ids);
    }
    if Canonical(l, Names(ids), Build(l, ids)) {
      CanonicalSeparates(l, Names(ids), Build(l, ids));
      NoNameTwice(l, ids);
    }
  }

  lemma AtMostOnce(k: nat, c: nat)
    requires k * c <= c && c > 0
    ensures k < 2
  {
    assert k * c == c + (k - 1) * c;
    assert k > 1 ==> (k - 1) * c >= c;
  }

  lemma NoNameTwice(l: Layout, ids: seq<string>)
    requires l.replicas > 0 && Canonical(l, Names(ids), Build(l, ids))
    ensures NoDuplicates(ids)
  {
    RepeatedName(ids);
    forall n | n in ids
      ensures Count(ids, n) < 2
    {
      var p := l.Points(n)[0];
      var c := multiset(l.Points(n))[p];
      assert p in multiset(l.Points(n));
      BuildCount(l, ids, n, p);
      CanonicalPoint(l, Names(ids), Build(l, ids), n, p);
      AtMostOnce(Count(ids, n), c);
    }
  }

  // ----- Updates -----

  /** One update of the ring from node set was to node set now: the departed nodes leave in the first order, then
      the new nodes arrive in the second. */
  ghost predicate UpdateBy(l: Layout, was: set<string>, now: set<string>, r: Ring, s: Ring, gone: seq<string>,
                           arrived: seq<string>) {
    && NoDuplicates(gone) && NoDuplicates(arrived)
    && Names(gone) == was - now && Names(arrived) == now - was
    && s == AddAll(l, RemoveAll(l, r, gone), arrived)
  }

  /** An update in some order. */
  ghost predicate Update(l: Layout, was: set<string>, now: set<string>, r: Ring, s: Ring) {
    exists gone, arrived :: UpdateBy(l, was, now, r, s, gone, arrived)
  }

  lemma UpdateIsCanonical(l: Layout, was: set<string>, now: set<string>, r: Ring, s: Ring)
    requires Canonical(l, was, r) && Update(l, was, now, r, s) && NoSharedHash(l, now)
    ensures Canonical(l, now, s)
  {
    var gone, arrived :| UpdateBy(l, was, now, r, s, gone, arrived);
    RemoveAllCanonical(l, was, r, gone);
    assert was - Names(gone) + Names(arrived) == now;
    AddAllCanonical(l, was - Names(gone), RemoveAll(l, r, gone), arrived);
  }

  /** After an update the nodes of the map are exactly the wanted ones. */
  lemma UpdateReaches(l: Layout, was: set<string>, now: set<string>, r: Ring, s: Ring, gone: seq<string>,
                      arrived: seq<string>)
    requires Canonical(l, was, r) && UpdateBy(l, was, now, r, s, gone, arrived) && NoSharedHash(l, now) && l.replicas > 0
    ensures Canonical(l, now, s) && s.nodes.Values == now
  {
    UpdateIsCanonical(l, was, now, r, s);
    CanonicalValues(l, now, s);
  }

  lemma BuildReaches(l: Layout, ids: seq<string>)
    requires NoDuplicates(ids) && NoSharedHash(l, Names(ids)) && l.replicas > 0
    ensures Canonical(l, Names(ids), Build(l, ids)) && Build(l, ids).nodes.Values == Names(ids)
  {
    BuildIsCanonical(l, ids);
    CanonicalValues(l, Names(ids), Build(l, ids));
  }

  /** A run of updates: each one starts from the nodes it finds on the ring. */
  ghost predicate UpdateRun(l: Layout, rings: seq<Ring>, sets: seq<set<string>>) {
    && |rings| == |sets| + 1
    && (forall i | 0 <= i < |sets| :: NoSharedHash(l, sets[i]))
    && (forall i | 0 <= i < |sets| :: Update(l, rings[i].nodes.Values, sets[i], rings[i], rings[i + 1]))
  }

  lemma RunFront(l: Layout, rings: seq<Ring>, sets: seq<set<string>>)
    requires UpdateRun(l, rings, sets) && sets != []
    ensures UpdateRun(l, rings[..|sets|], Front(sets)) && rings[..|sets|][0] == rings[0]
    ensures NoSharedHash(l, Last(sets))
    ensures Update(l, rings[|sets| - 1].nodes.Values, Last(sets), rings[|sets| - 1], rings[|sets|])
  {
    var k := |sets| - 1;
    assert Update(l, rings[k].nodes.Values, sets[k], rings[k], rings[k + 1]);
    forall i | 0 <= i < k
      ensures Update(l, rings[..k + 1][i].nodes.Values, sets[..k][i], rings[..k + 1][i], rings[..k + 1][i + 1])
    {
      assert Update(l, rings[i].nodes.Values, sets[i], rings[i], rings[i + 1]);
    }
  }

  lemma NextIsCanonical(l: Layout, was: set<string>, now: set<string>, r: Ring, s: Ring)
    requires Canonical(l, was, r) && Update(l, r.nodes.Values, now, r, s) && NoSharedHash(l, now) && l.replicas > 0
    ensures Canonical(l, now, s)
  {
    CanonicalValues(l, was, r);
    UpdateIsCanonical(l, was, now, r, s);
  }

  lemma {:induction false} UpdatesStayCanonical(l: Layout, nodes: set<string>, rings: seq<Ring>, sets: seq<set<string>>)
    requires UpdateRun(l, rings, sets) && Canonical(l, nodes, rings[0]) && l.replicas > 0
    ensures Canonical(l, if sets == [] then nodes else Last(sets), rings[|sets|])
  {
    if sets != [] {
      var k := |sets| - 1;
      var was := if k == 0 then nodes else sets[k - 1];
      RunFront(l, rings, sets);
      UpdatesStayCanonical(l, nodes, rings[..k + 1], sets[..k]);
      assert k > 0 ==> sets[..k][k - 1] == sets[k - 1];
      assert rings[..k + 1][k] == rings[k];
      NextIsCanonical(l, was, sets[k], rings[k], rings[k + 1]);
    }
  }

  /** Any number of updates, each with its own iteration orders, ends with the ring that building the last
      node set from nothing gives, in whatever order that is done. */
  lemma IncrementalEqualsRebuild(l: Layout, nodes: set<string>, rings: seq<Ring>, sets: seq<set<string>>, ids: seq<string>)
    requires UpdateRun(l, rings, sets) && Canonical(l, nodes, rings[0]) && l.replicas > 0
    requires sets != [] && NoDuplicates(ids) && Names(ids) == Last(sets)
    ensures rings[|sets|] == Build(l, ids)
  {
    UpdatesStayCanonical(l, nodes, rings, sets);
    BuildIsCanonical(l, ids);
    CanonicalUnique(l, Names(ids), rings[|sets|], Build(l, ids));
  }

  lemma NearestAgree(s: seq<Hash>, t: seq<Hash>, x: Hash)
    requires Sorted(s) && Sorted(t) && s != [] && t != []
    requires Successor(s, x) in t && Successor(t, x) in s
    ensures Successor(s, x) == Successor(t, x)
  {
    SuccessorIsNearest(s, x);
    SuccessorIsNearest(t, x);
  }

  /** Between any two node sets, however far apart, a hash value changes owner only if its old owner left or
      its new owner arrived. */
  lemma OwnersAgree(l: Layout, a: set<string>, r: Ring, b: set<string>, s: Ring, x: Hash)
    requires Canonical(l, a, r) && Canonical(l, b, s)
    requires r.points != [] && s.points != []
    requires Owner(r, x) in b && Owner(s, x) in a
    ensures Owner(r, x) == Owner(s, x)
  {
    var p, q := Successor(r.points, x), Successor(s.points, x);
    var u, v := NodeAt(r, p), NodeAt(s, q);
    SuccessorIsNearest(r.points, x);
    SuccessorIsNearest(s.points, x);
    CanonicalPoint(l, a, r, u, p);
    CanonicalPoint(l, b, s, u, p);
    CanonicalPoint(l, b, s, v, q);
    CanonicalPoint(l, a, r, v, q);
    NearestAgree(r.points, s.points, x);
  }
}
