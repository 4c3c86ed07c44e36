/** The order in which a key falls over from node to node: the distinct owners met on a clockwise walk. */
module FailoverOrder {
  import opened HashRing
  import opened Sequences

  function Owners(r: Ring, s: seq<Hash>): (o: seq<string>)
    ensures |o| == |s| && forall i | 0 <= i < |s| :: o[i] == NodeAt(r, s[i])
  {
    seq(|s|, i requires 0 <= i < |s| => NodeAt(r, s[i]))
  }

  /** First appearances, in order. */
  function Distinct(s: seq<string>): seq<string> {
    if s == [] then
      []
    else
      var d := Distinct(Front(s));
      if Last(s) in d then d else d + [Last(s)]
  }

  function Without(s: seq<string>, n: string): seq<string> {
    if s == [] then
      []
    else
      var w := Without(Front(s), n);
      if Last(s) == n then w else w + [Last(s)]
  }

  function Names(s: seq<string>): set<string> {
    set n | n in s
  }

  /** All nodes a key with hash x can be served by, the responsible one first. */
  function Order(r: Ring, x: Hash): seq<string> {
    Distinct(Owners(r, Walk(r.points, x)))
  }

  // ----- Distinct -----

  lemma {:induction false} DistinctElements(s: seq<string>)
    ensures NoDuplicates(Distinct(s)) && forall n :: n in Distinct(s) <==> n in s
  {
    if s != [] {
      DistinctElements(Front(s));
      assert s == Front(s) + [Last(s)];
    }
  }

  lemma {:induction false} DistinctPrefix(s: seq<string>, k: nat)
    requires k <= |s|
    ensures Distinct(s[..k]) <= Distinct(s)
  {
    if k == |s| {
      assert s[..k] == s;
    } else {
      DistinctPrefix(Front(s), k);
      assert Front(s)[..k] == s[..k];
    }
  }

  /** Distinct keeps the order of first appearance. */
  lemma {:induction false} DistinctByFirstAppearance(s: seq<string>, i: nat, j: nat) returns (k: nat)
    requires i < j < |Distinct(s)|
    ensures k < |s| && s[k] == Distinct(s)[i]
    ensures forall m | 0 <= m < |s| && s[m] == Distinct(s)[j] :: k < m
  {
    var front := Front(s);
    var d := Distinct(front);
    DistinctElements(front);
    if j < |d| {
      k := DistinctByFirstAppearance(front, i, j);
      assert forall m | 0 <= m < |front| :: front[m] == s[m];
    } else {
      assert d[i] in front;
      k :| 0 <= k < |front| && front[k] == d[i];
      assert Last(s) !in front;
      assert forall m | 0 <= m < |front| :: s[m] == front[m] && s[m] in front;
    }
  }

  lemma {:induction false} WithoutElements(s: seq<string>, n: string)
    ensures forall m :: m in Without(s, n) <==> m in s && m != n
  {
    if s != [] {
      WithoutElements(Front(s), n);
      assert s == Front(s) + [Last(s)];
    }
  }

  lemma WithoutSnoc(s: seq<string>, m: string, n: string)
    ensures Without(s + [m], n) == if m == n then Without(s, n) else Without(s, n) + [m]
  {
    assert (s + [m])[..|s|] == s;
  }

  lemma DistinctSnoc(s: seq<string>, m: string)
    ensures Distinct(s + [m]) == if m in Distinct(s) then Distinct(s) else Distinct(s) + [m]
  {
    assert (s + [m])[..|s|] == s;
  }

  lemma {:induction false} DistinctWithout(s: seq<string>, n: string)
    ensures Distinct(Without(s, n)) == Without(Distinct(s), n)
  {
    if s != [] {
      var front, last := Front(s), Last(s);
      DistinctWithout(front, n);
      WithoutElements(Distinct(front), n);
      DistinctElements(Without(front, n));
      WithoutSnoc(Distinct(front), last, n);
      DistinctSnoc(Without(front, n), last);
    }
  }

  lemma {:induction false} WithoutHead(s: seq<string>, n: string)
    requires s != [] && NoDuplicates(s) && s[0] == n
    ensures Without(s, n) == s[1..]
  {
    if |s| > 1 {
      WithoutHead(Front(s), n);
      assert s[1..] == Front(s)[1..] + [Last(s)];
    } else {
      assert s == [n];
      WithoutSnoc([], n, n);
    }
  }

  // ----- Properties of the order -----

  /** Every point has an entry. */
  predicate Complete(r: Ring) {
    forall p | p in r.points :: p in r.nodes
  }

  lemma OrderEmpty(r: Ring, x: Hash)
    ensures Order(r, x) == [] <==> r.points == []
  {
    var o := Owners(r, Walk(r.points, x));
    DistinctElements(o);
    assert |o| == |r.points|;
    if o != [] {
      assert o[0] in Distinct(o);
    }
  }

  /** The responsible node comes first. */
  lemma OrderStartsWithOwner(r: Ring, x: Hash)
    requires Sorted(r.points) && r.points != []
    ensures Order(r, x) != [] && Order(r, x)[0] == Owner(r, x)
  {
    var o := Owners(r, Walk(r.points, x));
    SuccessorIsNearest(r.points, x);
    assert o[..1] == [o[0]];
    DistinctSnoc([], o[0]);
    assert [] + [o[0]] == [o[0]];
    DistinctPrefix(o, 1);
  }

  lemma WalkOwners(r: Ring, x: Hash, n: string)
    requires Sorted(r.points)
    ensures n in Order(r, x) <==> exists p :: p in r.points && NodeAt(r, p) == n
  {
    var w := Walk(r.points, x);
    var o := Owners(r, w);
    DistinctElements(o);
    WalkIsClockwise(r.points, x);
    SameElements(w, r.points);
    if n in o {
      var i :| 0 <= i < |o| && o[i] == n;
      assert w[i] in r.points;
    }
    if p :| p in r.points && NodeAt(r, p) == n {
      var i :| 0 <= i < |w| && w[i] == p;
      assert o[i] == n;
    }
  }

  /** Every node with an entry appears in the order once. */
  lemma OrderReachesEveryNode(r: Ring, x: Hash)
    requires Consistent(r)
    ensures NoDuplicates(Order(r, x))
    ensures forall n | n in r.nodes.Values :: n in Order(r, x)
    ensures |r.nodes.Values| <= |Order(r, x)|
    ensures Complete(r) ==> |Order(r, x)| == |r.nodes.Values|
  {
    var names := Names(Order(r, x));
    DistinctElements(Owners(r, Walk(r.points, x)));
    CountDistinct(Order(r, x));
    forall n: string
      ensures n in r.nodes.Values ==> n in names
      ensures Complete(r) && n in names ==> n in r.nodes.Values
    {
      WalkOwners(r, x, n);
      if h :| h in r.nodes && r.nodes[h] == n {
        assert NodeAt(r, h) == n && h in r.points;
      }
    }
    CardinalityMonotone(r.nodes.Values, names);
    if Complete(r) {
      assert names == r.nodes.Values;
    }
  }

  lemma {:induction false} CountDistinct(s: seq<string>)
    requires NoDuplicates(s)
    ensures |Names(s)| == |s|
  {
    if s != [] {
      CountDistinct(Front(s));
      assert s == Front(s) + [Last(s)];
      assert Names(s) == Names(Front(s)) + {Last(s)};
    }
  }

  lemma CardinalityMonotone<T>(a: set<T>, b: set<T>)
    requires a <= b
    ensures |a| <= |b|
  {
    assert b == a + (b - a);
  }

  /** Clockwise order of first appearance: an earlier node has a point strictly nearer to x than every point
      of a later node. */
  lemma OrderByNearestPoint(r: Ring, x: Hash, i: nat, j: nat) returns (p: Hash)
    requires Sorted(r.points) && i < j < |Order(r, x)|
    ensures p in r.points && NodeAt(r, p) == Order(r, x)[i]
    ensures forall q | q in r.points && NodeAt(r, q) == Order(r, x)[j] :: Distance(x, p) < Distance(x, q)
  {
    var w := Walk(r.points, x);
    var o := Owners(r, w);
    var k := DistinctByFirstAppearance(o, i, j);
    WalkIsClockwise(r.points, x);
    SameElements(w, r.points);
    DistinctElements(o);
    p := w[k];
    forall q | q in r.points && NodeAt(r, q) == Order(r, x)[j]
      ensures Distance(x, p) < Distance(x, q)
    {
      var m :| 0 <= m < |w| && w[m] == q;
      WalkForward(x, w, k, m);
    }
  }

  lemma WalkForward(x: Hash, w: seq<Hash>, k: nat, m: nat)
    requires Clockwise(x, w) && k < |w| && m < |w| && w[k] != w[m] && k <= m
    ensures Distance(x, w[k]) < Distance(x, w[m])
  {
  }

  function Wanted(r: Ring, count: int): nat {
    if count <= 0 then 0 else if count <= |r.nodes.Values| then count else |r.nodes.Values|
  }

  /** The nodes that serve a key when count of them are asked for. */
  function Served(r: Ring, x: Hash, count: int): seq<string>
    requires Consistent(r)
  {
    OrderReachesEveryNode(r, x);
    Order(r, x)[..Wanted(r, count)]
  }

  /** As many different nodes as asked for, or all there are, the responsible one first; asking for fewer gives a
      prefix. */
  lemma ServedNodes(r: Ring, x: Hash, fewer: int, count: int)
    requires Consistent(r) && fewer <= count
    ensures NoDuplicates(Served(r, x, count))
    ensures 0 <= count <= |r.nodes.Values| ==> |Served(r, x, count)| == count
    ensures count > |r.nodes.Values| ==> |Served(r, x, count)| == |r.nodes.Values|
    ensures count < 0 ==> Served(r, x, count) == []
    ensures Served(r, x, fewer) <= Served(r, x, count)
    ensures Served(r, x, count) != [] ==> Served(r, x, count)[0] == Owner(r, x)
    ensures Complete(r) && count >= |r.nodes.Values| ==> Served(r, x, count) == Order(r, x)
  {
    OrderReachesEveryNode(r, x);
    OrderEmpty(r, x);
    if r.points != [] {
      OrderStartsWithOwner(r, x);
    }
  }

  // ----- Failover -----

  function Filter(s: seq<Hash>, pts: seq<Hash>): seq<Hash> {
    if s == [] then
      []
    else
      var f := Filter(Front(s), pts);
      if Last(s) in pts then f else f + [Last(s)]
  }

  lemma {:induction false} FilterClockwise(x: Hash, s: seq<Hash>, pts: seq<Hash>)
    requires Clockwise(x, s)
    ensures Clockwise(x, Filter(s, pts)) && forall p | p in Filter(s, pts) :: p in s
  {
    if s != [] {
      var f := Filter(Front(s), pts);
      FilterClockwise(x, Front(s), pts);
      forall p | p in f
        ensures Distance(x, p) <= Distance(x, Last(s))
      {
        assert p in Front(s);
      }
    }
  }

  lemma SnocCount(s: seq<Hash>, h: Hash, p: Hash)
    ensures multiset(s + [h])[p] == multiset(s)[p] + if h == p then 1 else 0
  {
  }

  lemma CountSnoc(front: seq<Hash>, f: seq<Hash>, last: Hash, pts: seq<Hash>, p: Hash)
    requires multiset(f)[p] == if p in pts then 0 else multiset(front)[p]
    ensures multiset(if last in pts then f else f + [last])[p] == if p in pts then 0 else multiset(front + [last])[p]
  {
    SnocCount(front, last, p);
    SnocCount(f, last, p);
  }

  lemma {:induction false} FilterCount(s: seq<Hash>, pts: seq<Hash>, p: Hash)
    ensures multiset(Filter(s, pts))[p] == if p in pts then 0 else multiset(s)[p]
  {
    if s != [] {
      FilterCount(Front(s), pts, p);
      CountSnoc(Front(s), Filter(Front(s), pts), Last(s), pts, p);
      assert s == Front(s) + [Last(s)];
    }
  }

  lemma OwnedCount(r: Ring, node: string, pts: seq<Hash>, p: Hash)
    requires Owns(r, node, pts)
    ensures multiset(Removed(r, pts).points)[p] == if p in pts then 0 else multiset(r.points)[p]
  {
    assert p in pts <==> p in multiset(pts);
  }

  lemma WalkAfterRemoval(r: Ring, node: string, pts: seq<Hash>, x: Hash)
    requires Sorted(r.points) && Owns(r, node, pts)
    ensures Walk(Removed(r, pts).points, x) == Filter(Walk(r.points, x), pts)
  {
    var w: seq<Hash> := Walk(r.points, x);
    var rest: seq<Hash> := Removed(r, pts).points;
    WalkIsClockwise(rest, x);
    WalkIsClockwise(r.points, x);
    FilterClockwise(x, w, pts);
    forall p: Hash
      ensures multiset(rest)[p] == multiset(Filter(w, pts))[p]
    {
      FilterCount(w, pts, p);
      OwnedCount(r, node, pts, p);
    }
    assert multiset(rest) == multiset(Filter(w, pts));
    ClockwiseUnique(x, Walk(rest, x), Filter(w, pts));
  }

  lemma OwnersSnoc(r: Ring, s: seq<Hash>, h: Hash)
    ensures Owners(r, s + [h]) == Owners(r, s) + [NodeAt(r, h)]
  {
  }

  lemma OwnersStep(r: Ring, r': Ring, node: string, pts: seq<Hash>, front: seq<Hash>, f: seq<Hash>, last: Hash)
    requires Owners(r', f) == Without(Owners(r, front), node)
    requires last in pts <==> NodeAt(r, last) == node
    requires last !in pts ==> NodeAt(r', last) == NodeAt(r, last)
    ensures Owners(r', if last in pts then f else f + [last]) == Without(Owners(r, front + [last]), node)
  {
    WithoutSnoc(Owners(r, front), NodeAt(r, last), node);
    OwnersSnoc(r, front, last);
    OwnersSnoc(r', f, last);
  }

  lemma FilterStep(s: seq<Hash>, pts: seq<Hash>)
    requires s != []
    ensures s == Front(s) + [Last(s)] && Last(s) in s
    ensures Filter(s, pts) == if Last(s) in pts then Filter(Front(s), pts) else Filter(Front(s), pts) + [Last(s)]
  {
  }

  predicate Lost(r: Ring, r': Ring, node: string, pts: seq<Hash>, h: Hash) {
    (h in pts <==> NodeAt(r, h) == node) && (h !in pts ==> NodeAt(r', h) == NodeAt(r, h))
  }

  lemma {:induction false} OwnersAfterRemoval(r: Ring, r': Ring, node: string, pts: seq<Hash>, s: seq<Hash>)
    requires forall h | h in s :: Lost(r, r', node, pts, h)
    ensures Owners(r', Filter(s, pts)) == Without(Owners(r, s), node)
  {
    if s != [] {
      FilterStep(s, pts);
      OwnersAfterRemoval(r, r', node, pts, Front(s));
      OwnersStep(r, r', node, pts, Front(s), Filter(Front(s), pts), Last(s));
    }
  }

  /** Removing a node deletes it from the failover order of every key and reorders nothing. */
  lemma RemovalKeepsOrder(r: Ring, node: string, pts: seq<Hash>, x: Hash)
    requires Sorted(r.points) && Owns(r, node, pts)
    ensures Order(Removed(r, pts), x) == Without(Order(r, x), node)
  {
    var w := Walk(r.points, x);
    WalkIsClockwise(r.points, x);
    SameElements(w, r.points);
    WalkAfterRemoval(r, node, pts, x);
    OwnersAfterRemoval(r, Removed(r, pts), node, pts, w);
    DistinctWithout(Owners(r, w), node);
  }

  /** The key of a removed owner is handed to the second node of its old order. */
  lemma OwnerHandsOver(r: Ring, node: string, pts: seq<Hash>, x: Hash)
    requires Sorted(r.points) && Owns(r, node, pts)
    requires Owner(r, x) == node && |Order(r, x)| >= 2
    ensures Owner(Removed(r, pts), x) == Order(r, x)[1]
  {
    var s := Removed(r, pts);
    RemovalKeepsOrder(r, node, pts, x);
    DistinctElements(Owners(r, Walk(r.points, x)));
    OrderEmpty(r, x);
    OrderStartsWithOwner(r, x);
    WithoutHead(Order(r, x), node);
    OrderEmpty(s, x);
    OrderStartsWithOwner(s, x);
  }
}
