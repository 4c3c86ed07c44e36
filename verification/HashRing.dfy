/** The consistent-hash ring as a value: a map from points to nodes and the sorted list of points.
    Everything the class in ConsistentHash.dfy does is specified by the functions of this module. */
module HashRing {

  const HASH_SPACE: int := 0x1_0000_0000

  type Hash = h: int | 0 <= h < HASH_SPACE

  datatype Ring = Ring(nodes: map<Hash, string>, points: seq<Hash>)

  const EMPTY_RING := Ring(map[], [])

  // ----- Order -----

  predicate Sorted(s: seq<Hash>) {
    forall i, j | 0 <= i < j < |s| :: s[i] <= s[j]
  }

  lemma SortedCons(h: Hash, s: seq<Hash>)
    requires Sorted(s) && forall p | p in s :: h <= p
    ensures Sorted([h] + s)
  {
    forall i, j | 0 <= i < j < |[h] + s|
      ensures ([h] + s)[i] <= ([h] + s)[j]
    {
      assert ([h] + s)[j] == s[j - 1] && s[j - 1] in s;
      assert i > 0 ==> ([h] + s)[i] == s[i - 1];
    }
  }

  lemma SameElements(a: seq<Hash>, b: seq<Hash>)
    requires multiset(a) == multiset(b)
    ensures |a| == |b| && forall p :: p in a <==> p in b
  {
    assert |multiset(a)| == |a| && |multiset(b)| == |b|;
    assert forall p :: (p in a <==> p in multiset(a)) && (p in b <==> p in multiset(b));
  }

  lemma TailMultiset(s: seq<Hash>)
    requires s != []
    ensures multiset(s[1..]) == multiset(s) - multiset{s[0]}
  {
    assert s == [s[0]] + s[1..];
  }

  function Insert(h: Hash, s: seq<Hash>): (r: seq<Hash>)
    ensures forall p :: p in r <==> p == h || p in s
    ensures multiset(r) == multiset(s) + multiset{h}
  {
    if s == [] || h <= s[0] then
      [h] + s
    else
      assert s == [s[0]] + s[1..];
      [s[0]] + Insert(h, s[1..])
  }

  lemma {:induction false} InsertSorted(h: Hash, s: seq<Hash>)
    requires Sorted(s)
    ensures Sorted(Insert(h, s))
  {
    if s == [] || h <= s[0] {
      SortedCons(h, s);
    } else {
      InsertSorted(h, s[1..]);
      SortedCons(s[0], Insert(h, s[1..]));
    }
  }

  lemma {:induction false} ArrangementExists(m: multiset<Hash>)
    ensures exists s: seq<Hash> :: Sorted(s) && multiset(s) == m
    decreases |m|
  {
    if m == multiset{} {
      assert Sorted([]) && multiset([]) == m;
    } else {
      var h :| h in m;
      ArrangementExists(m - multiset{h});
      var rest: seq<Hash> :| Sorted(rest) && multiset(rest) == m - multiset{h};
      InsertSorted(h, rest);
      assert Sorted(Insert(h, rest)) && multiset(Insert(h, rest)) == m;
    }
  }

  /** The one sorted list with the given elements; see SortedUnique. */
  ghost function Arrange(m: multiset<Hash>): (s: seq<Hash>)
    ensures Sorted(s) && multiset(s) == m
  {
    ArrangementExists(m);
    var s: seq<Hash> :| Sorted(s) && multiset(s) == m;
    s
  }

  /** How far clockwise the point p lies from x. */
  function Distance(x: Hash, p: Hash): Hash {
    if x <= p then p - x else p - x + HASH_SPACE
  }

  predicate Clockwise(x: Hash, s: seq<Hash>) {
    forall i, j | 0 <= i < j < |s| :: Distance(x, s[i]) <= Distance(x, s[j])
  }

  lemma HeadIsNearest(x: Hash, s: seq<Hash>, p: Hash)
    requires Clockwise(x, s) && p in s
    ensures Distance(x, s[0]) <= Distance(x, p)
  {
  }

  lemma HeadsAgree(x: Hash, a: seq<Hash>, b: seq<Hash>)
    requires Clockwise(x, a) && Clockwise(x, b) && a != [] && b != []
    requires forall p :: p in a <==> p in b
    ensures a[0] == b[0]
  {
    HeadIsNearest(x, a, b[0]);
    HeadIsNearest(x, b, a[0]);
  }

  /** Two clockwise lists of the same points are the same list. */
  lemma {:induction false} ClockwiseUnique(x: Hash, a: seq<Hash>, b: seq<Hash>)
    requires Clockwise(x, a) && Clockwise(x, b) && multiset(a) == multiset(b)
    ensures a == b
  {
    SameElements(a, b);
    if a != [] {
      HeadsAgree(x, a, b);
      TailMultiset(a);
      TailMultiset(b);
      ClockwiseUnique(x, a[1..], b[1..]);
      assert a == [a[0]] + a[1..] && b == [b[0]] + b[1..];
    }
  }

  lemma SortedUnique(a: seq<Hash>, b: seq<Hash>)
    requires Sorted(a) && Sorted(b) && multiset(a) == multiset(b)
    ensures a == b
  {
    assert Clockwise(0, a) && Clockwise(0, b);
    ClockwiseUnique(0, a, b);
  }

  // ----- Lookup -----

  /** Index of the first point at or after x, the length when there is none. */
  function LowerBound(s: seq<Hash>, x: Hash): (k: nat)
    ensures k <= |s| && (forall i | 0 <= i < k :: s[i] < x) && (k < |s| ==> x <= s[k])
  {
    if s == [] || x <= s[0] then 0 else 1 + LowerBound(s[1..], x)
  }

  /** The points in the order in which a clockwise walk from x meets them. */
  function Walk(s: seq<Hash>, x: Hash): seq<Hash> {
    var k := LowerBound(s, x);
    s[k..] + s[..k]
  }

  lemma WalkIsClockwise(s: seq<Hash>, x: Hash)
    requires Sorted(s)
    ensures Clockwise(x, Walk(s, x)) && multiset(Walk(s, x)) == multiset(s)
  {
    var k := LowerBound(s, x);
    assert s == s[..k] + s[k..];
  }

  /** A missing entry reads as the empty string, as a Go map does. */
  function NodeAt(r: Ring, h: Hash): string {
    if h in r.nodes then r.nodes[h] else ""
  }

  function Successor(s: seq<Hash>, x: Hash): Hash
    requires s != []
  {
    var k := LowerBound(s, x);
    if k == |s| then s[0] else s[k]
  }

  /** The node responsible for hash value x. */
  function Owner(r: Ring, x: Hash): string {
    if r.points == [] then "" else NodeAt(r, Successor(r.points, x))
  }

  /** Binary search with wrap-around finds the clockwise nearest point. */
  lemma SuccessorIsNearest(s: seq<Hash>, x: Hash)
    requires Sorted(s) && s != []
    ensures Successor(s, x) == Walk(s, x)[0]
    ensures Successor(s, x) in s
    ensures forall p | p in s :: Distance(x, Successor(s, x)) <= Distance(x, p)
  {
    WalkIsClockwise(s, x);
    forall p | p in s
      ensures Distance(x, Successor(s, x)) <= Distance(x, p)
    {
      assert p in multiset(Walk(s, x));
      var i :| 0 <= i < |Walk(s, x)| && Walk(s, x)[i] == p;
    }
  }

  lemma NearestIsSuccessor(s: seq<Hash>, x: Hash, q: Hash)
    requires Sorted(s) && q in s && forall p | p in s :: Distance(x, q) <= Distance(x, p)
    ensures Successor(s, x) == q
  {
    SuccessorIsNearest(s, x);
  }

  /** In plain order: a value belongs to the least point at or after it, and past the last point to the least of all. */
  lemma OwnerIsNextPoint(r: Ring, x: Hash, p: Hash)
    requires Sorted(r.points) && p in r.points
    requires if x <= p then forall q | q in r.points && x <= q :: p <= q else forall q | q in r.points :: p <= q < x
    ensures Owner(r, x) == if p in r.nodes then r.nodes[p] else ""
  {
    NearestIsSuccessor(r.points, x, p);
  }

  // ----- Adding and removing a node -----

  function PointSet(pts: seq<Hash>): set<Hash> {
    set p | p in pts
  }

  function AddedNodes(m: map<Hash, string>, node: string, pts: seq<Hash>): map<Hash, string> {
    map h | h in m.Keys + PointSet(pts) :: if h in pts then node else m[h]
  }

  ghost function Added(r: Ring, node: string, pts: seq<Hash>): Ring {
    Ring(AddedNodes(r.nodes, node, pts), Arrange(multiset(r.points) + multiset(pts)))
  }

  ghost function Removed(r: Ring, pts: seq<Hash>): Ring {
    Ring(r.nodes - PointSet(pts), Arrange(multiset(r.points) - multiset(pts)))
  }

  /** What every sequence of additions and removals keeps, collisions or not. */
  predicate Consistent(r: Ring) {
    Sorted(r.points) && forall h | h in r.nodes :: h in r.points
  }

  lemma AddedPoints(r: Ring, node: string, pts: seq<Hash>)
    ensures forall p :: p in Added(r, node, pts).points <==> p in r.points || p in pts
  {
    assert multiset(r.points + pts) == multiset(r.points) + multiset(pts);
    SameElements(Added(r, node, pts).points, r.points + pts);
  }

  lemma RemovedCount(r: Ring, pts: seq<Hash>, p: Hash)
    ensures p in Removed(r, pts).points <==> multiset(pts)[p] < multiset(r.points)[p]
  {
    assert p in Removed(r, pts).points <==> p in multiset(Removed(r, pts).points);
  }

  lemma RemovedPointsKept(r: Ring, pts: seq<Hash>, p: Hash)
    requires p !in pts
    ensures p in Removed(r, pts).points <==> p in r.points
  {
    RemovedCount(r, pts, p);
    assert p !in multiset(pts) && (p in r.points <==> p in multiset(r.points));
  }

  lemma AddKeepsConsistent(r: Ring, node: string, pts: seq<Hash>)
    requires Consistent(r)
    ensures Consistent(Added(r, node, pts))
  {
    AddedPoints(r, node, pts);
  }

  lemma RemoveKeepsConsistent(r: Ring, pts: seq<Hash>)
    requires Consistent(r)
    ensures Consistent(Removed(r, pts))
  {
    forall h | h in Removed(r, pts).nodes
      ensures h in Removed(r, pts).points
    {
      RemovedPointsKept(r, pts, h);
    }
  }

  lemma AddedNodeAt(r: Ring, node: string, pts: seq<Hash>, h: Hash)
    ensures NodeAt(Added(r, node, pts), h) == if h in pts then node else NodeAt(r, h)
  {
  }

  predicate Takes(s: seq<Hash>, x: Hash, p: Hash) {
    s == [] || Distance(x, p) <= Distance(x, Successor(s, x))
  }

  lemma SuccessorInUnion(s: seq<Hash>, pts: seq<Hash>, t: seq<Hash>, x: Hash)
    requires Sorted(s) && Sorted(t) && t != []
    requires forall p :: p in t <==> p in s || p in pts
    ensures var q := Successor(t, x);
            if q in pts then Takes(s, x, q) else s != [] && q == Successor(s, x) && forall p | p in pts :: !Takes(s, x, p)
  {
    SuccessorIsNearest(t, x);
    var q := Successor(t, x);
    if s != [] {
      SuccessorIsNearest(s, x);
      assert Successor(s, x) in t;
      if q !in pts {
        NearestIsSuccessor(s, x, q);
        forall p | p in pts
          ensures !Takes(s, x, p)
        {
          assert p in t && p != q;
        }
      }
    }
  }

  /** Exactly which hash values a new node takes: those with one of its points at least as near as their
      old successor. Every other value keeps its owner. */
  lemma AddTakesNearest(r: Ring, node: string, pts: seq<Hash>, x: Hash)
    requires Sorted(r.points)
    ensures Owner(Added(r, node, pts), x) == if exists p :: p in pts && Takes(r.points, x, p) then node else Owner(r, x)
  {
    var t := Added(r, node, pts).points;
    AddedPoints(r, node, pts);
    assert |t| == |multiset(t)| == |r.points| + |pts|;
    if t != [] {
      SuccessorInUnion(r.points, pts, t, x);
      AddedNodeAt(r, node, pts, Successor(t, x));
      NoTakerBeyondNearest(r.points, pts, t, x);
    }
  }

  lemma NoTakerBeyondNearest(s: seq<Hash>, pts: seq<Hash>, t: seq<Hash>, x: Hash)
    requires Sorted(s) && Sorted(t) && t != []
    requires forall p :: p in t <==> p in s || p in pts
    ensures (exists p :: p in pts && Takes(s, x, p)) <==> Successor(t, x) in pts
  {
    SuccessorInUnion(s, pts, t, x);
  }

  /** Minimal remapping for an addition: the owner is unchanged or the new node, on any sorted ring. */
  lemma AddRemapsMinimally(r: Ring, node: string, pts: seq<Hash>, x: Hash)
    requires Sorted(r.points)
    ensures Owner(Added(r, node, pts), x) == Owner(r, x) || Owner(Added(r, node, pts), x) == node
  {
    AddTakesNearest(r, node, pts, x);
  }

  /** The points pts belong to this node alone and occur exactly as often as the node listed them. */
  predicate Owns(r: Ring, node: string, pts: seq<Hash>) {
    && (forall p | p in pts :: p in r.nodes && r.nodes[p] == node && multiset(r.points)[p] == multiset(pts)[p])
    && (forall h | h in r.points && NodeAt(r, h) == node :: h in pts)
  }

  lemma OwnedPointsLeave(r: Ring, node: string, pts: seq<Hash>)
    requires Owns(r, node, pts)
    ensures forall p :: p in Removed(r, pts).points <==> p in r.points && p !in pts
  {
    forall p: Hash
      ensures p in Removed(r, pts).points <==> p in r.points && p !in pts
    {
      if p in pts {
        RemovedCount(r, pts, p);
      } else {
        RemovedPointsKept(r, pts, p);
      }
    }
  }

  lemma RemovedSubset(r: Ring, pts: seq<Hash>, p: Hash)
    requires p in Removed(r, pts).points
    ensures p in r.points
  {
    RemovedCount(r, pts, p);
    assert p in multiset(r.points);
  }

  /** Minimal remapping for a removal: only values the removed node owned change owner. The points taken out must be
      the node's own; it may have been added more than once or not at all. */
  lemma RemoveRemapsMinimally(r: Ring, node: string, pts: seq<Hash>, x: Hash)
    requires Sorted(r.points) && forall p | p in pts && p in r.points :: NodeAt(r, p) == node
    requires Owner(r, x) != node
    ensures Owner(Removed(r, pts), x) == Owner(r, x)
  {
    var s := Removed(r, pts);
    if r.points == [] {
      assert |s.points| == |multiset(s.points)| == 0;
    } else {
      SuccessorIsNearest(r.points, x);
      var q := Successor(r.points, x);
      RemovedPointsKept(r, pts, q);
      forall p | p in s.points
        ensures Distance(x, q) <= Distance(x, p)
      {
        RemovedSubset(r, pts, p);
      }
      NearestIsSuccessor(s.points, x, q);
    }
  }

  lemma AddThenRemoveNodes(m: map<Hash, string>, node: string, pts: seq<Hash>)
    ensures AddedNodes(m, node, pts) - PointSet(pts) == m <==> forall p | p in pts :: p !in m
  {
    var n := AddedNodes(m, node, pts) - PointSet(pts);
    if p :| p in pts && p in m {
      assert p !in n;
    } else {
      assert n == m;
    }
  }

  lemma AddedNodesCommute(m: map<Hash, string>, a: string, pa: seq<Hash>, b: string, pb: seq<Hash>)
    requires a != b
    ensures AddedNodes(AddedNodes(m, a, pa), b, pb) == AddedNodes(AddedNodes(m, b, pb), a, pa) <==>
            PointSet(pa) !! PointSet(pb)
  {
    var ab, ba := AddedNodes(AddedNodes(m, a, pa), b, pb), AddedNodes(AddedNodes(m, b, pb), a, pa);
    if h :| h in PointSet(pa) && h in PointSet(pb) {
      assert ab[h] == b && ba[h] == a;
    } else {
      forall h: Hash
        ensures h in ab <==> h in ba
        ensures h in ab ==> ab[h] == ba[h]
      {
        assert h in pa ==> h in PointSet(pa);
        assert h in pb ==> h in PointSet(pb);
      }
      assert ab == ba;
    }
  }

  /** Adding a node and removing it again restores the ring exactly when none of its points already had
      an entry. The sorted list is restored in every case. */
  lemma AddThenRemoveRestores(r: Ring, node: string, pts: seq<Hash>)
    requires Sorted(r.points)
    ensures Removed(Added(r, node, pts), pts).points == r.points
    ensures Removed(Added(r, node, pts), pts) == r <==> forall p | p in pts :: p !in r.nodes
  {
    SortedUnique(Arrange(multiset(r.points) + multiset(pts) - multiset(pts)), r.points);
    AddThenRemoveNodes(r.nodes, node, pts);
  }

  /** After a removal every point still has an entry exactly when no removed point occurred more often
      than the node listed it. A node added twice breaks this, and so does a hash shared by two nodes. */
  lemma RemoveLeavesNoDanglingPoint(r: Ring, pts: seq<Hash>)
    requires forall h :: h in r.nodes <==> h in r.points
    ensures (forall h | h in Removed(r, pts).points :: h in Removed(r, pts).nodes) <==>
            forall p | p in pts :: multiset(r.points)[p] <= multiset(pts)[p]
  {
    forall p: Hash
      ensures p in pts ==> (p in Removed(r, pts).points <==> multiset(r.points)[p] > multiset(pts)[p])
      ensures p !in pts && p in Removed(r, pts).points ==> p in Removed(r, pts).nodes
    {
      RemovedCount(r, pts, p);
      if p !in pts {
        RemovedPointsKept(r, pts, p);
      }
    }
  }

  /** Two different nodes can be added in either order with the same result exactly when they share no hash. */
  lemma AddsCommute(r: Ring, a: string, pa: seq<Hash>, b: string, pb: seq<Hash>)
    requires a != b
    ensures Added(Added(r, a, pa), b, pb) == Added(Added(r, b, pb), a, pa) <==> PointSet(pa) !! PointSet(pb)
  {
    SortedUnique(Added(Added(r, a, pa), b, pb).points, Added(Added(r, b, pb), a, pa).points);
    AddedNodesCommute(r.nodes, a, pa, b, pb);
  }

  /** Which lookups a removal loses: exactly the values whose successor among the points that remain is a point of the
      removed node, one that was in the list more often than the node listed it. */
  lemma RemovalLosesExactly(r: Ring, pts: seq<Hash>, x: Hash)
    requires Sorted(r.points) && forall p | p in r.points :: NodeAt(r, p) != ""
    requires Removed(r, pts).points != []
    ensures Owner(Removed(r, pts), x) == "" <==> Successor(Removed(r, pts).points, x) in pts
  {
    var s := Removed(r, pts);
    SuccessorIsNearest(s.points, x);
    RemovedSubset(r, pts, Successor(s.points, x));
  }

  /** A node that is added twice and removed once: the values that the first addition gave it have no owner, all others
      keep theirs. On a ring of its own that is every value. */
  lemma DoubleAddLosesTakenValues(r: Ring, node: string, pts: seq<Hash>, x: Hash)
    requires Sorted(r.points)
    ensures Owner(Removed(Added(Added(r, node, pts), node, pts), pts), x) ==
            if exists p :: p in pts && Takes(r.points, x, p) then "" else Owner(r, x)
  {
    var once, s := Added(r, node, pts), Removed(Added(Added(r, node, pts), node, pts), pts);
    AddTakesNearest(r, node, pts, x);
    assert multiset(once.points) + multiset(pts) - multiset(pts) == multiset(once.points);
    SortedUnique(s.points, once.points);
    AddedPoints(r, node, pts);
    if once.points != [] {
      SuccessorInUnion(r.points, pts, once.points, x);
    }
  }

  /** A node that shares hashes with others, added and removed again: the values whose old successor is a shared hash
      lose their owner, all others have it back. */
  lemma SharedHashLosesItsArc(r: Ring, node: string, pts: seq<Hash>, x: Hash)
    requires Sorted(r.points)
    ensures Owner(Removed(Added(r, node, pts), pts), x) ==
            if r.points != [] && Successor(r.points, x) in pts then "" else Owner(r, x)
  {
    AddThenRemoveRestores(r, node, pts);
  }

  /** So every value gets its owner back exactly when the node shares no hash with the nodes on the ring. */
  lemma SharedHashLosesSomeValue(r: Ring, node: string, pts: seq<Hash>)
    requires Sorted(r.points) && forall p | p in r.points :: NodeAt(r, p) != ""
    ensures (forall x :: Owner(Removed(Added(r, node, pts), pts), x) == Owner(r, x)) <==>
            forall p | p in pts :: p !in r.points
  {
    forall x: Hash
      ensures Owner(Removed(Added(r, node, pts), pts), x) ==
              if r.points != [] && Successor(r.points, x) in pts then "" else Owner(r, x)
      ensures r.points != [] ==> Successor(r.points, x) in r.points
    {
      SharedHashLosesItsArc(r, node, pts, x);
      if r.points != [] {
        SuccessorIsNearest(r.points, x);
      }
    }
    if p :| p in pts && p in r.points {
      SuccessorIsNearest(r.points, p);
      assert Distance(p, p) == 0;
      assert Successor(r.points, p) == p;
      assert Owner(r, p) != "";
      assert Owner(Removed(Added(r, node, pts), pts), p) == "";
    }
  }
}
