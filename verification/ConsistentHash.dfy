/** The consistent-hash ring as the object that is updated in place. */
module ConsistentHashing {
  import opened HashRing
  import opened FailoverOrder
  import opened Sequences
  import opened RingLayout
  import opened LoadShares

  // ----- Splicing one point out of the sorted list -----

  function RemoveFirst(s: seq<Hash>, h: Hash): (r: seq<Hash>)
    ensures forall p | p in r :: p in s
    ensures multiset(r) == multiset(s) - multiset{h}
  {
    if s == [] then
      []
    else
      assert s == [s[0]] + s[1..];
      if s[0] == h then s[1..] else [s[0]] + RemoveFirst(s[1..], h)
  }

  lemma {:induction false} RemoveFirstSorted(s: seq<Hash>, h: Hash)
    requires Sorted(s)
    ensures Sorted(RemoveFirst(s, h))
  {
    if s != [] && s[0] != h {
      RemoveFirstSorted(s[1..], h);
      SortedCons(s[0], RemoveFirst(s[1..], h));
    }
  }

  function Splice(s: seq<Hash>, j: nat): seq<Hash> {
    if j < |s| then s[..j] + s[j + 1..] else s
  }

  predicate FirstIndex(s: seq<Hash>, h: Hash, j: nat) {
    j <= |s| && (forall i | 0 <= i < j :: s[i] != h) && (j < |s| ==> s[j] == h)
  }

  lemma SpliceTail(s: seq<Hash>, j: nat)
    requires 0 < j <= |s|
    ensures Splice(s, j) == [s[0]] + Splice(s[1..], j - 1)
  {
    if j < |s| {
      assert s[..j] == [s[0]] + s[1..][..j - 1];
      assert s[j + 1..] == s[1..][j..];
    } else {
      assert s == [s[0]] + s[1..];
    }
  }

  lemma {:induction false} RemoveFirstAt(s: seq<Hash>, h: Hash, j: nat)
    requires FirstIndex(s, h, j)
    ensures RemoveFirst(s, h) == Splice(s, j)
  {
    if j > 0 {
      RemoveFirstAt(s[1..], h, j - 1);
      SpliceTail(s, j);
    }
  }

  /** The ring without the entry of one hash and without the first occurrence of it in the list. */
  function DropPoint(r: Ring, h: Hash): Ring {
    Ring(r.nodes - {h}, RemoveFirst(r.points, h))
  }

  /** The first points of a node dropped one after another. */
  function DropUpTo(l: Layout, r: Ring, node: string, k: nat): Ring {
    if k == 0 then r else DropPoint(DropUpTo(l, r, node, k - 1), l.hashKey(VirtualKey(node, k - 1)))
  }

  /** The ring after some points went out. */
  predicate RemovedSoFar(r: Ring, s: Ring, pts: seq<Hash>) {
    s.nodes == r.nodes - PointSet(pts) && Sorted(s.points) && multiset(s.points) == multiset(r.points) - multiset(pts)
  }

  lemma RemoveStart(r: Ring)
    requires Consistent(r)
    ensures RemovedSoFar(r, r, [])
  {
    assert r.nodes - PointSet([]) == r.nodes;
  }

  lemma MinusSnoc(m: map<Hash, string>, pts: seq<Hash>, h: Hash)
    ensures m - PointSet(pts + [h]) == m - PointSet(pts) - {h}
  {
    assert PointSet(pts + [h]) == PointSet(pts) + {h};
  }

  lemma LessSnoc(all: multiset<Hash>, pts: seq<Hash>, h: Hash)
    ensures all - multiset(pts + [h]) == all - multiset(pts) - multiset{h}
  {
    assert multiset(pts + [h]) == multiset(pts) + multiset{h};
  }

  lemma RemoveStep(r: Ring, s: Ring, pts: seq<Hash>, h: Hash)
    requires RemovedSoFar(r, s, pts)
    ensures RemovedSoFar(r, DropPoint(s, h), pts + [h])
  {
    MinusSnoc(r.nodes, pts, h);
    LessSnoc(multiset(r.points), pts, h);
    RemoveFirstSorted(s.points, h);
  }

  lemma {:induction false} DropUpToRemoves(l: Layout, r: Ring, node: string, k: nat)
    requires Consistent(r)
    ensures RemovedSoFar(r, DropUpTo(l, r, node, k), l.PointsUpTo(node, k))
  {
    if k == 0 {
      RemoveStart(r);
    } else {
      DropUpToRemoves(l, r, node, k - 1);
      RemoveStep(r, DropUpTo(l, r, node, k - 1), l.PointsUpTo(node, k - 1), l.hashKey(VirtualKey(node, k - 1)));
    }
  }

  /** Dropping the points of a node one by one is removing the node. */
  lemma DropAllIsRemoved(l: Layout, r: Ring, node: string)
    requires Consistent(r)
    ensures DropUpTo(l, r, node, if l.replicas < 0 then 0 else l.replicas) == Removed(r, l.Points(node))
    ensures Consistent(Removed(r, l.Points(node)))
  {
    var s := DropUpTo(l, r, node, if l.replicas < 0 then 0 else l.replicas);
    DropUpToRemoves(l, r, node, if l.replicas < 0 then 0 else l.replicas);
    SortedUnique(s.points, Removed(r, l.Points(node)).points);
    RemoveKeepsConsistent(r, l.Points(node));
  }

  lemma LowerBoundUnique(s: seq<Hash>, x: Hash, k: nat)
    requires k <= |s| && (forall i | 0 <= i < k :: s[i] < x) && (forall i | k <= i < |s| :: x <= s[i])
    ensures k == LowerBound(s, x)
  {
    var lb := LowerBound(s, x);
    assert lb < |s| ==> x <= s[lb];
    assert k < |s| ==> x <= s[k];
  }

  /** Insertion sort in place of the library sort: any sorted permutation is the same list. */
  function Sort(s: seq<Hash>): (r: seq<Hash>)
    ensures Sorted(r) && multiset(r) == multiset(s)
  {
    if s == [] then
      []
    else
      assert s == [s[0]] + s[1..];
      InsertSorted(s[0], Sort(s[1..]));
      Insert(s[0], Sort(s[1..]))
  }

  /** The map and the unsorted list after some points of the node went in. */
  ghost predicate AddedSoFar(r: Ring, s: Ring, node: string, pts: seq<Hash>) {
    s.nodes == AddedNodes(r.nodes, node, pts) && s.points == r.points + pts
  }

  lemma AddStart(r: Ring, node: string)
    ensures AddedSoFar(r, r, node, [])
  {
    assert AddedNodes(r.nodes, node, []) == r.nodes;
  }

  lemma AddStep(r: Ring, s: Ring, node: string, pts: seq<Hash>, h: Hash)
    requires AddedSoFar(r, s, node, pts)
    ensures AddedSoFar(r, Ring(s.nodes[h := node], s.points + [h]), node, pts + [h])
  {
    assert PointSet(pts + [h]) == PointSet(pts) + {h};
    assert AddedNodes(r.nodes, node, pts + [h]) == AddedNodes(r.nodes, node, pts)[h := node];
    assert r.points + pts + [h] == r.points + (pts + [h]);
  }

  lemma AddDone(r: Ring, s: Ring, node: string, pts: seq<Hash>)
    requires AddedSoFar(r, s, node, pts) && Consistent(r)
    ensures Ring(s.nodes, Sort(s.points)) == Added(r, node, pts) && Consistent(Added(r, node, pts))
  {
    SortedUnique(Sort(s.points), Added(r, node, pts).points);
    AddKeepsConsistent(r, node, pts);
  }

  /** The owners met on a clockwise walk, as index arithmetic. */
  predicate MetFrom(r: Ring, start: nat, owners: seq<string>) {
    && start <= |r.points| && |owners| == |r.points|
    && forall k | 0 <= k < |r.points| ::
         owners[k] == NodeAt(r, r.points[if start + k < |r.points| then start + k else start + k - |r.points|])
  }

  lemma OwnersOfWalk(r: Ring, start: nat)
    requires start <= |r.points|
    ensures MetFrom(r, start, Owners(r, r.points[start..] + r.points[..start]))
  {
  }

  /** The state of the collecting loop after k steps. */
  predicate Collected(owners: seq<string>, k: nat, nodes: seq<string>, seen: set<string>) {
    k <= |owners| && nodes == Distinct(owners[..k]) && seen == Names(nodes)
  }

  lemma CollectStart(owners: seq<string>)
    ensures Collected(owners, 0, [], {})
  {
    assert Names([]) == {};
  }

  lemma CollectEnd(owners: seq<string>, k: nat, nodes: seq<string>, seen: set<string>)
    requires Collected(owners, k, nodes, seen)
    ensures |nodes| <= |Distinct(owners)| && nodes == Distinct(owners)[..|nodes|] && |nodes| == |seen|
  {
    DistinctPrefix(owners, k);
    DistinctElements(owners[..k]);
    CountDistinct(nodes);
  }

  lemma CollectStep(owners: seq<string>, k: nat, nodes: seq<string>, seen: set<string>, n: nat)
    requires Collected(owners, k, nodes, seen) && |seen| < n <= |Distinct(owners)|
    ensures k < |owners| && |seen| == |nodes|
    ensures if owners[k] in seen then Collected(owners, k + 1, nodes, seen)
            else Collected(owners, k + 1, nodes + [owners[k]], seen + {owners[k]})
  {
    assert owners[..|owners|] == owners;
    DistinctElements(owners[..k]);
    CountDistinct(nodes);
    assert owners[..k + 1] == owners[..k] + [owners[k]];
    DistinctSnoc(owners[..k], owners[k]);
    NamesOfSnoc(nodes, owners[k]);
  }

  /** One turn of the collecting loop: the index wraps around before the point is read. */
  lemma CollectNext(r: Ring, start: nat, owners: seq<string>, k: nat, idx: nat, nodes: seq<string>, seen: set<string>,
                    n: nat)
    requires MetFrom(r, start, owners)
    requires Collected(owners, k, nodes, seen) && |seen| < n <= |Distinct(owners)|
    requires idx == if start + k <= |r.points| then start + k else start + k - |r.points|
    ensures k < |r.points| && |seen| == |nodes| && (idx < |r.points| || 0 < |r.points|)
    ensures var node := NodeAt(r, r.points[if idx >= |r.points| then 0 else idx]);
            if node in seen then Collected(owners, k + 1, nodes, seen)
            else Collected(owners, k + 1, nodes + [node], seen + {node})
  {
    CollectStep(owners, k, nodes, seen, n);
  }

  /** The walk of GetNodes: distinct owners from index start on, up to count of them or until as many are seen as
      the map has nodes. */
  method Collect(hashRing: map<Hash, string>, sortedHashes: seq<Hash>, start: nat, count: int, unique: nat,
                 ghost owners: seq<string>)
    returns (nodes: seq<string>)
    requires 0 < |sortedHashes| && MetFrom(Ring(hashRing, sortedHashes), start, owners)
    requires 0 < count && unique <= |Distinct(owners)|
    ensures nodes == Distinct(owners)[..if count <= unique then count else unique]
  {
    var idx := start;
    var seen := {};
    nodes := [];
    ghost var k := 0;
    CollectStart(owners);
    while |nodes| < count && |seen| < unique
      invariant k <= |sortedHashes| && idx == if start + k <= |sortedHashes| then start + k else start + k - |sortedHashes|
      invariant Collected(owners, k, nodes, seen)
      invariant |nodes| <= count && |nodes| <= unique
      decreases |sortedHashes| - k
    {
      CollectNext(Ring(hashRing, sortedHashes), start, owners, k, idx, nodes, seen, unique);
      if idx >= |sortedHashes| {
        idx := 0;
      }
      var node := if sortedHashes[idx] in hashRing then hashRing[sortedHashes[idx]] else "";
      if node !in seen {
        nodes := nodes + [node];
        seen := seen + {node};
      }
      idx := idx + 1;
      k := k + 1;
    }
    CollectEnd(owners, k, nodes, seen);
  }

  /** The running total of one node after i arcs, as the fraction the loop keeps. */
  function Fraction(n: int): real {
    n as real / 4294967296.0
  }

  function Share(d: map<string, real>, n: string): real {
    if n in d then d[n] else 0.0
  }

  /** The distribution that starts from d and takes in the first i arcs. */
  function Shares(r: Ring, d: map<string, real>, i: nat): map<string, real>
    requires Sorted(r.points) && i <= |r.points|
  {
    if i == 0 then d
    else Credited(Shares(r, d, i - 1), NodeAt(r, r.points[i - 1]), Arc(r.points, i - 1))
  }

  function Credited(d: map<string, real>, n: string, arc: nat): map<string, real> {
    d[n := Share(d, n) + Fraction(arc)]
  }

  lemma FractionAdds(a: int, b: int)
    ensures Fraction(a) + Fraction(b) == Fraction(a + b)
  {
  }

  lemma {:induction false} SharesAreArcs(r: Ring, zeros: map<string, real>, i: nat, n: string)
    requires Sorted(r.points) && i <= |r.points| && forall m | m in zeros :: zeros[m] == 0.0
    ensures Share(Shares(r, zeros, i), n) == Fraction(ArcsOf(r, n, i))
  {
    if i > 0 {
      SharesAreArcs(r, zeros, i - 1, n);
      FractionAdds(ArcsOf(r, n, i - 1), Arc(r.points, i - 1));
    }
  }

  lemma {:induction false} SharesCoverOwners(r: Ring, zeros: map<string, real>, i: nat, k: nat)
    requires Sorted(r.points) && k < i <= |r.points|
    ensures NodeAt(r, r.points[k]) in Shares(r, zeros, i)
  {
    if k < i - 1 {
      SharesCoverOwners(r, zeros, i - 1, k);
    }
  }

  /** Total length of the first i arcs. */
  function ArcTotal(s: seq<Hash>, i: nat): int
    requires i <= |s|
  {
    if i == 0 then 0 else s[i - 1] as int + (HASH_SPACE - Last(s))
  }

  lemma CreditedSum(d: map<string, real>, n: string, arc: nat)
    ensures Sum(Credited(d, n, arc)) == Sum(d) + Fraction(arc)
  {
    SumUpdate(d, n, Share(d, n) + Fraction(arc));
  }

  lemma {:induction false} SharesSum(r: Ring, zeros: map<string, real>, i: nat)
    requires Sorted(r.points) && i <= |r.points| && forall n | n in zeros :: zeros[n] == 0.0
    ensures Sum(Shares(r, zeros, i)) == Fraction(ArcTotal(r.points, i))
  {
    if i == 0 {
      SumOfZeros(zeros);
    } else {
      SharesSum(r, zeros, i - 1);
      CreditedSum(Shares(r, zeros, i - 1), NodeAt(r, r.points[i - 1]), Arc(r.points, i - 1));
      FractionAdds(ArcTotal(r.points, i - 1), Arc(r.points, i - 1));
    }
  }

  /** Every owner has a share, each share is the exact fraction of hash values whose lookup gives that node, and
      the shares sum to one. */
  ghost predicate ExactShares(r: Ring, d: map<string, real>) {
    && (forall x: Hash :: Owner(r, x) in d)
    && (forall n | n in d :: d[n] == Fraction(|Owned(r, n, 0, HASH_SPACE)|))
    && Sum(d) == 1.0
  }

  /** Adding up the arcs gives exact shares, duplicate points included. */
  lemma SharesAreExact(r: Ring, zeros: map<string, real>)
    requires Sorted(r.points) && r.points != [] && forall n | n in zeros :: zeros[n] == 0.0
    ensures ExactShares(r, Shares(r, zeros, |r.points|))
  {
    var d := Shares(r, zeros, |r.points|);
    forall n | n in d
      ensures d[n] == Fraction(|Owned(r, n, 0, HASH_SPACE)|)
    {
      SharesAreArcs(r, zeros, |r.points|, n);
      ArcsCoverOwned(r, n);
    }
    forall x: Hash
      ensures Owner(r, x) in d
    {
      var j := LowerBound(r.points, x);
      SharesCoverOwners(r, zeros, |r.points|, if j == |r.points| then 0 else j);
    }
    SharesSum(r, zeros, |r.points|);
  }

  class ConsistentHash {
    const layout: Layout
    var hashRing: map<Hash, string>
    var sortedHashes: seq<Hash>

    ghost function View(): Ring
      reads this
    {
      Ring(hashRing, sortedHashes)
    }

    /** Holds after every sequence of calls, whatever nodes are added or removed and whatever hashes collide. */
    ghost predicate Valid()
      reads this
    {
      Consistent(View())
    }

    constructor (hashKey: string -> Hash, replicas: int)
      ensures Valid() && View() == EMPTY_RING && layout == Layout(hashKey, replicas)
    {
      layout := Layout(hashKey, replicas);
      hashRing := map[];
      sortedHashes := [];
    }

    method AddNode(node: string)
      requires Valid()
      modifies this
      ensures Valid() && View() == Added(old(View()), node, layout.Points(node))
    {
      var i := 0;
      ghost var r := View();
      AddStart(r, node);
      while i < layout.replicas
        invariant 0 <= i && (i <= layout.replicas || i == 0)
        invariant AddedSoFar(r, View(), node, layout.PointsUpTo(node, i))
      {
        var hash := layout.hashKey(VirtualKey(node, i));
        AddStep(r, View(), node, layout.PointsUpTo(node, i), hash);
        hashRing := hashRing[hash := node];
        sortedHashes := sortedHashes + [hash];
        i := i + 1;
      }
      AddDone(r, View(), node, layout.Points(node));
      sortedHashes := Sort(sortedHashes);
    }

    /** Deletes one hash from the map and splices its first occurrence out of the sorted list. */
    method RemovePoint(hash: Hash)
      modifies this
      ensures View() == DropPoint(old(View()), hash)
    {
      hashRing := hashRing - {hash};
      var j := 0;
      while j < |sortedHashes| && sortedHashes[j] != hash
        invariant j <= |sortedHashes| && forall k | 0 <= k < j :: sortedHashes[k] != hash
      {
        j := j + 1;
      }
      RemoveFirstAt(sortedHashes, hash, j);
      if j < |sortedHashes| {
        sortedHashes := sortedHashes[..j] + sortedHashes[j + 1..];
      }
    }

    /** The loop over the virtual nodes. */
    method RemovePoints(node: string)
      modifies this
      ensures View() == DropUpTo(layout, old(View()), node, if layout.replicas < 0 then 0 else layout.replicas)
    {
      ghost var r := View();
      var i := 0;
      while i < layout.replicas
        invariant 0 <= i && (i <= layout.replicas || i == 0)
        invariant View() == DropUpTo(layout, r, node, i)
      {
        var hash := layout.hashKey(VirtualKey(node, i));
        RemovePoint(hash);
        i := i + 1;
      }
      assert i == if layout.replicas < 0 then 0 else layout.replicas;
    }

    method RemoveNode(node: string)
      requires Valid()
      modifies this
      ensures Valid() && View() == Removed(old(View()), layout.Points(node))
    {
      DropAllIsRemoved(layout, View(), node);
      RemovePoints(node);
    }

    /** Binary search for the first point at or after the hash. */
    method Search(hash: Hash) returns (idx: nat)
      requires Valid()
      ensures idx == LowerBound(sortedHashes, hash)
    {
      var lo, hi := 0, |sortedHashes|;
      while lo < hi
        invariant 0 <= lo <= hi <= |sortedHashes|
        invariant forall k | 0 <= k < lo :: sortedHashes[k] < hash
        invariant forall k | hi <= k < |sortedHashes| :: hash <= sortedHashes[k]
      {
        var mid := lo + (hi - lo) / 2;
        if sortedHashes[mid] < hash {
          lo := mid + 1;
        } else {
          hi := mid;
        }
      }
      LowerBoundUnique(sortedHashes, hash, lo);
      idx := lo;
    }

    method GetNodeWithHash(hash: Hash) returns (node: string)
      requires Valid()
      ensures node == Owner(View(), hash)
    {
      if |sortedHashes| == 0 {
        return "";
      }
      var idx := Search(hash);
      if idx == |sortedHashes| {
        idx := 0;
      }
      node := if sortedHashes[idx] in hashRing then hashRing[sortedHashes[idx]] else "";
    }

    method GetNode(key: string) returns (node: string)
      requires Valid()
      ensures node == Owner(View(), layout.hashKey(key))
    {
      node := GetNodeWithHash(layout.hashKey(key));
    }

    /** The nodes of the map in no particular order. */
    method GetUniqueNodes() returns (nodes: seq<string>)
      ensures NoDuplicates(nodes) && Names(nodes) == hashRing.Values && |nodes| == |hashRing.Values|
    {
      nodes := [];
      var rest := hashRing.Values;
      while rest != {}
        invariant NoDuplicates(nodes) && Names(nodes) + rest == hashRing.Values && Names(nodes) !! rest
        decreases rest
      {
        var n :| n in rest;
        rest := rest - {n};
        assert n !in Names(nodes);
        NamesOfSnoc(nodes, n);
        nodes := nodes + [n];
      }
      CountDistinct(nodes);
    }

    method GetNodes(key: string, count: int) returns (nodes: seq<string>)
      requires Valid()
      ensures nodes == Served(View(), layout.hashKey(key), count)
      ensures 0 <= count <= |hashRing.Values| ==> |nodes| == count
      ensures count > |hashRing.Values| ==> |nodes| == |hashRing.Values|
    {
      ghost var w := Walk(sortedHashes, layout.hashKey(key));
      ghost var owners := Owners(View(), w);
      OrderReachesEveryNode(View(), layout.hashKey(key));
      if |sortedHashes| == 0 || count <= 0 {
        EmptyRingHasNoNodes();
        return [];
      }
      var idx := Search(layout.hashKey(key));
      var unique := GetUniqueNodes();
      OwnersOfWalk(View(), idx);
      nodes := Collect(hashRing, sortedHashes, idx, count, |unique|, owners);
    }

    lemma EmptyRingHasNoNodes()
      requires Valid()
      ensures sortedHashes == [] ==> |hashRing.Values| == 0
    {
      if sortedHashes == [] {
        assert hashRing == map[];
        assert hashRing.Values == {};
      }
    }

    method GetLoadDistribution() returns (distribution: map<string, real>)
      requires Valid()
      ensures if sortedHashes == [] then distribution == map[] else ExactShares(View(), distribution)
    {
      if |sortedHashes| == 0 {
        return map[];
      }
      var unique := GetUniqueNodes();
      distribution := map n | n in unique :: 0.0;
      ghost var zeros := distribution;
      distribution := AddArcs(distribution);
      SharesAreExact(View(), zeros);
    }

    /** The loop of GetLoadDistribution over the arcs. */
    method AddArcs(zeros: map<string, real>) returns (distribution: map<string, real>)
      requires Valid()
      ensures distribution == Shares(View(), zeros, |sortedHashes|)
    {
      distribution := zeros;
      var i := 0;
      while i < |sortedHashes|
        invariant i <= |sortedHashes| && distribution == Shares(View(), zeros, i)
      {
        var spaceSize: nat := if i == 0 then sortedHashes[0] as int + (HASH_SPACE - Last(sortedHashes))
                              else sortedHashes[i] as int - sortedHashes[i - 1];
        var node := if sortedHashes[i] in hashRing then hashRing[sortedHashes[i]] else "";
        assert spaceSize == Arc(sortedHashes, i) && node == NodeAt(View(), sortedHashes[i]);
        distribution := Credited(distribution, node, spaceSize);
        i := i + 1;
      }
      assert i == |sortedHashes|;
    }
  }

  lemma NamesOfSnoc(s: seq<string>, n: string)
    ensures Names(s + [n]) == Names(s) + {n}
  {
  }
}
