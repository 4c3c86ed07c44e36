/** Which points of the ring a node asks for, and the ring that a list of nodes builds from nothing. */
module RingLayout {
  import opened HashRing
  import opened FailoverOrder
  import opened Sequences

  function Decimal(n: nat): string {
    if n < 10 then [('0' as int + n) as char] else Decimal(n / 10) + [('0' as int + n % 10) as char]
  }

  /** The key that is hashed for virtual node i. */
  function VirtualKey(node: string, i: nat): string {
    node + ":" + Decimal(i)
  }

  lemma {:induction false} DecimalDigits(n: nat)
    ensures Decimal(n) != [] && forall c | c in Decimal(n) :: '0' <= c <= '9'
  {
    if n >= 10 {
      DecimalDigits(n / 10);
    }
  }

  lemma {:induction false} DecimalDiffers(m: nat, n: nat)
    ensures Decimal(m) == Decimal(n) <==> m == n
  {
    if m >= 10 && n >= 10 {
      DecimalDiffers(m / 10, n / 10);
      LastDigit(m);
      LastDigit(n);
    } else if m >= 10 {
      DecimalDigits(m / 10);
    } else if n >= 10 {
      DecimalDigits(n / 10);
    }
  }

  lemma LastDigit(n: nat)
    requires n >= 10
    ensures Decimal(n)[..|Decimal(n)| - 1] == Decimal(n / 10)
    ensures Decimal(n)[|Decimal(n)| - 1] as int - '0' as int == n % 10
  {
  }

  /** Different nodes and different indices have different keys, so only the hash can make their points meet. */
  lemma VirtualKeysDiffer(a: string, i: nat, b: string, j: nat)
    ensures VirtualKey(a, i) == VirtualKey(b, j) <==> a == b && i == j
  {
    DecimalDigits(i);
    DecimalDigits(j);
    DecimalDiffers(i, j);
    JoinSeparates(a, Decimal(i), ':', b, Decimal(j));
  }

  /** The form of a key. */
  lemma VirtualKeyForm()
    ensures VirtualKey("shard-1", 0) == "shard-1:0" && VirtualKey("a", 12) == "a:12"
  {
    assert Decimal(1) == "1" && Decimal(12) == "12";
  }

  /** The hash function is a parameter; nothing is assumed about it. */
  datatype Layout = Layout(hashKey: string -> Hash, replicas: int)
  {
    function PointsUpTo(node: string, k: nat): (pts: seq<Hash>)
      ensures |pts| == k
    {
      if k == 0 then [] else PointsUpTo(node, k - 1) + [hashKey(VirtualKey(node, k - 1))]
    }

    function Points(node: string): seq<Hash> {
      PointsUpTo(node, if replicas < 0 then 0 else replicas)
    }
  }

  /** The points of a node are the hashes of its keys in turn. */
  lemma {:induction false} PointsAre(l: Layout, node: string, k: nat, i: nat)
    requires i < k
    ensures l.PointsUpTo(node, k)[i] == l.hashKey(VirtualKey(node, i))
    ensures |l.Points(node)| == if l.replicas < 0 then 0 else l.replicas
  {
    if i < k - 1 {
      PointsAre(l, node, k - 1, i);
    }
  }

  /** No two different nodes of the set share a hash. */
  predicate NoSharedHash(l: Layout, nodes: set<string>) {
    forall a, b | a in nodes && b in nodes && a != b :: PointSet(l.Points(a)) !! PointSet(l.Points(b))
  }

  /** The ring holds exactly the points of the given nodes, each with the right owner and the right count. */
  predicate Canonical(l: Layout, nodes: set<string>, r: Ring) {
    && Consistent(r)
    && (forall n | n in nodes :: Owns(r, n, l.Points(n)))
    && (forall p | p in r.points :: NodeAt(r, p) in nodes && p in l.Points(NodeAt(r, p)))
  }

  lemma CanonicalPoint(l: Layout, nodes: set<string>, r: Ring, n: string, p: Hash)
    requires Canonical(l, nodes, r) && n in nodes
    ensures p in l.Points(n) <==> p in r.points && NodeAt(r, p) == n
    ensures p in l.Points(n) ==> p in r.nodes && multiset(r.points)[p] == multiset(l.Points(n))[p]
  {
    assert Owns(r, n, l.Points(n));
  }

  lemma CanonicalSeparates(l: Layout, nodes: set<string>, r: Ring)
    requires Canonical(l, nodes, r)
    ensures NoSharedHash(l, nodes) && Complete(r)
  {
    forall a, b, p: Hash | a in nodes && b in nodes && a != b
      ensures !(p in l.Points(a) && p in l.Points(b))
    {
      CanonicalPoint(l, nodes, r, a, p);
      CanonicalPoint(l, nodes, r, b, p);
    }
    forall p | p in r.points
      ensures p in r.nodes
    {
      CanonicalPoint(l, nodes, r, NodeAt(r, p), p);
    }
  }

  lemma CanonicalAgree(l: Layout, nodes: set<string>, r: Ring, q: Ring, p: Hash)
    requires Canonical(l, nodes, r) && Canonical(l, nodes, q) && p in r.points
    ensures p in q.points && NodeAt(q, p) == NodeAt(r, p)
    ensures multiset(r.points)[p] == multiset(q.points)[p]
  {
    CanonicalPoint(l, nodes, r, NodeAt(r, p), p);
    CanonicalPoint(l, nodes, q, NodeAt(r, p), p);
  }

  lemma SameRing(r: Ring, q: Ring)
    requires Consistent(r) && Consistent(q) && Complete(r) && Complete(q)
    requires forall p: Hash :: multiset(r.points)[p] == multiset(q.points)[p]
    requires forall p | p in r.points :: NodeAt(q, p) == NodeAt(r, p)
    ensures r == q
  {
    assert multiset(r.points) == multiset(q.points);
    SortedUnique(r.points, q.points);
    forall p: Hash
      ensures p in r.nodes <==> p in q.nodes
      ensures p in r.nodes ==> r.nodes[p] == q.nodes[p]
    {
    }
    assert r.nodes == q.nodes;
  }

  /** A set of nodes has at most one canonical ring. */
  lemma CanonicalUnique(l: Layout, nodes: set<string>, r: Ring, q: Ring)
    requires Canonical(l, nodes, r) && Canonical(l, nodes, q)
    ensures r == q
  {
    CanonicalSeparates(l, nodes, r);
    CanonicalSeparates(l, nodes, q);
    forall p: Hash
      ensures multiset(r.points)[p] == multiset(q.points)[p]
      ensures p in r.points ==> NodeAt(q, p) == NodeAt(r, p)
    {
      if p in r.points {
        CanonicalAgree(l, nodes, r, q, p);
      } else if p in q.points {
        CanonicalAgree(l, nodes, q, r, p);
      } else {
        assert p !in multiset(r.points) && p !in multiset(q.points);
      }
    }
    SameRing(r, q);
  }

  /** On a canonical ring the nodes of the map are the nodes of the set. */
  lemma CanonicalValues(l: Layout, nodes: set<string>, r: Ring)
    requires Canonical(l, nodes, r) && l.replicas > 0
    ensures r.nodes.Values == nodes
  {
    forall n | n in nodes
      ensures n in r.nodes.Values
    {
      ValueOfNode(l, nodes, r, n);
    }
    forall h | h in r.nodes
      ensures r.nodes[h] in nodes
    {
      assert NodeAt(r, h) in nodes;
    }
  }

  lemma ValueOfNode(l: Layout, nodes: set<string>, r: Ring, n: string)
    requires Canonical(l, nodes, r) && l.replicas > 0 && n in nodes
    ensures n in r.nodes.Values
  {
    var p := l.Points(n)[0];
    CanonicalPoint(l, nodes, r, n, p);
    assert r.nodes[p] == n;
  }
}
