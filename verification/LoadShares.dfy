/** How much of the hash space each node is responsible for. */
module LoadShares {
  import opened HashRing

  /** The hash values in [lo, hi) that the given node serves. */
  function Owned(r: Ring, node: string, lo: int, hi: int): set<Hash> {
    set x: Hash | lo <= x < hi && Owner(r, x) == node
  }

  lemma OwnedSplit(r: Ring, node: string, lo: int, mid: int, hi: int)
    requires lo <= mid <= hi
    ensures |Owned(r, node, lo, hi)| == |Owned(r, node, lo, mid)| + |Owned(r, node, mid, hi)|
  {
    assert Owned(r, node, lo, hi) == Owned(r, node, lo, mid) + Owned(r, node, mid, hi);
  }

  lemma {:induction false} OwnedUniform(r: Ring, node: string, lo: int, hi: int, who: string)
    requires 0 <= lo <= hi <= HASH_SPACE
    requires forall x: Hash | lo <= x < hi :: Owner(r, x) == who
    ensures |Owned(r, node, lo, hi)| == if who == node then hi - lo else 0
    decreases hi - lo
  {
    if lo < hi {
      OwnedUniform(r, node, lo, hi - 1, who);
      assert Owned(r, node, lo, hi) == Owned(r, node, lo, hi - 1) + if who == node then {hi - 1} else {};
    } else {
      assert Owned(r, node, lo, hi) == {};
    }
  }

  /** Length of the arc that ends at point i; the first arc wraps around. */
  function Arc(s: seq<Hash>, i: nat): nat
    requires Sorted(s) && i < |s|
  {
    if i == 0 then s[0] as int + (HASH_SPACE - s[|s| - 1]) else s[i] as int - s[i - 1]
  }

  /** What the first i arcs give to the node. */
  function Covered(r: Ring, node: string, i: nat): nat
    requires i <= |r.points|
  {
    if i == 0 then 0
    else |Owned(r, node, 0, r.points[i - 1] as int + 1)| + |Owned(r, node, r.points[|r.points| - 1] as int + 1, HASH_SPACE)|
  }

  lemma ArcOwner(r: Ring, i: nat, x: Hash)
    requires Sorted(r.points) && i < |r.points| && x <= r.points[i]
    requires i > 0 ==> r.points[i - 1] < x
    ensures Owner(r, x) == NodeAt(r, r.points[i])
  {
    var k := LowerBound(r.points, x);
    assert k == i;
  }

  lemma FirstArc(r: Ring, node: string)
    requires Sorted(r.points) && r.points != []
    ensures Covered(r, node, 1) == if NodeAt(r, r.points[0]) == node then Arc(r.points, 0) else 0
  {
    var s, who := r.points, NodeAt(r, r.points[0]);
    var last: int := s[|s| - 1];
    forall x: Hash | x < s[0] as int + 1
      ensures Owner(r, x) == who
    {
      ArcOwner(r, 0, x);
    }
    OwnedUniform(r, node, 0, s[0] as int + 1, who);
    forall x: Hash | last + 1 <= x
      ensures Owner(r, x) == who
    {
      assert LowerBound(s, x) == |s|;
    }
    OwnedUniform(r, node, last + 1, HASH_SPACE, who);
  }

  lemma InnerArc(r: Ring, node: string, i: nat)
    requires Sorted(r.points) && 0 < i < |r.points|
    ensures |Owned(r, node, r.points[i - 1] as int + 1, r.points[i] as int + 1)| ==
            if NodeAt(r, r.points[i]) == node then Arc(r.points, i) else 0
  {
    var lo: int, hi: int := r.points[i - 1] as int + 1, r.points[i] as int + 1;
    forall x: Hash | lo <= x < hi
      ensures Owner(r, x) == NodeAt(r, r.points[i])
    {
      ArcOwner(r, i, x);
    }
    OwnedUniform(r, node, lo, hi, NodeAt(r, r.points[i]));
  }

  lemma CoveredUpTo(r: Ring, node: string, i: nat, top: int)
    requires 0 < i <= |r.points| && top == r.points[i - 1] as int + 1
    ensures Covered(r, node, i) ==
            |Owned(r, node, 0, top)| + |Owned(r, node, r.points[|r.points| - 1] as int + 1, HASH_SPACE)|
  {
  }

  lemma CoveredStep(r: Ring, node: string, i: nat)
    requires Sorted(r.points) && i < |r.points|
    ensures Covered(r, node, i + 1) ==
            Covered(r, node, i) + if NodeAt(r, r.points[i]) == node then Arc(r.points, i) else 0
  {
    if i == 0 {
      FirstArc(r, node);
    } else {
      var lo: int, hi: int := r.points[i - 1] as int + 1, r.points[i] as int + 1;
      CoveredUpTo(r, node, i, lo);
      CoveredUpTo(r, node, i + 1, hi);
      OwnedSplit(r, node, 0, lo, hi);
      InnerArc(r, node, i);
    }
  }

  /** Total length of the arcs among the first i that belong to the node. */
  function ArcsOf(r: Ring, node: string, i: nat): nat
    requires Sorted(r.points) && i <= |r.points|
  {
    if i == 0 then 0
    else ArcsOf(r, node, i - 1) + if NodeAt(r, r.points[i - 1]) == node then Arc(r.points, i - 1) else 0
  }

  lemma {:induction false} ArcsAreCovered(r: Ring, node: string, i: nat)
    requires Sorted(r.points) && i <= |r.points|
    ensures ArcsOf(r, node, i) == Covered(r, node, i)
  {
    if i > 0 {
      var k := i - 1;
      ArcsAreCovered(r, node, k);
      CoveredStep(r, node, k);
      assert ArcsOf(r, node, k + 1) ==
             ArcsOf(r, node, k) + if NodeAt(r, r.points[k]) == node then Arc(r.points, k) else 0;
    }
  }

  /** The arcs of a node are as long, together, as the set of hash values it serves is large. */
  lemma ArcsCoverOwned(r: Ring, node: string)
    requires Sorted(r.points) && r.points != []
    ensures ArcsOf(r, node, |r.points|) == |Owned(r, node, 0, HASH_SPACE)|
  {
    ArcsAreCovered(r, node, |r.points|);
    OwnedSplit(r, node, 0, r.points[|r.points| - 1] as int + 1, HASH_SPACE);
  }

  // ----- Sums over a distribution -----

  ghost function Sum(m: map<string, real>): real
    decreases |m|
  {
    if m == map[] then 0.0 else var k :| k in m; m[k] + Sum(m - {k})
  }

  lemma {:induction false} SumStep(m: map<string, real>, k: string)
    requires k in m
    ensures Sum(m) == m[k] + Sum(m - {k})
    decreases |m|
  {
    var first :| first in m && Sum(m) == m[first] + Sum(m - {first});
    if first != k {
      SumStep(m - {first}, k);
      SumStep(m - {k}, first);
      assert m - {first} - {k} == m - {k} - {first};
    }
  }

  lemma SumUpdate(m: map<string, real>, k: string, v: real)
    ensures Sum(m[k := v]) == Sum(m) - (if k in m then m[k] else 0.0) + v
  {
    var n := m[k := v];
    SumStep(n, k);
    assert n - {k} == m - {k};
    if k in m {
      SumStep(m, k);
    } else {
      assert m - {k} == m;
    }
  }

  lemma {:induction false} SumOfZeros(m: map<string, real>)
    requires forall k | k in m :: m[k] == 0.0
    ensures Sum(m) == 0.0
    decreases |m|
  {
    if m != map[] {
      var k :| k in m;
      SumStep(m, k);
      SumOfZeros(m - {k});
    }
  }
}
