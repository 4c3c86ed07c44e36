/** Hash range allocation for new shards and the overlap validator. */
module HashRanges {

  import HashRing

  const MAX_HASH: int := 0xFFFF_FFFF
  const TWO_32: int := HashRing.HASH_SPACE

  type Uint32 = HashRing.Hash

  datatype HashRange = HashRange(start: Uint32, end: Uint32)

  predicate Contains(r: HashRange, hash: int) {
    r.start <= hash <= r.end
  }

  /** The size as the code computes it, in uint32 arithmetic. */
  function Size(r: HashRange): int {
    (r.end - r.start + 1) % TWO_32
  }

  predicate Between(lo: int, h: int, hi: int) {
    lo <= h <= hi
  }

  function Interval(lo: int, hi: int): set<int> {
    set h | lo <= h <= hi && Between(lo, h, hi)
  }

  function Values(r: HashRange): set<int> {
    Interval(r.start, r.end)
  }

  lemma {:induction false} IntervalSize(lo: int, hi: int)
    requires lo <= hi + 1
    ensures |Interval(lo, hi)| == hi - lo + 1
    decreases hi - lo + 1
  {
    if lo <= hi {
      var rest := Interval(lo, hi - 1);
      IntervalSize(lo, hi - 1);
      assert hi !in rest;
      assert Interval(lo, hi) == rest + {hi};
    } else {
      assert Interval(lo, hi) == {};
    }
  }

  /** Size is the number of values in the range exactly when the range is not the whole hash space, for which the
      addition wraps to zero. */
  lemma SizeWrapsOnFullRange(r: HashRange)
    requires r.start <= r.end
    ensures Size(r) == |Values(r)| <==> !(r.start == 0 && r.end == MAX_HASH)
  {
    IntervalSize(r.start, r.end);
  }

  // ----- Allocation -----

  /** Uint32 arithmetic, with its wrap-around. The new shard is always the last one, so its range always ends at
      the largest value. */
  function RangeForNewShard(existing: nat): HashRange
    requires existing + 1 < TWO_32
  {
    var totalShards := existing + 1;
    var rangeSize := MAX_HASH / totalShards;
    var start := existing * rangeSize % TWO_32;
    HashRange(start, MAX_HASH)
  }

  lemma Quotient(n: nat)
    ensures var q := MAX_HASH / (n + 1); 0 <= MAX_HASH - n * q - q <= n && 0 <= MAX_HASH - (n + 1) * q < n + 1
  {
    var q := MAX_HASH / (n + 1);
    assert MAX_HASH == (n + 1) * q + MAX_HASH % (n + 1);
    assert (n + 1) * q == n * q + q;
  }

  /** The start never wraps, the last value is always in the range, and its size is within n of q + 1. */
  lemma NewRangeIsLastShare(n: nat)
    requires n + 1 < TWO_32
    ensures var r, q := RangeForNewShard(n), MAX_HASH / (n + 1);
            && r.start == n * q && r.start <= r.end == MAX_HASH
            && Contains(r, MAX_HASH)
            && q + 1 <= |Values(r)| <= q + n + 1
  {
    var q := MAX_HASH / (n + 1);
    Quotient(n);
    assert 0 <= n * q;
    var r := RangeForNewShard(n);
    assert r.start == n * q;
    IntervalSize(r.start, r.end);
  }

  lemma CancelFactor(k: int, a: int, b: int)
    requires k > 0 && k * a > k * b
    ensures a > b
  {
    assert k * (a - b) > 0;
  }

  lemma CrossMultiply(n: int, q: int, p: int)
    ensures n * (n + 1) * (q - p) == (n + 1) * (n * q) - n * ((n + 1) * p)
  {
  }

  lemma CrossIdentity(n: int, m: int, a: int, b: int)
    ensures (n + 1) * a - n * b == (n + 1) * (a - (m - n + 1)) + n * (m - b) + (m - n * n + 1)
  {
  }

  lemma NonNegativeProduct(x: int, y: int)
    requires x >= 0 && y >= 0
    ensures x * y >= 0
  {
  }

  lemma CrossBound(n: int, m: int, a: int, b: int)
    requires n > 0 && a >= m - n + 1 && b <= m
    ensures (n + 1) * a - n * b >= m - n * n + 1
  {
    CrossIdentity(n, m, a, b);
    NonNegativeProduct(n + 1, a - (m - n + 1));
    NonNegativeProduct(n, m - b);
  }

  lemma CubeGap(n: int, m: int)
    requires n > 0 && (n + 1) * (n + 1) * (n + 1) <= m
    ensures m - n * n + 1 > n * (n + 1) * (n - 1)
  {
    assert (n + 1) * (n + 1) * (n + 1) == n * n * n + 3 * (n * n) + 3 * n + 1;
    assert n * (n + 1) * (n - 1) == n * n * n - n;
  }

  lemma QuotientDrops(n: int, m: int, q: int, p: int)
    requires n > 0 && m - n * q < n && (n + 1) * p <= m
    requires (n + 1) * (n + 1) * (n + 1) <= m
    ensures q - p >= n
  {
    CrossMultiply(n, q, p);
    CrossBound(n, m, n * q, (n + 1) * p);
    CubeGap(n, m);
    CancelFactor(n * (n + 1), q - p, n - 1);
  }

  lemma StartsGrow(n: nat, m: int, q: int, p: int)
    requires n > 0 && 0 <= m - n * q < n && 0 <= m - (n + 1) * p < n + 1
    requires (n + 1) * (n + 1) * (n + 1) <= m
    ensures (n - 1) * q <= n * p
  {
    QuotientDrops(n, m, q, p);
    assert (n - 1) * q == n * q - q;
    assert (n + 1) * p == n * p + p;
  }

  /** While the cube of the shard count fits, each new range lies inside the one before it. */
  lemma NewRangeIsNested(n: nat)
    requires n > 0 && (n + 1) * (n + 1) * (n + 1) <= MAX_HASH
    ensures n + 1 < TWO_32
    ensures RangeForNewShard(n - 1).start <= RangeForNewShard(n).start
    ensures Values(RangeForNewShard(n)) <= Values(RangeForNewShard(n - 1))
  {
    CubeBound(n + 1);
    NewRangeIsLastShare(n - 1);
    NewRangeIsLastShare(n);
    var q, p := MAX_HASH / n, MAX_HASH / (n + 1);
    Quotient(n - 1);
    Quotient(n);
    StartsGrow(n, MAX_HASH, q, p);
  }

  lemma CubeBound(n: nat)
    requires n * n * n <= MAX_HASH
    ensures n < TWO_32
  {
    if n > 0 {
      assert n * n >= n;
      assert n * n * n >= n * n;
    }
  }

  // ----- Validation -----

  predicate Sorted(s: seq<HashRange>) {
    forall i, j | 0 <= i < j < |s| :: s[i].start <= s[j].start
  }

  ghost predicate Disjoint(a: HashRange, b: HashRange) {
    forall h: int :: !(Contains(a, h) && Contains(b, h))
  }

  ghost predicate PairwiseDisjoint(s: seq<HashRange>) {
    forall i, j | 0 <= i < j < |s| :: Disjoint(s[i], s[j])
  }

  /** Position p comes before position q when the list is sorted by start and ties keep their order. */
  predicate Before(s: seq<HashRange>, p: nat, q: nat)
    requires p < |s| && q < |s|
  {
    s[p].start < s[q].start || (s[p].start == s[q].start && p < q)
  }

  /** What the validator accepts, for every list, ranges with start after end included. */
  predicate Acceptable(s: seq<HashRange>) {
    forall p, q | 0 <= p < |s| && 0 <= q < |s| && Before(s, p, q) :: s[p].end < s[q].start
  }

  /** The array holds the ranges of s in the order given by perm, and ranges with equal starts keep their order. */
  ghost predicate Permuted(s: seq<HashRange>, a: seq<HashRange>, perm: seq<nat>) {
    && |a| == |perm| == |s|
    && (forall i | 0 <= i < |s| :: perm[i] < |s| && a[i] == s[perm[i]])
    && (forall i, j | 0 <= i < j < |s| :: perm[i] != perm[j])
    && (forall i, j | 0 <= i < j < |s| && a[i].start == a[j].start :: perm[i] < perm[j])
  }

  function Swap<T>(s: seq<T>, j: nat): seq<T>
    requires j + 1 < |s|
  {
    s[j := s[j + 1]][j + 1 := s[j]]
  }

  lemma SwapKeepsPermuted(s: seq<HashRange>, a: seq<HashRange>, perm: seq<nat>, j: nat)
    requires Permuted(s, a, perm) && j + 1 < |a| && a[j].start > a[j + 1].start
    ensures Permuted(s, Swap(a, j), Swap(perm, j))
  {
  }

  /** The ranges after position k are in place: no range before them starts later. */
  ghost predicate Settled(a: seq<HashRange>, k: int) {
    forall i, j | 0 <= i < j < |a| && j >= k :: a[i].start <= a[j].start
  }

  /** State of an inner pass that bubbles the latest start up to position j. */
  ghost predicate Bubbling(s: seq<HashRange>, a: seq<HashRange>, perm: seq<nat>, k: int, j: nat) {
    && Permuted(s, a, perm) && Settled(a, k)
    && j < |a| && forall x | 0 <= x < j :: a[x].start <= a[j].start
  }

  lemma BubbleStep(s: seq<HashRange>, a: seq<HashRange>, perm: seq<nat>, k: int, j: nat)
    requires Bubbling(s, a, perm, k, j) && j + 1 < k <= |a|
    ensures if a[j].start > a[j + 1].start then Bubbling(s, Swap(a, j), Swap(perm, j), k, j + 1)
            else Bubbling(s, a, perm, k, j + 1)
  {
    if a[j].start > a[j + 1].start {
      SwapKeepsPermuted(s, a, perm, j);
      SwapKeepsSettled(a, j, k);
    }
  }

  lemma PassSettles(s: seq<HashRange>, a: seq<HashRange>, perm: seq<nat>, k: nat)
    requires 0 < k <= |a| && Bubbling(s, a, perm, k, k - 1)
    ensures Settled(a, k - 1)
  {
  }

  method SwapNeighbours(a: array<HashRange>, j: nat)
    requires j + 1 < a.Length
    modifies a
    ensures a[..] == Swap(old(a[..]), j)
  {
    a[j], a[j + 1] := a[j + 1], a[j];
  }

  /** The inner loop: bubbles the latest start among the first k ranges up to position k - 1. */
  method BubblePass(a: array<HashRange>, k: nat, ghost s: seq<HashRange>, ghost perm0: seq<nat>) returns (ghost perm: seq<nat>)
    requires 0 < k <= a.Length && Permuted(s, a[..], perm0) && Settled(a[..], k)
    modifies a
    ensures Permuted(s, a[..], perm) && Settled(a[..], k - 1)
  {
    perm := perm0;
    var j := 0;
    while j < k - 1
      invariant 0 <= j <= k - 1 && Bubbling(s, a[..], perm, k, j)
    {
      BubbleStep(s, a[..], perm, k, j);
      if a[j].start > a[j + 1].start {
        SwapNeighbours(a, j);
        perm := Swap(perm, j);
      }
      j := j + 1;
    }
    PassSettles(s, a[..], perm, k);
  }

  /** Bubble sort in place. */
  method BubbleSort(a: array<HashRange>) returns (ghost perm: seq<nat>)
    requires a.Length > 0
    modifies a
    ensures Sorted(a[..]) && Permuted(old(a[..]), a[..], perm)
  {
    ghost var s := a[..];
    perm := seq(a.Length, i => i);
    var i := 0;
    while i < a.Length - 1
      invariant 0 <= i <= a.Length - 1
      invariant Permuted(s, a[..], perm) && Settled(a[..], a.Length - i)
    {
      perm := BubblePass(a, a.Length - i, s, perm);
      i := i + 1;
    }
  }

  lemma SwapKeepsSettled(a: seq<HashRange>, j: nat, k: int)
    requires Settled(a, k) && j + 1 < k <= |a|
    ensures Settled(Swap(a, j), k)
  {
  }

  /** The adjacent check: all links hold, or the first broken one. */
  method FindOverlap(a: array<HashRange>) returns (ok: bool, ghost at: nat)
    requires a.Length > 0
    ensures ok ==> forall k | 0 <= k < a.Length - 1 :: a[k].end < a[k + 1].start
    ensures !ok ==> at + 1 < a.Length && a[at].end >= a[at + 1].start
  {
    at := 0;
    var i := 0;
    while i < a.Length - 1
      invariant 0 <= i <= a.Length - 1
      invariant forall k | 0 <= k < i :: a[k].end < a[k + 1].start
    {
      if a[i].end >= a[i + 1].start {
        return false, i;
      }
      i := i + 1;
    }
    ok := true;
  }

  method Copy(ranges: array<HashRange>) returns (copy: array<HashRange>)
    requires ranges.Length > 0
    ensures fresh(copy) && copy[..] == ranges[..]
  {
    copy := new HashRange[ranges.Length](_ => HashRange(0, 0));
    for i := 0 to ranges.Length
      invariant copy[..i] == ranges[..i]
    {
      copy[i] := ranges[i];
    }
    assert copy[..ranges.Length] == copy[..] && ranges[..ranges.Length] == ranges[..];
  }

  /** Accepts or rejects; the given array is left as it was. */
  method ValidateHashRanges(ranges: array<HashRange>) returns (ok: bool)
    ensures ok <==> Acceptable(ranges[..])
  {
    if ranges.Length <= 1 {
      return true;
    }
    var sortedRanges := Copy(ranges);
    ghost var perm := BubbleSort(sortedRanges);
    ghost var at;
    ok, at := FindOverlap(sortedRanges);
    if ok {
      ChainAccepts(ranges[..], sortedRanges[..], perm);
    } else {
      OverlapRejects(ranges[..], sortedRanges[..], perm, at);
    }
  }

  lemma OverlapRejects(s: seq<HashRange>, a: seq<HashRange>, perm: seq<nat>, i: nat)
    requires Permuted(s, a, perm) && Sorted(a) && i + 1 < |a| && a[i].end >= a[i + 1].start
    ensures !Acceptable(s)
  {
    assert Before(s, perm[i], perm[i + 1]);
  }

  lemma ChainBounds(a: seq<HashRange>, i: nat, j: nat)
    requires Sorted(a) && i < j < |a| && forall k | 0 <= k < |a| - 1 :: a[k].end < a[k + 1].start
    ensures a[i].end < a[j].start
  {
    assert a[i].end < a[i + 1].start;
    assert i + 1 < j ==> a[i + 1].start <= a[j].start;
  }

  function Image(perm: seq<nat>, k: nat): set<int>
    requires k <= |perm|
  {
    set i | 0 <= i < k :: perm[i]
  }

  lemma {:induction false} ImageSize(perm: seq<nat>, k: nat)
    requires k <= |perm| && forall i, j | 0 <= i < j < |perm| :: perm[i] != perm[j]
    ensures |Image(perm, k)| == k
  {
    if k > 0 {
      ImageSize(perm, k - 1);
      assert Image(perm, k) == Image(perm, k - 1) + {perm[k - 1] as int};
    }
  }

  lemma SubsetOfSameSize(a: set<int>, b: set<int>)
    requires a <= b && |a| == |b|
    ensures a == b
  {
    assert b == a + (b - a);
  }

  /** A permutation reaches every position. */
  lemma PermutationHits(perm: seq<nat>, p: nat)
    requires p < |perm| && forall i | 0 <= i < |perm| :: perm[i] < |perm|
    requires forall i, j | 0 <= i < j < |perm| :: perm[i] != perm[j]
    ensures p in perm
  {
    ImageSize(perm, |perm|);
    IntervalSize(0, |perm| - 1);
    SubsetOfSameSize(Image(perm, |perm|), Interval(0, |perm| - 1));
    assert p in Image(perm, |perm|);
  }

  lemma ChainAccepts(s: seq<HashRange>, a: seq<HashRange>, perm: seq<nat>)
    requires Permuted(s, a, perm) && Sorted(a) && forall k | 0 <= k < |a| - 1 :: a[k].end < a[k + 1].start
    ensures Acceptable(s)
  {
    forall p, q | 0 <= p < |s| && 0 <= q < |s| && Before(s, p, q)
      ensures s[p].end < s[q].start
    {
      PermutationHits(perm, p);
      PermutationHits(perm, q);
      var i :| 0 <= i < |perm| && perm[i] == p;
      var j :| 0 <= j < |perm| && perm[j] == q;
      ChainBounds(a, i, j);
    }
  }

  /** An accepted list is pairwise disjoint; when no range is inverted, exactly the pairwise disjoint lists are
      accepted. */
  lemma AcceptsExactlyDisjoint(s: seq<HashRange>)
    ensures Acceptable(s) ==> PairwiseDisjoint(s)
    ensures (forall r | r in s :: r.start <= r.end) ==> (Acceptable(s) <==> PairwiseDisjoint(s))
  {
    if Acceptable(s) {
      forall i, j | 0 <= i < j < |s|
        ensures Disjoint(s[i], s[j])
      {
        assert Before(s, i, j) || Before(s, j, i);
      }
    }
    if PairwiseDisjoint(s) && forall r | r in s :: r.start <= r.end {
      forall p, q | 0 <= p < |s| && 0 <= q < |s| && Before(s, p, q)
        ensures s[p].end < s[q].start
      {
        assert s[p] in s && s[q] in s;
        assert Disjoint(s[p], s[q]) || Disjoint(s[q], s[p]);
        assert !(Contains(s[p], s[q].start) && Contains(s[q], s[q].start));
      }
    }
  }

  /** Without inverted ranges, in bounds: of any two accepted ranges one ends before the other starts. */
  lemma AcceptsInBounds(s: seq<HashRange>)
    requires forall i | 0 <= i < |s| :: s[i].start <= s[i].end
    ensures Acceptable(s) <==> forall i, j | 0 <= i < j < |s| :: s[i].end < s[j].start || s[j].end < s[i].start
  {
    if Acceptable(s) {
      forall i, j | 0 <= i < j < |s|
        ensures s[i].end < s[j].start || s[j].end < s[i].start
      {
        assert Before(s, i, j) || Before(s, j, i);
      }
    }
  }

  /** An inverted range is empty, yet a list that holds one can be rejected with no overlap in it. */
  lemma InvertedRangeCanBeRejected()
    ensures var s := [HashRange(4, 10), HashRange(5, 3)]; PairwiseDisjoint(s) && !Acceptable(s)
  {
    var s := [HashRange(4, 10), HashRange(5, 3)];
    assert Before(s, 0, 1);
    assert forall h :: !Contains(s[1], h);
  }

  /** Any two ranges that the allocator hands out overlap, so the validator rejects every list holding two. */
  lemma AllocatedRangesAreRejected(s: seq<HashRange>, i: nat, j: nat, n: nat, m: nat)
    requires i < j < |s| && n + 1 < TWO_32 && m + 1 < TWO_32
    requires s[i] == RangeForNewShard(n) && s[j] == RangeForNewShard(m)
    ensures !Disjoint(s[i], s[j]) && !Acceptable(s)
  {
    NewRangeIsLastShare(n);
    NewRangeIsLastShare(m);
    assert Contains(s[i], MAX_HASH) && Contains(s[j], MAX_HASH);
    AcceptsExactlyDisjoint(s);
  }
}
