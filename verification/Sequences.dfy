/** Small facts about sequences and numbers that several modules use. */
module Sequences {

  function Front<T>(s: seq<T>): seq<T>
    requires s != []
  {
    s[..|s| - 1]
  }

  function Last<T>(s: seq<T>): T
    requires s != []
  {
    s[|s| - 1]
  }

  predicate NoDuplicates<T(==)>(s: seq<T>) {
    forall i, j | 0 <= i < j < |s| :: s[i] != s[j]
  }

  /** The list without the given elements, in the same order. */
  function Rest<T(==)>(list: seq<T>, gone: seq<T>): seq<T> {
    if list == [] then []
    else if list[0] in gone then Rest(list[1..], gone)
    else [list[0]] + Rest(list[1..], gone)
  }

  predicate Apart<T(==)>(a: seq<T>, b: seq<T>) {
    forall r | r in a :: r !in b
  }

  lemma {:induction false} RestElements<T>(list: seq<T>, gone: seq<T>)
    ensures forall r :: r in Rest(list, gone) <==> r in list && r !in gone
    ensures NoDuplicates(list) ==> NoDuplicates(Rest(list, gone))
  {
    if list != [] {
      RestElements(list[1..], gone);
      assert list == [list[0]] + list[1..];
      assert NoDuplicates(list) ==> NoDuplicates(list[1..]) && list[0] !in list[1..];
    }
  }

  lemma {:induction false} RestOfNone<T>(list: seq<T>, gone: seq<T>)
    requires Apart(list, gone)
    ensures Rest(list, gone) == list
  {
    if list != [] {
      RestOfNone(list[1..], gone);
    }
  }

  lemma {:induction false} RestConcat<T>(a: seq<T>, b: seq<T>, gone: seq<T>)
    ensures Rest(a + b, gone) == Rest(a, gone) + Rest(b, gone)
  {
    if a == [] {
      assert a + b == b;
    } else {
      RestConcat(a[1..], b, gone);
      assert (a + b)[1..] == a[1..] + b;
      if a[0] !in gone {
        Associate([a[0]], Rest(a[1..], gone), Rest(b, gone));
      }
    }
  }

  lemma {:induction false} RestTwice<T>(all: seq<T>, gone: seq<T>, x: T)
    ensures Rest(Rest(all, gone), [x]) == Rest(all, gone + [x])
  {
    if all != [] {
      RestTwice(all[1..], gone, x);
    }
  }

  lemma RestOfSplit<T>(a: seq<T>, x: T, b: seq<T>)
    requires Apart(a, [x]) && Apart(b, [x])
    ensures Rest(a + [x] + b, [x]) == a + b
  {
    RestOfNone(a, [x]);
    RestOfNone(b, [x]);
    RestConcat(a, [x], [x]);
    RestConcat(a + [x], b, [x]);
  }

  lemma SplitApart<T>(list: seq<T>, i: nat)
    requires NoDuplicates(list) && i < |list|
    ensures Apart(list[..i], [list[i]]) && Apart(list[i + 1..], [list[i]])
    ensures list == list[..i] + [list[i]] + list[i + 1..]
  {
  }

  /** Splicing one element out of a list without duplicates. */
  lemma SpliceIsRest<T>(list: seq<T>, i: nat)
    requires NoDuplicates(list) && i < |list|
    ensures list[..i] + list[i + 1..] == Rest(list, [list[i]])
  {
    SplitApart(list, i);
    RestOfSplit(list[..i], list[i], list[i + 1..]);
  }

  lemma Associate<T>(a: seq<T>, b: seq<T>, c: seq<T>)
    ensures a + b + c == a + (b + c)
  {
  }

  lemma JoinedAt<T>(a: seq<T>, x: T, b: seq<T>)
    ensures |a + [x] + b| == |a| + 1 + |b| && (a + [x] + b)[|a|] == x
    ensures (a + [x] + b)[..|a|] == a && (a + [x] + b)[|a| + 1..] == b
    ensures forall i | |a| < i < |a + [x] + b| :: (a + [x] + b)[i] in b
  {
  }

  /** Two parts joined by a separator that is not in the second can be told apart again. */
  lemma JoinSeparates<T>(a: seq<T>, b: seq<T>, x: T, c: seq<T>, d: seq<T>)
    requires x !in b && x !in d
    ensures a + [x] + b == c + [x] + d <==> a == c && b == d
  {
    JoinedAt(a, x, b);
    JoinedAt(c, x, d);
  }

  lemma OneMore(a: nat, b: nat)
    ensures (a + 1) * b == a * b + b
  {
  }
}
