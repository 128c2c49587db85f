/** Stable sorting by a key that is compared lexicographically. */
module Sorting {
  import opened Text

  ghost predicate Ordered<T(!new)>(key: T -> seq<int>, xs: seq<T>) {
    forall i, j | 0 <= i < j < |xs| :: !Less(key(xs[j]), key(xs[i]))
  }

  ghost predicate StrictlyOrdered<T(!new)>(key: T -> seq<int>, xs: seq<T>) {
    forall i, j | 0 <= i < j < |xs| :: Less(key(xs[i]), key(xs[j]))
  }

  ghost predicate DistinctKeys<T(!new)>(key: T -> seq<int>, xs: seq<T>) {
    forall i, j | 0 <= i < j < |xs| :: key(xs[i]) != key(xs[j])
  }

  function InsertBy<T>(key: T -> seq<int>, x: T, xs: seq<T>): seq<T> {
    if xs == [] || !Less(key(xs[0]), key(x)) then [x] + xs else [xs[0]] + InsertBy(key, x, xs[1..])
  }

  function SortBy<T>(key: T -> seq<int>, xs: seq<T>): seq<T> {
    if xs == [] then [] else InsertBy(key, xs[0], SortBy(key, xs[1..]))
  }

  lemma {:induction false} InsertKeeps<T>(key: T -> seq<int>, x: T, xs: seq<T>)
    ensures multiset(InsertBy(key, x, xs)) == multiset(xs) + multiset{x}
  {
    if xs != [] && Less(key(xs[0]), key(x)) {
      InsertKeeps(key, x, xs[1..]);
      assert xs == [xs[0]] + xs[1..];
    }
  }

  lemma {:induction false} SortPermutes<T>(key: T -> seq<int>, xs: seq<T>)
    ensures multiset(SortBy(key, xs)) == multiset(xs)
  {
    if xs != [] {
      SortPermutes(key, xs[1..]);
      InsertKeeps(key, xs[0], SortBy(key, xs[1..]));
      assert xs == [xs[0]] + xs[1..];
    }
  }

  lemma SameElements<T>(a: seq<T>, b: seq<T>)
    requires multiset(a) == multiset(b)
    ensures |a| == |b| && forall x :: x in a <==> x in b
  {
    assert |multiset(a)| == |a| && |multiset(b)| == |b|;
    forall x
      ensures x in a <==> x in b
    {
      assert x in a <==> x in multiset(a);
      assert x in b <==> x in multiset(b);
    }
  }

  lemma {:induction false} InsertOrders<T(!new)>(key: T -> seq<int>, x: T, xs: seq<T>)
    requires Ordered(key, xs)
    ensures Ordered(key, InsertBy(key, x, xs))
  {
    hide Less;
    if xs != [] {
      if Less(key(xs[0]), key(x)) {
        InsertOrders(key, x, xs[1..]);
        InsertKeeps(key, x, xs[1..]);
        var r := InsertBy(key, x, xs[1..]);
        SameElements(r, xs[1..] + [x]);
        LessTotal(key(xs[0]), key(x));
        forall i | 0 <= i < |r|
          ensures !Less(key(r[i]), key(xs[0]))
        {
          assert r[i] in xs[1..] + [x];
        }
      } else {
        forall i | 0 <= i < |xs|
          ensures !Less(key(xs[i]), key(x))
        {
          if i > 0 && Less(key(xs[i]), key(x)) {
            LessTotal(key(xs[0]), key(xs[i]));
            LessTotal(key(xs[0]), key(x));
            NotBelow(key(xs[i]), key(x), key(xs[0]));
          }
        }
      }
    }
  }

  lemma NotBelow(a: seq<int>, b: seq<int>, c: seq<int>)
    requires Less(a, b) && !Less(c, b)
    ensures Less(a, c)
  {
    LessTotal(b, c);
    if b != c {
      LessTransitive(a, b, c);
    }
  }

  lemma {:induction false} SortOrders<T(!new)>(key: T -> seq<int>, xs: seq<T>)
    ensures Ordered(key, SortBy(key, xs))
  {
    if xs != [] {
      SortOrders(key, xs[1..]);
      InsertOrders(key, xs[0], SortBy(key, xs[1..]));
    }
  }

  /** Distinct keys come out in strictly ascending order. */
  lemma SortOrdersStrictly<T(!new)>(key: T -> seq<int>, xs: seq<T>)
    requires DistinctKeys(key, xs)
    ensures StrictlyOrdered(key, SortBy(key, xs))
  {
    hide SortBy;
    var r := SortBy(key, xs);
    SortOrders(key, xs);
    SortPermutes(key, xs);
    DistinctPermuted(key, xs, r);
    forall i, j | 0 <= i < j < |r|
      ensures Less(key(r[i]), key(r[j]))
    {
      LessTotal(key(r[i]), key(r[j]));
    }
  }

  /** A relation between any two places of a list does not depend on the order of the list. */
  lemma PairwisePermuted<T(!new)>(apart: (T, T) -> bool, xs: seq<T>, ys: seq<T>)
    requires forall x, y :: apart(x, y) == apart(y, x)
    requires multiset(xs) == multiset(ys) && forall i, j | 0 <= i < j < |xs| :: apart(xs[i], xs[j])
    ensures forall i, j | 0 <= i < j < |ys| :: apart(ys[i], ys[j])
  {
    SameElements(xs, ys);
    forall i, j | 0 <= i < j < |ys|
      ensures apart(ys[i], ys[j])
    {
      var a, b := TwoIndexes(xs, ys, i, j);
    }
  }

  /** Two places of a list have counterparts in each permutation of it. */
  lemma TwoIndexes<T>(xs: seq<T>, ys: seq<T>, i: nat, j: nat) returns (a: nat, b: nat)
    requires multiset(xs) == multiset(ys) && i < j < |ys|
    ensures a < |xs| && b < |xs| && a != b && xs[a] == ys[i] && xs[b] == ys[j]
  {
    SameElements(xs, ys);
    assert ys[i] in xs;
    a :| 0 <= a < |xs| && xs[a] == ys[i];
    Remove(xs, a);
    Remove(ys, i);
    var rest, rest' := xs[..a] + xs[a + 1..], ys[..i] + ys[i + 1..];
    SameElements(rest, rest');
    assert rest'[j - 1] == ys[j];
    assert ys[j] in rest;
    var k :| 0 <= k < |rest| && rest[k] == ys[j];
    b := if k < a then k else k + 1;
  }

  lemma Remove<T>(xs: seq<T>, a: nat)
    requires a < |xs|
    ensures multiset(xs[..a] + xs[a + 1..]) == multiset(xs) - multiset{xs[a]}
  {
    assert xs == xs[..a] + [xs[a]] + xs[a + 1..];
  }

  lemma DistinctPermuted<T(!new)>(key: T -> seq<int>, xs: seq<T>, ys: seq<T>)
    requires DistinctKeys(key, xs) && multiset(xs) == multiset(ys)
    ensures DistinctKeys(key, ys)
  {
    PairwisePermuted((x, y) => key(x) != key(y), xs, ys);
  }

  /** A set of elements has one strictly ordered list. */
  lemma {:induction false} StrictlyOrderedUnique<T(!new)>(key: T -> seq<int>, a: seq<T>, b: seq<T>)
    requires StrictlyOrdered(key, a) && StrictlyOrdered(key, b) && forall x :: x in a <==> x in b
    ensures a == b
  {
    hide Less;
    if b != [] {
      NotEmpty(b, a);
    }
    if a != [] {
      NotEmpty(a, b);
      assert a[0] in a && a[0] in b;
      assert b[0] in b && b[0] in a;
      SameHead(key, a, b);
      NotInTail(key, a);
      NotInTail(key, b);
      forall x
        ensures x in a[1..] <==> x in b[1..]
      {
        assert x in a <==> x == a[0] || x in a[1..];
        assert x in b <==> x == b[0] || x in b[1..];
      }
      StrictlyOrderedUnique(key, a[1..], b[1..]);
      assert a == [a[0]] + a[1..] && b == [b[0]] + b[1..];
    }
  }

  lemma NotEmpty<T(!new)>(a: seq<T>, b: seq<T>)
    requires a != [] && forall x :: x in a <==> x in b
    ensures b != []
  {
    assert a[0] in b;
  }

  lemma NotInTail<T(!new)>(key: T -> seq<int>, a: seq<T>)
    requires StrictlyOrdered(key, a) && a != []
    ensures a[0] !in a[1..]
  {
    if a[0] in a[1..] {
      var i :| 0 <= i < |a[1..]| && a[1..][i] == a[0];
      assert Less(key(a[0]), key(a[i + 1]));
      LessTotal(key(a[0]), key(a[0]));
    }
  }

  lemma SameHead<T(!new)>(key: T -> seq<int>, a: seq<T>, b: seq<T>)
    requires StrictlyOrdered(key, a) && StrictlyOrdered(key, b) && a != [] && b != [] && a[0] in b && b[0] in a
    ensures a[0] == b[0]
  {
    if a[0] != b[0] {
      var i :| 0 <= i < |b| && b[i] == a[0];
      var j :| 0 <= j < |a| && a[j] == b[0];
      assert Less(key(b[0]), key(b[i])) && Less(key(a[0]), key(a[j]));
      LessTotal(key(a[0]), key(b[0]));
    }
  }

  /** The order of distinctly keyed elements does not matter to their sorted list. */
  lemma SortDependsOnElements<T(!new)>(key: T -> seq<int>, a: seq<T>, b: seq<T>)
    requires DistinctKeys(key, a) && DistinctKeys(key, b) && forall x :: x in a <==> x in b
    ensures SortBy(key, a) == SortBy(key, b)
  {
    hide SortBy;
    SortOrdersStrictly(key, a);
    SortOrdersStrictly(key, b);
    SortPermutes(key, a);
    SortPermutes(key, b);
    SameElements(SortBy(key, a), a);
    SameElements(SortBy(key, b), b);
    StrictlyOrderedUnique(key, SortBy(key, a), SortBy(key, b));
  }
}
