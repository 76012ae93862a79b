/** `types.sort()` on the names of the type directory: Python orders strings by code point,
    a proper prefix first. */
module Listing {

  /** `a < b` for Python strings. */
  predicate Below(a: string, b: string)
    decreases |a|
  {
    if |a| == 0 then |b| > 0
    else if |b| == 0 then false
    else if a[0] != b[0] then a[0] < b[0]
    else Below(a[1..], b[1..])
  }

  predicate AtMost(a: string, b: string) {
    a == b || Below(a, b)
  }

  lemma {:induction false} BelowIrreflexive(a: string)
    ensures !Below(a, a)
    decreases |a|
  {
    if |a| > 0 {
      BelowIrreflexive(a[1..]);
    }
  }

  lemma {:induction false} BelowTransitive(a: string, b: string, c: string)
    requires Below(a, b) && Below(b, c)
    ensures Below(a, c)
    decreases |a|
  {
    if |a| > 0 && a[0] == b[0] && b[0] == c[0] {
      BelowTransitive(a[1..], b[1..], c[1..]);
    }
  }

  /** Any two distinct strings are ordered one way or the other. */
  lemma {:induction false} BelowTotal(a: string, b: string)
    requires a != b
    ensures Below(a, b) || Below(b, a)
    decreases |a|
  {
    if |a| > 0 && |b| > 0 && a[0] == b[0] {
      assert a[1..] != b[1..] by {
        assert a == [a[0]] + a[1..] && b == [b[0]] + b[1..];
      }
      BelowTotal(a[1..], b[1..]);
    }
  }

  lemma {:induction false} BelowAsymmetric(a: string, b: string)
    requires Below(a, b)
    ensures !Below(b, a)
    decreases |a|
  {
    if |a| > 0 && |b| > 0 && a[0] == b[0] {
      BelowAsymmetric(a[1..], b[1..]);
    }
  }

  predicate Sorted(xs: seq<string>) {
    forall i, j :: 0 <= i < j < |xs| ==> AtMost(xs[i], xs[j])
  }

  /** `x` placed into a sorted list before the first entry above it. */
  function Insert(x: string, xs: seq<string>): (r: seq<string>)
    requires Sorted(xs)
    ensures Sorted(r)
    ensures multiset(r) == multiset(xs) + multiset{x}
    ensures |r| == |xs| + 1
    decreases |xs|
  {
    if |xs| == 0 then [x]
    else if AtMost(x, xs[0]) then
      InsertFrontSorted(x, xs);
      [x] + xs
    else
      var rest := Insert(x, xs[1..]);
      InsertBehindSorted(x, xs, rest);
      assert xs == [xs[0]] + xs[1..];
      [xs[0]] + rest
  }

  lemma InsertFrontSorted(x: string, xs: seq<string>)
    requires Sorted(xs) && |xs| > 0 && AtMost(x, xs[0])
    ensures Sorted([x] + xs)
  {
    forall j | 1 <= j < |xs| + 1
      ensures AtMost(x, ([x] + xs)[j])
    {
      if j > 1 && x != xs[0] && xs[0] != xs[j - 1] {
        BelowTransitive(x, xs[0], xs[j - 1]);
      }
    }
  }

  lemma InsertBehindSorted(x: string, xs: seq<string>, rest: seq<string>)
    requires Sorted(xs) && |xs| > 0 && !AtMost(x, xs[0])
    requires Sorted(rest) && multiset(rest) == multiset(xs[1..]) + multiset{x}
    ensures Sorted([xs[0]] + rest)
  {
    BelowTotal(x, xs[0]);
    forall j | 0 <= j < |rest|
      ensures AtMost(xs[0], rest[j])
    {
      assert rest[j] in multiset(rest);
      if rest[j] != x {
        assert rest[j] in multiset(xs[1..]);
        var k :| 0 <= k < |xs[1..]| && xs[1..][k] == rest[j];
        assert xs[k + 1] == rest[j];
      }
    }
  }

  /** `sorted(xs)`: the same names, in order. */
  function Sort(xs: seq<string>): (r: seq<string>)
    ensures Sorted(r)
    ensures multiset(r) == multiset(xs)
    ensures |r| == |xs|
    decreases |xs|
  {
    if |xs| == 0 then []
    else
      assert xs == xs[..|xs| - 1] + [xs[|xs| - 1]];
      Insert(xs[|xs| - 1], Sort(xs[..|xs| - 1]))
  }

  /** There is only one sorted order of a collection of names: a sorted list is its own sort,
      whatever order the directory listed the names in. */
  lemma {:induction false} SortedUnique(a: seq<string>, b: seq<string>)
    requires Sorted(a) && Sorted(b) && multiset(a) == multiset(b)
    ensures a == b
    decreases |a|
  {
    assert |a| == |multiset(a)| == |b|;
    if |a| > 0 {
      SortedHeads(a, b);
      DropHead(a);
      DropHead(b);
      SortedUnique(a[1..], b[1..]);
      assert a == [a[0]] + a[1..] && b == [b[0]] + b[1..];
    }
  }

  /** Two sorted lists of the same names start with the same name. */
  lemma SortedHeads(a: seq<string>, b: seq<string>)
    requires Sorted(a) && Sorted(b) && multiset(a) == multiset(b) && |a| > 0 && |b| > 0
    ensures a[0] == b[0]
  {
    assert a[0] in multiset(b) && b[0] in multiset(a);
    var i :| 0 <= i < |b| && b[i] == a[0];
    var j :| 0 <= j < |a| && a[j] == b[0];
    if a[0] != b[0] {
      assert AtMost(b[0], b[i]) && AtMost(a[0], a[j]);
      BelowAsymmetric(a[0], b[0]);
    }
  }

  /** The tail of a sorted list is sorted and holds the other names. */
  lemma DropHead(a: seq<string>)
    requires Sorted(a) && |a| > 0
    ensures Sorted(a[1..])
    ensures multiset(a[1..]) == multiset(a) - multiset{a[0]}
  {
    assert a == [a[0]] + a[1..];
    assert multiset(a) == multiset{a[0]} + multiset(a[1..]);
    assert forall i, j :: 0 <= i < j < |a[1..]| ==> a[1..][i] == a[i + 1] && a[1..][j] == a[j + 1];
  }

  /** The listing order does not matter: two listings of the same names sort alike. */
  lemma SortIndependentOfListing(xs: seq<string>, ys: seq<string>)
    requires multiset(xs) == multiset(ys)
    ensures Sort(xs) == Sort(ys)
  {
    SortedUnique(Sort(xs), Sort(ys));
  }
}
