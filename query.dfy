/**
  The three steps every read-side query of the store is built from:
  WHERE (Filter), ORDER BY (SortBy, stable, ascending on an integer key) and
  LIMIT (a prefix), with the facts about them the query contracts rely on.
*/
module Query {
  import opened Wrappers

  function Min(a: int, b: int): int {
    if a <= b then a else b
  }

  ghost predicate SortedBy<T>(s: seq<T>, key: T -> int) {
    forall i, j :: 0 <= i < j < |s| ==> key(s[i]) <= key(s[j])
  }

  ghost predicate Distinct<T>(s: seq<T>) {
    forall i, j :: 0 <= i < j < |s| ==> s[i] != s[j]
  }

  /** The elements of `s` that satisfy `p`, in their order, every copy kept. */
  function Filter<T(!new)>(s: seq<T>, p: T -> bool): (r: seq<T>)
    ensures forall x :: x in r <==> x in s && p(x)
    ensures multiset(r) <= multiset(s)
    ensures forall x :: p(x) ==> multiset(r)[x] == multiset(s)[x]
  {
    if s == [] then []
    else
      assert s == [s[0]] + s[1..];
      (if p(s[0]) then [s[0]] else []) + Filter(s[1..], p)
  }

  /** `x` placed into the sorted `s` before the first element whose key is at least its own. */
  function Insert<T>(x: T, s: seq<T>, key: T -> int): (r: seq<T>)
    requires SortedBy(s, key)
    ensures SortedBy(r, key)
    ensures multiset(r) == multiset(s) + multiset{x}
  {
    if s == [] then [x]
    else if key(x) <= key(s[0]) then
      SortedCons(x, s, key);
      [x] + s
    else
      var rest := Insert(x, s[1..], key);
      InsertedAbove(x, s, key, rest);
      SortedCons(s[0], rest, key);
      assert s == [s[0]] + s[1..];
      [s[0]] + rest
  }

  /** Every element of `Insert(x, s[1..])` has a key at least that of `s[0]`, when `x`'s is larger. */
  lemma InsertedAbove<T>(x: T, s: seq<T>, key: T -> int, rest: seq<T>)
    requires SortedBy(s, key) && s != [] && key(s[0]) < key(x)
    requires multiset(rest) == multiset(s[1..]) + multiset{x}
    ensures forall y :: y in rest ==> key(s[0]) <= key(y)
  {
    forall y | y in rest
      ensures key(s[0]) <= key(y)
    {
      assert y in multiset(rest);
      if y != x {
        assert y in s[1..];
        var k :| 0 <= k < |s[1..]| && s[1..][k] == y;
        assert s[k + 1] == y;
      }
    }
  }

  lemma SortedCons<T>(a: T, rest: seq<T>, key: T -> int)
    requires SortedBy(rest, key)
    requires forall y :: y in rest ==> key(a) <= key(y)
    ensures SortedBy([a] + rest, key)
  {
    var r := [a] + rest;
    forall i, j | 0 <= i < j < |r|
      ensures key(r[i]) <= key(r[j])
    {
      if i == 0 {
        assert r[j] == rest[j - 1];
      } else {
        assert r[i] == rest[i - 1] && r[j] == rest[j - 1];
      }
    }
  }

  /** Insertion sort: a stable ascending permutation of `s`. */
  function SortBy<T>(s: seq<T>, key: T -> int): (r: seq<T>)
    ensures SortedBy(r, key)
    ensures multiset(r) == multiset(s)
  {
    if s == [] then []
    else
      assert s == [s[0]] + s[1..];
      Insert(s[0], SortBy(s[1..], key), key)
  }

  /** Sub-multisets of a repetition-free sequence are repetition-free. */
  lemma {:induction false} DistinctSub<T>(s: seq<T>, r: seq<T>)
    requires Distinct(s) && multiset(r) <= multiset(s)
    ensures Distinct(r)
  {
    forall i, j | 0 <= i < j < |r|
      ensures r[i] != r[j]
    {
      if r[i] == r[j] {
        TwiceInMultiset(r, i, j);
        DistinctOnce(s, r[i]);
        assert false;
      }
    }
  }

  lemma {:induction false} TwiceInMultiset<T>(s: seq<T>, i: int, j: int)
    requires 0 <= i < j < |s| && s[i] == s[j]
    ensures multiset(s)[s[i]] >= 2
  {
    assert s == s[..j] + [s[j]] + s[j+1..];
    assert s[i] in s[..j];
  }

  lemma {:induction false} DistinctOnce<T>(s: seq<T>, x: T)
    requires Distinct(s)
    ensures multiset(s)[x] <= 1
    decreases |s|
  {
    if s != [] {
      assert s == [s[0]] + s[1..];
      DistinctOnce(s[1..], x);
      if x == s[0] {
        assert x !in s[1..];
      }
    }
  }

  /** A repetition-free sequence has as many elements as its set. */
  lemma {:induction false} DistinctCard<T>(s: seq<T>)
    requires Distinct(s)
    ensures |set x | x in s| == |s|
    decreases |s|
  {
    if s != [] {
      DistinctCard(s[1..]);
      assert (set x | x in s) == {s[0]} + (set x | x in s[1..]);
      assert s[0] !in s[1..];
    }
  }

  /**
    In a sorted sequence, an element whose key is strictly below that of some
    element of the first `n` lies itself within the first `n`.
  */
  lemma {:induction false} SortedPrefixClosed<T>(s: seq<T>, key: T -> int, n: int, x: T, i: int)
    requires SortedBy(s, key) && 0 <= i < n <= |s|
    requires x in s && key(x) < key(s[i])
    ensures x in s[..n]
  {
    var p :| 0 <= p < |s| && s[p] == x;
    assert s[..n][p] == x;
  }

  /** Permutations have the same elements. */
  lemma SameElements<T>(r: seq<T>, s: seq<T>)
    requires multiset(r) == multiset(s)
    ensures forall x :: x in r <==> x in s
  {
    forall x
      ensures x in r <==> x in s
    {
      assert x in r <==> x in multiset(r);
      assert x in s <==> x in multiset(s);
    }
  }

  /** The first element of a sorted sequence has the least key. */
  lemma SortedFirstIsLeast<T>(s: seq<T>, key: T -> int)
    requires SortedBy(s, key) && |s| > 0
    ensures forall x :: x in s ==> key(s[0]) <= key(x)
  {
    forall x | x in s
      ensures key(s[0]) <= key(x)
    {
      var p :| 0 <= p < |s| && s[p] == x;
      if p > 0 {
        assert key(s[0]) <= key(s[p]);
      }
    }
  }

  /** What WHERE p ORDER BY key ASC LIMIT 1 promises: nothing exactly when no element matches, else a match with the least key. */
  ghost predicate IsFirst<T(!new)>(s: seq<T>, p: T -> bool, key: T -> int, r: Option<T>) {
    && (r.None? <==> forall x :: x in s ==> !p(x))
    && (r.Some? ==> r.value in s && p(r.value))
    && (r.Some? ==> forall x :: x in s && p(x) ==> key(r.value) <= key(x))
  }

  /** ORDER BY key ASC LIMIT 1 over the elements satisfying `p`. */
  function FirstBy<T(!new)>(s: seq<T>, p: T -> bool, key: T -> int): (r: Option<T>)
    ensures IsFirst(s, p, key, r)
  {
    var ordered := SortBy(Filter(s, p), key);
    SameElements(ordered, Filter(s, p));
    if |ordered| == 0 then None
    else
      SortedFirstIsLeast(ordered, key);
      Some(ordered[0])
  }

  /** The distinct elements of `s` that satisfy `p`. */
  ghost function Chosen<T(!new)>(s: seq<T>, p: T -> bool): set<T> {
    set x | x in s && p(x)
  }

  /**
    What WHERE p ORDER BY key ASC LIMIT n promises of its result `r`: only
    elements of `s` satisfying `p`, in ascending key order, min(n, matches)
    of them, and no match with a smaller key than a selected element left
    out (all matches when the limit does not bite).
  */
  ghost predicate IsTop<T(!new)>(s: seq<T>, p: T -> bool, key: T -> int, n: nat, r: seq<T>) {
    && (forall x :: x in r ==> x in s && p(x))
    && SortedBy(r, key)
    && (Distinct(s) ==> Distinct(r) && |r| == Min(n, |Chosen(s, p)|))
    && (forall x, i :: x in s && p(x) && 0 <= i < |r| && key(x) < key(r[i]) ==> x in r)
    && (forall x, i :: x in s && p(x) && 0 <= i < |r| && key(x) < key(r[i]) ==> multiset(r)[x] == multiset(Filter(s, p))[x])
    && (|r| < n ==> forall x :: x in s && p(x) ==> x in r)
    && |r| == Min(n, |Filter(s, p)|) && multiset(r) <= multiset(Filter(s, p))
  }

  /**
    WHERE p ORDER BY key ASC LIMIT n: the first `n` elements satisfying `p`
    in ascending key order.
  */
  function TopBy<T(!new)>(s: seq<T>, p: T -> bool, key: T -> int, n: nat): (r: seq<T>)
    ensures IsTop(s, p, key, n, r)
  {
    var ordered := SortBy(Filter(s, p), key);
    var m := Min(n, |ordered|);
    TopMembers(s, p, key, m, ordered);
    TopDistinct(s, p, n, ordered);
    TopClosed(s, p, key, m, ordered);
    TopCopies(s, p, key, m, ordered);
    TopAll(s, p, ordered);
    TopCount(s, p, m, ordered);
    ordered[..m]
  }

  /** TopBy's prefix holds only chosen elements, in key order. */
  lemma TopMembers<T(!new)>(s: seq<T>, p: T -> bool, key: T -> int, m: nat, ordered: seq<T>)
    requires SortedBy(ordered, key) && multiset(ordered) == multiset(Filter(s, p)) && m <= |ordered|
    ensures forall x :: x in ordered[..m] ==> x in s && p(x)
    ensures SortedBy(ordered[..m], key)
  {
    SameElements(ordered, Filter(s, p));
    PrefixFacts(ordered, key, m);
  }

  /** TopBy's prefix has no duplicates when `s` has none, and holds min(n, chosen) elements. */
  lemma TopDistinct<T(!new)>(s: seq<T>, p: T -> bool, n: nat, ordered: seq<T>)
    requires multiset(ordered) == multiset(Filter(s, p))
    ensures Distinct(s) ==> Distinct(ordered[..Min(n, |ordered|)]) && Min(n, |ordered|) == Min(n, |Chosen(s, p)|)
  {
    DistinctFiltered(s, p, ordered);
    DistinctPrefix(ordered, Min(n, |ordered|));
  }

  /** Every copy of a match whose key is below a selected element's key is selected. */
  lemma TopCopies<T(!new)>(s: seq<T>, p: T -> bool, key: T -> int, m: nat, ordered: seq<T>)
    requires SortedBy(ordered, key) && multiset(ordered) == multiset(Filter(s, p)) && m <= |ordered|
    ensures forall x, i :: x in s && p(x) && 0 <= i < m && key(x) < key(ordered[..m][i]) ==> multiset(ordered[..m])[x] == multiset(Filter(s, p))[x]
  {
    PrefixHoldsAllCopies(ordered, key, m);
  }

  /** A prefix of a sorted sequence holds every copy of an element whose key is below one of the prefix's. */
  lemma PrefixHoldsAllCopies<T>(ordered: seq<T>, key: T -> int, m: nat)
    requires SortedBy(ordered, key) && m <= |ordered|
    ensures forall x, i :: 0 <= i < m && key(x) < key(ordered[..m][i]) ==> multiset(ordered[..m])[x] == multiset(ordered)[x]
  {
    assert ordered == ordered[..m] + ordered[m..];
    assert multiset(ordered) == multiset(ordered[..m]) + multiset(ordered[m..]);
    forall x, i | 0 <= i < m && key(x) < key(ordered[..m][i])
      ensures multiset(ordered[..m])[x] == multiset(ordered)[x]
    {
      assert ordered[..m][i] == ordered[i];
      SortedSuffixAbove(ordered, key, m, i, x);
      assert multiset(ordered[m..])[x] == 0;
    }
  }

  /** In a sorted sequence, nothing from position m on has a key below that of an element before m. */
  lemma SortedSuffixAbove<T>(ordered: seq<T>, key: T -> int, m: nat, i: nat, x: T)
    requires SortedBy(ordered, key) && i < m <= |ordered| && key(x) < key(ordered[i])
    ensures x !in ordered[m..]
  {
    forall j | 0 <= j < |ordered| - m
      ensures ordered[m..][j] != x
    {
      assert ordered[m..][j] == ordered[m + j];
    }
  }

  /** No chosen element with a smaller key than a selected one is left out. */
  lemma TopClosed<T(!new)>(s: seq<T>, p: T -> bool, key: T -> int, m: nat, ordered: seq<T>)
    requires SortedBy(ordered, key) && multiset(ordered) == multiset(Filter(s, p)) && m <= |ordered|
    ensures forall x, i :: x in s && p(x) && 0 <= i < m && key(x) < key(ordered[..m][i]) ==> x in ordered[..m]
  {
    SameElements(ordered, Filter(s, p));
    PrefixFacts(ordered, key, m);
  }

  /** Without the limit biting, every chosen element is selected. */
  lemma TopAll<T(!new)>(s: seq<T>, p: T -> bool, ordered: seq<T>)
    requires multiset(ordered) == multiset(Filter(s, p))
    ensures forall x :: x in s && p(x) ==> x in ordered[..|ordered|]
  {
    SameElements(ordered, Filter(s, p));
    assert ordered[..|ordered|] == ordered;
  }

  /** TopBy's prefix counts min(n, filtered) elements, each no more often than it is filtered. */
  lemma TopCount<T(!new)>(s: seq<T>, p: T -> bool, m: nat, ordered: seq<T>)
    requires multiset(ordered) == multiset(Filter(s, p)) && m <= |ordered|
    ensures |ordered| == |Filter(s, p)|
    ensures multiset(ordered[..m]) <= multiset(Filter(s, p))
  {
    assert |multiset(ordered)| == |multiset(Filter(s, p))|;
    assert ordered == ordered[..m] + ordered[m..];
  }

  /** What WHERE p ORDER BY key ASC without a limit promises of `r`: exactly the matches, in ascending key order. */
  ghost predicate IsAll<T(!new)>(s: seq<T>, p: T -> bool, key: T -> int, r: seq<T>) {
    && (forall x :: x in r <==> x in s && p(x))
    && SortedBy(r, key)
    && (Distinct(s) ==> Distinct(r) && |r| == |Chosen(s, p)|)
  }

  /** WHERE p ORDER BY key ASC, without a limit: every element satisfying `p`, in ascending key order. */
  function AllBy<T(!new)>(s: seq<T>, p: T -> bool, key: T -> int): (r: seq<T>)
    ensures IsAll(s, p, key, r)
  {
    var ordered := SortBy(Filter(s, p), key);
    SameElements(ordered, Filter(s, p));
    DistinctFiltered(s, p, ordered);
    ordered
  }

  lemma PrefixFacts<T>(ordered: seq<T>, key: T -> int, m: int)
    requires SortedBy(ordered, key) && 0 <= m <= |ordered|
    ensures forall x :: x in ordered[..m] ==> x in ordered
    ensures SortedBy(ordered[..m], key)
    ensures multiset(ordered[..m]) <= multiset(ordered)
    ensures forall x, i :: x in ordered && 0 <= i < m && key(x) < key(ordered[i]) ==> x in ordered[..m]
  {
    assert ordered == ordered[..m] + ordered[m..];
    forall x, i | x in ordered && 0 <= i < m && key(x) < key(ordered[i])
      ensures x in ordered[..m]
    {
      SortedPrefixClosed(ordered, key, m, x, i);
    }
  }

  lemma DistinctFiltered<T(!new)>(s: seq<T>, p: T -> bool, ordered: seq<T>)
    requires multiset(ordered) == multiset(Filter(s, p))
    ensures Distinct(s) ==> Distinct(ordered)
    ensures Distinct(s) ==> |ordered| == |Chosen(s, p)|
  {
    if Distinct(s) {
      var chosen := Filter(s, p);
      DistinctSub(s, chosen);
      DistinctSub(chosen, ordered);
      DistinctCard(ordered);
      SameElements(ordered, chosen);
      SetOfEqual(ordered, s, p);
    }
  }

  lemma DistinctPrefix<T>(s: seq<T>, m: int)
    requires 0 <= m <= |s|
    ensures Distinct(s) ==> Distinct(s[..m])
  {
    if Distinct(s) {
      forall i, j | 0 <= i < j < m
        ensures s[..m][i] != s[..m][j]
      {
        assert s[..m][i] == s[i] && s[..m][j] == s[j];
      }
    }
  }

  /** Dropping the head of a duplicate-free sequence leaves one without the head. */
  lemma DistinctTail<T>(s: seq<T>)
    requires Distinct(s) && |s| > 0
    ensures Distinct(s[1..]) && s[0] !in s[1..]
  {
    forall i, j | 0 <= i < j < |s| - 1
      ensures s[1..][i] != s[1..][j]
    {
      assert s[1..][i] == s[i + 1] && s[1..][j] == s[j + 1];
    }
    forall i | 0 <= i < |s| - 1
      ensures s[1..][i] != s[0]
    {
      assert s[1..][i] == s[i + 1];
    }
  }

  lemma SetOfEqual<T(!new)>(r: seq<T>, s: seq<T>, p: T -> bool)
    requires forall x :: x in r <==> x in s && p(x)
    ensures (set x | x in r) == Chosen(s, p)
  {
  }
}
