/** A JavaScript Set keeps its members in the order of first insertion.  It is modelled as
    the duplicate-free sequence that iterating over it would give. */
module OrderedSets {

  ghost predicate Distinct<T(!new)>(s: seq<T>) {
    forall i, j :: 0 <= i < j < |s| ==> s[i] != s[j]
  }

  function Add<T(==)>(s: seq<T>, x: T): seq<T> {
    if x in s then s else s + [x]
  }

  /** The Set filled with xs from left to right, read back in iteration order. */
  function Collect<T(==)>(xs: seq<T>): seq<T> {
    if xs == [] then [] else Add(Collect(xs[..|xs| - 1]), xs[|xs| - 1])
  }

  function IndexOf<T(==)>(s: seq<T>, x: T): (i: nat)
    requires x in s
    ensures i < |s| && s[i] == x
    ensures x !in s[..i]
  {
    if s[0] == x then 0 else 1 + IndexOf(s[1..], x)
  }

  lemma IndexOfUnique<T>(s: seq<T>, i: nat)
    requires i < |s| && s[i] !in s[..i]
    ensures IndexOf(s, s[i]) == i
  {}

  lemma {:induction false} CollectMembers<T>(xs: seq<T>, x: T)
    ensures x in Collect(xs) <==> x in xs
  {
    if xs != [] {
      CollectMembers(xs[..|xs| - 1], x);
      assert xs == xs[..|xs| - 1] + [xs[|xs| - 1]];
    }
  }

  /** A Set has no duplicates and iterates in the order of first insertion. */
  lemma {:induction false} CollectKeepsFirstOccurrences<T(!new)>(xs: seq<T>)
    ensures Distinct(Collect(xs))
    ensures forall x :: x in Collect(xs) <==> x in xs
    ensures forall i, j :: 0 <= i < j < |Collect(xs)| ==>
              IndexOf(xs, Collect(xs)[i]) < IndexOf(xs, Collect(xs)[j])
  {
    forall x ensures x in Collect(xs) <==> x in xs { CollectMembers(xs, x); }
    if xs != [] {
      var front, last := xs[..|xs| - 1], xs[|xs| - 1];
      CollectKeepsFirstOccurrences(front);
      forall x | x in front ensures IndexOf(xs, x) == IndexOf(front, x) {
        var k := IndexOf(front, x);
        assert xs[..k] == front[..k];
        IndexOfUnique(xs, k);
      }
      if last !in front {
        IndexOfUnique(xs, |xs| - 1);
      }
    }
  }

  lemma DistinctPositions<T(!new)>(s: seq<T>, i: nat, j: nat)
    requires Distinct(s) && i < |s| && j < |s| && s[i] == s[j]
    ensures i == j
  {}

  lemma DistinctSplit<T(!new)>(s: seq<T>, x: T)
    requires Distinct(s + [x])
    ensures Distinct(s) && x !in s
  {
    var t := s + [x];
    assert t[|s|] == x;
    assert forall k :: 0 <= k < |s| ==> t[k] == s[k] && t[k] != t[|s|];
  }

  /** Collecting a sequence without duplicates changes nothing. */
  lemma {:induction false} CollectDistinct<T(!new)>(xs: seq<T>)
    requires Distinct(xs)
    ensures Collect(xs) == xs
  {
    if xs != [] {
      var front := xs[..|xs| - 1];
      CollectDistinct(front);
      assert xs == front + [xs[|xs| - 1]];
    }
  }

  /** The Set is smaller than the list exactly when the list repeats something. */
  lemma {:induction false} CollectLength<T(!new)>(xs: seq<T>)
    ensures |Collect(xs)| <= |xs|
    ensures |Collect(xs)| == |xs| <==> Distinct(xs)
  {
    if xs != [] {
      var front, last := xs[..|xs| - 1], xs[|xs| - 1];
      CollectLength(front);
      CollectMembers(front, last);
      if last in front {
        assert xs[IndexOf(front, last)] == last;
      }
      if Distinct(xs) {
        assert last !in front;
      }
    }
  }

  ghost function Members<T>(s: seq<T>): set<T> {
    set x | x in s
  }

  lemma {:induction false} DistinctCardinality<T(!new)>(s: seq<T>)
    requires Distinct(s)
    ensures |Members(s)| == |s|
  {
    if s != [] {
      var front, last := s[..|s| - 1], s[|s| - 1];
      DistinctCardinality(front);
      assert Members(s) == Members(front) + {last};
    }
  }

  /** Pigeonhole: a duplicate-free sequence over the members of another is no longer than it. */
  lemma Pigeonhole<T(!new)>(s: seq<T>, t: seq<T>)
    requires Distinct(s) && Distinct(t)
    requires forall x :: x in s ==> x in t
    ensures |s| <= |t|
    ensures |s| == |t| ==> forall x :: x in t ==> x in s
  {
    DistinctCardinality(s);
    DistinctCardinality(t);
    SubsetCardinality(Members(s), Members(t));
    if |s| == |t| {
      forall x | x in t ensures x in s { assert x in Members(s); }
    }
  }

  lemma SubsetCardinality<T>(a: set<T>, b: set<T>)
    requires a <= b
    ensures |a| <= |b|
    ensures |a| == |b| ==> a == b
  {
    assert b == a + (b - a);
  }

  lemma {:induction false} DistinctOccursOnce<T(!new)>(s: seq<T>, x: T)
    requires Distinct(s)
    ensures multiset(s)[x] == if x in s then 1 else 0
  {
    if s != [] {
      var front, last := s[..|s| - 1], s[|s| - 1];
      assert s == front + [last];
      DistinctSplit(front, last);
      DistinctOccursOnce(front, x);
    }
  }

  /** Duplicate-free, equally long and over the same members: a rearrangement. */
  lemma DistinctRearrangement<T(!new)>(s: seq<T>, t: seq<T>)
    requires Distinct(s) && Distinct(t) && |s| == |t|
    requires forall x :: x in s ==> x in t
    ensures multiset(s) == multiset(t)
  {
    Pigeonhole(s, t);
    forall x ensures multiset(s)[x] == multiset(t)[x] {
      DistinctOccursOnce(s, x);
      DistinctOccursOnce(t, x);
    }
  }

  /** A duplicate-free selection is as long as the list exactly when the list has no duplicates
      and nothing was left out. */
  lemma SelectsAll<T(!new)>(list: seq<T>, selection: seq<T>)
    requires Distinct(selection)
    requires forall x :: x in selection ==> x in list
    ensures |selection| == |list| <==> Distinct(list) && forall x :: x in list ==> x in selection
  {
    var all := Collect(list);
    CollectKeepsFirstOccurrences(list);
    CollectLength(list);
    Pigeonhole(selection, all);
    if forall x :: x in list ==> x in selection {
      Pigeonhole(all, selection);
    }
  }

  // ----- last positions

  function LastIndexOf<T(==)>(s: seq<T>, x: T): (i: int)
    ensures -1 <= i < |s|
    ensures i >= 0 ==> s[i] == x
    ensures forall j :: i < j < |s| ==> s[j] != x
  {
    if s == [] then -1
    else if s[|s| - 1] == x then |s| - 1
    else LastIndexOf(s[..|s| - 1], x)
  }

  lemma LastIndexIsHere<T>(s: seq<T>, k: nat)
    requires k < |s| && s[k] !in s[k + 1..]
    ensures LastIndexOf(s, s[k]) == k
  {
    assert forall j :: k < j < |s| ==> s[k + 1..][j - k - 1] == s[j];
  }

  lemma LastIsOnlyIndex<T(!new)>(s: seq<T>, x: T)
    requires Distinct(s) && x in s
    ensures LastIndexOf(s, x) == IndexOf(s, x)
  {
    LastIndexIsHere(s, IndexOf(s, x));
  }

  lemma IndexAfterAppend<T>(s: seq<T>, x: T, y: T)
    requires x !in s && (y in s || y == x)
    ensures y in s + [x]
    ensures IndexOf(s + [x], y) == if y in s then IndexOf(s, y) else |s|
  {
    var t := s + [x];
    var k := if y in s then IndexOf(s, y) else |s|;
    assert t[..k] == s[..k] && t[k] == y;
    IndexOfUnique(t, k);
  }

  /** Members of the list, in its order, possibly repeated. */
  ghost predicate AscendingIn<T>(s: seq<T>, list: seq<T>) {
    && (forall p :: 0 <= p < |s| ==> s[p] in list)
    && (forall p, q :: 0 <= p <= q < |s| ==> IndexOf(list, s[p]) <= IndexOf(list, s[q]))
  }

  lemma AscendingGrows<T>(before: seq<T>, after: seq<T>, list: seq<T>, last: T)
    requires AscendingIn(before, list) && before <= after && last !in list
    requires forall k :: |before| <= k < |after| ==> after[k] == last
    ensures AscendingIn(after, list + [last])
  {
    forall p | 0 <= p < |after|
      ensures after[p] in list + [last]
      ensures IndexOf(list + [last], after[p]) == if p < |before| then IndexOf(list, before[p]) else |list|
    {
      IndexAfterAppend(list, last, after[p]);
    }
  }

  lemma LastIndexAscends<T>(s: seq<T>, list: seq<T>, x: T, y: T)
    requires AscendingIn(s, list) && x in s && x != y
    requires LastIndexOf(s, x) < LastIndexOf(s, y)
    ensures x in list && y in list && IndexOf(list, x) < IndexOf(list, y)
  {
    assert s[IndexOf(s, x)] == x;
    var p, q := LastIndexOf(s, x), LastIndexOf(s, y);
    assert IndexOf(list, s[p]) <= IndexOf(list, s[q]);
  }
}
