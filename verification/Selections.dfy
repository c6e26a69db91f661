/** Array.filter and concatenation, and what they do to the order of elements. */
module Selections {
  import opened OrderedSets

  function Select<T>(s: seq<T>, p: T -> bool): seq<T> {
    if s == [] then []
    else Select(s[..|s| - 1], p) + if p(s[|s| - 1]) then [s[|s| - 1]] else []
  }

  /** x stands somewhere before y. */
  ghost predicate Precedes<T(!new)>(s: seq<T>, x: T, y: T) {
    exists i, j :: 0 <= i < j < |s| && s[i] == x && s[j] == y
  }

  lemma PrecedesAt<T(!new)>(s: seq<T>, i: nat, j: nat)
    requires i < j < |s|
    ensures Precedes(s, s[i], s[j])
  {}

  lemma {:induction false} SelectMembers<T(!new)>(s: seq<T>, p: T -> bool)
    ensures forall x :: x in Select(s, p) <==> x in s && p(x)
    ensures Distinct(s) ==> Distinct(Select(s, p))
  {
    if s != [] {
      var front, last := s[..|s| - 1], s[|s| - 1];
      SelectMembers(front, p);
      assert s == front + [last];
      if Distinct(s) { DistinctSplit(front, last); }
    }
  }

  lemma PrecedesAppend<T(!new)>(s: seq<T>, t: seq<T>, x: T, y: T)
    ensures Precedes(s + t, x, y) <==> Precedes(s, x, y) || Precedes(t, x, y) || (x in s && y in t)
  {
    var all := s + t;
    assert forall i :: 0 <= i < |s| ==> all[i] == s[i];
    assert forall i :: 0 <= i < |t| ==> all[|s| + i] == t[i];
    if i, j :| 0 <= i < j < |all| && all[i] == x && all[j] == y {
      if j < |s| {
        assert s[i] == x && s[j] == y;
      } else if i < |s| {
        assert s[i] == x && t[j - |s|] == y;
      } else {
        assert t[i - |s|] == x && t[j - |s|] == y;
      }
    }
  }

  lemma NothingPrecedesInSingleton<T(!new)>(z: T, x: T, y: T)
    ensures !Precedes([z], x, y)
  {}

  /** Filtering keeps the relative order of what it keeps. */
  lemma {:induction false} SelectKeepsOrder<T(!new)>(s: seq<T>, p: T -> bool, x: T, y: T)
    requires p(x) && p(y)
    ensures Precedes(Select(s, p), x, y) <==> Precedes(s, x, y)
  {
    if s != [] {
      var front, last := s[..|s| - 1], s[|s| - 1];
      SelectKeepsOrder(front, p, x, y);
      SelectMembers(front, p);
      assert s == front + [last];
      PrecedesAppend(front, [last], x, y);
      PrecedesAppend(Select(front, p), [last], x, y);
      NothingPrecedesInSingleton(last, x, y);
      assert Select(front, p) + [] == Select(front, p);
    }
  }

  lemma PrecedesMembers<T(!new)>(s: seq<T>, x: T, y: T)
    ensures Precedes(s, x, y) ==> x in s && y in s
  {}

  lemma DistinctAppend<T(!new)>(s: seq<T>, t: seq<T>)
    requires Distinct(s) && Distinct(t)
    requires forall x :: x in s ==> x !in t
    ensures Distinct(s + t)
  {
    var all := s + t;
    forall i, j | 0 <= i < j < |all| ensures all[i] != all[j] {
      assert i < |s| ==> all[i] == s[i] && s[i] in s;
      assert j >= |s| ==> all[j] == t[j - |s|] && t[j - |s|] in t;
    }
  }
}
