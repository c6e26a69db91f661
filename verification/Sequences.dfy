/** Small facts about sequences that the longer proofs would otherwise rediscover. */
module Sequences {

  lemma Reassociate<T>(a: seq<T>, b: seq<T>, c: seq<T>)
    ensures a + b + c == a + (b + c)
  {}

  lemma DropHead<T>(x: T, rest: seq<T>)
    ensures ([x] + rest)[1..] == rest && ([x] + rest)[0] == x
  {}

  lemma DropFront<T>(front: seq<T>, rest: seq<T>)
    ensures (front + rest)[|front|..] == rest && (front + rest)[..|front|] == front
    ensures front <= front + rest
  {}

  lemma HeadMoves<T>(done: seq<T>, queue: seq<T>)
    requires queue != []
    ensures done + queue == done + [queue[0]] + queue[1..]
    ensures (done + queue)[|done|] == queue[0]
    ensures (done + queue)[..|done|] == done
  {}

  lemma TailGrows<T>(done: seq<T>, queue: seq<T>, x: T)
    ensures done + queue + [x] == done + (queue + [x])
  {}

  lemma PrefixSurvives<T>(s: seq<T>, x: T, k: nat)
    requires k <= |s|
    ensures (s + [x])[..k] == s[..k]
    ensures (s + [x])[..|s|] == s
  {}

  lemma PrefixStep<T>(s: seq<T>, k: nat)
    requires k <= |s|
    ensures k < |s| ==> s[..k + 1] == s[..k] + [s[k]] && s[..k + 1][..k] == s[..k]
    ensures s[..|s|] == s
  {}

  lemma FrontAndLast<T>(s: seq<T>)
    requires s != []
    ensures s == s[..|s| - 1] + [s[|s| - 1]]
  {}

  lemma SuffixHead<T>(s: seq<T>, k: nat)
    requires k < |s|
    ensures s[k..] == [s[k]] + s[k + 1..]
  {}

  lemma MembersOfPrefix<T>(s: seq<T>, k: nat)
    requires k <= |s|
    ensures forall x :: x in s[..k] ==> x in s
  {}

  lemma ConsEquality<T>(x: T, s: seq<T>, y: T, t: seq<T>)
    ensures [x] + s == [y] + t <==> x == y && s == t
  {
    if [x] + s == [y] + t {
      assert ([x] + s)[0] == ([y] + t)[0];
      assert ([x] + s)[1..] == s && ([y] + t)[1..] == t;
    }
  }

  lemma AppendEquality<T>(s: seq<T>, x: T, t: seq<T>, y: T)
    ensures s + [x] == t + [y] <==> s == t && x == y
  {
    if s + [x] == t + [y] {
      assert (s + [x])[|s|] == x && (t + [y])[|t|] == y;
      assert s == (s + [x])[..|s|] && t == (t + [y])[..|t|];
    }
  }

  lemma FrontCancels<T>(front: seq<T>, a: seq<T>, b: seq<T>)
    ensures front + a == front + b <==> a == b
  {
    if front + a == front + b {
      assert (front + a)[|front|..] == a && (front + b)[|front|..] == b;
    }
  }
}
