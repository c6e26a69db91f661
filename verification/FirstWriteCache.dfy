/** A cache that is filled on a miss and never updated, in front of a builder that may fail: what it
    holds after any history of requests. */
module FirstWriteCache {
  import opened Options
  import opened Sequences

  /** The first request with the key that could be built. */
  function FirstBuilt<C, K(==), V>(key: C -> K, build: C -> Option<V>, requests: seq<C>, k: K): (f: Option<C>)
    ensures f.Some? ==> f.value in requests && key(f.value) == k && build(f.value).Some?
  {
    if requests == [] then None
    else
      var earlier, last := FirstBuilt(key, build, requests[..|requests| - 1], k), requests[|requests| - 1];
      if earlier.Some? then earlier
      else if key(last) == k && build(last).Some? then Some(last)
      else None
  }

  /** The cache as it stands after a history of requests; a build that fails leaves it alone. */
  function CacheAfter<C, K(==), V>(key: C -> K, build: C -> Option<V>, requests: seq<C>): map<K, V> {
    if requests == [] then map[]
    else
      var cache, last := CacheAfter(key, build, requests[..|requests| - 1]), requests[|requests| - 1];
      if key(last) in cache || build(last).None? then cache else cache[key(last) := build(last).value]
  }

  /** No earlier request with the key could be built, and there is one unless none can. */
  lemma {:induction false} FirstBuiltIsFirst<C, K, V>(key: C -> K, build: C -> Option<V>, requests: seq<C>, k: K)
    ensures match FirstBuilt(key, build, requests, k)
            case None => forall i :: 0 <= i < |requests| ==> key(requests[i]) != k || build(requests[i]).None?
            case Some(f) => exists i :: 0 <= i < |requests| && requests[i] == f
                              && forall j :: 0 <= j < i ==> key(requests[j]) != k || build(requests[j]).None?
  {
    if requests != [] {
      var front := requests[..|requests| - 1];
      FirstBuiltIsFirst(key, build, front, k);
      match FirstBuilt(key, build, front, k)
      case Some(f) =>
        var i :| 0 <= i < |front| && front[i] == f
                 && forall j :: 0 <= j < i ==> key(front[j]) != k || build(front[j]).None?;
        assert requests[i] == f && forall j :: 0 <= j < i ==> requests[j] == front[j];
      case None =>
        assert forall j :: 0 <= j < |front| ==> requests[j] == front[j];
    }
  }

  /** The cache holds, under each key, what the first request with that key that could be built was
      built into, and nothing under any other key. */
  lemma {:induction false} CacheHoldsFirst<C, K, V>(key: C -> K, build: C -> Option<V>, requests: seq<C>, k: K)
    ensures var f := FirstBuilt(key, build, requests, k);
            && (k in CacheAfter(key, build, requests) <==> f.Some?)
            && (f.Some? ==> CacheAfter(key, build, requests)[k] == build(f.value).value)
  {
    if requests != [] {
      var front, last := requests[..|requests| - 1], requests[|requests| - 1];
      CacheHoldsFirst(key, build, front, k);
      CacheHoldsFirst(key, build, front, key(last));
    }
  }

  lemma CacheOneMore<C, K, V>(key: C -> K, build: C -> Option<V>, requests: seq<C>, c: C)
    ensures var cache := CacheAfter(key, build, requests);
            CacheAfter(key, build, requests + [c]) ==
            if key(c) in cache || build(c).None? then cache else cache[key(c) := build(c).value]
  {
    PrefixSurvives(requests, c, |requests|);
  }

  /** What a request gets: the build of the first request with its key that could be built, itself
      included. */
  function Served<C, K(==), V>(key: C -> K, build: C -> Option<V>, requests: seq<C>, c: C): Option<V> {
    var first := FirstBuilt(key, build, requests + [c], key(c));
    if first.Some? then build(first.value) else None
  }

  lemma ServedIs<C, K, V>(key: C -> K, build: C -> Option<V>, requests: seq<C>, c: C)
    ensures var first := FirstBuilt(key, build, requests, key(c));
            Served(key, build, requests, c) == if first.Some? then build(first.value) else build(c)
  {
    PrefixSurvives(requests, c, |requests|);
  }

  /** One request against the cache: a hit, a miss that is built and kept, or a miss that fails. */
  lemma ServeFromCache<C, K, V>(key: C -> K, build: C -> Option<V>, requests: seq<C>, c: C)
    ensures var cache, next := CacheAfter(key, build, requests), CacheAfter(key, build, requests + [c]);
            var served := Served(key, build, requests, c);
            && (key(c) in cache ==> next == cache && served == Some(cache[key(c)]))
            && (key(c) !in cache && build(c).Some? ==> next == cache[key(c) := build(c).value] && served == build(c))
            && (key(c) !in cache && build(c).None? ==> next == cache && served == None)
  {
    ServedIs(key, build, requests, c);
    CacheHoldsFirst(key, build, requests, key(c));
    CacheOneMore(key, build, requests, c);
  }
}
