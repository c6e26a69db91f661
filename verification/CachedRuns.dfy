/** Whole runs of requests and resets against a configuration that is parsed once and a cache that is
    filled on a miss and never updated. */
module CachedRuns {
  import opened Options
  import opened FirstWriteCache

  /** A request comes with what the environment parses to at that moment, if it does. */
  datatype Event<C> = Request(parsed: Option<C>) | Reset

  /** The cached configuration, and the configurations that were current at the requests so far. */
  datatype State<C> = State(cached: Option<C>, requests: seq<C>)

  /** The environment is parsed only when no configuration is cached; a failed parse caches nothing. */
  function Loaded<C>(cached: Option<C>, parsed: Option<C>): Option<C> {
    if cached.Some? then cached else parsed
  }

  function Step<C>(s: State<C>, e: Event<C>): State<C> {
    match e
    case Reset => s.(cached := None)
    case Request(parsed) =>
      var loaded := Loaded(s.cached, parsed);
      State(loaded, if loaded.Some? then s.requests + [loaded.value] else s.requests)
  }

  /** What a request gets; None for an error, and for a reset. */
  function Answer<C, K(==), V>(key: C -> K, build: C -> Option<V>, s: State<C>, e: Event<C>): Option<V> {
    if e.Request? && Step(s, e).cached.Some? then Served(key, build, s.requests, Step(s, e).cached.value) else None
  }

  function Run<C>(events: seq<Event<C>>): State<C> {
    if events == [] then State(None, [])
    else Step(Run(events[..|events| - 1]), events[|events| - 1])
  }

  /** The answers to the events, one by one. */
  function Answers<C, K(==), V>(key: C -> K, build: C -> Option<V>, events: seq<Event<C>>): (answers: seq<Option<V>>)
    ensures |answers| == |events|
  {
    if events == [] then []
    else
      var front, last := events[..|events| - 1], events[|events| - 1];
      Answers(key, build, front) + [Answer(key, build, Run(front), last)]
  }

  lemma {:induction false} AnswerAt<C, K, V>(key: C -> K, build: C -> Option<V>, events: seq<Event<C>>, i: nat)
    requires i < |events|
    ensures Answers(key, build, events)[i] == Answer(key, build, Run(events[..i]), events[i])
  {
    var front := events[..|events| - 1];
    if i < |front| {
      AnswerAt(key, build, front, i);
      assert front[..i] == events[..i];
    } else {
      assert front == events[..i];
    }
  }

  /** The configuration that is current right after the i-th event. */
  function CurrentAt<C>(events: seq<Event<C>>, i: nat): Option<C>
    requires i < |events|
  {
    Run(events[..i + 1]).cached
  }

  lemma RunOneMore<C>(events: seq<Event<C>>, i: nat)
    requires i < |events|
    ensures Run(events[..i + 1]) == Step(Run(events[..i]), events[i])
  {
    assert events[..i + 1][..i] == events[..i];
  }

  /** No configuration has been cached since the last reset before the k-th event. */
  ghost predicate NothingLoadedBefore<C>(events: seq<Event<C>>, k: int) {
    exists r :: && -1 <= r < k <= |events| && (r >= 0 ==> events[r].Reset?)
                && forall j :: r < j < k ==> events[j] == Request(None)
  }

  lemma {:induction false} NothingCachedYet<C>(events: seq<Event<C>>, r: int, k: int)
    requires -1 <= r < k <= |events| && (r >= 0 ==> events[r].Reset?)
    requires forall j :: r < j < k ==> events[j] == Request(None)
    ensures Run(events[..k]).cached == None
    decreases k - r
  {
    if k == 0 {
      assert events[..0] == [];
    } else {
      RunOneMore(events, k - 1);
      if k - 1 > r { NothingCachedYet(events, r, k - 1); }
    }
  }

  /** The configuration in force is the first one parsed since the last reset. */
  lemma {:induction false} FirstSinceResetIsCurrent<C>(events: seq<Event<C>>, k: nat, i: nat, c: C)
    requires k <= i < |events| && events[k] == Request(Some(c)) && NothingLoadedBefore(events, k)
    requires forall j :: k < j <= i ==> events[j].Request?
    ensures CurrentAt(events, i) == Some(c)
    decreases i
  {
    RunOneMore(events, i);
    if i == k {
      var r :| && -1 <= r < k && (r >= 0 ==> events[r].Reset?)
               && forall j :: r < j < k ==> events[j] == Request(None);
      NothingCachedYet(events, r, k);
    } else {
      FirstSinceResetIsCurrent(events, k, i - 1, c);
    }
  }

  /** After a reset, and while nothing parses, there is none. */
  lemma NoneIsCurrent<C>(events: seq<Event<C>>, i: nat)
    requires i < |events| && NothingLoadedBefore(events, i + 1)
    ensures CurrentAt(events, i) == None
  {
    var r :| && -1 <= r < i + 1 && (r >= 0 ==> events[r].Reset?)
             && forall j :: r < j < i + 1 ==> events[j] == Request(None);
    NothingCachedYet(events, r, i + 1);
  }

  /** A request gets what was built for the first request with its key that could be built, or else what
      its own configuration builds to. */
  lemma AnswerIs<C, K, V>(key: C -> K, build: C -> Option<V>, events: seq<Event<C>>, i: nat)
    requires i < |events| && events[i].Request?
    ensures Answers(key, build, events)[i] ==
            match CurrentAt(events, i)
            case None => None
            case Some(c) =>
              match FirstBuilt(key, build, Run(events[..i]).requests, key(c))
              case Some(first) => build(first)
              case None => build(c)
  {
    AnswerAt(key, build, events, i);
    RunOneMore(events, i);
    if CurrentAt(events, i).Some? {
      ServedIs(key, build, Run(events[..i]).requests, CurrentAt(events, i).value);
    }
  }

  ghost predicate AllParsed<C>(events: seq<Event<C>>, p: C -> bool) {
    forall i :: 0 <= i < |events| && events[i].Request? && events[i].parsed.Some? ==> p(events[i].parsed.value)
  }

  lemma {:induction false} RunKeeps<C>(events: seq<Event<C>>, p: C -> bool, k: nat)
    requires AllParsed(events, p) && k <= |events|
    ensures var s := Run(events[..k]);
            (s.cached.Some? ==> p(s.cached.value)) && forall i :: 0 <= i < |s.requests| ==> p(s.requests[i])
  {
    if k > 0 {
      RunKeeps(events, p, k - 1);
      RunOneMore(events, k - 1);
    } else {
      assert events[..0] == [];
    }
  }

  /** Where the key tells configurations apart, every request gets what its own configuration builds to. */
  lemma KeyedRunServesCurrent<C(!new), K, V>(key: C -> K, build: C -> Option<V>, events: seq<Event<C>>, p: C -> bool, i: nat)
    requires AllParsed(events, p)
    requires forall c, d :: p(c) && p(d) && key(c) == key(d) ==> c == d
    requires i < |events| && events[i].Request?
    ensures Answers(key, build, events)[i] ==
            match CurrentAt(events, i) case None => None case Some(c) => build(c)
  {
    AnswerIs(key, build, events, i);
    RunKeeps(events, p, i);
    RunKeeps(events, p, i + 1);
    if CurrentAt(events, i).Some? {
      var c := CurrentAt(events, i).value;
      var first := FirstBuilt(key, build, Run(events[..i]).requests, key(c));
      if first.Some? { assert p(first.value); }
    }
  }

  /** A request, a reset and a request under the same key: the second gets what the first was given. */
  lemma RequestResetRequest<C, K, V>(key: C -> K, build: C -> Option<V>, a: C, b: C)
    requires key(a) == key(b) && build(a).Some?
    ensures var events := [Request(Some(a)), Reset, Request(Some(b))];
            CurrentAt(events, 2) == Some(b) && Answers(key, build, events)[2] == build(a)
  {
    var events := [Request(Some(a)), Reset, Request(Some(b))];
    RunOneMore(events, 0);
    RunOneMore(events, 1);
    RunOneMore(events, 2);
    assert events[..0] == [] && [] + [a] == [a];
    assert Run(events[..2]) == State(None, [a]);
    assert [a][..0] == [];
    AnswerIs(key, build, events, 2);
  }
}
