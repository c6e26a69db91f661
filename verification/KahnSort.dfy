/** The queue-driven topological sort, the order it promises, and the method that computes it. */
module KahnSort {
  import opened Sequences
  import opened OrderedSets
  import opened Manifest

  /** Position of the last dependency in the line, or -1 when there is none. */
  function LastDependency(dependencies: seq<string>, line: seq<string>): (i: int)
    ensures -1 <= i < |line|
    ensures i >= 0 ==> line[i] in dependencies
    ensures forall j :: i < j < |line| ==> line[j] !in dependencies
  {
    if line == [] then -1
    else if line[|line| - 1] in dependencies then |line| - 1
    else LastDependency(dependencies, line[..|line| - 1])
  }

  /** The place in line of the dependency that released line[i]; -1 for a module without any. */
  function Wave(edges: seq<Edge>, line: seq<string>, i: nat): (wave: int)
    requires i < |line|
    ensures -1 <= wave < i
  {
    LastDependency(DependenciesIn(edges, line[i]), line[..i])
  }

  /** What the sort works from: the module names in order and the dependency occurrences. */
  datatype Plan = Plan(names: seq<string>, edges: seq<Edge>)

  function PlanOf(entries: seq<Entry>): Plan {
    Plan(Names(entries), Edges(entries))
  }

  ghost predicate WellFormed(plan: Plan) {
    && Distinct(plan.names)
    && forall e :: e in plan.edges ==> e.dependent in plan.names
  }

  /** Earlier waves go first; within a wave the manifest decides. */
  ghost predicate Before(plan: Plan, line: seq<string>, i: nat, j: nat)
    requires i < j < |line|
  {
    var edges := plan.edges;
    var a, b := Wave(edges, line, i), Wave(edges, line, j);
    || a < b
    || (a == b && if a == -1
                  then LastIndexOf(plan.names, line[i]) < LastIndexOf(plan.names, line[j])
                  else var released := DependentsIn(edges, line[a]);
                       LastIndexOf(released, line[i]) < LastIndexOf(released, line[j]))
  }

  ghost predicate InOrder(plan: Plan, line: seq<string>) {
    forall i, j :: 0 <= i < j < |line| ==> Before(plan, line, i, j)
  }

  /** Each module once, each after all of its dependencies. */
  ghost predicate Respects(plan: Plan, line: seq<string>) {
    && Distinct(line)
    && (forall name :: name in line ==> name in plan.names)
    && (forall i, d :: 0 <= i < |line| && d in DependenciesIn(plan.edges, line[i]) ==> d in line[..i])
  }

  /** Nothing whose dependencies have all been placed is left behind. */
  ghost predicate Exhausted(plan: Plan, line: seq<string>) {
    forall name :: name in plan.names
                   && (forall d :: d in DependenciesIn(plan.edges, name) ==> d in line)
                   ==> name in line
  }

  ghost predicate KahnOrder(plan: Plan, line: seq<string>) {
    Respects(plan, line) && Exhausted(plan, line) && InOrder(plan, line)
  }

  // ----- in-degrees

  /** How many dependency occurrences of the module have not been dequeued yet. */
  function Remaining(edges: seq<Edge>, done: seq<string>, name: string): nat {
    if edges == [] then 0
    else
      var e := edges[|edges| - 1];
      Remaining(edges[..|edges| - 1], done, name)
      + if e.dependent == name && e.dependency !in done then 1 else 0
  }

  lemma {:induction false} RemainingAtStart(edges: seq<Edge>, name: string)
    ensures Remaining(edges, [], name) == |DependenciesIn(edges, name)|
  {
    if edges != [] { RemainingAtStart(edges[..|edges| - 1], name); }
  }

  lemma {:induction false} RemainingZero(edges: seq<Edge>, done: seq<string>, name: string)
    ensures Remaining(edges, done, name) == 0 <==>
            forall d :: d in DependenciesIn(edges, name) ==> d in done
  {
    if edges != [] {
      RemainingZero(edges[..|edges| - 1], done, name);
    }
  }

  /** Dequeuing a module takes its occurrences, with repetition, off every in-degree. */
  lemma {:induction false} RemainingAfterDequeue(edges: seq<Edge>, done: seq<string>, current: string, name: string)
    requires current !in done
    ensures Remaining(edges, done, name) ==
            Remaining(edges, done + [current], name) + multiset(DependentsIn(edges, current))[name]
  {
    if edges != [] {
      RemainingAfterDequeue(edges[..|edges| - 1], done, current, name);
    }
  }

  lemma {:induction false} DependentsMirrorDependencies(edges: seq<Edge>, d: string, name: string)
    ensures name in DependentsIn(edges, d) <==> d in DependenciesIn(edges, name)
  {
    if edges != [] {
      DependentsMirrorDependencies(edges[..|edges| - 1], d, name);
    }
  }

  lemma {:induction false} DependentIsName(edges: seq<Edge>, d: string, name: string)
    requires name in DependentsIn(edges, d)
    ensures exists e :: e in edges && e.dependent == name
  {
    var front, last := edges[..|edges| - 1], edges[|edges| - 1];
    if name in DependentsIn(front, d) {
      DependentIsName(front, d, name);
    } else {
      assert last in edges;
    }
  }

  lemma {:induction false} EdgesAreNamed(entries: seq<Entry>, e: Edge)
    requires e in Edges(entries)
    ensures e.dependent in NameList(entries)
  {
    var front := entries[..|entries| - 1];
    if e in Edges(front) {
      EdgesAreNamed(front, e);
    } else {
      OwnEdges(entries[|front|].name, entries[|front|].dependencies, e);
    }
  }

  lemma {:induction false} OwnEdges(name: string, dependencies: seq<string>, e: Edge)
    requires e in EntryEdges(name, dependencies)
    ensures e.dependent == name
  {
    var front := dependencies[..|dependencies| - 1];
    if e in EntryEdges(name, front) { OwnEdges(name, front, e); }
  }

  lemma PlanIsWellFormed(entries: seq<Entry>)
    ensures WellFormed(PlanOf(entries))
  {
    NamesAreKeys(entries);
    forall e | e in Edges(entries) { EdgesAreNamed(entries, e); }
  }

  // ----- the algorithm

  /** The adjacency list a Map holds for a key, or the empty list. */
  function GetOrEmpty(m: map<string, seq<string>>, key: string): seq<string> {
    if key in m then m[key] else []
  }

  ghost predicate Counted(graph: map<string, seq<string>>, inDegree: map<string, int>, edges: seq<Edge>) {
    && (forall name :: name in inDegree ==> inDegree[name] == |DependenciesIn(edges, name)|)
    && (forall name :: GetOrEmpty(graph, name) == DependentsIn(edges, name))
  }

  method InitialMaps(entries: seq<Entry>)
    returns (graph: map<string, seq<string>>, inDegree: map<string, int>, order: seq<string>, entryMap: map<string, Entry>)
    ensures order == Names(entries) && inDegree.Keys == Members(order)
    ensures entryMap == EntryMap(entries)
    ensures Counted(graph, inDegree, [])
  {
    graph, inDegree, order, entryMap := map[], map[], [], map[];
    for i := 0 to |entries|
      invariant order == Names(entries[..i])
      invariant entryMap == EntryMap(entries[..i])
      invariant inDegree.Keys == Members(order)
      invariant forall name :: name in graph ==> graph[name] == []
      invariant forall name :: name in inDegree ==> inDegree[name] == 0
    {
      var entry := entries[i];
      PrefixStep(entries, i);
      graph := graph[entry.name := []];
      inDegree := inDegree[entry.name := 0];
      order := Add(order, entry.name);
      entryMap := entryMap[entry.name := entry];
    }
    PrefixStep(entries, |entries|);
  }

  lemma CountOneMore(graph: map<string, seq<string>>, inDegree: map<string, int>, edges: seq<Edge>, e: Edge)
    requires Counted(graph, inDegree, edges) && e.dependent in inDegree
    ensures Counted(graph[e.dependency := GetOrEmpty(graph, e.dependency) + [e.dependent]],
                    inDegree[e.dependent := inDegree[e.dependent] + 1], edges + [e])
  {
    var graph', inDegree' := graph[e.dependency := GetOrEmpty(graph, e.dependency) + [e.dependent]],
                             inDegree[e.dependent := inDegree[e.dependent] + 1];
    forall name ensures GetOrEmpty(graph', name) == DependentsIn(edges + [e], name) {
      DependentsAppend(edges, e, name);
    }
    forall name | name in inDegree' ensures inDegree'[name] == |DependenciesIn(edges + [e], name)| {
      DependentsAppend(edges, e, name);
    }
  }

  method CountEntry(entry: Entry, graph0: map<string, seq<string>>, inDegree0: map<string, int>, ghost edges: seq<Edge>)
    returns (graph: map<string, seq<string>>, inDegree: map<string, int>)
    requires Counted(graph0, inDegree0, edges) && entry.name in inDegree0
    ensures Counted(graph, inDegree, edges + EntryEdges(entry.name, entry.dependencies))
    ensures inDegree.Keys == inDegree0.Keys
  {
    graph, inDegree := graph0, inDegree0;
    var deps := entry.dependencies;
    ghost var all := edges;
    for j := 0 to |deps|
      invariant all == edges + EntryEdges(entry.name, deps[..j])
      invariant inDegree.Keys == inDegree0.Keys
      invariant Counted(graph, inDegree, all)
    {
      var dep := deps[j];
      PrefixStep(deps, j);
      EdgesAppendOne(edges, EntryEdges(entry.name, deps[..j]), Edge(entry.name, dep));
      CountOneMore(graph, inDegree, all, Edge(entry.name, dep));
      graph := graph[dep := GetOrEmpty(graph, dep) + [entry.name]];
      inDegree := inDegree[entry.name := inDegree[entry.name] + 1];
      all := all + [Edge(entry.name, dep)];
    }
    PrefixStep(deps, |deps|);
  }

  method CountEdges(entries: seq<Entry>, graph0: map<string, seq<string>>, inDegree0: map<string, int>)
    returns (graph: map<string, seq<string>>, inDegree: map<string, int>)
    requires inDegree0.Keys == Members(Names(entries))
    requires Counted(graph0, inDegree0, [])
    ensures Counted(graph, inDegree, Edges(entries)) && inDegree.Keys == inDegree0.Keys
  {
    graph, inDegree := graph0, inDegree0;
    NamesAreKeys(entries);
    for i := 0 to |entries|
      invariant inDegree.Keys == inDegree0.Keys
      invariant Counted(graph, inDegree, Edges(entries[..i]))
    {
      assert NameList(entries)[i] == entries[i].name;
      PrefixStep(entries, i);
      graph, inDegree := CountEntry(entries[i], graph, inDegree, Edges(entries[..i]));
    }
    PrefixStep(entries, |entries|);
  }

  /** Everything that holds while the queue is being worked off.  The line is the whole enqueuing
      order; its first h modules are dequeued, the rest are in the queue. */
  ghost predicate QueueState(plan: Plan, inDegree: map<string, int>, line: seq<string>, h: nat) {
    && h <= |line|
    && Respects(plan, line) && InOrder(plan, line)
    && (forall i :: 0 <= i < |line| ==> Wave(plan.edges, line, i) < h)
    && DegreesAt(plan, inDegree, line, line[..h], [])
  }

  /** The same in the middle of releasing the dependents of line[h]: the first k are done. */
  ghost predicate ReleaseState(plan: Plan, inDegree: map<string, int>, line: seq<string>, h: nat, k: nat) {
    var edges := plan.edges;
    && h < |line| && k <= |DependentsIn(edges, line[h])|
    && Respects(plan, line) && InOrder(plan, line)
    && WavesUpTo(plan, line, h, k)
    && DegreesAt(plan, inDegree, line, line[..h + 1], DependentsIn(edges, line[h])[k..])
  }

  ghost predicate WavesUpTo(plan: Plan, line: seq<string>, h: nat, k: nat)
    requires h < |line|
  {
    var edges := plan.edges;
    forall i :: 0 <= i < |line| ==>
      || Wave(edges, line, i) < h
      || (Wave(edges, line, i) == h && LastIndexOf(DependentsIn(edges, line[h]), line[i]) < k)
  }

  /** Every in-degree is the number of dependency occurrences not dequeued yet, plus those still
      to be subtracted in this round; in-degree zero is the same as being in line. */
  ghost predicate DegreesAt(plan: Plan, inDegree: map<string, int>, line: seq<string>,
                            done: seq<string>, pending: seq<string>) {
    && inDegree.Keys == Members(plan.names)
    && forall name :: name in inDegree ==>
         && inDegree[name] == Remaining(plan.edges, done, name) + multiset(pending)[name]
         && (name in line <==> inDegree[name] == 0)
  }

  lemma StartReleasing(plan: Plan, inDegree: map<string, int>, line: seq<string>, h: nat)
    requires QueueState(plan, inDegree, line, h) && h < |line|
    ensures ReleaseState(plan, inDegree, line, h, 0)
  {
    var released := DependentsIn(plan.edges, line[h]);
    assert released[0..] == released;
    assert line[..h + 1] == line[..h] + [line[h]];
    assert line[h] !in line[..h];
    forall name { RemainingAfterDequeue(plan.edges, line[..h], line[h], name); }
  }

  lemma FinishReleasing(plan: Plan, inDegree: map<string, int>, line: seq<string>, h: nat)
    requires h < |line|
    requires ReleaseState(plan, inDegree, line, h, |DependentsIn(plan.edges, line[h])|)
    ensures QueueState(plan, inDegree, line, h + 1)
  {
    var released := DependentsIn(plan.edges, line[h]);
    assert released[|released|..] == [];
  }

  lemma {:induction false} LastDependencyIs(dependencies: seq<string>, line: seq<string>, h: nat)
    requires h < |line| && Distinct(line) && line[h] in dependencies
    requires forall d :: d in dependencies ==> d in line[..h + 1]
    ensures LastDependency(dependencies, line) == h
  {
  }

  lemma WavesAreStable(edges: seq<Edge>, line: seq<string>, x: string)
    ensures forall i :: 0 <= i < |line| ==> Wave(edges, line + [x], i) == Wave(edges, line, i)
  {
    forall i | 0 <= i < |line| ensures Wave(edges, line + [x], i) == Wave(edges, line, i) {
      assert (line + [x])[..i] == line[..i];
    }
  }

  /** Appending a module whose dependencies are all placed keeps the line respectful. */
  lemma EnqueueRespects(plan: Plan, line: seq<string>, x: string)
    requires Respects(plan, line)
    requires x in plan.names && x !in line
    requires forall d :: d in DependenciesIn(plan.edges, x) ==> d in line
    ensures Respects(plan, line + [x])
  {
    var next := line + [x];
    forall i, d | 0 <= i < |next| && d in DependenciesIn(plan.edges, next[i]) ensures d in next[..i] {
      assert next[..i] == line[..i];
      assert line[..|line|] == line;
    }
  }

  /** Why a module released in wave h may go to the end of the line. */
  ghost predicate GoesLast(plan: Plan, line: seq<string>, x: string, h: int) {
    var edges := plan.edges;
    && -1 <= h < |line|
    && LastDependency(DependenciesIn(edges, x), line) == h
    && var peers := if h == -1 then plan.names else DependentsIn(edges, line[h]);
    forall i :: 0 <= i < |line| ==>
      || Wave(edges, line, i) < h
      || (Wave(edges, line, i) == h && LastIndexOf(peers, line[i]) < LastIndexOf(peers, x))
  }

  lemma LastIsAfter(plan: Plan, line: seq<string>, x: string, h: int, i: nat)
    requires GoesLast(plan, line, x, h) && i < |line|
    ensures Before(plan, line + [x], i, |line|)
  {
    var next := line + [x];
    WavesAreStable(plan.edges, line, x);
    assert next[..|line|] == line && next[i] == line[i];
    assert Wave(plan.edges, next, |line|) == h;
  }

  lemma EnqueueInOrder(plan: Plan, line: seq<string>, x: string, h: int)
    requires InOrder(plan, line) && GoesLast(plan, line, x, h)
    ensures InOrder(plan, line + [x])
  {
    var next := line + [x];
    forall i, j | 0 <= i < j < |next| ensures Before(plan, next, i, j) {
      if j < |line| {
        WavesAreStable(plan.edges, line, x);
        assert Before(plan, line, i, j);
        assert next[i] == line[i] && next[j] == line[j];
      } else {
        LastIsAfter(plan, line, x, h, i);
      }
    }
  }

  lemma EnqueueDegrees(plan: Plan, inDegree: map<string, int>, line: seq<string>,
                       done: seq<string>, x: string, rest: seq<string>)
    requires DegreesAt(plan, inDegree, line, done, [x] + rest)
    requires x in inDegree && inDegree[x] == 1
    ensures x !in line
    ensures forall d :: d in DependenciesIn(plan.edges, x) ==> d in done
    ensures x !in rest
    ensures DegreesAt(plan, inDegree[x := 0], line + [x], done, rest)
  {
    assert x !in rest && Remaining(plan.edges, done, x) == 0;
    RemainingZero(plan.edges, done, x);
  }

  lemma EnqueueWaves(plan: Plan, line: seq<string>, h: nat, k: nat, x: string)
    requires Distinct(line) && InOrder(plan, line)
    requires h < |line| && WavesUpTo(plan, line, h, k)
    requires k < |DependentsIn(plan.edges, line[h])| && x == DependentsIn(plan.edges, line[h])[k]
    requires x !in DependentsIn(plan.edges, line[h])[k + 1..]
    requires forall d :: d in DependenciesIn(plan.edges, x) ==> d in line[..h + 1]
    ensures InOrder(plan, line + [x])
    ensures WavesUpTo(plan, line + [x], h, k + 1)
  {
    var edges := plan.edges;
    DependentsMirrorDependencies(edges, line[h], x);
    LastDependencyIs(DependenciesIn(edges, x), line, h);
    LastIndexIsHere(DependentsIn(edges, line[h]), k);
    EnqueueInOrder(plan, line, x, h);
    WavesAreStable(edges, line, x);
    PrefixSurvives(line, x, 0);
  }

  /** The release that brings an in-degree to zero puts that module at the end of the queue. */
  lemma Enqueue(plan: Plan, inDegree: map<string, int>, line: seq<string>, h: nat, k: nat, x: string)
    requires ReleaseState(plan, inDegree, line, h, k)
    requires k < |DependentsIn(plan.edges, line[h])| && x == DependentsIn(plan.edges, line[h])[k]
    requires x in inDegree && inDegree[x] == 1
    ensures ReleaseState(plan, inDegree[x := 0], line + [x], h, k + 1)
  {
    var released := DependentsIn(plan.edges, line[h]);
    SuffixHead(released, k);
    EnqueueDegrees(plan, inDegree, line, line[..h + 1], x, released[k + 1..]);
    EnqueueRespects(plan, line, x);
    EnqueueWaves(plan, line, h, k, x);
    PrefixSurvives(line, x, h + 1);
  }

  lemma Release(plan: Plan, inDegree: map<string, int>, line: seq<string>, h: nat, k: nat, x: string)
    requires ReleaseState(plan, inDegree, line, h, k)
    requires k < |DependentsIn(plan.edges, line[h])| && x == DependentsIn(plan.edges, line[h])[k]
    requires x in inDegree && inDegree[x] != 1
    ensures inDegree[x] > 1 && ReleaseState(plan, inDegree[x := inDegree[x] - 1], line, h, k + 1)
  {
    var released := DependentsIn(plan.edges, line[h]);
    SuffixHead(released, k);
    ReleaseDegrees(plan, inDegree, line, line[..h + 1], x, released[k + 1..]);
    assert WavesUpTo(plan, line, h, k + 1);
  }

  lemma ReleaseDegrees(plan: Plan, inDegree: map<string, int>, line: seq<string>,
                       done: seq<string>, x: string, rest: seq<string>)
    requires DegreesAt(plan, inDegree, line, done, [x] + rest)
    requires x in inDegree && inDegree[x] != 1
    ensures inDegree[x] > 1
    ensures DegreesAt(plan, inDegree[x := inDegree[x] - 1], line, done, rest)
  {
    assert multiset([x] + rest)[x] == 1 + multiset(rest)[x];
  }

  /** The roots: the modules without dependencies, in manifest order. */
  ghost predicate RootsBefore(plan: Plan, line: seq<string>, k: nat) {
    && Respects(plan, line) && InOrder(plan, line) && k <= |plan.names|
    && (forall i :: 0 <= i < |line| ==> Wave(plan.edges, line, i) == -1)
    && (forall name :: name in line <==> name in plan.names[..k] && DependenciesIn(plan.edges, name) == [])
  }

  lemma RootGoesLast(plan: Plan, line: seq<string>, k: nat)
    requires WellFormed(plan) && RootsBefore(plan, line, k) && k < |plan.names|
    requires DependenciesIn(plan.edges, plan.names[k]) == []
    ensures plan.names[k] !in line
    ensures GoesLast(plan, line, plan.names[k], -1)
  {
    var names := plan.names;
    LastIndexIsHere(names, k);
    forall i | 0 <= i < |line| ensures LastIndexOf(names, line[i]) < k {
      LastIndexIsHere(names, IndexOf(names[..k], line[i]));
    }
  }

  lemma RootWaves(plan: Plan, line: seq<string>, x: string)
    requires forall i :: 0 <= i < |line| ==> Wave(plan.edges, line, i) == -1
    requires DependenciesIn(plan.edges, x) == []
    ensures forall i :: 0 <= i < |line| + 1 ==> Wave(plan.edges, line + [x], i) == -1
  {
    WavesAreStable(plan.edges, line, x);
    PrefixSurvives(line, x, 0);
  }

  lemma EnqueueRoot(plan: Plan, line: seq<string>, k: nat)
    requires WellFormed(plan) && RootsBefore(plan, line, k) && k < |plan.names|
    requires DependenciesIn(plan.edges, plan.names[k]) == []
    ensures RootsBefore(plan, line + [plan.names[k]], k + 1)
  {
    var x := plan.names[k];
    PrefixStep(plan.names, k);
    RootGoesLast(plan, line, k);
    EnqueueRespects(plan, line, x);
    EnqueueInOrder(plan, line, x, -1);
    RootWaves(plan, line, x);
  }

  lemma StartQueue(plan: Plan, inDegree: map<string, int>, line: seq<string>)
    requires RootsBefore(plan, line, |plan.names|)
    requires inDegree.Keys == Members(plan.names)
    requires forall name :: name in inDegree ==> inDegree[name] == |DependenciesIn(plan.edges, name)|
    ensures QueueState(plan, inDegree, line, 0)
  {
    assert plan.names[..|plan.names|] == plan.names;
    forall name { RemainingAtStart(plan.edges, name); }
    assert line[..0] == [];
  }

  lemma QueueEmpty(plan: Plan, inDegree: map<string, int>, line: seq<string>)
    requires QueueState(plan, inDegree, line, |line|)
    ensures KahnOrder(plan, line)
  {
    assert line[..|line|] == line;
    forall name { RemainingZero(plan.edges, line, name); }
  }

  lemma LineIsBounded(plan: Plan, line: seq<string>)
    requires WellFormed(plan) && Respects(plan, line)
    ensures |line| <= |plan.names|
  {
    Pigeonhole(line, plan.names);
  }

  /** Every occurrence of a dependent takes one off its in-degree. */
  ghost predicate TakenOff(before: map<string, int>, dependents: seq<string>, after: map<string, int>) {
    && after.Keys == before.Keys
    && forall name :: name in before ==> after[name] == before[name] - multiset(dependents)[name]
  }

  lemma TakeOneOff(before: map<string, int>, dependents: seq<string>, k: nat, after: map<string, int>)
    requires k < |dependents| && dependents[k] in after && TakenOff(before, dependents[..k], after)
    ensures TakenOff(before, dependents[..k + 1], after[dependents[k] := after[dependents[k]] - 1])
  {
    PrefixStep(dependents, k);
  }

  /** One turn of the queue: its head has just been emitted and its dependents are released. */
  method ReleaseDependents(ghost plan: Plan, dependents: seq<string>, inDegree0: map<string, int>,
                           ghost done: seq<string>, ghost current: string,
                           queue0: seq<string>, ghost line0: seq<string>)
    returns (inDegree: map<string, int>, queue: seq<string>, ghost line: seq<string>)
    requires WellFormed(plan) && line0 == done + [current] + queue0
    requires QueueState(plan, inDegree0, line0, |done|)
    requires dependents == DependentsIn(plan.edges, current)
    ensures QueueState(plan, inDegree, line, |done| + 1)
    ensures line == done + [current] + queue
    ensures TakenOff(inDegree0, dependents, inDegree)
  {
    ghost var h := |done|;
    inDegree, queue, line := inDegree0, queue0, line0;
    StartReleasing(plan, inDegree, line, h);
    for k := 0 to |dependents|
      invariant ReleaseState(plan, inDegree, line, h, k)
      invariant line == done + [current] + queue
      invariant TakenOff(inDegree0, dependents[..k], inDegree)
    {
      var dependent := dependents[k];
      assert line[h] == current;
      DependentIsName(plan.edges, current, dependent);
      var newDegree := inDegree[dependent] - 1;
      if newDegree == 0 {
        Enqueue(plan, inDegree, line, h, k, dependent);
        TailGrows(done + [current], queue, dependent);
        queue := queue + [dependent];
        line := line + [dependent];
      } else {
        Release(plan, inDegree, line, h, k, dependent);
      }
      TakeOneOff(inDegree0, dependents, k, inDegree);
      inDegree := inDegree[dependent := newDegree];
    }
    PrefixStep(dependents, |dependents|);
    FinishReleasing(plan, inDegree, line, h);
  }

  method InitialQueue(ghost plan: Plan, order: seq<string>, inDegree: map<string, int>) returns (queue: seq<string>)
    requires WellFormed(plan) && order == plan.names && inDegree.Keys == Members(order)
    requires forall name :: name in inDegree ==> inDegree[name] == |DependenciesIn(plan.edges, name)|
    ensures QueueState(plan, inDegree, queue, 0)
  {
    queue := [];
    for k := 0 to |order|
      invariant RootsBefore(plan, queue, k)
    {
      PrefixStep(order, k);
      assert order[k] in inDegree;
      if inDegree[order[k]] == 0 {
        EnqueueRoot(plan, queue, k);
        queue := queue + [order[k]];
      }
    }
    StartQueue(plan, inDegree, queue);
  }

  /** The entries emitted so far are the recorded ones of the dequeued names. */
  ghost predicate Emitted(entries: seq<Entry>, result: seq<Entry>) {
    forall i :: 0 <= i < |result| ==>
      result[i].name in EntryMap(entries) && result[i] == EntryMap(entries)[result[i].name]
  }

  lemma EmitOne(entries: seq<Entry>, result: seq<Entry>, name: string)
    requires Emitted(entries, result) && name in EntryMap(entries)
    ensures Emitted(entries, result + [EntryMap(entries)[name]])
    ensures NameList(result + [EntryMap(entries)[name]]) == NameList(result) + [name]
  {
    SearchGraphKeys(entries);
    var next := result + [EntryMap(entries)[name]];
    assert next[..|result|] == result;
  }

  method TopologicalSort(entries: seq<Entry>) returns (result: seq<Entry>)
    ensures KahnOrder(PlanOf(entries), NameList(result))
    ensures Emitted(entries, result)
  {
    ghost var plan := PlanOf(entries);
    PlanIsWellFormed(entries);
    SearchGraphKeys(entries);
    NamesAreKeys(entries);
    var graph, inDegree, order, entryMap := InitialMaps(entries);
    graph, inDegree := CountEdges(entries, graph, inDegree);

    var queue := InitialQueue(plan, order, inDegree);
    result := [];
    ghost var done, line := [], queue;
    while |queue| > 0
      invariant QueueState(plan, inDegree, line, |done|)
      invariant line == done + queue
      invariant NameList(result) == done && Emitted(entries, result)
      decreases |plan.names| - |done|
    {
      LineIsBounded(plan, line);
      var current := queue[0];
      HeadMoves(done, queue);
      EmitOne(entries, result, current);
      queue := queue[1..];
      result := result + [entryMap[current]];
      var dependents := GetOrEmpty(graph, current);
      inDegree, queue, line := ReleaseDependents(plan, dependents, inDegree, done, current, queue, line);
      done := done + [current];
    }
    assert line == done;
    QueueEmpty(plan, inDegree, line);
  }
}
