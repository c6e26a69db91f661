/** The depth-first cycle search.  The closure `dfs` of the original shares `visited`,
    `recursionStack` and `path`; here they are the fields of one object. */
module CycleSearch {
  import opened Options
  import opened Sequences
  import opened OrderedSets
  import opened Manifest

  /** Every known dependency of an element stands strictly before it. */
  ghost predicate Settled(g: Graph, order: seq<string>) {
    forall i, d :: 0 <= i < |order| && order[i] in g && d in g[order[i]] && d in g ==> d in order[..i]
  }

  /** Of the known dependencies of the module that reach a cycle, the first is d. */
  ghost predicate FirstCyclicStep(g: Graph, name: string, d: string) {
    && name in g
    && exists k :: && 0 <= k < |g[name]| && g[name][k] == d
                   && forall j :: 0 <= j < k && g[name][j] in g ==> !ReachesCycle(g, g[name][j])
  }

  /** Every step goes to the first dependency that reaches a cycle. */
  ghost predicate TakesFirstSteps(g: Graph, path: seq<string>) {
    forall i :: 0 <= i < |path| - 1 ==> FirstCyclicStep(g, path[i], path[i + 1])
  }

  /** A duplicate-free walk through known modules that takes the first step towards a cycle everywhere,
      and whose last module takes it back to a module of the walk. */
  ghost predicate ClosesOnItself(g: Graph, path: seq<string>) {
    && KnownWalk(g, path) && Distinct(path) && TakesFirstSteps(g, path)
    && exists d :: d in path && FirstCyclicStep(g, path[|path| - 1], d)
  }

  /** The first module, in iteration order, from which a cycle can be reached. */
  ghost predicate FirstCyclic(g: Graph, names: seq<string>, i: int) {
    && 0 <= i < |names| && ReachesCycle(g, names[i])
    && forall j :: 0 <= j < i ==> !ReachesCycle(g, names[j])
  }

  lemma {:induction false} SettledWalkDescends(g: Graph, order: seq<string>, w: seq<string>)
    requires Settled(g, order) && Distinct(order)
    requires KnownWalk(g, w) && w[0] in order
    ensures forall i :: 0 <= i < |w| ==> w[i] in order
    ensures forall i, j :: 0 <= i < j < |w| ==> IndexOf(order, w[j]) < IndexOf(order, w[i])
  {
    if |w| > 1 {
      var k := IndexOf(order, w[0]);
      assert w[1] in order[..k];
      IndexOfUnique(order, IndexOf(order[..k], w[1]));
      var rest := w[1..];
      assert forall i :: 0 <= i < |rest| ==> rest[i] == w[i + 1];
      SettledWalkDescends(g, order, rest);
      assert forall i :: 1 <= i < |w| ==> w[i] == rest[i - 1];
    }
  }

  /** What has been finished without a find cannot reach a cycle. */
  lemma SettledReachesNoCycle(g: Graph, order: seq<string>, name: string)
    requires Settled(g, order) && Distinct(order) && name in order
    ensures !ReachesCycle(g, name)
  {
    forall w | KnownWalk(g, w) && w[0] == name ensures Distinct(w) {
      SettledWalkDescends(g, order, w);
    }
  }

  /** The path left behind by a successful search witnesses a cycle reachable from its head. */
  lemma PathReachesCycle(g: Graph, path: seq<string>)
    requires ClosesOnItself(g, path)
    ensures ReachesCycle(g, path[0])
  {
    var d :| d in path && FirstCyclicStep(g, path[|path| - 1], d);
    var w := path + [d];
    assert KnownWalk(g, w);
    assert w[IndexOf(path, d)] == w[|path|];
  }

  /** What the search keeps between any two of its steps: the path is a walk, the recursion stack
      holds its modules, and every other visited module is finished after all its dependencies. */
  ghost predicate SearchState(g: Graph, visited: set<string>, stack: set<string>,
                              path: seq<string>, finished: seq<string>) {
    && Distinct(path) && Distinct(finished)
    && (path != [] ==> KnownWalk(g, path))
    && TakesFirstSteps(g, path)
    && stack == Members(path)
    && visited == stack + Members(finished)
    && stack !! Members(finished)
    && visited <= g.Keys
    && Settled(g, finished)
  }

  lemma PushKeepsState(g: Graph, visited: set<string>, stack: set<string>,
                       path: seq<string>, finished: seq<string>, node: string)
    requires SearchState(g, visited, stack, path, finished)
    requires node in g && node !in visited
    requires path != [] ==> FirstCyclicStep(g, path[|path| - 1], node)
    ensures SearchState(g, visited + {node}, stack + {node}, path + [node], finished)
  {
    assert node !in path;
    assert Members(path + [node]) == Members(path) + {node};
  }

  lemma PopKeepsState(g: Graph, visited: set<string>, stack: set<string>,
                      path: seq<string>, finished: seq<string>, node: string)
    requires SearchState(g, visited, stack, path + [node], finished)
    requires node in g && forall d :: d in g[node] && d in g ==> d in finished
    ensures SearchState(g, visited, stack - {node}, path, finished + [node])
  {
    var all, order := path + [node], finished + [node];
    DistinctSplit(path, node);
    assert all[|path|] == node && node in Members(all);
    assert Members(all) == Members(path) + {node};
    assert Members(order) == Members(finished) + {node};
    if path != [] {
      assert forall i :: 0 <= i < |path| ==> all[i] == path[i];
    }
    forall i, d | 0 <= i < |order| && order[i] in g && d in g[order[i]] && d in g
      ensures d in order[..i]
    {
      assert order[..i] == finished[..i];
      assert finished[..|finished|] == finished;
    }
  }

  /** Dependencies that are finished cannot be the first to reach a cycle. */
  lemma FinishedDependenciesAreSkipped(g: Graph, finished: seq<string>, node: string, i: nat)
    requires Settled(g, finished) && Distinct(finished)
    requires node in g && i < |g[node]|
    requires forall j :: 0 <= j < i && g[node][j] in g ==> g[node][j] in finished
    ensures FirstCyclicStep(g, node, g[node][i])
  {
    forall j | 0 <= j < i && g[node][j] in g ensures !ReachesCycle(g, g[node][j]) {
      SettledReachesNoCycle(g, finished, g[node][j]);
    }
  }

  class CycleSearch {
    const graph: Graph
    var visited: set<string>
    var recursionStack: set<string>
    var path: seq<string>
    ghost var finished: seq<string>

    constructor (graph: Graph)
      ensures Valid() && this.graph == graph && path == [] && visited == {}
    {
      this.graph := graph;
      visited, recursionStack, path, finished := {}, {}, [], [];
    }

    ghost predicate Valid()
      reads this
    {
      SearchState(graph, visited, recursionStack, path, finished)
    }

    method Dfs(node: string) returns (found: bool)
      requires Valid()
      requires node in graph && node !in visited
      requires path != [] ==> FirstCyclicStep(graph, path[|path| - 1], node)
      modifies this
      ensures Valid()
      ensures old(visited) + {node} <= visited
      ensures old(finished) <= finished
      ensures !found ==> path == old(path) && node in finished
      ensures found ==> old(path) + [node] <= path && ClosesOnItself(graph, path)
      decreases graph.Keys - visited
    {
      PushKeepsState(graph, visited, recursionStack, path, finished, node);
      visited := visited + {node};
      recursionStack := recursionStack + {node};
      path := path + [node];

      var deps := graph[node];
      for i := 0 to |deps|
        invariant Valid() && path == old(path) + [node]
        invariant old(visited) + {node} <= visited
        invariant old(finished) <= finished
        invariant forall j :: 0 <= j < i && deps[j] in graph ==> deps[j] in finished
      {
        var dep := deps[i];
        if dep in graph {
          FinishedDependenciesAreSkipped(graph, finished, node, i);
          if dep !in visited {
            var inner := Dfs(dep);
            if inner { return true; }
          } else if dep in recursionStack {
            return true;
          }
        }
      }

      PopKeepsState(graph, visited, recursionStack, old(path), finished, node);
      path := path[..|path| - 1];
      recursionStack := recursionStack - {node};
      finished := finished + [node];
      return false;
    }
  }

  method BuildSearchGraph(entries: seq<Entry>) returns (graph: Graph, moduleNames: seq<string>)
    ensures graph == SearchGraph(entries)
    ensures moduleNames == Names(entries)
  {
    graph, moduleNames := map[], [];
    for i := 0 to |entries|
      invariant graph == SearchGraph(entries[..i])
      invariant moduleNames == Names(entries[..i])
    {
      var entry := entries[i];
      PrefixStep(entries, i);
      graph := graph[entry.name := entry.dependencies];
      moduleNames := Add(moduleNames, entry.name);
    }
    PrefixStep(entries, |entries|);
  }

  /** What the search reports: the path from the first root that reaches a cycle, with its head
      repeated at the end, unless that root's name is empty. */
  ghost predicate CycleReport(g: Graph, names: seq<string>, cycle: Option<seq<string>>) {
    match cycle
    case None => forall i :: FirstCyclic(g, names, i) ==> names[i] == ""
    case Some(report) =>
      exists i, path :: && FirstCyclic(g, names, i) && names[i] != ""
                        && ClosesOnItself(g, path) && path[0] == names[i]
                        && report == path + [names[i]]
  }

  function ReportOf(path: seq<string>): Option<seq<string>>
    requires path != []
  {
    if path[0] != "" then Some(path + [path[0]]) else None
  }

  ghost predicate NoneBefore(g: Graph, names: seq<string>, i: int) {
    forall j :: 0 <= j < i && j < |names| ==> !ReachesCycle(g, names[j])
  }

  lemma ReportFind(g: Graph, names: seq<string>, i: nat, path: seq<string>)
    requires i < |names| && NoneBefore(g, names, i)
    requires ClosesOnItself(g, path) && path[0] == names[i]
    ensures CycleReport(g, names, ReportOf(path))
  {
    PathReachesCycle(g, path);
    assert FirstCyclic(g, names, i);
  }

  lemma NameIsKey(entries: seq<Entry>, i: nat)
    requires i < |Names(entries)|
    ensures Names(entries)[i] in SearchGraph(entries)
  {
    NamesAreKeys(entries);
  }

  method DetectCycles(entries: seq<Entry>) returns (cycle: Option<seq<string>>)
    ensures CycleReport(SearchGraph(entries), Names(entries), cycle)
  {
    var graph, moduleNames := BuildSearchGraph(entries);
    var search := new CycleSearch(graph);
    for i := 0 to |moduleNames|
      invariant search.Valid() && search.graph == graph && search.path == []
      invariant NoneBefore(graph, moduleNames, i)
    {
      var name := moduleNames[i];
      NameIsKey(entries, i);
      if name !in search.visited {
        var found := search.Dfs(name);
        if found {
          ReportFind(graph, moduleNames, i, search.path);
          var firstElement := search.path[0];
          return if |search.path| > 0 && firstElement != "" then Some(search.path + [firstElement]) else None;
        }
      }
      SettledReachesNoCycle(graph, search.finished, name);
    }
    return None;
  }

  /** The search reports nothing exactly when no module reaches a cycle, or the first one that
      does has the empty name. */
  lemma ReportsNothingExactlyWhen(g: Graph, names: seq<string>, cycle: Option<seq<string>>)
    requires CycleReport(g, names, cycle)
    ensures cycle.None? <==> forall i :: FirstCyclic(g, names, i) ==> names[i] == ""
  {
    if cycle.Some? {
      var i, path :| && FirstCyclic(g, names, i) && names[i] != ""
                     && ClosesOnItself(g, path) && path[0] == names[i]
                     && cycle.value == path + [names[i]];
    }
  }

  lemma FirstCyclicExists(g: Graph, names: seq<string>, i: nat)
    requires i < |names| && ReachesCycle(g, names[i])
    ensures exists k :: FirstCyclic(g, names, k)
  {
    if j: nat :| j < i && ReachesCycle(g, names[j]) {
      FirstCyclicExists(g, names, j);
    } else {
      assert FirstCyclic(g, names, i);
    }
  }

  /** With no empty names, the search accepts exactly the graphs without a cycle. */
  lemma AcceptsExactlyAcyclic(g: Graph, names: seq<string>, cycle: Option<seq<string>>)
    requires CycleReport(g, names, cycle) && "" !in names
    ensures cycle.None? <==> forall name :: name in names ==> !ReachesCycle(g, name)
  {
    ReportsNothingExactlyWhen(g, names, cycle);
    if name :| name in names && ReachesCycle(g, name) {
      FirstCyclicExists(g, names, IndexOf(names, name));
    }
  }

  // ----- the report is determined by the graph

  lemma StepReachesCycle(g: Graph, name: string, d: string)
    requires name in g && d in g[name] && ReachesCycle(g, d)
    ensures ReachesCycle(g, name)
  {
    var w :| KnownWalk(g, w) && w[0] == d && !Distinct(w);
    var longer := [name] + w;
    assert forall i :: 0 <= i < |w| ==> longer[i + 1] == w[i];
    assert KnownWalk(g, longer);
  }

  lemma ClosingReachesCycle(g: Graph, path: seq<string>, k: nat)
    requires KnownWalk(g, path) && k < |path| && path[k] in g[path[|path| - 1]]
    ensures ReachesCycle(g, path[k])
  {
    var w := path[k..] + [path[k]];
    assert forall i :: 0 <= i < |path| - k ==> w[i] == path[k + i];
    assert KnownWalk(g, w);
    assert w[0] == w[|path| - k];
  }

  lemma {:induction false} SuffixReachesCycle(g: Graph, path: seq<string>, i: nat)
    requires ClosesOnItself(g, path) && i < |path|
    ensures ReachesCycle(g, path[i])
    decreases |path| - i
  {
    if i == |path| - 1 {
      var d :| d in path && FirstCyclicStep(g, path[|path| - 1], d);
      ClosingReachesCycle(g, path, IndexOf(path, d));
      StepReachesCycle(g, path[i], d);
    } else {
      SuffixReachesCycle(g, path, i + 1);
      StepReachesCycle(g, path[i], path[i + 1]);
    }
  }

  lemma FirstStepIsUnique(g: Graph, name: string, d: string, e: string)
    requires FirstCyclicStep(g, name, d) && FirstCyclicStep(g, name, e)
    requires d in g && e in g && ReachesCycle(g, d) && ReachesCycle(g, e)
    ensures d == e
  {}

  lemma ClosingStep(g: Graph, path: seq<string>) returns (d: string)
    requires ClosesOnItself(g, path)
    ensures d in path && FirstCyclicStep(g, path[|path| - 1], d) && d in g && ReachesCycle(g, d)
  {
    d :| d in path && FirstCyclicStep(g, path[|path| - 1], d);
    SuffixReachesCycle(g, path, IndexOf(path, d));
  }

  lemma {:induction false} PathsAgree(g: Graph, p: seq<string>, q: seq<string>, n: nat)
    requires ClosesOnItself(g, p) && ClosesOnItself(g, q) && p[0] == q[0]
    requires n <= |p| && n <= |q|
    ensures p[..n] == q[..n]
  {
    if n > 1 {
      PathsAgree(g, p, q, n - 1);
      assert p[n - 2] == p[..n - 1][n - 2] && q[n - 2] == q[..n - 1][n - 2];
      SuffixReachesCycle(g, p, n - 1);
      SuffixReachesCycle(g, q, n - 1);
      FirstStepIsUnique(g, p[n - 2], p[n - 1], q[n - 1]);
      PrefixStep(p, n - 1);
      PrefixStep(q, n - 1);
    } else if n == 1 {
      assert p[..1] == [p[0]] && q[..1] == [q[0]];
    }
  }

  /** Where the one walk closes, the other cannot go on. */
  lemma NoLonger(g: Graph, p: seq<string>, q: seq<string>)
    requires ClosesOnItself(g, p) && ClosesOnItself(g, q) && p[0] == q[0]
    ensures |q| <= |p|
  {
    if |q| > |p| {
      var n := |p|;
      PathsAgree(g, p, q, n);
      assert p == q[..n];
      var d := ClosingStep(g, p);
      SuffixReachesCycle(g, q, n);
      FirstStepIsUnique(g, q[n - 1], d, q[n]);
      assert false;
    }
  }

  /** The graph and the order of its names leave no choice: two reports are the same. */
  lemma ReportIsUnique(g: Graph, names: seq<string>, first: Option<seq<string>>, second: Option<seq<string>>)
    requires CycleReport(g, names, first) && CycleReport(g, names, second)
    ensures first == second
  {
    ReportsNothingExactlyWhen(g, names, first);
    ReportsNothingExactlyWhen(g, names, second);
    if first.Some? {
      var i, p :| && FirstCyclic(g, names, i) && names[i] != ""
                  && ClosesOnItself(g, p) && p[0] == names[i]
                  && first.value == p + [names[i]];
      var j, q :| && FirstCyclic(g, names, j) && names[j] != ""
                  && ClosesOnItself(g, q) && q[0] == names[j]
                  && second.value == q + [names[j]];
      assert i == j;
      NoLonger(g, p, q);
      NoLonger(g, q, p);
      PathsAgree(g, p, q, |p|);
      assert p == p[..|p|] && q == q[..|q|];
    }
  }
}
