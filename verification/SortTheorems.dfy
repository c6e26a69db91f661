/** What the order computed by the sort means, whatever the manifest looks like. */
module SortTheorems {
  import opened OrderedSets
  import opened Manifest
  import opened KahnSort

  /** The dependency graph a plan describes. */
  ghost predicate Describes(plan: Plan, g: Graph) {
    && WellFormed(plan)
    && (forall name :: name in g <==> name in plan.names)
    && (forall name :: name in g ==> g[name] == DependenciesIn(plan.edges, name))
  }

  lemma PlanDescribesSortGraph(entries: seq<Entry>)
    ensures Describes(PlanOf(entries), SortGraph(entries))
  {
    PlanIsWellFormed(entries);
    NamesAreKeys(entries);
  }

  // ----- which modules are emitted

  lemma {:induction false} EmittedWalkDescends(plan: Plan, g: Graph, line: seq<string>, w: seq<string>)
    requires Describes(plan, g) && Respects(plan, line)
    requires Walk(g, w) && w[0] in line
    ensures forall i :: 0 <= i < |w| ==> w[i] in line
    ensures forall i, j :: 0 <= i < j < |w| ==> IndexOf(line, w[j]) < IndexOf(line, w[i])
  {
    if |w| > 1 {
      var k := IndexOf(line, w[0]);
      assert w[1] in line[..k];
      IndexOfUnique(line, IndexOf(line[..k], w[1]));
      var rest := w[1..];
      assert forall i :: 0 <= i < |rest| ==> rest[i] == w[i + 1];
      EmittedWalkDescends(plan, g, line, rest);
      assert forall i :: 1 <= i < |w| ==> w[i] == rest[i - 1];
    }
  }

  /** A loadable module cannot be left behind: its unplaced dependencies would form an endless walk. */
  lemma {:induction false} StuckWalk(plan: Plan, g: Graph, line: seq<string>, w: seq<string>)
    requires Describes(plan, g) && Exhausted(plan, line)
    requires Walk(g, w) && Loadable(g, w[0])
    requires w[|w| - 1] !in line
    ensures false
    decreases |plan.names| - |w|
  {
    var d :| d in DependenciesIn(plan.edges, w[|w| - 1]) && d !in line;
    ExtendWalk(g, w, d);
    Pigeonhole(w + [d], plan.names);
    StuckWalk(plan, g, line, w + [d]);
  }

  /** The sort emits exactly the modules from which no cycle and no unknown module is reachable. */
  lemma EmitsExactlyTheLoadable(plan: Plan, g: Graph, line: seq<string>, name: string)
    requires Describes(plan, g) && KahnOrder(plan, line)
    ensures name in line <==> Loadable(g, name)
  {
    if name in line {
      forall w | Walk(g, w) && w[0] == name ensures KnownWalk(g, w) && Distinct(w) {
        EmittedWalkDescends(plan, g, line, w);
      }
    } else if Loadable(g, name) {
      assert Walk(g, [name]);
      StuckWalk(plan, g, line, [name]);
    }
  }

  // ----- in which order

  /** First in, first out: no module is emitted before one whose longest chain is shorter. */
  lemma {:induction false} ChainsNeverShrink(plan: Plan, g: Graph, line: seq<string>, i: nat, j: nat, steps: nat)
    requires Describes(plan, g) && KahnOrder(plan, line)
    requires i <= j < |line| && HasChain(g, line[i], steps)
    ensures HasChain(g, line[j], steps)
    decreases steps
  {
    if steps > 0 && i < j {
      var d :| d in g[line[i]] && HasChain(g, d, steps - 1);
      var here := IndexOf(line[..i], d);
      var a, b := Wave(plan.edges, line, i), Wave(plan.edges, line, j);
      assert line[..i][here] == d;
      assert Before(plan, line, i, j);
      assert here <= a <= b;
      ChainsNeverShrink(plan, g, line, here, b, steps - 1);
      assert line[..j][b] == line[b];
    }
  }

  /** The modules without dependencies, in the order of the list. */
  function Roots(names: seq<string>, edges: seq<Edge>): seq<string> {
    if names == [] then []
    else
      var last := names[|names| - 1];
      Roots(names[..|names| - 1], edges) + if DependenciesIn(edges, last) == [] then [last] else []
  }

  lemma {:induction false} RootsMembers(names: seq<string>, edges: seq<Edge>)
    requires Distinct(names)
    ensures Distinct(Roots(names, edges))
    ensures forall x :: x in Roots(names, edges) <==> x in names && DependenciesIn(edges, x) == []
    ensures forall i, j :: 0 <= i < j < |Roots(names, edges)| ==>
              LastIndexOf(names, Roots(names, edges)[i]) < LastIndexOf(names, Roots(names, edges)[j])
  {
    if names != [] {
      var front, last := names[..|names| - 1], names[|names| - 1];
      assert names == front + [last];
      DistinctSplit(front, last);
      RootsMembers(front, edges);
      forall x | x in front ensures LastIndexOf(names, x) == LastIndexOf(front, x) {}
    }
  }

  /** Two duplicate-free sequences over the same members, both increasing in a measure, are equal. */
  lemma {:induction false} SortedAlike(a: seq<string>, b: seq<string>, rank: string -> int)
    requires forall x :: x in a <==> x in b
    requires forall i, j :: 0 <= i < j < |a| ==> rank(a[i]) < rank(a[j])
    requires forall i, j :: 0 <= i < j < |b| ==> rank(b[i]) < rank(b[j])
    ensures a == b
  {
    assert |b| > 0 ==> b[0] in b;
    assert |a| > 0 ==> a[0] in a;
    if a != [] {
      assert a[0] == b[0];
      forall x | x in a[1..] ensures x in b[1..] { assert x in a && x != a[0]; }
      forall x | x in b[1..] ensures x in a[1..] { assert x in b && x != b[0]; }
      SortedAlike(a[1..], b[1..], rank);
      assert a == [a[0]] + a[1..] && b == [b[0]] + b[1..];
    }
  }

  /** The modules without dependencies come first, in manifest order. */
  lemma RootsComeFirst(plan: Plan, line: seq<string>)
    requires WellFormed(plan) && KahnOrder(plan, line)
    ensures Roots(plan.names, plan.edges) <= line
  {
    var edges, names := plan.edges, plan.names;
    var roots := Roots(names, edges);
    RootsMembers(names, edges);
    var k := CountRoots(plan, line);
    forall x ensures x in line[..k] <==> x in roots {
      if x in roots { assert line[IndexOf(line, x)] == x; }
    }
    SortedAlike(line[..k], roots, x => LastIndexOf(names, x));
  }

  lemma WavesAscend(plan: Plan, line: seq<string>, i: nat, j: nat)
    requires InOrder(plan, line) && i < j < |line|
    ensures Wave(plan.edges, line, i) <= Wave(plan.edges, line, j)
    ensures Wave(plan.edges, line, j) == -1 ==> LastIndexOf(plan.names, line[i]) < LastIndexOf(plan.names, line[j])
  {
    assert Before(plan, line, i, j);
  }

  /** The modules without dependencies form a prefix of the line. */
  lemma CountRoots(plan: Plan, line: seq<string>) returns (k: nat)
    requires KahnOrder(plan, line)
    ensures k <= |line|
    ensures forall i :: 0 <= i < |line| ==> (i < k <==> DependenciesIn(plan.edges, line[i]) == [])
    ensures forall i, j :: 0 <= i < j < k ==> LastIndexOf(plan.names, line[i]) < LastIndexOf(plan.names, line[j])
  {
    k := 0;
    while k < |line| && Wave(plan.edges, line, k) == -1
      invariant k <= |line|
      invariant forall i :: 0 <= i < k ==> Wave(plan.edges, line, i) == -1
    {
      k := k + 1;
    }
    forall i | 0 <= i < |line| ensures i < k <==> DependenciesIn(plan.edges, line[i]) == [] {
      WaveOfRoot(plan, line, i);
      if k < i { WavesAscend(plan, line, k, i); }
    }
    forall i, j | 0 <= i < j < k ensures LastIndexOf(plan.names, line[i]) < LastIndexOf(plan.names, line[j]) {
      WavesAscend(plan, line, i, j);
    }
  }

  lemma WaveOfRoot(plan: Plan, line: seq<string>, i: nat)
    requires Respects(plan, line) && i < |line|
    ensures Wave(plan.edges, line, i) == -1 <==> DependenciesIn(plan.edges, line[i]) == []
  {
    var deps := DependenciesIn(plan.edges, line[i]);
    if deps != [] {
      var p := IndexOf(line[..i], deps[0]);
      assert p <= Wave(plan.edges, line, i);
    }
  }

  /** The promised order leaves no choice: two lines that both keep it are the same. */
  lemma OrderIsUnique(plan: Plan, g: Graph, first: seq<string>, second: seq<string>)
    requires Describes(plan, g)
    requires KahnOrder(plan, first) && KahnOrder(plan, second)
    ensures first == second
  {
    forall name ensures name in first <==> name in second {
      EmitsExactlyTheLoadable(plan, g, first, name);
      EmitsExactlyTheLoadable(plan, g, second, name);
    }
    Pigeonhole(first, second);
    Pigeonhole(second, first);
    var k := 0;
    while k < |first| && first[k] == second[k]
      invariant k <= |first|
      invariant forall j :: 0 <= j < k ==> first[j] == second[j]
    {
      k := k + 1;
    }
    if k < |first| { NextAgrees(plan, first, second, k); }
  }

  lemma LastDependencyIsEarly(dependencies: seq<string>, line: seq<string>, k: nat)
    requires k <= |line| && Distinct(line)
    requires forall d :: d in dependencies ==> d in line[..k]
    ensures LastDependency(dependencies, line) == LastDependency(dependencies, line[..k])
  {
    var a, b := LastDependency(dependencies, line), LastDependency(dependencies, line[..k]);
    if a >= 0 {
      assert line[a] in line[..k];
      assert a == IndexOf(line[..k], line[a]);
    }
    if b >= 0 { assert line[..k][b] == line[b]; }
  }

  /** A module that could have been placed at k was released by the same dependency. */
  lemma WaveIsFixed(plan: Plan, line: seq<string>, other: seq<string>, k: nat, j: nat)
    requires Respects(plan, line) && Respects(plan, other)
    requires k < j < |line| && k < |other| && line[..k] == other[..k] && line[j] == other[k]
    ensures Wave(plan.edges, line, j) == Wave(plan.edges, other, k)
  {
    assert line[..j][..k] == line[..k];
    LastDependencyIsEarly(DependenciesIn(plan.edges, line[j]), line[..j], k);
  }

  lemma EarlierInOrder(plan: Plan, line: seq<string>, i: nat, j: nat)
    requires InOrder(plan, line) && i < j < |line|
    ensures Before(plan, line, i, j)
  {}

  lemma {:induction false} NextAgrees(plan: Plan, first: seq<string>, second: seq<string>, k: nat)
    requires KahnOrder(plan, first) && KahnOrder(plan, second)
    requires |first| == |second| && forall name :: name in first <==> name in second
    requires k < |first| && forall j :: 0 <= j < k ==> first[j] == second[j]
    ensures first[k] == second[k]
  {
    assert first[..k] == second[..k];
    var i, j := IndexOf(second, first[k]), IndexOf(first, second[k]);
    if i != k && j != k {
      WaveIsFixed(plan, first, second, k, j);
      WaveIsFixed(plan, second, first, k, i);
      EarlierInOrder(plan, first, k, j);
      EarlierInOrder(plan, second, k, i);
      assert false;
    }
  }

  // ----- ties within a wave follow the manifest

  lemma {:induction false} OwnDependents(edges: seq<Edge>, owner: string, dependencies: seq<string>, d: string)
    ensures var before, after := DependentsIn(edges, d), DependentsIn(edges + EntryEdges(owner, dependencies), d);
            before <= after && forall k :: |before| <= k < |after| ==> after[k] == owner
  {
    if dependencies == [] {
      assert edges + EntryEdges(owner, dependencies) == edges;
    } else {
      var front, last := dependencies[..|dependencies| - 1], dependencies[|dependencies| - 1];
      OwnDependents(edges, owner, front, d);
      EdgesAppendOne(edges, EntryEdges(owner, front), Edge(owner, last));
      DependentsAppend(edges + EntryEdges(owner, front), Edge(owner, last), d);
    }
  }

  /** A dependency releases its dependents in manifest order. */
  lemma {:induction false} ReleasedInManifestOrder(entries: seq<Entry>, d: string)
    requires Distinct(NameList(entries))
    ensures AscendingIn(DependentsIn(Edges(entries), d), NameList(entries))
  {
    if entries != [] {
      var front, last := entries[..|entries| - 1], entries[|entries| - 1];
      DistinctSplit(NameList(front), last.name);
      ReleasedInManifestOrder(front, d);
      OwnDependents(Edges(front), last.name, last.dependencies, d);
      AscendingGrows(DependentsIn(Edges(front), d), DependentsIn(Edges(entries), d), NameList(front), last.name);
    }
  }

  lemma WaveDependency(plan: Plan, line: seq<string>, i: nat)
    requires i < |line| && Wave(plan.edges, line, i) >= 0
    ensures line[i] in DependentsIn(plan.edges, line[Wave(plan.edges, line, i)])
  {
    DependentsMirrorDependencies(plan.edges, line[Wave(plan.edges, line, i)], line[i]);
  }

  /** In a manifest without repeated names, modules released by the same dependency keep their
      manifest order. */
  lemma TiesFollowManifest(entries: seq<Entry>, line: seq<string>, i: nat, j: nat)
    requires KahnOrder(PlanOf(entries), line) && Distinct(NameList(entries))
    requires i < j < |line| && Wave(Edges(entries), line, i) == Wave(Edges(entries), line, j)
    ensures line[i] in NameList(entries) && line[j] in NameList(entries)
    ensures IndexOf(NameList(entries), line[i]) < IndexOf(NameList(entries), line[j])
  {
    var plan := PlanOf(entries);
    EarlierInOrder(plan, line, i, j);
    if Wave(Edges(entries), line, i) >= 0 {
      WaveDependency(plan, line, i);
      var released := DependentsIn(plan.edges, line[Wave(plan.edges, line, i)]);
      ReleasedInManifestOrder(entries, line[Wave(plan.edges, line, i)]);
      LastIndexAscends(released, NameList(entries), line[i], line[j]);
    } else {
      CollectDistinct(NameList(entries));
      LastIsOnlyIndex(NameList(entries), line[i]);
      LastIsOnlyIndex(NameList(entries), line[j]);
    }
  }
}
