/** Module manifests and the two dependency graphs that the bootstrap code builds from them. */
module Manifest {
  import opened Sequences
  import opened OrderedSets

  datatype Entry = Entry(name: string, pluginPath: string, dependencies: seq<string>)

  /** One dependency occurrence; a dependency listed twice gives two edges. */
  datatype Edge = Edge(dependent: string, dependency: string)

  type Graph = map<string, seq<string>>

  function NameList(entries: seq<Entry>): (names: seq<string>)
    ensures |names| == |entries|
    ensures forall i :: 0 <= i < |entries| ==> names[i] == entries[i].name
  {
    if entries == [] then []
    else NameList(entries[..|entries| - 1]) + [entries[|entries| - 1].name]
  }

  /** The keys of every map and set that the bootstrap code fills, in iteration order. */
  function Names(entries: seq<Entry>): seq<string> {
    Collect(NameList(entries))
  }

  function EntryEdges(name: string, dependencies: seq<string>): seq<Edge> {
    if dependencies == [] then []
    else
      var k := |dependencies| - 1;
      EntryEdges(name, dependencies[..k]) + [Edge(name, dependencies[k])]
  }

  function Edges(entries: seq<Entry>): seq<Edge> {
    if entries == [] then []
    else
      var last := entries[|entries| - 1];
      Edges(entries[..|entries| - 1]) + EntryEdges(last.name, last.dependencies)
  }

  function DependenciesIn(edges: seq<Edge>, name: string): seq<string> {
    if edges == [] then []
    else
      var e := edges[|edges| - 1];
      DependenciesIn(edges[..|edges| - 1], name) + if e.dependent == name then [e.dependency] else []
  }

  function DependentsIn(edges: seq<Edge>, name: string): seq<string> {
    if edges == [] then []
    else
      var e := edges[|edges| - 1];
      DependentsIn(edges[..|edges| - 1], name) + if e.dependency == name then [e.dependent] else []
  }

  /** The graph the cycle search walks: a repeated name keeps its last dependency list. */
  function SearchGraph(entries: seq<Entry>): Graph {
    if entries == [] then map[]
    else
      var last := entries[|entries| - 1];
      SearchGraph(entries[..|entries| - 1])[last.name := last.dependencies]
  }

  /** The graph the sort counts: a repeated name gathers the dependencies of all its entries. */
  function SortGraph(entries: seq<Entry>): Graph {
    map name | name in NameList(entries) :: DependenciesIn(Edges(entries), name)
  }

  /** The entry the sort emits for a name: the last one registered under it. */
  function EntryMap(entries: seq<Entry>): map<string, Entry> {
    if entries == [] then map[]
    else
      var last := entries[|entries| - 1];
      EntryMap(entries[..|entries| - 1])[last.name := last]
  }

  // ----- walks along dependencies

  ghost predicate Walk(g: Graph, w: seq<string>) {
    && w != []
    && forall i :: 0 <= i < |w| - 1 ==> w[i] in g && w[i + 1] in g[w[i]]
  }

  /** A walk that never leaves the known modules. */
  ghost predicate KnownWalk(g: Graph, w: seq<string>) {
    Walk(g, w) && forall i :: 0 <= i < |w| ==> w[i] in g
  }

  /** Some walk from the module through known modules comes back to where it has been. */
  ghost predicate ReachesCycle(g: Graph, name: string) {
    exists w :: KnownWalk(g, w) && w[0] == name && !Distinct(w)
  }

  /** No walk from the module meets an unknown module or a cycle. */
  ghost predicate Loadable(g: Graph, name: string) {
    forall w :: Walk(g, w) && w[0] == name ==> KnownWalk(g, w) && Distinct(w)
  }

  /** A dependency chain of the given number of steps starts at the module. */
  ghost predicate HasChain(g: Graph, name: string, steps: nat)
    decreases steps
  {
    steps > 0 ==> name in g && exists d :: d in g[name] && HasChain(g, d, steps - 1)
  }

  lemma ExtendWalk(g: Graph, w: seq<string>, d: string)
    requires Walk(g, w) && w[|w| - 1] in g && d in g[w[|w| - 1]]
    ensures Walk(g, w + [d])
    ensures (w + [d])[0] == w[0] && (w + [d])[|w|] == d
  {
    var longer := w + [d];
    assert forall i :: 0 <= i < |w| ==> longer[i] == w[i];
  }

  // ----- basic facts

  lemma {:induction false} SearchGraphKeys(entries: seq<Entry>)
    ensures forall name :: name in SearchGraph(entries) <==> name in NameList(entries)
    ensures forall name :: name in EntryMap(entries) <==> name in NameList(entries)
    ensures forall name :: name in EntryMap(entries) ==>
              EntryMap(entries)[name] in entries && EntryMap(entries)[name].name == name
  {
    if entries != [] {
      var front, last := entries[..|entries| - 1], entries[|entries| - 1];
      SearchGraphKeys(front);
      assert NameList(entries) == NameList(front) + [last.name];
      assert entries == front + [last];
    }
  }

  lemma NamesAreKeys(entries: seq<Entry>)
    ensures Distinct(Names(entries))
    ensures forall name :: name in Names(entries) <==> name in NameList(entries)
    ensures forall name :: name in Names(entries) <==> name in SearchGraph(entries)
    ensures forall name :: name in Names(entries) <==> name in SortGraph(entries)
  {
    CollectKeepsFirstOccurrences(NameList(entries));
    SearchGraphKeys(entries);
  }

  lemma {:induction false} DependentsAppend(edges: seq<Edge>, e: Edge, name: string)
    ensures DependentsIn(edges + [e], name) ==
            DependentsIn(edges, name) + if e.dependency == name then [e.dependent] else []
    ensures DependenciesIn(edges + [e], name) ==
            DependenciesIn(edges, name) + if e.dependent == name then [e.dependency] else []
  {
    assert (edges + [e])[..|edges|] == edges;
  }

  lemma {:induction false} EntryEdgesDependencies(edges: seq<Edge>, owner: string, dependencies: seq<string>, name: string)
    ensures DependenciesIn(edges + EntryEdges(owner, dependencies), name) ==
            DependenciesIn(edges, name) + if name == owner then dependencies else []
  {
    if dependencies == [] {
      assert edges + EntryEdges(owner, dependencies) == edges;
    } else {
      var front, last := dependencies[..|dependencies| - 1], dependencies[|dependencies| - 1];
      EntryEdgesDependencies(edges, owner, front, name);
      EdgesAppendOne(edges, EntryEdges(owner, front), Edge(owner, last));
      DependentsAppend(edges + EntryEdges(owner, front), Edge(owner, last), name);
      AppendToRest(DependenciesIn(edges, name), front, last, name == owner);
      PrefixStep(dependencies, |front|);
    }
  }

  lemma AppendToRest(a: seq<string>, b: seq<string>, x: string, taken: bool)
    ensures (a + if taken then b else []) + (if taken then [x] else []) == a + if taken then b + [x] else []
  {}

  lemma EdgesAppendOne(a: seq<Edge>, b: seq<Edge>, e: Edge)
    ensures a + (b + [e]) == a + b + [e]
    ensures (a + b + [e])[..|a + b|] == a + b
  {}

  lemma {:induction false} NoEntryNoDependencies(entries: seq<Entry>, name: string)
    requires name !in NameList(entries)
    ensures DependenciesIn(Edges(entries), name) == []
  {
    if entries != [] {
      var front, last := entries[..|entries| - 1], entries[|entries| - 1];
      assert NameList(entries)[|front|] == last.name;
      forall x | x in NameList(front) ensures x in NameList(entries) {}
      NoEntryNoDependencies(front, name);
      EntryEdgesDependencies(Edges(front), last.name, last.dependencies, name);
    }
  }

  /** Without repeated names the search and the sort see the same graph. */
  lemma {:induction false} GraphsAgree(entries: seq<Entry>)
    requires Distinct(NameList(entries))
    ensures SearchGraph(entries) == SortGraph(entries)
  {
    if entries != [] {
      var front, last := entries[..|entries| - 1], entries[|entries| - 1];
      assert NameList(entries) == NameList(front) + [last.name];
      DistinctSplit(NameList(front), last.name);
      GraphsAgree(front);
      forall name | name in NameList(entries)
        ensures name in SearchGraph(entries) && SearchGraph(entries)[name] == SortGraph(entries)[name]
      {
        EntryEdgesDependencies(Edges(front), last.name, last.dependencies, name);
        if name == last.name { NoEntryNoDependencies(front, name); }
      }
      SearchGraphKeys(entries);
      assert SearchGraph(entries).Keys == SortGraph(entries).Keys;
    }
  }

  /** Of a repeated name, the last entry is kept. */
  lemma {:induction false} LastEntryIsKept(entries: seq<Entry>, i: nat)
    requires i < |entries| && forall j :: i < j < |entries| ==> entries[j].name != entries[i].name
    ensures entries[i].name in SearchGraph(entries) && SearchGraph(entries)[entries[i].name] == entries[i].dependencies
    ensures entries[i].name in EntryMap(entries) && EntryMap(entries)[entries[i].name] == entries[i]
  {
    if i < |entries| - 1 { LastEntryIsKept(entries[..|entries| - 1], i); }
  }

  /** The sort counts the dependencies of all entries of a name, one entry after another. */
  lemma DependenciesGather(entries: seq<Entry>, last: Entry, name: string)
    ensures DependenciesIn(Edges([]), name) == []
    ensures DependenciesIn(Edges(entries + [last]), name) ==
            DependenciesIn(Edges(entries), name) + if last.name == name then last.dependencies else []
  {
    PrefixSurvives(entries, last, |entries|);
    EntryEdgesDependencies(Edges(entries), last.name, last.dependencies, name);
  }

  /** Without repeated names every entry keeps its own dependencies and its own record. */
  lemma {:induction false} EntriesAreKept(entries: seq<Entry>, i: nat)
    requires Distinct(NameList(entries)) && i < |entries|
    ensures entries[i].name in SearchGraph(entries)
    ensures SearchGraph(entries)[entries[i].name] == entries[i].dependencies
    ensures entries[i].name in EntryMap(entries)
    ensures EntryMap(entries)[entries[i].name] == entries[i]
  {
    var front, last := entries[..|entries| - 1], entries[|entries| - 1];
    assert NameList(entries) == NameList(front) + [last.name];
    DistinctSplit(NameList(front), last.name);
    if i < |front| {
      EntriesAreKept(front, i);
      assert NameList(front)[i] == front[i].name;
    }
  }
}
