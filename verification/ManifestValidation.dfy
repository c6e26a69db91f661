/** The manifest validator, and what its verdict says about the sort. */
module ManifestValidation {
  import opened Options
  import opened Sequences
  import opened OrderedSets
  import opened Manifest
  import opened CycleSearch
  import opened KahnSort
  import opened SortTheorems

  datatype ValidationError =
    | DuplicateModule(name: string)
    | MissingDependency(name: string, dependency: string)
    | DependencyCycle(cycle: seq<string>)

  datatype ValidationResult = ValidationResult(valid: bool, errors: seq<ValidationError>)

  function MissingErrors(name: string, dependencies: seq<string>, moduleNames: seq<string>): seq<ValidationError> {
    if dependencies == [] then []
    else
      var last := dependencies[|dependencies| - 1];
      MissingErrors(name, dependencies[..|dependencies| - 1], moduleNames)
      + if last in moduleNames then [] else [MissingDependency(name, last)]
  }

  function EntryErrors(entries: seq<Entry>, moduleNames: seq<string>): seq<ValidationError> {
    if entries == [] then []
    else
      var front, last := entries[..|entries| - 1], entries[|entries| - 1];
      EntryErrors(front, moduleNames)
      + (if last.name in NameList(front) then [DuplicateModule(last.name)] else [])
      + MissingErrors(last.name, last.dependencies, moduleNames)
  }

  function CycleErrors(cycle: Option<seq<string>>): seq<ValidationError> {
    if cycle.Some? then [DependencyCycle(cycle.value)] else []
  }

  ghost predicate DependenciesWithin(entries: seq<Entry>, moduleNames: seq<string>) {
    forall e, d :: e in entries && d in e.dependencies ==> d in moduleNames
  }

  /** The search finds nothing: no cycle, or the first module that reaches one has an empty name. */
  ghost predicate NoCycleSeen(entries: seq<Entry>) {
    forall i :: FirstCyclic(SearchGraph(entries), Names(entries), i) ==> Names(entries)[i] == ""
  }

  ghost predicate Accepts(entries: seq<Entry>, moduleNames: seq<string>) {
    Distinct(NameList(entries)) && DependenciesWithin(entries, moduleNames) && NoCycleSeen(entries)
  }

  lemma {:induction false} MissingErrorsMeaning(name: string, dependencies: seq<string>, moduleNames: seq<string>)
    ensures forall e :: e in MissingErrors(name, dependencies, moduleNames) <==>
              e.MissingDependency? && e.name == name && e.dependency in dependencies && e.dependency !in moduleNames
  {
    if dependencies != [] {
      MissingErrorsMeaning(name, dependencies[..|dependencies| - 1], moduleNames);
    }
  }

  /** Of the two kinds of entry error, exactly those of the manifest are reported. */
  ghost predicate Faulty(entries: seq<Entry>, moduleNames: seq<string>, e: ValidationError) {
    match e
    case DuplicateModule(name) =>
      exists i, j :: 0 <= i < j < |entries| && entries[i].name == entries[j].name == name
    case MissingDependency(name, d) =>
      d !in moduleNames && exists i :: 0 <= i < |entries| && entries[i].name == name && d in entries[i].dependencies
    case DependencyCycle(_) => false
  }

  lemma FaultyGrows(entries: seq<Entry>, last: Entry, moduleNames: seq<string>, e: ValidationError)
    ensures Faulty(entries + [last], moduleNames, e) <==>
            || Faulty(entries, moduleNames, e)
            || (e == DuplicateModule(last.name) && last.name in NameList(entries))
            || (e.MissingDependency? && e.name == last.name && e.dependency in last.dependencies && e.dependency !in moduleNames)
  {
    var all := entries + [last];
    assert forall i :: 0 <= i < |entries| ==> all[i] == entries[i];
    assert all[|entries|] == last;
    if last.name in NameList(entries) {
      assert all[IndexOf(NameList(entries), last.name)].name == last.name;
    }
  }

  lemma {:induction false} EntryErrorsMeaning(entries: seq<Entry>, moduleNames: seq<string>, e: ValidationError)
    ensures e in EntryErrors(entries, moduleNames) <==> Faulty(entries, moduleNames, e)
  {
    if entries != [] {
      var front, last := entries[..|entries| - 1], entries[|entries| - 1];
      EntryErrorsMeaning(front, moduleNames, e);
      MissingErrorsMeaning(last.name, last.dependencies, moduleNames);
      FaultyGrows(front, last, moduleNames, e);
      assert entries == front + [last];
    }
  }

  lemma NoEntryErrors(entries: seq<Entry>, moduleNames: seq<string>)
    ensures EntryErrors(entries, moduleNames) == [] <==>
            Distinct(NameList(entries)) && DependenciesWithin(entries, moduleNames)
  {
    var errors := EntryErrors(entries, moduleNames);
    if errors == [] {
      forall i, j | 0 <= i < j < |entries| ensures NameList(entries)[i] != NameList(entries)[j] {
        EntryErrorsMeaning(entries, moduleNames, DuplicateModule(entries[i].name));
      }
      forall e, d | e in entries && d in e.dependencies ensures d in moduleNames {
        EntryErrorsMeaning(entries, moduleNames, MissingDependency(e.name, d));
      }
    } else {
      EntryErrorsMeaning(entries, moduleNames, errors[0]);
    }
  }

  method CheckDependencies(entry: Entry, moduleNames: seq<string>) returns (errors: seq<ValidationError>)
    ensures errors == MissingErrors(entry.name, entry.dependencies, moduleNames)
  {
    errors := [];
    var deps := entry.dependencies;
    for j := 0 to |deps|
      invariant errors == MissingErrors(entry.name, deps[..j], moduleNames)
    {
      PrefixStep(deps, j);
      if deps[j] !in moduleNames {
        errors := errors + [MissingDependency(entry.name, deps[j])];
      }
    }
    PrefixStep(deps, |deps|);
  }

  lemma CheckStep(entries: seq<Entry>, i: nat, moduleNames: seq<string>)
    requires i < |entries|
    ensures EntryErrors(entries[..i + 1], moduleNames) ==
            EntryErrors(entries[..i], moduleNames)
            + (if entries[i].name in NameList(entries[..i]) then [DuplicateModule(entries[i].name)] else [])
            + MissingErrors(entries[i].name, entries[i].dependencies, moduleNames)
    ensures Members(NameList(entries[..i + 1])) == Members(NameList(entries[..i])) + {entries[i].name}
  {
    PrefixStep(entries, i);
  }

  method CheckEntries(entries: seq<Entry>, moduleNames: seq<string>) returns (errors: seq<ValidationError>)
    ensures errors == EntryErrors(entries, moduleNames)
  {
    errors := [];
    var seenModules: set<string> := {};
    for i := 0 to |entries|
      invariant errors == EntryErrors(entries[..i], moduleNames)
      invariant seenModules == Members(NameList(entries[..i]))
    {
      var entry := entries[i];
      CheckStep(entries, i, moduleNames);
      if entry.name in seenModules {
        errors := errors + [DuplicateModule(entry.name)];
      }
      seenModules := seenModules + {entry.name};
      var missing := CheckDependencies(entry, moduleNames);
      errors := errors + missing;
    }
    PrefixStep(entries, |entries|);
  }

  method ValidateManifest(entries: seq<Entry>, moduleNames: seq<string>) returns (result: ValidationResult)
    ensures exists cycle :: CycleReport(SearchGraph(entries), Names(entries), cycle)
                            && result.errors == EntryErrors(entries, moduleNames) + CycleErrors(cycle)
    ensures result.valid <==> result.errors == []
    ensures result.valid <==> Accepts(entries, moduleNames)
  {
    var errors := CheckEntries(entries, moduleNames);
    var cycleResult := DetectCycles(entries);
    ReportsNothingExactlyWhen(SearchGraph(entries), Names(entries), cycleResult);
    NoEntryErrors(entries, moduleNames);
    if cycleResult.Some? {
      errors := errors + [DependencyCycle(cycleResult.value)];
    }
    return ValidationResult(|errors| == 0, errors);
  }

  // ----- the search and the sort agree

  /** No module reaches a cycle. */
  ghost predicate Acyclic(entries: seq<Entry>) {
    forall name :: name in Names(entries) ==> !ReachesCycle(SearchGraph(entries), name)
  }

  /** Every name once, every dependency an entry, no cycle. */
  ghost predicate Sound(entries: seq<Entry>) {
    Distinct(NameList(entries)) && DependenciesWithin(entries, Names(entries)) && Acyclic(entries)
  }

  lemma DependencyIsName(entries: seq<Entry>, name: string, d: string)
    requires Sound(entries)
    requires name in SearchGraph(entries) && d in SearchGraph(entries)[name]
    ensures d in SearchGraph(entries)
  {
    NamesAreKeys(entries);
    var k := IndexOf(NameList(entries), name);
    EntriesAreKept(entries, k);
    assert entries[k] in entries;
  }

  lemma LoadableWhenSound(entries: seq<Entry>, name: string)
    requires Sound(entries) && name in Names(entries)
    ensures Loadable(SortGraph(entries), name)
  {
    var g := SearchGraph(entries);
    GraphsAgree(entries);
    NamesAreKeys(entries);
    forall w | Walk(g, w) && w[0] == name ensures KnownWalk(g, w) && Distinct(w) {
      forall i | 0 <= i < |w| ensures w[i] in g {
        if i > 0 { DependencyIsName(entries, w[i - 1], w[i]); }
      }
      assert KnownWalk(g, w);
    }
  }

  lemma LoadableKnowsDependencies(g: Graph, name: string, d: string)
    requires name in g && d in g[name] && Loadable(g, name)
    ensures d in g
  {
    var w := [name, d];
    assert Walk(g, w);
    assert w[1] in g;
  }

  lemma SoundWhenLoadable(entries: seq<Entry>)
    requires Distinct(NameList(entries))
    requires forall name :: name in Names(entries) ==> Loadable(SortGraph(entries), name)
    ensures Sound(entries)
  {
    GraphsAgree(entries);
    NamesAreKeys(entries);
    forall e, d | e in entries && d in e.dependencies ensures d in Names(entries) {
      var i :| 0 <= i < |entries| && entries[i] == e;
      assert NameList(entries)[i] == e.name;
      EntriesAreKept(entries, i);
      LoadableKnowsDependencies(SearchGraph(entries), e.name, d);
    }
  }

  /** For every manifest: the sort emits as many modules as there are entries exactly when no name
      repeats, every dependency is an entry, and the search graph has no cycle. */
  lemma NothingIsLostExactlyWhen(entries: seq<Entry>, line: seq<string>)
    requires KahnOrder(PlanOf(entries), line)
    ensures |line| == |entries| <==> Sound(entries)
  {
    NamesAreKeys(entries);
    SelectsAll(NameList(entries), line);
    PlanDescribesSortGraph(entries);
    forall name { EmitsExactlyTheLoadable(PlanOf(entries), SortGraph(entries), line, name); }
    if |line| == |entries| {
      SoundWhenLoadable(entries);
    }
    if Sound(entries) {
      forall name | name in Names(entries) { LoadableWhenSound(entries, name); }
    }
  }

  /** The first module that reaches a cycle, if there is one, has a name that can be reported. */
  ghost predicate NoHiddenCycle(entries: seq<Entry>) {
    forall i :: FirstCyclic(SearchGraph(entries), Names(entries), i) ==> Names(entries)[i] != ""
  }

  ghost predicate ListsExactly(moduleNames: seq<string>, entries: seq<Entry>) {
    forall name :: name in moduleNames <==> name in Names(entries)
  }

  lemma AcyclicWhenNoneSeen(entries: seq<Entry>)
    requires NoHiddenCycle(entries)
    ensures NoCycleSeen(entries) <==> Acyclic(entries)
  {
    if name :| name in Names(entries) && ReachesCycle(SearchGraph(entries), name) {
      FirstCyclicExists(SearchGraph(entries), Names(entries), IndexOf(Names(entries), name));
    }
  }

  lemma AcceptsExactlyTheSound(entries: seq<Entry>, moduleNames: seq<string>)
    requires ListsExactly(moduleNames, entries) && NoHiddenCycle(entries)
    ensures Accepts(entries, moduleNames) <==> Sound(entries)
  {
    AcyclicWhenNoneSeen(entries);
  }

  /** The validator and the sort are two independent algorithms with one verdict: when the module
      names are those of the entries and an empty name does not hide the first cycle, the manifest
      is accepted exactly when the sort loses nothing. */
  lemma AcceptedExactlyWhenNothingIsLost(entries: seq<Entry>, moduleNames: seq<string>, line: seq<string>)
    requires KahnOrder(PlanOf(entries), line)
    requires ListsExactly(moduleNames, entries) && NoHiddenCycle(entries)
    ensures Accepts(entries, moduleNames) <==> |line| == |entries|
  {
    AcceptsExactlyTheSound(entries, moduleNames);
    NothingIsLostExactlyWhen(entries, line);
  }

  /** An accepted manifest, whatever module names it was checked against, loses nothing in the sort
      exactly when its dependencies are entries and an empty name does not hide a cycle. */
  lemma AcceptedLosesNothingExactlyWhen(entries: seq<Entry>, moduleNames: seq<string>, line: seq<string>)
    requires KahnOrder(PlanOf(entries), line) && Accepts(entries, moduleNames)
    ensures |line| == |entries| <==> DependenciesWithin(entries, Names(entries)) && NoHiddenCycle(entries)
  {
    NothingIsLostExactlyWhen(entries, line);
    if NoHiddenCycle(entries) { AcyclicWhenNoneSeen(entries); }
  }

  /** The emitted list is a rearrangement of the manifest with every dependency strictly earlier. */
  ghost predicate LoadsEverythingInOrder(entries: seq<Entry>, result: seq<Entry>) {
    && multiset(result) == multiset(entries)
    && forall i, d :: 0 <= i < |result| && d in result[i].dependencies ==>
         exists j :: 0 <= j < i && result[j].name == d
  }

  lemma DistinctEntries(entries: seq<Entry>)
    requires Distinct(NameList(entries))
    ensures Distinct(entries)
  {
    forall i, j | 0 <= i < j < |entries| ensures entries[i] != entries[j] {
      assert NameList(entries)[i] != NameList(entries)[j];
    }
  }

  lemma AcceptedLoadsEverythingInOrder(entries: seq<Entry>, result: seq<Entry>)
    requires KahnOrder(PlanOf(entries), NameList(result)) && Emitted(entries, result)
    requires Distinct(NameList(entries)) && |result| == |entries|
    ensures LoadsEverythingInOrder(entries, result)
  {
    var line := NameList(result);
    SearchGraphKeys(entries);
    DistinctEntries(entries);
    DistinctEntries(result);
    DistinctRearrangement(result, entries);
    GraphsAgree(entries);
    NamesAreKeys(entries);
    forall i, d | 0 <= i < |result| && d in result[i].dependencies
      ensures exists j :: 0 <= j < i && result[j].name == d
    {
      var k :| 0 <= k < |entries| && entries[k] == result[i];
      EntriesAreKept(entries, k);
      assert line[i] == result[i].name;
      assert d in line[..i];
      var j := IndexOf(line[..i], d);
      assert result[j].name == d;
    }
  }

  // ----- where the two verdicts part

  lemma SingleEntry(name: string, d: string)
    ensures var entries := [Entry(name, "./plugin.js", [d])];
            && NameList(entries) == [name] && Names(entries) == [name]
            && SearchGraph(entries) == map[name := [d]]
  {
    var entries := [Entry(name, "./plugin.js", [d])];
    assert entries[..|entries| - 1] == [];
    CollectDistinct(NameList(entries));
  }

  lemma UnsoundIsLost(entries: seq<Entry>, name: string, line: seq<string>)
    requires !Sound(entries) && Names(entries) == [name] && |entries| == 1
    requires KahnOrder(PlanOf(entries), line)
    ensures line == []
  {
    NothingIsLostExactlyWhen(entries, line);
    Pigeonhole(line, [name]);
  }

  lemma SelfLoopReachesCycle(g: Graph, name: string)
    requires g == map[name := [name]]
    ensures ReachesCycle(g, name)
  {
    var w := [name, name];
    assert KnownWalk(g, w) && w[0] == w[1];
  }

  lemma SingleIsAccepted(entries: seq<Entry>, name: string)
    requires |entries| == 1 && entries[0].dependencies == [name]
    requires NameList(entries) == [name] && Names(entries) == [name] && name == ""
    ensures Accepts(entries, [name])
  {
    NoCycleUnderName(entries, name);
    forall e, d | e in entries && d in e.dependencies ensures d in [name] { assert e == entries[0]; }
  }

  lemma NoCycleUnderName(entries: seq<Entry>, name: string)
    requires Names(entries) == [name] && name == ""
    ensures NoCycleSeen(entries)
  {
    forall i | FirstCyclic(SearchGraph(entries), Names(entries), i) ensures Names(entries)[i] == "" {
      assert i == 0;
    }
  }

  lemma SelfLoopIsUnsound(entries: seq<Entry>, name: string)
    requires Names(entries) == [name] && SearchGraph(entries) == map[name := [name]]
    ensures !Sound(entries)
  {
    SelfLoopReachesCycle(SearchGraph(entries), name);
    assert Names(entries)[0] == name;
  }

  /** One module with the empty name that depends on itself: accepted, and lost by the sort. */
  lemma EmptyNameHidesCycle(line: seq<string>)
    requires KahnOrder(PlanOf([Entry("", "./plugin.js", [""])]), line)
    ensures Accepts([Entry("", "./plugin.js", [""])], [""])
    ensures line == []
  {
    var entries := [Entry("", "./plugin.js", [""])];
    SingleEntry("", "");
    SingleIsAccepted(entries, "");
    SelfLoopIsUnsound(entries, "");
    UnsoundIsLost(entries, "", line);
  }

  lemma FirstStep(g: Graph, w: seq<string>)
    requires KnownWalk(g, w)
    ensures w[0] in g && (|w| > 1 ==> w[1] in g && w[1] in g[w[0]])
  {}

  lemma NoSecondStep(w: seq<string>)
    requires KnownWalk(map["a" := ["b"]], w)
    ensures |w| == 1
  {
    var g := map["a" := ["b"]];
    assert w[0] == "a" && "b" !in g;
    FirstStep(g, w);
  }

  /** A dependency that is a module name but not an entry passes the validator; the sort drops
      the module that needs it. */
  lemma UnlistedDependencyIsLost(line: seq<string>)
    requires KahnOrder(PlanOf([Entry("a", "./plugin.js", ["b"])]), line)
    ensures Accepts([Entry("a", "./plugin.js", ["b"])], ["a", "b"])
    ensures line == []
  {
    var entries := [Entry("a", "./plugin.js", ["b"])];
    SingleEntry("a", "b");
    var g := SearchGraph(entries);
    forall w | KnownWalk(g, w) ensures |w| == 1 {
      NoSecondStep(w);
    }
    assert "b" in entries[0].dependencies && "b" !in Names(entries);
    UnsoundIsLost(entries, "a", line);
  }
}
