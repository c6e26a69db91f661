/** How the application start-up registers the sorted modules: infrastructure, then modules at
    the root, then modules under a route prefix. */
module Registration {
  import opened Options
  import opened Sequences
  import opened OrderedSets
  import opened Selections
  import opened Manifest
  import opened KahnSort
  import opened ManifestValidation

  /** What the module registry holds for a name: its route prefix, if it has one. */
  type Registry = map<string, Option<string>>

  const INFRASTRUCTURE_NAMES: set<string> := {"infrastructure", "eventBus", "wsGateway"}

  datatype Outcome =
    | Started
    | InvalidManifest(errors: seq<ValidationError>)
    | NotInRegistry(name: string)

  predicate IsInfrastructure(e: Entry) {
    e.name in INFRASTRUCTURE_NAMES
  }

  /** An empty prefix counts as none. */
  predicate HasPrefix(e: Entry, registry: Registry) {
    e.name in registry && registry[e.name].Some? && registry[e.name].value != ""
  }

  predicate IsRootLevel(e: Entry, registry: Registry) {
    !IsInfrastructure(e) && e.name in registry && !HasPrefix(e, registry)
  }

  predicate IsPrefixed(e: Entry, registry: Registry) {
    !IsInfrastructure(e) && HasPrefix(e, registry)
  }

  function InfrastructureEntries(order: seq<Entry>): seq<Entry> {
    Select(order, e => IsInfrastructure(e))
  }

  function RootLevelModules(order: seq<Entry>, registry: Registry): seq<Entry> {
    Select(order, e => IsRootLevel(e, registry))
  }

  function PrefixedModules(order: seq<Entry>, registry: Registry): seq<Entry> {
    Select(order, e => IsPrefixed(e, registry))
  }

  /** The whole sequence of registrations, group by group. */
  function Grouped(order: seq<Entry>, registry: Registry): seq<Entry> {
    InfrastructureEntries(order) + RootLevelModules(order, registry) + PrefixedModules(order, registry)
  }

  /** 0 for infrastructure, 1 for the root level, 2 for prefixed modules. */
  function Rank(e: Entry, registry: Registry): nat {
    if IsInfrastructure(e) then 0 else if HasPrefix(e, registry) then 2 else 1
  }

  /** The entries that can be registered at all. */
  predicate Registrable(e: Entry, registry: Registry) {
    e.name in registry
  }

  /** Every dependency that occurs in the list occurs before its dependent. */
  ghost predicate DependenciesFirst(s: seq<Entry>) {
    forall e, f :: e in s && f in s && f.name in e.dependencies ==> Precedes(s, f, e)
  }

  /** No registrable module depends on a registrable module of a later group. */
  ghost predicate RanksAscend(order: seq<Entry>, registry: Registry) {
    forall e, f | e in order && f in order && f.name in e.dependencies ::
      Registrable(e, registry) && Registrable(f, registry) ==> Rank(f, registry) <= Rank(e, registry)
  }

  ghost predicate InfrastructureKnown(order: seq<Entry>, registry: Registry) {
    forall e :: e in order && IsInfrastructure(e) ==> Registrable(e, registry)
  }

  lemma GroupMembers(order: seq<Entry>, registry: Registry)
    ensures forall e :: e in InfrastructureEntries(order) <==> e in order && IsInfrastructure(e)
    ensures forall e :: e in RootLevelModules(order, registry) <==> e in order && IsRootLevel(e, registry)
    ensures forall e :: e in PrefixedModules(order, registry) <==> e in order && IsPrefixed(e, registry)
  {
    SelectMembers(order, e => IsInfrastructure(e));
    SelectMembers(order, e => IsRootLevel(e, registry));
    SelectMembers(order, e => IsPrefixed(e, registry));
  }

  /** Each registrable entry lands in exactly one group and nothing else is registered. */
  lemma GroupedIsPartition(order: seq<Entry>, registry: Registry, e: Entry)
    requires Distinct(order) && InfrastructureKnown(order, registry)
    ensures multiset(Grouped(order, registry))[e] == if e in order && Registrable(e, registry) then 1 else 0
  {
    GroupMembers(order, registry);
    SelectMembers(order, e => IsInfrastructure(e));
    SelectMembers(order, e => IsRootLevel(e, registry));
    SelectMembers(order, e => IsPrefixed(e, registry));
    DistinctOccursOnce(InfrastructureEntries(order), e);
    DistinctOccursOnce(RootLevelModules(order, registry), e);
    DistinctOccursOnce(PrefixedModules(order, registry), e);
  }

  lemma GroupedDistinct(order: seq<Entry>, registry: Registry)
    requires Distinct(order)
    ensures Distinct(Grouped(order, registry))
  {
    GroupMembers(order, registry);
    SelectMembers(order, e => IsInfrastructure(e));
    SelectMembers(order, e => IsRootLevel(e, registry));
    SelectMembers(order, e => IsPrefixed(e, registry));
    DistinctAppend(InfrastructureEntries(order), RootLevelModules(order, registry));
    DistinctAppend(InfrastructureEntries(order) + RootLevelModules(order, registry), PrefixedModules(order, registry));
  }

  /** Grouping is a stable sort by rank. */
  lemma GroupedIsStable(order: seq<Entry>, registry: Registry, f: Entry, e: Entry)
    requires e in order && f in order && InfrastructureKnown(order, registry)
    requires Registrable(e, registry) && Registrable(f, registry)
    ensures Precedes(Grouped(order, registry), f, e) <==>
            Rank(f, registry) < Rank(e, registry) || (Rank(f, registry) == Rank(e, registry) && Precedes(order, f, e))
  {
    var a, b, c := InfrastructureEntries(order), RootLevelModules(order, registry), PrefixedModules(order, registry);
    GroupMembers(order, registry);
    PrecedesAppend(a, b, f, e);
    PrecedesAppend(a + b, c, f, e);
    PrecedesMembers(a, f, e);
    PrecedesMembers(b, f, e);
    PrecedesMembers(c, f, e);
    if Rank(f, registry) == Rank(e, registry) {
      match Rank(e, registry)
      case 0 => SelectKeepsOrder(order, e => IsInfrastructure(e), f, e);
      case 1 => SelectKeepsOrder(order, e => IsRootLevel(e, registry), f, e);
      case _ => SelectKeepsOrder(order, e => IsPrefixed(e, registry), f, e);
    }
  }

  /** Registering group by group keeps every registered dependency before its dependent exactly
      when no registered module depends on one of a later group. */
  lemma GroupingKeepsDependenciesExactlyWhen(order: seq<Entry>, registry: Registry)
    requires Distinct(order) && DependenciesFirst(order) && InfrastructureKnown(order, registry)
    ensures DependenciesFirst(Grouped(order, registry)) <==> RanksAscend(order, registry)
  {
    var all := Grouped(order, registry);
    GroupMembers(order, registry);
    forall e, f | e in order && f in order && Registrable(e, registry) && Registrable(f, registry) && f.name in e.dependencies
      ensures Precedes(all, f, e) <==> Rank(f, registry) <= Rank(e, registry)
    {
      GroupedIsStable(order, registry, f, e);
    }
    forall e ensures e in all <==> e in order && Registrable(e, registry) {}
  }

  /** The Fastify instance, as far as the order of registrations goes. */
  class App {
    var registered: seq<Entry>

    constructor ()
      ensures registered == []
    {
      registered := [];
    }

    method Register(e: Entry)
      modifies this
      ensures registered == old(registered) + [e]
    {
      registered := registered + [e];
    }
  }

  /** Registers one entry after another and stops at the first the registry does not know. */
  method RegisterAll(app: App, entries: seq<Entry>, registry: Registry)
    returns (missing: Option<string>, ghost count: nat)
    modifies app
    ensures count <= |entries| && app.registered == old(app.registered) + entries[..count]
    ensures forall e :: e in entries[..count] ==> Registrable(e, registry)
    ensures missing.None? ==> count == |entries|
    ensures missing.Some? ==> count < |entries| && entries[count] in entries
                              && missing.value == entries[count].name && !Registrable(entries[count], registry)
  {
    for i := 0 to |entries|
      invariant app.registered == old(app.registered) + entries[..i]
      invariant forall e :: e in entries[..i] ==> Registrable(e, registry)
    {
      var entry := entries[i];
      if entry.name !in registry { return Some(entry.name), i; }
      PrefixStep(entries, i);
      app.Register(entry);
    }
    return None, |entries|;
  }

  /** The later groups were filtered by the registry, so their guard never fires. */
  method RegisterKnown(app: App, entries: seq<Entry>, registry: Registry)
    requires forall e :: e in entries ==> Registrable(e, registry)
    modifies app
    ensures app.registered == old(app.registered) + entries
  {
    for i := 0 to |entries|
      invariant app.registered == old(app.registered) + entries[..i]
    {
      var entry := entries[i];
      assert entry in entries;
      if entry.name !in registry { assert false; }
      PrefixStep(entries, i);
      app.Register(entry);
    }
    PrefixStep(entries, |entries|);
  }

  lemma NameFindsPosition(order: seq<Entry>, names: seq<string>, j: nat, k: nat)
    requires |names| == |order| && forall i :: 0 <= i < |order| ==> names[i] == order[i].name
    requires Distinct(names) && j < |order| && k < |order| && order[j].name == order[k].name
    ensures j == k
  {
    DistinctPositions(names, j, k);
  }

  lemma AcceptedIsRearranged(entries: seq<Entry>, order: seq<Entry>)
    requires Accepts(entries, NameList(entries)) && NoHiddenCycle(entries)
    requires KahnOrder(PlanOf(entries), NameList(order)) && Emitted(entries, order)
    ensures LoadsEverythingInOrder(entries, order)
    ensures Distinct(order) && DependenciesFirst(order)
  {
    NamesAreKeys(entries);
    AcceptedExactlyWhenNothingIsLost(entries, NameList(entries), NameList(order));
    AcceptedLoadsEverythingInOrder(entries, order);
    DistinctEntries(order);
    forall e, f | e in order && f in order && f.name in e.dependencies ensures Precedes(order, f, e) {
      var i, k := IndexOf(order, e), IndexOf(order, f);
      var j :| 0 <= j < i && order[j].name == f.name;
      NameFindsPosition(order, NameList(order), j, k);
      PrecedesAt(order, k, i);
    }
  }

  lemma SameRanks(a: seq<Entry>, b: seq<Entry>, registry: Registry)
    requires multiset(a) == multiset(b)
    ensures RanksAscend(a, registry) <==> RanksAscend(b, registry)
    ensures InfrastructureKnown(a, registry) <==> InfrastructureKnown(b, registry)
  {
    forall e ensures e in a <==> e in b {
      assert e in a <==> e in multiset(a);
      assert e in b <==> e in multiset(b);
    }
  }

  /** What a completed start-up has registered. */
  ghost predicate RegisteredSoundly(entries: seq<Entry>, registry: Registry, registered: seq<Entry>) {
    && Distinct(registered)
    && (forall e :: e in registered <==> e in entries && Registrable(e, registry))
    && (DependenciesFirst(registered) <==> RanksAscend(entries, registry))
  }

  lemma GroupedIsSound(entries: seq<Entry>, registry: Registry, order: seq<Entry>)
    requires Accepts(entries, NameList(entries)) && NoHiddenCycle(entries)
    requires KahnOrder(PlanOf(entries), NameList(order)) && Emitted(entries, order)
    requires InfrastructureKnown(order, registry)
    ensures RegisteredSoundly(entries, registry, Grouped(order, registry))
  {
    AcceptedIsRearranged(entries, order);
    GroupingKeepsDependenciesExactlyWhen(order, registry);
    SameRanks(entries, order, registry);
    GroupedDistinct(order, registry);
    GroupMembers(order, registry);
    forall e ensures e in Grouped(order, registry) <==> e in entries && Registrable(e, registry) {
      assert e in order <==> e in multiset(order);
      assert e in entries <==> e in multiset(entries);
    }
  }

  /** Everything before the first entry that the registry does not know has been registered. */
  ghost predicate StoppedAtUnknown(entries: seq<Entry>, registry: Registry, registered: seq<Entry>, name: string) {
    && registered < entries
    && (forall e :: e in registered ==> Registrable(e, registry))
    && name == entries[|registered|].name && !Registrable(entries[|registered|], registry)
  }

  /** The order of a started application, read off names and registry values: the three infrastructure
      modules precede all others, and of the others those without a prefix precede those with one. */
  ghost predicate StartedInOrder(registered: seq<Entry>, registry: Registry) {
    forall e, f :: && e in registered && f in registered && e.name in registry && f.name in registry
                   && f.name !in {"infrastructure", "eventBus", "wsGateway"}
                   && (e.name in {"infrastructure", "eventBus", "wsGateway"}
                       || (registry[e.name] in {None, Some("")} && registry[f.name] !in {None, Some("")}))
                   ==> Precedes(registered, e, f)
  }

  lemma GroupedStartsInOrder(order: seq<Entry>, registry: Registry)
    requires InfrastructureKnown(order, registry)
    ensures StartedInOrder(Grouped(order, registry), registry)
  {
    GroupMembers(order, registry);
    var all := Grouped(order, registry);
    forall e, f | e in all && f in all && Rank(e, registry) < Rank(f, registry) ensures Precedes(all, e, f) {
      GroupedIsStable(order, registry, e, f);
    }
    forall e | e in all && e.name in registry { PrefixByValue(e, registry); }
  }

  lemma PrefixByValue(e: Entry, registry: Registry)
    requires e.name in registry
    ensures HasPrefix(e, registry) <==> registry[e.name] !in {None, Some("")}
  {
    match registry[e.name]
    case None =>
    case Some(prefix) => if prefix == "" { assert registry[e.name] == Some(""); }
  }

  /** Modules that belong together by these values stay as the sort has them. */
  lemma GroupsKeepOrder(order: seq<Entry>, registry: Registry, e: Entry, f: Entry)
    requires InfrastructureKnown(order, registry) && e in order && f in order
    requires e.name in registry && f.name in registry
    requires e.name in {"infrastructure", "eventBus", "wsGateway"} <==> f.name in {"infrastructure", "eventBus", "wsGateway"}
    requires registry[e.name] in {None, Some("")} <==> registry[f.name] in {None, Some("")}
    ensures Precedes(Grouped(order, registry), e, f) <==> Precedes(order, e, f)
  {
    PrefixByValue(e, registry);
    PrefixByValue(f, registry);
    assert Rank(e, registry) == Rank(f, registry);
    GroupedIsStable(order, registry, e, f);
  }

  method RegisterGroups(app: App, order: seq<Entry>, registry: Registry) returns (missing: Option<string>)
    requires app.registered == []
    modifies app
    ensures missing.None? <==> InfrastructureKnown(order, registry)
    ensures missing.None? ==> app.registered == Grouped(order, registry) && StartedInOrder(app.registered, registry)
    ensures missing.Some? ==> StoppedAtUnknown(InfrastructureEntries(order), registry, app.registered, missing.value)
  {
    GroupMembers(order, registry);
    var infrastructure := InfrastructureEntries(order);
    var rootLevel := RootLevelModules(order, registry);
    var prefixed := PrefixedModules(order, registry);
    ghost var count;
    missing, count := RegisterAll(app, infrastructure, registry);
    if missing.None? {
      PrefixStep(infrastructure, count);
      RegisterKnown(app, rootLevel, registry);
      RegisterKnown(app, prefixed, registry);
      GroupedStartsInOrder(order, registry);
    } else {
      assert infrastructure[count] in infrastructure;
    }
  }

  /** The one order of the sort, up to the first unknown infrastructure module or group by group. */
  ghost predicate RegisteredInOrder(entries: seq<Entry>, registry: Registry, registered: seq<Entry>, missing: Option<string>) {
    exists order :: KahnOrder(PlanOf(entries), NameList(order)) && Emitted(entries, order) &&
      match missing
      case None => InfrastructureKnown(order, registry) && registered == Grouped(order, registry)
      case Some(name) => StoppedAtUnknown(InfrastructureEntries(order), registry, registered, name)
  }

  /** Start-up with the manifest's own module names.  A refused manifest registers nothing, and an
      infrastructure module the registry does not know stops the start.  Otherwise every entry the
      registry knows is registered once, and the dependencies come first exactly when no module
      depends on one of a later group. */
  method BuildApp(app: App, entries: seq<Entry>, registry: Registry) returns (outcome: Outcome)
    requires app.registered == []
    modifies app
    ensures outcome.InvalidManifest? <==> !Accepts(entries, NameList(entries))
    ensures outcome.InvalidManifest? ==> app.registered == [] && outcome.errors != []
    ensures outcome.NotInRegistry? ==> RegisteredInOrder(entries, registry, app.registered, Some(outcome.name))
    ensures outcome.Started? ==> RegisteredInOrder(entries, registry, app.registered, None)
    ensures outcome.Started? ==> StartedInOrder(app.registered, registry)
    ensures outcome.Started? && NoHiddenCycle(entries) ==> InfrastructureKnown(entries, registry)
    ensures outcome.NotInRegistry? && NoHiddenCycle(entries) ==> !InfrastructureKnown(entries, registry)
    ensures outcome.Started? && NoHiddenCycle(entries) ==> RegisteredSoundly(entries, registry, app.registered)
  {
    var validation := ValidateManifest(entries, NameList(entries));
    if !validation.valid { return InvalidManifest(validation.errors); }
    var order := TopologicalSort(entries);
    var missing := RegisterGroups(app, order, registry);
    if NoHiddenCycle(entries) {
      AcceptedIsRearranged(entries, order);
      SameRanks(entries, order, registry);
      if missing.None? { GroupedIsSound(entries, registry, order); }
    }
    return if missing.Some? then NotInRegistry(missing.value) else Started;
  }
}
