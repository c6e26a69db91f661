/** API key scopes: which permissions they grant and when one list may be delegated from another. */
module ApiKeyScopes {
  import opened Options
  import opened Sequences
  import opened Strings

  datatype Scope = Scope(resource: string, actions: seq<string>)

  const RESOURCES: seq<string> := ["analytics", "users", "admin", "webhooks", "scim", "integrations"]

  function PermissionText(resource: string, suffix: string): string {
    resource + ":" + suffix
  }

  /** The permission table: every resource with read and write. */
  predicate IsPermission(p: string) {
    exists i :: 0 <= i < |RESOURCES| &&
      (p == PermissionText(RESOURCES[i], "read") || p == PermissionText(RESOURCES[i], "write"))
  }

  /** The admin action stands for read and write; any other action for itself. */
  function Suffixes(action: string): seq<string> {
    if action == "admin" then ["read", "write"] else [action]
  }

  function Known(resource: string, suffixes: seq<string>): seq<string> {
    if suffixes == [] then []
    else
      var p := PermissionText(resource, suffixes[|suffixes| - 1]);
      Known(resource, suffixes[..|suffixes| - 1]) + if IsPermission(p) then [p] else []
  }

  function PermissionsOf(resource: string, actions: seq<string>): seq<string> {
    if actions == [] then []
    else PermissionsOf(resource, actions[..|actions| - 1]) + Known(resource, Suffixes(actions[|actions| - 1]))
  }

  method ScopeToPermissions(scope: Scope) returns (permissions: seq<string>)
    ensures permissions == PermissionsOf(scope.resource, scope.actions)
  {
    permissions := [];
    for i := 0 to |scope.actions|
      invariant permissions == PermissionsOf(scope.resource, scope.actions[..i])
    {
      var suffixes := Suffixes(scope.actions[i]);
      ghost var before := permissions;
      PrefixStep(scope.actions, i);
      for j := 0 to |suffixes|
        invariant permissions == before + Known(scope.resource, suffixes[..j])
      {
        var permission := PermissionText(scope.resource, suffixes[j]);
        PrefixStep(suffixes, j);
        if IsPermission(permission) {
          permissions := permissions + [permission];
        }
      }
      PrefixStep(suffixes, |suffixes|);
    }
    PrefixStep(scope.actions, |scope.actions|);
  }

  function FindScope(scopes: seq<Scope>, resource: string): (r: Option<Scope>)
    ensures r.Some? ==> exists i :: && 0 <= i < |scopes| && scopes[i] == r.value && r.value.resource == resource
                                    && forall j :: 0 <= j < i ==> scopes[j].resource != resource
    ensures r.None? ==> forall s :: s in scopes ==> s.resource != resource
  {
    if scopes == [] then None
    else if scopes[0].resource == resource then Some(scopes[0])
    else FindScope(scopes[1..], resource)
  }

  predicate Covers(scope: Scope, action: string) {
    action in scope.actions || "admin" in scope.actions
  }

  predicate HasScopePermission(scopes: seq<Scope>, required: string)
    requires IsPermission(required)
  {
    var parts := Split(required, ':');
    |parts| > 1 && FindScope(scopes, parts[0]).Some? && Covers(FindScope(scopes, parts[0]).value, parts[1])
  }

  predicate HasAllScopePermissions(scopes: seq<Scope>, required: seq<string>)
    requires forall i :: 0 <= i < |required| ==> IsPermission(required[i])
  {
    forall i :: 0 <= i < |required| ==> HasScopePermission(scopes, required[i])
  }

  predicate ValidateScopeCombination(requested: seq<Scope>, allowed: seq<Scope>) {
    forall i :: 0 <= i < |requested| ==>
      var found := FindScope(allowed, requested[i].resource);
      found.Some? && forall j :: 0 <= j < |requested[i].actions| ==> Covers(found.value, requested[i].actions[j])
  }

  // ----- permissions as resource and action

  predicate HasNoColon(s: string) {
    forall i :: 0 <= i < |s| ==> s[i] != ':'
  }

  /** A permission falls apart at its colon in one way only. */
  lemma ColonIsUnique(r: string, a: string, r': string, a': string)
    requires HasNoColon(r) && HasNoColon(a) && PermissionText(r, a) == PermissionText(r', a')
    ensures r == r' && a == a'
  {
    var t := PermissionText(r, a);
    assert t[|r'|] == ':';
    assert forall i :: 0 <= i < |t| && i != |r| ==> t[i] != ':';
    assert |r| == |r'|;
    assert t[..|r|] == r && t[..|r'|] == r' && t[|r| + 1..] == a && t[|r'| + 1..] == a';
  }

  lemma PermissionSplits(r: string, a: string)
    requires HasNoColon(r) && HasNoColon(a)
    ensures Split(PermissionText(r, a), ':') == [r, a]
  {
    assert PermissionText(r, a) == r + ([':'] + a);
    SplitAtSeparator(r, a, ':');
    SplitWithoutSeparator(a, ':');
  }

  lemma ResourcesHaveNoColon()
    ensures forall i :: 0 <= i < |RESOURCES| ==> HasNoColon(RESOURCES[i])
    ensures HasNoColon("read") && HasNoColon("write")
  {}

  /** Every permission is a resource of the table with read or write. */
  lemma PermissionParts(p: string) returns (r: string, a: string)
    requires IsPermission(p)
    ensures p == PermissionText(r, a) && (a == "read" || a == "write")
    ensures HasNoColon(r) && HasNoColon(a) && Split(p, ':') == [r, a]
  {
    var i :| 0 <= i < |RESOURCES| &&
             (p == PermissionText(RESOURCES[i], "read") || p == PermissionText(RESOURCES[i], "write"));
    r, a := RESOURCES[i], if p == PermissionText(RESOURCES[i], "read") then "read" else "write";
    ResourcesHaveNoColon();
    PermissionSplits(r, a);
  }

  lemma {:induction false} KnownMembers(resource: string, suffixes: seq<string>, p: string)
    ensures p in Known(resource, suffixes) <==>
            IsPermission(p) && exists j :: 0 <= j < |suffixes| && p == PermissionText(resource, suffixes[j])
  {
    if suffixes != [] {
      var front := suffixes[..|suffixes| - 1];
      KnownMembers(resource, front, p);
      assert forall j :: 0 <= j < |front| ==> front[j] == suffixes[j];
    }
  }

  lemma SuffixMembers(resource: string, action: string, r: string, a: string)
    requires HasNoColon(r) && HasNoColon(a) && (a == "read" || a == "write") && IsPermission(PermissionText(r, a))
    ensures PermissionText(r, a) in Known(resource, Suffixes(action)) <==>
            resource == r && (action == a || action == "admin")
  {
    var p, suffixes := PermissionText(r, a), Suffixes(action);
    KnownMembers(resource, suffixes, p);
    if p in Known(resource, suffixes) {
      var j :| 0 <= j < |suffixes| && p == PermissionText(resource, suffixes[j]);
      ColonIsUnique(r, a, resource, suffixes[j]);
    }
    if resource == r && (action == a || action == "admin") {
      var j := if action == "admin" && a == "write" then 1 else 0;
      assert p == PermissionText(resource, suffixes[j]);
    }
  }

  lemma CoversGrows(resource: string, front: seq<string>, last: string, a: string)
    ensures Covers(Scope(resource, front + [last]), a) <==>
            Covers(Scope(resource, front), a) || last == a || last == "admin"
  {}

  const PERMISSIONS: seq<string> := [
    "analytics:read", "analytics:write", "users:read", "users:write", "admin:read", "admin:write",
    "webhooks:read", "webhooks:write", "scim:read", "scim:write", "integrations:read", "integrations:write"]

  lemma FirstRows(i: nat)
    requires i < 3
    ensures PermissionText(RESOURCES[i], "read") == PERMISSIONS[2 * i]
    ensures PermissionText(RESOURCES[i], "write") == PERMISSIONS[2 * i + 1]
  {}

  lemma LastRows(i: nat)
    requires 3 <= i < 6
    ensures PermissionText(RESOURCES[i], "read") == PERMISSIONS[2 * i]
    ensures PermissionText(RESOURCES[i], "write") == PERMISSIONS[2 * i + 1]
  {}

  lemma Row(i: nat)
    requires i < 6
    ensures PermissionText(RESOURCES[i], "read") == PERMISSIONS[2 * i]
    ensures PermissionText(RESOURCES[i], "write") == PERMISSIONS[2 * i + 1]
  {
    if i < 3 { FirstRows(i); } else { LastRows(i); }
  }

  lemma RowIsPermission(k: nat)
    requires k < 12
    ensures IsPermission(PERMISSIONS[k])
  {
    var i := k / 2;
    Row(i);
    assert k == 2 * i || k == 2 * i + 1;
  }

  /** The permission table, written out. */
  lemma PermissionTable(p: string)
    ensures IsPermission(p) <==> p in PERMISSIONS
  {
    if IsPermission(p) {
      var i :| 0 <= i < |RESOURCES| &&
               (p == PermissionText(RESOURCES[i], "read") || p == PermissionText(RESOURCES[i], "write"));
      Row(i);
    }
    if p in PERMISSIONS {
      var k :| 0 <= k < |PERMISSIONS| && PERMISSIONS[k] == p;
      RowIsPermission(k);
    }
  }

  function IfPermission(p: string): seq<string> {
    if IsPermission(p) then [p] else []
  }

  lemma KnownOfOne(resource: string, suffix: string)
    ensures Known(resource, [suffix]) == IfPermission(resource + ":" + suffix)
  {
    assert [suffix][..0] == [];
  }

  lemma KnownOfTwo(resource: string, first: string, second: string)
    ensures Known(resource, [first, second]) == IfPermission(resource + ":" + first) + IfPermission(resource + ":" + second)
  {
    assert [first, second][..1] == [first];
    KnownOfOne(resource, first);
  }

  /** The expansion goes action by action: admin gives read, then write; of the others, those in the table
      give themselves and the rest give nothing. */
  lemma ExpansionGoesByAction(resource: string, actions: seq<string>, action: string)
    ensures PermissionsOf(resource, []) == []
    ensures PermissionsOf(resource, actions + [action]) == PermissionsOf(resource, actions) +
            if action == "admin" then IfPermission(resource + ":" + "read") + IfPermission(resource + ":" + "write")
            else IfPermission(resource + ":" + action)
  {
    PrefixSurvives(actions, action, |actions|);
    KnownOfOne(resource, action);
    KnownOfTwo(resource, "read", "write");
  }

  /** A scope grants a permission exactly when it names its resource and covers its action. */
  lemma {:induction false} GrantsExactlyWhen(scope: Scope, p: string, r: string, a: string)
    requires IsPermission(p) && p == PermissionText(r, a)
    requires HasNoColon(r) && HasNoColon(a) && (a == "read" || a == "write")
    ensures p in PermissionsOf(scope.resource, scope.actions) <==> scope.resource == r && Covers(scope, a)
    decreases |scope.actions|
  {
    if scope.actions != [] {
      var front, last := scope.actions[..|scope.actions| - 1], scope.actions[|scope.actions| - 1];
      GrantsExactlyWhen(Scope(scope.resource, front), p, r, a);
      SuffixMembers(scope.resource, last, r, a);
      FrontAndLast(scope.actions);
      CoversGrows(scope.resource, front, last, a);
    }
  }

  // ----- the check against the expansion

  function Granted(scope: Scope): seq<string> {
    PermissionsOf(scope.resource, scope.actions)
  }

  /** Some scope of the list expands to the permission. */
  ghost predicate InUnion(scopes: seq<Scope>, p: string) {
    exists s :: s in scopes && p in Granted(s)
  }

  /** The check looks at the first scope of the resource only. */
  lemma CheckIsFirstScope(scopes: seq<Scope>, p: string, resource: string)
    requires IsPermission(p) && Split(p, ':')[0] == resource
    ensures HasScopePermission(scopes, p) <==>
            FindScope(scopes, resource).Some? && p in Granted(FindScope(scopes, resource).value)
  {
    var r, a := PermissionParts(p);
    if FindScope(scopes, r).Some? {
      GrantsExactlyWhen(FindScope(scopes, r).value, p, r, a);
    }
  }

  /** What a permission of a scope says about its resource. */
  lemma GrantedHasResource(scope: Scope, p: string)
    requires IsPermission(p) && p in Granted(scope)
    ensures Split(p, ':')[0] == scope.resource
  {
    var r, a := PermissionParts(p);
    GrantsExactlyWhen(scope, p, r, a);
  }

  /** No scope grants more than the first one of its resource. */
  ghost predicate RepeatsAddNothing(scopes: seq<Scope>) {
    forall s, p :: s in scopes && IsPermission(p) && p in Granted(s) ==> p in Granted(FindScope(scopes, s.resource).value)
  }

  /** The check agrees with the union of the expansions, for every permission, exactly when a
      repeated resource adds nothing to its first scope. */
  lemma CheckAgreesWithUnionExactlyWhen(scopes: seq<Scope>)
    ensures (forall p :: IsPermission(p) ==> (HasScopePermission(scopes, p) <==> InUnion(scopes, p)))
            <==> RepeatsAddNothing(scopes)
  {
    if RepeatsAddNothing(scopes) {
      forall p | IsPermission(p) ensures HasScopePermission(scopes, p) <==> InUnion(scopes, p) {
        CheckIsFirstScope(scopes, p, Split(p, ':')[0]);
        if InUnion(scopes, p) {
          var s :| s in scopes && p in Granted(s);
          GrantedHasResource(s, p);
        }
      }
    }
    if forall p :: IsPermission(p) ==> (HasScopePermission(scopes, p) <==> InUnion(scopes, p)) {
      forall s, p | s in scopes && IsPermission(p) && p in Granted(s)
        ensures p in Granted(FindScope(scopes, s.resource).value)
      {
        GrantedHasResource(s, p);
        CheckIsFirstScope(scopes, p, s.resource);
        assert InUnion(scopes, p);
      }
    }
  }

  lemma {:induction false} DistinctResourcesFind(scopes: seq<Scope>, s: Scope)
    requires s in scopes
    requires forall i, j :: 0 <= i < j < |scopes| ==> scopes[i].resource != scopes[j].resource
    ensures FindScope(scopes, s.resource) == Some(s)
  {
    if scopes[0] != s {
      assert s in scopes[1..];
      DistinctResourcesFind(scopes[1..], s);
      assert scopes[0].resource != s.resource;
    }
  }

  /** With distinct resources they always agree. */
  lemma DistinctResourcesAgree(scopes: seq<Scope>)
    requires forall i, j :: 0 <= i < j < |scopes| ==> scopes[i].resource != scopes[j].resource
    ensures forall p :: IsPermission(p) ==> (HasScopePermission(scopes, p) <==> InUnion(scopes, p))
  {
    forall s | s in scopes ensures FindScope(scopes, s.resource) == Some(s) { DistinctResourcesFind(scopes, s); }
    CheckAgreesWithUnionExactlyWhen(scopes);
  }

  // ----- delegation

  /** What an accepted request covers, the allowed list covers at its first scope of the resource. */
  lemma AcceptedIsCovered(requested: seq<Scope>, allowed: seq<Scope>, s: Scope, action: string)
    requires ValidateScopeCombination(requested, allowed) && s in requested && Covers(s, action)
    ensures FindScope(allowed, s.resource).Some? && Covers(FindScope(allowed, s.resource).value, action)
  {
    var i :| 0 <= i < |requested| && requested[i] == s;
    var found := FindScope(allowed, s.resource);
    assert found.Some?;
    if action in s.actions {
      var j :| 0 <= j < |s.actions| && s.actions[j] == action;
      assert Covers(found.value, requested[i].actions[j]);
    } else {
      var j :| 0 <= j < |s.actions| && s.actions[j] == "admin";
      assert Covers(found.value, requested[i].actions[j]);
    }
  }

  /** Acceptance is transitive. */
  lemma DelegationIsTransitive(a: seq<Scope>, b: seq<Scope>, c: seq<Scope>)
    requires ValidateScopeCombination(a, b) && ValidateScopeCombination(b, c)
    ensures ValidateScopeCombination(a, c)
  {
    forall i | 0 <= i < |a|
      ensures FindScope(c, a[i].resource).Some?
      ensures forall j :: 0 <= j < |a[i].actions| ==> Covers(FindScope(c, a[i].resource).value, a[i].actions[j])
    {
      var middle := FindScope(b, a[i].resource).value;
      var k :| 0 <= k < |b| && b[k] == middle;
      assert FindScope(c, b[k].resource).Some?;
      forall j | 0 <= j < |a[i].actions| ensures Covers(FindScope(c, a[i].resource).value, a[i].actions[j]) {
        AcceptedIsCovered(b, c, middle, a[i].actions[j]);
      }
    }
  }

  /** Every list of the chain is accepted against the next. */
  ghost predicate IsDelegationChain(chain: seq<seq<Scope>>) {
    |chain| >= 2 && forall i :: 0 <= i < |chain| - 1 ==> ValidateScopeCombination(chain[i], chain[i + 1])
  }

  lemma {:induction false} ChainIsAccepted(chain: seq<seq<Scope>>)
    requires IsDelegationChain(chain)
    ensures ValidateScopeCombination(chain[0], chain[|chain| - 1])
  {
    if |chain| > 2 {
      var front := chain[..|chain| - 1];
      assert forall i :: 0 <= i < |front| ==> front[i] == chain[i];
      ChainIsAccepted(front);
      assert ValidateScopeCombination(chain[|chain| - 2], chain[|chain| - 1]);
      DelegationIsTransitive(chain[0], chain[|chain| - 2], chain[|chain| - 1]);
    }
  }

  /** Along any chain of delegations, whatever any scope of the first list expands to, repeated
      resources included, the last list grants. */
  lemma DelegationNeverEscalates(chain: seq<seq<Scope>>, p: string)
    requires IsDelegationChain(chain) && IsPermission(p) && InUnion(chain[0], p)
    ensures HasScopePermission(chain[|chain| - 1], p)
  {
    ChainIsAccepted(chain);
    var s :| s in chain[0] && p in Granted(s);
    var r, a := PermissionParts(p);
    GrantsExactlyWhen(s, p, r, a);
    AcceptedIsCovered(chain[0], chain[|chain| - 1], s, a);
  }

  /** Delegation keeps every check: what the first list passes, each later list passes. */
  lemma DelegationKeepsChecks(chain: seq<seq<Scope>>, required: seq<string>)
    requires IsDelegationChain(chain) && forall i :: 0 <= i < |required| ==> IsPermission(required[i])
    requires HasAllScopePermissions(chain[0], required)
    ensures HasAllScopePermissions(chain[|chain| - 1], required)
  {
    forall i | 0 <= i < |required| ensures HasScopePermission(chain[|chain| - 1], required[i]) {
      CheckIsFirstScope(chain[0], required[i], Split(required[i], ':')[0]);
      DelegationNeverEscalates(chain, required[i]);
    }
  }

  // ----- when a request is accepted

  /** Everything the requested scopes expand to, the allowed list grants. */
  ghost predicate GrantsContained(requested: seq<Scope>, allowed: seq<Scope>) {
    forall p :: IsPermission(p) && InUnion(requested, p) ==> HasScopePermission(allowed, p)
  }

  ghost predicate ResourcesFound(requested: seq<Scope>, allowed: seq<Scope>) {
    forall i :: 0 <= i < |requested| ==> FindScope(allowed, requested[i].resource).Some?
  }

  /** The action stands for exactly one permission of the table. */
  predicate IsPlainAction(resource: string, action: string) {
    resource in RESOURCES && (action == "read" || action == "write")
  }

  /** Requested actions other than plain ones are listed, or admin is. */
  ghost predicate OtherActionsListed(requested: seq<Scope>, allowed: seq<Scope>)
    requires ResourcesFound(requested, allowed)
  {
    forall i, j :: 0 <= i < |requested| && 0 <= j < |requested[i].actions|
                   && !IsPlainAction(requested[i].resource, requested[i].actions[j]) ==>
      Covers(FindScope(allowed, requested[i].resource).value, requested[i].actions[j])
  }

  lemma PlainActionIsPermission(scope: Scope, action: string)
    requires IsPlainAction(scope.resource, action) && action in scope.actions
    ensures var p := PermissionText(scope.resource, action);
            IsPermission(p) && p in Granted(scope)
  {
    var k :| 0 <= k < |RESOURCES| && RESOURCES[k] == scope.resource;
    ResourcesHaveNoColon();
    GrantsExactlyWhen(scope, PermissionText(scope.resource, action), scope.resource, action);
  }

  lemma GrantedPlainActionIsCovered(requested: seq<Scope>, allowed: seq<Scope>, scope: Scope, action: string)
    requires GrantsContained(requested, allowed) && scope in requested
    requires IsPlainAction(scope.resource, action) && action in scope.actions
    ensures FindScope(allowed, scope.resource).Some? && Covers(FindScope(allowed, scope.resource).value, action)
  {
    var p := PermissionText(scope.resource, action);
    PlainActionIsPermission(scope, action);
    assert InUnion(requested, p);
    ResourcesHaveNoColon();
    PermissionSplits(scope.resource, action);
  }

  lemma AcceptedGrantsAreContained(requested: seq<Scope>, allowed: seq<Scope>)
    requires ValidateScopeCombination(requested, allowed)
    ensures GrantsContained(requested, allowed)
  {
    forall p | IsPermission(p) && InUnion(requested, p) ensures HasScopePermission(allowed, p) {
      DelegationNeverEscalates([requested, allowed], p);
    }
  }

  /** For any lists: a request is accepted exactly when its resources are found, its grants are
      contained, and its actions that are not plain are listed literally or through admin. */
  lemma AcceptedExactlyWhen(requested: seq<Scope>, allowed: seq<Scope>)
    ensures ValidateScopeCombination(requested, allowed) <==>
            ResourcesFound(requested, allowed) && OtherActionsListed(requested, allowed) && GrantsContained(requested, allowed)
  {
    if ValidateScopeCombination(requested, allowed) {
      AcceptedGrantsAreContained(requested, allowed);
    } else if ResourcesFound(requested, allowed) && OtherActionsListed(requested, allowed) && GrantsContained(requested, allowed) {
      forall i, j | 0 <= i < |requested| && 0 <= j < |requested[i].actions|
        ensures Covers(FindScope(allowed, requested[i].resource).value, requested[i].actions[j])
      {
        if IsPlainAction(requested[i].resource, requested[i].actions[j]) {
          GrantedPlainActionIsCovered(requested, allowed, requested[i], requested[i].actions[j]);
        }
      }
      assert false;
    }
  }

  /** What the scope schema admits. */
  predicate IsSchemaScope(scope: Scope) {
    scope.resource in RESOURCES
    && forall j :: 0 <= j < |scope.actions| ==> scope.actions[j] in ["read", "write", "admin"]
  }

  /** Where admin is requested, the first allowed scope of the resource lists it. */
  ghost predicate AdminIsListed(requested: seq<Scope>, allowed: seq<Scope>)
    requires ResourcesFound(requested, allowed)
  {
    forall i :: 0 <= i < |requested| && "admin" in requested[i].actions ==>
      "admin" in FindScope(allowed, requested[i].resource).value.actions
  }

  /** For scopes of the schema: accepted exactly when resources are found, grants are contained, and
      admin is granted by name, not by read and write together. */
  lemma SchemaScopesAcceptedExactlyWhen(requested: seq<Scope>, allowed: seq<Scope>)
    requires forall i :: 0 <= i < |requested| ==> IsSchemaScope(requested[i])
    ensures ValidateScopeCombination(requested, allowed) <==>
            ResourcesFound(requested, allowed) && AdminIsListed(requested, allowed) && GrantsContained(requested, allowed)
  {
    AcceptedExactlyWhen(requested, allowed);
    if ResourcesFound(requested, allowed) {
      if AdminIsListed(requested, allowed) {
        forall i, j | 0 <= i < |requested| && 0 <= j < |requested[i].actions|
                      && !IsPlainAction(requested[i].resource, requested[i].actions[j])
          ensures Covers(FindScope(allowed, requested[i].resource).value, requested[i].actions[j])
        {
          assert IsSchemaScope(requested[i]) && requested[i].actions[j] == "admin";
        }
      }
      if OtherActionsListed(requested, allowed) {
        forall i | 0 <= i < |requested| && "admin" in requested[i].actions
          ensures "admin" in FindScope(allowed, requested[i].resource).value.actions
        {
          var j :| 0 <= j < |requested[i].actions| && requested[i].actions[j] == "admin";
          assert !IsPlainAction(requested[i].resource, requested[i].actions[j]);
        }
      }
    }
  }

  /** Acceptance asks for more than it needs: an admin request is refused although read and write
      together grant everything it would. */
  lemma EqualGrantMayBeRefused()
    ensures var requested, allowed := [Scope("users", ["admin"])], [Scope("users", ["read", "write"])];
            && !ValidateScopeCombination(requested, allowed)
            && forall p :: IsPermission(p) ==> (InUnion(requested, p) <==> HasScopePermission(allowed, p))
  {
    var q, w := Scope("users", ["admin"]), Scope("users", ["read", "write"]);
    var requested, allowed := [q], [w];
    assert q.actions[0] == "admin" && !Covers(w, q.actions[0]);
    assert FindScope(allowed, requested[0].resource) == Some(w);
    forall p | IsPermission(p) ensures InUnion(requested, p) <==> HasScopePermission(allowed, p) {
      var r, a := PermissionParts(p);
      GrantsExactlyWhen(q, p, r, a);
      GrantsExactlyWhen(w, p, r, a);
      CheckIsFirstScope(allowed, p, r);
      assert q in requested;
    }
  }
}
