/** The web server's security headers: how they are built from the configuration and set one by one. */
module SecurityHeaders {
  import opened Options
  import opened Csp
  import opened HttpHeaders
  import opened SecurityPolicy

  type Headers = map<string, string>

  const CSP_HEADER := "content-security-policy"

  function TrustedTypes(e: Environment): seq<(string, string)> {
    if e.Development? then [] else [("x-content-security-policy", "require-trusted-types-for 'script'")]
  }

  function FrameAndType(): seq<(string, string)> {
    [("x-frame-options", "deny"), ("x-content-type-options", "nosniff")]
  }

  function ReferrerAndPermissions(): seq<(string, string)> {
    [("referrer-policy", "strict-origin-when-cross-origin"),
     ("permissions-policy", PERMISSIONS_POLICY)]
  }

  function OriginPolicies(coep: CoepPolicy): seq<(string, string)> {
    [("cross-origin-opener-policy", "same-origin"),
     ("cross-origin-embedder-policy", CoepText(coep)),
     ("cross-origin-resource-policy", "same-origin")]
  }

  function SameForAll(coep: CoepPolicy): seq<(string, string)> {
    FrameAndType() + ReferrerAndPermissions() + OriginPolicies(coep)
  }

  const HSTS: string := "max-age=63072000" + "; includeSubDomains" + "; preload"

  const PERMISSIONS_POLICY: string := "camera=(), microphone=()" + ", geolocation=(), payment=()"

  function TransportSecurity(e: Environment): seq<(string, string)> {
    if e.Production? then [("strict-transport-security", HSTS)] else []
  }

  /** The headers other than the policy itself, in the order they are set; they depend on the
      environment and the COEP policy only. */
  function FixedHeaders(e: Environment, coep: CoepPolicy): seq<(string, string)> {
    TrustedTypes(e) + SameForAll(coep) + TransportSecurity(e)
  }

  /** Headers.set, or nothing once a value has been refused. */
  function SetHeader(headers: Option<Headers>, name: string, value: string): Option<Headers> {
    if headers.Some? && HeaderValue(value).Some? then Some(headers.value[name := HeaderValue(value).value]) else None
  }

  /** One header after another. */
  function SetAll(headers: Option<Headers>, list: seq<(string, string)>): Option<Headers> {
    if list == [] then headers
    else SetHeader(SetAll(headers, list[..|list| - 1]), list[|list| - 1].0, list[|list| - 1].1)
  }

  /** None stands for the error thrown by a value that is refused. */
  function BuildSecurityHeaders(c: Config): Option<Headers> {
    SetAll(SetHeader(Some(map[]), CSP_HEADER, CspValue(c)), FixedHeaders(c.environment, c.coep))
  }

  predicate IsPlainText(s: string) {
    forall i :: 0 <= i < |s| ==> ' ' <= s[i] <= '~'
  }

  /** Visible ASCII characters and inner blanks. */
  predicate IsPlainValue(s: string) {
    s != "" && s[0] != ' ' && s[|s| - 1] != ' ' && IsPlainText(s)
  }

  lemma PlainTextJoins(a: string, b: string)
    requires IsPlainText(a) && IsPlainText(b)
    ensures IsPlainText(a + b)
  {}

  lemma PlainValueIsStored(s: string)
    requires IsPlainValue(s)
    ensures HeaderValue(s) == Some(s)
  {}

  predicate ArePlainValues(list: seq<(string, string)>) {
    forall i :: 0 <= i < |list| ==> IsPlainValue(list[i].1) && list[i].0 != CSP_HEADER
  }

  lemma PlainValuesJoin(a: seq<(string, string)>, b: seq<(string, string)>)
    requires ArePlainValues(a) && ArePlainValues(b)
    ensures ArePlainValues(a + b)
  {}

  lemma TrustedTypesArePlain(e: Environment)
    ensures ArePlainValues(TrustedTypes(e))
  {}

  lemma TransportSecurityIsPlain(e: Environment)
    ensures ArePlainValues(TransportSecurity(e))
  {
    PlainTextJoins("max-age=63072000", "; includeSubDomains");
    PlainTextJoins("max-age=63072000" + "; includeSubDomains", "; preload");
  }

  lemma FrameAndTypeArePlain()
    ensures ArePlainValues(FrameAndType())
  {}

  lemma FirstPermissionsArePlain()
    ensures IsPlainText("camera=(), microphone=()")
  {}

  lemma LastPermissionsArePlain()
    ensures IsPlainText(", geolocation=(), payment=()")
  {}

  lemma PermissionsArePlain()
    ensures IsPlainValue(PERMISSIONS_POLICY)
  {
    FirstPermissionsArePlain();
    LastPermissionsArePlain();
    PlainTextJoins("camera=(), microphone=()", ", geolocation=(), payment=()");
  }

  lemma ReferrerIsPlain()
    ensures IsPlainValue("strict-origin-when-cross-origin")
  {}

  lemma ReferrerAndPermissionsArePlain()
    ensures ArePlainValues(ReferrerAndPermissions())
  {
    PermissionsArePlain();
    ReferrerIsPlain();
  }

  lemma OriginPoliciesArePlain(coep: CoepPolicy)
    ensures ArePlainValues(OriginPolicies(coep))
  {}

  lemma FixedArePlain(e: Environment, coep: CoepPolicy)
    ensures ArePlainValues(FixedHeaders(e, coep))
  {
    TrustedTypesArePlain(e);
    TransportSecurityIsPlain(e);
    FrameAndTypeArePlain();
    ReferrerAndPermissionsArePlain();
    OriginPoliciesArePlain(coep);
    PlainValuesJoin(FrameAndType(), ReferrerAndPermissions());
    PlainValuesJoin(FrameAndType() + ReferrerAndPermissions(), OriginPolicies(coep));
    PlainValuesJoin(TrustedTypes(e), SameForAll(coep));
    PlainValuesJoin(TrustedTypes(e) + SameForAll(coep), TransportSecurity(e));
  }

  ghost predicate AreNormal(headers: Headers) {
    forall name :: name in headers ==> HeaderValue(headers[name]) == Some(headers[name])
  }

  lemma {:induction false} SetAllSets(headers: Option<Headers>, list: seq<(string, string)>)
    requires ArePlainValues(list)
    ensures SetAll(headers, list).Some? <==> headers.Some?
    ensures headers.Some? && CSP_HEADER in headers.value ==>
              CSP_HEADER in SetAll(headers, list).value && SetAll(headers, list).value[CSP_HEADER] == headers.value[CSP_HEADER]
    ensures headers.Some? && AreNormal(headers.value) ==> AreNormal(SetAll(headers, list).value)
  {
    if list != [] {
      SetAllSets(headers, list[..|list| - 1]);
      PlainValueIsStored(list[|list| - 1].1);
    }
  }

  /** The headers can be built exactly when every configured source consists of bytes without NUL and
      line breaks; the policy is then served as it is stored, and no later header replaces it. */
  lemma BuildsExactlyWhen(c: Config)
    ensures BuildSecurityHeaders(c).Some? <==> Configured(c, IsHeaderText)
    ensures BuildSecurityHeaders(c).Some? ==>
              && CSP_HEADER in BuildSecurityHeaders(c).value
              && BuildSecurityHeaders(c).value[CSP_HEADER] == StripEnd(CspValue(c))
              && AreNormal(BuildSecurityHeaders(c).value)
  {
    PolicyIsStoredExactlyWhen(c);
    HeaderValueTwice(CspValue(c));
    FixedArePlain(c.environment, c.coep);
    SetAllSets(SetHeader(Some(map[]), CSP_HEADER, CspValue(c)), FixedHeaders(c.environment, c.coep));
  }

  /** A browser reads all ten directives back from the served headers exactly when every configured
      source is a token of ASCII without NUL. */
  lemma ServedPolicyParsesBackExactlyWhen(c: Config)
    ensures BuildSecurityHeaders(c).Some? && ParseCsp(PolicyOf(BuildSecurityHeaders(c).value)) == Sourced(c) <==>
            Configured(c, IsToken) && Configured(c, IsAscii) && Configured(c, IsHeaderText)
  {
    BuildsExactlyWhen(c);
    PolicyIsStoredExactlyWhen(c);
    PolicyParsesBackExactlyWhen(c);
  }

  ghost predicate IsLast(list: seq<(string, string)>, i: nat)
    requires i < |list|
  {
    forall j :: i < j < |list| ==> list[j].0 != list[i].0
  }

  lemma {:induction false} SetAllAt(headers: Option<Headers>, list: seq<(string, string)>, i: nat)
    requires headers.Some? && ArePlainValues(list) && i < |list| && IsLast(list, i)
    ensures SetAll(headers, list).Some? && list[i].0 in SetAll(headers, list).value
    ensures SetAll(headers, list).value[list[i].0] == list[i].1
  {
    var front, last := list[..|list| - 1], list[|list| - 1];
    SetAllSets(headers, list);
    SetAllSets(headers, front);
    PlainValueIsStored(last.1);
    if i < |front| {
      assert IsLast(front, i) by { assert forall j :: i < j < |front| ==> front[j] == list[j]; }
      SetAllAt(headers, front, i);
    }
  }

  lemma {:induction false} SetAllNames(headers: Option<Headers>, list: seq<(string, string)>, name: string)
    requires headers.Some? && ArePlainValues(list)
    ensures SetAll(headers, list).Some?
    ensures name in SetAll(headers, list).value <==> name in headers.value || exists i :: 0 <= i < |list| && list[i].0 == name
  {
    if list != [] {
      var front, last := list[..|list| - 1], list[|list| - 1];
      SetAllNames(headers, front, name);
      SetAllSets(headers, front);
      PlainValueIsStored(last.1);
    }
  }

  predicate Has(headers: Headers, name: string, value: string) {
    name in headers && headers[name] == value
  }

  lemma {:induction false} SetAllJoins(headers: Option<Headers>, a: seq<(string, string)>, b: seq<(string, string)>)
    ensures SetAll(headers, a + b) == SetAll(SetAll(headers, a), b)
  {
    if b == [] {
      assert a + b == a;
    } else {
      assert (a + b)[..|a + b| - 1] == a + b[..|b| - 1];
      SetAllJoins(headers, a, b[..|b| - 1]);
    }
  }

  lemma {:induction false} SetAllKeeps(headers: Option<Headers>, list: seq<(string, string)>, name: string, value: string)
    requires headers.Some? && Has(headers.value, name, value) && ArePlainValues(list)
    requires forall i :: 0 <= i < |list| ==> list[i].0 != name
    ensures SetAll(headers, list).Some? && Has(SetAll(headers, list).value, name, value)
  {
    if list != [] {
      SetAllKeeps(headers, list[..|list| - 1], name, value);
      PlainValueIsStored(list[|list| - 1].1);
    }
  }

  /** What a group of headers sets stays when the groups after it have other names. */
  lemma SetByGroup(headers: Option<Headers>, before: seq<(string, string)>, group: seq<(string, string)>,
                   after: seq<(string, string)>, i: nat)
    requires headers.Some? && ArePlainValues(before) && ArePlainValues(group) && ArePlainValues(after)
    requires i < |group| && IsLast(group, i) && forall j :: 0 <= j < |after| ==> after[j].0 != group[i].0
    ensures SetAll(headers, before + group + after).Some?
    ensures Has(SetAll(headers, before + group + after).value, group[i].0, group[i].1)
  {
    SetAllJoins(headers, before + group, after);
    SetAllJoins(headers, before, group);
    SetAllSets(headers, before);
    SetAllAt(SetAll(headers, before), group, i);
    SetAllKeeps(SetAll(SetAll(headers, before), group), after, group[i].0, group[i].1);
  }

  predicate NamesApart(group: seq<(string, string)>, after: seq<(string, string)>) {
    forall i, j :: 0 <= i < |group| && 0 <= j < |after| ==> after[j].0 != group[i].0
  }

  lemma ApartFromSum(group: seq<(string, string)>, a: seq<(string, string)>, b: seq<(string, string)>)
    requires NamesApart(group, a) && NamesApart(group, b)
    ensures NamesApart(group, a + b)
  {}

  lemma GroupServed(headers: Option<Headers>, before: seq<(string, string)>, group: seq<(string, string)>,
                    after: seq<(string, string)>, name: string, value: string)
    requires headers.Some? && ArePlainValues(before) && ArePlainValues(group) && ArePlainValues(after)
    requires NamesApart(group, after) && (name, value) in group
    requires forall i, j :: 0 <= i < j < |group| ==> group[i].0 != group[j].0
    ensures SetAll(headers, before + group + after).Some?
    ensures Has(SetAll(headers, before + group + after).value, name, value)
  {
    var i :| 0 <= i < |group| && group[i] == (name, value);
    SetByGroup(headers, before, group, after, i);
  }

  lemma GroupsApart(e: Environment, coep: CoepPolicy)
    ensures NamesApart(FrameAndType(), ReferrerAndPermissions()) && NamesApart(FrameAndType(), OriginPolicies(coep))
    ensures NamesApart(ReferrerAndPermissions(), OriginPolicies(coep))
  {}

  lemma TransportIsApart(e: Environment, coep: CoepPolicy)
    ensures NamesApart(FrameAndType(), TransportSecurity(e)) && NamesApart(ReferrerAndPermissions(), TransportSecurity(e))
    ensures NamesApart(OriginPolicies(coep), TransportSecurity(e)) && NamesApart(TrustedTypes(e), TransportSecurity(e))
  {}

  lemma TrustedTypesAreApart(e: Environment, coep: CoepPolicy)
    ensures NamesApart(TrustedTypes(e), FrameAndType()) && NamesApart(TrustedTypes(e), ReferrerAndPermissions())
    ensures NamesApart(TrustedTypes(e), OriginPolicies(coep))
  {}

  lemma GroupsAreDistinct(coep: CoepPolicy)
    ensures forall i, j :: 0 <= i < j < |FrameAndType()| ==> FrameAndType()[i].0 != FrameAndType()[j].0
    ensures forall i, j :: 0 <= i < j < |ReferrerAndPermissions()| ==> ReferrerAndPermissions()[i].0 != ReferrerAndPermissions()[j].0
    ensures forall i, j :: 0 <= i < j < |OriginPolicies(coep)| ==> OriginPolicies(coep)[i].0 != OriginPolicies(coep)[j].0
  {}

  lemma FixedInGroups(t: seq<(string, string)>, a: seq<(string, string)>, b: seq<(string, string)>,
                      c: seq<(string, string)>, d: seq<(string, string)>)
    ensures t + (a + b + c) + d == [] + t + (a + b + c + d)
    ensures t + (a + b + c) + d == t + a + (b + c + d)
    ensures t + (a + b + c) + d == (t + a) + b + (c + d)
    ensures t + (a + b + c) + d == (t + a + b) + c + d
    ensures t + (a + b + c) + d == (t + a + b + c) + d + []
  {}

  lemma FrameAndTypeServed(headers: Option<Headers>, e: Environment, coep: CoepPolicy)
    requires headers.Some?
    ensures var r := SetAll(headers, FixedHeaders(e, coep));
            r.Some? && Has(r.value, "x-frame-options", "deny") && Has(r.value, "x-content-type-options", "nosniff")
  {
    var t, a, b, c, d := TrustedTypes(e), FrameAndType(), ReferrerAndPermissions(), OriginPolicies(coep), TransportSecurity(e);
    GroupsArePlain(e, coep);
    PlainValuesJoin(b, c);
    PlainValuesJoin(b + c, d);
    GroupsApart(e, coep);
    TransportIsApart(e, coep);
    ApartFromSum(a, b, c);
    ApartFromSum(a, b + c, d);
    GroupsAreDistinct(coep);
    FixedInGroups(t, a, b, c, d);
    GroupServed(headers, t, a, b + c + d, a[0].0, a[0].1);
    GroupServed(headers, t, a, b + c + d, a[1].0, a[1].1);
  }

  lemma GroupsArePlain(e: Environment, coep: CoepPolicy)
    ensures ArePlainValues(TrustedTypes(e)) && ArePlainValues(FrameAndType()) && ArePlainValues(ReferrerAndPermissions())
    ensures ArePlainValues(OriginPolicies(coep)) && ArePlainValues(TransportSecurity(e))
  {
    TrustedTypesArePlain(e);
    TransportSecurityIsPlain(e);
    FrameAndTypeArePlain();
    ReferrerAndPermissionsArePlain();
    OriginPoliciesArePlain(coep);
  }

  lemma ReferrerAndPermissionsServed(headers: Option<Headers>, e: Environment, coep: CoepPolicy)
    requires headers.Some?
    ensures var r := SetAll(headers, FixedHeaders(e, coep));
            && r.Some? && Has(r.value, "referrer-policy", "strict-origin-when-cross-origin")
            && Has(r.value, "permissions-policy", "camera=(), microphone=()" + ", geolocation=(), payment=()")
  {
    var t, a, b, c, d := TrustedTypes(e), FrameAndType(), ReferrerAndPermissions(), OriginPolicies(coep), TransportSecurity(e);
    GroupsArePlain(e, coep);
    PlainValuesJoin(t, a);
    PlainValuesJoin(c, d);
    GroupsApart(e, coep);
    TransportIsApart(e, coep);
    ApartFromSum(b, c, d);
    GroupsAreDistinct(coep);
    FixedInGroups(t, a, b, c, d);
    GroupServed(headers, t + a, b, c + d, b[0].0, b[0].1);
    GroupServed(headers, t + a, b, c + d, b[1].0, b[1].1);
  }

  lemma OriginPoliciesServed(headers: Option<Headers>, e: Environment, coep: CoepPolicy)
    requires headers.Some?
    ensures var r := SetAll(headers, FixedHeaders(e, coep));
            && r.Some? && Has(r.value, "cross-origin-opener-policy", "same-origin")
            && Has(r.value, "cross-origin-embedder-policy", if coep == RequireCorp then "require-corp" else "credentialless")
            && Has(r.value, "cross-origin-resource-policy", "same-origin")
  {
    var t, a, b, c, d := TrustedTypes(e), FrameAndType(), ReferrerAndPermissions(), OriginPolicies(coep), TransportSecurity(e);
    GroupsArePlain(e, coep);
    PlainValuesJoin(t, a);
    PlainValuesJoin(t + a, b);
    TransportIsApart(e, coep);
    GroupsAreDistinct(coep);
    FixedInGroups(t, a, b, c, d);
    GroupServed(headers, t + a + b, c, d, c[0].0, c[0].1);
    GroupServed(headers, t + a + b, c, d, c[1].0, c[1].1);
    GroupServed(headers, t + a + b, c, d, c[2].0, c[2].1);
  }

  predicate HasName(list: seq<(string, string)>, name: string) {
    exists i :: 0 <= i < |list| && list[i].0 == name
  }

  lemma NameInSum(a: seq<(string, string)>, b: seq<(string, string)>, name: string)
    ensures HasName(a + b, name) <==> HasName(a, name) || HasName(b, name)
  {
    assert forall i :: 0 <= i < |a| ==> (a + b)[i] == a[i];
    assert forall i :: 0 <= i < |b| ==> (a + b)[|a| + i] == b[i];
  }

  lemma NotAmongFixed(coep: CoepPolicy)
    ensures !HasName(FrameAndType(), "x-content-security-policy") && !HasName(FrameAndType(), "strict-transport-security")
    ensures !HasName(ReferrerAndPermissions(), "x-content-security-policy")
    ensures !HasName(ReferrerAndPermissions(), "strict-transport-security")
    ensures !HasName(OriginPolicies(coep), "x-content-security-policy")
    ensures !HasName(OriginPolicies(coep), "strict-transport-security")
  {}

  lemma NotInOther(e: Environment)
    ensures !HasName(TrustedTypes(e), "strict-transport-security") && !HasName(TransportSecurity(e), "x-content-security-policy")
    ensures HasName(TrustedTypes(e), "x-content-security-policy") <==> e != Development
    ensures HasName(TransportSecurity(e), "strict-transport-security") <==> e == Production
  {
    if e != Development { assert TrustedTypes(e)[0].0 == "x-content-security-policy"; }
    if e == Production { assert TransportSecurity(e)[0].0 == "strict-transport-security"; }
  }

  lemma NameInFixed(e: Environment, coep: CoepPolicy, name: string)
    requires !HasName(FrameAndType(), name) && !HasName(ReferrerAndPermissions(), name) && !HasName(OriginPolicies(coep), name)
    ensures HasName(FixedHeaders(e, coep), name) <==> HasName(TrustedTypes(e), name) || HasName(TransportSecurity(e), name)
  {
    NameInSum(FrameAndType(), ReferrerAndPermissions(), name);
    NameInSum(FrameAndType() + ReferrerAndPermissions(), OriginPolicies(coep), name);
    NameInSum(TrustedTypes(e), SameForAll(coep), name);
    NameInSum(TrustedTypes(e) + SameForAll(coep), TransportSecurity(e), name);
  }

  lemma SetByEnvironment(headers: Option<Headers>, e: Environment, coep: CoepPolicy)
    requires headers.Some? && "x-content-security-policy" !in headers.value && "strict-transport-security" !in headers.value
    ensures var r := SetAll(headers, FixedHeaders(e, coep));
            && r.Some?
            && ("x-content-security-policy" in r.value <==> e != Development)
            && ("strict-transport-security" in r.value <==> e == Production)
  {
    FixedArePlain(e, coep);
    NotAmongFixed(coep);
    NotInOther(e);
    NameInFixed(e, coep, "x-content-security-policy");
    NameInFixed(e, coep, "strict-transport-security");
    SetAllNames(headers, FixedHeaders(e, coep), "x-content-security-policy");
    SetAllNames(headers, FixedHeaders(e, coep), "strict-transport-security");
  }

  lemma TrustedTypesServed(headers: Option<Headers>, e: Environment, coep: CoepPolicy)
    requires headers.Some? && e != Development
    ensures var r := SetAll(headers, FixedHeaders(e, coep));
            r.Some? && Has(r.value, "x-content-security-policy", "require-trusted-types-for 'script'")
  {
    var t, a, b, c, d := TrustedTypes(e), FrameAndType(), ReferrerAndPermissions(), OriginPolicies(coep), TransportSecurity(e);
    GroupsArePlain(e, coep);
    PlainValuesJoin(a, b);
    PlainValuesJoin(a + b, c);
    PlainValuesJoin(a + b + c, d);
    TrustedTypesAreApart(e, coep);
    TransportIsApart(e, coep);
    ApartFromSum(t, a, b);
    ApartFromSum(t, a + b, c);
    ApartFromSum(t, a + b + c, d);
    FixedInGroups(t, a, b, c, d);
    GroupServed(headers, [], t, a + b + c + d, t[0].0, t[0].1);
  }

  lemma TransportSecurityServed(headers: Option<Headers>, e: Environment, coep: CoepPolicy)
    requires headers.Some? && e == Production
    ensures var r := SetAll(headers, FixedHeaders(e, coep));
            && r.Some?
            && Has(r.value, "strict-transport-security", "max-age=63072000" + "; includeSubDomains" + "; preload")
  {
    var t, a, b, c, d := TrustedTypes(e), FrameAndType(), ReferrerAndPermissions(), OriginPolicies(coep), TransportSecurity(e);
    FixedArePlain(e, coep);
    GroupsArePlain(e, coep);
    PlainValuesJoin(t, a);
    PlainValuesJoin(t + a, b);
    PlainValuesJoin(t + a + b, c);
    FixedInGroups(t, a, b, c, d);
    GroupServed(headers, t + a + b + c, d, [], d[0].0, d[0].1);
  }

  lemma PolicyHeaderOnly(c: Config)
    requires BuildSecurityHeaders(c).Some?
    ensures SetHeader(Some(map[]), CSP_HEADER, CspValue(c)).Some?
    ensures var h := SetHeader(Some(map[]), CSP_HEADER, CspValue(c)).value;
            "x-content-security-policy" !in h && "strict-transport-security" !in h
  {
    FixedArePlain(c.environment, c.coep);
    SetAllSets(SetHeader(Some(map[]), CSP_HEADER, CspValue(c)), FixedHeaders(c.environment, c.coep));
  }

  /** The served headers beside the policy: seven that are always there, the trusted-types policy outside
      development, and transport security in production. */
  lemma ServedHeaders(c: Config)
    requires BuildSecurityHeaders(c).Some?
    ensures var h := BuildSecurityHeaders(c).value;
            && Has(h, "x-frame-options", "deny") && Has(h, "x-content-type-options", "nosniff")
            && Has(h, "referrer-policy", "strict-origin-when-cross-origin")
            && Has(h, "permissions-policy", "camera=(), microphone=()" + ", geolocation=(), payment=()")
            && Has(h, "cross-origin-opener-policy", "same-origin")
            && Has(h, "cross-origin-embedder-policy", if c.coep == RequireCorp then "require-corp" else "credentialless")
            && Has(h, "cross-origin-resource-policy", "same-origin")
            && ("x-content-security-policy" in h <==> c.environment != Development)
            && ("strict-transport-security" in h <==> c.environment == Production)
            && (c.environment != Development ==>
                Has(h, "x-content-security-policy", "require-trusted-types-for 'script'"))
            && (c.environment == Production ==>
                Has(h, "strict-transport-security", "max-age=63072000" + "; includeSubDomains" + "; preload"))
  {
    PolicyHeaderOnly(c);
    var headers := SetHeader(Some(map[]), CSP_HEADER, CspValue(c));
    FrameAndTypeServed(headers, c.environment, c.coep);
    ReferrerAndPermissionsServed(headers, c.environment, c.coep);
    OriginPoliciesServed(headers, c.environment, c.coep);
    SetByEnvironment(headers, c.environment, c.coep);
    if c.environment != Development { TrustedTypesServed(headers, c.environment, c.coep); }
    if c.environment == Production { TransportSecurityServed(headers, c.environment, c.coep); }
  }

  function PolicyOf(headers: Headers): string {
    if CSP_HEADER in headers then headers[CSP_HEADER] else ""
  }
}
