/** The security policy of the web server: the source lists built from the configuration, the header
    text they give, and what of it a browser reads back. */
module SecurityPolicy {
  import opened Options
  import opened Sequences
  import opened OrderedSets
  import opened Strings
  import opened Csp
  import opened HttpHeaders

  datatype Environment = Development | Test | Production

  datatype CoepPolicy = RequireCorp | Credentialless

  /** The configuration values the builder reads. */
  datatype Config = Config(environment: Environment, frameAncestors: string, connectSrc: string, imgSrc: string, coep: CoepPolicy)

  function EnvironmentText(e: Environment): string {
    match e case Development => "development" case Test => "test" case Production => "production"
  }

  function CoepText(c: CoepPolicy): string {
    match c case RequireCorp => "require-corp" case Credentialless => "credentialless"
  }

  // ----- the policy

  predicate IsJsSpace(c: char) {
    || 0x09 as char <= c <= 0x0D as char || c == ' ' || c == 0xA0 as char || c == 0x1680 as char
    || 0x2000 as char <= c <= 0x200A as char || c == 0x2028 as char || c == 0x2029 as char
    || c == 0x202F as char || c == 0x205F as char || c == 0x3000 as char || c == 0xFEFF as char
  }

  /** String.prototype.trim. */
  function Trim(s: string): string {
    if s != "" && IsJsSpace(s[0]) then Trim(s[1..])
    else if s != "" && IsJsSpace(s[|s| - 1]) then Trim(s[..|s| - 1])
    else s
  }

  function TrimAll(parts: seq<string>): seq<string> {
    if parts == [] then [] else [Trim(parts[0])] + TrimAll(parts[1..])
  }

  /** A comma-separated setting; empty means nothing was configured. */
  function CustomSources(setting: string): seq<string> {
    if setting == "" then [] else TrimAll(Split(setting, ','))
  }

  function Dedupe(sources: seq<string>): seq<string> {
    Collect(NormalizeAll(sources))
  }

  const DEVELOPMENT_CONNECT_SOURCES: seq<string> :=
    ["'self'", "http://localhost:*", "http://127.0.0.1:*", "ws://localhost:*", "ws://127.0.0.1:*"]

  function BaseConnectSources(e: Environment): seq<string> {
    if e.Development? then DEVELOPMENT_CONNECT_SOURCES else ["'self'"]
  }

  function BaseImageSources(e: Environment): seq<string> {
    if e.Development? then ["'self'", "data:", "blob:", "https:"] else ["'self'", "data:"]
  }

  function ConnectSources(c: Config): seq<string> {
    Dedupe(BaseConnectSources(c.environment) + CustomSources(c.connectSrc))
  }

  function ImageSources(c: Config): seq<string> {
    Dedupe(BaseImageSources(c.environment) + CustomSources(c.imgSrc))
  }

  /** Neither deduplicated nor normalised. */
  function FrameAncestors(c: Config): seq<string> {
    if c.frameAncestors == "none" || c.frameAncestors == "" then ["'none'"]
    else TrimAll(Split(c.frameAncestors, ','))
  }

  function ScriptSources(e: Environment): seq<string> {
    if e.Development? then ["'self'", "'unsafe-inline'", "'unsafe-eval'"] else ["'self'"]
  }

  function StyleSources(e: Environment): seq<string> {
    if e.Development? then ["'self'", "'unsafe-inline'", "https:"] else ["'self'"]
  }

  const NAMES: seq<string> :=
    ["default-src", "base-uri", "script-src", "style-src", "connect-src",
     "img-src", "font-src", "object-src", "form-action", "frame-ancestors"]

  const SELF: seq<string> := ["'self'"]
  const NOTHING: seq<string> := ["'none'"]

  function Lists(script: seq<string>, style: seq<string>, connect: seq<string>, image: seq<string>,
                 frame: seq<string>): (lists: seq<seq<string>>)
    ensures |lists| == 10 && lists[4] == connect && lists[5] == image && lists[9] == frame
  {
    [SELF, SELF, script, style] + [connect, image] + [SELF, NOTHING, SELF] + [frame]
  }

  /** The sources of the directives, in the same order. */
  function SourceLists(c: Config): (lists: seq<seq<string>>)
    ensures |lists| == 10
  {
    Lists(ScriptSources(c.environment), StyleSources(c.environment), ConnectSources(c), ImageSources(c), FrameAncestors(c))
  }

  function Zip(names: seq<string>, lists: seq<seq<string>>): (ds: seq<Directive>)
    requires |names| == |lists|
    ensures |ds| == |names| && forall i :: 0 <= i < |ds| ==> ds[i] == Directive(names[i], lists[i])
  {
    if names == [] then [] else [Directive(names[0], lists[0])] + Zip(names[1..], lists[1..])
  }

  /** The ten directives that have sources. */
  function Sourced(c: Config): seq<Directive> {
    Zip(NAMES, SourceLists(c))
  }

  function Directives(c: Config): seq<Directive> {
    Sourced(c) + [Directive("upgrade-insecure-requests", [])]
  }

  function CspValue(c: Config): string {
    BuildCspHeaderValue(Directives(c))
  }

  // ----- every directive has sources

  /** Lower-case letters and dashes. */
  predicate IsName(s: string) {
    s != "" && forall i :: 0 <= i < |s| ==> s[i] == '-' || 'a' <= s[i] <= 'z'
  }

  lemma NameIsToken(s: string)
    requires IsName(s)
    ensures IsToken(s) && IsLower(s) && IsAscii(s) && IsHeaderText(s)
  {}

  lemma FirstNames()
    ensures IsName("default-src") && IsName("base-uri") && IsName("script-src") && IsName("style-src")
  {}

  lemma MiddleNames()
    ensures IsName("connect-src") && IsName("img-src") && IsName("font-src")
  {}

  lemma LastNames()
    ensures IsName("object-src") && IsName("form-action") && IsName("frame-ancestors")
  {}

  lemma NamesAreNames()
    ensures forall i :: 0 <= i < |NAMES| ==> IsName(NAMES[i])
  {
    FirstNames();
    MiddleNames();
    LastNames();
  }

  lemma NamesAreDistinct()
    ensures forall i, j :: 0 <= i < j < |NAMES| ==> NAMES[i] != NAMES[j]
  {}

  predicate AreSourceLists(lists: seq<seq<string>>) {
    forall i :: 0 <= i < |lists| ==> lists[i] != []
  }

  predicate AllOf(ss: seq<string>, p: string -> bool) {
    forall i :: 0 <= i < |ss| ==> p(ss[i])
  }

  predicate AllHold(lists: seq<seq<string>>, p: string -> bool) {
    forall i :: 0 <= i < |lists| ==> AllOf(lists[i], p)
  }

  lemma {:induction false} EmittedOfAppend(a: seq<Directive>, b: seq<Directive>)
    ensures Emitted(a + b) == Emitted(a) + Emitted(b)
  {
    if a == [] {
      assert a + b == b;
    } else {
      EmittedOfAppend(a[1..], b);
      assert (a + b)[1..] == a[1..] + b;
      Reassociate(if |a[0].sources| > 0 then [a[0]] else [], Emitted(a[1..]), Emitted(b));
    }
  }

  lemma {:induction false} EmittedIsAll(ds: seq<Directive>)
    requires HaveSources(ds)
    ensures Emitted(ds) == ds
  {
    if ds != [] {
      EmittedIsAll(ds[1..]);
      assert ds == [ds[0]] + ds[1..];
    }
  }

  lemma DedupeIsNotEmpty(base: seq<string>, more: seq<string>)
    requires base != [] && base[0] == "'self'"
    ensures Dedupe(base + more) != []
  {
    var all := base + more;
    assert all[0] == "'self'";
    NormalizedHolds(all, 0);
    CollectMembers(NormalizeAll(all), NormalizeCspSource("'self'"));
  }

  lemma {:induction false} NormalizedHolds(sources: seq<string>, i: nat)
    requires i < |sources| && NormalizeCspSource(sources[i]) != ""
    ensures NormalizeCspSource(sources[i]) in NormalizeAll(sources)
  {
    if i < |sources| - 1 { NormalizedHolds(sources[..|sources| - 1], i); }
  }

  lemma TrimAllLength(parts: seq<string>)
    ensures |TrimAll(parts)| == |parts|
  {}

  lemma ConfiguredAreNotEmpty(c: Config)
    ensures ConnectSources(c) != [] && ImageSources(c) != [] && FrameAncestors(c) != []
  {
    DedupeIsNotEmpty(BaseConnectSources(c.environment), CustomSources(c.connectSrc));
    DedupeIsNotEmpty(BaseImageSources(c.environment), CustomSources(c.imgSrc));
    TrimAllLength(Split(c.frameAncestors, ','));
  }

  lemma ListsHaveSources(script: seq<string>, style: seq<string>, connect: seq<string>, image: seq<string>, frame: seq<string>)
    requires script != [] && style != [] && connect != [] && image != [] && frame != []
    ensures AreSourceLists(Lists(script, style, connect, image, frame))
  {}

  lemma ListsAreNotEmpty(c: Config)
    ensures AreSourceLists(SourceLists(c))
  {
    ConfiguredAreNotEmpty(c);
    ListsHaveSources(ScriptSources(c.environment), StyleSources(c.environment),
                     ConnectSources(c), ImageSources(c), FrameAncestors(c));
  }

  lemma ZipHasSources(names: seq<string>, lists: seq<seq<string>>)
    requires |names| == |lists| && AreSourceLists(lists)
    ensures HaveSources(Zip(names, lists))
  {}

  lemma SourcedHaveSources(c: Config)
    ensures HaveSources(Sourced(c))
  {
    ListsAreNotEmpty(c);
    ZipHasSources(NAMES, SourceLists(c));
  }

  lemma SourcedAreEmitted(c: Config)
    ensures Emitted(Directives(c)) == Sourced(c)
  {
    SourcedHaveSources(c);
    EmittedIsAll(Sourced(c));
    var last := Directive("upgrade-insecure-requests", []);
    EmittedOfAppend(Sourced(c), [last]);
    assert Emitted([last]) == [] + Emitted([last][1..]);
  }

  // ----- the directives, written out

  lemma ListsAre(script: seq<string>, style: seq<string>, connect: seq<string>, image: seq<string>, frame: seq<string>)
    ensures var lists := Lists(script, style, connect, image, frame);
            && lists[0] == SELF && lists[1] == SELF && lists[2] == script && lists[3] == style
            && lists[6] == SELF && lists[7] == NOTHING && lists[8] == SELF
  {}

  lemma DirectiveAt(c: Config, i: nat)
    requires i < 10
    ensures Sourced(c)[i] == Directive(NAMES[i], SourceLists(c)[i])
    ensures var lists := SourceLists(c);
            && lists[0] == SELF && lists[1] == SELF && lists[6] == SELF && lists[7] == NOTHING && lists[8] == SELF
            && lists[2] == ScriptSources(c.environment) && lists[3] == StyleSources(c.environment)
  {
    ListsAre(ScriptSources(c.environment), StyleSources(c.environment),
             ConnectSources(c), ImageSources(c), FrameAncestors(c));
  }

  lemma FirstDirectives(c: Config)
    ensures Sourced(c)[0] == Directive("default-src", ["'self'"]) && Sourced(c)[1] == Directive("base-uri", ["'self'"])
  {
    DirectiveAt(c, 0);
    DirectiveAt(c, 1);
  }

  lemma MiddleDirectives(c: Config)
    ensures Sourced(c)[6] == Directive("font-src", ["'self'"]) && Sourced(c)[7] == Directive("object-src", ["'none'"])
    ensures Sourced(c)[8] == Directive("form-action", ["'self'"])
  {
    DirectiveAt(c, 6);
    DirectiveAt(c, 7);
    DirectiveAt(c, 8);
  }

  /** Inline and evaluated code is allowed in development only. */
  lemma ScriptAndStyleDirectives(c: Config)
    ensures Sourced(c)[2] == Directive("script-src",
              if c.environment == Development then ["'self'", "'unsafe-inline'", "'unsafe-eval'"] else ["'self'"])
    ensures Sourced(c)[3] == Directive("style-src",
              if c.environment == Development then ["'self'", "'unsafe-inline'", "https:"] else ["'self'"])
  {
    DirectiveAt(c, 2);
    DirectiveAt(c, 3);
  }

  lemma DedupeOne(x: string)
    requires x != "" && NormalizeCspSource(x) == x
    ensures Dedupe([x]) == [x]
  {
    assert [x][..0] == [];
    assert NormalizeAll([x]) == [] + [x];
    CollectDistinct([x]);
  }

  lemma DedupeTwo(x: string, y: string)
    requires x != "" && NormalizeCspSource(x) == x && y != "" && NormalizeCspSource(y) == y && x != y
    ensures Dedupe([x, y]) == [x, y]
  {
    assert [x][..0] == [] && [x, y][..1] == [x];
    assert NormalizeAll([x]) == [] + [x];
    assert NormalizeAll([x, y]) == [x] + [y];
    CollectDistinct([x, y]);
  }

  lemma SelfIsKept()
    ensures NormalizeCspSource("'self'") == "'self'"
  {
    assert "'self'"[1..5] == "self";
  }

  lemma UnquotedIsKept(x: string)
    requires x != "" && x[0] != '\'' && x !in CSP_KEYWORDS
    ensures NormalizeCspSource(x) == x
  {}

  lemma {:induction false} DedupeNormalized(xs: seq<string>)
    requires AreNormalized(xs) && Distinct(xs)
    ensures Dedupe(xs) == xs
  {
    NormalizedStay(xs);
    CollectDistinct(xs);
  }

  lemma DevelopmentSourcesAreNormalized()
    ensures AreNormalized(["'self'", "http://localhost:*", "http://127.0.0.1:*", "ws://localhost:*", "ws://127.0.0.1:*"])
  {
    SelfIsKept();
    UnquotedIsKept("http://localhost:*");
    UnquotedIsKept("http://127.0.0.1:*");
    UnquotedIsKept("ws://localhost:*");
    UnquotedIsKept("ws://127.0.0.1:*");
  }

  lemma ImageSourcesAreNormalized()
    ensures AreNormalized(["'self'", "data:"]) && AreNormalized(["'self'", "data:", "blob:", "https:"])
  {
    SelfIsKept();
    UnquotedIsKept("data:");
    UnquotedIsKept("blob:");
    UnquotedIsKept("https:");
  }

  /** What is allowed where nothing is configured. */
  lemma BaseConnect(c: Config)
    requires c.connectSrc == ""
    ensures ConnectSources(c) ==
            if c.environment == Development
            then ["'self'", "http://localhost:*", "http://127.0.0.1:*", "ws://localhost:*", "ws://127.0.0.1:*"]
            else ["'self'"]
  {
    var base := BaseConnectSources(c.environment);
    assert base + [] == base;
    if c.environment == Development {
      DevelopmentSourcesAreNormalized();
      DedupeNormalized(base);
    } else {
      SelfIsKept();
      DedupeOne("'self'");
    }
  }

  lemma BaseImage(c: Config)
    requires c.imgSrc == ""
    ensures ImageSources(c) ==
            if c.environment == Development then ["'self'", "data:", "blob:", "https:"] else ["'self'", "data:"]
  {
    var base := BaseImageSources(c.environment);
    assert base + [] == base;
    ImageSourcesAreNormalized();
    DedupeNormalized(base);
  }

  ghost predicate HasImage<A, B>(xs: seq<A>, f: A -> B, y: B) {
    exists i :: 0 <= i < |xs| && f(xs[i]) == y
  }

  lemma ImageOfSum<A, B>(a: seq<A>, b: seq<A>, f: A -> B, y: B)
    ensures HasImage(a + b, f, y) <==> HasImage(a, f, y) || HasImage(b, f, y)
  {
    var all := a + b;
    assert forall i :: 0 <= i < |a| ==> all[i] == a[i];
    assert forall i :: 0 <= i < |b| ==> all[|a| + i] == b[i];
    if i :| 0 <= i < |all| && f(all[i]) == y {
      if i >= |a| { assert all[i] == b[i - |a|]; }
    }
  }

  lemma ImageOfOne<A, B>(x: A, f: A -> B, y: B)
    ensures HasImage([x], f, y) <==> f(x) == y
  {
    assert [x][0] == x;
  }

  lemma {:induction false} NormalizedMembers(xs: seq<string>, s: string)
    ensures s in NormalizeAll(xs) <==> s != "" && HasImage(xs, NormalizeCspSource, s)
  {
    if xs != [] {
      var front, last := xs[..|xs| - 1], xs[|xs| - 1];
      NormalizedMembers(front, s);
      ImageOfSum(front, [last], NormalizeCspSource, s);
      ImageOfOne(last, NormalizeCspSource, s);
      FrontAndLast(xs);
    }
  }

  /** A configured list has the base sources and the trimmed parts of the setting, normalised. */
  lemma ListMembers(base: seq<string>, setting: string, s: string)
    ensures s in Dedupe(base + CustomSources(setting)) <==>
            s != "" && (HasImage(base, NormalizeCspSource, s)
                        || (setting != "" && HasImage(TrimAll(Split(setting, ',')), NormalizeCspSource, s)))
  {
    var custom := CustomSources(setting);
    CollectMembers(NormalizeAll(base + custom), s);
    NormalizedMembers(base + custom, s);
    ImageOfSum(base, custom, NormalizeCspSource, s);
  }

  /** The frame ancestors are one trimmed source for each part of the setting, and none if there is none. */
  lemma FrameAncestorsAre(c: Config)
    ensures c.frameAncestors in {"none", ""} ==> FrameAncestors(c) == ["'none'"]
    ensures var parts := Split(c.frameAncestors, ',');
            c.frameAncestors !in {"none", ""} ==>
              |FrameAncestors(c)| == |parts| && forall i :: 0 <= i < |parts| ==> FrameAncestors(c)[i] == Trim(parts[i])
  {
    TrimAllAt(Split(c.frameAncestors, ','));
  }

  lemma {:induction false} TrimAllAt(parts: seq<string>)
    ensures |TrimAll(parts)| == |parts| && forall i :: 0 <= i < |parts| ==> TrimAll(parts)[i] == Trim(parts[i])
  {
    if parts != [] { TrimAllAt(parts[1..]); }
  }

  lemma PartOfTail(s: string, i: int, j: int)
    requires s != "" && IsJsSpace(s[0]) && IsTrimmedPart(s[1..], i, j)
    ensures IsTrimmedPart(s, i + 1, j + 1)
  {
    var t := s[1..];
    assert t[i..j] == s[i + 1..j + 1];
    forall k | 0 <= k < i + 1 || j + 1 <= k < |s| ensures IsJsSpace(s[k]) {
      if k > 0 { assert IsJsSpace(t[k - 1]); }
    }
    if i < j { assert s[i + 1] == t[i] && s[j] == t[j - 1]; }
  }

  lemma PartOfFront(s: string, i: int, j: int)
    requires s != "" && !IsJsSpace(s[0]) && IsJsSpace(s[|s| - 1]) && IsTrimmedPart(s[..|s| - 1], i, j)
    ensures IsTrimmedPart(s, i, j)
  {
    var t := s[..|s| - 1];
    assert t[i..j] == s[i..j];
    forall k | 0 <= k < i || j <= k < |s| ensures IsJsSpace(s[k]) {
      if k < |t| { assert IsJsSpace(t[k]); }
    }
    if i < j { assert s[i] == t[i] && s[j - 1] == t[j - 1]; }
  }

  /** Trimming takes the white space off both ends and nothing else. */
  lemma {:induction false} TrimMeans(s: string)
    ensures exists i, j :: IsTrimmedPart(s, i, j)
    decreases |s|
  {
    if s != "" && IsJsSpace(s[0]) {
      TrimMeans(s[1..]);
      var i, j :| IsTrimmedPart(s[1..], i, j);
      PartOfTail(s, i, j);
    } else if s != "" && IsJsSpace(s[|s| - 1]) {
      TrimMeans(s[..|s| - 1]);
      var i, j :| IsTrimmedPart(s[..|s| - 1], i, j);
      PartOfFront(s, i, j);
    } else {
      assert s[0..|s|] == s;
      assert IsTrimmedPart(s, 0, |s|);
    }
  }

  ghost predicate IsTrimmedPart(s: string, i: int, j: int) {
    && 0 <= i <= j <= |s| && Trim(s) == s[i..j]
    && (forall k :: 0 <= k < i || j <= k < |s| ==> IsJsSpace(s[k]))
    && (i < j ==> !IsJsSpace(s[i]) && !IsJsSpace(s[j - 1]))
  }

  // ----- what holds of all sources is decided by the configured ones

  /** The predicate holds of every connect, image and frame ancestor source. */
  predicate Configured(c: Config, p: string -> bool) {
    AllOf(ConnectSources(c), p) && AllOf(ImageSources(c), p) && AllOf(FrameAncestors(c), p)
  }

  predicate HoldsOfFixed(p: string -> bool) {
    p("'self'") && p("'none'") && p("'unsafe-inline'") && p("'unsafe-eval'") && p("https:")
  }

  lemma FixedHold(e: Environment, p: string -> bool)
    requires HoldsOfFixed(p)
    ensures AllOf(SELF, p) && AllOf(NOTHING, p) && AllOf(ScriptSources(e), p) && AllOf(StyleSources(e), p)
  {}

  lemma ListsHold(script: seq<string>, style: seq<string>, connect: seq<string>, image: seq<string>, frame: seq<string>,
                  p: string -> bool)
    requires AllOf(SELF, p) && AllOf(NOTHING, p) && AllOf(script, p) && AllOf(style, p)
    ensures AllHold(Lists(script, style, connect, image, frame), p) <==>
            AllOf(connect, p) && AllOf(image, p) && AllOf(frame, p)
  {
    ListsAre(script, style, connect, image, frame);
  }

  lemma ListsHoldExactlyWhen(c: Config, p: string -> bool)
    requires HoldsOfFixed(p)
    ensures AllHold(SourceLists(c), p) <==> Configured(c, p)
  {
    FixedHold(c.environment, p);
    ListsHold(ScriptSources(c.environment), StyleSources(c.environment),
              ConnectSources(c), ImageSources(c), FrameAncestors(c), p);
  }

  lemma TokensAreFixed()
    ensures HoldsOfFixed(IsToken)
  {}

  lemma AsciiIsFixed()
    ensures HoldsOfFixed(IsAscii)
  {}

  lemma HeaderTextIsFixed()
    ensures HoldsOfFixed(IsHeaderText)
  {}

  lemma WellFormedZip(names: seq<string>, lists: seq<seq<string>>)
    requires |names| == |lists|
    requires forall i :: 0 <= i < |names| ==> IsName(names[i])
    requires forall i, j :: 0 <= i < j < |names| ==> names[i] != names[j]
    ensures IsWellFormed(Zip(names, lists)) <==> AllHold(lists, IsToken)
  {
    var ds := Zip(names, lists);
    forall i | 0 <= i < |names| { NameIsToken(names[i]); }
    if IsWellFormed(ds) {
      forall i | 0 <= i < |lists| ensures AllOf(lists[i], IsToken) { assert IsWellFormedDirective(ds[i]); }
    }
  }

  lemma AsciiZip(names: seq<string>, lists: seq<seq<string>>)
    requires |names| == |lists| && forall i :: 0 <= i < |names| ==> IsName(names[i])
    ensures AreAsciiDirectives(Zip(names, lists)) <==> AllHold(lists, IsAscii)
  {
    var ds := Zip(names, lists);
    forall i | 0 <= i < |names| { NameIsToken(names[i]); }
    if AreAsciiDirectives(ds) {
      forall i | 0 <= i < |lists| ensures AllOf(lists[i], IsAscii) { assert IsAsciiDirective(ds[i]); }
    }
  }

  lemma SourcedAreWellFormed(c: Config)
    ensures IsWellFormed(Sourced(c)) <==> Configured(c, IsToken)
  {
    NamesAreNames();
    NamesAreDistinct();
    TokensAreFixed();
    ListsHoldExactlyWhen(c, IsToken);
    WellFormedZip(NAMES, SourceLists(c));
  }

  lemma SourcedAreAscii(c: Config)
    ensures AreAsciiDirectives(Sourced(c)) <==> Configured(c, IsAscii)
  {
    NamesAreNames();
    AsciiIsFixed();
    ListsHoldExactlyWhen(c, IsAscii);
    AsciiZip(NAMES, SourceLists(c));
  }

  // ----- the text of the header

  lemma ConfiguredSources(c: Config)
    ensures Sourced(c)[4] == Directive("connect-src", ConnectSources(c))
    ensures Sourced(c)[5] == Directive("img-src", ImageSources(c))
    ensures Sourced(c)[9] == Directive("frame-ancestors", FrameAncestors(c))
  {}

  lemma SameOtherLists(script: seq<string>, style: seq<string>, frame: seq<string>,
                       connect: seq<string>, image: seq<string>, connect': seq<string>, image': seq<string>, i: nat)
    requires i < 10 && i != 4 && i != 5
    ensures Lists(script, style, connect, image, frame)[i] == Lists(script, style, connect', image', frame)[i]
  {}

  lemma SameOtherSources(a: Config, b: Config, i: nat)
    requires a.environment == b.environment && FrameAncestors(a) == FrameAncestors(b)
    requires i < 10 && i != 4 && i != 5
    ensures Sourced(a)[i] == Sourced(b)[i]
  {
    SameOtherLists(ScriptSources(a.environment), StyleSources(a.environment), FrameAncestors(a),
                   ConnectSources(a), ImageSources(a), ConnectSources(b), ImageSources(b), i);
  }

  /** The part of the header that the connect and image settings decide. */
  function SourceText(c: Config): string {
    PairText(Directive("connect-src", ConnectSources(c)), Directive("img-src", ImageSources(c)))
  }

  function PairText(d: Directive, e: Directive): string {
    Serialize(d) + "; " + Serialize(e)
  }

  function TextBefore(ds: seq<Directive>): string
    requires |ds| == 10
  {
    Join(SerializeAll(ds[..4]), "; ") + "; "
  }

  function TextAfter(ds: seq<Directive>): (t: string)
    requires |ds| == 10
    ensures t != "" && t[0] == ';'
  {
    "; " + Join(SerializeAll(ds[6..]), "; ")
  }

  lemma {:induction false} SerializeAllAt(ds: seq<Directive>, i: nat)
    requires i < |ds|
    ensures SerializeAll(ds)[i] == Serialize(ds[i])
  {
    if i > 0 { SerializeAllAt(ds[1..], i - 1); }
  }

  lemma ThreeParts(a: seq<Directive>, b: seq<Directive>, c: seq<Directive>)
    requires a != [] && b != [] && c != []
    ensures Join(SerializeAll(a + b + c), "; ") ==
            (Join(SerializeAll(a), "; ") + "; ") + Join(SerializeAll(b), "; ") + ("; " + Join(SerializeAll(c), "; "))
  {
    SerializeAllJoins(a + b, c);
    SerializeAllJoins(a, b);
    JoinAppends(SerializeAll(a) + SerializeAll(b), SerializeAll(c), "; ");
    JoinAppends(SerializeAll(a), SerializeAll(b), "; ");
    Reassociate(Join(SerializeAll(a), "; ") + "; " + Join(SerializeAll(b), "; "), "; ", Join(SerializeAll(c), "; "));
  }

  lemma SplitInThree(ds: seq<Directive>)
    requires |ds| == 10
    ensures ds == ds[..4] + [ds[4], ds[5]] + ds[6..]
  {}

  lemma JoinOfTwo(a: string, b: string, separator: string)
    ensures Join([a, b], separator) == a + separator + b
  {
    assert [a, b][1..] == [b];
  }

  lemma TextOfTen(ds: seq<Directive>)
    requires |ds| == 10
    ensures Join(SerializeAll(ds), "; ") == TextBefore(ds) + PairText(ds[4], ds[5]) + TextAfter(ds)
  {
    SplitInThree(ds);
    ThreeParts(ds[..4], [ds[4], ds[5]], ds[6..]);
    JoinOfTwo(Serialize(ds[4]), Serialize(ds[5]), "; ");
    SerializeAllAt([ds[4], ds[5]], 0);
    SerializeAllAt([ds[4], ds[5]], 1);
    assert SerializeAll([ds[4], ds[5]]) == [Serialize(ds[4]), Serialize(ds[5])];
  }

  lemma PolicyText(c: Config)
    ensures CspValue(c) == TextBefore(Sourced(c)) + SourceText(c) + TextAfter(Sourced(c))
  {
    SourcedAreEmitted(c);
    TextOfTen(Sourced(c));
    ConfiguredSources(c);
  }

  lemma SameTextAround(ds: seq<Directive>, es: seq<Directive>)
    requires |ds| == |es| == 10
    requires forall i :: 0 <= i < 10 && i != 4 && i != 5 ==> ds[i] == es[i]
    ensures TextBefore(ds) == TextBefore(es) && TextAfter(ds) == TextAfter(es)
  {
    assert ds[..4] == es[..4] && ds[6..] == es[6..];
  }

  lemma SamePolicyAround(a: Config, b: Config)
    requires a.environment == b.environment && a.frameAncestors == b.frameAncestors
    ensures TextBefore(Sourced(a)) == TextBefore(Sourced(b)) && TextAfter(Sourced(a)) == TextAfter(Sourced(b))
  {
    forall i | 0 <= i < 10 && i != 4 && i != 5 ensures Sourced(a)[i] == Sourced(b)[i] {
      SameOtherSources(a, b, i);
    }
    SameTextAround(Sourced(a), Sourced(b));
  }

  lemma MiddleCancels(before: string, a: string, b: string, after: string)
    ensures before + a + after == before + b + after <==> a == b
  {
    if before + a + after == before + b + after {
      assert |a| == |b|;
      assert (before + a + after)[|before|..|before| + |a|] == a;
      assert (before + b + after)[|before|..|before| + |b|] == b;
    }
  }

  lemma StripAfter(c: Config)
    ensures StripEnd(CspValue(c)) == TextBefore(Sourced(c)) + SourceText(c) + StripEnd(TextAfter(Sourced(c)))
  {
    var before, after := TextBefore(Sourced(c)) + SourceText(c), TextAfter(Sourced(c));
    PolicyText(c);
    FirstIsKept(after);
    StripEndOfSum(before, after);
  }

  /** With the same environment and frame ancestors, the header texts agree exactly when the parts
      decided by the connect and image settings do. */
  lemma PoliciesAgreeExactlyWhen(a: Config, b: Config)
    requires a.environment == b.environment && a.frameAncestors == b.frameAncestors
    ensures CspValue(a) == CspValue(b) <==> SourceText(a) == SourceText(b)
    ensures StripEnd(CspValue(a)) == StripEnd(CspValue(b)) <==> SourceText(a) == SourceText(b)
  {
    var before, after := TextBefore(Sourced(a)), TextAfter(Sourced(a));
    PolicyText(a);
    PolicyText(b);
    StripAfter(a);
    StripAfter(b);
    SamePolicyAround(a, b);
    MiddleCancels(before, SourceText(a), SourceText(b), after);
    MiddleCancels(before, SourceText(a), SourceText(b), StripEnd(after));
  }

  lemma {:induction false} JoinedHasNone(words: seq<string>)
    requires AllOf(words, IsToken)
    ensures HasNoSemicolon(Join(words, " ")) && Words(Join(words, " ")) == words
  {
    JoinHasNoSemicolon(words);
    WordsOfJoined(words);
  }

  lemma TokenListsAgree(a: seq<string>, b: seq<string>)
    requires AllOf(a, IsToken) && AllOf(b, IsToken)
    ensures Join(a, " ") == Join(b, " ") <==> a == b
  {
    JoinedHasNone(a);
    JoinedHasNone(b);
  }

  /** For sources that are tokens, the text agrees exactly when the lists do. */
  lemma SourceTextsAgreeExactlyWhen(a: Config, b: Config)
    requires AllOf(ConnectSources(a), IsToken) && AllOf(ImageSources(a), IsToken)
    requires AllOf(ConnectSources(b), IsToken) && AllOf(ImageSources(b), IsToken)
    ensures SourceText(a) == SourceText(b) <==>
            ConnectSources(a) == ConnectSources(b) && ImageSources(a) == ImageSources(b)
  {
    ConnectNameHasNoSemicolon();
    PairTextsAgree("connect-src", ConnectSources(a), ConnectSources(b), "img-src", ImageSources(a), ImageSources(b));
  }

  lemma ConnectNameHasNoSemicolon()
    ensures HasNoSemicolon("connect-src")
  {}

  lemma PairTextsAgree(p: string, ca: seq<string>, cb: seq<string>, q: string, ia: seq<string>, ib: seq<string>)
    requires HasNoSemicolon(p)
    requires AllOf(ca, IsToken) && AllOf(cb, IsToken) && AllOf(ia, IsToken) && AllOf(ib, IsToken)
    ensures PairText(Directive(p, ca), Directive(q, ia)) == PairText(Directive(p, cb), Directive(q, ib))
            <==> ca == cb && ia == ib
  {
    TokenListsAgree(ca, cb);
    TokenListsAgree(ia, ib);
    JoinedHasNone(ca);
    JoinedHasNone(cb);
    PairsAgreeExactlyWhen(p, Join(ca, " "), Join(cb, " "), q, Join(ia, " "), Join(ib, " "));
  }

  lemma PairsAgreeExactlyWhen(p: string, x: string, y: string, q: string, u: string, v: string)
    requires HasNoSemicolon(p) && HasNoSemicolon(x) && HasNoSemicolon(y)
    ensures (p + " " + x) + "; " + (q + " " + u) == (p + " " + y) + "; " + (q + " " + v) <==> x == y && u == v
  {
    AroundSemicolon(p + " " + x, q + " " + u);
    AroundSemicolon(p + " " + y, q + " " + v);
    if (p + " " + x) + "; " + (q + " " + u) == (p + " " + y) + "; " + (q + " " + v) {
      TwoPartsAgree(p + " " + x, p + " " + y, " " + (q + " " + u), " " + (q + " " + v));
      FrontCancels(p + " ", x, y);
      FrontCancels(" ", q + " " + u, q + " " + v);
      FrontCancels(q + " ", u, v);
    }
  }

  lemma AroundSemicolon(a: string, b: string)
    ensures a + "; " + b == a + ";" + (" " + b)
  {}

  lemma TwoPartsAgree(a: string, b: string, x: string, y: string)
    requires HasNoSemicolon(a) && HasNoSemicolon(b) && a + ";" + x == b + ";" + y
    ensures a == b && x == y
  {
    var t := a + ";" + x;
    assert t[|a|] == ';' && t[|b|] == ';';
    assert forall i :: 0 <= i < |a| ==> t[i] == a[i];
    assert forall i :: 0 <= i < |b| ==> (b + ";" + y)[i] == b[i];
    assert |a| == |b|;
    assert t[..|a|] == a && (b + ";" + y)[..|b|] == b;
    assert t[|a| + 1..] == x && (b + ";" + y)[|b| + 1..] == y;
  }

  // ----- what is stored and what is read back

  lemma {:induction false} TrimStops(s: string)
    ensures IsTrimmedAtEnd(Trim(s))
    decreases |s|
  {
    if s != "" && IsJsSpace(s[0]) {
      TrimStops(s[1..]);
    } else if s != "" && IsJsSpace(s[|s| - 1]) {
      TrimStops(s[..|s| - 1]);
    }
  }

  lemma {:induction false} TrimAllStop(parts: seq<string>)
    ensures AllOf(TrimAll(parts), IsTrimmedAtEnd)
  {
    if parts != [] {
      TrimStops(parts[0]);
      TrimAllStop(parts[1..]);
    }
  }

  lemma FrameAncestorsAreTrimmed(c: Config)
    ensures AllOf(FrameAncestors(c), IsTrimmedAtEnd)
  {
    TrimAllStop(Split(c.frameAncestors, ','));
  }

  lemma DirectiveEndsInBlanks(d: Directive)
    requires IsName(d.name) && d.sources != [] && AllOf(d.sources, IsTrimmedAtEnd)
    ensures Serialize(d) != "" && !IsHttpSpace(Serialize(d)[0]) && OnlyBlanksAtEnd(Serialize(d))
  {
    var words := [d.name] + d.sources;
    TrimmedPartsEndInBlanks(words);
    JoinCons(d.name, d.sources, " ");
  }

  lemma LastOfTen(ds: seq<Directive>)
    requires |ds| == 10
    ensures Join(SerializeAll(ds), "; ") == (Join(SerializeAll(ds[..9]), "; ") + "; ") + Serialize(ds[9])
  {
    assert ds == ds[..9] + [ds[9]];
    SerializeAllJoins(ds[..9], [ds[9]]);
    assert SerializeAll([ds[9]]) == [Serialize(ds[9])];
    JoinAppends(SerializeAll(ds[..9]), SerializeAll([ds[9]]), "; ");
  }

  lemma JoinStarts(parts: seq<string>, separator: string)
    requires parts != [] && parts[0] != ""
    ensures Join(parts, separator) != "" && Join(parts, separator)[0] == parts[0][0]
  {}

  lemma PolicyEnds(c: Config)
    ensures CspValue(c) != "" && !IsHttpSpace(CspValue(c)[0]) && OnlyBlanksAtEnd(CspValue(c))
  {
    var ds := Sourced(c);
    SourcedAreEmitted(c);
    ConfiguredAreNotEmpty(c);
    ConfiguredSources(c);
    FrameAncestorsAreTrimmed(c);
    LastNames();
    LastOfTen(ds);
    DirectiveEndsInBlanks(ds[9]);
    FirstIsKept(Serialize(ds[9]));
    BlanksInSum(Join(SerializeAll(ds[..9]), "; ") + "; ", Serialize(ds[9]));
    SerializeAllAt(ds, 0);
    JoinStarts(SerializeAll(ds), "; ");
  }

  lemma SerializedIsHeaderText(d: Directive)
    requires IsName(d.name)
    ensures IsHeaderText(Serialize(d)) <==> AllOf(d.sources, IsHeaderText)
  {
    NameIsToken(d.name);
    HeaderTextParts(d.name + " ", Join(d.sources, " "));
    HeaderTextParts(d.name, " ");
    HeaderTextJoined(d.sources, " ");
  }

  lemma ZippedIsHeaderText(names: seq<string>, lists: seq<seq<string>>)
    requires |names| == |lists| && forall i :: 0 <= i < |names| ==> IsName(names[i])
    ensures IsHeaderText(Join(SerializeAll(Zip(names, lists)), "; ")) <==> AllHold(lists, IsHeaderText)
  {
    var ds := Zip(names, lists);
    HeaderTextJoined(SerializeAll(ds), "; ");
    forall i | 0 <= i < |ds| ensures IsHeaderText(SerializeAll(ds)[i]) <==> AllOf(lists[i], IsHeaderText) {
      SerializeAllAt(ds, i);
      SerializedIsHeaderText(ds[i]);
    }
  }

  lemma PolicyIsHeaderText(c: Config)
    ensures IsHeaderText(CspValue(c)) <==> Configured(c, IsHeaderText)
  {
    SourcedAreEmitted(c);
    NamesAreNames();
    HeaderTextIsFixed();
    ListsHoldExactlyWhen(c, IsHeaderText);
    ZippedIsHeaderText(NAMES, SourceLists(c));
  }

  /** The policy can be set as a header exactly when every configured source consists of bytes without
      NUL and line breaks; only blanks are stripped from it, after empty frame ancestors. */
  lemma PolicyIsStoredExactlyWhen(c: Config)
    ensures HeaderValue(CspValue(c)) == if Configured(c, IsHeaderText) then Some(StripEnd(CspValue(c))) else None
    ensures OnlyBlanksAtEnd(CspValue(c))
  {
    PolicyEnds(c);
    PolicyIsHeaderText(c);
    StoredExactlyWhen(CspValue(c));
  }

  lemma {:induction false} JoinEnds(words: seq<string>)
    requires words != [] && AllOf(words, IsToken)
    ensures var t := Join(words, " ");
            t != "" && !IsWhitespace(t[|t| - 1])
  {
    if |words| > 1 { JoinEnds(words[1..]); }
  }

  lemma NothingIsStripped(a: string, b: string)
    requires b != "" && !IsHttpSpace(b[|b| - 1])
    ensures StripEnd(a + b) == a + b
  {
    StripEndOfSum(a, b);
  }

  lemma SerializedEnds(d: Directive)
    requires d.sources != [] && AllOf(d.sources, IsToken)
    ensures Serialize(d) != "" && !IsHttpSpace(Serialize(d)[|Serialize(d)| - 1])
  {
    JoinEnds(d.sources);
  }

  lemma TokensAreNotStripped(c: Config)
    requires AllOf(FrameAncestors(c), IsToken)
    ensures StripEnd(CspValue(c)) == CspValue(c)
  {
    var ds := Sourced(c);
    SourcedAreEmitted(c);
    ConfiguredAreNotEmpty(c);
    ConfiguredSources(c);
    LastOfTen(ds);
    SerializedEnds(ds[9]);
    NothingIsStripped(Join(SerializeAll(ds[..9]), "; ") + "; ", Serialize(ds[9]));
  }

  /** A browser reads all ten directives back from the header, in order and with their sources, exactly
      when every configured source is a token of ASCII without NUL; upgrade-insecure-requests, which
      has no sources, is never sent. */
  lemma PolicyParsesBackExactlyWhen(c: Config)
    ensures HeaderValue(CspValue(c)).Some? && ParseCsp(HeaderValue(CspValue(c)).value) == Sourced(c) <==>
            Configured(c, IsToken) && Configured(c, IsAscii) && Configured(c, IsHeaderText)
  {
    PolicyIsStoredExactlyWhen(c);
    SourcedAreEmitted(c);
    SourcedAreWellFormed(c);
    SourcedAreAscii(c);
    ParsedIsGood(StripEnd(CspValue(c)));
    if Configured(c, IsToken) {
      TokensAreNotStripped(c);
      ParsesBackExactlyWhen(Directives(c));
    }
  }

  /** Of a policy of tokens, a browser keeps exactly the directives that are ASCII throughout. */
  lemma BrowserKeepsAscii(c: Config)
    requires Configured(c, IsToken) && Configured(c, IsHeaderText)
    ensures HeaderValue(CspValue(c)).Some?
    ensures ParseCsp(HeaderValue(CspValue(c)).value) == AsciiOnly(Sourced(c))
    ensures Directive("connect-src", ConnectSources(c)) in ParseCsp(HeaderValue(CspValue(c)).value) <==>
            AreAscii(ConnectSources(c))
  {
    PolicyIsStoredExactlyWhen(c);
    TokensAreNotStripped(c);
    SourcedAreEmitted(c);
    SourcedAreWellFormed(c);
    ParserKeepsAscii(Directives(c));
    AsciiOnlyExactlyWhen(Sourced(c));
    ConfiguredSources(c);
    MiddleNames();
    NameIsToken("connect-src");
    assert Sourced(c)[4] in Sourced(c);
  }
}
