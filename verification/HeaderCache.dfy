/** The cache in front of the security headers, whole runs of requests, and the merge into a response. */
module HeaderCache {
  import opened Options
  import opened Strings
  import opened Csp
  import opened HttpHeaders
  import opened SecurityPolicy
  import opened SecurityHeaders
  import opened FirstWriteCache
  import opened CachedRuns

  // ----- the cache key

  function Key(c: Config): string {
    EnvironmentText(c.environment) + "-" + c.frameAncestors + "-" + CoepText(c.coep)
  }

  /** The key determines the three settings it is made of, although all parts may contain dashes. */
  lemma KeyIsInjective(a: Config, b: Config)
    requires Key(a) == Key(b)
    ensures a.environment == b.environment && a.frameAncestors == b.frameAncestors && a.coep == b.coep
  {
    KeyParts(EnvironmentText(a.environment), a.frameAncestors, CoepText(a.coep));
    KeyParts(EnvironmentText(b.environment), b.frameAncestors, CoepText(b.coep));
    EndsTellApart(a, b);
  }

  lemma KeyParts(e: string, f: string, c: string)
    requires e != "" && c != ""
    ensures var k := e + "-" + f + "-" + c;
            && |k| == |e| + |f| + |c| + 2
            && k[0] == e[0] && k[|k| - 1] == c[|c| - 1]
            && k[|e| + 1..|k| - |c| - 1] == f
  {}

  lemma EndsTellApart(a: Config, b: Config)
    requires EnvironmentText(a.environment)[0] == EnvironmentText(b.environment)[0]
    requires CoepText(a.coep)[|CoepText(a.coep)| - 1] == CoepText(b.coep)[|CoepText(b.coep)| - 1]
    ensures a.environment == b.environment && a.coep == b.coep
  {}

  /** What is built for two configurations of one key agrees exactly when the text decided by the connect
      and image settings does, or neither can be built. */
  lemma BuiltAlikeExactlyWhen(a: Config, b: Config)
    requires Key(a) == Key(b)
    ensures BuildSecurityHeaders(a) == BuildSecurityHeaders(b) <==>
            SourceText(a) == SourceText(b) || (!Configured(a, IsHeaderText) && !Configured(b, IsHeaderText))
  {
    KeyIsInjective(a, b);
    PoliciesAgreeExactlyWhen(a, b);
    BuildsExactlyWhen(a);
    BuildsExactlyWhen(b);
  }

  // ----- the server

  class Server {
    var cachedConfig: Option<Config>
    var securityHeadersCache: map<string, Headers>
    ghost var requests: seq<Config>

    constructor ()
      ensures Valid() && Current() == State(None, [])
    {
      cachedConfig, securityHeadersCache, requests := None, map[], [];
    }

    ghost predicate Valid()
      reads this
    {
      securityHeadersCache == CacheAfter(Key, BuildSecurityHeaders, requests)
    }

    ghost function Current(): State<Config>
      reads this
    {
      State(cachedConfig, requests)
    }

    method LoadFrontendConfig(parsed: Option<Config>) returns (config: Option<Config>)
      modifies this`cachedConfig
      ensures config == cachedConfig == if old(cachedConfig).Some? then old(cachedConfig) else parsed
    {
      if cachedConfig.Some? { return cachedConfig; }
      cachedConfig := parsed;
      return parsed;
    }

    method ResetFrontendConfigCache()
      requires Valid()
      modifies this`cachedConfig
      ensures Valid() && Current() == Step(old(Current()), Reset)
    {
      cachedConfig := None;
    }

    method GetSecurityHeaders(parsed: Option<Config>) returns (headers: Option<Headers>)
      requires Valid()
      modifies this
      ensures Valid() && Current() == Step(old(Current()), Request(parsed))
      ensures headers == Answer(Key, BuildSecurityHeaders, old(Current()), Request(parsed))
    {
      var loaded := LoadFrontendConfig(parsed);
      if loaded.None? { return None; }
      var config := loaded.value;
      var envKey := Key(config);
      ServeFromCache(Key, BuildSecurityHeaders, requests, config);
      requests := requests + [config];
      if envKey !in securityHeadersCache {
        var built := BuildSecurityHeaders(config);
        if built.None? { return None; }
        securityHeadersCache := securityHeadersCache[envKey := built.value];
      }
      return Some(securityHeadersCache[envKey]);
    }
  }

  // ----- whole runs

  /** What the server answers to a run of requests and resets. */
  function ServerAnswers(events: seq<Event<Config>>): (answers: seq<Option<Headers>>)
    ensures |answers| == |events|
  {
    Answers(Key, BuildSecurityHeaders, events)
  }

  predicate HasSettings(c: Config, connectSrc: string, imgSrc: string) {
    c.connectSrc == connectSrc && c.imgSrc == imgSrc
  }

  lemma SettingsAndKeyDecide(connectSrc: string, imgSrc: string)
    ensures forall c, d :: HasSettings(c, connectSrc, imgSrc) && HasSettings(d, connectSrc, imgSrc) && Key(c) == Key(d) ==> c == d
  {
    forall c, d | HasSettings(c, connectSrc, imgSrc) && HasSettings(d, connectSrc, imgSrc) && Key(c) == Key(d) ensures c == d {
      KeyIsInjective(c, d);
    }
  }

  /** On every run of requests and resets in which the connect and image settings stay fixed, every
      request is answered with what the builder makes of the configuration that is current, whatever
      else changes, and with an error exactly when there is none or it cannot be built. */
  lemma FixedSettingsServeCurrent(events: seq<Event<Config>>, connectSrc: string, imgSrc: string, i: nat)
    requires AllParsed(events, (c: Config) => HasSettings(c, connectSrc, imgSrc))
    requires i < |events| && events[i].Request?
    ensures ServerAnswers(events)[i] ==
            match CurrentAt(events, i) case None => None case Some(c) => BuildSecurityHeaders(c)
  {
    SettingsAndKeyDecide(connectSrc, imgSrc);
    KeyedRunServesCurrent(Key, BuildSecurityHeaders, events, (c: Config) => HasSettings(c, connectSrc, imgSrc), i);
  }

  /** On any run: a request is answered with the current headers exactly when nothing was built for its
      key before, or the connect and image settings give the text they gave then. */
  lemma ServesCurrentExactlyWhen(events: seq<Event<Config>>, i: nat, c: Config)
    requires i < |events| && events[i].Request? && CurrentAt(events, i) == Some(c)
    ensures var first := FirstBuilt(Key, BuildSecurityHeaders, Run(events[..i]).requests, Key(c));
            ServerAnswers(events)[i] == BuildSecurityHeaders(c) <==>
            first.None? || SourceText(first.value) == SourceText(c)
  {
    AnswerIs(Key, BuildSecurityHeaders, events, i);
    var first := FirstBuilt(Key, BuildSecurityHeaders, Run(events[..i]).requests, Key(c));
    if first.Some? { BuiltAlikeExactlyWhenFirstBuilds(first.value, c); }
  }

  lemma BuiltAlikeExactlyWhenFirstBuilds(a: Config, b: Config)
    requires Key(a) == Key(b) && BuildSecurityHeaders(a).Some?
    ensures BuildSecurityHeaders(a) == BuildSecurityHeaders(b) <==> SourceText(a) == SourceText(b)
  {
    BuiltAlikeExactlyWhen(a, b);
    BuildsExactlyWhen(a);
  }

  /** A run that goes stale: a request, a reset, and a request under the same key whose connect and image
      settings give another text. */
  lemma StaleAfterReset(a: Config, b: Config)
    requires Key(a) == Key(b) && BuildSecurityHeaders(a).Some? && SourceText(a) != SourceText(b)
    ensures var events := [Request(Some(a)), Reset, Request(Some(b))];
            && CurrentAt(events, 2) == Some(b)
            && ServerAnswers(events)[2] == BuildSecurityHeaders(a)
            && ServerAnswers(events)[2] != BuildSecurityHeaders(b)
  {
    RequestResetRequest(Key, BuildSecurityHeaders, a, b);
    BuiltAlikeExactlyWhenFirstBuilds(a, b);
  }

  lemma SettingOfOne(x: string)
    requires x != "" && !IsJsSpace(x[0]) && !IsJsSpace(x[|x| - 1]) && forall i :: 0 <= i < |x| ==> x[i] != ','
    ensures CustomSources(x) == [x]
  {
    SplitWithoutSeparator(x, ',');
    assert [x][1..] == [];
    assert TrimAll([x]) == [Trim(x)] + [];
  }

  /** A configuration for production with nothing but a connect setting. */
  function Minimal(connectSrc: string): Config {
    Config(Production, "none", connectSrc, "", RequireCorp)
  }

  lemma MinimalSources()
    ensures ConnectSources(Minimal("")) == ["'self'"]
    ensures ImageSources(Minimal("")) == ["'self'", "data:"]
  {
    SelfIsKept();
    UnquotedIsKept("data:");
    DedupeOne("'self'");
    DedupeTwo("'self'", "data:");
    assert ["'self'"] + [] == ["'self'"];
    assert ["'self'", "data:"] + [] == ["'self'", "data:"];
  }

  lemma AddedSource()
    ensures ConnectSources(Minimal("a:")) == ["'self'", "a:"]
    ensures ImageSources(Minimal("a:")) == ImageSources(Minimal(""))
  {
    SelfIsKept();
    UnquotedIsKept("a:");
    DedupeTwo("'self'", "a:");
    SettingOfOne("a:");
    assert ["'self'"] + ["a:"] == ["'self'", "a:"];
  }

  lemma TextsDiffer(a: Config, b: Config)
    requires AllOf(ConnectSources(a), IsToken) && AllOf(ConnectSources(b), IsToken) && ConnectSources(a) != ConnectSources(b)
    requires AllOf(ImageSources(a), IsToken) && AllOf(ImageSources(b), IsToken)
    ensures SourceText(a) != SourceText(b)
  {
    SourceTextsAgreeExactlyWhen(a, b);
  }

  lemma ExampleSources()
    ensures AllOf(["'self'"], IsToken) && AllOf(["'self'", "a:"], IsToken) && AllOf(["'self'", "data:"], IsToken)
    ensures AllOf(["'self'"], IsHeaderText) && AllOf(["'none'"], IsHeaderText) && AllOf(["'self'", "data:"], IsHeaderText)
  {}

  lemma MinimalBuilds()
    ensures BuildSecurityHeaders(Minimal("")).Some?
  {
    MinimalSources();
    ExampleSources();
    BuildsExactlyWhen(Minimal(""));
    assert FrameAncestors(Minimal("")) == ["'none'"];
  }

  lemma AddedSourceShows()
    ensures SourceText(Minimal("")) != SourceText(Minimal("a:"))
  {
    MinimalSources();
    AddedSource();
    ExampleSources();
    TextsDiffer(Minimal(""), Minimal("a:"));
  }

  /** For example when a connect source is added in production. */
  lemma AddedSourceIsNotServed()
    ensures var events := [Request(Some(Minimal(""))), Reset, Request(Some(Minimal("a:")))];
            && CurrentAt(events, 2) == Some(Minimal("a:"))
            && ServerAnswers(events)[2] != BuildSecurityHeaders(Minimal("a:"))
  {
    AddedSourceShows();
    MinimalBuilds();
    StaleAfterReset(Minimal(""), Minimal("a:"));
  }

  // ----- the merge into a response

  class Response {
    var headers: Headers

    constructor (headers: Headers)
      ensures this.headers == headers
    {
      this.headers := headers;
    }

    method SetIfMissing(name: string, value: string)
      requires HeaderValue(value) == Some(value)
      modifies this
      ensures headers == if name in old(headers) then old(headers) else old(headers)[name := value]
    {
      if name !in headers { headers := headers[name := HeaderValue(value).value]; }
    }
  }

  /** Headers the response already has win; every other security header is added; none is lost.  Built
      headers are normal, so that setting them again cannot fail. */
  method MergeHeaders(response: Response, securityHeaders: Headers)
    requires AreNormal(securityHeaders)
    modifies response
    ensures response.headers == securityHeaders + old(response.headers)
  {
    var todo := securityHeaders.Keys;
    while todo != {}
      invariant todo <= securityHeaders.Keys
      invariant response.headers == (securityHeaders - todo) + old(response.headers)
      decreases todo
    {
      var name :| name in todo;
      response.SetIfMissing(name, securityHeaders[name]);
      todo := todo - {name};
    }
  }
}
