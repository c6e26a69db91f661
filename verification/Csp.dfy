/** The Content-Security-Policy header: how sources are normalised and collected, how a policy is
    serialised, and what a browser reads back (section 2.2.1 of Content Security Policy Level 3). */
module Csp {
  import opened Sequences
  import opened OrderedSets
  import opened Strings

  /** One entry of the directive record; a record has no two entries of one name. */
  datatype Directive = Directive(name: string, sources: seq<string>)

  // ----- serialising

  function Serialize(d: Directive): string {
    d.name + " " + Join(d.sources, " ")
  }

  /** The directives with at least one source. */
  function Emitted(ds: seq<Directive>): seq<Directive> {
    if ds == [] then []
    else (if |ds[0].sources| > 0 then [ds[0]] else []) + Emitted(ds[1..])
  }

  function SerializeAll(ds: seq<Directive>): (r: seq<string>)
    ensures |r| == |ds|
  {
    if ds == [] then [] else [Serialize(ds[0])] + SerializeAll(ds[1..])
  }

  function BuildCspHeaderValue(ds: seq<Directive>): string {
    Join(SerializeAll(Emitted(ds)), "; ")
  }

  lemma {:induction false} EmittedGrows(ds: seq<Directive>, d: Directive)
    ensures Emitted(ds + [d]) == Emitted(ds) + if d.sources == [] then [] else [d]
  {
    if ds == [] {
      assert ds + [d] == [d] && [d][1..] == [];
    } else {
      EmittedGrows(ds[1..], d);
      assert (ds + [d])[1..] == ds[1..] + [d];
      Reassociate(if |ds[0].sources| > 0 then [ds[0]] else [], Emitted(ds[1..]), if d.sources == [] then [] else [d]);
    }
  }

  lemma {:induction false} SerializeAllJoins(a: seq<Directive>, b: seq<Directive>)
    ensures SerializeAll(a + b) == SerializeAll(a) + SerializeAll(b)
  {
    if a == [] {
      assert a + b == b && SerializeAll(a) + SerializeAll(b) == SerializeAll(b);
    } else {
      SerializeAllJoins(a[1..], b);
      assert (a + b)[1..] == a[1..] + b;
      Reassociate([Serialize(a[0])], SerializeAll(a[1..]), SerializeAll(b));
    }
  }

  /** The header, directive by directive: its name, a space, its sources with spaces between them, and a
      semicolon and a space before all but the first. */
  lemma HeaderGrows(ds: seq<Directive>, d: Directive)
    ensures BuildCspHeaderValue([]) == ""
    ensures BuildCspHeaderValue(ds + [d]) ==
            if d.sources == [] then BuildCspHeaderValue(ds)
            else (if forall i :: 0 <= i < |ds| ==> ds[i].sources == [] then "" else BuildCspHeaderValue(ds) + "; ")
                 + (d.name + " " + Join(d.sources, " "))
  {
    EmittedGrows(ds, d);
    NothingEmittedExactlyWhen(ds);
    if d.sources == [] {
      assert Emitted(ds) + [] == Emitted(ds);
    } else {
      SerializeAllJoins(Emitted(ds), [d]);
      assert SerializeAll([d]) == [Serialize(d)];
      if Emitted(ds) == [] {
        assert Emitted(ds) + [d] == [d] && "" + Serialize(d) == Serialize(d);
      } else {
        JoinAppends(SerializeAll(Emitted(ds)), [Serialize(d)], "; ");
      }
    }
  }

  lemma {:induction false} NothingEmittedExactlyWhen(ds: seq<Directive>)
    ensures Emitted(ds) == [] <==> forall i :: 0 <= i < |ds| ==> ds[i].sources == []
  {
    if ds != [] {
      NothingEmittedExactlyWhen(ds[1..]);
      assert forall i :: 0 <= i < |ds| - 1 ==> ds[1..][i] == ds[i + 1];
    }
  }

  // ----- parsing

  predicate IsWhitespace(c: char) {
    c == ' ' || c == '\t' || c == '\n' || c == '\r' || c == 0x0C as char
  }

  function WordLength(s: string): (n: nat)
    ensures n <= |s|
    ensures forall i :: 0 <= i < n ==> !IsWhitespace(s[i])
    ensures n < |s| ==> IsWhitespace(s[n])
  {
    if s == "" || IsWhitespace(s[0]) then 0 else 1 + WordLength(s[1..])
  }

  /** Splits on ASCII white space; no part is empty. */
  function Words(s: string): seq<string>
    decreases |s|
  {
    if s == "" then []
    else if IsWhitespace(s[0]) then Words(s[1..])
    else [s[..WordLength(s)]] + Words(s[WordLength(s)..])
  }

  function LowerChar(c: char): char {
    if 'A' <= c <= 'Z' then c - 'A' + 'a' else c
  }

  function Lower(s: string): (r: string)
    ensures |r| == |s| && forall i :: 0 <= i < |s| ==> r[i] == LowerChar(s[i])
  {
    if s == "" then "" else [LowerChar(s[0])] + Lower(s[1..])
  }

  predicate IsAscii(s: string) {
    forall i :: 0 <= i < |s| ==> s[i] < 0x80 as char
  }

  /** Reads one token after another; empty ones, ones that are not ASCII, and repeated directives are
      ignored. */
  function ReadDirectives(tokens: seq<string>, seen: set<string>): seq<Directive> {
    if tokens == [] then []
    else
      var words := Words(tokens[0]);
      if words == [] || !IsAscii(tokens[0]) || Lower(words[0]) in seen then ReadDirectives(tokens[1..], seen)
      else
        var name := Lower(words[0]);
        [Directive(name, words[1..])] + ReadDirectives(tokens[1..], seen + {name})
  }

  function ParseCsp(header: string): seq<Directive> {
    ReadDirectives(Split(header, ';'), {})
  }

  // ----- well-formed policies

  /** Not empty, and free of white space and semicolons. */
  predicate IsToken(s: string) {
    s != "" && forall i :: 0 <= i < |s| ==> !IsWhitespace(s[i]) && s[i] != ';'
  }

  predicate AreTokens(ss: seq<string>) {
    forall i :: 0 <= i < |ss| ==> IsToken(ss[i])
  }

  predicate IsLower(s: string) {
    forall i :: 0 <= i < |s| ==> !('A' <= s[i] <= 'Z')
  }

  predicate IsWellFormedDirective(d: Directive) {
    IsToken(d.name) && IsLower(d.name) && AreTokens(d.sources)
  }

  /** Well-formed directives of different names. */
  predicate IsWellFormed(ds: seq<Directive>) {
    && (forall i :: 0 <= i < |ds| ==> IsWellFormedDirective(ds[i]))
    && (forall i, j :: 0 <= i < j < |ds| ==> ds[i].name != ds[j].name)
  }

  predicate NoneSeen(ds: seq<Directive>, seen: set<string>) {
    forall i :: 0 <= i < |ds| ==> ds[i].name !in seen
  }

  predicate AreAscii(ss: seq<string>) {
    forall i :: 0 <= i < |ss| ==> IsAscii(ss[i])
  }

  predicate IsAsciiDirective(d: Directive) {
    IsAscii(d.name) && AreAscii(d.sources)
  }

  predicate AreAsciiDirectives(ds: seq<Directive>) {
    forall i :: 0 <= i < |ds| ==> IsAsciiDirective(ds[i])
  }

  /** The directives that are ASCII throughout. */
  function AsciiOnly(ds: seq<Directive>): seq<Directive> {
    if ds == [] then []
    else (if IsAsciiDirective(ds[0]) then [ds[0]] else []) + AsciiOnly(ds[1..])
  }

  lemma {:induction false} AsciiOnlyExactlyWhen(ds: seq<Directive>)
    ensures AsciiOnly(ds) == ds <==> AreAsciiDirectives(ds)
    ensures |AsciiOnly(ds)| <= |ds|
    ensures AreAsciiDirectives(AsciiOnly(ds))
    ensures forall d :: d in AsciiOnly(ds) <==> d in ds && IsAsciiDirective(d)
  {
    if ds != [] {
      AsciiOnlyExactlyWhen(ds[1..]);
      assert ds == [ds[0]] + ds[1..];
      if IsAsciiDirective(ds[0]) { ConsEquality(ds[0], AsciiOnly(ds[1..]), ds[0], ds[1..]); }
    }
  }

  // ----- the parser undoes the serialiser

  lemma WordAtFront(word: string, rest: string)
    requires IsToken(word) && (rest == "" || IsWhitespace(rest[0]))
    ensures Words(word + rest) == [word] + Words(rest)
  {
    var t := word + rest;
    assert forall i :: 0 <= i < |word| ==> t[i] == word[i];
    assert rest != "" ==> t[|word|] == rest[0];
    assert WordLength(t) == |word|;
    assert t[..|word|] == word && t[|word|..] == rest;
    assert !IsWhitespace(t[0]);
  }

  lemma LeadingSpace(s: string)
    ensures Words(" " + s) == Words(s)
  {
    assert (" " + s)[1..] == s;
  }

  lemma {:induction false} WordsOfJoined(words: seq<string>)
    requires AreTokens(words)
    ensures Words(Join(words, " ")) == words
  {
    if |words| == 1 {
      WordAtFront(words[0], "");
      assert words[0] + "" == words[0];
    } else if |words| > 1 {
      var rest := Join(words[1..], " ");
      WordsOfJoined(words[1..]);
      WordAtFront(words[0], " " + rest);
      LeadingSpace(rest);
      Reassociate(words[0], " ", rest);
      assert [words[0]] + words[1..] == words;
    }
  }

  lemma WordsOfDirective(d: Directive)
    requires IsWellFormedDirective(d) && d.sources != []
    ensures Words(Serialize(d)) == [d.name] + d.sources
  {
    var words := [d.name] + d.sources;
    WordsOfJoined(words);
    assert words[1..] == d.sources;
  }

  predicate HasNoSemicolon(s: string) {
    forall i :: 0 <= i < |s| ==> s[i] != ';'
  }

  lemma {:induction false} JoinHasNoSemicolon(words: seq<string>)
    requires AreTokens(words)
    ensures HasNoSemicolon(Join(words, " "))
  {
    if |words| > 1 { JoinHasNoSemicolon(words[1..]); }
  }

  lemma DirectiveHasNoSemicolon(d: Directive)
    requires IsWellFormedDirective(d)
    ensures HasNoSemicolon(Serialize(d))
  {
    JoinHasNoSemicolon(d.sources);
  }

  lemma LowerStays(s: string)
    requires IsLower(s)
    ensures Lower(s) == s
  {}

  lemma AsciiParts(a: string, b: string)
    ensures IsAscii(a + b) <==> IsAscii(a) && IsAscii(b)
  {
    assert forall i :: 0 <= i < |a| ==> (a + b)[i] == a[i];
    assert forall i :: 0 <= i < |b| ==> (a + b)[|a| + i] == b[i];
  }

  lemma {:induction false} AsciiJoined(words: seq<string>)
    ensures IsAscii(Join(words, " ")) <==> AreAscii(words)
  {
    if |words| > 1 {
      AsciiJoined(words[1..]);
      AsciiParts(words[0] + " ", Join(words[1..], " "));
      AsciiParts(words[0], " ");
      assert forall i :: 0 <= i < |words| - 1 ==> words[1..][i] == words[i + 1];
    }
  }

  lemma AsciiSerialized(lead: string, d: Directive)
    requires lead == "" || lead == " "
    ensures IsAscii(lead + Serialize(d)) <==> IsAsciiDirective(d)
  {
    AsciiParts(lead, Serialize(d));
    AsciiParts(d.name + " ", Join(d.sources, " "));
    AsciiParts(d.name, " ");
    AsciiJoined(d.sources);
  }

  lemma LedWords(lead: string, d: Directive)
    requires lead == "" || lead == " "
    requires IsWellFormedDirective(d) && d.sources != []
    ensures Words(lead + Serialize(d)) == [d.name] + d.sources
  {
    WordsOfDirective(d);
    if lead == "" {
      assert lead + Serialize(d) == Serialize(d);
    } else {
      LeadingSpace(Serialize(d));
    }
  }

  /** One serialised directive is read, unless it is not ASCII. */
  lemma ReadOne(lead: string, d: Directive, rest: seq<string>, seen: set<string>)
    requires lead == "" || lead == " "
    requires IsWellFormedDirective(d) && d.sources != [] && d.name !in seen
    ensures ReadDirectives([lead + Serialize(d)] + rest, seen) ==
            if IsAsciiDirective(d) then [d] + ReadDirectives(rest, seen + {d.name}) else ReadDirectives(rest, seen)
  {
    LedWords(lead, d);
    AsciiSerialized(lead, d);
    LowerStays(d.name);
    DropHead(lead + Serialize(d), rest);
    DropHead(d.name, d.sources);
  }

  predicate HaveSources(ds: seq<Directive>) {
    forall i :: 0 <= i < |ds| ==> ds[i].sources != []
  }

  lemma {:induction false} ParseJoined(lead: string, ds: seq<Directive>, seen: set<string>)
    requires lead == "" || lead == " "
    requires ds != [] && IsWellFormed(ds) && NoneSeen(ds, seen)
    requires HaveSources(ds)
    decreases |ds|
    ensures ReadDirectives(Split(lead + Join(SerializeAll(ds), "; "), ';'), seen) == AsciiOnly(ds)
  {
    var first := lead + Serialize(ds[0]);
    DirectiveHasNoSemicolon(ds[0]);
    assert HasNoSemicolon(first);
    if |ds| == 1 {
      SplitWithoutSeparator(first, ';');
      assert SerializeAll(ds) == [Serialize(ds[0])] + [];
      assert [first] == [first] + [];
      ReadOne(lead, ds[0], [], seen);
    } else {
      var rest := Join(SerializeAll(ds[1..]), "; ");
      ParseJoined(" ", ds[1..], if IsAsciiDirective(ds[0]) then seen + {ds[0].name} else seen);
      JoinedTail(lead, Serialize(ds[0]), rest);
      SplitAtSeparator(first, " " + rest, ';');
      ReadOne(lead, ds[0], Split(" " + rest, ';'), seen);
      JoinCons(Serialize(ds[0]), SerializeAll(ds[1..]), "; ");
    }
  }

  lemma JoinedTail(lead: string, first: string, rest: string)
    ensures lead + (first + "; " + rest) == (lead + first) + ([';'] + (" " + rest))
  {}

  lemma {:induction false} EmittedHaveSources(ds: seq<Directive>)
    ensures HaveSources(Emitted(ds))
  {
    if ds != [] { EmittedHaveSources(ds[1..]); }
  }

  lemma {:induction false} WordsAreWords(s: string)
    requires HasNoSemicolon(s)
    ensures AreTokens(Words(s))
    decreases |s|
  {
    if s != "" {
      if IsWhitespace(s[0]) {
        WordsAreWords(s[1..]);
      } else {
        var n := WordLength(s);
        WordsAreWords(s[n..]);
        assert IsToken(s[..n]);
      }
    }
  }

  lemma {:induction false} SplitPartsAreFree(s: string)
    ensures forall i :: 0 <= i < |Split(s, ';')| ==> HasNoSemicolon(Split(s, ';')[i])
  {
    if s != "" { SplitPartsAreFree(s[1..]); }
  }

  lemma LowerToken(s: string)
    requires IsToken(s)
    ensures IsToken(Lower(s)) && IsLower(Lower(s))
  {}

  lemma {:induction false} WordsAreAscii(s: string)
    requires IsAscii(s)
    ensures AreAscii(Words(s))
    decreases |s|
  {
    if s != "" {
      if IsWhitespace(s[0]) { WordsAreAscii(s[1..]); } else { WordsAreAscii(s[WordLength(s)..]); }
    }
  }

  lemma ReadDirectiveIsGood(token: string, words: seq<string>)
    requires HasNoSemicolon(token) && IsAscii(token) && words == Words(token) && words != []
    ensures var d := Directive(Lower(words[0]), words[1..]);
            IsWellFormedDirective(d) && IsAsciiDirective(d)
  {
    WordsAreWords(token);
    WordsAreAscii(token);
    LowerToken(words[0]);
  }

  /** Whatever is parsed is a well-formed policy in ASCII. */
  lemma {:induction false} ReadIsWellFormed(tokens: seq<string>, seen: set<string>)
    requires forall i :: 0 <= i < |tokens| ==> HasNoSemicolon(tokens[i])
    ensures var ds := ReadDirectives(tokens, seen);
            IsWellFormed(ds) && NoneSeen(ds, seen) && AreAsciiDirectives(ds)
  {
    if tokens != [] {
      var words := Words(tokens[0]);
      if words == [] || !IsAscii(tokens[0]) || Lower(words[0]) in seen {
        ReadIsWellFormed(tokens[1..], seen);
      } else {
        var name := Lower(words[0]);
        ReadDirectiveIsGood(tokens[0], words);
        ReadIsWellFormed(tokens[1..], seen + {name});
        OneMoreDirective(Directive(name, words[1..]), ReadDirectives(tokens[1..], seen + {name}), seen);
      }
    }
  }

  lemma OneMoreDirective(d: Directive, ds: seq<Directive>, seen: set<string>)
    requires IsWellFormedDirective(d) && IsAsciiDirective(d) && d.name !in seen
    requires IsWellFormed(ds) && NoneSeen(ds, seen + {d.name}) && AreAsciiDirectives(ds)
    ensures IsWellFormed([d] + ds) && NoneSeen([d] + ds, seen) && AreAsciiDirectives([d] + ds)
  {}

  /** Of directives made of tokens, the header recovers, in order, exactly those with at least one
      source that are ASCII throughout. */
  lemma ParserKeepsAscii(ds: seq<Directive>)
    requires IsWellFormed(Emitted(ds))
    ensures ParseCsp(BuildCspHeaderValue(ds)) == AsciiOnly(Emitted(ds))
  {
    var es, header := Emitted(ds), BuildCspHeaderValue(ds);
    if es == [] {
      assert Split(header, ';') == [""];
    } else {
      EmittedHaveSources(ds);
      ParseJoined("", es, {});
      assert "" + header == header;
    }
  }

  /** The header recovers, in order, exactly the directives with at least one source, precisely when
      their names are distinct lower-case tokens, their sources are tokens, and all are ASCII. */
  lemma ParsesBackExactlyWhen(ds: seq<Directive>)
    ensures ParseCsp(BuildCspHeaderValue(ds)) == Emitted(ds) <==>
            IsWellFormed(Emitted(ds)) && AreAsciiDirectives(Emitted(ds))
  {
    ParsedIsGood(BuildCspHeaderValue(ds));
    if IsWellFormed(Emitted(ds)) {
      ParserKeepsAscii(ds);
      AsciiOnlyExactlyWhen(Emitted(ds));
    }
  }

  lemma ParsedIsGood(header: string)
    ensures IsWellFormed(ParseCsp(header)) && AreAsciiDirectives(ParseCsp(header))
  {
    SplitPartsAreFree(header);
    ReadIsWellFormed(Split(header, ';'), {});
  }

  /** A source outside ASCII takes its whole directive with it. */
  lemma NonAsciiDirectiveIsLost(d: Directive)
    requires IsWellFormedDirective(d) && d.sources != [] && !IsAsciiDirective(d)
    ensures ParseCsp(BuildCspHeaderValue([d])) == []
  {
    assert [d][1..] == [];
    assert Emitted([d]) == [d] + [];
    ParserKeepsAscii([d]);
  }

  /** For example with an accented letter in the host name. */
  function AccentedSource(): string {
    "https://" + [0xE9 as char] + ".fr"
  }

  lemma AccentedSourceIsLost()
    ensures ParseCsp(BuildCspHeaderValue([Directive("connect-src", ["'self'", AccentedSource()])])) == []
  {
    var source := AccentedSource();
    var d := Directive("connect-src", ["'self'", source]);
    assert source[8] == 0xE9 as char;
    assert IsToken(source) && !IsAscii(source);
    assert IsToken(d.name) && IsLower(d.name) && IsToken("'self'");
    assert !IsAscii(d.sources[1]);
    NonAsciiDirectiveIsLost(d);
  }

  // ----- sources

  const CSP_KEYWORDS: set<string> := {
    "self", "none", "unsafe-inline", "unsafe-eval", "strict-dynamic",
    "unsafe-hashes", "report-sample", "wasm-unsafe-eval", "script"
  }

  predicate IsLineTerminator(c: char) {
    c == '\n' || c == '\r' || c == 0x2028 as char || c == 0x2029 as char
  }

  /** The source without a pair of enclosing single quotes, where the pattern matches. */
  function Unquoted(source: string): string {
    var n := |source|;
    if n >= 2 && source[0] == '\'' && source[n - 1] == '\''
       && forall i :: 1 <= i < n - 1 ==> !IsLineTerminator(source[i])
    then source[1..n - 1] else source
  }

  function NormalizeCspSource(source: string): string {
    if Unquoted(source) in CSP_KEYWORDS then "'" + Unquoted(source) + "'" else source
  }

  function NormalizeAll(sources: seq<string>): seq<string> {
    if sources == [] then []
    else
      var last := NormalizeCspSource(sources[|sources| - 1]);
      NormalizeAll(sources[..|sources| - 1]) + if |last| > 0 then [last] else []
  }

  method DedupeSources(sources: seq<string>) returns (unique: seq<string>)
    ensures unique == Collect(NormalizeAll(sources))
  {
    unique := [];
    for i := 0 to |sources|
      invariant unique == Collect(NormalizeAll(sources[..i]))
    {
      var normalized := NormalizeCspSource(sources[i]);
      DedupeStep(sources, i);
      if |normalized| > 0 {
        unique := Add(unique, normalized);
      }
    }
    PrefixStep(sources, |sources|);
  }

  lemma DedupeStep(sources: seq<string>, i: nat)
    requires i < |sources|
    ensures Collect(NormalizeAll(sources[..i + 1])) ==
            if |NormalizeCspSource(sources[i])| > 0
            then Add(Collect(NormalizeAll(sources[..i])), NormalizeCspSource(sources[i]))
            else Collect(NormalizeAll(sources[..i]))
  {
    PrefixStep(sources, i);
    var all, last := NormalizeAll(sources[..i]), NormalizeCspSource(sources[i]);
    if |last| > 0 {
      assert (all + [last])[..|all|] == all;
    } else {
      assert all + [] == all;
    }
  }

  /** A keyword is quoted, whether it was bare or quoted before; every other source is kept. */
  lemma NormalizedSource(source: string)
    ensures forall k | k in {"self", "none", "unsafe-inline", "unsafe-eval", "strict-dynamic",
                             "unsafe-hashes", "report-sample", "wasm-unsafe-eval", "script"} ::
              source == k || source == "'" + k + "'" ==> NormalizeCspSource(source) == "'" + k + "'"
    ensures (forall k | k in {"self", "none", "unsafe-inline", "unsafe-eval", "strict-dynamic",
                              "unsafe-hashes", "report-sample", "wasm-unsafe-eval", "script"} ::
               source != k && source != "'" + k + "'") ==> NormalizeCspSource(source) == source
  {
    forall k | k in CSP_KEYWORDS ensures source == k || source == "'" + k + "'" ==> NormalizeCspSource(source) == "'" + k + "'" {
      KeywordIsQuoted(k);
    }
    UnquotedParts(source);
  }

  lemma UnquotedParts(source: string)
    ensures Unquoted(source) == source || source == "'" + Unquoted(source) + "'"
  {}

  lemma KeywordIsQuoted(k: string)
    requires k in CSP_KEYWORDS
    ensures NormalizeCspSource(k) == "'" + k + "'" && NormalizeCspSource("'" + k + "'") == "'" + k + "'"
  {
    KeywordsArePlain(k);
    NormalizeTwice(k);
  }

  /** A source that has been normalised stays as it is. */
  lemma NormalizeTwice(source: string)
    ensures NormalizeCspSource(NormalizeCspSource(source)) == NormalizeCspSource(source)
  {
    var u := Unquoted(source);
    if u in CSP_KEYWORDS {
      var q := "'" + u + "'";
      assert q[1..|q| - 1] == u;
      KeywordsArePlain(u);
      assert forall i :: 1 <= i < |q| - 1 ==> q[i] == u[i - 1];
      assert Unquoted(q) == u;
    }
  }

  lemma KeywordsArePlain(k: string)
    requires k in CSP_KEYWORDS
    ensures forall i :: 0 <= i < |k| ==> !IsLineTerminator(k[i])
  {}

  lemma {:induction false} NormalizedStay(sources: seq<string>)
    requires AreNormalized(sources)
    ensures NormalizeAll(sources) == sources
  {
    if sources != [] {
      var front, last := sources[..|sources| - 1], sources[|sources| - 1];
      assert last in sources;
      MembersOfPrefix(sources, |front|);
      NormalizedStay(front);
      assert sources == front + [last];
    }
  }

  ghost predicate AreNormalized(sources: seq<string>) {
    forall s :: s in sources ==> s != "" && NormalizeCspSource(s) == s
  }

  lemma {:induction false} NormalizedAreFixed(sources: seq<string>)
    ensures AreNormalized(NormalizeAll(sources))
  {
    if sources != [] {
      NormalizedAreFixed(sources[..|sources| - 1]);
      NormalizeTwice(sources[|sources| - 1]);
    }
  }

  /** The deduplicated list has no duplicates and no empty source, keeps the order of first
      occurrence, and is a fixed point of the deduplication. */
  lemma DedupedSources(sources: seq<string>)
    ensures var all, r := NormalizeAll(sources), Collect(NormalizeAll(sources));
            && Distinct(r) && "" !in r
            && (forall s :: s in r <==> s in all)
            && (forall i, j :: 0 <= i < j < |r| ==> IndexOf(all, r[i]) < IndexOf(all, r[j]))
            && Collect(NormalizeAll(r)) == r
  {
    var r := Collect(NormalizeAll(sources));
    CollectKeepsFirstOccurrences(NormalizeAll(sources));
    NormalizedAreFixed(sources);
    NormalizedStay(r);
    CollectDistinct(r);
  }
}
