/** Every layout of a JSON value has the same tokens. */
module JsonLexing {
  import opened Options
  import opened Sequences
  import opened Utf16
  import opened JsonText
  import opened JsonPrinter

  /** What may follow a number without becoming part of it. */
  predicate Boundary(rest: Text) {
    rest == [] || !IsNumberUnit(rest[0])
  }

  ghost predicate AllWhitespace(t: Text) {
    forall i :: 0 <= i < |t| ==> IsWhitespace(t[i])
  }

  lemma PrependAgain(a: seq<Token>, b: seq<Token>, r: Option<seq<Token>>)
    ensures Prepend(a, Prepend(b, r)) == Prepend(a + b, r)
  {
    if r.Some? { assert a + (b + r.value) == a + b + r.value; }
  }

  // ----- strings

  lemma HexDigitsAddUp(u: Unit)
    ensures 4096 * (u / 4096) + 256 * (u / 256 % 16) + 16 * (u / 16 % 16) + u % 16 == u
  {
    var a := u / 16;
    var b := a / 16;
    assert b == u / 256 && b / 16 == u / 4096;
    assert u == 16 * a + u % 16 && a == 16 * b + a % 16 && b == 16 * (b / 16) + b % 16;
  }

  lemma HexQuadOf(u: Unit, t: Text)
    requires |t| >= 4
    requires t[0] == HexDigit(u / 4096) && t[1] == HexDigit(u / 256 % 16)
    requires t[2] == HexDigit(u / 16 % 16) && t[3] == HexDigit(u % 16)
    ensures HexQuad(t) == Some(u)
  {
    HexDigitValue(u / 4096);
    HexDigitValue(u / 256 % 16);
    HexDigitValue(u / 16 % 16);
    HexDigitValue(u % 16);
    HexDigitsAddUp(u);
  }

  lemma SixUnits(a: Unit, b: Unit, c: Unit, d: Unit, e: Unit, f: Unit, rest: Text)
    ensures var t := [a, b, c, d, e, f] + rest;
            && |t| >= 6 && t[0] == a && t[1] == b && t[6..] == rest
            && t[2..][0] == c && t[2..][1] == d && t[2..][2] == e && t[2..][3] == f
  {}

  lemma UnicodeEscapeReads(u: Unit, rest: Text)
    ensures ReadString(UnicodeEscape(u) + rest) == Unread(u, ReadString(rest))
  {
    SixUnits(BACKSLASH, 0x75, HexDigit(u / 4096), HexDigit(u / 256 % 16), HexDigit(u / 16 % 16), HexDigit(u % 16), rest);
    HexQuadOf(u, (UnicodeEscape(u) + rest)[2..]);
  }

  lemma ShortEscapeReads(u: Unit, rest: Text)
    requires ShortEscape(u) != 0
    ensures ReadString([BACKSLASH, ShortEscape(u)] + rest) == Unread(u, ReadString(rest))
  {
    assert ([BACKSLASH, ShortEscape(u)] + rest)[2..] == rest;
  }

  lemma PlainUnitReads(u: Unit, rest: Text)
    requires u >= SPACE && u != QUOTE && u != BACKSLASH
    ensures ReadString([u] + rest) == Unread(u, ReadString(rest))
  {
    assert ([u] + rest)[1..] == rest;
  }

  /** Quoting goes unit by unit, except that a surrogate pair is kept whole. */
  function QuoteHead(s: Text): (Text, Text)
    requires s != []
  {
    var u := s[0];
    if IsHighSurrogate(u) && |s| > 1 && IsLowSurrogate(s[1]) then ([u, s[1]], s[2..])
    else if ShortEscape(u) != 0 then ([BACKSLASH, ShortEscape(u)], s[1..])
    else if u < SPACE || IsHighSurrogate(u) || IsLowSurrogate(u) then (UnicodeEscape(u), s[1..])
    else ([u], s[1..])
  }

  lemma QuoteHeadReads(s: Text, tail: Text, rest: Text)
    requires s != []
    requires ReadString(tail) == Some((QuoteHead(s).1, rest))
    ensures ReadString(QuoteHead(s).0 + tail) == Some((s, rest))
  {
    var u := s[0];
    assert [u] + s[1..] == s;
    if IsHighSurrogate(u) && |s| > 1 && IsLowSurrogate(s[1]) {
      PlainUnitReads(s[1], tail);
      PlainUnitReads(u, [s[1]] + tail);
      assert [u, s[1]] + tail == [u] + ([s[1]] + tail);
      assert [s[1]] + s[2..] == s[1..];
    } else if ShortEscape(u) != 0 {
      ShortEscapeReads(u, tail);
    } else if u < SPACE || IsHighSurrogate(u) || IsLowSurrogate(u) {
      UnicodeEscapeReads(u, tail);
    } else {
      PlainUnitReads(u, tail);
    }
  }

  /** Reading undoes quoting. */
  lemma {:induction false} QuotedReads(s: Text, rest: Text)
    ensures ReadString(QuoteBody(s) + ([QUOTE] + rest)) == Some((s, rest))
    decreases |s|
  {
    if s == [] {
      DropHead(QUOTE, rest);
      assert [] + ([QUOTE] + rest) == [QUOTE] + rest;
    } else {
      var (head, left) := QuoteHead(s);
      QuotedReads(left, rest);
      Reassociate(head, QuoteBody(left), [QUOTE] + rest);
      QuoteHeadReads(s, QuoteBody(left) + ([QUOTE] + rest), rest);
    }
  }

  lemma {:induction false} PlainReads(s: Text, rest: Text)
    requires IsPlain(s)
    ensures ReadString(s + ([QUOTE] + rest)) == Some((s, rest))
  {
    if s == [] {
      DropHead(QUOTE, rest);
      assert [] + ([QUOTE] + rest) == [QUOTE] + rest;
    } else {
      PlainReads(s[1..], rest);
      assert [s[0]] + s[1..] == s;
      Reassociate([s[0]], s[1..], [QUOTE] + rest);
      PlainUnitReads(s[0], s[1..] + ([QUOTE] + rest));
    }
  }

  /** The text between the quotation marks of a key. */
  function KeyBody(style: Style, key: Text): Text {
    if style.Spec? then key else QuoteBody(key)
  }

  lemma LexKey(style: Style, key: Text, rest: Text)
    requires style.Spec? ==> IsPlain(key)
    ensures Lex(KeyText(style, key) + rest) == Prepend([StringToken(key)], Lex(rest))
  {
    var body := KeyBody(style, key);
    if style.Spec? { PlainReads(key, rest); } else { QuotedReads(key, rest); }
    Reassociate([QUOTE] + body, [QUOTE], rest);
    Reassociate([QUOTE], body, [QUOTE] + rest);
    DropHead(QUOTE, body + ([QUOTE] + rest));
  }

  lemma LexQuoted(s: Text, rest: Text)
    ensures Lex(Quote(s) + rest) == Prepend([StringToken(s)], Lex(rest))
  {
    LexKey(Compact, s, rest);
  }

  // ----- white space, punctuation, literals

  lemma {:induction false} LexWhitespace(ws: Text, rest: Text)
    requires AllWhitespace(ws)
    ensures Lex(ws + rest) == Lex(rest)
  {
    if ws == [] {
      assert ws + rest == rest;
    } else {
      LexWhitespace(ws[1..], rest);
      assert [ws[0]] + ws[1..] == ws;
      Reassociate([ws[0]], ws[1..], rest);
      DropHead(ws[0], ws[1..] + rest);
      PrependNothing(Lex(rest));
    }
  }

  lemma PrependNothing(r: Option<seq<Token>>)
    ensures Prepend([], r) == r
  {
    if r.Some? { assert [] + r.value == r.value; }
  }

  lemma LexPunctuation(u: Unit, rest: Text)
    requires Punctuation(u).Some?
    ensures Lex([u] + rest) == Prepend([Punctuation(u).value], Lex(rest))
  {
    DropHead(u, rest);
  }

  function LiteralToken(t: Text): Token {
    if t == NULL_TEXT then NullToken else if t == TRUE_TEXT then TrueToken else FalseToken
  }

  lemma LexLiteral(t: Text, rest: Text)
    requires t == NULL_TEXT || t == TRUE_TEXT || t == FALSE_TEXT
    ensures Lex(t + rest) == Prepend([LiteralToken(t)], Lex(rest))
  {
    var all := t + rest;
    DropFront(t, rest);
    assert all[0] == t[0] && all[1] == t[1];
    LiteralToLex(t, all, rest);
  }

  lemma LiteralToLex(t: Text, all: Text, rest: Text)
    requires t == NULL_TEXT || t == TRUE_TEXT || t == FALSE_TEXT
    requires t <= all && all[|t|..] == rest
    ensures Lex(all) == Prepend([LiteralToken(t)], Lex(rest))
  {
    assert all[0] == t[0];
    assert NextToken(all) == Some(([LiteralToken(t)], rest));
  }

  // ----- numbers

  lemma {:induction false} DigitsAreNumberUnits(t: Text, n: nat)
    requires n <= DigitRun(t)
    ensures forall i :: 0 <= i < n ==> IsNumberUnit(t[i])
  {
    if n > 0 {
      DigitsAreNumberUnits(t[1..], n - 1);
      assert forall i :: 1 <= i < n ==> t[i] == t[1..][i - 1];
    }
  }

  predicate AllNumberUnits(t: Text) {
    forall i :: 0 <= i < |t| ==> IsNumberUnit(t[i])
  }

  lemma AllNumberUnitsJoin(a: Text, b: Text)
    requires AllNumberUnits(a) && AllNumberUnits(b)
    ensures AllNumberUnits(a + b)
  {}

  lemma ExponentUnits(t: Text)
    requires IsExponent(t)
    ensures AllNumberUnits(t)
  {
    var k := if t[1] == 0x2B || t[1] == 0x2D then 2 else 1;
    DigitsAreNumberUnits(t[k..], |t[k..]|);
    AllNumberUnitsJoin(t[..k], t[k..]);
    assert t[..k] + t[k..] == t;
  }

  lemma FractionUnits(t: Text)
    requires IsFraction(t)
    ensures AllNumberUnits(t)
  {
    var n := DigitRun(t[1..]);
    DigitsAreNumberUnits(t[1..], n);
    assert AllNumberUnits(t[..n + 1]) by {
      assert forall i :: 1 <= i < n + 1 ==> t[i] == t[1..][i - 1];
    }
    if n + 1 < |t| { ExponentUnits(t[n + 1..]); }
    AllNumberUnitsJoin(t[..n + 1], t[n + 1..]);
    assert t[..n + 1] + t[n + 1..] == t;
  }

  lemma UnsignedUnits(u: Text)
    requires u != [] && DigitRun(u) > 0
    requires var n := DigitRun(u); n == |u| || IsFraction(u[n..]) || IsExponent(u[n..])
    ensures AllNumberUnits(u)
  {
    var n := DigitRun(u);
    DigitsAreNumberUnits(u, n);
    if n < |u| {
      if IsFraction(u[n..]) { FractionUnits(u[n..]); } else { ExponentUnits(u[n..]); }
    }
    AllNumberUnitsJoin(u[..n], u[n..]);
    assert u[..n] + u[n..] == u;
  }

  lemma NumberUnits(t: Text)
    requires IsNumber(t)
    ensures t != [] && AllNumberUnits(t)
  {
    if t[0] == 0x2D {
      UnsignedUnits(t[1..]);
      AllNumberUnitsJoin(t[..1], t[1..]);
      assert t[..1] + t[1..] == t;
    } else {
      UnsignedUnits(t);
    }
  }

  lemma LexNumber(t: Text, rest: Text)
    requires IsNumber(t) && Boundary(rest)
    ensures Lex(t + rest) == Prepend([NumberToken(t)], Lex(rest))
  {
    NumberUnits(t);
    NumberRunIs(t, rest);
    DropFront(t, rest);
    assert IsNumberUnit((t + rest)[0]);
  }

  lemma NumberRunIs(t: Text, rest: Text)
    requires AllNumberUnits(t) && Boundary(rest)
    ensures NumberRun(t + rest) == |t|
  {
    var all := t + rest;
    assert forall i :: 0 <= i < |t| ==> all[i] == t[i];
    assert rest != [] ==> all[|t|] == rest[0];
  }
}
