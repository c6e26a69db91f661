/** The specification printer writes keys unescaped.  The printed text parses back exactly when no
    key needs an escape: a key that does is read as something else, or not at all. */
module JsonKeys {
  import opened Options
  import opened Sequences
  import opened Utf16
  import opened JsonText
  import opened JsonPrinter
  import opened JsonLexing
  import opened JsonRoundTrip

  // ----- the reader accepts nothing but the tokens of the value it returns

  lemma {:induction false} ReadIsSound(ts: seq<Token>)
    ensures match ReadValue(ts)
            case None => true
            case Some((v, rest)) => ts == Tokens(v) + rest
    decreases |ts|, 0
  {
    if ReadValue(ts).Some? {
      var (v, rest) := ReadValue(ts).value;
      assert ts == [ts[0]] + ts[1..];
      match ts[0]
      case OpenBracket =>
        if |ts| > 1 && ts[1] == CloseBracket {
          assert ts == [OpenBracket] + [] + [CloseBracket] + ts[2..];
        } else {
          ReadItemsIsSound(ts[1..]);
          TokenParts(OpenBracket, ItemTokens(v.items), CloseBracket, rest);
        }
      case OpenBrace =>
        if |ts| > 1 && ts[1] == CloseBrace {
          assert ts == [OpenBrace] + [] + [CloseBrace] + ts[2..];
        } else {
          ReadFieldsIsSound(ts[1..]);
          TokenParts(OpenBrace, FieldTokens(v.fields), CloseBrace, rest);
        }
      case _ =>
    }
  }

  lemma {:induction false} ReadItemsIsSound(ts: seq<Token>)
    ensures match ReadItems(ts)
            case None => true
            case Some((items, rest)) => items != [] && ts == ItemTokens(items) + ([CloseBracket] + rest)
    decreases |ts|, 1
  {
    ReadIsSound(ts);
    if ReadItems(ts).Some? {
      var (item, more) := ReadValue(ts).value;
      var (items, rest) := ReadItems(ts).value;
      assert ReadItems(ts) == MoreItems(item, more);
      assert more == [more[0]] + more[1..];
      if more[0] == Comma {
        assert ReadItems(more[1..]).Some?;
        ReadItemsIsSound(more[1..]);
        var others := ReadItems(more[1..]).value.0;
        assert items == [item] + others && items[1..] == others;
        ListParts(Tokens(item), ItemTokens(others), [CloseBracket] + rest);
      }
    }
  }

  lemma {:induction false} ReadFieldsIsSound(ts: seq<Token>)
    ensures match ReadFields(ts)
            case None => true
            case Some((fields, rest)) => fields != [] && ts == FieldTokens(fields) + ([CloseBrace] + rest)
    decreases |ts|, 1
  {
    if ReadFields(ts).Some? {
      ReadIsSound(ts[2..]);
      var (value, more) := ReadValue(ts[2..]).value;
      var (fields, rest) := ReadFields(ts).value;
      var first := [StringToken(ts[0].text), Colon] + Tokens(value);
      assert ts == first + more;
      assert ReadFields(ts) == MoreFields(Field(ts[0].text, value), more);
      assert more == [more[0]] + more[1..];
      if more[0] == Comma {
        assert ReadFields(more[1..]).Some?;
        ReadFieldsIsSound(more[1..]);
        var others := ReadFields(more[1..]).value.0;
        assert fields == [Field(ts[0].text, value)] + others && fields[1..] == others;
        ListParts(first, FieldTokens(others), [CloseBrace] + rest);
      }
    }
  }

  /** Parsing gives a value exactly when the text has that value's tokens. */
  lemma ParsesExactlyWhenTokensAgree(t: Text, v: Json)
    ensures Parse(t) == Some(v) <==> Lex(t) == Some(Tokens(v))
  {
    if Lex(t).Some? { ReadIsSound(Lex(t).value); }
    ReadTokens(v, []);
    assert Tokens(v) + [] == Tokens(v);
  }

  // ----- reading a key that needs an escape

  /** No backslash stands before the first quotation mark or control character. */
  predicate Harmless(t: Text) {
    t == [] || t[0] == QUOTE || t[0] < SPACE || (t[0] != BACKSLASH && Harmless(t[1..]))
  }

  lemma {:induction false} HarmlessContent(t: Text)
    requires Harmless(t)
    ensures ReadString(t).Some? ==> BACKSLASH !in ReadString(t).value.0
  {
    if t != [] && t[0] != QUOTE && t[0] >= SPACE {
      HarmlessContent(t[1..]);
    }
  }

  lemma {:induction false} HarmlessAfter(a: Text, b: Text)
    requires forall i :: 0 <= i < |a| ==> a[i] != BACKSLASH
    requires Harmless(b)
    ensures Harmless(a + b)
  {
    if a == [] {
      assert a + b == b;
    } else {
      HarmlessAfter(a[1..], b);
      assert (a + b)[1..] == a[1..] + b;
    }
  }

  /** The content read for raw is no longer than raw, and as long only if raw is plain; or raw ends
      in a backslash that swallowed the closing quotation mark, and the content does not. */
  predicate Misread(raw: Text, r: Option<(Text, Text)>) {
    r.Some? ==>
      var content := r.value.0;
      || (|content| <= |raw| && (|content| == |raw| ==> IsPlain(raw)))
      || (raw != [] && raw[|raw| - 1] == BACKSLASH && content != [] && content[|content| - 1] != BACKSLASH)
  }

  lemma MisreadAfterEscape(raw: Text, n: nat, u: Unit, r: Option<(Text, Text)>)
    requires 2 <= n <= |raw| && Misread(raw[n..], r)
    ensures Misread(raw, Unread(u, r))
  {}

  lemma MisreadAfterPlain(raw: Text, r: Option<(Text, Text)>)
    requires raw != [] && raw[0] >= SPACE && raw[0] != QUOTE && raw[0] != BACKSLASH
    requires Misread(raw[1..], r)
    ensures Misread(raw, Unread(raw[0], r))
  {
    assert IsPlain(raw[1..]) ==> forall i :: 1 <= i < |raw| ==> raw[i] == raw[1..][i - 1];
  }

  lemma LoneBackslash(more: Text)
    requires Harmless(more)
    ensures Misread([BACKSLASH], ReadString([BACKSLASH] + ([QUOTE] + more)))
  {
    var t := [BACKSLASH] + ([QUOTE] + more);
    assert t[1] == QUOTE && t[2..] == more;
    HarmlessContent(more);
  }

  lemma {:induction false} RawKeyShrinks(raw: Text, more: Text)
    requires Harmless(more)
    ensures Misread(raw, ReadString(raw + ([QUOTE] + more)))
    decreases |raw|
  {
    var t := raw + ([QUOTE] + more);
    if raw == [] {
      assert t == [QUOTE] + more;
    } else if raw[0] != BACKSLASH {
      if raw[0] != QUOTE && raw[0] >= SPACE {
        assert t[1..] == raw[1..] + ([QUOTE] + more);
        RawKeyShrinks(raw[1..], more);
        MisreadAfterPlain(raw, ReadString(t[1..]));
      }
    } else if |raw| == 1 {
      LoneBackslash(more);
      assert raw == [BACKSLASH];
    } else if EscapedUnit(raw[1]).Some? {
      assert t[1] == raw[1] && t[2..] == raw[2..] + ([QUOTE] + more);
      RawKeyShrinks(raw[2..], more);
      MisreadAfterEscape(raw, 2, EscapedUnit(raw[1]).value, ReadString(t[2..]));
    } else if |raw| >= 6 {
      RawUnicodeEscape(raw, more);
    } else {
      assert t[|raw|] == QUOTE && HexValue(QUOTE) == -1;
    }
  }

  lemma {:induction false} RawUnicodeEscape(raw: Text, more: Text)
    requires Harmless(more)
    requires |raw| >= 6 && raw[0] == BACKSLASH && EscapedUnit(raw[1]).None?
    ensures Misread(raw, ReadString(raw + ([QUOTE] + more)))
    decreases |raw|, 0
  {
    var t := raw + ([QUOTE] + more);
    assert t[1] == raw[1] && t[6..] == raw[6..] + ([QUOTE] + more);
    RawKeyShrinks(raw[6..], more);
    if t[1] == 0x75 && HexQuad(t[2..]).Some? {
      MisreadAfterEscape(raw, 6, HexQuad(t[2..]).value, ReadString(t[6..]));
    }
  }

  /** What is read for the key is not even of its outline. */
  lemma RawKeyIsMisread(key: Text, more: Text)
    requires !IsPlain(key) && Harmless(more)
    ensures ReadString(key + ([QUOTE] + more)).Some? ==> !SameOutline(ReadString(key + ([QUOTE] + more)).value.0, key)
  {
    RawKeyShrinks(key, more);
  }

  ghost predicate AllJson(items: seq<Json>) {
    forall i :: 0 <= i < |items| ==> IsJson(items[i])
  }

  // ----- what follows a key is harmless

  lemma LiteralIsHarmless(t: Text, rest: Text)
    requires AllNumberUnits(t) || t == NULL_TEXT || t == TRUE_TEXT || t == FALSE_TEXT
    requires Harmless(rest)
    ensures Harmless(t + rest)
  {
    HarmlessAfter(t, rest);
  }

  lemma {:induction false} ValueIsHarmless(v: Json, indent: nat, rest: Text)
    requires IsJson(v) && Harmless(rest)
    ensures Harmless(Render(Spec, v, indent) + rest)
    decreases v, 0
  {
    match v
    case Null => LiteralIsHarmless(NULL_TEXT, rest);
    case Bool(flag) => LiteralIsHarmless(if flag then TRUE_TEXT else FALSE_TEXT, rest);
    case Number(digits) => NumberUnits(digits); LiteralIsHarmless(digits, rest);
    case Str(text) => assert (Quote(text) + rest)[0] == QUOTE;
    case Arr(items) =>
      if items == [] {
        HarmlessAfter([OPEN_BRACKET, CLOSE_BRACKET], rest);
      } else {
        var texts := RenderItems(Spec, items, indent + 2);
        var layout := ArrayLayout(Spec, texts, indent);
        var joined := Join(PrefixAll(layout.prefix, texts), [COMMA] + layout.gap);
        EnclosedParts(OPEN_BRACKET, layout.opening, joined, layout.closing, CLOSE_BRACKET, rest);
        if layout == INLINE {
          InlineIsHarmless(items, indent + 2, rest);
        } else {
          StackedIsHarmless(OPEN_BRACKET, joined + (layout.closing + ([CLOSE_BRACKET] + rest)));
        }
      }
    case Obj(fields) =>
      if fields == [] {
        HarmlessAfter([OPEN_BRACE, CLOSE_BRACE], rest);
      } else {
        var layout := ObjectLayout(Spec, indent);
        var joined := Join(PrefixAll(layout.prefix, RenderFields(Spec, fields, indent + 2)), [COMMA] + layout.gap);
        EnclosedParts(OPEN_BRACE, layout.opening, joined, layout.closing, CLOSE_BRACE, rest);
        StackedIsHarmless(OPEN_BRACE, joined + (layout.closing + ([CLOSE_BRACE] + rest)));
      }
  }

  lemma StackedIsHarmless(open: Unit, rest: Text)
    requires open != BACKSLASH
    ensures Harmless([open] + ([LF] + rest))
  {
    HarmlessAfter([open], [LF] + rest);
  }

  lemma {:induction false} InlineIsHarmless(items: seq<Json>, indent: nat, rest: Text)
    requires items != [] && AllJson(items)
    requires Harmless(rest)
    ensures Harmless(InlineArray(RenderItems(Spec, items, indent)) + rest)
    decreases items, 1
  {
    var joined := Join(PrefixAll([], RenderItems(Spec, items, indent)), [COMMA] + [SPACE]);
    HarmlessAfter([CLOSE_BRACKET], rest);
    ItemsAreHarmless(items, indent, [CLOSE_BRACKET] + rest);
    HarmlessAfter([OPEN_BRACKET], joined + ([CLOSE_BRACKET] + rest));
    InlineParts(joined, rest);
  }

  lemma {:induction false} ItemsAreHarmless(items: seq<Json>, indent: nat, rest: Text)
    requires items != [] && AllJson(items)
    requires Harmless(rest)
    ensures Harmless(Join(PrefixAll([], RenderItems(Spec, items, indent)), [COMMA] + [SPACE]) + rest)
    decreases items, 0
  {
    var first := Render(Spec, items[0], indent);
    if |items| == 1 {
      ValueIsHarmless(items[0], indent, rest);
      assert [] + first == first;
    } else {
      var parts := PrefixAll([], RenderItems(Spec, items[1..], indent));
      var tail := Join(parts, [COMMA] + [SPACE]);
      var next := [COMMA] + ([SPACE] + (tail + rest));
      ItemsAreHarmless(items[1..], indent, rest);
      HarmlessAfter([SPACE], tail + rest);
      HarmlessAfter([COMMA], [SPACE] + (tail + rest));
      ValueIsHarmless(items[0], indent, next);
      JoinCons([] + first, parts, [COMMA] + [SPACE]);
      JoinedParts([], first, [SPACE], tail, rest);
      assert [] + (first + next) == first + next;
    }
  }

  // ----- a bad key spoils the tokens

  /** Equal tokens, or strings of one length that both end in a backslash or both do not: as much as
      the argument needs, and what survives when units of a key are replaced. */
  predicate Alike(a: Token, b: Token) {
    a == b || (a.StringToken? && b.StringToken? && SameOutline(a.text, b.text))
  }

  predicate SameOutline(a: Text, b: Text) {
    |a| == |b| && (a != [] ==> (a[|a| - 1] == BACKSLASH <==> b[|b| - 1] == BACKSLASH))
  }

  predicate StartsLike(r: Option<seq<Token>>, tokens: seq<Token>) {
    r.Some? && |tokens| <= |r.value| && forall i :: 0 <= i < |tokens| ==> Alike(r.value[i], tokens[i])
  }

  lemma SpoiledInside(before: seq<Token>, tokens: seq<Token>, after: seq<Token>, r: Option<seq<Token>>)
    requires !StartsLike(r, tokens)
    ensures !StartsLike(Prepend(before, r), before + tokens + after)
  {
    if StartsLike(Prepend(before, r), before + tokens + after) {
      var all := before + tokens + after;
      forall i | 0 <= i < |tokens| ensures Alike(r.value[i], tokens[i]) {
        assert all[|before| + i] == tokens[i] && (before + r.value)[|before| + i] == r.value[i];
      }
      assert false;
    }
  }

  lemma AppendNothing(tokens: seq<Token>)
    ensures tokens + [] == tokens
  {}

  lemma SpoiledEnclosed(open: Unit, opening: Text, joined: Text, closing: Text, close: Unit, tokens: seq<Token>, rest: Text)
    requires Punctuation(open).Some? && Punctuation(close).Some? && AllWhitespace(opening)
    requires !StartsLike(Lex(joined + (closing + ([close] + rest))), tokens)
    ensures !StartsLike(Lex([open] + opening + joined + closing + [close] + rest),
                        [Punctuation(open).value] + tokens + [Punctuation(close).value])
  {
    EnclosedParts(open, opening, joined, closing, close, rest);
    LexPunctuation(open, opening + (joined + (closing + ([close] + rest))));
    LexWhitespace(opening, joined + (closing + ([close] + rest)));
    SpoiledInside([Punctuation(open).value], tokens, [Punctuation(close).value], Lex(joined + (closing + ([close] + rest))));
  }

  lemma SpoiledEnclose(open: Unit, layout: Layout, texts: seq<Text>, close: Unit, tokens: seq<Token>, rest: Text)
    requires Punctuation(open).Some? && Punctuation(close).Some? && IsLayout(layout)
    requires !StartsLike(Lex(Join(PrefixAll(layout.prefix, texts), [COMMA] + layout.gap)
                             + (layout.closing + ([close] + rest))), tokens)
    ensures !StartsLike(Lex(Enclose(open, layout, texts, close) + rest),
                        [Punctuation(open).value] + tokens + [Punctuation(close).value])
  {
    SpoiledEnclosed(open, layout.opening, Join(PrefixAll(layout.prefix, texts), [COMMA] + layout.gap),
                    layout.closing, close, tokens, rest);
  }

  lemma SpoiledFirst(prefix: Text, first: Text, gap: Text, tail: Text, rest: Text, a: seq<Token>, b: seq<Token>)
    requires AllWhitespace(prefix)
    requires !StartsLike(Lex(first + ([COMMA] + (gap + (tail + rest)))), a)
    ensures !StartsLike(Lex((prefix + first) + ([COMMA] + gap) + tail + rest), a + [Comma] + b)
  {
    JoinedParts(prefix, first, gap, tail, rest);
    LexWhitespace(prefix, first + ([COMMA] + (gap + (tail + rest))));
    var r := Lex(first + ([COMMA] + (gap + (tail + rest))));
    SpoiledInside([], a, [Comma] + b, r);
    PrependNothing(r);
    Reassociate([] + a, [Comma], b);
    assert [] + a == a;
  }

  lemma SpoiledLater(prefix: Text, first: Text, gap: Text, tail: Text, rest: Text, a: seq<Token>, b: seq<Token>)
    requires AllWhitespace(prefix) && AllWhitespace(gap)
    requires Lex(first + ([COMMA] + (gap + (tail + rest)))) == Prepend(a, Lex([COMMA] + (gap + (tail + rest))))
    requires !StartsLike(Lex(tail + rest), b)
    ensures !StartsLike(Lex((prefix + first) + ([COMMA] + gap) + tail + rest), a + [Comma] + b)
  {
    LexUpToComma(prefix, first, gap, tail, rest, a);
    SpoiledInside(a + [Comma], b, [], Lex(tail + rest));
    AppendNothing(a + [Comma] + b);
  }

  lemma SpoiledOnly(prefix: Text, first: Text, rest: Text, a: seq<Token>)
    requires AllWhitespace(prefix) && !StartsLike(Lex(first + rest), a)
    ensures !StartsLike(Lex((prefix + first) + rest), a)
  {
    Reassociate(prefix, first, rest);
    LexWhitespace(prefix, first + rest);
  }

  ghost predicate AllPlain(items: seq<Json>) {
    forall i :: 0 <= i < |items| ==> PlainKeys(items[i])
  }

  ghost predicate GoodField(field: Field) {
    IsPlain(field.key) && PlainKeys(field.value)
  }

  ghost predicate FieldsAreJson(fields: seq<Field>) {
    forall i :: 0 <= i < |fields| ==> IsJson(fields[i].value)
  }

  ghost predicate FieldsAreGood(fields: seq<Field>) {
    forall i :: 0 <= i < |fields| ==> GoodField(fields[i])
  }

  lemma {:induction false} BadKeySpoilsValue(v: Json, indent: nat, rest: Text)
    requires IsJson(v) && !PlainKeys(v)
    ensures !StartsLike(Lex(Render(Spec, v, indent) + rest), Tokens(v))
    decreases v, 0
  {
    match v
    case Arr(items) => BadKeySpoilsArray(items, indent, rest);
    case Obj(fields) => BadKeySpoilsObject(fields, indent, rest);
    case _ =>
  }

  lemma {:induction false} BadKeySpoilsArray(items: seq<Json>, indent: nat, rest: Text)
    requires AllJson(items) && !AllPlain(items)
    ensures !StartsLike(Lex(Render(Spec, Arr(items), indent) + rest), Tokens(Arr(items)))
    decreases items, 2
  {
    var texts := RenderItems(Spec, items, indent + 2);
    LayoutsAreLayouts(Spec, texts, indent);
    BadKeySpoilsLaidOut(items, indent, ArrayLayout(Spec, texts, indent), rest);
  }

  lemma {:induction false} BadKeySpoilsLaidOut(items: seq<Json>, indent: nat, layout: Layout, rest: Text)
    requires AllJson(items) && !AllPlain(items) && IsLayout(layout)
    ensures !StartsLike(Lex(Enclose(OPEN_BRACKET, layout, RenderItems(Spec, items, indent + 2), CLOSE_BRACKET) + rest),
                        Tokens(Arr(items)))
    decreases items, 1
  {
    ClosingIsBoundary(layout.closing, CLOSE_BRACKET, rest);
    BadKeySpoilsItems(items, indent + 2, layout, layout.closing + ([CLOSE_BRACKET] + rest));
    SpoiledEnclose(OPEN_BRACKET, layout, RenderItems(Spec, items, indent + 2), CLOSE_BRACKET, ItemTokens(items), rest);
  }

  lemma ClosingLineIsHarmless(indent: nat, close: Unit, rest: Text)
    ensures Harmless(Stacked(indent).closing + ([close] + rest))
  {
    assert (Stacked(indent).closing + ([close] + rest))[0] == LF;
  }

  lemma {:induction false} BadKeySpoilsObject(fields: seq<Field>, indent: nat, rest: Text)
    requires FieldsAreJson(fields) && !FieldsAreGood(fields)
    ensures !StartsLike(Lex(Render(Spec, Obj(fields), indent) + rest), Tokens(Obj(fields)))
    decreases fields, 1
  {
    var layout := Stacked(indent);
    StackedIsLayout(indent);
    ClosingIsBoundary(layout.closing, CLOSE_BRACE, rest);
    ClosingLineIsHarmless(indent, CLOSE_BRACE, rest);
    BadKeySpoilsFields(fields, indent + 2, layout, layout.closing + ([CLOSE_BRACE] + rest));
    SpoiledEnclose(OPEN_BRACE, layout, RenderFields(Spec, fields, indent + 2), CLOSE_BRACE, FieldTokens(fields), rest);
  }

  lemma {:induction false} BadKeySpoilsItems(items: seq<Json>, indent: nat, layout: Layout, rest: Text)
    requires AllJson(items) && !AllPlain(items)
    requires IsLayout(layout) && Boundary(rest)
    ensures !StartsLike(Lex(Join(PrefixAll(layout.prefix, RenderItems(Spec, items, indent)), [COMMA] + layout.gap) + rest),
                        ItemTokens(items))
    decreases items, 0
  {
    var first := Render(Spec, items[0], indent);
    if |items| == 1 {
      BadKeySpoilsValue(items[0], indent, rest);
      SpoiledOnly(layout.prefix, first, rest, Tokens(items[0]));
    } else {
      var parts := PrefixAll(layout.prefix, RenderItems(Spec, items[1..], indent));
      var tail := Join(parts, [COMMA] + layout.gap);
      var next := [COMMA] + (layout.gap + (tail + rest));
      if PlainKeys(items[0]) {
        LexValue(Spec, items[0], indent, next);
        BadKeySpoilsItems(items[1..], indent, layout, rest);
        SpoiledLater(layout.prefix, first, layout.gap, tail, rest, Tokens(items[0]), ItemTokens(items[1..]));
      } else {
        BadKeySpoilsValue(items[0], indent, next);
        SpoiledFirst(layout.prefix, first, layout.gap, tail, rest, Tokens(items[0]), ItemTokens(items[1..]));
      }
      JoinCons(layout.prefix + first, parts, [COMMA] + layout.gap);
    }
  }

  lemma MisreadKeySpoils(key: Text, more: Text, tokens: seq<Token>)
    requires !IsPlain(key) && Harmless(more)
    ensures !StartsLike(Lex(KeyText(Spec, key) + more), [StringToken(key)] + tokens)
  {
    RawKeyIsMisread(key, more);
    Reassociate([QUOTE] + key, [QUOTE], more);
    Reassociate([QUOTE], key, [QUOTE] + more);
    DropHead(QUOTE, key + ([QUOTE] + more));
    var r := ReadString(key + ([QUOTE] + more));
    if r.Some? && Lex(r.value.1).Some? {
      assert ([StringToken(r.value.0)] + Lex(r.value.1).value)[0] == StringToken(r.value.0);
      assert ([StringToken(key)] + tokens)[0] == StringToken(key);
    }
  }

  lemma {:induction false} BadKeySpoilsField(field: Field, indent: nat, rest: Text)
    requires IsJson(field.value) && !GoodField(field) && Harmless(rest)
    ensures !StartsLike(Lex(KeyText(Spec, field.key) + AfterKey(Spec) + Render(Spec, field.value, indent) + rest),
                        [StringToken(field.key), Colon] + Tokens(field.value))
    decreases field, 1
  {
    var key, after, value := KeyText(Spec, field.key), AfterKey(Spec), Render(Spec, field.value, indent);
    var k, t := [StringToken(field.key)], Tokens(field.value);
    Reassociate(key + after, value, rest);
    Reassociate(key, after, value + rest);
    assert [StringToken(field.key), Colon] == k + [Colon];
    Reassociate(k, [Colon], t);
    if IsPlain(field.key) {
      LexKey(Spec, field.key, after + (value + rest));
      LexAfterKey(Spec, value + rest);
      BadKeySpoilsValue(field.value, indent, rest);
      PrependAgain(k, [Colon], Lex(value + rest));
      SpoiledInside(k + [Colon], t, [], Lex(value + rest));
      AppendNothing(k + [Colon] + t);
    } else {
      ValueIsHarmless(field.value, indent, rest);
      HarmlessAfter(after, value + rest);
      MisreadKeySpoils(field.key, after + (value + rest), [Colon] + t);
    }
  }

  lemma {:induction false} BadKeySpoilsFields(fields: seq<Field>, indent: nat, layout: Layout, rest: Text)
    requires FieldsAreJson(fields) && !FieldsAreGood(fields)
    requires IsLayout(layout) && layout.gap == [LF] && Boundary(rest) && Harmless(rest)
    ensures !StartsLike(Lex(Join(PrefixAll(layout.prefix, RenderFields(Spec, fields, indent)), [COMMA] + layout.gap) + rest),
                        FieldTokens(fields))
    decreases fields, 0
  {
    var first := KeyText(Spec, fields[0].key) + AfterKey(Spec) + Render(Spec, fields[0].value, indent);
    var tokens := [StringToken(fields[0].key), Colon] + Tokens(fields[0].value);
    if |fields| == 1 {
      BadKeySpoilsField(fields[0], indent, rest);
      SpoiledOnly(layout.prefix, first, rest, tokens);
    } else {
      var parts := PrefixAll(layout.prefix, RenderFields(Spec, fields[1..], indent));
      var tail := Join(parts, [COMMA] + layout.gap);
      var next := [COMMA] + (layout.gap + (tail + rest));
      if GoodField(fields[0]) {
        LexField(Spec, fields[0], indent, next);
        BadKeySpoilsFields(fields[1..], indent, layout, rest);
        SpoiledLater(layout.prefix, first, layout.gap, tail, rest, tokens, FieldTokens(fields[1..]));
      } else {
        HarmlessAfter([COMMA], layout.gap + (tail + rest));
        BadKeySpoilsField(fields[0], indent, next);
        SpoiledFirst(layout.prefix, first, layout.gap, tail, rest, tokens, FieldTokens(fields[1..]));
      }
      JoinCons(layout.prefix + first, parts, [COMMA] + layout.gap);
    }
  }

  /** For every JSON value and every starting indent: the printed specification parses back to the
      value exactly when all keys can stand between quotation marks unescaped. */
  lemma RoundTripsExactlyWhenKeysArePlain(v: Json, indent: nat)
    requires IsJson(v)
    ensures Parse(FormatJson(v, indent)) == Some(v) <==> PlainKeys(v)
  {
    if PlainKeys(v) {
      ParseUndoesRender(Spec, v, indent);
    } else {
      BadKeyIsNeverReadAlike(v, indent, v);
    }
  }

  lemma BadKeyIsNeverReadAlike(v: Json, indent: nat, w: Json)
    requires IsJson(v) && !PlainKeys(v)
    requires |Tokens(w)| == |Tokens(v)| && forall i :: 0 <= i < |Tokens(v)| ==> Alike(Tokens(w)[i], Tokens(v)[i])
    ensures Parse(FormatJson(v, indent)) != Some(w)
  {
    BadKeySpoilsValue(v, indent, []);
    assert FormatJson(v, indent) + [] == FormatJson(v, indent);
    ParsesExactlyWhenTokensAgree(FormatJson(v, indent), w);
  }
}
