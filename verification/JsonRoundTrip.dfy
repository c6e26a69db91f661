/** Parsing what was printed gives back the value, whatever the layout. */
module JsonRoundTrip {
  import opened Options
  import opened Sequences
  import opened Utf16
  import opened JsonText
  import opened JsonPrinter
  import opened JsonLexing

  ghost predicate Printable(style: Style, v: Json) {
    IsJson(v) && (style.Spec? ==> PlainKeys(v))
  }

  ghost predicate PrintableItems(style: Style, items: seq<Json>) {
    forall i :: 0 <= i < |items| ==> Printable(style, items[i])
  }

  ghost predicate PrintableFields(style: Style, fields: seq<Field>) {
    forall i :: 0 <= i < |fields| ==> Printable(style, fields[i].value) && (style.Spec? ==> IsPlain(fields[i].key))
  }

  ghost predicate IsLayout(layout: Layout) {
    && AllWhitespace(layout.opening) && AllWhitespace(layout.prefix)
    && AllWhitespace(layout.gap) && AllWhitespace(layout.closing)
  }

  lemma StackedIsLayout(indent: nat)
    ensures IsLayout(Stacked(indent)) && IsLayout(COMPACT) && IsLayout(INLINE)
  {}

  // ----- lexing a printed value

  /** first, separator, tail and rest, regrouped from the left. */
  lemma JoinedParts(prefix: Text, first: Text, gap: Text, tail: Text, rest: Text)
    ensures (prefix + first) + ([COMMA] + gap) + tail + rest
            == prefix + (first + ([COMMA] + (gap + (tail + rest))))
  {}

  lemma EnclosedParts(open: Unit, opening: Text, joined: Text, closing: Text, close: Unit, rest: Text)
    ensures [open] + opening + joined + closing + [close] + rest
            == [open] + (opening + (joined + (closing + ([close] + rest))))
  {}

  lemma InlineParts(joined: Text, rest: Text)
    ensures [OPEN_BRACKET] + [] + joined + [] + [CLOSE_BRACKET] + rest
            == [OPEN_BRACKET] + (joined + ([CLOSE_BRACKET] + rest))
  {}

  lemma ClosingIsBoundary(closing: Text, close: Unit, rest: Text)
    requires AllWhitespace(closing) && Punctuation(close).Some?
    ensures Boundary(closing + ([close] + rest))
  {
    if closing != [] { assert (closing + ([close] + rest))[0] == closing[0]; }
  }

  lemma LexEnclosed(open: Unit, opening: Text, joined: Text, closing: Text, close: Unit, tokens: seq<Token>, rest: Text)
    requires Punctuation(open).Some? && Punctuation(close).Some?
    requires AllWhitespace(opening) && AllWhitespace(closing)
    requires Lex(joined + (closing + ([close] + rest))) == Prepend(tokens, Lex(closing + ([close] + rest)))
    ensures Lex([open] + opening + joined + closing + [close] + rest)
            == Prepend([Punctuation(open).value] + tokens + [Punctuation(close).value], Lex(rest))
  {
    var o, c := [Punctuation(open).value], [Punctuation(close).value];
    EnclosedParts(open, opening, joined, closing, close, rest);
    LexPunctuation(open, opening + (joined + (closing + ([close] + rest))));
    LexWhitespace(opening, joined + (closing + ([close] + rest)));
    LexWhitespace(closing, [close] + rest);
    LexPunctuation(close, rest);
    PrependAgain(tokens, c, Lex(rest));
    PrependAgain(o, tokens + c, Lex(rest));
    Reassociate(o, tokens, c);
  }

  lemma LexEnclose(open: Unit, layout: Layout, texts: seq<Text>, close: Unit, tokens: seq<Token>, rest: Text)
    requires Punctuation(open).Some? && Punctuation(close).Some? && IsLayout(layout)
    requires Lex(Join(PrefixAll(layout.prefix, texts), [COMMA] + layout.gap) + (layout.closing + ([close] + rest)))
             == Prepend(tokens, Lex(layout.closing + ([close] + rest)))
    ensures Lex(Enclose(open, layout, texts, close) + rest)
            == Prepend([Punctuation(open).value] + tokens + [Punctuation(close).value], Lex(rest))
  {
    LexEnclosed(open, layout.opening, Join(PrefixAll(layout.prefix, texts), [COMMA] + layout.gap),
                layout.closing, close, tokens, rest);
  }

  lemma LexUpToComma(prefix: Text, first: Text, gap: Text, tail: Text, rest: Text, a: seq<Token>)
    requires AllWhitespace(prefix) && AllWhitespace(gap)
    requires Lex(first + ([COMMA] + (gap + (tail + rest)))) == Prepend(a, Lex([COMMA] + (gap + (tail + rest))))
    ensures Lex((prefix + first) + ([COMMA] + gap) + tail + rest) == Prepend(a + [Comma], Lex(tail + rest))
  {
    JoinedParts(prefix, first, gap, tail, rest);
    LexWhitespace(prefix, first + ([COMMA] + (gap + (tail + rest))));
    LexPunctuation(COMMA, gap + (tail + rest));
    LexWhitespace(gap, tail + rest);
    PrependAgain(a, [Comma], Lex(tail + rest));
  }

  lemma LexFirst(prefix: Text, first: Text, gap: Text, tail: Text, rest: Text, a: seq<Token>, b: seq<Token>)
    requires AllWhitespace(prefix) && AllWhitespace(gap)
    requires Lex(first + ([COMMA] + (gap + (tail + rest)))) == Prepend(a, Lex([COMMA] + (gap + (tail + rest))))
    requires Lex(tail + rest) == Prepend(b, Lex(rest))
    ensures Lex((prefix + first) + ([COMMA] + gap) + tail + rest) == Prepend(a + [Comma] + b, Lex(rest))
  {
    LexUpToComma(prefix, first, gap, tail, rest, a);
    PrependAgain(a + [Comma], b, Lex(rest));
  }

  lemma LexOnly(prefix: Text, first: Text, rest: Text, a: seq<Token>)
    requires AllWhitespace(prefix)
    requires Lex(first + rest) == Prepend(a, Lex(rest))
    ensures Lex((prefix + first) + rest) == Prepend(a, Lex(rest))
  {
    Reassociate(prefix, first, rest);
    LexWhitespace(prefix, first + rest);
  }

  /** Every layout of a value has the tokens of the value. */
  lemma {:induction false} LexValue(style: Style, v: Json, indent: nat, rest: Text)
    requires Printable(style, v) && Boundary(rest)
    ensures Lex(Render(style, v, indent) + rest) == Prepend(Tokens(v), Lex(rest))
    decreases v, 0
  {
    match v
    case Null => LexLiteral(NULL_TEXT, rest);
    case Bool(flag) => LexLiteral(if flag then TRUE_TEXT else FALSE_TEXT, rest);
    case Number(digits) => LexNumber(digits, rest);
    case Str(text) => LexQuoted(text, rest);
    case Arr(items) => LexArray(style, items, indent, rest);
    case Obj(fields) => LexObject(style, fields, indent, rest);
  }

  lemma LexEmptyArray(style: Style, indent: nat, rest: Text)
    ensures Lex(Render(style, Arr([]), indent) + rest) == Prepend(Tokens(Arr([])), Lex(rest))
  {
    LexEmpty(OPEN_BRACKET, CLOSE_BRACKET, rest);
    assert Tokens(Arr([])) == [OpenBracket] + [CloseBracket];
  }

  lemma LexEmptyObject(style: Style, indent: nat, rest: Text)
    ensures Lex(Render(style, Obj([]), indent) + rest) == Prepend(Tokens(Obj([])), Lex(rest))
  {
    LexEmpty(OPEN_BRACE, CLOSE_BRACE, rest);
    assert Tokens(Obj([])) == [OpenBrace] + [CloseBrace];
  }

  lemma LayoutsAreLayouts(style: Style, texts: seq<Text>, indent: nat)
    ensures IsLayout(ArrayLayout(style, texts, indent)) && IsLayout(ObjectLayout(style, indent))
  {
    StackedIsLayout(indent);
  }

  lemma {:induction false} LexArray(style: Style, items: seq<Json>, indent: nat, rest: Text)
    requires PrintableItems(style, items)
    ensures Lex(Render(style, Arr(items), indent) + rest) == Prepend(Tokens(Arr(items)), Lex(rest))
    decreases items, 2
  {
    if items == [] {
      LexEmptyArray(style, indent, rest);
    } else {
      var texts := RenderItems(style, items, indent + 2);
      LayoutsAreLayouts(style, texts, indent);
      LexLaidOutItems(style, items, indent, ArrayLayout(style, texts, indent), rest);
    }
  }

  lemma {:induction false} LexLaidOutItems(style: Style, items: seq<Json>, indent: nat, layout: Layout, rest: Text)
    requires items != [] && PrintableItems(style, items) && IsLayout(layout)
    ensures Lex(Enclose(OPEN_BRACKET, layout, RenderItems(style, items, indent + 2), CLOSE_BRACKET) + rest)
            == Prepend(Tokens(Arr(items)), Lex(rest))
    decreases items, 1
  {
    ClosingIsBoundary(layout.closing, CLOSE_BRACKET, rest);
    LexItems(style, items, indent + 2, layout, layout.closing + ([CLOSE_BRACKET] + rest));
    LexEnclose(OPEN_BRACKET, layout, RenderItems(style, items, indent + 2), CLOSE_BRACKET, ItemTokens(items), rest);
  }

  lemma {:induction false} LexObject(style: Style, fields: seq<Field>, indent: nat, rest: Text)
    requires PrintableFields(style, fields)
    ensures Lex(Render(style, Obj(fields), indent) + rest) == Prepend(Tokens(Obj(fields)), Lex(rest))
    decreases fields, 2
  {
    if fields == [] {
      LexEmptyObject(style, indent, rest);
    } else {
      LayoutsAreLayouts(style, [], indent);
      LexLaidOutFields(style, fields, indent, ObjectLayout(style, indent), rest);
    }
  }

  lemma {:induction false} LexLaidOutFields(style: Style, fields: seq<Field>, indent: nat, layout: Layout, rest: Text)
    requires fields != [] && PrintableFields(style, fields) && IsLayout(layout)
    ensures Lex(Enclose(OPEN_BRACE, layout, RenderFields(style, fields, indent + 2), CLOSE_BRACE) + rest)
            == Prepend(Tokens(Obj(fields)), Lex(rest))
    decreases fields, 1
  {
    ClosingIsBoundary(layout.closing, CLOSE_BRACE, rest);
    LexFields(style, fields, indent + 2, layout, layout.closing + ([CLOSE_BRACE] + rest));
    LexEnclose(OPEN_BRACE, layout, RenderFields(style, fields, indent + 2), CLOSE_BRACE, FieldTokens(fields), rest);
  }

  lemma LexEmpty(open: Unit, close: Unit, rest: Text)
    requires Punctuation(open).Some? && Punctuation(close).Some?
    ensures Lex([open, close] + rest) == Prepend([Punctuation(open).value] + [Punctuation(close).value], Lex(rest))
  {
    Reassociate([open], [close], rest);
    assert [open, close] == [open] + [close];
    LexPunctuation(open, [close] + rest);
    LexPunctuation(close, rest);
    PrependAgain([Punctuation(open).value], [Punctuation(close).value], Lex(rest));
  }

  lemma {:induction false} LexItems(style: Style, items: seq<Json>, indent: nat, layout: Layout, rest: Text)
    requires items != [] && PrintableItems(style, items)
    requires IsLayout(layout) && Boundary(rest)
    ensures Lex(Join(PrefixAll(layout.prefix, RenderItems(style, items, indent)), [COMMA] + layout.gap) + rest)
            == Prepend(ItemTokens(items), Lex(rest))
    decreases items, 0
  {
    var first := Render(style, items[0], indent);
    if |items| == 1 {
      LexValue(style, items[0], indent, rest);
      LexOnly(layout.prefix, first, rest, Tokens(items[0]));
    } else {
      var parts := PrefixAll(layout.prefix, RenderItems(style, items[1..], indent));
      var tail := Join(parts, [COMMA] + layout.gap);
      LexItems(style, items[1..], indent, layout, rest);
      LexValue(style, items[0], indent, [COMMA] + (layout.gap + (tail + rest)));
      LexFirst(layout.prefix, first, layout.gap, tail, rest, Tokens(items[0]), ItemTokens(items[1..]));
      JoinCons(layout.prefix + first, parts, [COMMA] + layout.gap);
    }
  }

  lemma JoinCons(first: Text, parts: seq<Text>, separator: Text)
    requires parts != []
    ensures Join([first] + parts, separator) == first + separator + Join(parts, separator)
  {
    assert ([first] + parts)[1..] == parts;
  }

  lemma {:induction false} LexField(style: Style, field: Field, indent: nat, rest: Text)
    requires Printable(style, field.value) && (style.Spec? ==> IsPlain(field.key)) && Boundary(rest)
    ensures Lex(KeyText(style, field.key) + AfterKey(style) + Render(style, field.value, indent) + rest)
            == Prepend([StringToken(field.key), Colon] + Tokens(field.value), Lex(rest))
    decreases field, 1
  {
    var key, after, value := KeyText(style, field.key), AfterKey(style), Render(style, field.value, indent);
    var k, t := [StringToken(field.key)], Tokens(field.value);
    Reassociate(key + after, value, rest);
    Reassociate(key, after, value + rest);
    LexKey(style, field.key, after + (value + rest));
    LexAfterKey(style, value + rest);
    LexValue(style, field.value, indent, rest);
    PrependAgain([Colon], t, Lex(rest));
    PrependAgain(k, [Colon] + t, Lex(rest));
    Reassociate(k, [Colon], t);
    assert k + [Colon] == [StringToken(field.key), Colon];
  }

  lemma LexAfterKey(style: Style, rest: Text)
    ensures Lex(AfterKey(style) + rest) == Prepend([Colon], Lex(rest))
  {
    if style.Compact? {
      LexPunctuation(COLON, rest);
    } else {
      assert [COLON, SPACE] + rest == [COLON] + ([SPACE] + rest);
      LexPunctuation(COLON, [SPACE] + rest);
      LexWhitespace([SPACE], rest);
    }
  }

  lemma {:induction false} LexFields(style: Style, fields: seq<Field>, indent: nat, layout: Layout, rest: Text)
    requires fields != [] && PrintableFields(style, fields)
    requires IsLayout(layout) && Boundary(rest)
    ensures Lex(Join(PrefixAll(layout.prefix, RenderFields(style, fields, indent)), [COMMA] + layout.gap) + rest)
            == Prepend(FieldTokens(fields), Lex(rest))
    decreases fields, 0
  {
    var first := KeyText(style, fields[0].key) + AfterKey(style) + Render(style, fields[0].value, indent);
    var tokens := [StringToken(fields[0].key), Colon] + Tokens(fields[0].value);
    if |fields| == 1 {
      LexField(style, fields[0], indent, rest);
      LexOnly(layout.prefix, first, rest, tokens);
    } else {
      var parts := PrefixAll(layout.prefix, RenderFields(style, fields[1..], indent));
      var tail := Join(parts, [COMMA] + layout.gap);
      LexFields(style, fields[1..], indent, layout, rest);
      LexField(style, fields[0], indent, [COMMA] + (layout.gap + (tail + rest)));
      LexFirst(layout.prefix, first, layout.gap, tail, rest, tokens, FieldTokens(fields[1..]));
      JoinCons(layout.prefix + first, parts, [COMMA] + layout.gap);
    }
  }

  // ----- reading the tokens of a value

  lemma {:induction false} ReadTokens(v: Json, rest: seq<Token>)
    ensures ReadValue(Tokens(v) + rest) == Some((v, rest))
    decreases v, 0
  {
    match v
    case Null => DropHead(NullToken, rest);
    case Bool(flag) => DropHead(if flag then TrueToken else FalseToken, rest);
    case Number(digits) => DropHead(NumberToken(digits), rest);
    case Str(text) => DropHead(StringToken(text), rest);
    case Arr(items) =>
      TokenParts(OpenBracket, ItemTokens(items), CloseBracket, rest);
      if items == [] {
        assert ItemTokens(items) + ([CloseBracket] + rest) == [CloseBracket] + rest;
        assert ([OpenBracket] + ([CloseBracket] + rest))[2..] == rest;
      } else {
        ReadItemTokens(items, rest);
        FirstToken(items[0]);
        assert ItemTokens(items)[0] == Tokens(items[0])[0];
      }
    case Obj(fields) =>
      TokenParts(OpenBrace, FieldTokens(fields), CloseBrace, rest);
      if fields == [] {
        assert FieldTokens(fields) + ([CloseBrace] + rest) == [CloseBrace] + rest;
        assert ([OpenBrace] + ([CloseBrace] + rest))[2..] == rest;
      } else {
        ReadFieldTokens(fields, rest);
        assert FieldTokens(fields)[0] == StringToken(fields[0].key);
      }
  }

  lemma TokenParts(open: Token, inner: seq<Token>, close: Token, rest: seq<Token>)
    ensures [open] + inner + [close] + rest == [open] + (inner + ([close] + rest))
    ensures ([open] + inner + [close] + rest)[1..] == inner + ([close] + rest)
  {}

  lemma FirstToken(v: Json)
    ensures Tokens(v) != [] && Tokens(v)[0] != CloseBracket
  {}

  lemma {:induction false} ReadItemTokens(items: seq<Json>, rest: seq<Token>)
    requires items != []
    ensures ReadItems(ItemTokens(items) + ([CloseBracket] + rest)) == Some((items, rest))
    decreases items
  {
    if |items| == 1 {
      ReadTokens(items[0], [CloseBracket] + rest);
      assert [items[0]] == items;
      DropHead(CloseBracket, rest);
    } else {
      var tail := ItemTokens(items[1..]) + ([CloseBracket] + rest);
      ReadItemTokens(items[1..], rest);
      ReadTokens(items[0], [Comma] + tail);
      ListParts(Tokens(items[0]), ItemTokens(items[1..]), [CloseBracket] + rest);
      DropHead(Comma, tail);
      assert [items[0]] + items[1..] == items;
    }
  }

  lemma ListParts(first: seq<Token>, others: seq<Token>, rest: seq<Token>)
    ensures first + [Comma] + others + rest == first + ([Comma] + (others + rest))
  {}

  lemma {:induction false} ReadFieldTokens(fields: seq<Field>, rest: seq<Token>)
    requires fields != []
    ensures ReadFields(FieldTokens(fields) + ([CloseBrace] + rest)) == Some((fields, rest))
    decreases fields
  {
    if |fields| == 1 {
      ReadOneField(fields[0], [CloseBrace] + rest);
      DropHead(CloseBrace, rest);
      assert [fields[0]] == fields;
    } else {
      var tail := FieldTokens(fields[1..]) + ([CloseBrace] + rest);
      ReadFieldTokens(fields[1..], rest);
      ReadOneField(fields[0], [Comma] + tail);
      ListParts([StringToken(fields[0].key), Colon] + Tokens(fields[0].value), FieldTokens(fields[1..]), [CloseBrace] + rest);
      DropHead(Comma, tail);
      assert [fields[0]] + fields[1..] == fields;
    }
  }

  lemma FieldParts(key: Token, inner: seq<Token>, rest: seq<Token>)
    ensures var ts := ([key, Colon] + inner) + rest;
            |ts| >= 2 && ts[0] == key && ts[1] == Colon && ts[2..] == inner + rest
  {}

  lemma ReadFieldFrom(ts: seq<Token>, field: Field, rest: seq<Token>)
    requires |ts| >= 2 && ts[0] == StringToken(field.key) && ts[1] == Colon
    requires ReadValue(ts[2..]) == Some((field.value, rest))
    ensures ReadFields(ts) == MoreFields(field, rest)
  {}

  lemma {:induction false} ReadOneField(field: Field, rest: seq<Token>)
    ensures ReadFields(([StringToken(field.key), Colon] + Tokens(field.value)) + rest) == MoreFields(field, rest)
    decreases field, 1
  {
    ReadTokens(field.value, rest);
    FieldParts(StringToken(field.key), Tokens(field.value), rest);
    ReadFieldFrom(([StringToken(field.key), Colon] + Tokens(field.value)) + rest, field, rest);
  }

  // ----- the theorems

  /** Parsing any of the three printed forms gives back the value, for every starting indent. */
  lemma ParseUndoesRender(style: Style, v: Json, indent: nat)
    requires Printable(style, v)
    ensures Parse(Render(style, v, indent)) == Some(v)
  {
    LexValue(style, v, indent, []);
    assert Render(style, v, indent) + [] == Render(style, v, indent);
    ReadTokens(v, []);
    assert Tokens(v) + [] == Tokens(v);
  }
}
