/** White space outside strings is all that distinguishes one printed layout from another. */
module JsonStrip {
  import opened Sequences
  import opened Utf16
  import opened JsonText
  import opened JsonPrinter
  import opened JsonLexing
  import opened JsonRoundTrip

  /** Drops the white space that is not inside a string. */
  function Strip(t: Text): Text
    decreases |t|
  {
    if t == [] then []
    else if t[0] == QUOTE then [QUOTE] + StripString(t[1..])
    else if IsWhitespace(t[0]) then Strip(t[1..])
    else [t[0]] + Strip(t[1..])
  }

  /** The same from inside a string, where an escaped quotation mark does not end it. */
  function StripString(t: Text): Text
    decreases |t|
  {
    if t == [] then []
    else if t[0] == QUOTE then [QUOTE] + Strip(t[1..])
    else if t[0] == BACKSLASH && |t| > 1 then [t[0], t[1]] + StripString(t[2..])
    else [t[0]] + StripString(t[1..])
  }

  /** Every key is its own quoted form. */
  ghost predicate EscapeFreeKeys(v: Json)
    decreases v
  {
    match v
    case Arr(items) => forall i :: 0 <= i < |items| ==> EscapeFreeKeys(items[i])
    case Obj(fields) => forall i :: 0 <= i < |fields| ==>
        QuoteBody(fields[i].key) == fields[i].key && EscapeFreeKeys(fields[i].value)
    case _ => true
  }

  ghost predicate Strippable(style: Style, v: Json) {
    IsJson(v) && (style.Spec? ==> EscapeFreeKeys(v))
  }

  ghost predicate StrippableItems(style: Style, items: seq<Json>) {
    forall i :: 0 <= i < |items| ==> Strippable(style, items[i])
  }

  ghost predicate StrippableFields(style: Style, fields: seq<Field>) {
    forall i :: 0 <= i < |fields| ==>
      Strippable(style, fields[i].value) && (style.Spec? ==> QuoteBody(fields[i].key) == fields[i].key)
  }

  /** The scanner gives the text kept from the front and goes on with the rest. */
  ghost predicate Strips(front: Text, kept: Text, rest: Text) {
    Strip(front + rest) == kept + Strip(rest)
  }

  lemma StripsInSequence(a: Text, keptA: Text, b: Text, keptB: Text, rest: Text)
    requires Strips(a, keptA, b + rest) && Strips(b, keptB, rest)
    ensures Strips(a + b, keptA + keptB, rest)
  {
    Reassociate(a, b, rest);
    Reassociate(keptA, keptB, Strip(rest));
  }

  lemma {:induction false} StripWhitespace(ws: Text, rest: Text)
    requires AllWhitespace(ws)
    ensures Strips(ws, [], rest)
  {
    if ws == [] {
      assert ws + rest == rest;
    } else {
      StripWhitespace(ws[1..], rest);
      assert (ws + rest)[1..] == ws[1..] + rest;
    }
    assert [] + Strip(rest) == Strip(rest);
  }

  predicate IsSolid(t: Text) {
    forall i :: 0 <= i < |t| ==> t[i] != QUOTE && !IsWhitespace(t[i])
  }

  lemma {:induction false} StripSolid(t: Text, rest: Text)
    requires IsSolid(t)
    ensures Strips(t, t, rest)
  {
    if t == [] {
      assert t + rest == rest && t + Strip(rest) == Strip(rest);
    } else {
      StripSolid(t[1..], rest);
      assert (t + rest)[1..] == t[1..] + rest;
      assert [t[0]] + (t[1..] + Strip(rest)) == t + Strip(rest);
    }
  }

  // ----- strings

  lemma StripEscapePair(u: Unit, rest: Text)
    ensures StripString([BACKSLASH, u] + rest) == [BACKSLASH, u] + StripString(rest)
  {
    assert ([BACKSLASH, u] + rest)[2..] == rest;
  }

  lemma {:induction false} StripPlain(t: Text, rest: Text)
    requires forall i :: 0 <= i < |t| ==> t[i] != QUOTE && t[i] != BACKSLASH
    ensures StripString(t + rest) == t + StripString(rest)
  {
    if t == [] {
      assert t + rest == rest && t + StripString(rest) == StripString(rest);
    } else {
      StripPlain(t[1..], rest);
      assert (t + rest)[1..] == t[1..] + rest;
      assert [t[0]] + (t[1..] + StripString(rest)) == t + StripString(rest);
    }
  }

  lemma StripHead(s: Text, rest: Text)
    requires s != []
    ensures StripString(QuoteHead(s).0 + rest) == QuoteHead(s).0 + StripString(rest)
  {
    var u, head := s[0], QuoteHead(s).0;
    if head[0] == BACKSLASH {
      StripEscapePair(head[1], head[2..] + rest);
      StripPlain(head[2..], rest);
      assert head + rest == [BACKSLASH, head[1]] + (head[2..] + rest);
      assert head + StripString(rest) == [BACKSLASH, head[1]] + (head[2..] + StripString(rest));
    } else {
      StripPlain(head, rest);
    }
  }

  lemma {:induction false} StripBody(s: Text, rest: Text)
    ensures StripString(QuoteBody(s) + ([QUOTE] + rest)) == QuoteBody(s) + ([QUOTE] + Strip(rest))
    decreases |s|
  {
    if s == [] {
      assert [] + ([QUOTE] + rest) == [QUOTE] + rest;
      DropHead(QUOTE, rest);
    } else {
      var (head, left) := QuoteHead(s);
      StripBody(left, rest);
      Reassociate(head, QuoteBody(left), [QUOTE] + rest);
      StripHead(s, QuoteBody(left) + ([QUOTE] + rest));
      Reassociate(head, QuoteBody(left), [QUOTE] + Strip(rest));
    }
  }

  lemma StripQuoted(s: Text, rest: Text)
    ensures Strips(Quote(s), Quote(s), rest)
  {
    QuotedParts(QuoteBody(s), rest);
    QuotedParts(QuoteBody(s), Strip(rest));
    StripBody(s, rest);
    DropHead(QUOTE, QuoteBody(s) + ([QUOTE] + rest));
  }

  lemma QuotedParts(body: Text, rest: Text)
    ensures [QUOTE] + body + [QUOTE] + rest == [QUOTE] + (body + ([QUOTE] + rest))
  {}

  // ----- values

  lemma StripEnclosed(open: Unit, opening: Text, joined: Text, kept: Text, closing: Text, close: Unit, rest: Text)
    requires IsSolid([open]) && IsSolid([close]) && AllWhitespace(opening) && AllWhitespace(closing)
    requires Strips(joined, kept, closing + ([close] + rest))
    ensures Strips([open] + opening + joined + closing + [close], [open] + [] + kept + [] + [close], rest)
  {
    StripSolid([close], rest);
    StripWhitespace(closing, [close] + rest);
    StripsInSequence(closing, [], [close], [close], rest);
    Reassociate(closing, [close], rest);
    StripsInSequence(joined, kept, closing + [close], [] + [close], rest);
    StripWhitespace(opening, joined + (closing + [close]) + rest);
    StripsInSequence(opening, [], joined + (closing + [close]), kept + ([] + [close]), rest);
    StripSolid([open], opening + (joined + (closing + [close])) + rest);
    StripsInSequence([open], [open], opening + (joined + (closing + [close])), [] + (kept + ([] + [close])), rest);
    EnclosedText(open, opening, joined, closing, close);
    EnclosedText(open, [], kept, [], close);
  }

  lemma EnclosedText(open: Unit, opening: Text, joined: Text, closing: Text, close: Unit)
    ensures [open] + opening + joined + closing + [close] == [open] + (opening + (joined + (closing + [close])))
  {}

  lemma StripFirst(prefix: Text, first: Text, kept: Text, gap: Text, tail: Text, keptTail: Text, rest: Text)
    requires AllWhitespace(prefix) && AllWhitespace(gap)
    requires Strips(first, kept, [COMMA] + gap + tail + rest)
    requires Strips(tail, keptTail, rest)
    ensures Strips((prefix + first) + ([COMMA] + gap) + tail, ([] + kept) + ([COMMA] + []) + keptTail, rest)
  {
    StripWhitespace(gap, tail + rest);
    StripSolid([COMMA], gap + (tail + rest));
    StripsInSequence([COMMA], [COMMA], gap, [], tail + rest);
    StripsInSequence([COMMA] + gap, [COMMA] + [], tail, keptTail, rest);
    StripWhitespace(prefix, first + ([COMMA] + gap + tail + rest));
    StripsInSequence(prefix, [], first, kept, [COMMA] + gap + tail + rest);
    StripsInSequence(prefix + first, [] + kept, [COMMA] + gap + tail, [COMMA] + [] + keptTail, rest);
    Reassociate(prefix + first, [COMMA] + gap, tail);
    Reassociate([] + kept, [COMMA] + [], keptTail);
  }

  lemma StripOnly(prefix: Text, first: Text, kept: Text, rest: Text)
    requires AllWhitespace(prefix) && Strips(first, kept, rest)
    ensures Strips(prefix + first, [] + kept, rest)
  {
    StripWhitespace(prefix, first + rest);
    StripsInSequence(prefix, [], first, kept, rest);
  }

  /** What is left of any layout is the compact form. */
  lemma {:induction false} StripValue(style: Style, v: Json, indent: nat, at: nat, rest: Text)
    requires Strippable(style, v)
    ensures Strips(Render(style, v, indent), Render(Compact, v, at), rest)
    decreases v, 0
  {
    match v
    case Null => StripSolid(NULL_TEXT, rest);
    case Bool(flag) => StripSolid(if flag then TRUE_TEXT else FALSE_TEXT, rest);
    case Number(digits) => NumberUnits(digits); StripSolid(digits, rest);
    case Str(text) => StripQuoted(text, rest);
    case Arr(items) => StripArray(style, items, indent, at, rest);
    case Obj(fields) => StripObject(style, fields, indent, at, rest);
  }

  lemma {:induction false} StripArray(style: Style, items: seq<Json>, indent: nat, at: nat, rest: Text)
    requires StrippableItems(style, items)
    ensures Strips(Render(style, Arr(items), indent), Render(Compact, Arr(items), at), rest)
    decreases items, 1
  {
    if items == [] {
      StripSolid([OPEN_BRACKET, CLOSE_BRACKET], rest);
    } else {
      var texts := RenderItems(style, items, indent + 2);
      var layout := ArrayLayout(style, texts, indent);
      StackedIsLayout(indent);
      StripItems(style, items, indent + 2, at + 2, layout, layout.closing + ([CLOSE_BRACKET] + rest));
      StripEnclosed(OPEN_BRACKET, layout.opening, Join(PrefixAll(layout.prefix, texts), [COMMA] + layout.gap),
                    Join(PrefixAll([], RenderItems(Compact, items, at + 2)), [COMMA] + []),
                    layout.closing, CLOSE_BRACKET, rest);
    }
  }

  lemma {:induction false} StripObject(style: Style, fields: seq<Field>, indent: nat, at: nat, rest: Text)
    requires StrippableFields(style, fields)
    ensures Strips(Render(style, Obj(fields), indent), Render(Compact, Obj(fields), at), rest)
    decreases fields, 1
  {
    if fields == [] {
      StripSolid([OPEN_BRACE, CLOSE_BRACE], rest);
    } else {
      var texts := RenderFields(style, fields, indent + 2);
      var layout := ObjectLayout(style, indent);
      StackedIsLayout(indent);
      StripFields(style, fields, indent + 2, at + 2, layout, layout.closing + ([CLOSE_BRACE] + rest));
      StripEnclosed(OPEN_BRACE, layout.opening, Join(PrefixAll(layout.prefix, texts), [COMMA] + layout.gap),
                    Join(PrefixAll([], RenderFields(Compact, fields, at + 2)), [COMMA] + []),
                    layout.closing, CLOSE_BRACE, rest);
    }
  }

  lemma {:induction false} StripItems(style: Style, items: seq<Json>, indent: nat, at: nat, layout: Layout, rest: Text)
    requires items != [] && StrippableItems(style, items) && IsLayout(layout)
    ensures Strips(Join(PrefixAll(layout.prefix, RenderItems(style, items, indent)), [COMMA] + layout.gap),
                   Join(PrefixAll([], RenderItems(Compact, items, at)), [COMMA] + []), rest)
    decreases items, 0
  {
    var first, kept := Render(style, items[0], indent), Render(Compact, items[0], at);
    if |items| == 1 {
      StripValue(style, items[0], indent, at, rest);
      StripOnly(layout.prefix, first, kept, rest);
    } else {
      var parts := PrefixAll(layout.prefix, RenderItems(style, items[1..], indent));
      var keptParts := PrefixAll([], RenderItems(Compact, items[1..], at));
      var tail, keptTail := Join(parts, [COMMA] + layout.gap), Join(keptParts, [COMMA] + []);
      StripItems(style, items[1..], indent, at, layout, rest);
      StripValue(style, items[0], indent, at, [COMMA] + layout.gap + tail + rest);
      StripFirst(layout.prefix, first, kept, layout.gap, tail, keptTail, rest);
      JoinCons(layout.prefix + first, parts, [COMMA] + layout.gap);
      JoinCons([] + kept, keptParts, [COMMA] + []);
    }
  }

  lemma {:induction false} StripField(style: Style, field: Field, indent: nat, at: nat, rest: Text)
    requires Strippable(style, field.value) && (style.Spec? ==> QuoteBody(field.key) == field.key)
    ensures Strips(KeyText(style, field.key) + AfterKey(style) + Render(style, field.value, indent),
                   KeyText(Compact, field.key) + AfterKey(Compact) + Render(Compact, field.value, at), rest)
    decreases field, 1
  {
    var key, after, value := KeyText(style, field.key), AfterKey(style), Render(style, field.value, indent);
    StripValue(style, field.value, indent, at, rest);
    StripQuoted(field.key, after + (value + rest));
    StripColon(style, value + rest);
    StripsInSequence(key, key, after, [COLON], value + rest);
    StripsInSequence(key + after, key + [COLON], value, Render(Compact, field.value, at), rest);
  }

  lemma StripColon(style: Style, rest: Text)
    ensures Strips(AfterKey(style), [COLON], rest)
  {
    StripSolid([COLON], rest);
    if !style.Compact? {
      StripSolid([COLON], [SPACE] + rest);
      StripWhitespace([SPACE], rest);
      StripsInSequence([COLON], [COLON], [SPACE], [], rest);
      assert [COLON] + [SPACE] == AfterKey(style) && [COLON] + [] == [COLON];
    }
  }

  lemma {:induction false} StripFields(style: Style, fields: seq<Field>, indent: nat, at: nat, layout: Layout, rest: Text)
    requires fields != [] && StrippableFields(style, fields) && IsLayout(layout)
    ensures Strips(Join(PrefixAll(layout.prefix, RenderFields(style, fields, indent)), [COMMA] + layout.gap),
                   Join(PrefixAll([], RenderFields(Compact, fields, at)), [COMMA] + []), rest)
    decreases fields, 0
  {
    var first := KeyText(style, fields[0].key) + AfterKey(style) + Render(style, fields[0].value, indent);
    var kept := KeyText(Compact, fields[0].key) + AfterKey(Compact) + Render(Compact, fields[0].value, at);
    if |fields| == 1 {
      StripField(style, fields[0], indent, at, rest);
      StripOnly(layout.prefix, first, kept, rest);
    } else {
      var parts := PrefixAll(layout.prefix, RenderFields(style, fields[1..], indent));
      var keptParts := PrefixAll([], RenderFields(Compact, fields[1..], at));
      var tail, keptTail := Join(parts, [COMMA] + layout.gap), Join(keptParts, [COMMA] + []);
      StripFields(style, fields[1..], indent, at, layout, rest);
      StripField(style, fields[0], indent, at, [COMMA] + layout.gap + tail + rest);
      StripFirst(layout.prefix, first, kept, layout.gap, tail, keptTail, rest);
      JoinCons(layout.prefix + first, parts, [COMMA] + layout.gap);
      JoinCons([] + kept, keptParts, [COMMA] + []);
    }
  }

  // ----- a key that has an escape shows

  /** The texts differ at some position of both. */
  ghost predicate Diverge(a: Text, b: Text) {
    exists i :: 0 <= i < |a| && i < |b| && a[i] != b[i]
  }

  lemma DivergeAfter(front: Text, a: Text, b: Text)
    requires Diverge(a, b)
    ensures Diverge(front + a, front + b)
  {
    var i :| 0 <= i < |a| && i < |b| && a[i] != b[i];
    assert (front + a)[|front| + i] == a[i] && (front + b)[|front| + i] == b[i];
  }

  lemma DivergeBefore(a: Text, b: Text, more: Text)
    requires Diverge(a, b)
    ensures Diverge(a, b + more)
  {
    var i :| 0 <= i < |a| && i < |b| && a[i] != b[i];
    assert (b + more)[i] == b[i];
  }

  lemma DivergeAt(a: Text, b: Text, i: nat)
    requires i < |a| && i < |b| && a[i] != b[i]
    ensures Diverge(a, b)
  {}

  lemma StringKeepsFront(key: Text, rest: Text)
    ensures var t := StripString(key + ([QUOTE] + rest));
            && t != [] && (key != [] ==> t[0] == key[0])
            && (key == [] ==> t[0] == QUOTE)
            && (key != [] && key[0] == BACKSLASH ==> |t| > 1 && t[1] == if |key| > 1 then key[1] else QUOTE)
  {
    var all := key + ([QUOTE] + rest);
    assert all[0] == if key != [] then key[0] else QUOTE;
    assert key != [] ==> all[1] == if |key| > 1 then key[1] else QUOTE;
  }

  lemma StringDropsPair(key: Text, rest: Text)
    requires |key| > 1 && key[0] == BACKSLASH
    ensures StripString(key + ([QUOTE] + rest)) == [BACKSLASH, key[1]] + StripString(key[2..] + ([QUOTE] + rest))
  {
    assert key + ([QUOTE] + rest) == [BACKSLASH, key[1]] + (key[2..] + ([QUOTE] + rest));
    StripEscapePair(key[1], key[2..] + ([QUOTE] + rest));
  }

  predicate AllBackslashes(t: Text) {
    forall i :: 0 <= i < |t| ==> t[i] == BACKSLASH
  }

  /** A quoted text is ahead by at least one backslash and stays so to the end of the run. */
  lemma {:induction false} AheadByBackslashes(ahead: Text, key: Text, rest: Text)
    requires ahead != [] && AllBackslashes(ahead)
    ensures Diverge(StripString(key + ([QUOTE] + rest)), ahead + QuoteBody(key))
    decreases |key|
  {
    var t, quoted := StripString(key + ([QUOTE] + rest)), ahead + QuoteBody(key);
    StringKeepsFront(key, rest);
    if key == [] || key[0] != BACKSLASH {
      DivergeAt(t, quoted, 0);
    } else {
      assert QuoteBody(key) == [BACKSLASH, BACKSLASH] + QuoteBody(key[1..]);
      assert quoted[1] == BACKSLASH;
      if |key| == 1 || key[1] != BACKSLASH {
        DivergeAt(t, quoted, 1);
      } else {
        var longer := ahead + [BACKSLASH, BACKSLASH];
        StringDropsPair(key, rest);
        assert QuoteBody(key[1..]) == [BACKSLASH, BACKSLASH] + QuoteBody(key[1..][1..]);
        assert key[1..][1..] == key[2..];
        AheadByBackslashes(longer, key[2..], rest);
        DivergeAfter([BACKSLASH, BACKSLASH], StripString(key[2..] + ([QUOTE] + rest)), longer + QuoteBody(key[2..]));
        RunOfBackslashes(ahead, QuoteBody(key[2..]));
      }
    }
  }

  lemma RunOfBackslashes(ahead: Text, rest: Text)
    requires AllBackslashes(ahead)
    ensures ahead + ([BACKSLASH, BACKSLASH] + ([BACKSLASH, BACKSLASH] + rest))
            == [BACKSLASH, BACKSLASH] + ((ahead + [BACKSLASH, BACKSLASH]) + rest)
  {
    assert ahead + [BACKSLASH, BACKSLASH] == [BACKSLASH, BACKSLASH] + ahead;
  }

  lemma EscapeShows(key: Text, rest: Text)
    requires key != [] && key[0] != BACKSLASH && QuoteHead(key).0[0] == BACKSLASH
    ensures Diverge(StripString(key + ([QUOTE] + rest)), QuoteBody(key))
  {
    StringKeepsFront(key, rest);
    DivergeAt(StripString(key + ([QUOTE] + rest)), QuoteBody(key), 0);
  }

  lemma BackslashShows(key: Text, rest: Text)
    requires key != [] && key[0] == BACKSLASH
    ensures Diverge(StripString(key + ([QUOTE] + rest)), QuoteBody(key))
  {
    StringKeepsFront(key, rest);
    assert QuoteBody(key) == [BACKSLASH, BACKSLASH] + QuoteBody(key[1..]);
    if |key| == 1 || key[1] != BACKSLASH {
      DivergeAt(StripString(key + ([QUOTE] + rest)), QuoteBody(key), 1);
    } else {
      StringDropsPair(key, rest);
      assert QuoteBody(key[1..]) == [BACKSLASH, BACKSLASH] + QuoteBody(key[1..][1..]);
      assert key[1..][1..] == key[2..];
      AheadByBackslashes([BACKSLASH, BACKSLASH], key[2..], rest);
      DivergeAfter([BACKSLASH, BACKSLASH], StripString(key[2..] + ([QUOTE] + rest)), [BACKSLASH, BACKSLASH] + QuoteBody(key[2..]));
    }
  }

  /** A key that is not its own quoted form differs from it after stripping. */
  lemma {:induction false} BadKeyShows(key: Text, rest: Text)
    requires QuoteBody(key) != key
    ensures Diverge(StripString(key + ([QUOTE] + rest)), QuoteBody(key))
    decreases |key|
  {
    var (head, left) := QuoteHead(key);
    if key[0] == BACKSLASH {
      BackslashShows(key, rest);
    } else if head[0] == BACKSLASH {
      EscapeShows(key, rest);
    } else {
      assert key == head + left;
      BadKeyShows(left, rest);
      StripPlain(head, left + ([QUOTE] + rest));
      Reassociate(head, left, [QUOTE] + rest);
      DivergeAfter(head, StripString(left + ([QUOTE] + rest)), QuoteBody(left));
    }
  }

  lemma StripGivesFront(front: Text, kept: Text, rest: Text, b: Text)
    requires Strips(front, kept, rest) && Diverge(Strip(rest), b)
    ensures Diverge(Strip(front + rest), kept + b)
  {
    DivergeAfter(kept, Strip(rest), b);
  }

  lemma DivergeEnclosed(open: Unit, opening: Text, joined: Text, kept: Text, closing: Text, close: Unit, rest: Text)
    requires IsSolid([open]) && AllWhitespace(opening)
    requires Diverge(Strip(joined + (closing + ([close] + rest))), kept)
    ensures Diverge(Strip([open] + opening + joined + closing + [close] + rest), [open] + [] + kept + [] + [close])
  {
    var inner := joined + (closing + ([close] + rest));
    EnclosedParts(open, opening, joined, closing, close, rest);
    StripWhitespace(opening, inner);
    StripGivesFront(opening, [], inner, kept);
    StripSolid([open], opening + inner);
    StripGivesFront([open], [open], opening + inner, [] + kept);
    DivergeClosed(Strip([open] + (opening + inner)), open, kept, close);
  }

  lemma DivergeClosed(a: Text, open: Unit, kept: Text, close: Unit)
    requires Diverge(a, [open] + ([] + kept))
    ensures Diverge(a, [open] + [] + kept + [] + [close])
  {
    DivergeBefore(a, [open] + ([] + kept), [close]);
    assert [open] + [] + kept + [] + [close] == [open] + ([] + kept) + [close];
  }

  lemma DivergeFirst(prefix: Text, first: Text, kept: Text, gap: Text, tail: Text, keptTail: Text, rest: Text)
    requires AllWhitespace(prefix)
    requires Diverge(Strip(first + ([COMMA] + (gap + (tail + rest)))), kept)
    ensures Diverge(Strip((prefix + first) + ([COMMA] + gap) + tail + rest), ([] + kept) + ([COMMA] + []) + keptTail)
  {
    var inner := first + ([COMMA] + (gap + (tail + rest)));
    JoinedParts(prefix, first, gap, tail, rest);
    StripWhitespace(prefix, inner);
    StripGivesFront(prefix, [], inner, kept);
    DivergeBefore(Strip(prefix + inner), [] + kept, ([COMMA] + []) + keptTail);
    Reassociate([] + kept, [COMMA] + [], keptTail);
  }

  lemma DivergeLater(prefix: Text, first: Text, kept: Text, gap: Text, tail: Text, keptTail: Text, rest: Text)
    requires AllWhitespace(prefix) && AllWhitespace(gap)
    requires Strips(first, kept, [COMMA] + (gap + (tail + rest)))
    requires Diverge(Strip(tail + rest), keptTail)
    ensures Diverge(Strip((prefix + first) + ([COMMA] + gap) + tail + rest), ([] + kept) + ([COMMA] + []) + keptTail)
  {
    JoinedParts(prefix, first, gap, tail, rest);
    StripWhitespace(gap, tail + rest);
    StripGivesFront(gap, [], tail + rest, keptTail);
    StripSolid([COMMA], gap + (tail + rest));
    StripGivesFront([COMMA], [COMMA], gap + (tail + rest), [] + keptTail);
    StripGivesFront(first, kept, [COMMA] + (gap + (tail + rest)), [COMMA] + ([] + keptTail));
    StripWhitespace(prefix, first + ([COMMA] + (gap + (tail + rest))));
    StripGivesFront(prefix, [], first + ([COMMA] + (gap + (tail + rest))), kept + ([COMMA] + ([] + keptTail)));
    Reassociate([COMMA], [], keptTail);
    Reassociate([], kept, ([COMMA] + []) + keptTail);
    Reassociate([] + kept, [COMMA] + [], keptTail);
  }

  lemma DivergeOnly(prefix: Text, first: Text, kept: Text, rest: Text)
    requires AllWhitespace(prefix) && Diverge(Strip(first + rest), kept)
    ensures Diverge(Strip((prefix + first) + rest), [] + kept)
  {
    Reassociate(prefix, first, rest);
    StripWhitespace(prefix, first + rest);
    StripGivesFront(prefix, [], first + rest, kept);
  }

  ghost predicate ItemsAreJson(items: seq<Json>) {
    forall i :: 0 <= i < |items| ==> IsJson(items[i])
  }

  ghost predicate FieldsAreJson(fields: seq<Field>) {
    forall i :: 0 <= i < |fields| ==> IsJson(fields[i].value)
  }

  lemma {:induction false} BadKeyShowsInValue(v: Json, indent: nat, at: nat, rest: Text)
    requires IsJson(v) && !EscapeFreeKeys(v)
    ensures Diverge(Strip(Render(Spec, v, indent) + rest), Render(Compact, v, at))
    decreases v, 0
  {
    match v
    case Arr(items) =>
      var texts := RenderItems(Spec, items, indent + 2);
      LayoutsAreLayouts(Spec, texts, indent);
      BadKeyShowsInArray(items, indent, at, ArrayLayout(Spec, texts, indent), rest);
    case Obj(fields) => BadKeyShowsInObject(fields, indent, at, rest);
    case _ =>
  }

  lemma {:induction false} BadKeyShowsInArray(items: seq<Json>, indent: nat, at: nat, layout: Layout, rest: Text)
    requires ItemsAreJson(items) && !StrippableItems(Spec, items) && IsLayout(layout)
    ensures Diverge(Strip(Enclose(OPEN_BRACKET, layout, RenderItems(Spec, items, indent + 2), CLOSE_BRACKET) + rest),
                    Render(Compact, Arr(items), at))
    decreases items, 1
  {
    BadKeyShowsInItems(items, indent + 2, at + 2, layout, layout.closing + ([CLOSE_BRACKET] + rest));
    DivergeEnclosed(OPEN_BRACKET, layout.opening,
                    Join(PrefixAll(layout.prefix, RenderItems(Spec, items, indent + 2)), [COMMA] + layout.gap),
                    Join(PrefixAll([], RenderItems(Compact, items, at + 2)), [COMMA] + []),
                    layout.closing, CLOSE_BRACKET, rest);
  }

  lemma {:induction false} BadKeyShowsInObject(fields: seq<Field>, indent: nat, at: nat, rest: Text)
    requires FieldsAreJson(fields) && !StrippableFields(Spec, fields)
    ensures Diverge(Strip(Render(Spec, Obj(fields), indent) + rest), Render(Compact, Obj(fields), at))
    decreases fields, 1
  {
    var layout := ObjectLayout(Spec, indent);
    StackedIsLayout(indent);
    BadKeyShowsInFields(fields, indent + 2, at + 2, layout, layout.closing + ([CLOSE_BRACE] + rest));
    DivergeEnclosed(OPEN_BRACE, layout.opening,
                    Join(PrefixAll(layout.prefix, RenderFields(Spec, fields, indent + 2)), [COMMA] + layout.gap),
                    Join(PrefixAll([], RenderFields(Compact, fields, at + 2)), [COMMA] + []),
                    layout.closing, CLOSE_BRACE, rest);
  }

  lemma {:induction false} BadKeyShowsInItems(items: seq<Json>, indent: nat, at: nat, layout: Layout, rest: Text)
    requires ItemsAreJson(items) && !StrippableItems(Spec, items) && IsLayout(layout)
    ensures Diverge(Strip(Join(PrefixAll(layout.prefix, RenderItems(Spec, items, indent)), [COMMA] + layout.gap) + rest),
                    Join(PrefixAll([], RenderItems(Compact, items, at)), [COMMA] + []))
    decreases items, 0
  {
    var first, kept := Render(Spec, items[0], indent), Render(Compact, items[0], at);
    if |items| == 1 {
      BadKeyShowsInValue(items[0], indent, at, rest);
      DivergeOnly(layout.prefix, first, kept, rest);
    } else {
      var parts := PrefixAll(layout.prefix, RenderItems(Spec, items[1..], indent));
      var keptParts := PrefixAll([], RenderItems(Compact, items[1..], at));
      var tail, keptTail := Join(parts, [COMMA] + layout.gap), Join(keptParts, [COMMA] + []);
      if EscapeFreeKeys(items[0]) {
        StripValue(Spec, items[0], indent, at, [COMMA] + (layout.gap + (tail + rest)));
        BadKeyShowsInItems(items[1..], indent, at, layout, rest);
        DivergeLater(layout.prefix, first, kept, layout.gap, tail, keptTail, rest);
      } else {
        BadKeyShowsInValue(items[0], indent, at, [COMMA] + (layout.gap + (tail + rest)));
        DivergeFirst(layout.prefix, first, kept, layout.gap, tail, keptTail, rest);
      }
      JoinCons(layout.prefix + first, parts, [COMMA] + layout.gap);
      JoinCons([] + kept, keptParts, [COMMA] + []);
    }
  }

  lemma BadKeyShowsInKey(key: Text, more: Text, keptMore: Text)
    requires QuoteBody(key) != key
    ensures Diverge(Strip(KeyText(Spec, key) + more), KeyText(Compact, key) + keptMore)
  {
    var body := key + ([QUOTE] + more);
    QuotedParts(key, more);
    DropHead(QUOTE, body);
    BadKeyShows(key, more);
    DivergeAfter([QUOTE], StripString(body), QuoteBody(key));
    DivergeBefore([QUOTE] + StripString(body), [QUOTE] + QuoteBody(key), [QUOTE] + keptMore);
    Reassociate([QUOTE] + QuoteBody(key), [QUOTE], keptMore);
  }

  lemma {:induction false} BadKeyShowsInField(field: Field, indent: nat, at: nat, rest: Text)
    requires IsJson(field.value) && !(QuoteBody(field.key) == field.key && EscapeFreeKeys(field.value))
    ensures Diverge(Strip(KeyText(Spec, field.key) + AfterKey(Spec) + Render(Spec, field.value, indent) + rest),
                    KeyText(Compact, field.key) + AfterKey(Compact) + Render(Compact, field.value, at))
    decreases field, 1
  {
    var key, after, value := KeyText(Spec, field.key), AfterKey(Spec), Render(Spec, field.value, indent);
    var kept := Render(Compact, field.value, at);
    Reassociate(key + after, value, rest);
    Reassociate(key, after, value + rest);
    Reassociate(KeyText(Compact, field.key), [COLON], kept);
    if QuoteBody(field.key) == field.key {
      BadKeyShowsInValue(field.value, indent, at, rest);
      StripColon(Spec, value + rest);
      StripGivesFront(after, [COLON], value + rest, kept);
      StripQuoted(field.key, after + (value + rest));
      StripGivesFront(key, key, after + (value + rest), [COLON] + kept);
    } else {
      BadKeyShowsInKey(field.key, after + (value + rest), [COLON] + kept);
    }
  }

  lemma {:induction false} BadKeyShowsInFields(fields: seq<Field>, indent: nat, at: nat, layout: Layout, rest: Text)
    requires FieldsAreJson(fields) && !StrippableFields(Spec, fields) && IsLayout(layout)
    ensures Diverge(Strip(Join(PrefixAll(layout.prefix, RenderFields(Spec, fields, indent)), [COMMA] + layout.gap) + rest),
                    Join(PrefixAll([], RenderFields(Compact, fields, at)), [COMMA] + []))
    decreases fields, 0
  {
    var first := KeyText(Spec, fields[0].key) + AfterKey(Spec) + Render(Spec, fields[0].value, indent);
    var kept := KeyText(Compact, fields[0].key) + AfterKey(Compact) + Render(Compact, fields[0].value, at);
    if |fields| == 1 {
      BadKeyShowsInField(fields[0], indent, at, rest);
      DivergeOnly(layout.prefix, first, kept, rest);
    } else {
      var parts := PrefixAll(layout.prefix, RenderFields(Spec, fields[1..], indent));
      var keptParts := PrefixAll([], RenderFields(Compact, fields[1..], at));
      var tail, keptTail := Join(parts, [COMMA] + layout.gap), Join(keptParts, [COMMA] + []);
      if QuoteBody(fields[0].key) == fields[0].key && EscapeFreeKeys(fields[0].value) {
        StripField(Spec, fields[0], indent, at, [COMMA] + (layout.gap + (tail + rest)));
        BadKeyShowsInFields(fields[1..], indent, at, layout, rest);
        DivergeLater(layout.prefix, first, kept, layout.gap, tail, keptTail, rest);
      } else {
        BadKeyShowsInField(fields[0], indent, at, [COMMA] + (layout.gap + (tail + rest)));
        DivergeFirst(layout.prefix, first, kept, layout.gap, tail, keptTail, rest);
      }
      JoinCons(layout.prefix + first, parts, [COMMA] + layout.gap);
      JoinCons([] + kept, keptParts, [COMMA] + []);
    }
  }

  /** Without the white space outside strings, the printed specification is its compact JSON, whatever
      the starting indent, exactly when no key has an escape in JSON.stringify. */
  lemma StrippedIsCompactExactlyWhen(v: Json, indent: nat)
    requires IsJson(v)
    ensures Strip(FormatJson(v, indent)) == Render(Compact, v, 0) <==> EscapeFreeKeys(v)
  {
    assert FormatJson(v, indent) + [] == FormatJson(v, indent);
    if EscapeFreeKeys(v) {
      StripValue(Spec, v, indent, 0, []);
      assert Render(Compact, v, 0) + [] == Render(Compact, v, 0);
    } else {
      BadKeyShowsInValue(v, indent, 0, []);
    }
  }
}
