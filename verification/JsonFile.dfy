/** The specification on disk: text is written as UTF-8 and read back, which replaces every surrogate
    that has no partner.  Only keys can hold one, because strings are quoted by JSON.stringify. */
module JsonFile {
  import opened Options
  import opened Sequences
  import opened Utf16
  import opened JsonText
  import opened JsonPrinter
  import opened JsonLexing
  import opened JsonKeys
  import opened JsonStrip
  import opened JsonDrift

  const REPLACEMENT: Unit := 0xFFFD

  predicate IsSurrogate(u: Unit) {
    IsHighSurrogate(u) || IsLowSurrogate(u)
  }

  /** What reading gives of a text that was written as UTF-8. */
  function ReadBack(t: Text): (r: Text)
    ensures |r| == |t|
  {
    if t == [] then []
    else if IsHighSurrogate(t[0]) && |t| > 1 && IsLowSurrogate(t[1]) then [t[0], t[1]] + ReadBack(t[2..])
    else [if IsSurrogate(t[0]) then REPLACEMENT else t[0]] + ReadBack(t[1..])
  }

  /** The specification as the file holds it. */
  function Written(v: Json): Json
    decreases v, 0
  {
    match v
    case Arr(items) => Arr(WrittenItems(items))
    case Obj(fields) => Obj(WrittenFields(fields))
    case _ => v
  }

  function WrittenItems(items: seq<Json>): (r: seq<Json>)
    ensures |r| == |items|
    decreases items
  {
    if items == [] then [] else [Written(items[0])] + WrittenItems(items[1..])
  }

  function WrittenFields(fields: seq<Field>): (r: seq<Field>)
    ensures |r| == |fields|
    decreases fields
  {
    if fields == [] then []
    else [Field(ReadBack(fields[0].key), Written(fields[0].value))] + WrittenFields(fields[1..])
  }

  // ----- reading back piece by piece

  /** Nothing that could be the second half of a pair. */
  predicate StartsFresh(t: Text) {
    t == [] || !IsLowSurrogate(t[0])
  }

  lemma ReadBackPair(x: Unit, y: Unit, rest: Text)
    requires IsHighSurrogate(x) && IsLowSurrogate(y)
    ensures ReadBack([x, y] + rest) == [x, y] + ReadBack(rest)
  {
    assert ([x, y] + rest)[2..] == rest;
  }

  function ReadUnit(u: Unit): Unit {
    if IsSurrogate(u) then REPLACEMENT else u
  }

  lemma ReadBackUnit(u: Unit, rest: Text)
    requires IsHighSurrogate(u) ==> StartsFresh(rest)
    ensures ReadBack([u] + rest) == [ReadUnit(u)] + ReadBack(rest)
  {
    assert ([u] + rest)[1..] == rest;
  }

  lemma {:induction false} ReadBackJoins(a: Text, b: Text)
    requires StartsFresh(b)
    ensures ReadBack(a + b) == ReadBack(a) + ReadBack(b)
    decreases |a|
  {
    if a == [] {
      assert a + b == b && ReadBack(a) + ReadBack(b) == ReadBack(b);
    } else if IsHighSurrogate(a[0]) && |a| > 1 && IsLowSurrogate(a[1]) {
      var left := a[2..];
      ReadBackJoins(left, b);
      assert a == [a[0], a[1]] + left;
      ReadBackPair(a[0], a[1], left);
      ReadBackPair(a[0], a[1], left + b);
      Reassociate([a[0], a[1]], left, b);
      Reassociate([a[0], a[1]], ReadBack(left), ReadBack(b));
    } else {
      var left := a[1..];
      ReadBackJoins(left, b);
      assert a == [a[0]] + left;
      FreshJoin(left, b);
      ReadBackUnit(a[0], left);
      ReadBackUnit(a[0], left + b);
      Reassociate([a[0]], left, b);
      Reassociate([ReadUnit(a[0])], ReadBack(left), ReadBack(b));
    }
  }

  lemma FreshJoin(a: Text, b: Text)
    requires StartsFresh(b)
    ensures StartsFresh(a) ==> StartsFresh(a + b)
  {
    assert a == [] ==> a + b == b;
  }

  /** Units are kept or, if they are surrogates, replaced. */
  lemma {:induction false} ReadBackAt(t: Text, i: nat)
    requires i < |t|
    ensures ReadBack(t)[i] == t[i] || (0xD800 <= t[i] <= 0xDFFF && ReadBack(t)[i] == 0xFFFD)
    decreases |t|
  {
    if IsHighSurrogate(t[0]) && |t| > 1 && IsLowSurrogate(t[1]) {
      if i >= 2 { ReadBackAt(t[2..], i - 2); }
    } else if i >= 1 {
      ReadBackAt(t[1..], i - 1);
    }
  }

  predicate IsFree(t: Text) {
    forall i :: 0 <= i < |t| ==> !IsSurrogate(t[i])
  }

  lemma {:induction false} FreeIsKept(t: Text)
    requires IsFree(t)
    ensures ReadBack(t) == t && StartsFresh(t)
  {
    if t != [] {
      FreeIsKept(t[1..]);
      assert t == [t[0]] + t[1..];
      ReadBackUnit(t[0], t[1..]);
    }
  }

  lemma FreeJoins(a: Text, b: Text)
    requires IsFree(a) && StartsFresh(b)
    ensures ReadBack(a + b) == a + ReadBack(b) && StartsFresh(a + b)
  {
    FreeIsKept(a);
    ReadBackJoins(a, b);
  }

  lemma HeadIsKept(s: Text)
    requires s != []
    ensures ReadBack(QuoteHead(s).0) == QuoteHead(s).0 && StartsFresh(QuoteHead(s).0)
  {
    var head := QuoteHead(s).0;
    if IsSurrogate(head[0]) {
      ReadBackPair(head[0], head[1], []);
      assert head == [head[0], head[1]] + [];
    } else {
      FreeIsKept(head);
    }
  }

  lemma {:induction false} QuotedIsKept(s: Text)
    ensures ReadBack(QuoteBody(s)) == QuoteBody(s) && StartsFresh(QuoteBody(s))
    decreases |s|
  {
    if s != [] {
      var (head, left) := QuoteHead(s);
      QuotedIsKept(left);
      HeadIsKept(s);
      FreshJoin(head, QuoteBody(left));
      ReadBackJoins(head, QuoteBody(left));
      assert QuoteBody(s) == head + QuoteBody(left);
    }
  }

  lemma QuoteIsKept(s: Text)
    ensures ReadBack(Quote(s)) == Quote(s)
  {
    QuotedIsKept(s);
    FreeJoins([QUOTE], QuoteBody(s));
    ReadBackJoins([QUOTE] + QuoteBody(s), [QUOTE]);
    FreeIsKept([QUOTE]);
  }

  function ReadBackAll(texts: seq<Text>): (r: seq<Text>)
    ensures |r| == |texts|
    ensures forall i :: 0 <= i < |r| ==> r[i] == ReadBack(texts[i])
  {
    if texts == [] then [] else [ReadBack(texts[0])] + ReadBackAll(texts[1..])
  }

  ghost predicate AllFresh(texts: seq<Text>) {
    forall i :: 0 <= i < |texts| ==> StartsFresh(texts[i])
  }

  lemma PrefixedIsKept(prefix: Text, texts: seq<Text>)
    requires IsFree(prefix) && AllFresh(texts)
    ensures ReadBackAll(PrefixAll(prefix, texts)) == PrefixAll(prefix, ReadBackAll(texts))
    ensures AllFresh(PrefixAll(prefix, texts))
  {
    forall i | 0 <= i < |texts|
      ensures ReadBackAll(PrefixAll(prefix, texts))[i] == PrefixAll(prefix, ReadBackAll(texts))[i]
      ensures StartsFresh(PrefixAll(prefix, texts)[i])
    {
      FreeJoins(prefix, texts[i]);
    }
  }

  lemma {:induction false} JoinIsKept(parts: seq<Text>, separator: Text)
    requires IsFree(separator) && separator != [] && AllFresh(parts)
    ensures ReadBack(Join(parts, separator)) == Join(ReadBackAll(parts), separator)
    ensures StartsFresh(Join(parts, separator))
  {
    if |parts| > 1 {
      var rest := Join(parts[1..], separator);
      JoinIsKept(parts[1..], separator);
      FreeJoins(separator, rest);
      ReadBackJoins(parts[0], separator + rest);
      Reassociate(parts[0], separator, rest);
      Reassociate(ReadBack(parts[0]), separator, ReadBack(rest));
      assert ReadBackAll(parts)[1..] == ReadBackAll(parts[1..]);
    }
  }

  ghost predicate FreeLayout(layout: Layout) {
    IsFree(layout.opening) && IsFree(layout.prefix) && IsFree(layout.gap) && IsFree(layout.closing)
  }

  lemma LayoutsAreFree(texts: seq<Text>, indent: nat)
    ensures FreeLayout(ArrayLayout(Spec, texts, indent)) && FreeLayout(ObjectLayout(Spec, indent))
  {
    assert FreeLayout(INLINE) && FreeLayout(Stacked(indent));
  }

  lemma EnclosedIsKept(open: Unit, layout: Layout, texts: seq<Text>, close: Unit)
    requires !IsSurrogate(open) && !IsSurrogate(close) && FreeLayout(layout) && AllFresh(texts)
    ensures ReadBack(Enclose(open, layout, texts, close)) == Enclose(open, layout, ReadBackAll(texts), close)
    ensures StartsFresh(Enclose(open, layout, texts, close))
  {
    var joined := Join(PrefixAll(layout.prefix, texts), [COMMA] + layout.gap);
    PrefixedIsKept(layout.prefix, texts);
    JoinIsKept(PrefixAll(layout.prefix, texts), [COMMA] + layout.gap);
    FreeIsKept(layout.closing + [close]);
    ReadBackJoins(joined, layout.closing + [close]);
    FreeJoins([open] + layout.opening, joined + (layout.closing + [close]));
    FromTheLeft([open] + layout.opening, joined, layout.closing, [close]);
    FromTheLeft([open] + layout.opening, ReadBack(joined), layout.closing, [close]);
  }

  lemma FromTheLeft(a: Text, b: Text, c: Text, d: Text)
    ensures a + b + c + d == a + (b + (c + d))
    ensures a + (b + c + d) == a + (b + (c + d))
  {}

  /** Replacing units changes neither lengths nor line breaks, so the layout stays. */
  lemma LayoutIsKept(texts: seq<Text>, indent: nat)
    requires AllFresh(texts)
    ensures ArrayLayout(Spec, ReadBackAll(texts), indent) == ArrayLayout(Spec, texts, indent)
  {
    EnclosedIsKept(OPEN_BRACKET, INLINE, texts, CLOSE_BRACKET);
    assert |InlineArray(ReadBackAll(texts))| == |InlineArray(texts)|;
    forall i | 0 <= i < |texts| ensures LF in texts[i] <==> LF in ReadBackAll(texts)[i] {
      LineBreaksAreKept(texts[i]);
    }
  }

  lemma LineBreaksAreKept(t: Text)
    ensures LF in t <==> LF in ReadBack(t)
  {
    forall i | 0 <= i < |t| ensures t[i] == LF <==> ReadBack(t)[i] == LF { ReadBackAt(t, i); }
  }

  // ----- the printed text

  lemma NumberIsFree(digits: Text)
    requires IsNumber(digits)
    ensures IsFree(digits)
  {
    NumberUnits(digits);
  }

  lemma LiteralIsKept(t: Text)
    requires IsFree(t)
    ensures ReadBack(t) == t && StartsFresh(t)
  {
    FreeIsKept(t);
  }

  /** Writing the printed value and reading it back gives the printed text of the written value. */
  lemma {:induction false} ReadBackIsWritten(v: Json, indent: nat)
    requires IsJson(v)
    ensures ReadBack(Render(Spec, v, indent)) == Render(Spec, Written(v), indent)
    ensures StartsFresh(Render(Spec, v, indent))
    decreases v, 0
  {
    match v
    case Null => LiteralIsKept(NULL_TEXT);
    case Bool(flag) => LiteralIsKept(if flag then TRUE_TEXT else FALSE_TEXT);
    case Number(digits) => NumberIsFree(digits); LiteralIsKept(digits);
    case Str(text) => QuoteIsKept(text);
    case Arr(items) => ArrayIsWritten(items, indent);
    case Obj(fields) => ObjectIsWritten(fields, indent);
  }

  lemma {:induction false} ArrayIsWritten(items: seq<Json>, indent: nat)
    requires AllJson(items)
    ensures ReadBack(Render(Spec, Arr(items), indent)) == Render(Spec, Arr(WrittenItems(items)), indent)
    ensures StartsFresh(Render(Spec, Arr(items), indent))
    decreases items, 1
  {
    if items == [] {
      LiteralIsKept([OPEN_BRACKET, CLOSE_BRACKET]);
    } else {
      var texts := RenderItems(Spec, items, indent + 2);
      ItemsAreWritten(items, indent + 2);
      LayoutIsKept(texts, indent);
      LayoutsAreFree(texts, indent);
      EnclosedIsKept(OPEN_BRACKET, ArrayLayout(Spec, texts, indent), texts, CLOSE_BRACKET);
    }
  }

  lemma {:induction false} ItemsAreWritten(items: seq<Json>, indent: nat)
    requires AllJson(items)
    ensures ReadBackAll(RenderItems(Spec, items, indent)) == RenderItems(Spec, WrittenItems(items), indent)
    ensures AllFresh(RenderItems(Spec, items, indent))
    decreases items, 0
  {
    if items != [] {
      ReadBackIsWritten(items[0], indent);
      ItemsAreWritten(items[1..], indent);
      assert WrittenItems(items)[1..] == WrittenItems(items[1..]);
      assert RenderItems(Spec, items, indent)[1..] == RenderItems(Spec, items[1..], indent);
    }
  }

  lemma {:induction false} ObjectIsWritten(fields: seq<Field>, indent: nat)
    requires JsonKeys.FieldsAreJson(fields)
    ensures ReadBack(Render(Spec, Obj(fields), indent)) == Render(Spec, Obj(WrittenFields(fields)), indent)
    ensures StartsFresh(Render(Spec, Obj(fields), indent))
    decreases fields, 1
  {
    if fields == [] {
      LiteralIsKept([OPEN_BRACE, CLOSE_BRACE]);
    } else {
      var texts := RenderFields(Spec, fields, indent + 2);
      FieldsAreWritten(fields, indent + 2);
      LayoutsAreFree([], indent);
      EnclosedIsKept(OPEN_BRACE, ObjectLayout(Spec, indent), texts, CLOSE_BRACE);
    }
  }

  lemma {:induction false} FieldsAreWritten(fields: seq<Field>, indent: nat)
    requires JsonKeys.FieldsAreJson(fields)
    ensures ReadBackAll(RenderFields(Spec, fields, indent)) == RenderFields(Spec, WrittenFields(fields), indent)
    ensures AllFresh(RenderFields(Spec, fields, indent))
    decreases fields, 0
  {
    if fields != [] {
      ReadBackIsWritten(fields[0].value, indent);
      FieldIsWritten(fields[0].key, Render(Spec, fields[0].value, indent));
      FieldsAreWritten(fields[1..], indent);
      assert WrittenFields(fields)[1..] == WrittenFields(fields[1..]);
      assert RenderFields(Spec, fields, indent)[1..] == RenderFields(Spec, fields[1..], indent);
    }
  }

  lemma FieldIsWritten(key: Text, value: Text)
    requires StartsFresh(value)
    ensures ReadBack(KeyText(Spec, key) + AfterKey(Spec) + value) == KeyText(Spec, ReadBack(key)) + AfterKey(Spec) + ReadBack(value)
    ensures StartsFresh(KeyText(Spec, key) + AfterKey(Spec) + value)
  {
    var after := [QUOTE] + AfterKey(Spec);
    FreeJoins(after, value);
    ReadBackJoins([QUOTE] + key, after + value);
    KeyAndValue(key, value);
    KeyAndValue(ReadBack(key), ReadBack(value));
    QuoteThenKey(key);
  }

  lemma KeyAndValue(key: Text, value: Text)
    ensures KeyText(Spec, key) + AfterKey(Spec) + value == ([QUOTE] + key) + (([QUOTE] + AfterKey(Spec)) + value)
  {}

  /** A quotation mark pairs with nothing, whatever the key starts with. */
  lemma QuoteThenKey(key: Text)
    ensures ReadBack([QUOTE] + key) == [QUOTE] + ReadBack(key)
  {
    assert ([QUOTE] + key)[1..] == key;
  }

  // ----- when the file is the specification

  /** A key is its own quoted form exactly when it is plain and survives being written. */
  lemma {:induction false} EscapeFreeExactlyWhen(key: Text)
    ensures QuoteBody(key) == key <==> IsPlain(key) && ReadBack(key) == key
    decreases |key|
  {
    if key != [] {
      var (head, left) := QuoteHead(key);
      EscapeFreeExactlyWhen(left);
      assert QuoteBody(key) == head + QuoteBody(left);
      if head[0] == BACKSLASH {
        EscapedIsLonger(key);
        EscapedIsNotKept(key);
      } else {
        assert key == head + left;
        HeadIsKept(key);
        PlainParts(head, left);
        HeadIsReadFirst(key);
        FrontCancels(head, QuoteBody(left), left);
        FrontCancels(head, ReadBack(left), left);
      }
    }
  }

  lemma PlainParts(a: Text, b: Text)
    ensures IsPlain(a + b) <==> IsPlain(a) && IsPlain(b)
  {
    assert forall i :: 0 <= i < |a| ==> (a + b)[i] == a[i];
    assert forall i :: 0 <= i < |b| ==> (a + b)[|a| + i] == b[i];
  }

  lemma HeadIsReadFirst(key: Text)
    requires key != [] && QuoteHead(key).0[0] != BACKSLASH
    ensures ReadBack(key) == QuoteHead(key).0 + ReadBack(QuoteHead(key).1) && IsPlain(QuoteHead(key).0)
  {
    var (head, left) := QuoteHead(key);
    assert key == head + left;
    if |head| == 2 { ReadBackPair(head[0], head[1], left); } else { ReadBackUnit(head[0], left); }
  }

  lemma EscapedIsLonger(key: Text)
    requires key != [] && QuoteHead(key).0[0] == BACKSLASH
    ensures |QuoteBody(key)| > |key|
  {
    QuotedIsLonger(QuoteHead(key).1);
    assert QuoteBody(key) == QuoteHead(key).0 + QuoteBody(QuoteHead(key).1);
  }

  lemma EscapedIsNotKept(key: Text)
    requires key != [] && QuoteHead(key).0[0] == BACKSLASH
    ensures IsPlain(key) ==> ReadBack(key) != key
  {
    if IsPlain(key) {
      assert key == [key[0]] + key[1..];
      ReadBackUnit(key[0], key[1..]);
    }
  }

  lemma {:induction false} QuotedIsLonger(s: Text)
    ensures |QuoteBody(s)| >= |s|
    decreases |s|
  {
    if s != [] {
      QuotedIsLonger(QuoteHead(s).1);
      assert QuoteBody(s) == QuoteHead(s).0 + QuoteBody(QuoteHead(s).1);
    }
  }

  /** A value is written as it is, with plain keys, exactly when its keys are free of escapes. */
  lemma {:induction false} WrittenAsIsExactlyWhen(v: Json)
    ensures Written(v) == v && PlainKeys(v) <==> EscapeFreeKeys(v)
    decreases v, 0
  {
    match v
    case Arr(items) => ItemsWrittenAsTheyAre(items);
    case Obj(fields) => FieldsWrittenAsTheyAre(fields);
    case _ =>
  }

  lemma KeysOfItems(first: Json, rest: seq<Json>)
    ensures EscapeFreeKeys(Arr([first] + rest)) <==> EscapeFreeKeys(first) && EscapeFreeKeys(Arr(rest))
  {
    var items := [first] + rest;
    assert items[0] == first && forall i :: 0 <= i < |rest| ==> items[i + 1] == rest[i];
  }

  lemma PlainItems(first: Json, rest: seq<Json>)
    ensures AllPlain([first] + rest) <==> PlainKeys(first) && AllPlain(rest)
  {
    var items := [first] + rest;
    assert items[0] == first && forall i :: 0 <= i < |rest| ==> items[i + 1] == rest[i];
  }

  lemma KeysOfFields(first: Field, rest: seq<Field>)
    ensures EscapeFreeKeys(Obj([first] + rest)) <==>
            QuoteBody(first.key) == first.key && EscapeFreeKeys(first.value) && EscapeFreeKeys(Obj(rest))
    ensures FieldsAreGood([first] + rest) <==> GoodField(first) && FieldsAreGood(rest)
  {
    var fields := [first] + rest;
    assert fields[0] == first && forall i :: 0 <= i < |rest| ==> fields[i + 1] == rest[i];
  }

  lemma {:induction false} ItemsWrittenAsTheyAre(items: seq<Json>)
    ensures WrittenItems(items) == items && AllPlain(items) <==> EscapeFreeKeys(Arr(items))
    decreases items, 0
  {
    if items != [] {
      var first, rest := items[0], items[1..];
      WrittenAsIsExactlyWhen(first);
      ItemsWrittenAsTheyAre(rest);
      KeysOfItems(first, rest);
      PlainItems(first, rest);
      ConsEquality(Written(first), WrittenItems(rest), first, rest);
      assert items == [first] + rest;
    }
  }

  lemma {:induction false} FieldsWrittenAsTheyAre(fields: seq<Field>)
    ensures WrittenFields(fields) == fields && FieldsAreGood(fields) <==> EscapeFreeKeys(Obj(fields))
    decreases fields, 0
  {
    if fields != [] {
      var first, rest := fields[0], fields[1..];
      WrittenAsIsExactlyWhen(first.value);
      EscapeFreeExactlyWhen(first.key);
      FieldsWrittenAsTheyAre(rest);
      KeysOfFields(first, rest);
      ConsEquality(Field(ReadBack(first.key), Written(first.value)), WrittenFields(rest), first, rest);
      assert fields == [first] + rest;
    }
  }

  // ----- a key that needs an escape, on disk

  ghost predicate TokensAlike(a: seq<Token>, b: seq<Token>) {
    |a| == |b| && forall i :: 0 <= i < |a| ==> Alike(a[i], b[i])
  }

  lemma AlikeJoins(a: seq<Token>, b: seq<Token>, c: seq<Token>, d: seq<Token>)
    requires TokensAlike(a, b) && TokensAlike(c, d)
    ensures TokensAlike(a + c, b + d)
  {}

  lemma KeyIsAlike(key: Text)
    ensures TokensAlike([StringToken(key), Colon], [StringToken(ReadBack(key)), Colon])
  {
    if key != [] { ReadBackAt(key, |key| - 1); }
  }

  /** Replacing units leaves tokens of the same outline. */
  lemma {:induction false} WrittenTokensAlike(v: Json)
    ensures TokensAlike(Tokens(v), Tokens(Written(v)))
    decreases v, 0
  {
    match v
    case Arr(items) =>
      WrittenItemsAlike(items);
      AlikeJoins([OpenBracket], [OpenBracket], ItemTokens(items), ItemTokens(WrittenItems(items)));
    case Obj(fields) =>
      WrittenFieldsAlike(fields);
      AlikeJoins([OpenBrace], [OpenBrace], FieldTokens(fields), FieldTokens(WrittenFields(fields)));
    case _ =>
  }

  lemma {:induction false} WrittenItemsAlike(items: seq<Json>)
    ensures TokensAlike(ItemTokens(items), ItemTokens(WrittenItems(items)))
    decreases items, 0
  {
    if items != [] {
      var written := WrittenItems(items);
      WrittenTokensAlike(items[0]);
      WrittenItemsAlike(items[1..]);
      assert written[0] == Written(items[0]) && written[1..] == WrittenItems(items[1..]);
      AlikeJoins(Tokens(items[0]), Tokens(written[0]), [Comma], [Comma]);
      AlikeJoins(Tokens(items[0]) + [Comma], Tokens(written[0]) + [Comma], ItemTokens(items[1..]), ItemTokens(written[1..]));
    }
  }

  function FirstFieldTokens(field: Field): seq<Token> {
    [StringToken(field.key), Colon] + Tokens(field.value)
  }

  lemma {:induction false} WrittenFieldsAlike(fields: seq<Field>)
    ensures TokensAlike(FieldTokens(fields), FieldTokens(WrittenFields(fields)))
    decreases fields, 0
  {
    if fields != [] {
      var written := WrittenFields(fields);
      WrittenTokensAlike(fields[0].value);
      KeyIsAlike(fields[0].key);
      WrittenFieldsAlike(fields[1..]);
      assert written[0] == Field(ReadBack(fields[0].key), Written(fields[0].value));
      assert written[1..] == WrittenFields(fields[1..]);
      var first, firstWritten := FirstFieldTokens(fields[0]), FirstFieldTokens(written[0]);
      AlikeJoins([StringToken(fields[0].key), Colon], [StringToken(written[0].key), Colon],
                 Tokens(fields[0].value), Tokens(written[0].value));
      AlikeJoins(first, firstWritten, [Comma], [Comma]);
      AlikeJoins(first + [Comma], firstWritten + [Comma], FieldTokens(fields[1..]), FieldTokens(written[1..]));
    }
  }

  lemma {:induction false} WrittenIsJson(v: Json)
    requires IsJson(v)
    ensures IsJson(Written(v))
    decreases v, 0
  {
    match v
    case Arr(items) => WrittenItemsAreJson(items);
    case Obj(fields) => WrittenFieldsAreJson(fields);
    case _ =>
  }

  lemma {:induction false} WrittenItemsAreJson(items: seq<Json>)
    requires AllJson(items)
    ensures AllJson(WrittenItems(items))
    decreases items, 0
  {
    if items != [] {
      WrittenIsJson(items[0]);
      WrittenItemsAreJson(items[1..]);
    }
  }

  lemma {:induction false} WrittenFieldsAreJson(fields: seq<Field>)
    requires JsonKeys.FieldsAreJson(fields)
    ensures JsonKeys.FieldsAreJson(WrittenFields(fields))
    decreases fields, 0
  {
    if fields != [] {
      WrittenIsJson(fields[0].value);
      WrittenFieldsAreJson(fields[1..]);
    }
  }

  /** What the drift check finds in the file of a specification. */
  function SpecificationFile(v: Json): Text {
    ReadBack(FormatJson(v, 0))
  }

  /** The file parses back to the specification exactly when no key has an escape in JSON.stringify. */
  lemma FileParsesBackExactlyWhen(v: Json)
    requires IsJson(v)
    ensures Parse(SpecificationFile(v)) == Some(v) <==> EscapeFreeKeys(v)
  {
    var w := Written(v);
    ReadBackIsWritten(v, 0);
    WrittenIsJson(v);
    WrittenAsIsExactlyWhen(v);
    if PlainKeys(w) {
      RoundTripsExactlyWhenKeysArePlain(w, 0);
    } else {
      WrittenTokensAlike(v);
      BadKeyIsNeverReadAlike(w, 0, v);
    }
  }

  /** Writing the specification and checking it at once: the file reads back as JSON whose two-space
      text is that of the specification, so that the check is silent, exactly when no key has an
      escape in JSON.stringify. */
  lemma FreshFileHasNoDriftExactlyWhen(generated: Json)
    requires IsJson(generated)
    ensures (match Parse(SpecificationFile(generated))
             case None => false
             case Some(canonical) => Render(Indented, canonical, 0) == Render(Indented, generated, 0))
            <==> EscapeFreeKeys(generated)
  {
    FileParsesBackExactlyWhen(generated);
    var file := SpecificationFile(generated);
    if Parse(file).Some? && Render(Indented, Parse(file).value, 0) == Render(Indented, generated, 0) {
      ParsedIsJson(file);
      IndentedIsInjective(Parse(file).value, generated);
    }
  }
}
