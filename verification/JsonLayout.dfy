/** The white space of the printed specification, read off the text alone. */
module JsonLayout {
  import opened Sequences
  import opened Utf16
  import opened JsonText
  import opened JsonPrinter
  import opened JsonLexing
  import opened JsonRoundTrip

  predicate IsOpening(u: Unit) { u == 0x5B || u == 0x7B }

  predicate IsClosing(u: Unit) { u == 0x5D || u == 0x7D }

  function SpaceRun(t: Text): (k: nat)
    ensures k <= |t|
  {
    if t == [] || t[0] != 0x20 then 0 else 1 + SpaceRun(t[1..])
  }

  /** Reads a text from outside a string, with one flag for each open bracket: whether its content is
      spread over lines.  A line feed after an opening bracket sets the flag; objects with content have
      it.  Under the flag, a line feed follows the opening bracket and every comma and precedes the
      closing bracket, and each line feed is followed by start spaces and two more for each open
      bracket, not counting one that is closed next.  Otherwise a comma is followed by one space.  A
      colon is followed by one space.  There is no other white space, and every bracket is closed. */
  predicate IsTidy(t: Text, start: nat, open: seq<bool>)
    decreases |t|
  {
    if t == [] then open == []
    else if IsOpening(t[0]) then
      if |t| > 1 && t[1] == t[0] + 2 then IsTidy(t[2..], start, open)
      else
        var spread := |t| > 1 && t[1] == 0x0A;
        (t[0] == 0x7B ==> spread) && IsTidy(t[1..], start, open + [spread])
    else if t[0] == 0x0A then
      var k := SpaceRun(t[1..]);
      var rest := t[1 + k..];
      && open != [] && open[|open| - 1] && rest != []
      && if IsClosing(rest[0]) then k == start + 2 * (|open| - 1) && IsTidy(rest[1..], start, open[..|open| - 1])
         else k == start + 2 * |open| && StartsValue(rest[0]) && IsTidy(rest, start, open)
    else if IsClosing(t[0]) then
      open != [] && !open[|open| - 1] && IsTidy(t[1..], start, open[..|open| - 1])
    else if t[0] == 0x2C then
      && open != [] && |t| > 1
      && if open[|open| - 1] then t[1] == 0x0A && IsTidy(t[1..], start, open)
         else t[1] == 0x20 && |t| > 2 && StartsValue(t[2]) && IsTidy(t[2..], start, open)
    else if t[0] == 0x3A then
      |t| > 2 && t[1] == 0x20 && StartsValue(t[2]) && IsTidy(t[2..], start, open)
    else if t[0] == 0x22 then IsTidyInString(t[1..], start, open)
    else t[0] != 0x20 && t[0] != 0x09 && t[0] != 0x0D && IsTidy(t[1..], start, open)
  }

  /** The same from inside a string, which has no line feed and ends at the first quotation mark that is
      not escaped. */
  predicate IsTidyInString(t: Text, start: nat, open: seq<bool>)
    decreases |t|
  {
    if t == [] || t[0] == 0x0A then false
    else if t[0] == 0x22 then IsTidy(t[1..], start, open)
    else if t[0] == 0x5C then |t| > 1 && t[1] != 0x0A && IsTidyInString(t[2..], start, open)
    else IsTidyInString(t[1..], start, open)
  }

  /** Not white space, a comma, a colon or a closing bracket. */
  predicate StartsValue(u: Unit) {
    u !in {0x20, 0x0A, 0x09, 0x0D, 0x2C, 0x3A, 0x5D, 0x7D}
  }

  // ----- texts the reader passes over

  /** The reader goes through the text to whatever follows it. */
  ghost predicate Passes(t: Text, start: nat, open: seq<bool>) {
    t != [] && StartsValue(t[0]) && forall rest: Text :: IsTidy(t + rest, start, open) == IsTidy(rest, start, open)
  }

  ghost predicate AllPass(texts: seq<Text>, start: nat, open: seq<bool>) {
    forall i :: 0 <= i < |texts| ==> Passes(texts[i], start, open)
  }

  lemma PassOver(t: Text, start: nat, open: seq<bool>, rest: Text)
    requires Passes(t, start, open)
    ensures IsTidy(t + rest, start, open) == IsTidy(rest, start, open)
    ensures t + rest != [] && StartsValue((t + rest)[0])
  {}

  /** A unit of a number or a literal. */
  predicate IsSolidUnit(u: Unit) {
    StartsValue(u) && u != 0x22 && !IsOpening(u)
  }

  lemma {:induction false} SolidIsRead(t: Text, start: nat, open: seq<bool>, rest: Text)
    requires forall i :: 0 <= i < |t| ==> IsSolidUnit(t[i])
    ensures IsTidy(t + rest, start, open) == IsTidy(rest, start, open)
  {
    if t == [] {
      assert t + rest == rest;
    } else {
      SolidIsRead(t[1..], start, open, rest);
      assert (t + rest)[1..] == t[1..] + rest;
    }
  }

  lemma SolidPasses(t: Text, start: nat, open: seq<bool>)
    requires t != [] && forall i :: 0 <= i < |t| ==> IsSolidUnit(t[i])
    ensures Passes(t, start, open)
  {
    forall rest: Text ensures IsTidy(t + rest, start, open) == IsTidy(rest, start, open) {
      SolidIsRead(t, start, open, rest);
    }
  }

  lemma {:induction false} PlainIsRead(t: Text, start: nat, open: seq<bool>, rest: Text)
    requires forall i :: 0 <= i < |t| ==> t[i] != 0x0A && t[i] != 0x22 && t[i] != 0x5C
    ensures IsTidyInString(t + rest, start, open) == IsTidyInString(rest, start, open)
  {
    if t == [] {
      assert t + rest == rest;
    } else {
      PlainIsRead(t[1..], start, open, rest);
      assert (t + rest)[1..] == t[1..] + rest;
    }
  }

  lemma HeadIsRead(s: Text, start: nat, open: seq<bool>, rest: Text)
    requires s != []
    ensures IsTidyInString(QuoteHead(s).0 + rest, start, open) == IsTidyInString(rest, start, open)
  {
    var head := QuoteHead(s).0;
    if head[0] == BACKSLASH {
      var more := head[2..] + rest;
      assert head + rest == [BACKSLASH, head[1]] + more;
      assert ([BACKSLASH, head[1]] + more)[2..] == more;
      PlainIsRead(head[2..], start, open, rest);
    } else {
      PlainIsRead(head, start, open, rest);
    }
  }

  lemma {:induction false} QuotedIsRead(s: Text, start: nat, open: seq<bool>, rest: Text)
    ensures IsTidyInString(QuoteBody(s) + ([QUOTE] + rest), start, open) == IsTidy(rest, start, open)
    decreases |s|
  {
    if s == [] {
      assert [] + ([QUOTE] + rest) == [QUOTE] + rest;
      DropHead(QUOTE, rest);
    } else {
      var (head, left) := QuoteHead(s);
      QuotedIsRead(left, start, open, rest);
      Reassociate(head, QuoteBody(left), [QUOTE] + rest);
      HeadIsRead(s, start, open, QuoteBody(left) + ([QUOTE] + rest));
    }
  }

  /** Between quotation marks, text that can be read to its closing mark. */
  lemma StringIsRead(body: Text, start: nat, open: seq<bool>, rest: Text)
    requires IsTidyInString(body + ([QUOTE] + rest), start, open) == IsTidy(rest, start, open)
    ensures IsTidy([QUOTE] + body + [QUOTE] + rest, start, open) == IsTidy(rest, start, open)
  {
    var t := [QUOTE] + (body + ([QUOTE] + rest));
    assert [QUOTE] + body + [QUOTE] + rest == t;
    assert t[1..] == body + ([QUOTE] + rest);
  }

  lemma QuotePasses(s: Text, start: nat, open: seq<bool>)
    ensures Passes(Quote(s), start, open)
  {
    forall rest: Text ensures IsTidy(Quote(s) + rest, start, open) == IsTidy(rest, start, open) {
      QuotedIsRead(s, start, open, rest);
      StringIsRead(QuoteBody(s), start, open, rest);
    }
  }

  lemma KeyIsRead(key: Text, start: nat, open: seq<bool>, rest: Text)
    requires IsPlain(key)
    ensures IsTidy(KeyText(Spec, key) + rest, start, open) == IsTidy(rest, start, open)
  {
    PlainIsRead(key, start, open, [QUOTE] + rest);
    DropHead(QUOTE, rest);
    StringIsRead(key, start, open, rest);
  }

  lemma ColonIsRead(start: nat, open: seq<bool>, rest: Text)
    requires rest != [] && StartsValue(rest[0])
    ensures IsTidy(AfterKey(Spec) + rest, start, open) == IsTidy(rest, start, open)
  {
    assert (AfterKey(Spec) + rest)[2..] == rest;
  }

  lemma FieldPasses(key: Text, value: Text, start: nat, open: seq<bool>)
    requires IsPlain(key) && Passes(value, start, open)
    ensures Passes(KeyText(Spec, key) + AfterKey(Spec) + value, start, open)
  {
    var t := KeyText(Spec, key) + AfterKey(Spec) + value;
    forall rest: Text ensures IsTidy(t + rest, start, open) == IsTidy(rest, start, open) {
      assert t + rest == KeyText(Spec, key) + (AfterKey(Spec) + (value + rest));
      KeyIsRead(key, start, open, AfterKey(Spec) + (value + rest));
      PassOver(value, start, open, rest);
      ColonIsRead(start, open, value + rest);
    }
  }

  // ----- lines

  lemma {:induction false} SpacesRun(k: nat, rest: Text)
    requires rest != [] && rest[0] != 0x20
    ensures SpaceRun(Spaces(k) + rest) == k && (Spaces(k) + rest)[k..] == rest
  {
    if k > 0 {
      SpacesRun(k - 1, rest);
      var t := Spaces(k) + rest;
      assert t[0] == 0x20;
      assert t[1..] == Spaces(k - 1) + rest;
    } else {
      assert Spaces(0) + rest == rest;
    }
  }

  lemma LineIsRead(k: nat, rest: Text, start: nat, open: seq<bool>)
    requires rest != [] && StartsValue(rest[0]) && open != [] && open[|open| - 1]
    requires k == start + 2 * |open|
    ensures IsTidy([LF] + (Spaces(k) + rest), start, open) == IsTidy(rest, start, open)
  {
    var t := [LF] + (Spaces(k) + rest);
    SpacesRun(k, rest);
    assert t[1..] == Spaces(k) + rest;
    assert t[1 + k..] == t[1..][k..];
  }

  lemma LastLineIsRead(k: nat, close: Unit, rest: Text, start: nat, open: seq<bool>)
    requires IsClosing(close) && k == start + 2 * |open|
    ensures IsTidy([LF] + (Spaces(k) + ([close] + rest)), start, open + [true]) == IsTidy(rest, start, open)
  {
    var t := [LF] + (Spaces(k) + ([close] + rest));
    SpacesRun(k, [close] + rest);
    assert t[1..] == Spaces(k) + ([close] + rest);
    assert t[1 + k..] == t[1..][k..];
    assert ([close] + rest)[1..] == rest;
    assert (open + [true])[..|open|] == open;
  }

  lemma CommaBeforeLine(rest: Text, start: nat, open: seq<bool>)
    requires open != [] && open[|open| - 1]
    ensures IsTidy([COMMA] + ([LF] + rest), start, open) == IsTidy([LF] + rest, start, open)
  {
    DropHead(COMMA, [LF] + rest);
  }

  lemma CommaBeforeSpace(rest: Text, start: nat, open: seq<bool>)
    requires open != [] && !open[|open| - 1] && rest != [] && StartsValue(rest[0])
    ensures IsTidy([COMMA] + ([SPACE] + rest), start, open) == IsTidy(rest, start, open)
  {
    assert ([COMMA] + ([SPACE] + rest))[2..] == rest;
  }

  /** Elements on lines of their own, each at the indentation of the innermost bracket. */
  lemma {:induction false} LinesAreRead(texts: seq<Text>, k: nat, start: nat, open: seq<bool>, rest: Text)
    requires texts != [] && AllPass(texts, start, open)
    requires open != [] && open[|open| - 1] && k == start + 2 * |open|
    ensures IsTidy([LF] + (Join(PrefixAll(Spaces(k), texts), [COMMA] + [LF]) + rest), start, open) == IsTidy(rest, start, open)
  {
    var parts := PrefixAll(Spaces(k), texts);
    if |texts| == 1 {
      Reassociate(Spaces(k), texts[0], rest);
      PassOver(texts[0], start, open, rest);
      LineIsRead(k, texts[0] + rest, start, open);
    } else {
      var tail := Join(PrefixAll(Spaces(k), texts[1..]), [COMMA] + [LF]);
      var next := [COMMA] + ([LF] + (tail + rest));
      LinesAreRead(texts[1..], k, start, open, rest);
      CommaBeforeLine(tail + rest, start, open);
      PassOver(texts[0], start, open, next);
      LineIsRead(k, texts[0] + next, start, open);
      PartsOfMany(Spaces(k), texts, [LF], rest);
    }
  }

  lemma PartsOfMany(prefix: Text, texts: seq<Text>, gap: Text, rest: Text)
    requires |texts| > 1
    ensures Join(PrefixAll(prefix, texts), [COMMA] + gap) + rest ==
            prefix + (texts[0] + ([COMMA] + (gap + (Join(PrefixAll(prefix, texts[1..]), [COMMA] + gap) + rest))))
  {
    var parts := PrefixAll(prefix, texts[1..]);
    assert PrefixAll(prefix, texts) == [prefix + texts[0]] + parts;
    JoinCons(prefix + texts[0], parts, [COMMA] + gap);
    JoinedParts(prefix, texts[0], gap, Join(parts, [COMMA] + gap), rest);
  }

  /** Elements on one line. */
  lemma {:induction false} InlineIsRead(texts: seq<Text>, start: nat, open: seq<bool>, rest: Text)
    requires texts != [] && AllPass(texts, start, open)
    requires open != [] && !open[|open| - 1]
    ensures var t := Join(PrefixAll([], texts), [COMMA] + [SPACE]) + rest;
            t != [] && StartsValue(t[0]) && IsTidy(t, start, open) == IsTidy(rest, start, open)
  {
    if |texts| == 1 {
      assert [] + texts[0] == texts[0];
      PassOver(texts[0], start, open, rest);
    } else {
      var tail := Join(PrefixAll([], texts[1..]), [COMMA] + [SPACE]);
      var next := [COMMA] + ([SPACE] + (tail + rest));
      InlineIsRead(texts[1..], start, open, rest);
      CommaBeforeSpace(tail + rest, start, open);
      PassOver(texts[0], start, open, next);
      PartsOfMany([], texts, [SPACE], rest);
      assert [] + (texts[0] + next) == texts[0] + next;
    }
  }

  lemma OpeningIsRead(bracket: Unit, spread: bool, rest: Text, start: nat, open: seq<bool>)
    requires IsOpening(bracket) && rest != []
    requires spread <==> rest[0] == LF
    requires bracket == OPEN_BRACE ==> spread
    requires !IsClosing(rest[0])
    ensures IsTidy([bracket] + rest, start, open) == IsTidy(rest, start, open + [spread])
  {
    DropHead(bracket, rest);
  }

  lemma StackedText(bracket: Unit, inner: Text, spaces: Text, close: Unit, rest: Text)
    ensures [bracket] + [LF] + inner + ([LF] + spaces) + [close] + rest
            == [bracket] + ([LF] + (inner + ([LF] + (spaces + ([close] + rest)))))
  {
    EnclosedParts(bracket, [LF], inner, [LF] + spaces, close, rest);
    Reassociate([LF], spaces, [close] + rest);
  }

  lemma StackedIsRead(bracket: Unit, texts: seq<Text>, indent: nat, start: nat, open: seq<bool>, rest: Text)
    requires IsOpening(bracket) && texts != [] && AllPass(texts, start, open + [true]) && indent == start + 2 * |open|
    ensures IsTidy(Enclose(bracket, Stacked(indent), texts, bracket + 2) + rest, start, open) == IsTidy(rest, start, open)
  {
    var inner := Join(PrefixAll(Spaces(indent + 2), texts), [COMMA] + [LF]);
    var last := [LF] + (Spaces(indent) + ([bracket + 2] + rest));
    StackedText(bracket, inner, Spaces(indent), bracket + 2, rest);
    LastLineIsRead(indent, bracket + 2, rest, start, open);
    LinesAreRead(texts, indent + 2, start, open + [true], last);
    OpeningIsRead(bracket, true, [LF] + (inner + last), start, open);
  }

  lemma StackedPasses(bracket: Unit, texts: seq<Text>, start: nat, open: seq<bool>)
    requires IsOpening(bracket) && texts != [] && AllPass(texts, start, open + [true])
    ensures Passes(Enclose(bracket, Stacked(start + 2 * |open|), texts, bracket + 2), start, open)
  {
    var t := Enclose(bracket, Stacked(start + 2 * |open|), texts, bracket + 2);
    forall rest: Text ensures IsTidy(t + rest, start, open) == IsTidy(rest, start, open) {
      StackedIsRead(bracket, texts, start + 2 * |open|, start, open, rest);
    }
  }

  lemma InlinePasses(texts: seq<Text>, start: nat, open: seq<bool>)
    requires texts != [] && AllPass(texts, start, open + [false])
    ensures Passes(Enclose(OPEN_BRACKET, INLINE, texts, CLOSE_BRACKET), start, open)
  {
    var inner := Join(PrefixAll([], texts), [COMMA] + [SPACE]);
    var t := Enclose(OPEN_BRACKET, INLINE, texts, CLOSE_BRACKET);
    forall rest: Text ensures IsTidy(t + rest, start, open) == IsTidy(rest, start, open) {
      InlineParts(inner, rest);
      InlineIsRead(texts, start, open + [false], [CLOSE_BRACKET] + rest);
      OpeningIsRead(OPEN_BRACKET, false, inner + ([CLOSE_BRACKET] + rest), start, open);
      ClosingIsRead(rest, start, open);
    }
  }

  lemma ClosingIsRead(rest: Text, start: nat, open: seq<bool>)
    ensures IsTidy([CLOSE_BRACKET] + rest, start, open + [false]) == IsTidy(rest, start, open)
  {
    DropHead(CLOSE_BRACKET, rest);
    assert (open + [false])[..|open|] == open;
  }

  lemma EmptyIsRead(bracket: Unit, start: nat, open: seq<bool>, rest: Text)
    requires IsOpening(bracket)
    ensures IsTidy([bracket, bracket + 2] + rest, start, open) == IsTidy(rest, start, open)
  {
    assert ([bracket, bracket + 2] + rest)[2..] == rest;
  }

  lemma EmptyPasses(bracket: Unit, start: nat, open: seq<bool>)
    requires IsOpening(bracket)
    ensures Passes([bracket, bracket + 2], start, open)
  {
    var t := [bracket, bracket + 2];
    forall rest: Text ensures IsTidy(t + rest, start, open) == IsTidy(rest, start, open) {
      EmptyIsRead(bracket, start, open, rest);
    }
  }

  // ----- values

  lemma LiteralPasses(t: Text, start: nat, open: seq<bool>)
    requires t == NULL_TEXT || t == TRUE_TEXT || t == FALSE_TEXT
    ensures Passes(t, start, open)
  {
    SolidPasses(t, start, open);
  }

  lemma NumberPasses(digits: Text, start: nat, open: seq<bool>)
    requires IsNumber(digits)
    ensures Passes(digits, start, open)
  {
    NumberUnits(digits);
    SolidPasses(digits, start, open);
  }

  lemma {:induction false} ValuePasses(v: Json, start: nat, open: seq<bool>)
    requires Printable(Spec, v)
    ensures Passes(Render(Spec, v, start + 2 * |open|), start, open)
    decreases v, 0
  {
    match v
    case Null => LiteralPasses(NULL_TEXT, start, open);
    case Bool(flag) => LiteralPasses(if flag then TRUE_TEXT else FALSE_TEXT, start, open);
    case Number(digits) => NumberPasses(digits, start, open);
    case Str(text) => QuotePasses(text, start, open);
    case Arr(items) => ArrayPasses(items, start, open);
    case Obj(fields) => ObjectPasses(fields, start, open);
  }

  lemma {:induction false} ArrayPasses(items: seq<Json>, start: nat, open: seq<bool>)
    requires PrintableItems(Spec, items)
    ensures Passes(Render(Spec, Arr(items), start + 2 * |open|), start, open)
    decreases items, 1
  {
    var indent := start + 2 * |open|;
    if items == [] {
      EmptyPasses(OPEN_BRACKET, start, open);
    } else {
      var texts := RenderItems(Spec, items, indent + 2);
      ItemsPass(items, start, open + [true]);
      ItemsPass(items, start, open + [false]);
      if ArrayLayout(Spec, texts, indent) == INLINE {
        InlinePasses(texts, start, open);
      } else {
        StackedPasses(OPEN_BRACKET, texts, start, open);
      }
    }
  }

  lemma {:induction false} ItemsPass(items: seq<Json>, start: nat, open: seq<bool>)
    requires PrintableItems(Spec, items)
    ensures AllPass(RenderItems(Spec, items, start + 2 * |open|), start, open)
    decreases items, 0
  {
    if items != [] {
      ValuePasses(items[0], start, open);
      ItemsPass(items[1..], start, open);
    }
  }

  lemma {:induction false} ObjectPasses(fields: seq<Field>, start: nat, open: seq<bool>)
    requires PrintableFields(Spec, fields)
    ensures Passes(Render(Spec, Obj(fields), start + 2 * |open|), start, open)
    decreases fields, 1
  {
    if fields == [] {
      EmptyPasses(OPEN_BRACE, start, open);
    } else {
      FieldsPass(fields, start, open + [true]);
      StackedPasses(OPEN_BRACE, RenderFields(Spec, fields, start + 2 * |open| + 2), start, open);
    }
  }

  lemma {:induction false} FieldsPass(fields: seq<Field>, start: nat, open: seq<bool>)
    requires PrintableFields(Spec, fields)
    ensures AllPass(RenderFields(Spec, fields, start + 2 * |open|), start, open)
    decreases fields, 0
  {
    if fields != [] {
      ValuePasses(fields[0].value, start, open);
      FieldPasses(fields[0].key, Render(Spec, fields[0].value, start + 2 * |open|), start, open);
      FieldsPass(fields[1..], start, open);
    }
  }

  /** For every value with plain keys and every starting indent, all white space of the printed text is
      where the reader expects it: line feeds, indentation, and the spaces after commas and colons. */
  lemma FormatIsTidy(v: Json, start: nat)
    requires IsJson(v) && PlainKeys(v)
    ensures IsTidy(FormatJson(v, start), start, [])
  {
    ValuePasses(v, start, []);
    PassOver(FormatJson(v, start), start, [], []);
    assert FormatJson(v, start) + [] == FormatJson(v, start);
  }

  // ----- when an array stays on one line

  lemma {:induction false} RenderedItemAt(items: seq<Json>, indent: nat, i: nat)
    requires i < |items|
    ensures RenderItems(Spec, items, indent)[i] == FormatJson(items[i], indent)
  {
    if i > 0 { RenderedItemAt(items[1..], indent, i - 1); }
  }

  lemma NotInJoin(t: Text, rest: Text)
    requires 0x0A !in t && 0x0A !in rest
    ensures 0x0A !in t + [0x2C, 0x20] + rest
  {}

  lemma {:induction false} JoinHasNoLineFeed(texts: seq<Text>)
    requires forall i :: 0 <= i < |texts| ==> 0x0A !in texts[i]
    ensures 0x0A !in Join(texts, [0x2C, 0x20])
  {
    if |texts| > 1 {
      JoinHasNoLineFeed(texts[1..]);
      NotInJoin(texts[0], Join(texts[1..], [0x2C, 0x20]));
    }
  }

  lemma NoPrefix(texts: seq<Text>)
    ensures PrefixAll([], texts) == texts
  {
    forall i | 0 <= i < |texts| ensures PrefixAll([], texts)[i] == texts[i] {
      assert [] + texts[i] == texts[i];
    }
  }

  /** The array as it stands on one line. */
  function OneLine(texts: seq<Text>): Text {
    [0x5B] + Join(texts, [0x2C, 0x20]) + [0x5D]
  }

  lemma InlineIsOneLine(texts: seq<Text>)
    ensures InlineArray(texts) == OneLine(texts)
  {
    NoPrefix(texts);
    assert [COMMA] + [SPACE] == [0x2C, 0x20];
  }

  /** An array has no line feed exactly when no element has one, each would fit 100 units with its
      indentation, and the line has at most 100; it is then that line. */
  lemma OneLineExactlyWhenItFits(items: seq<Json>, indent: nat)
    requires items != []
    ensures var texts := RenderItems(Spec, items, indent + 2);
            && (forall i :: 0 <= i < |items| ==> texts[i] == FormatJson(items[i], indent + 2))
            && (0x0A !in FormatJson(Arr(items), indent) <==>
                && (forall i :: 0 <= i < |items| ==> 0x0A !in texts[i] && indent + 2 + |texts[i]| <= 100)
                && 2 + |Join(texts, [0x2C, 0x20])| <= 100)
            && (0x0A !in FormatJson(Arr(items), indent) ==>
                FormatJson(Arr(items), indent) == [0x5B] + Join(texts, [0x2C, 0x20]) + [0x5D])
  {
    var texts := RenderItems(Spec, items, indent + 2);
    forall i | 0 <= i < |items| { RenderedItemAt(items, indent + 2, i); }
    InlineIsOneLine(texts);
    if ArrayLayout(Spec, texts, indent) == INLINE {
      JoinHasNoLineFeed(texts);
      OneLineHasNoLineFeed(texts);
    } else {
      StackedHasLineFeed(texts, indent);
    }
  }

  lemma OneLineHasNoLineFeed(texts: seq<Text>)
    requires 0x0A !in Join(texts, [0x2C, 0x20])
    ensures 0x0A !in OneLine(texts)
  {}

  lemma StackedHasLineFeed(texts: seq<Text>, indent: nat)
    ensures 0x0A in Enclose(OPEN_BRACKET, Stacked(indent), texts, CLOSE_BRACKET)
  {
    assert Enclose(OPEN_BRACKET, Stacked(indent), texts, CLOSE_BRACKET)[1] == LF;
  }
}
