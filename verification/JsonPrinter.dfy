/** The printer that writes the OpenAPI file, beside the two layouts of JSON.stringify that the
    drift check and the fingerprint use. */
module JsonPrinter {
  import opened Utf16
  import opened JsonText

  /** Spec: formatJsonWithInlineArrays.  Indented: JSON.stringify(v, null, 2).  Compact: JSON.stringify(v). */
  datatype Style = Spec | Indented | Compact

  /** The white space around the elements of an array or the properties of an object. */
  datatype Layout = Layout(opening: Text, prefix: Text, gap: Text, closing: Text)

  const COMPACT := Layout([], [], [], [])
  const INLINE := Layout([], [], [SPACE], [])

  function Stacked(indent: nat): Layout {
    Layout([LF], Spaces(indent + 2), [LF], [LF] + Spaces(indent))
  }

  function PrefixAll(prefix: Text, texts: seq<Text>): (r: seq<Text>)
    ensures |r| == |texts|
    ensures forall i :: 0 <= i < |r| ==> r[i] == prefix + texts[i]
  {
    if texts == [] then [] else [prefix + texts[0]] + PrefixAll(prefix, texts[1..])
  }

  function Enclose(open: Unit, layout: Layout, texts: seq<Text>, close: Unit): Text {
    [open] + layout.opening + Join(PrefixAll(layout.prefix, texts), [COMMA] + layout.gap) + layout.closing + [close]
  }

  const LINE_WIDTH: nat := 100

  /** Some element spans lines, or would not fit a line of its own. */
  predicate WouldBeMultiLine(texts: seq<Text>, indent: nat) {
    exists i :: 0 <= i < |texts| && (LF in texts[i] || indent + 2 + |texts[i]| > LINE_WIDTH)
  }

  function InlineArray(texts: seq<Text>): Text {
    Enclose(OPEN_BRACKET, INLINE, texts, CLOSE_BRACKET)
  }

  function ArrayLayout(style: Style, texts: seq<Text>, indent: nat): Layout {
    match style
    case Compact => COMPACT
    case Indented => Stacked(indent)
    case Spec =>
      if !WouldBeMultiLine(texts, indent) && |InlineArray(texts)| <= LINE_WIDTH then INLINE else Stacked(indent)
  }

  function ObjectLayout(style: Style, indent: nat): Layout {
    if style.Compact? then COMPACT else Stacked(indent)
  }

  /** The specification printer writes keys as they are; JSON.stringify quotes them. */
  function KeyText(style: Style, key: Text): Text {
    if style.Spec? then [QUOTE] + key + [QUOTE] else Quote(key)
  }

  function AfterKey(style: Style): Text {
    if style.Compact? then [COLON] else [COLON, SPACE]
  }

  function Render(style: Style, v: Json, indent: nat): Text
    decreases v, 0
  {
    match v
    case Null => NULL_TEXT
    case Bool(flag) => if flag then TRUE_TEXT else FALSE_TEXT
    case Number(digits) => digits
    case Str(text) => Quote(text)
    case Arr(items) =>
      if items == [] then [OPEN_BRACKET, CLOSE_BRACKET]
      else
        var texts := RenderItems(style, items, indent + 2);
        Enclose(OPEN_BRACKET, ArrayLayout(style, texts, indent), texts, CLOSE_BRACKET)
    case Obj(fields) =>
      if fields == [] then [OPEN_BRACE, CLOSE_BRACE]
      else Enclose(OPEN_BRACE, ObjectLayout(style, indent), RenderFields(style, fields, indent + 2), CLOSE_BRACE)
  }

  function RenderItems(style: Style, items: seq<Json>, indent: nat): (texts: seq<Text>)
    ensures |texts| == |items|
    decreases items
  {
    if items == [] then [] else [Render(style, items[0], indent)] + RenderItems(style, items[1..], indent)
  }

  function RenderFields(style: Style, fields: seq<Field>, indent: nat): (texts: seq<Text>)
    ensures |texts| == |fields|
    decreases fields
  {
    if fields == [] then []
    else
      [KeyText(style, fields[0].key) + AfterKey(style) + Render(style, fields[0].value, indent)]
      + RenderFields(style, fields[1..], indent)
  }

  /** What formatJsonWithInlineArrays returns. */
  function FormatJson(v: Json, indent: nat): Text {
    Render(Spec, v, indent)
  }

  // ----- the values the printer is promised

  /** Numbers are printed in the grammar's form; the text of a number is not modelled further. */
  ghost predicate IsJson(v: Json)
    decreases v
  {
    match v
    case Number(digits) => IsNumber(digits)
    case Arr(items) => forall i :: 0 <= i < |items| ==> IsJson(items[i])
    case Obj(fields) => forall i :: 0 <= i < |fields| ==> IsJson(fields[i].value)
    case _ => true
  }

  /** A key that can stand between quotation marks as it is. */
  predicate IsPlain(key: Text) {
    forall i :: 0 <= i < |key| ==> SPACE <= key[i] && key[i] != QUOTE && key[i] != BACKSLASH
  }

  ghost predicate PlainKeys(v: Json)
    decreases v
  {
    match v
    case Arr(items) => forall i :: 0 <= i < |items| ==> PlainKeys(items[i])
    case Obj(fields) => forall i :: 0 <= i < |fields| ==> IsPlain(fields[i].key) && PlainKeys(fields[i].value)
    case _ => true
  }

  // ----- token form

  function Tokens(v: Json): seq<Token>
    decreases v, 0
  {
    match v
    case Null => [NullToken]
    case Bool(flag) => [if flag then TrueToken else FalseToken]
    case Number(digits) => [NumberToken(digits)]
    case Str(text) => [StringToken(text)]
    case Arr(items) => [OpenBracket] + ItemTokens(items) + [CloseBracket]
    case Obj(fields) => [OpenBrace] + FieldTokens(fields) + [CloseBrace]
  }

  function ItemTokens(items: seq<Json>): seq<Token>
    decreases items
  {
    if items == [] then []
    else if |items| == 1 then Tokens(items[0])
    else Tokens(items[0]) + [Comma] + ItemTokens(items[1..])
  }

  function FieldTokens(fields: seq<Field>): seq<Token>
    decreases fields
  {
    if fields == [] then []
    else
      var first := [StringToken(fields[0].key), Colon] + Tokens(fields[0].value);
      if |fields| == 1 then first else first + [Comma] + FieldTokens(fields[1..])
  }
}
