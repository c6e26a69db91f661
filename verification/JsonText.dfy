/** JSON values, the quoting that JSON.stringify applies to strings (section 25.5.2.3 of ECMA-262),
    and a reader for the grammar of section 2 of RFC 8259. */
module JsonText {
  import opened Options
  import opened Utf16

  /** An object lists its properties in enumeration order; a number is its decimal text. */
  datatype Json =
    | Null
    | Bool(flag: bool)
    | Number(digits: Text)
    | Str(text: Text)
    | Arr(items: seq<Json>)
    | Obj(fields: seq<Field>)

  datatype Field = Field(key: Text, value: Json)

  // ----- quoting

  function UnicodeEscape(u: Unit): Text {
    [BACKSLASH, 0x75, HexDigit(u / 4096), HexDigit(u / 256 % 16), HexDigit(u / 16 % 16), HexDigit(u % 16)]
  }

  /** The two-character escapes of JSON.stringify; 0 for units that have none. */
  function ShortEscape(u: Unit): Unit {
    if u == 0x08 then 0x62
    else if u == TAB then 0x74
    else if u == LF then 0x6E
    else if u == 0x0C then 0x66
    else if u == CR then 0x72
    else if u == QUOTE then QUOTE
    else if u == BACKSLASH then BACKSLASH
    else 0
  }

  function QuoteBody(s: Text): Text {
    if s == [] then []
    else if IsHighSurrogate(s[0]) && |s| > 1 && IsLowSurrogate(s[1]) then
      [s[0], s[1]] + QuoteBody(s[2..])
    else
      var u := s[0];
      (if ShortEscape(u) != 0 then [BACKSLASH, ShortEscape(u)]
       else if u < SPACE || IsHighSurrogate(u) || IsLowSurrogate(u) then UnicodeEscape(u)
       else [u])
      + QuoteBody(s[1..])
  }

  function Quote(s: Text): Text {
    [QUOTE] + QuoteBody(s) + [QUOTE]
  }

  function LowerHex(n: int): Unit
    requires 0 <= n < 16
  {
    "0123456789abcdef"[n] as Unit
  }

  /** Quoting, unit by unit: seven short escapes, four lower-case hexadecimal digits for other control
      characters and for surrogates without a partner, and everything else as it is. */
  lemma QuotedUnit(u: Unit, rest: Text)
    requires !(0xD800 <= u <= 0xDBFF && rest != [] && 0xDC00 <= rest[0] <= 0xDFFF)
    ensures QuoteBody([u] + rest) ==
            (if u == 0x08 then [0x5C, 'b' as Unit]
             else if u == 0x09 then [0x5C, 't' as Unit]
             else if u == 0x0A then [0x5C, 'n' as Unit]
             else if u == 0x0C then [0x5C, 'f' as Unit]
             else if u == 0x0D then [0x5C, 'r' as Unit]
             else if u == 0x22 then [0x5C, 0x22]
             else if u == 0x5C then [0x5C, 0x5C]
             else if u < 0x20 || 0xD800 <= u <= 0xDFFF then
               [0x5C, 'u' as Unit, LowerHex(u / 4096), LowerHex(u / 256 % 16), LowerHex(u / 16 % 16), LowerHex(u % 16)]
             else [u]) + QuoteBody(rest)
  {
    assert ([u] + rest)[1..] == rest;
    LowerHexDigit(u / 4096);
    LowerHexDigit(u / 256 % 16);
    LowerHexDigit(u / 16 % 16);
    LowerHexDigit(u % 16);
  }

  lemma LowerHexDigit(n: int)
    requires 0 <= n < 16
    ensures HexDigit(n) == LowerHex(n)
  {}

  /** A surrogate pair is kept. */
  lemma QuotedPair(x: Unit, y: Unit, rest: Text)
    requires 0xD800 <= x <= 0xDBFF && 0xDC00 <= y <= 0xDFFF
    ensures QuoteBody([x, y] + rest) == [x, y] + QuoteBody(rest)
  {
    assert ([x, y] + rest)[2..] == rest;
  }

  // ----- tokens

  datatype Token =
    | OpenBracket | CloseBracket | OpenBrace | CloseBrace | Colon | Comma
    | NullToken | TrueToken | FalseToken
    | NumberToken(digits: Text)
    | StringToken(text: Text)

  predicate IsWhitespace(u: Unit) {
    u == SPACE || u == TAB || u == LF || u == CR
  }

  function EscapedUnit(u: Unit): Option<Unit> {
    if u == QUOTE then Some(QUOTE)
    else if u == BACKSLASH then Some(BACKSLASH)
    else if u == 0x2F then Some(0x2F)
    else if u == 0x62 then Some(0x08)
    else if u == 0x66 then Some(0x0C)
    else if u == 0x6E then Some(LF)
    else if u == 0x72 then Some(CR)
    else if u == 0x74 then Some(TAB)
    else None
  }

  function HexQuad(t: Text): Option<Unit>
    requires |t| >= 4
  {
    var a, b, c, d := HexValue(t[0]), HexValue(t[1]), HexValue(t[2]), HexValue(t[3]);
    if a < 0 || b < 0 || c < 0 || d < 0 then None
    else Some(4096 * a + 256 * b + 16 * c + d)
  }

  /** The rest of a string after its opening quotation mark: its content and what follows it. */
  function ReadString(t: Text): (r: Option<(Text, Text)>)
    ensures r.Some? ==> |r.value.1| < |t|
  {
    if t == [] then None
    else if t[0] == QUOTE then Some(([], t[1..]))
    else if t[0] < SPACE then None
    else if t[0] != BACKSLASH then Unread(t[0], ReadString(t[1..]))
    else if |t| >= 2 && EscapedUnit(t[1]).Some? then Unread(EscapedUnit(t[1]).value, ReadString(t[2..]))
    else if |t| >= 6 && t[1] == 0x75 && HexQuad(t[2..]).Some? then Unread(HexQuad(t[2..]).value, ReadString(t[6..]))
    else None
  }

  function Unread(u: Unit, r: Option<(Text, Text)>): (q: Option<(Text, Text)>)
    ensures q == if r.None? then None else Some(([u] + r.value.0, r.value.1))
  {
    match r
    case None => None
    case Some((s, rest)) => Some(([u] + s, rest))
  }

  predicate IsDigit(u: Unit) { 0x30 <= u <= 0x39 }

  /** Digits, signs, the decimal point and the exponent marks. */
  predicate IsNumberUnit(u: Unit) {
    IsDigit(u) || u == 0x2B || u == 0x2D || u == 0x2E || u == 0x45 || u == 0x65
  }

  function DigitRun(t: Text): (n: nat)
    ensures n <= |t|
  {
    if t == [] || !IsDigit(t[0]) then 0 else 1 + DigitRun(t[1..])
  }

  predicate IsExponent(t: Text) {
    && |t| >= 2 && (t[0] == 0x65 || t[0] == 0x45)
    && var digits := if t[1] == 0x2B || t[1] == 0x2D then t[2..] else t[1..];
    digits != [] && DigitRun(digits) == |digits|
  }

  predicate IsFraction(t: Text) {
    && |t| >= 2 && t[0] == 0x2E
    && var n := DigitRun(t[1..]);
    n > 0 && (n + 1 == |t| || IsExponent(t[n + 1..]))
  }

  /** [ minus ] int [ frac ] [ exp ] */
  predicate IsNumber(t: Text) {
    var unsigned := if t != [] && t[0] == 0x2D then t[1..] else t;
    var n := DigitRun(unsigned);
    && n > 0 && (unsigned[0] == 0x30 ==> n == 1)
    && (n == |unsigned| || IsFraction(unsigned[n..]) || IsExponent(unsigned[n..]))
  }

  function NumberRun(t: Text): (n: nat)
    ensures n <= |t|
    ensures forall i :: 0 <= i < n ==> IsNumberUnit(t[i])
    ensures n < |t| ==> !IsNumberUnit(t[n])
  {
    if t == [] || !IsNumberUnit(t[0]) then 0 else 1 + NumberRun(t[1..])
  }

  const NULL_TEXT: Text := [0x6E, 0x75, 0x6C, 0x6C]
  const TRUE_TEXT: Text := [0x74, 0x72, 0x75, 0x65]
  const FALSE_TEXT: Text := [0x66, 0x61, 0x6C, 0x73, 0x65]

  function Punctuation(u: Unit): Option<Token> {
    if u == OPEN_BRACKET then Some(OpenBracket)
    else if u == CLOSE_BRACKET then Some(CloseBracket)
    else if u == OPEN_BRACE then Some(OpenBrace)
    else if u == CLOSE_BRACE then Some(CloseBrace)
    else if u == COLON then Some(Colon)
    else if u == COMMA then Some(Comma)
    else None
  }

  function Prepend(tokens: seq<Token>, r: Option<seq<Token>>): Option<seq<Token>> {
    if r.None? then None else Some(tokens + r.value)
  }

  /** The first token and what follows it; white space gives no token. */
  function NextToken(t: Text): (r: Option<(seq<Token>, Text)>)
    requires t != []
    ensures r.Some? ==> |r.value.1| < |t|
  {
    if IsWhitespace(t[0]) then Some(([], t[1..]))
    else if Punctuation(t[0]).Some? then Some(([Punctuation(t[0]).value], t[1..]))
    else if t[0] == QUOTE then
      match ReadString(t[1..])
      case None => None
      case Some((s, rest)) => Some(([StringToken(s)], rest))
    else if NULL_TEXT <= t then Some(([NullToken], t[4..]))
    else if TRUE_TEXT <= t then Some(([TrueToken], t[4..]))
    else if FALSE_TEXT <= t then Some(([FalseToken], t[5..]))
    else
      var n := NumberRun(t);
      if n > 0 && IsNumber(t[..n]) then Some(([NumberToken(t[..n])], t[n..])) else None
  }

  /** The tokens of a text, white space between them dropped. */
  function Lex(t: Text): Option<seq<Token>>
    decreases |t|
  {
    if t == [] then Some([])
    else match NextToken(t)
      case None => None
      case Some((tokens, rest)) => Prepend(tokens, Lex(rest))
  }

  // ----- grammar

  function ReadValue(ts: seq<Token>): (r: Option<(Json, seq<Token>)>)
    ensures r.Some? ==> |r.value.1| < |ts|
    decreases |ts|, 0
  {
    if ts == [] then None
    else match ts[0]
      case NullToken => Some((Null, ts[1..]))
      case TrueToken => Some((Bool(true), ts[1..]))
      case FalseToken => Some((Bool(false), ts[1..]))
      case NumberToken(digits) => Some((Number(digits), ts[1..]))
      case StringToken(text) => Some((Str(text), ts[1..]))
      case OpenBracket =>
        if |ts| > 1 && ts[1] == CloseBracket then Some((Arr([]), ts[2..]))
        else (match ReadItems(ts[1..])
              case None => None
              case Some((items, rest)) => Some((Arr(items), rest)))
      case OpenBrace =>
        if |ts| > 1 && ts[1] == CloseBrace then Some((Obj([]), ts[2..]))
        else (match ReadFields(ts[1..])
              case None => None
              case Some((fields, rest)) => Some((Obj(fields), rest)))
      case _ => None
  }

  function ReadItems(ts: seq<Token>): (r: Option<(seq<Json>, seq<Token>)>)
    ensures r.Some? ==> |r.value.1| < |ts|
    decreases |ts|, 1
  {
    match ReadValue(ts)
    case None => None
    case Some((item, rest)) => MoreItems(item, rest)
  }

  /** After an element: the end of the array or a comma and more elements. */
  function MoreItems(item: Json, ts: seq<Token>): (r: Option<(seq<Json>, seq<Token>)>)
    ensures r.Some? ==> |r.value.1| < |ts|
    decreases |ts|, 2
  {
    if ts == [] then None
    else if ts[0] == CloseBracket then Some(([item], ts[1..]))
    else if ts[0] != Comma then None
    else match ReadItems(ts[1..])
      case None => None
      case Some((items, rest)) => Some(([item] + items, rest))
  }

  function ReadFields(ts: seq<Token>): (r: Option<(seq<Field>, seq<Token>)>)
    ensures r.Some? ==> |r.value.1| < |ts|
    decreases |ts|, 1
  {
    if |ts| < 2 || !ts[0].StringToken? || ts[1] != Colon then None
    else match ReadValue(ts[2..])
      case None => None
      case Some((value, rest)) => MoreFields(Field(ts[0].text, value), rest)
  }

  function MoreFields(field: Field, ts: seq<Token>): (r: Option<(seq<Field>, seq<Token>)>)
    ensures r.Some? ==> |r.value.1| < |ts|
    decreases |ts|, 2
  {
    if ts == [] then None
    else if ts[0] == CloseBrace then Some(([field], ts[1..]))
    else if ts[0] != Comma then None
    else match ReadFields(ts[1..])
      case None => None
      case Some((fields, rest)) => Some(([field] + fields, rest))
  }

  /** JSON.parse, down to the list of members of every object. */
  function Parse(t: Text): Option<Json> {
    match Lex(t)
    case None => None
    case Some(tokens) =>
      match ReadValue(tokens)
      case None => None
      case Some((v, rest)) => if rest == [] then Some(v) else None
  }
}
