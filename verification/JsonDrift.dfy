/** What the drift check compares. */
module JsonDrift {
  import opened Utf16
  import opened JsonText
  import opened JsonPrinter
  import opened JsonRoundTrip
  import opened JsonKeys

  // ----- the drift check

  /** Two values have the same indented JSON only if they are the same. */
  lemma IndentedIsInjective(a: Json, b: Json)
    requires IsJson(a) && IsJson(b)
    requires Render(Indented, a, 0) == Render(Indented, b, 0)
    ensures a == b
  {
    ParseUndoesRender(Indented, a, 0);
    ParseUndoesRender(Indented, b, 0);
  }

  datatype CheckError = DriftDetected

  method CheckDrift(generated: Json, canonical: Json) returns (errors: seq<CheckError>)
    requires IsJson(generated) && IsJson(canonical)
    ensures |errors| <= 1
    ensures errors == [] <==> generated == canonical
  {
    errors := [];
    if Render(Indented, generated, 0) != Render(Indented, canonical, 0) {
      errors := errors + [DriftDetected];
    } else {
      IndentedIsInjective(generated, canonical);
    }
  }

  /** Whatever parses is a JSON value. */
  lemma ParsedIsJson(t: Text)
    requires Parse(t).Some?
    ensures IsJson(Parse(t).value)
  {
    LexedNumbers(t);
    ReadIsSound(Lex(t).value);
    var (v, rest) := ReadValue(Lex(t).value).value;
    assert Tokens(v) + [] == Tokens(v);
    NumbersFromTokens(v);
  }

  predicate NumbersAreValid(tokens: seq<Token>) {
    forall i :: 0 <= i < |tokens| && tokens[i].NumberToken? ==> IsNumber(tokens[i].digits)
  }

  lemma {:induction false} LexedNumbers(t: Text)
    ensures Lex(t).Some? ==> NumbersAreValid(Lex(t).value)
    decreases |t|
  {
    if t != [] && NextToken(t).Some? {
      LexedNumbers(NextToken(t).value.1);
    }
  }

  lemma ValidParts(a: seq<Token>, b: seq<Token>)
    ensures NumbersAreValid(a + b) <==> NumbersAreValid(a) && NumbersAreValid(b)
  {
    assert forall i :: 0 <= i < |a| ==> (a + b)[i] == a[i];
    assert forall i :: 0 <= i < |b| ==> (a + b)[|a| + i] == b[i];
  }

  lemma {:induction false} NumbersFromTokens(v: Json)
    requires NumbersAreValid(Tokens(v))
    ensures IsJson(v)
    decreases v, 0
  {
    match v
    case Number(digits) => assert Tokens(v)[0] == NumberToken(digits);
    case Arr(items) =>
      ValidParts([OpenBracket] + ItemTokens(items), [CloseBracket]);
      ValidParts([OpenBracket], ItemTokens(items));
      ItemNumbers(items);
    case Obj(fields) =>
      ValidParts([OpenBrace] + FieldTokens(fields), [CloseBrace]);
      ValidParts([OpenBrace], FieldTokens(fields));
      FieldNumbers(fields);
    case _ =>
  }

  lemma {:induction false} ItemNumbers(items: seq<Json>)
    requires NumbersAreValid(ItemTokens(items))
    ensures forall i :: 0 <= i < |items| ==> IsJson(items[i])
    decreases items
  {
    if |items| == 1 {
      NumbersFromTokens(items[0]);
    } else if |items| > 1 {
      ValidParts(Tokens(items[0]) + [Comma], ItemTokens(items[1..]));
      ValidParts(Tokens(items[0]), [Comma]);
      NumbersFromTokens(items[0]);
      ItemNumbers(items[1..]);
    }
  }

  lemma {:induction false} FieldNumbers(fields: seq<Field>)
    requires NumbersAreValid(FieldTokens(fields))
    ensures forall i :: 0 <= i < |fields| ==> IsJson(fields[i].value)
    decreases fields
  {
    if fields != [] {
      var key, value := [StringToken(fields[0].key), Colon], Tokens(fields[0].value);
      if |fields| > 1 {
        ValidParts(key + value + [Comma], FieldTokens(fields[1..]));
        ValidParts(key + value, [Comma]);
        FieldNumbers(fields[1..]);
      }
      ValidParts(key, value);
      NumbersFromTokens(fields[0].value);
    }
  }
}
