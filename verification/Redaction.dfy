/** Redaction of log contexts: what is hidden, what is kept, and what assigning to a plain object loses. */
module Redaction {
  import opened Sequences

  /** Own enumerable properties only; anything that is not an object or an array is a primitive. */
  datatype Value =
    | Primitive(text: string)
    | List(items: seq<Value>)
    | Record(fields: seq<Property>)

  datatype Property = Property(name: string, value: Value)

  const SENSITIVE_FIELDS: seq<string> := ["password", "token", "authorization", "apiKey", "apikey", "secret"]

  const REDACTED: Value := Primitive("[REDACTED]")

  /** Assigning this name sets the prototype of a plain object and adds no property to it. */
  const PROTOTYPE: string := "__proto__"

  /** The lower-casing of names is left open. */
  predicate IsSensitive(lower: string -> string, name: string) {
    lower(name) in SENSITIVE_FIELDS
  }

  function Redact(lower: string -> string, v: Value): Value
    decreases v, 0
  {
    match v
    case Primitive(_) => v
    case List(items) => List(RedactItems(lower, items))
    case Record(fields) => Record(RedactFields(lower, fields))
  }

  function RedactItems(lower: string -> string, items: seq<Value>): (r: seq<Value>)
    ensures |r| == |items|
    decreases items
  {
    if items == [] then []
    else RedactItems(lower, items[..|items| - 1]) + [Redact(lower, items[|items| - 1])]
  }

  function RedactProperty(lower: string -> string, p: Property): Property
    decreases p, 1
  {
    Property(p.name, if IsSensitive(lower, p.name) then REDACTED else Redact(lower, p.value))
  }

  function RedactFields(lower: string -> string, fields: seq<Property>): seq<Property>
    decreases fields
  {
    if fields == [] then []
    else
      var last := fields[|fields| - 1];
      RedactFields(lower, fields[..|fields| - 1])
      + if last.name == PROTOTYPE then [] else [RedactProperty(lower, last)]
  }

  // ----- the implementation

  predicate HasName(fields: seq<Property>, name: string) {
    exists i :: 0 <= i < |fields| && fields[i].name == name
  }

  ghost predicate DistinctNames(fields: seq<Property>) {
    forall i, j :: 0 <= i < j < |fields| ==> fields[i].name != fields[j].name
  }

  /** What Object.entries can yield: no record has two properties of one name. */
  ghost predicate IsObjectTree(v: Value)
    decreases v
  {
    match v
    case Primitive(_) => true
    case List(items) => forall i :: 0 <= i < |items| ==> IsObjectTree(items[i])
    case Record(fields) =>
      DistinctNames(fields) && forall i :: 0 <= i < |fields| ==> IsObjectTree(fields[i].value)
  }

  /** redacted[name] = value on a plain object. */
  function Assign(record: seq<Property>, name: string, value: Value): seq<Property> {
    if name == PROTOTYPE then record
    else if HasName(record, name) then Replace(record, name, value)
    else record + [Property(name, value)]
  }

  function Replace(record: seq<Property>, name: string, value: Value): seq<Property> {
    if record == [] then []
    else if record[0].name == name then [Property(name, value)] + record[1..]
    else [record[0]] + Replace(record[1..], name, value)
  }

  lemma {:induction false} RedactedNamesAreOwn(lower: string -> string, fields: seq<Property>)
    ensures forall i :: 0 <= i < |RedactFields(lower, fields)| ==> HasName(fields, RedactFields(lower, fields)[i].name)
  {
    if fields != [] {
      var front, last := fields[..|fields| - 1], fields[|fields| - 1];
      RedactedNamesAreOwn(lower, front);
      forall name ensures HasName(front, name) || name == last.name ==> HasName(fields, name) {
        assert fields[|fields| - 1].name == last.name;
        if j :| 0 <= j < |front| && front[j].name == name { assert fields[j].name == name; }
      }
    }
  }

  lemma NameIsNew(lower: string -> string, fields: seq<Property>, i: nat)
    requires i < |fields| && DistinctNames(fields)
    ensures !HasName(RedactFields(lower, fields[..i]), fields[i].name)
  {
    RedactedNamesAreOwn(lower, fields[..i]);
    forall j | 0 <= j < i ensures fields[..i][j].name != fields[i].name {
      assert fields[..i][j] == fields[j];
    }
  }

  lemma AssignNew(record: seq<Property>, name: string, value: Value)
    requires !HasName(record, name)
    ensures Assign(record, name, value) == record + if name == PROTOTYPE then [] else [Property(name, value)]
  {
    assert record + [] == record;
  }

  lemma RedactStep(lower: string -> string, fields: seq<Property>, i: nat)
    requires i < |fields| && DistinctNames(fields)
    ensures RedactFields(lower, fields[..i + 1]) ==
            Assign(RedactFields(lower, fields[..i]), fields[i].name, RedactProperty(lower, fields[i]).value)
  {
    NameIsNew(lower, fields, i);
    AssignNew(RedactFields(lower, fields[..i]), fields[i].name, RedactProperty(lower, fields[i]).value);
    PrefixStep(fields, i);
    AppendField(lower, fields[..i], fields[i]);
  }

  method RedactSensitive(lower: string -> string, obj: Value) returns (r: Value)
    requires IsObjectTree(obj)
    ensures r == Redact(lower, obj)
    ensures NoSecretIsLeft(lower, r)
    decreases obj
  {
    RedactedHasNoSecret(lower, obj);
    match obj
    case Primitive(_) => return obj;
    case List(items) =>
      var mapped: seq<Value> := [];
      for i := 0 to |items|
        invariant mapped == RedactItems(lower, items[..i])
      {
        var item := RedactSensitive(lower, items[i]);
        assert items[..i + 1][..i] == items[..i];
        mapped := mapped + [item];
      }
      assert items[..|items|] == items;
      return List(mapped);
    case Record(fields) =>
      var redacted: seq<Property> := [];
      for i := 0 to |fields|
        invariant redacted == RedactFields(lower, fields[..i])
      {
        var key, value := fields[i].name, fields[i].value;
        RedactStep(lower, fields, i);
        if IsSensitive(lower, key) {
          redacted := Assign(redacted, key, REDACTED);
        } else if !value.Primitive? {
          var inner := RedactSensitive(lower, value);
          redacted := Assign(redacted, key, inner);
        } else {
          redacted := Assign(redacted, key, value);
        }
      }
      assert fields[..|fields|] == fields;
      return Record(redacted);
  }

  // ----- what the result shows

  /** Every property with one of the six names, compared in lower case, holds the placeholder, at any
      depth and inside arrays. */
  ghost predicate NoSecretIsLeft(lower: string -> string, v: Value)
    decreases v
  {
    match v
    case Primitive(_) => true
    case List(items) => forall i :: 0 <= i < |items| ==> NoSecretIsLeft(lower, items[i])
    case Record(fields) => forall i :: 0 <= i < |fields| ==>
        if lower(fields[i].name) in ["password", "token", "authorization", "apiKey", "apikey", "secret"]
        then fields[i].value == Primitive("[REDACTED]")
        else NoSecretIsLeft(lower, fields[i].value)
  }

  lemma {:induction false} RedactedHasNoSecret(lower: string -> string, v: Value)
    ensures NoSecretIsLeft(lower, Redact(lower, v))
    decreases v, 0
  {
    match v
    case Primitive(_) =>
    case List(items) => RedactedItemsHaveNoSecret(lower, items);
    case Record(fields) => RedactedFieldsHaveNoSecret(lower, fields);
  }

  lemma {:induction false} RedactedItemsHaveNoSecret(lower: string -> string, items: seq<Value>)
    ensures NoSecretIsLeft(lower, List(RedactItems(lower, items)))
    decreases items, 0
  {
    if items != [] {
      RedactedItemsHaveNoSecret(lower, items[..|items| - 1]);
      RedactedHasNoSecret(lower, items[|items| - 1]);
    }
  }

  lemma {:induction false} RedactedFieldsHaveNoSecret(lower: string -> string, fields: seq<Property>)
    ensures NoSecretIsLeft(lower, Record(RedactFields(lower, fields)))
    decreases fields, 0
  {
    if fields != [] {
      RedactedFieldsHaveNoSecret(lower, fields[..|fields| - 1]);
      RedactedHasNoSecret(lower, fields[|fields| - 1].value);
    }
  }

  /** The same name, and the placeholder if its lower-case form is one of the six, else the redaction of
      the property's own value. */
  ghost predicate IsRedactionOf(lower: string -> string, r: Property, p: Property) {
    && r.name == p.name
    && r.value == if lower(p.name) in ["password", "token", "authorization", "apiKey", "apikey", "secret"]
                  then Primitive("[REDACTED]") else Redact(lower, p.value)
  }

  lemma RedactedPropertyIs(lower: string -> string, p: Property)
    ensures IsRedactionOf(lower, RedactProperty(lower, p), p)
  {}

  lemma RedactOneMore(lower: string -> string, fields: seq<Property>, i: nat)
    requires i < |fields|
    ensures RedactFields(lower, fields[..i + 1]) ==
            RedactFields(lower, fields[..i]) + if fields[i].name == "__proto__" then [] else [RedactProperty(lower, fields[i])]
  {
    PrefixStep(fields, i);
    AppendField(lower, fields[..i], fields[i]);
  }

  lemma {:induction false} RedactedPrefix(lower: string -> string, fields: seq<Property>, i: nat)
    requires i <= |fields|
    ensures RedactFields(lower, fields[..i]) <= RedactFields(lower, fields)
    decreases |fields| - i
  {
    if i < |fields| {
      RedactedPrefix(lower, fields, i + 1);
      RedactOneMore(lower, fields, i);
    } else {
      assert fields[..i] == fields;
    }
  }

  /** Of a record, the properties not named __proto__ keep their order, and each of them is redacted for
      itself. */
  lemma RedactedProperties(lower: string -> string, fields: seq<Property>, i: nat)
    requires i < |fields|
    ensures var r, k, next := RedactFields(lower, fields), |RedactFields(lower, fields[..i])|, |RedactFields(lower, fields[..i + 1])|;
            if fields[i].name == "__proto__" then next == k
            else next == k + 1 && k < |r| && IsRedactionOf(lower, r[k], fields[i])
  {
    RedactOneMore(lower, fields, i);
    RedactedPrefix(lower, fields, i + 1);
    RedactedPropertyIs(lower, fields[i]);
  }

  /** An array holds the redactions of its elements, in order; anything else is kept. */
  lemma {:induction false} RedactedElements(lower: string -> string, items: seq<Value>, i: nat)
    requires i < |items|
    ensures Redact(lower, List(items)).List? && |Redact(lower, List(items)).items| == |items|
    ensures Redact(lower, List(items)).items[i] == Redact(lower, items[i])
  {
    if i < |items| - 1 { RedactedElements(lower, items[..|items| - 1], i); }
  }

  // ----- idempotence

  /** Redacting again changes nothing. */
  lemma {:induction false} RedactTwice(lower: string -> string, v: Value)
    ensures Redact(lower, Redact(lower, v)) == Redact(lower, v)
    decreases v, 0
  {
    match v
    case Primitive(_) =>
    case List(items) => RedactItemsTwice(lower, items);
    case Record(fields) => RedactFieldsTwice(lower, fields);
  }

  lemma {:induction false} RedactItemsTwice(lower: string -> string, items: seq<Value>)
    ensures RedactItems(lower, RedactItems(lower, items)) == RedactItems(lower, items)
    decreases items, 0
  {
    if items != [] {
      var front, last := items[..|items| - 1], items[|items| - 1];
      RedactTwice(lower, last);
      RedactItemsTwice(lower, front);
      AppendItem(lower, RedactItems(lower, front), Redact(lower, last));
    }
  }

  lemma AppendItem(lower: string -> string, items: seq<Value>, last: Value)
    ensures RedactItems(lower, items + [last]) == RedactItems(lower, items) + [Redact(lower, last)]
  {
    assert (items + [last])[..|items|] == items;
  }

  lemma AppendField(lower: string -> string, fields: seq<Property>, last: Property)
    ensures RedactFields(lower, fields + [last]) ==
            RedactFields(lower, fields) + if last.name == PROTOTYPE then [] else [RedactProperty(lower, last)]
  {
    assert (fields + [last])[..|fields|] == fields;
  }

  lemma {:induction false} RedactFieldsTwice(lower: string -> string, fields: seq<Property>)
    ensures RedactFields(lower, RedactFields(lower, fields)) == RedactFields(lower, fields)
    decreases fields, 0
  {
    if fields != [] {
      var front, last := fields[..|fields| - 1], fields[|fields| - 1];
      RedactFieldsTwice(lower, front);
      RedactTwice(lower, last.value);
      if last.name != PROTOTYPE {
        AppendField(lower, RedactFields(lower, front), RedactProperty(lower, last));
      } else {
        assert RedactFields(lower, front) + [] == RedactFields(lower, front);
      }
    }
  }

  // ----- non-interference

  /** The same tree except for the values of sensitive properties, at any depth and inside arrays, and
      for properties named like the prototype, which never reach the log. */
  ghost predicate AgreeOutsideSecrets(lower: string -> string, v: Value, w: Value)
    decreases v, 0
  {
    match (v, w)
    case (Primitive(_), Primitive(_)) => v == w
    case (List(a), List(b)) => |a| == |b| && forall i :: 0 <= i < |a| ==> AgreeOutsideSecrets(lower, a[i], b[i])
    case (Record(a), Record(b)) => FieldsAgree(lower, a, b)
    case _ => false
  }

  ghost predicate FieldsAgree(lower: string -> string, a: seq<Property>, b: seq<Property>)
    decreases a, |b|
  {
    if a != [] && a[|a| - 1].name == PROTOTYPE then FieldsAgree(lower, a[..|a| - 1], b)
    else if b != [] && b[|b| - 1].name == PROTOTYPE then FieldsAgree(lower, a, b[..|b| - 1])
    else if a == [] || b == [] then a == b
    else
      var x, y := a[|a| - 1], b[|b| - 1];
      && x.name == y.name
      && (IsSensitive(lower, x.name) || AgreeOutsideSecrets(lower, x.value, y.value))
      && FieldsAgree(lower, a[..|a| - 1], b[..|b| - 1])
  }

  /** Redaction forgets the values of sensitive properties and whatever is named like the prototype, and
      nothing else: two trees are redacted alike exactly when they agree outside of these. */
  lemma {:induction false} ForgetsExactlyTheSecrets(lower: string -> string, v: Value, w: Value)
    ensures Redact(lower, v) == Redact(lower, w) <==> AgreeOutsideSecrets(lower, v, w)
    decreases v, 0
  {
    match (v, w)
    case (List(a), List(b)) => ItemsForgetExactly(lower, a, b);
    case (Record(a), Record(b)) => FieldsForgetExactly(lower, a, b);
    case _ =>
  }

  lemma {:induction false} ItemsForgetExactly(lower: string -> string, a: seq<Value>, b: seq<Value>)
    ensures RedactItems(lower, a) == RedactItems(lower, b) <==>
            |a| == |b| && forall i :: 0 <= i < |a| ==> AgreeOutsideSecrets(lower, a[i], b[i])
    decreases a, 0
  {
    if |a| == |b| && a != [] {
      var n := |a| - 1;
      ItemsForgetExactly(lower, a[..n], b[..n]);
      ForgetsExactlyTheSecrets(lower, a[n], b[n]);
      AppendEquality(RedactItems(lower, a[..n]), Redact(lower, a[n]), RedactItems(lower, b[..n]), Redact(lower, b[n]));
    }
  }

  lemma {:induction false} FieldsForgetExactly(lower: string -> string, a: seq<Property>, b: seq<Property>)
    ensures RedactFields(lower, a) == RedactFields(lower, b) <==> FieldsAgree(lower, a, b)
    decreases a, |b|
  {
    if a != [] && a[|a| - 1].name == PROTOTYPE {
      FieldsForgetExactly(lower, a[..|a| - 1], b);
      PrototypeIsDropped(lower, a);
    } else if b != [] && b[|b| - 1].name == PROTOTYPE {
      FieldsForgetExactly(lower, a, b[..|b| - 1]);
      PrototypeIsDropped(lower, b);
    } else if a != [] && b != [] {
      var x, y := a[|a| - 1], b[|b| - 1];
      FieldsForgetExactly(lower, a[..|a| - 1], b[..|b| - 1]);
      ForgetsExactlyTheSecrets(lower, x.value, y.value);
      AppendEquality(RedactFields(lower, a[..|a| - 1]), RedactProperty(lower, x),
                 RedactFields(lower, b[..|b| - 1]), RedactProperty(lower, y));
    }
  }

  lemma PrototypeIsDropped(lower: string -> string, fields: seq<Property>)
    requires fields != [] && fields[|fields| - 1].name == PROTOTYPE
    ensures RedactFields(lower, fields) == RedactFields(lower, fields[..|fields| - 1])
  {}

  ghost predicate PropertiesAgree(lower: string -> string, x: Property, y: Property) {
    x.name == y.name && (IsSensitive(lower, x.name) || AgreeOutsideSecrets(lower, x.value, y.value))
  }

  ghost predicate NoPrototype(fields: seq<Property>) {
    forall i :: 0 <= i < |fields| ==> fields[i].name != PROTOTYPE
  }

  /** Where no name is the prototype's, records agree property by property. */
  lemma {:induction false} FieldsAgreeByPosition(lower: string -> string, a: seq<Property>, b: seq<Property>)
    requires NoPrototype(a) && NoPrototype(b)
    ensures FieldsAgree(lower, a, b) <==>
            |a| == |b| && forall i :: 0 <= i < |a| ==> PropertiesAgree(lower, a[i], b[i])
  {
    if a != [] && b != [] {
      var n, m := |a| - 1, |b| - 1;
      FieldsAgreeByPosition(lower, a[..n], b[..m]);
      assert FieldsAgree(lower, a, b) <==> PropertiesAgree(lower, a[n], b[m]) && FieldsAgree(lower, a[..n], b[..m]);
      if n == m && FieldsAgree(lower, a, b) {
        forall i | 0 <= i < |a| ensures PropertiesAgree(lower, a[i], b[i]) {
          if i < n { assert PropertiesAgree(lower, a[..n][i], b[..m][i]); }
        }
      }
      if n == m && forall i :: 0 <= i < |a| ==> PropertiesAgree(lower, a[i], b[i]) {
        assert forall i :: 0 <= i < n ==> PropertiesAgree(lower, a[..n][i], b[..m][i]);
      }
    }
  }

  /** A property whose value never reaches the log. */
  predicate IsHidden(lower: string -> string, name: string) {
    IsSensitive(lower, name) || name == PROTOTYPE
  }

  /** The same shape and the same values, except for the values of hidden properties. */
  ghost predicate DifferOnlyInSecrets(lower: string -> string, v: Value, w: Value)
    decreases v
  {
    match (v, w)
    case (Primitive(_), Primitive(_)) => v == w
    case (List(a), List(b)) => |a| == |b| && forall i :: 0 <= i < |a| ==> DifferOnlyInSecrets(lower, a[i], b[i])
    case (Record(a), Record(b)) =>
      |a| == |b| && forall i :: 0 <= i < |a| ==>
        a[i].name == b[i].name && (IsHidden(lower, a[i].name) || DifferOnlyInSecrets(lower, a[i].value, b[i].value))
    case _ => false
  }

  /** Trees that differ only in hidden values are redacted to the same tree. */
  lemma {:induction false} SecretsDoNotInterfere(lower: string -> string, v: Value, w: Value)
    requires DifferOnlyInSecrets(lower, v, w)
    ensures Redact(lower, v) == Redact(lower, w)
    decreases v, 0
  {
    match v
    case Primitive(_) =>
    case List(items) => SecretItems(lower, items, w.items);
    case Record(fields) => SecretFields(lower, fields, w.fields);
  }

  lemma {:induction false} SecretItems(lower: string -> string, a: seq<Value>, b: seq<Value>)
    requires |a| == |b| && forall i :: 0 <= i < |a| ==> DifferOnlyInSecrets(lower, a[i], b[i])
    ensures RedactItems(lower, a) == RedactItems(lower, b)
    decreases a, 0
  {
    if a != [] {
      SecretItems(lower, a[..|a| - 1], b[..|b| - 1]);
      SecretsDoNotInterfere(lower, a[|a| - 1], b[|b| - 1]);
    }
  }

  lemma {:induction false} SecretFields(lower: string -> string, a: seq<Property>, b: seq<Property>)
    requires DifferOnlyInSecrets(lower, Record(a), Record(b))
    ensures RedactFields(lower, a) == RedactFields(lower, b)
    decreases a, 0
  {
    if a != [] {
      var x, y := a[|a| - 1], b[|b| - 1];
      assert DifferOnlyInSecrets(lower, Record(a[..|a| - 1]), Record(b[..|b| - 1]));
      SecretFields(lower, a[..|a| - 1], b[..|b| - 1]);
      if !IsHidden(lower, x.name) { SecretsDoNotInterfere(lower, x.value, y.value); }
    }
  }

  lemma {:induction false} RedactedLength(lower: string -> string, fields: seq<Property>)
    ensures |RedactFields(lower, fields)| <= |fields|
    ensures |RedactFields(lower, fields)| == |fields| <==> forall i :: 0 <= i < |fields| ==> fields[i].name != PROTOTYPE
  {
    if fields != [] { RedactedLength(lower, fields[..|fields| - 1]); }
  }

  lemma {:induction false} RedactedAt(lower: string -> string, fields: seq<Property>, i: nat)
    requires i < |fields| && forall i :: 0 <= i < |fields| ==> fields[i].name != PROTOTYPE
    ensures |RedactFields(lower, fields)| == |fields|
    ensures RedactFields(lower, fields)[i] == RedactProperty(lower, fields[i])
  {
    RedactedLength(lower, fields);
    var front := fields[..|fields| - 1];
    RedactedLength(lower, front);
    if i < |front| { RedactedAt(lower, front, i); }
  }

  /** A record keeps its list of names exactly when none of them is the prototype's; an array always
      keeps its length. */
  lemma NamesAreKeptExactlyWhen(lower: string -> string, fields: seq<Property>)
    ensures (|RedactFields(lower, fields)| == |fields|
             && forall i :: 0 <= i < |fields| ==> RedactFields(lower, fields)[i].name == fields[i].name)
            <==> forall i :: 0 <= i < |fields| ==> fields[i].name != PROTOTYPE
  {
    RedactedLength(lower, fields);
    if forall i :: 0 <= i < |fields| ==> fields[i].name != PROTOTYPE {
      forall i | 0 <= i < |fields| { RedactedAt(lower, fields, i); }
    }
  }
}
