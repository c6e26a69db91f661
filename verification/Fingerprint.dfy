/** The request fingerprint: which parts of a JSON body reach the hash, and in which order. */
module Fingerprint {
  import opened Options
  import opened Sequences
  import opened Utf16
  import opened JsonText
  import opened JsonPrinter
  import opened JsonRoundTrip
  import opened RollingHash

  // ----- the order of property names

  /** Code-unit order, the default of Array.prototype.sort. */
  predicate Less(a: Text, b: Text)
    decreases |a|
  {
    b != [] && (a == [] || a[0] < b[0] || (a[0] == b[0] && Less(a[1..], b[1..])))
  }

  /** The texts agree before position k, where the first ends or has the smaller unit. */
  ghost predicate SmallerAt(a: Text, b: Text, k: int) {
    && 0 <= k <= |a| && k < |b|
    && (forall j :: 0 <= j < k ==> a[j] == b[j])
    && (k == |a| || a[k] < b[k])
  }

  /** The first unit that differs decides, and a text precedes its extensions. */
  lemma {:induction false} LessIsCodeUnitOrder(a: Text, b: Text)
    ensures Less(a, b) <==> exists k :: SmallerAt(a, b, k)
    decreases |a|
  {
    if b != [] {
      if a == [] || a[0] != b[0] {
        assert SmallerAt(a, b, 0) <==> Less(a, b);
        assert forall k :: SmallerAt(a, b, k) ==> k == 0;
      } else {
        LessIsCodeUnitOrder(a[1..], b[1..]);
        if k :| SmallerAt(a, b, k) { assert SmallerAt(a[1..], b[1..], k - 1); }
        if k :| SmallerAt(a[1..], b[1..], k) { SmallerBehind(a, b, k); }
      }
    }
  }

  lemma SmallerBehind(a: Text, b: Text, k: int)
    requires a != [] && b != [] && a[0] == b[0] && SmallerAt(a[1..], b[1..], k)
    ensures SmallerAt(a, b, k + 1)
  {
    forall j | 0 <= j < k + 1 ensures a[j] == b[j] {
      if j > 0 { assert a[1..][j - 1] == b[1..][j - 1]; }
    }
  }

  lemma {:induction false} LessIsTotal(a: Text, b: Text)
    ensures Less(a, b) || a == b || Less(b, a)
    ensures !(Less(a, b) && Less(b, a)) && !Less(a, a)
    decreases |a|
  {
    if a != [] {
      LessIsTotal(a[1..], a[1..]);
      if b != [] {
        LessIsTotal(a[1..], b[1..]);
        assert a == [a[0]] + a[1..] && b == [b[0]] + b[1..];
      }
    }
  }

  lemma {:induction false} LessIsTransitive(a: Text, b: Text, c: Text)
    requires Less(a, b) && Less(b, c)
    ensures Less(a, c)
    decreases |a|
  {
    if a != [] && a[0] == b[0] && b[0] == c[0] {
      LessIsTransitive(a[1..], b[1..], c[1..]);
    }
  }

  ghost predicate Ascending(s: seq<Text>) {
    forall i, j :: 0 <= i < j < |s| ==> Less(s[i], s[j])
  }

  function Insert(x: Text, s: seq<Text>): seq<Text> {
    if s == [] then [x]
    else if x == s[0] then s
    else if Less(x, s[0]) then [x] + s
    else [s[0]] + Insert(x, s[1..])
  }

  /** The names sorted; a repeated name counts once, as it does in a property list. */
  function SortNames(names: seq<Text>): seq<Text> {
    if names == [] then [] else Insert(names[0], SortNames(names[1..]))
  }

  lemma {:induction false} InsertKeepsOrder(x: Text, s: seq<Text>)
    requires Ascending(s)
    ensures Ascending(Insert(x, s))
    ensures forall y :: y in Insert(x, s) <==> y == x || y in s
  {
    if s != [] && x != s[0] {
      if Less(x, s[0]) {
        forall j | 0 <= j < |s| ensures Less(x, s[j]) {
          if j > 0 { LessIsTransitive(x, s[0], s[j]); }
        }
      } else {
        LessIsTotal(x, s[0]);
        InsertKeepsOrder(x, s[1..]);
        var t := Insert(x, s[1..]);
        forall j | 0 <= j < |t| ensures Less(s[0], t[j]) {
          assert t[j] in t;
        }
      }
    }
  }

  lemma {:induction false} SortedNames(names: seq<Text>)
    ensures Ascending(SortNames(names))
    ensures forall y :: y in SortNames(names) <==> y in names
  {
    if names != [] {
      SortedNames(names[1..]);
      InsertKeepsOrder(names[0], SortNames(names[1..]));
    }
  }

  lemma {:induction false} AscendingIsUnique(s: seq<Text>, t: seq<Text>)
    requires Ascending(s) && Ascending(t)
    requires forall y :: y in s <==> y in t
    ensures s == t
  {
    assert |s| > 0 ==> s[0] in t;
    assert |t| > 0 ==> t[0] in s;
    if s != [] {
      LeastIsEqual(s, t);
      forall y ensures y in s[1..] <==> y in t[1..] {
        TailMembers(s, y);
        TailMembers(t, y);
      }
      AscendingIsUnique(s[1..], t[1..]);
      assert s == [s[0]] + s[1..] && t == [t[0]] + t[1..];
    }
  }

  lemma LeastIsEqual(s: seq<Text>, t: seq<Text>)
    requires Ascending(s) && Ascending(t) && s != [] && t != []
    requires s[0] in t && t[0] in s
    ensures s[0] == t[0]
  {
    if s[0] != t[0] {
      LessIsTotal(s[0], t[0]);
      assert false;
    }
  }

  lemma TailMembers(s: seq<Text>, y: Text)
    requires Ascending(s) && s != []
    ensures y in s[1..] <==> y in s && y != s[0]
  {
    LessIsTotal(s[0], s[0]);
    assert s == [s[0]] + s[1..];
  }

  // ----- what JSON.stringify keeps under a property list

  predicate HasKey(fields: seq<Field>, key: Text) {
    exists i :: 0 <= i < |fields| && fields[i].key == key
  }

  /** The property read by name. */
  function Lookup(fields: seq<Field>, key: Text): (v: Json)
    requires HasKey(fields, key)
    ensures exists i :: 0 <= i < |fields| && fields[i] == Field(key, v)
  {
    if fields[|fields| - 1].key == key then fields[|fields| - 1].value
    else Lookup(fields[..|fields| - 1], key)
  }

  /** The name __proto__. */
  const PROTOTYPE: Text := [0x5F, 0x5F, 0x70, 0x72, 0x6F, 0x74, 0x6F, 0x5F, 0x5F]

  /** Object.prototype as it is printed where __proto__ is listed: its own prototype is null. */
  const OBJECT_PROTOTYPE: Json := Obj([Field(PROTOTYPE, Null)])

  /** The value JSON.stringify sees under a property list (section 25.5.2.5 of ECMA-262): every
      object, at any depth, has the listed properties that can be read from it, in the order of the list. */
  function Project(v: Json, list: seq<Text>): Json
    decreases v, 0
  {
    match v
    case Arr(items) => Arr(ProjectItems(items, list))
    case Obj(fields) => Obj(ProjectFields(fields, list, list))
    case _ => v
  }

  function ProjectItems(items: seq<Json>, list: seq<Text>): (r: seq<Json>)
    ensures |r| == |items|
    decreases items
  {
    if items == [] then [] else [Project(items[0], list)] + ProjectItems(items[1..], list)
  }

  function ProjectFields(fields: seq<Field>, names: seq<Text>, list: seq<Text>): seq<Field>
    decreases fields, |names|
  {
    if names == [] then []
    else
      (if CanRead(fields, names[0]) then [Field(names[0], ReadProperty(fields, names[0], list))] else [])
      + ProjectFields(fields, names[1..], list)
  }

  /** A listed name is read whether it is own or inherited.  Of what a plain object inherits, all are
      functions, which are not printed, except __proto__. */
  predicate CanRead(fields: seq<Field>, key: Text) {
    HasKey(fields, key) || key == PROTOTYPE
  }

  function ReadProperty(fields: seq<Field>, key: Text, list: seq<Text>): Json
    requires CanRead(fields, key)
    decreases fields, 0
  {
    if HasKey(fields, key) then Project(Lookup(fields, key), list) else OBJECT_PROTOTYPE
  }

  function KeysOf(fields: seq<Field>): (keys: seq<Text>)
    ensures |keys| == |fields| && forall i :: 0 <= i < |fields| ==> keys[i] == fields[i].key
  {
    if fields == [] then [] else [fields[0].key] + KeysOf(fields[1..])
  }

  /** Decimal digits of an array index. */
  function Decimal(n: nat): Text {
    if n < 10 then [0x30 + n] else Decimal(n / 10) + [0x30 + n % 10]
  }

  function IndexKeys(n: nat): seq<Text> {
    if n == 0 then [] else IndexKeys(n - 1) + [Decimal(n - 1)]
  }

  /** Object.keys(body).sort(). */
  function PropertyList(body: Json): seq<Text> {
    match body
    case Obj(fields) => SortNames(KeysOf(fields))
    case Arr(items) => SortNames(IndexKeys(|items|))
    case _ => []
  }

  /** Only objects and arrays contribute; anything else, and an absent body, counts as empty. */
  function NormalizedBody(body: Json): Text {
    if body.Obj? || body.Arr? then Render(Compact, Project(body, PropertyList(body)), 0) else []
  }

  function DecimalValue(t: Text): int {
    if t == [] then 0 else 10 * DecimalValue(t[..|t| - 1]) + (t[|t| - 1] as int - 0x30)
  }

  /** Decimal digits without leading zeros. */
  lemma {:induction false} DecimalReads(n: nat)
    ensures DecimalValue(Decimal(n)) == n && Decimal(n) != []
    ensures forall i :: 0 <= i < |Decimal(n)| ==> 0x30 <= Decimal(n)[i] <= 0x39
    ensures n > 0 ==> Decimal(n)[0] != 0x30
  {
    if n < 10 {
      assert Decimal(n)[..0] == [];
    } else {
      DecimalReads(n / 10);
      assert Decimal(n)[..|Decimal(n)| - 1] == Decimal(n / 10);
    }
  }

  ghost predicate IsIndexBelow(n: nat, key: Text) {
    exists k: nat :: k < n && key == Decimal(k)
  }

  lemma OneMoreIndex(n: nat, key: Text)
    ensures IsIndexBelow(n + 1, key) <==> IsIndexBelow(n, key) || key == Decimal(n)
  {
    if k: nat :| k < n + 1 && key == Decimal(k) {
      assert k < n || key == Decimal(n);
    }
  }

  lemma {:induction false} IndexKeyMembers(n: nat, key: Text)
    ensures key in IndexKeys(n) <==> IsIndexBelow(n, key)
  {
    if n > 0 {
      IndexKeyMembers(n - 1, key);
      OneMoreIndex(n - 1, key);
    }
  }

  /** The property list is strictly ascending and has the names of an object, or the indices of an array. */
  lemma PropertyListMembers(body: Json, key: Text)
    ensures Ascending(PropertyList(body))
    ensures body.Obj? ==> (key in PropertyList(body) <==> exists i :: 0 <= i < |body.fields| && body.fields[i].key == key)
    ensures body.Arr? ==> (key in PropertyList(body) <==> IsIndexBelow(|body.items|, key))
  {
    match body
    case Obj(fields) =>
      SortedNames(KeysOf(fields));
      KeysAreMembers(fields, key);
    case Arr(items) =>
      SortedNames(IndexKeys(|items|));
      IndexKeyMembers(|items|, key);
    case _ =>
  }

  lemma {:induction false} ProjectedKeys(fields: seq<Field>, names: seq<Text>, list: seq<Text>)
    requires Ascending(names)
    ensures Ascending(KeysOf(ProjectFields(fields, names, list)))
    ensures forall key :: key in KeysOf(ProjectFields(fields, names, list)) ==> key in names
  {
    if names != [] {
      var rest := KeysOf(ProjectFields(fields, names[1..], list));
      forall key { TailMembers(names, key); }
      ProjectedKeys(fields, names[1..], list);
      forall key | key in rest ensures Less(names[0], key) {
        var i := 1 + IndexIn(names[1..], key);
        assert names[i] == key;
      }
      if CanRead(fields, names[0]) { AscendingHead(names[0], rest); }
    }
  }

  function IndexIn(s: seq<Text>, x: Text): (i: nat)
    requires x in s
    ensures i < |s| && s[i] == x
  {
    if s[0] == x then 0 else 1 + IndexIn(s[1..], x)
  }

  lemma AscendingHead(x: Text, s: seq<Text>)
    requires Ascending(s) && forall y :: y in s ==> Less(x, y)
    ensures Ascending([x] + s)
  {}

  /** Every object of a projection, at any depth, has its names in ascending order. */
  ghost predicate KeysAscend(v: Json)
    decreases v
  {
    match v
    case Arr(items) => forall i :: 0 <= i < |items| ==> KeysAscend(items[i])
    case Obj(fields) => Ascending(KeysOf(fields)) && forall i :: 0 <= i < |fields| ==> KeysAscend(fields[i].value)
    case _ => true
  }

  lemma {:induction false} ProjectionIsSorted(v: Json, list: seq<Text>)
    requires Ascending(list)
    ensures KeysAscend(Project(v, list))
    decreases v, 0
  {
    match v
    case Arr(items) => ProjectedItemsAreSorted(items, list);
    case Obj(fields) =>
      ProjectedKeys(fields, list, list);
      ProjectedFieldsAreSorted(fields, list, list);
    case _ =>
  }

  lemma {:induction false} ProjectedItemsAreSorted(items: seq<Json>, list: seq<Text>)
    requires Ascending(list)
    ensures forall i :: 0 <= i < |items| ==> KeysAscend(ProjectItems(items, list)[i])
    decreases items, 0
  {
    if items != [] {
      ProjectionIsSorted(items[0], list);
      ProjectedItemsAreSorted(items[1..], list);
    }
  }

  lemma {:induction false} ProjectedFieldsAreSorted(fields: seq<Field>, names: seq<Text>, list: seq<Text>)
    requires Ascending(list)
    ensures forall i :: 0 <= i < |ProjectFields(fields, names, list)| ==> KeysAscend(ProjectFields(fields, names, list)[i].value)
    decreases fields, |names|
  {
    if names != [] {
      if HasKey(fields, names[0]) { ProjectionIsSorted(Lookup(fields, names[0]), list); }
      ObjectPrototypeIsSorted();
      ProjectedFieldsAreSorted(fields, names[1..], list);
    }
  }

  lemma ObjectPrototypeIsSorted()
    ensures KeysAscend(OBJECT_PROTOTYPE)
  {
    assert |KeysOf(OBJECT_PROTOTYPE.fields)| == 1;
  }

  // ----- values up to the order of properties

  /** A JSON value with the order of properties forgotten at every depth. */
  datatype Meaning = Atom(v: Json) | List(items: seq<Meaning>) | Record(fields: map<Text, Meaning>)

  function MeaningOf(v: Json): Meaning
    decreases v, 0
  {
    match v
    case Arr(items) => List(MeaningOfItems(items))
    case Obj(fields) => Record(MeaningOfFields(fields))
    case _ => Atom(v)
  }

  function MeaningOfItems(items: seq<Json>): (r: seq<Meaning>)
    ensures |r| == |items|
    decreases items
  {
    if items == [] then [] else [MeaningOf(items[0])] + MeaningOfItems(items[1..])
  }

  function MeaningOfFields(fields: seq<Field>): map<Text, Meaning>
    decreases fields
  {
    if fields == [] then map[]
    else
      var last := fields[|fields| - 1];
      MeaningOfFields(fields[..|fields| - 1])[last.key := MeaningOf(last.value)]
  }

  lemma HasKeyStep(fields: seq<Field>, key: Text)
    requires fields != []
    ensures HasKey(fields, key) <==> fields[|fields| - 1].key == key || HasKey(fields[..|fields| - 1], key)
  {
    var front := fields[..|fields| - 1];
    if HasKey(fields, key) && fields[|fields| - 1].key != key {
      var i :| 0 <= i < |fields| && fields[i].key == key;
      assert front[i].key == key;
    }
    if HasKey(front, key) {
      var i :| 0 <= i < |front| && front[i].key == key;
      assert fields[i].key == key;
    }
  }

  lemma {:induction false} MeaningOfProperty(fields: seq<Field>, key: Text)
    ensures key in MeaningOfFields(fields) <==> HasKey(fields, key)
    ensures HasKey(fields, key) ==> MeaningOfFields(fields)[key] == MeaningOf(Lookup(fields, key))
  {
    if fields != [] {
      HasKeyStep(fields, key);
      MeaningOfProperty(fields[..|fields| - 1], key);
    }
  }

  /** Values that agree up to the order of properties are projected alike. */
  lemma {:induction false} SameMeaningSameProjection(a: Json, b: Json, list: seq<Text>)
    requires MeaningOf(a) == MeaningOf(b)
    ensures Project(a, list) == Project(b, list)
    decreases a, 0
  {
    match a
    case Arr(items) => SameItemsSameProjection(items, b.items, list);
    case Obj(fields) => SameFieldsSameProjection(fields, b.fields, list, list);
    case _ =>
  }

  lemma {:induction false} SameItemsSameProjection(a: seq<Json>, b: seq<Json>, list: seq<Text>)
    requires MeaningOfItems(a) == MeaningOfItems(b)
    ensures ProjectItems(a, list) == ProjectItems(b, list)
    decreases a, 0
  {
    if a != [] {
      assert MeaningOfItems(a)[0] == MeaningOfItems(b)[0];
      assert MeaningOfItems(a)[1..] == MeaningOfItems(a[1..]);
      assert MeaningOfItems(b)[1..] == MeaningOfItems(b[1..]);
      SameMeaningSameProjection(a[0], b[0], list);
      SameItemsSameProjection(a[1..], b[1..], list);
    }
  }

  lemma {:induction false} SameFieldsSameProjection(a: seq<Field>, b: seq<Field>, names: seq<Text>, list: seq<Text>)
    requires MeaningOfFields(a) == MeaningOfFields(b)
    ensures ProjectFields(a, names, list) == ProjectFields(b, names, list)
    decreases a, |names|
  {
    if names != [] {
      MeaningOfProperty(a, names[0]);
      MeaningOfProperty(b, names[0]);
      if HasKey(a, names[0]) {
        SameMeaningSameProjection(Lookup(a, names[0]), Lookup(b, names[0]), list);
      }
      SameFieldsSameProjection(a, b, names[1..], list);
    }
  }

  lemma {:induction false} KeysAreMembers(fields: seq<Field>, key: Text)
    ensures key in KeysOf(fields) <==> HasKey(fields, key)
  {
    if HasKey(fields, key) {
      var i :| 0 <= i < |fields| && fields[i].key == key;
      assert KeysOf(fields)[i] == key;
    }
  }

  lemma SameMeaningSameList(a: Json, b: Json)
    requires MeaningOf(a) == MeaningOf(b)
    ensures PropertyList(a) == PropertyList(b)
  {
    if a.Obj? {
      SortedNames(KeysOf(a.fields));
      SortedNames(KeysOf(b.fields));
      forall key ensures key in KeysOf(a.fields) <==> key in KeysOf(b.fields) {
        KeysAreMembers(a.fields, key);
        KeysAreMembers(b.fields, key);
        MeaningOfProperty(a.fields, key);
        MeaningOfProperty(b.fields, key);
      }
      AscendingIsUnique(PropertyList(a), PropertyList(b));
    }
  }

  /** Reordering properties at any depth of the body never changes the normalised text. */
  lemma ReorderingKeepsNormalizedBody(a: Json, b: Json)
    requires MeaningOf(a) == MeaningOf(b)
    ensures NormalizedBody(a) == NormalizedBody(b)
  {
    SameMeaningSameList(a, b);
    SameMeaningSameProjection(a, b, PropertyList(a));
  }

  // ----- what the normalised text tells apart

  lemma {:induction false} ProjectIsJson(v: Json, list: seq<Text>)
    requires IsJson(v)
    ensures IsJson(Project(v, list))
    decreases v, 0
  {
    match v
    case Arr(items) => ProjectItemsAreJson(items, list);
    case Obj(fields) => ProjectFieldsAreJson(fields, list, list);
    case _ =>
  }

  lemma {:induction false} ProjectItemsAreJson(items: seq<Json>, list: seq<Text>)
    requires forall i :: 0 <= i < |items| ==> IsJson(items[i])
    ensures forall i :: 0 <= i < |items| ==> IsJson(ProjectItems(items, list)[i])
    decreases items, 0
  {
    if items != [] {
      ProjectIsJson(items[0], list);
      ProjectItemsAreJson(items[1..], list);
    }
  }

  lemma {:induction false} ProjectFieldsAreJson(fields: seq<Field>, names: seq<Text>, list: seq<Text>)
    requires forall i :: 0 <= i < |fields| ==> IsJson(fields[i].value)
    ensures forall i :: 0 <= i < |ProjectFields(fields, names, list)| ==> IsJson(ProjectFields(fields, names, list)[i].value)
    decreases fields, |names|
  {
    if names != [] {
      if HasKey(fields, names[0]) { ProjectIsJson(Lookup(fields, names[0]), list); }
      assert IsJson(OBJECT_PROTOTYPE);
      ProjectFieldsAreJson(fields, names[1..], list);
    }
  }

  predicate IsStructured(body: Json) {
    body.Obj? || body.Arr?
  }

  /** The normalised text of a structured body is JSON for its projection; that of any other is empty. */
  lemma NormalizedIsProjection(body: Json)
    requires IsJson(body)
    ensures IsStructured(body) ==> Parse(NormalizedBody(body)) == Some(Project(body, PropertyList(body)))
    ensures !IsStructured(body) ==> NormalizedBody(body) == []
  {
    if IsStructured(body) {
      ProjectIsJson(body, PropertyList(body));
      ParseUndoesRender(Compact, Project(body, PropertyList(body)), 0);
    }
  }

  /** Two bodies have the same normalised text exactly when their projections are the same value. */
  lemma NormalizedAlikeExactlyWhen(a: Json, b: Json)
    requires IsStructured(a) && IsStructured(b) && IsJson(a) && IsJson(b)
    ensures NormalizedBody(a) == NormalizedBody(b) <==> Project(a, PropertyList(a)) == Project(b, PropertyList(b))
  {
    ProjectIsJson(a, PropertyList(a));
    ProjectIsJson(b, PropertyList(b));
    ParseUndoesRender(Compact, Project(a, PropertyList(a)), 0);
    ParseUndoesRender(Compact, Project(b, PropertyList(b)), 0);
  }

  /** Every property name, at any depth, is in the list, and no object inherits a listed property. */
  ghost predicate IsKept(v: Json, list: seq<Text>)
    decreases v
  {
    match v
    case Arr(items) => forall i :: 0 <= i < |items| ==> IsKept(items[i], list)
    case Obj(fields) =>
      && (forall i :: 0 <= i < |fields| ==> fields[i].key in list && IsKept(fields[i].value, list))
      && (PROTOTYPE in list ==> HasKey(fields, PROTOTYPE))
    case _ => true
  }

  /** No object, at any depth, has two properties of the same name. */
  ghost predicate IsObjectTree(v: Json)
    decreases v
  {
    match v
    case Arr(items) => forall i :: 0 <= i < |items| ==> IsObjectTree(items[i])
    case Obj(fields) =>
      && (forall i, j :: 0 <= i < j < |fields| ==> fields[i].key != fields[j].key)
      && (forall i :: 0 <= i < |fields| ==> IsObjectTree(fields[i].value))
    case _ => true
  }

  lemma LookupIsField(fields: seq<Field>, i: nat)
    requires i < |fields| && forall i, j :: 0 <= i < j < |fields| ==> fields[i].key != fields[j].key
    ensures HasKey(fields, fields[i].key) && Lookup(fields, fields[i].key) == fields[i].value
  {}

  lemma {:induction false} ProjectedProperty(fields: seq<Field>, names: seq<Text>, list: seq<Text>, key: Text)
    requires Ascending(names)
    ensures HasKey(ProjectFields(fields, names, list), key) <==> key in names && CanRead(fields, key)
    ensures key in names && CanRead(fields, key) ==>
              Lookup(ProjectFields(fields, names, list), key) == ReadProperty(fields, key, list)
  {
    if names != [] {
      var rest := ProjectFields(fields, names[1..], list);
      ProjectedProperty(fields, names[1..], list, key);
      TailMembers(names, key);
      if CanRead(fields, names[0]) {
        PrependProperty(Field(names[0], ReadProperty(fields, names[0], list)), rest, key);
      } else {
        assert [] + rest == rest;
      }
    }
  }

  lemma {:induction false} PrependProperty(field: Field, rest: seq<Field>, key: Text)
    ensures HasKey([field] + rest, key) <==> key == field.key || HasKey(rest, key)
    ensures HasKey(rest, key) ==> Lookup([field] + rest, key) == Lookup(rest, key)
    ensures key == field.key && !HasKey(rest, key) ==> Lookup([field] + rest, key) == field.value
    decreases |rest|
  {
    var all := [field] + rest;
    HasKeyStep(all, key);
    if rest == [] {
      assert all == [field] && all[..0] == [];
    } else {
      var front := rest[..|rest| - 1];
      assert all[..|all| - 1] == [field] + front;
      PrependProperty(field, front, key);
      HasKeyStep(rest, key);
    }
  }

  /** The projection keeps the meaning of a value exactly when every name in it is listed. */
  lemma {:induction false} ProjectionKeepsMeaningExactlyWhen(v: Json, list: seq<Text>)
    requires Ascending(list) && IsObjectTree(v)
    ensures MeaningOf(Project(v, list)) == MeaningOf(v) <==> IsKept(v, list)
    decreases v, 0
  {
    match v
    case Arr(items) => ItemsKeepMeaning(items, list);
    case Obj(fields) => FieldsKeepMeaning(fields, list);
    case _ =>
  }

  lemma {:induction false} ItemsKeepMeaning(items: seq<Json>, list: seq<Text>)
    requires Ascending(list) && forall i :: 0 <= i < |items| ==> IsObjectTree(items[i])
    ensures MeaningOfItems(ProjectItems(items, list)) == MeaningOfItems(items) <==>
            forall i :: 0 <= i < |items| ==> IsKept(items[i], list)
    decreases items, 0
  {
    if items != [] {
      ProjectionKeepsMeaningExactlyWhen(items[0], list);
      ItemsKeepMeaning(items[1..], list);
      ConsEquality(MeaningOf(Project(items[0], list)), MeaningOfItems(ProjectItems(items[1..], list)),
                   MeaningOf(items[0]), MeaningOfItems(items[1..]));
      assert ProjectItems(items, list)[1..] == ProjectItems(items[1..], list);
      assert forall i :: 0 <= i < |items| - 1 ==> items[1..][i] == items[i + 1];
    }
  }

  lemma {:induction false} FieldsKeepMeaning(fields: seq<Field>, list: seq<Text>)
    requires Ascending(list) && IsObjectTree(Obj(fields))
    ensures MeaningOfFields(ProjectFields(fields, list, list)) == MeaningOfFields(fields) <==> IsKept(Obj(fields), list)
    decreases fields, 0
  {
    var before, after := MeaningOfFields(fields), MeaningOfFields(ProjectFields(fields, list, list));
    forall i | 0 <= i < |fields|
      ensures fields[i].key in before
      ensures fields[i].key in after <==> fields[i].key in list
      ensures fields[i].key in after ==>
                (after[fields[i].key] == before[fields[i].key] <==> IsKept(fields[i].value, list))
    {
      var key := fields[i].key;
      LookupIsField(fields, i);
      PropertyMeanings(fields, list, key);
      ProjectionKeepsMeaningExactlyWhen(fields[i].value, list);
    }
    PropertyMeanings(fields, list, PROTOTYPE);
    if IsKept(Obj(fields), list) {
      forall key ensures key in before <==> key in after
                 ensures key in before && key in after ==> before[key] == after[key]
      {
        PropertyMeanings(fields, list, key);
        if HasKey(fields, key) { var i :| 0 <= i < |fields| && fields[i].key == key; }
      }
      assert before == after;
    }
  }

  lemma PropertyMeanings(fields: seq<Field>, list: seq<Text>, key: Text)
    requires Ascending(list)
    ensures var before, after := MeaningOfFields(fields), MeaningOfFields(ProjectFields(fields, list, list));
            && (key in before <==> HasKey(fields, key))
            && (key in after <==> key in list && CanRead(fields, key))
            && (key in before ==> before[key] == MeaningOf(Lookup(fields, key)))
            && (key in after ==> after[key] == MeaningOf(ReadProperty(fields, key, list)))
  {
    MeaningOfProperty(fields, key);
    ProjectedProperty(fields, list, list, key);
    MeaningOfProperty(ProjectFields(fields, list, list), key);
  }

  lemma PropertyListAscends(body: Json)
    ensures Ascending(PropertyList(body))
  {
    match body
    case Obj(fields) => SortedNames(KeysOf(fields));
    case Arr(items) => SortedNames(IndexKeys(|items|));
    case _ =>
  }

  /** Among bodies whose nested names all occur at the top, the normalised text identifies a body up
      to the order of its properties. */
  lemma NormalizedIdentifies(a: Json, b: Json)
    requires IsStructured(a) && IsStructured(b) && IsJson(a) && IsJson(b)
    requires IsObjectTree(a) && IsObjectTree(b)
    requires IsKept(a, PropertyList(a)) && IsKept(b, PropertyList(b))
    ensures NormalizedBody(a) == NormalizedBody(b) <==> MeaningOf(a) == MeaningOf(b)
  {
    if MeaningOf(a) == MeaningOf(b) {
      ReorderingKeepsNormalizedBody(a, b);
    } else {
      NormalizedAlikeExactlyWhen(a, b);
      PropertyListAscends(a);
      PropertyListAscends(b);
      ProjectionKeepsMeaningExactlyWhen(a, PropertyList(a));
      ProjectionKeepsMeaningExactlyWhen(b, PropertyList(b));
    }
  }

  // ----- what it forgets

  lemma {:induction false} PrototypeFields(names: seq<Text>, list: seq<Text>)
    requires Ascending(names)
    ensures ProjectFields([Field(PROTOTYPE, Null)], names, list) == if PROTOTYPE in names then [Field(PROTOTYPE, Null)] else []
  {
    if names != [] {
      var fields := [Field(PROTOTYPE, Null)];
      PrototypeFields(names[1..], list);
      TailMembers(names, PROTOTYPE);
      assert fields[0].key == PROTOTYPE;
      if names[0] == PROTOTYPE {
        assert ReadProperty(fields, PROTOTYPE, list) == Null;
        assert [Field(PROTOTYPE, Null)] + [] == [Field(PROTOTYPE, Null)];
      } else {
        assert !CanRead(fields, names[0]);
        assert [] + ProjectFields(fields, names[1..], list) == ProjectFields(fields, names[1..], list);
      }
    }
  }

  lemma ProjectedPrototype(list: seq<Text>)
    requires Ascending(list) && PROTOTYPE in list
    ensures Project(OBJECT_PROTOTYPE, list) == OBJECT_PROTOTYPE
  {
    PrototypeFields(list, list);
  }

  lemma {:induction false} ProjectTwice(v: Json, list: seq<Text>)
    requires Ascending(list)
    ensures Project(Project(v, list), list) == Project(v, list)
    decreases v, 0
  {
    match v
    case Arr(items) => ProjectItemsTwice(items, list);
    case Obj(fields) => ProjectFieldsTwice(fields, list, list);
    case _ =>
  }

  lemma {:induction false} ProjectItemsTwice(items: seq<Json>, list: seq<Text>)
    requires Ascending(list)
    ensures ProjectItems(ProjectItems(items, list), list) == ProjectItems(items, list)
    decreases items, 0
  {
    if items != [] {
      ProjectTwice(items[0], list);
      ProjectItemsTwice(items[1..], list);
      assert ProjectItems(items, list)[1..] == ProjectItems(items[1..], list);
    }
  }

  lemma {:induction false} ProjectFieldsTwice(fields: seq<Field>, names: seq<Text>, list: seq<Text>)
    requires Ascending(list) && forall name :: name in names ==> name in list
    ensures ProjectFields(ProjectFields(fields, list, list), names, list) == ProjectFields(fields, names, list)
    decreases fields, |names|
  {
    if names != [] {
      ProjectedProperty(fields, list, list, names[0]);
      if HasKey(fields, names[0]) { ProjectTwice(Lookup(fields, names[0]), list); }
      if names[0] == PROTOTYPE { ProjectedPrototype(list); }
      ProjectFieldsTwice(fields, names[1..], list);
    }
  }

  lemma ProjectionKeepsList(body: Json)
    ensures PropertyList(Project(body, PropertyList(body))) == PropertyList(body)
  {
    if body.Obj? {
      var list := PropertyList(body);
      var fields := ProjectFields(body.fields, list, list);
      SortedNames(KeysOf(body.fields));
      SortedNames(KeysOf(fields));
      forall key ensures key in KeysOf(fields) <==> key in KeysOf(body.fields) {
        KeysAreMembers(body.fields, key);
        KeysAreMembers(fields, key);
        ProjectedProperty(body.fields, list, list, key);
      }
      AscendingIsUnique(SortNames(KeysOf(fields)), list);
    }
  }

  /** Dropping from a body every nested property whose name is not also a top-level name leaves the
      normalised text as it is, and makes it a different body exactly when there is such a name. */
  lemma NestedNamesAreForgotten(body: Json)
    requires IsStructured(body) && IsObjectTree(body)
    ensures var other := Project(body, PropertyList(body));
            && NormalizedBody(other) == NormalizedBody(body)
            && (MeaningOf(other) != MeaningOf(body) <==> !IsKept(body, PropertyList(body)))
  {
    PropertyListAscends(body);
    ProjectionKeepsList(body);
    ProjectTwice(body, PropertyList(body));
    ProjectionKeepsMeaningExactlyWhen(body, PropertyList(body));
  }

  /** An own property __proto__ at the top makes every other object show its inherited prototype:
      {"__proto__":1,"a":{}} and {"__proto__":1,"a":{"__proto__":{"__proto__":null}}} normalise alike. */
  lemma InheritedPrototypeIsPrinted()
    ensures var a := Obj([Field(PROTOTYPE, Number([0x31])), Field([0x61], Obj([]))]);
            var b := Obj([Field(PROTOTYPE, Number([0x31])), Field([0x61], Obj([Field(PROTOTYPE, OBJECT_PROTOTYPE)]))]);
            NormalizedBody(a) == NormalizedBody(b) && MeaningOf(a) != MeaningOf(b)
  {
    var one, x := Number([0x31]), [0x61];
    var fields := [Field(PROTOTYPE, one), Field(x, Obj([]))];
    assert Less(PROTOTYPE, x);
    ListOfTwo(fields, x);
    LookupIsField(fields, 0);
    LookupIsField(fields, 1);
    TwoProperties(fields, x);
    EmptyObjectShowsPrototype(x);
    EmptyIsNotKept(fields, x);
    NestedNamesAreForgotten(Obj(fields));
  }

  lemma EmptyIsNotKept(fields: seq<Field>, x: Text)
    requires |fields| == 2 && fields[1] == Field(x, Obj([]))
    ensures !IsKept(Obj(fields), [PROTOTYPE, x])
  {
    assert !IsKept(Obj([]), [PROTOTYPE, x]) by { assert [PROTOTYPE, x][0] == PROTOTYPE; }
  }

  lemma EmptyObjectShowsPrototype(x: Text)
    requires x != PROTOTYPE
    ensures Project(Obj([]), [PROTOTYPE, x]) == Obj([Field(PROTOTYPE, OBJECT_PROTOTYPE)])
  {
    var none: seq<Field>, list := [], [PROTOTYPE, x];
    assert list[1..] == [x] && [x][1..] == [];
    assert !HasKey(none, PROTOTYPE) && !CanRead(none, x);
    assert ProjectFields(none, [x], list) == [] + [];
    assert ReadProperty(none, PROTOTYPE, list) == OBJECT_PROTOTYPE;
  }

  lemma ListOfTwo(fields: seq<Field>, x: Text)
    requires |fields| == 2 && fields[0].key == PROTOTYPE && fields[1].key == x && Less(PROTOTYPE, x)
    ensures PropertyList(Obj(fields)) == [PROTOTYPE, x]
  {
    var list := PropertyList(Obj(fields));
    SortedNames(KeysOf(fields));
    forall y ensures y in list <==> y in [PROTOTYPE, x] {
      assert KeysOf(fields) == [PROTOTYPE, x];
    }
    AscendingIsUnique(list, [PROTOTYPE, x]);
  }

  lemma TwoProperties(fields: seq<Field>, x: Text)
    requires HasKey(fields, PROTOTYPE) && HasKey(fields, x)
    ensures var list := [PROTOTYPE, x];
            ProjectFields(fields, list, list) ==
            [Field(PROTOTYPE, ReadProperty(fields, PROTOTYPE, list)), Field(x, ReadProperty(fields, x, list))]
  {
    var list := [PROTOTYPE, x];
    assert list[1..] == [x] && [x][1..] == [];
    assert ProjectFields(fields, [x], list) == [Field(x, ReadProperty(fields, x, list))] + [];
  }

  // ----- the fingerprint

  /** Operation, route and body, separated by colons.  The upper-casing of the operation is left open. */
  function FingerprintInput(upper: Text -> Text, operation: Text, route: Text, body: Json): Text {
    upper(operation) + [COLON] + route + [COLON] + NormalizedBody(body)
  }

  function FingerprintOf(upper: Text -> Text, operation: Text, route: Text, body: Json): Text {
    Published(Hash(FingerprintInput(upper, operation, route, body)), 8)
  }

  method GenerateFingerprint(upper: Text -> Text, operation: Text, route: Text, body: Json) returns (fingerprint: Text)
    ensures fingerprint == FingerprintOf(upper, operation, route, body)
    ensures |fingerprint| == 8 && IsLowerHex(fingerprint)
    ensures FromHex(fingerprint) == Abs(Hash(upper(operation) + [0x3A] + route + [0x3A] + NormalizedBody(body)))
  {
    var input := FingerprintInput(upper, operation, route, body);
    var hash := ComputeHash(input);
    PublishedForm(hash, 8);
    fingerprint := Published(hash, 8);
  }

  const SLACK_SIGNATURE_VERSION: Text := [0x76, 0x30]

  /** The signing secret does not take part in the signature. */
  method CreateSlackMessageSignature(signingSecret: Text, timestamp: Text, body: Text) returns (signature: Text)
    ensures |signature| == 19 && signature[..3] == SLACK_SIGNATURE_VERSION + [0x3D]
    ensures forall i :: 3 <= i < 11 ==> signature[i] == 0x30
    ensures IsLowerHex(signature[3..])
    ensures FromHex(signature[3..]) == Abs(Hash(SLACK_SIGNATURE_VERSION + [COLON] + timestamp + [COLON] + body))
  {
    var baseString := SLACK_SIGNATURE_VERSION + [COLON] + timestamp + [COLON] + body;
    var hash := ComputeHash(baseString);
    PublishedForm(hash, 16);
    var digits := Published(hash, 16);
    signature := SLACK_SIGNATURE_VERSION + [0x3D] + digits;
    assert signature[3..] == digits;
  }

  lemma FrontOfInput(upper: Text -> Text, operation: Text, route: Text, a: Json, b: Json)
    ensures FingerprintInput(upper, operation, route, a) == FingerprintInput(upper, operation, route, b)
            <==> NormalizedBody(a) == NormalizedBody(b)
  {
    FrontCancels(upper(operation) + [COLON] + route + [COLON], NormalizedBody(a), NormalizedBody(b));
  }

  /** For one operation and route, the hashed texts of two bodies agree exactly when their projections on
      their own property lists are the same value. */
  lemma InputsAgreeExactlyWhen(upper: Text -> Text, operation: Text, route: Text, a: Json, b: Json)
    requires IsStructured(a) && IsStructured(b) && IsJson(a) && IsJson(b)
    ensures FingerprintInput(upper, operation, route, a) == FingerprintInput(upper, operation, route, b)
            <==> Project(a, PropertyList(a)) == Project(b, PropertyList(b))
  {
    FrontOfInput(upper, operation, route, a, b);
    NormalizedAlikeExactlyWhen(a, b);
  }

  lemma DifferBehind(front: Text, s: Text, t: Text, k: nat)
    requires DifferOnlyAt(s, t, k)
    ensures DifferOnlyAt(front + s, front + t, |front| + k)
    ensures Difference(front + s, front + t, |front| + k) == Difference(s, t, k)
  {
    assert forall i :: 0 <= i < |s| ==> (front + s)[|front| + i] == s[i];
    assert forall i :: 0 <= i < |t| ==> (front + t)[|front| + i] == t[i];
  }

  /** Bodies whose normalised texts differ in one unit by an odd amount get different fingerprints for any
      operation and route. */
  lemma OddChangeOfBodyIsSeen(upper: Text -> Text, operation: Text, route: Text, a: Json, b: Json, k: nat)
    requires DifferOnlyAt(NormalizedBody(a), NormalizedBody(b), k)
    requires Difference(NormalizedBody(a), NormalizedBody(b), k) % 2 == 1
    ensures FingerprintOf(upper, operation, route, a) != FingerprintOf(upper, operation, route, b)
  {
    OddChangeBehindIsSeen(upper(operation) + [COLON] + route + [COLON], NormalizedBody(a), NormalizedBody(b), k);
  }

  lemma OddChangeBehindIsSeen(front: Text, s: Text, t: Text, k: nat)
    requires DifferOnlyAt(s, t, k) && Difference(s, t, k) % 2 == 1
    ensures Published(Hash(front + s), 8) != Published(Hash(front + t), 8)
  {
    DifferBehind(front, s, t, k);
    OddChangeIsSeen(front + s, front + t, |front| + k);
  }

  /** Reordering the properties of the body at any depth never changes the fingerprint. */
  lemma ReorderingKeepsFingerprint(upper: Text -> Text, operation: Text, route: Text, a: Json, b: Json)
    requires MeaningOf(a) == MeaningOf(b)
    ensures FingerprintOf(upper, operation, route, a) == FingerprintOf(upper, operation, route, b)
  {
    ReorderingKeepsNormalizedBody(a, b);
  }

  /** Inputs that differ in one unit share a fingerprint exactly when twice the polynomial of the one,
      moved by the weighted difference, is a multiple of 2^32. */
  lemma OneUnitKeepsFingerprintExactlyWhen(s: Text, t: Text, k: nat)
    requires DifferOnlyAt(s, t, k)
    ensures Published(Hash(s), 8) == Published(Hash(t), 8) <==>
            ToInt32(2 * Polynomial(s) + Power31(|s| - 1 - k) * Difference(s, t, k)) == 0
  {
    OneUnitChangesHash(s, t, k);
    AlikeExactlyWhenSumWraps(s, t);
    PolynomialOfChange(s, t, k);
  }

  lemma AlikeExactlyWhenSumWraps(s: Text, t: Text)
    requires Hash(s) != Hash(t)
    ensures Published(Hash(s), 8) == Published(Hash(t), 8) <==> ToInt32(Polynomial(s) + Polynomial(t)) == 0
  {
    PublishedAlikeExactlyWhen(Hash(s), Hash(t), 8);
    OppositeExactlyWhenSumWraps(Hash(s), Hash(t));
    SumOfHashes(s, t);
  }

  /** A unit changed by an odd amount always changes the fingerprint. */
  lemma OddChangeIsSeen(s: Text, t: Text, k: nat)
    requires DifferOnlyAt(s, t, k) && Difference(s, t, k) % 2 == 1
    ensures Published(Hash(s), 8) != Published(Hash(t), 8)
  {
    OneUnitChangesHash(s, t, k);
    AlikeExactlyWhenSumWraps(s, t);
    OddChangeOfPolynomial(s, t, k);
    OddNeverWrapsToZero(Polynomial(s) + Polynomial(t));
  }

  lemma OddMove(p: int, factor: int, difference: int)
    requires factor % 2 == 1 && difference % 2 == 1
    ensures (p + (p + factor * difference)) % 2 == 1
  {
    OddProduct(factor, difference);
  }

  lemma OddChangeOfPolynomial(s: Text, t: Text, k: nat)
    requires DifferOnlyAt(s, t, k) && Difference(s, t, k) % 2 == 1
    ensures (Polynomial(s) + Polynomial(t)) % 2 == 1
  {
    PolynomialOfChange(s, t, k);
    Power31IsOdd(|s| - 1 - k);
    OddMove(Polynomial(s), Power31(|s| - 1 - k), Difference(s, t, k));
  }

  /** At each position, one other unit at most keeps the fingerprint. */
  lemma OneUnitCollidesAtMost(s: Text, t: Text, u: Text, k: nat)
    requires DifferOnlyAt(s, t, k) && DifferOnlyAt(s, u, k)
    requires Published(Hash(s), 8) == Published(Hash(t), 8) == Published(Hash(u), 8)
    ensures t == u
  {
    OneUnitChangesHash(s, t, k);
    OneUnitChangesHash(s, u, k);
    PublishedAlikeExactlyWhen(Hash(s), Hash(t), 8);
    PublishedAlikeExactlyWhen(Hash(s), Hash(u), 8);
    if t[k] != u[k] { OneUnitChangesHash(t, u, k); }
  }

  /** The hash after one more unit, given how often the modulus has to be taken off. */
  lemma Grow(t: Text, h: int, u: Unit, wraps: int, next: int)
    requires Hash(t) == h && 31 * h + u == next + MODULUS * wraps && -HALF <= next < HALF
    ensures Hash(t + [u]) == next
  {
    assert (t + [u])[..|t|] == t;
    StepIsLinear(h, u);
    WrapIgnoresMultiples(next, wraps);
    WrapKeepsInRange(next);
  }

  const GET: Text := [0x47, 0x45, 0x54]
  const ROUTE_STEM: Text := [0x2F, 0x36, 0x69, 0x6C, 0x6F, 0x6E, 0x6A]

  lemma GetHash()
    ensures Hash(GET + [COLON]) == 2184132
  {
    var t: Text := [];
    Grow(t, 0, 0x47, 0, 71);
    t := t + [0x47];
    Grow(t, 71, 0x45, 0, 2270);
    t := t + [0x45];
    Grow(t, 2270, 0x54, 0, 70454);
    t := t + [0x54];
    Grow(t, 70454, COLON, 0, 2184132);
    t := t + [COLON];
    assert t == GET + [COLON];
  }

  lemma StemHash()
    ensures Hash(GET + [COLON] + ROUTE_STEM) == 1796646045
  {
    var t := GET + [COLON];
    GetHash();
    Grow(t, 2184132, 0x2F, 0, 67708139);
    t := t + [0x2F];
    Grow(t, 67708139, 0x36, 0, 2098952363);
    t := t + [0x36];
    Grow(t, 2098952363, 0x69, 15, 643013918);
    t := t + [0x69];
    Grow(t, 643013918, 0x6C, 5, -1541404914);
    t := t + [0x6C];
    Grow(t, -1541404914, 0x6F, -11, -538911967);
    t := t + [0x6F];
    Grow(t, -538911967, 0x6E, -4, 473598317);
    t := t + [0x6E];
    Grow(t, 473598317, 0x6A, 3, 1796646045);
    t := t + [0x6A];
    assert t == GET + [COLON] + ROUTE_STEM;
  }

  lemma RouteHash(u: Unit, h: int, wraps: int, hash: int, wraps': int)
    requires 31 * 1796646045 + u == h + MODULUS * wraps && -HALF <= h < HALF
    requires 31 * h + COLON == hash + MODULUS * wraps' && -HALF <= hash < HALF
    ensures Hash(GET + [COLON] + ROUTE_STEM + [u] + [COLON]) == hash
  {
    var stem := GET + [COLON] + ROUTE_STEM;
    StemHash();
    Grow(stem, 1796646045, u, wraps, h);
    Grow(stem + [u], h, COLON, wraps', hash);
  }

  lemma InputOf(upper: Text -> Text, operation: Text, u: Unit)
    requires upper(operation) == GET
    ensures FingerprintInput(upper, operation, ROUTE_STEM + [u], Null) == GET + [COLON] + ROUTE_STEM + [u] + [COLON]
  {}

  /** It happens: GET on the routes /6ilonjt and /6ilonjz. */
  lemma TwoRoutesOneFingerprint(upper: Text -> Text, operation: Text)
    requires upper(operation) == GET
    ensures FingerprintOf(upper, operation, ROUTE_STEM + [0x74], Null) ==
            FingerprintOf(upper, operation, ROUTE_STEM + [0x7A], Null)
  {
    RouteHash(0x74, -138547337, 13, -93, -1);
    RouteHash(0x7A, -138547331, 13, 93, -1);
    InputOf(upper, operation, 0x74);
    InputOf(upper, operation, 0x7A);
    PublishedAlikeExactlyWhen(-93, 93, 8);
  }
}
