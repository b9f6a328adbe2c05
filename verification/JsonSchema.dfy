/**
 The JSON Schema subset of scripts/json-schema-lite.ts. `Satisfies` is what the supported
 draft-07 keywords mean; `ValidateNode` is the walk that collects problems. Following a
 reference does not make data or schema smaller, so a walk may never end; every walk ends
 exactly when no definition leads back to itself without consuming data.
 */
module JsonSchema {
  import opened Options
  import Graphs

  datatype Json =
    | Null
    | Bool(b: bool)
    | Number(n: real)
    | Text(s: string)
    | Array(items: seq<Json>)
    | Object(members: seq<Member>)

  datatype Member = Member(key: string, value: Json)

  datatype JsonType = TObject | TArray | TText | TInteger | TNumber | TBool | TNull

  datatype Additional = Anything | Forbidden | Each(schema: Schema)

  datatype Alternatives = Unlisted | OneOf(schemas: seq<Schema>)

  datatype Schema = Schema(
    ref: Option<string>,
    oneOf: Alternatives,
    types: Option<seq<JsonType>>,
    constant: Option<Json>,
    choices: Option<seq<Json>>,
    minimum: Option<real>,
    properties: seq<Property>,
    required: seq<string>,
    additional: Additional,
    items: Option<Schema>)

  datatype Property = Property(name: string, schema: Schema)

  type Definitions = map<string, Schema>

  datatype Error = UnsupportedRef | UnresolvedRef

  // ---- References ---------------------------------------------------------------------------------

  const PREFIX := "#/definitions/"

  /** The definition a `$ref` names: `#/definitions/` and a name without slashes. */
  function RefName(ref: string): (r: Option<string>)
    ensures r.Some? ==> r.value != "" && '/' !in r.value && ref == "#/definitions/" + r.value
    ensures r.None? ==> forall name :: name != "" && '/' !in name ==> ref != "#/definitions/" + name
  {
    assert forall name :: (PREFIX + name)[..|PREFIX|] == PREFIX && (PREFIX + name)[|PREFIX|..] == name;
    if |PREFIX| < |ref| && ref[..|PREFIX|] == PREFIX && '/' !in ref[|PREFIX|..]
    then Some(ref[|PREFIX|..]) else None
  }

  function ResolveRef(ref: string, root: Definitions): Result<Schema, Error> {
    var name := RefName(ref);
    if name.None? then Err(UnsupportedRef)
    else if name.value !in root then Err(UnresolvedRef)
    else Ok(root[name.value])
  }

  // ---- Meaning ----------------------------------------------------------------------------------------

  predicate IsInteger(n: real) { n == n.Floor as real }

  predicate HasType(d: Json, t: JsonType) {
    match t
    case TObject => d.Object?
    case TArray => d.Array?
    case TText => d.Text?
    case TInteger => d.Number? && IsInteger(d.n)
    case TNumber => d.Number?
    case TBool => d.Bool?
    case TNull => d.Null?
  }

  predicate HasKey(d: Json, key: string)
    requires d.Object?
  {
    exists k :: 0 <= k < |d.members| && d.members[k].key == key
  }

  /** The schema that `properties` gives a key; a JSON object has each key once. */
  function PropertyFor(properties: seq<Property>, key: string): (r: Option<Schema>)
    ensures r.Some? ==> Property(key, r.value) in properties
    ensures r.None? ==> forall p :: p in properties ==> p.name != key
  {
    if properties == [] then None
    else if properties[0].name == key then Some(properties[0].schema)
    else PropertyFor(properties[1..], key)
  }

  /** Equal JSON values: objects with equal members in any order, everything else part by part. */
  predicate Equal(a: Json, b: Json)
    decreases a
  {
    match a
    case Array(items) =>
      b.Array? && |items| == |b.items| && forall k :: 0 <= k < |items| ==> Equal(items[k], b.items[k])
    case Object(members) =>
      && b.Object?
      && (forall k :: 0 <= k < |members| ==> HasEqual(members[k], b.members))
      && (forall k :: 0 <= k < |b.members| ==> HasKey(a, b.members[k].key))
    case _ => a == b
  }

  predicate HasEqual(m: Member, members: seq<Member>)
    decreases m
  {
    exists k :: 0 <= k < |members| && members[k].key == m.key && Equal(m.value, members[k].value)
  }

  lemma {:induction false} EqualToItself(a: Json)
    ensures Equal(a, a)
  {
    hide Equal, HasEqual;
    if a.Array? {
      forall k | 0 <= k < |a.items| ensures Equal(a.items[k], a.items[k]) { EqualToItself(a.items[k]); }
    } else if a.Object? {
      forall k | 0 <= k < |a.members| ensures HasEqual(a.members[k], a.members) {
        EqualToItself(a.members[k].value);
        HasItself(a.members, k);
      }
    }
    EqualByParts(a);
  }

  lemma HasItself(members: seq<Member>, k: nat)
    requires k < |members| && Equal(members[k].value, members[k].value)
    ensures HasEqual(members[k], members)
  {}

  lemma EqualByParts(a: Json)
    requires a.Array? ==> forall k :: 0 <= k < |a.items| ==> Equal(a.items[k], a.items[k])
    requires a.Object? ==> forall k :: 0 <= k < |a.members| ==> HasEqual(a.members[k], a.members)
    ensures Equal(a, a)
  {
    hide HasEqual;
  }

  // ---- Equality as sameness ------------------------------------------------------------------------

  /** A JSON value with its members as a table, so that their order is gone. */
  datatype Value = Plain(d: Json) | List(values: seq<Value>) | Table(entries: map<string, Value>)

  ghost function ValueOf(d: Json): Value {
    match d
    case Array(items) => List(seq(|items|, k requires 0 <= k < |items| => ValueOf(items[k])))
    case Object(members) => Table(TableOf(members))
    case _ => Plain(d)
  }

  ghost function TableOf(members: seq<Member>): map<string, Value> {
    if members == [] then map[]
    else
      var last := members[|members| - 1];
      TableOf(members[..|members| - 1])[last.key := ValueOf(last.value)]
  }

  ghost predicate DistinctKeys(members: seq<Member>) {
    forall j, k :: 0 <= j < k < |members| ==> members[j].key != members[k].key
  }

  /** No object in the value has a key twice. */
  ghost predicate IsParsed(d: Json) {
    && (d.Array? ==> forall k :: 0 <= k < |d.items| ==> IsParsed(d.items[k]))
    && (d.Object? ==> DistinctKeys(d.members) && forall k :: 0 <= k < |d.members| ==> IsParsed(d.members[k].value))
  }

  lemma {:induction false} TableHolds(members: seq<Member>, key: string)
    requires DistinctKeys(members)
    ensures key in TableOf(members) <==> exists k :: 0 <= k < |members| && members[k].key == key
    ensures forall k :: 0 <= k < |members| && members[k].key == key ==> key in TableOf(members) && TableOf(members)[key] == ValueOf(members[k].value)
  {
    if members != [] { TableHolds(members[..|members| - 1], key); }
  }

  /** Equality is sameness when the order of members does not count. */
  lemma {:induction false} EqualIsSameValue(a: Json, b: Json)
    requires IsParsed(a) && IsParsed(b)
    ensures Equal(a, b) <==> ValueOf(a) == ValueOf(b)
    decreases a
  {
    if a.Array? && b.Array? && |a.items| == |b.items| {
      forall k | 0 <= k < |a.items| ensures Equal(a.items[k], b.items[k]) <==> ValueOf(a.items[k]) == ValueOf(b.items[k]) {
        EqualIsSameValue(a.items[k], b.items[k]);
      }
      EqualLists(a, b);
    } else if a.Object? && b.Object? {
      EqualTables(a, b);
    } else if a.Array? && b.Array? {
      assert |ValueOf(a).values| == |a.items| && |ValueOf(b).values| == |b.items|;
    } else {
      DifferentShapes(a, b);
    }
  }

  lemma DifferentShapes(a: Json, b: Json)
    requires !(a.Array? && b.Array?) && !(a.Object? && b.Object?)
    ensures Equal(a, b) <==> ValueOf(a) == ValueOf(b)
  {}

  lemma EqualLists(a: Json, b: Json)
    requires a.Array? && b.Array? && |a.items| == |b.items|
    requires forall k :: 0 <= k < |a.items| ==> (Equal(a.items[k], b.items[k]) <==> ValueOf(a.items[k]) == ValueOf(b.items[k]))
    ensures Equal(a, b) <==> ValueOf(a) == ValueOf(b)
  {
    var s, t := ValueOf(a).values, ValueOf(b).values;
    assert |s| == |t| == |a.items|;
    forall k | 0 <= k < |s| ensures Equal(a.items[k], b.items[k]) <==> s[k] == t[k] {
      assert s[k] == ValueOf(a.items[k]) && t[k] == ValueOf(b.items[k]);
    }
    if Equal(a, b) { assert s == t; }
  }

  lemma TableKeys(d: Json)
    requires d.Object? && DistinctKeys(d.members)
    ensures forall key :: key in TableOf(d.members) <==> HasKey(d, key)
  {
    forall key: string ensures key in TableOf(d.members) <==> HasKey(d, key) { TableHolds(d.members, key); }
  }

  lemma EqualTables(a: Json, b: Json)
    requires a.Object? && b.Object? && IsParsed(a) && IsParsed(b)
    ensures Equal(a, b) <==> TableOf(a.members) == TableOf(b.members)
    decreases a, 0
  {
    hide TableOf, HasEqual;
    var s, t := TableOf(a.members), TableOf(b.members);
    TableKeys(a);
    TableKeys(b);
    forall k | 0 <= k < |a.members|
      ensures var key := a.members[k].key; key in s && (HasEqual(a.members[k], b.members) <==> key in t && s[key] == t[key])
    {
      TableHolds(a.members, a.members[k].key);
      SameEntry(a.members[k], b.members);
    }
    if s == t {
      forall k | 0 <= k < |b.members| ensures HasKey(a, b.members[k].key) { assert HasKey(b, b.members[k].key); }
    }
    if Equal(a, b) {
      forall key ensures key in s <==> key in t {}
      forall key | key in s ensures s[key] == t[key] {}
    }
  }

  lemma SameEntry(m: Member, members: seq<Member>)
    requires IsParsed(m.value) && DistinctKeys(members) && forall k :: 0 <= k < |members| ==> IsParsed(members[k].value)
    ensures HasEqual(m, members) <==> m.key in TableOf(members) && TableOf(members)[m.key] == ValueOf(m.value)
    decreases m
  {
    hide TableOf, Equal;
    TableHolds(members, m.key);
    forall k | 0 <= k < |members| && members[k].key == m.key ensures Equal(m.value, members[k].value) <==> ValueOf(m.value) == ValueOf(members[k].value) {
      EqualIsSameValue(m.value, members[k].value);
    }
  }

  /** How `const` and `enum` compare: as JSON values, or as `Object.is` does for parsed data. */
  datatype Equality = Structural | Identity

  predicate IsScalar(d: Json) { !d.Array? && !d.Object? }

  /** Two separately parsed arrays or objects are never the same object. */
  predicate Same(eq: Equality, a: Json, b: Json) {
    match eq
    case Structural => Equal(a, b)
    case Identity => a == b && IsScalar(a)
  }

  /** The type names that draft-07 gives a value. */
  ghost predicate IsOfType(d: Json, t: JsonType) {
    t in match d
      case Null => {TNull}
      case Bool(_) => {TBool}
      case Number(n) => if n.Floor as real == n then {TNumber, TInteger} else {TNumber}
      case Text(_) => {TText}
      case Array(_) => {TArray}
      case Object(_) => {TObject}
  }

  /** Keywords that do not look inside the value. */
  ghost predicate SatisfiesPlain(eq: Equality, d: Json, s: Schema) {
    && (s.types.Some? ==> exists t :: t in s.types.value && IsOfType(d, t))
    && (s.constant.Some? ==> Same(eq, d, s.constant.value))
    && (s.choices.Some? ==> exists k :: 0 <= k < |s.choices.value| && Same(eq, d, s.choices.value[k]))
    && (s.minimum.Some? && d.Number? ==> s.minimum.value <= d.n)
    && (d.Object? ==> forall key :: key in s.required ==> HoldsKey(d, key))
  }

  lemma TypeExactly(d: Json, t: JsonType)
    ensures HasType(d, t) <==> IsOfType(d, t)
  {
    if d.Number? && IsInteger(d.n) { assert d.n == d.n.Floor as real; }
  }

  lemma TypesExactly(d: Json, s: Schema)
    ensures TypeMatches(d, s) <==> (s.types.Some? ==> exists t :: t in s.types.value && IsOfType(d, t))
  {
    forall t { TypeExactly(d, t); }
    if s.types.Some? {
      assert forall t :: t in s.types.value <==> exists k :: 0 <= k < |s.types.value| && s.types.value[k] == t;
    }
  }

  /** The object has a member of that name. */
  ghost predicate HoldsKey(d: Json, key: string) { d.Object? && exists m :: m in d.members && m.key == key }

  lemma KeyExactly(d: Json, key: string)
    requires d.Object?
    ensures HasKey(d, key) <==> HoldsKey(d, key)
  {}

  lemma RequiredExactly(d: Json, s: Schema)
    requires d.Object?
    ensures (forall key :: key in s.required ==> HoldsKey(d, key)) <==> forall k :: 0 <= k < |s.required| ==> HasKey(d, s.required[k])
  {
    hide HoldsKey, HasKey;
    forall key { KeyExactly(d, key); }
    if forall k :: 0 <= k < |s.required| ==> HasKey(d, s.required[k]) {
      forall key | key in s.required ensures HoldsKey(d, key) {
        var k :| 0 <= k < |s.required| && s.required[k] == key;
        assert HasKey(d, s.required[k]);
      }
    }
  }

  predicate TypeMatches(d: Json, s: Schema) {
    s.types.Some? ==> exists k :: 0 <= k < |s.types.value| && HasType(d, s.types.value[k])
  }

  predicate IsOnly(holds: seq<bool>, i: nat) {
    i < |holds| && holds[i] && forall j :: 0 <= j < |holds| && holds[j] ==> j == i
  }

  predicate ExactlyOne(holds: seq<bool>) { exists i :: 0 <= i < |holds| && IsOnly(holds, i) }

  /**
   The walk over a value is over within `n` levels of recursion. Nothing else bounds it:
   following a reference makes neither the data nor the schema smaller.
   */
  predicate Ends(d: Json, s: Schema, root: Definitions, n: nat)
    decreases n, 0
  {
    && n > 0
    && if s.ref.Some? then
         var target := ResolveRef(s.ref.value, root);
         target.Ok? ==> Ends(d, target.value, root, n - 1)
       else
         && (s.oneOf.OneOf? ==> forall i :: 0 <= i < |s.oneOf.schemas| ==> Ends(d, s.oneOf.schemas[i], root, n - 1))
         && (TypeMatches(d, s) ==> EndsInside(d, s, root, n - 1))
  }

  predicate EndsInside(d: Json, s: Schema, root: Definitions, n: nat)
    decreases n, 2
  {
    && (d.Object? ==> forall k :: 0 <= k < |d.members| ==> MemberEnds(d.members[k], s, root, n))
    && (d.Array? && s.items.Some? ==> forall k :: 0 <= k < |d.items| ==> Ends(d.items[k], s.items.value, root, n))
  }

  /** The schema that a member is checked against, if any. */
  function SchemaFor(s: Schema, key: string): Option<Schema> {
    var own := PropertyFor(s.properties, key);
    if own.Some? then own else if s.additional.Each? then Some(s.additional.schema) else None
  }

  predicate MemberEnds(m: Member, s: Schema, root: Definitions, n: nat)
    decreases n, 1
  {
    var schema := SchemaFor(s, m.key);
    schema.Some? ==> Ends(m.value, schema.value, root, n)
  }

  /** The value meets the schema. A reference hides its sibling keywords; `oneOf` means exactly one. */
  ghost predicate Satisfies(eq: Equality, d: Json, s: Schema, root: Definitions, n: nat)
    requires Ends(d, s, root, n)
    decreases n, 0
  {
    if s.ref.Some? then
      var target := ResolveRef(s.ref.value, root);
      target.Ok? && Satisfies(eq, d, target.value, root, n - 1)
    else
      && SatisfiesPlain(eq, d, s)
      && (s.oneOf.OneOf? ==> ExactlyOne(Accepting(eq, d, s, root, n - 1)))
      && SatisfiesInside(eq, d, s, root, n - 1)
  }

  /** Which alternatives accept the value. */
  ghost function Accepting(eq: Equality, d: Json, s: Schema, root: Definitions, n: nat): (r: seq<bool>)
    requires s.oneOf.OneOf? && forall i :: 0 <= i < |s.oneOf.schemas| ==> Ends(d, s.oneOf.schemas[i], root, n)
    ensures |r| == |s.oneOf.schemas|
    decreases n, 1
  {
    seq(|s.oneOf.schemas|, i requires 0 <= i < |s.oneOf.schemas| => Satisfies(eq, d, s.oneOf.schemas[i], root, n))
  }

  ghost predicate SatisfiesInside(eq: Equality, d: Json, s: Schema, root: Definitions, n: nat)
    requires EndsInside(d, s, root, n)
    decreases n, 2
  {
    && (d.Object? ==> forall k :: 0 <= k < |d.members| ==> SatisfiesMember(eq, d.members[k], s, root, n))
    && (d.Array? && s.items.Some? ==> forall k :: 0 <= k < |d.items| ==> Satisfies(eq, d.items[k], s.items.value, root, n))
  }

  /** A member meets its own property schema, or else whatever the schema says of additional keys. */
  ghost predicate SatisfiesMember(eq: Equality, m: Member, s: Schema, root: Definitions, n: nat)
    requires MemberEnds(m, s, root, n)
    decreases n, 1
  {
    var schema := SchemaFor(s, m.key);
    if schema.Some? then Satisfies(eq, m.value, schema.value, root, n) else !s.additional.Forbidden?
  }

  // ---- The walk --------------------------------------------------------------------------------------

  datatype Step = Key(key: string) | Index(index: nat)

  datatype What = WrongType | NotExactlyOne(matched: nat) | NotTheConstant | NotAChoice | BelowMinimum | Missing | NotAllowed

  datatype Problem = Problem(path: seq<Step>, what: What)

  /** Following `path` from `d` leads to a value, or for a missing property to the object that lacks it. */
  ghost predicate PointsInto(d: Json, path: seq<Step>, what: What)
    decreases d
  {
    if path == [] then what != Missing
    else
      match path[0]
      case Key(key) =>
        && d.Object?
        && if |path| == 1 && what == Missing then !HasKey(d, key)
           else exists k ::
             0 <= k < |d.members| && d.members[k].key == key && PointsInto(d.members[k].value, path[1..], what)
      case Index(i) => d.Array? && i < |d.items| && PointsInto(d.items[i], path[1..], what)
  }

  ghost predicate Located(d: Json, path: seq<Step>, p: Problem) {
    path <= p.path && PointsInto(d, p.path[|path|..], p.what)
  }

  ghost predicate AllLocated(d: Json, path: seq<Step>, ps: seq<Problem>) {
    forall k :: 0 <= k < |ps| ==> Located(d, path, ps[k])
  }

  /** Every reference in the schema names a definition. */
  predicate Closed(s: Schema, root: Definitions) {
    && (s.ref.Some? ==> ResolveRef(s.ref.value, root).Ok?)
    && (s.oneOf.OneOf? ==> forall i :: 0 <= i < |s.oneOf.schemas| ==> Closed(s.oneOf.schemas[i], root))
    && (forall i :: 0 <= i < |s.properties| ==> Closed(s.properties[i].schema, root))
    && (s.additional.Each? ==> Closed(s.additional.schema, root))
    && (s.items.Some? ==> Closed(s.items.value, root))
  }

  predicate ClosedRoot(root: Definitions) { forall name :: name in root ==> Closed(root[name], root) }

  lemma {:induction false} PropertyClosed(properties: seq<Property>, key: string, root: Definitions)
    requires forall i :: 0 <= i < |properties| ==> Closed(properties[i].schema, root)
    ensures PropertyFor(properties, key).Some? ==> Closed(PropertyFor(properties, key).value, root)
  {
    if properties != [] { PropertyClosed(properties[1..], key, root); }
  }

  function Count(holds: seq<bool>): nat {
    if holds == [] then 0 else Count(holds[..|holds| - 1]) + (if holds[|holds| - 1] then 1 else 0)
  }

  lemma {:induction false} CountZero(holds: seq<bool>)
    ensures Count(holds) == 0 <==> forall j :: 0 <= j < |holds| ==> !holds[j]
  {
    if holds != [] { CountZero(holds[..|holds| - 1]); }
  }

  lemma ExactlyOneStep(holds: seq<bool>)
    requires holds != []
    ensures var last := |holds| - 1;
      ExactlyOne(holds) <==>
        if holds[last] then forall j :: 0 <= j < last ==> !holds[j] else ExactlyOne(holds[..last])
  {
    var last := |holds| - 1;
    var front := holds[..last];
    assert forall j :: 0 <= j < last ==> front[j] == holds[j];
    if holds[last] {
      if forall j :: 0 <= j < last ==> !holds[j] { assert IsOnly(holds, last); }
    } else if ExactlyOne(front) {
      var i :| 0 <= i < |front| && IsOnly(front, i);
      assert IsOnly(holds, i);
    }
    if ExactlyOne(holds) {
      var i :| 0 <= i < |holds| && IsOnly(holds, i);
      if i < last { assert IsOnly(front, i); }
    }
  }

  /** Counting matches to one is the same as exactly one match. */
  lemma {:induction false} CountIsOne(holds: seq<bool>)
    ensures Count(holds) == 1 <==> ExactlyOne(holds)
  {
    if holds != [] {
      CountIsOne(holds[..|holds| - 1]);
      CountZero(holds[..|holds| - 1]);
      ExactlyOneStep(holds);
    }
  }

  /** How many alternatives accept the value. */
  method CountMatches(d: Json, s: Schema, root: Definitions, path: seq<Step>, ghost n: nat) returns (r: Result<nat, Error>)
    requires s.oneOf.OneOf? && forall i :: 0 <= i < |s.oneOf.schemas| ==> Ends(d, s.oneOf.schemas[i], root, n)
    ensures r.Ok? ==> r.value == Count(Accepting(Identity, d, s, root, n))
    ensures ClosedRoot(root) && Closed(s, root) && s.ref.None? ==> r.Ok?
    decreases n, 3
  {
    hide Ends, Satisfies;
    ghost var holds := Accepting(Identity, d, s, root, n);
    var matches := 0;
    for i := 0 to |s.oneOf.schemas|
      invariant matches == Count(holds[..i])
    {
      var inner := ValidateNode(d, s.oneOf.schemas[i], root, path, n);
      if inner.Err? { return Err(inner.error); }
      assert holds[..i + 1][..i] == holds[..i];
      if inner.value == [] { matches := matches + 1; }
    }
    assert holds[..|holds|] == holds;
    return Ok(matches);
  }

  method ValidateNode(d: Json, s: Schema, root: Definitions, path: seq<Step>, ghost n: nat)
    returns (r: Result<seq<Problem>, Error>)
    requires Ends(d, s, root, n)
    ensures r.Ok? ==> (r.value == [] <==> Satisfies(Identity, d, s, root, n))
    ensures r.Ok? ==> AllLocated(d, path, r.value)
    ensures ClosedRoot(root) && Closed(s, root) ==> r.Ok?
    decreases n, 0
  {
    hide AllLocated, SatisfiesPlain, TypeMatches, ExactlyOne, EndsInside, SatisfiesInside, Accepting;
    if s.ref.Some? {
      var target := ResolveRef(s.ref.value, root);
      if target.Err? { return Err(target.error); }
      r := ValidateNode(d, target.value, root, path, n - 1);
      return;
    }
    var errors := CheckAlternatives(d, s, root, path, n - 1);
    if errors.Err? { return errors; }
    if !TypeMatches(d, s) {
      MistypedIsNotSatisfied(Identity, d, s);
      OneMoreProblem(d, path, errors.value, WrongType);
      return Ok(errors.value + [Problem(path, WrongType)]);
    }
    var plain := CheckPlain(d, s, path);
    var inside := CheckInside(d, s, root, path, n - 1);
    if inside.Err? { return Err(inside.error); }
    LocatedTogether(d, path, errors.value, plain);
    LocatedTogether(d, path, errors.value + plain, inside.value);
    return Ok(errors.value + plain + inside.value);
  }

  lemma MistypedIsNotSatisfied(eq: Equality, d: Json, s: Schema)
    requires !TypeMatches(d, s)
    ensures !SatisfiesPlain(eq, d, s)
  {}

  lemma LocatedTogether(d: Json, path: seq<Step>, a: seq<Problem>, b: seq<Problem>)
    requires AllLocated(d, path, a) && AllLocated(d, path, b)
    ensures AllLocated(d, path, a + b)
  {}

  lemma OneMoreProblem(d: Json, path: seq<Step>, a: seq<Problem>, what: What)
    requires AllLocated(d, path, a) && what != Missing
    ensures AllLocated(d, path, a + [Problem(path, what)])
  {
    assert path[|path|..] == [];
  }

  lemma NoProblem(d: Json, path: seq<Step>)
    ensures AllLocated(d, path, [])
  {}

  lemma MissingProblem(d: Json, path: seq<Step>, a: seq<Problem>, key: string)
    requires AllLocated(d, path, a) && d.Object? && !HasKey(d, key)
    ensures AllLocated(d, path, a + [Problem(path + [Key(key)], Missing)])
  {
    assert (path + [Key(key)])[|path|..] == [Key(key)];
  }

  /** A problem with the number of alternatives that accept the value, if there is one. */
  method CheckAlternatives(d: Json, s: Schema, root: Definitions, path: seq<Step>, ghost n: nat)
    returns (r: Result<seq<Problem>, Error>)
    requires s.ref.None? && (s.oneOf.OneOf? ==> forall i :: 0 <= i < |s.oneOf.schemas| ==> Ends(d, s.oneOf.schemas[i], root, n))
    ensures r.Ok? ==> (r.value == [] <==> (s.oneOf.OneOf? ==> ExactlyOne(Accepting(Identity, d, s, root, n))))
    ensures r.Ok? ==> AllLocated(d, path, r.value)
    ensures ClosedRoot(root) && Closed(s, root) ==> r.Ok?
    decreases n, 4
  {
    hide Ends, Accepting, ExactlyOne;
    if s.oneOf.Unlisted? { return Ok([]); }
    var matches := CountMatches(d, s, root, path, n);
    if matches.Err? { return Err(matches.error); }
    CountIsOne(Accepting(Identity, d, s, root, n));
    if matches.value == 1 { return Ok([]); }
    OneMoreProblem(d, path, [], NotExactlyOne(matches.value));
    return Ok([Problem(path, NotExactlyOne(matches.value))]);
  }

  /** The members of an object and the items of an array. */
  method CheckInside(d: Json, s: Schema, root: Definitions, path: seq<Step>, ghost n: nat)
    returns (r: Result<seq<Problem>, Error>)
    requires s.ref.None? && EndsInside(d, s, root, n)
    ensures r.Ok? ==> (r.value == [] <==> SatisfiesInside(Identity, d, s, root, n))
    ensures r.Ok? ==> AllLocated(d, path, r.value)
    ensures ClosedRoot(root) && Closed(s, root) ==> r.Ok?
    decreases n, 4
  {
    if d.Object? {
      r := CheckMembers(d, s, root, path, n);
    } else if d.Array? && s.items.Some? {
      r := CheckItems(d, s, root, path, n);
    } else {
      r := Ok([]);
    }
  }

  /** `const`, `enum`, `minimum` and `required`, in the source's order. */
  method CheckPlain(d: Json, s: Schema, path: seq<Step>) returns (errors: seq<Problem>)
    requires TypeMatches(d, s)
    ensures errors == [] <==> SatisfiesPlain(Identity, d, s)
    ensures AllLocated(d, path, errors)
  {
    hide AllLocated, HasKey, Same, HasType, IsOfType;
    TypesExactly(d, s);
    if d.Object? { RequiredExactly(d, s); }
    NoProblem(d, path);
    errors := [];
    if s.constant.Some? && !Same(Identity, d, s.constant.value) {
      OneMoreProblem(d, path, errors, NotTheConstant);
      errors := errors + [Problem(path, NotTheConstant)];
    }
    if s.choices.Some? && !exists k :: 0 <= k < |s.choices.value| && Same(Identity, d, s.choices.value[k]) {
      OneMoreProblem(d, path, errors, NotAChoice);
      errors := errors + [Problem(path, NotAChoice)];
    }
    if s.minimum.Some? && d.Number? && d.n < s.minimum.value {
      OneMoreProblem(d, path, errors, BelowMinimum);
      errors := errors + [Problem(path, BelowMinimum)];
    }
    if d.Object? {
      ghost var before := errors;
      for i := 0 to |s.required|
        invariant errors == [] <==> before == [] && forall k :: 0 <= k < i ==> HasKey(d, s.required[k])
        invariant AllLocated(d, path, errors)
      {
        if !HasKey(d, s.required[i]) {
          MissingProblem(d, path, errors, s.required[i]);
          errors := errors + [Problem(path + [Key(s.required[i])], Missing)];
        }
      }
    }
  }

  /** A problem inside member `k` is a problem of the object. */
  lemma InsideMember(d: Json, k: nat, path: seq<Step>, ps: seq<Problem>)
    requires d.Object? && k < |d.members|
    requires AllLocated(d.members[k].value, path + [Key(d.members[k].key)], ps)
    ensures AllLocated(d, path, ps)
  {
    var step := Key(d.members[k].key);
    forall i | 0 <= i < |ps| ensures Located(d, path, ps[i]) {
      assert Located(d.members[k].value, path + [step], ps[i]);
      var rest := ps[i].path[|path|..];
      assert ps[i].path[..|path| + 1] == path + [step];
      assert rest[0] == step && rest[1..] == ps[i].path[|path + [step]|..];
      if |rest| == 1 { assert rest[1..] == []; }
    }
  }

  lemma InsideItem(d: Json, k: nat, path: seq<Step>, ps: seq<Problem>)
    requires d.Array? && k < |d.items|
    requires AllLocated(d.items[k], path + [Index(k)], ps)
    ensures AllLocated(d, path, ps)
  {
    var step := Index(k);
    forall i | 0 <= i < |ps| ensures Located(d, path, ps[i]) {
      assert Located(d.items[k], path + [step], ps[i]);
      var rest := ps[i].path[|path|..];
      assert ps[i].path[..|path| + 1] == path + [step];
      assert rest[0] == step && rest[1..] == ps[i].path[|path + [step]|..];
    }
  }

  method CheckMembers(d: Json, s: Schema, root: Definitions, path: seq<Step>, ghost n: nat)
    returns (r: Result<seq<Problem>, Error>)
    requires s.ref.None? && d.Object? && forall k :: 0 <= k < |d.members| ==> MemberEnds(d.members[k], s, root, n)
    ensures r.Ok? ==> (r.value == [] <==>
      forall k :: 0 <= k < |d.members| ==> SatisfiesMember(Identity, d.members[k], s, root, n))
    ensures r.Ok? ==> AllLocated(d, path, r.value)
    ensures ClosedRoot(root) && Closed(s, root) ==> r.Ok?
    decreases n, 3
  {
    hide MemberEnds, SatisfiesMember, Located;
    var errors: seq<Problem> := [];
    for i := 0 to |d.members|
      invariant errors == [] <==> forall k :: 0 <= k < i ==> SatisfiesMember(Identity, d.members[k], s, root, n)
      invariant AllLocated(d, path, errors)
    {
      var inner := CheckMember(d, i, s, root, path, n);
      if inner.Err? { return Err(inner.error); }
      errors := errors + inner.value;
    }
    return Ok(errors);
  }

  method CheckMember(d: Json, i: nat, s: Schema, root: Definitions, path: seq<Step>, ghost n: nat)
    returns (r: Result<seq<Problem>, Error>)
    requires s.ref.None? && d.Object? && i < |d.members| && MemberEnds(d.members[i], s, root, n)
    ensures r.Ok? ==> (r.value == [] <==> SatisfiesMember(Identity, d.members[i], s, root, n))
    ensures r.Ok? ==> AllLocated(d, path, r.value)
    ensures ClosedRoot(root) && Closed(s, root) ==> r.Ok?
    decreases n, 2
  {
    var m := d.members[i];
    var below := path + [Key(m.key)];
    var own := PropertyFor(s.properties, m.key);
    PropertyClosedFor(s, m.key, root);
    if own.Some? {
      r := ValidateNode(m.value, own.value, root, below, n);
    } else if s.additional.Forbidden? {
      r := Ok([Problem(below, NotAllowed)]);
      assert below[|below|..] == [];
    } else if s.additional.Each? {
      r := ValidateNode(m.value, s.additional.schema, root, below, n);
    } else {
      r := Ok([]);
    }
    if r.Ok? { InsideMember(d, i, path, r.value); }
  }

  lemma PropertyClosedFor(s: Schema, key: string, root: Definitions)
    ensures Closed(s, root) && PropertyFor(s.properties, key).Some? ==> Closed(PropertyFor(s.properties, key).value, root)
  {
    if Closed(s, root) { PropertyClosed(s.properties, key, root); }
  }

  method CheckItems(d: Json, s: Schema, root: Definitions, path: seq<Step>, ghost n: nat)
    returns (r: Result<seq<Problem>, Error>)
    requires s.ref.None? && d.Array? && s.items.Some?
    requires forall k :: 0 <= k < |d.items| ==> Ends(d.items[k], s.items.value, root, n)
    ensures r.Ok? ==> (r.value == [] <==>
      forall k :: 0 <= k < |d.items| ==> Satisfies(Identity, d.items[k], s.items.value, root, n))
    ensures r.Ok? ==> AllLocated(d, path, r.value)
    ensures ClosedRoot(root) && Closed(s, root) ==> r.Ok?
    decreases n, 3
  {
    hide Ends, Satisfies, Located;
    var errors: seq<Problem> := [];
    for i := 0 to |d.items|
      invariant errors == [] <==> forall k :: 0 <= k < i ==> Satisfies(Identity, d.items[k], s.items.value, root, n)
      invariant AllLocated(d, path, errors)
    {
      var inner := ValidateNode(d.items[i], s.items.value, root, path + [Index(i)], n);
      if inner.Err? { return Err(inner.error); }
      InsideItem(d, i, path, inner.value);
      errors := errors + inner.value;
    }
    return Ok(errors);
  }

  /** The whole check of a value against a root schema. */
  method ValidateAgainstSchema(d: Json, s: Schema, root: Definitions, ghost n: nat)
    returns (r: Result<seq<Problem>, Error>)
    requires Ends(d, s, root, n)
    ensures r.Ok? ==> (r.value == [] <==> Satisfies(Identity, d, s, root, n)) && AllLocated(d, [], r.value)
    ensures ClosedRoot(root) && Closed(s, root) ==> r.Ok?
  {
    r := ValidateNode(d, s, root, [], n);
  }

  // ---- Where the validator and draft-07 agree ------------------------------------------------------------

  predicate ScalarValues(s: Schema) {
    && (s.constant.Some? ==> IsScalar(s.constant.value))
    && (s.choices.Some? ==> forall k :: 0 <= k < |s.choices.value| ==> IsScalar(s.choices.value[k]))
  }

  /** Every `const` and `enum` entry anywhere in the schema is a scalar. */
  predicate ScalarsOnly(s: Schema) {
    && ScalarValues(s)
    && (s.oneOf.OneOf? ==> forall i :: 0 <= i < |s.oneOf.schemas| ==> ScalarsOnly(s.oneOf.schemas[i]))
    && (forall i :: 0 <= i < |s.properties| ==> ScalarsOnly(s.properties[i].schema))
    && (s.additional.Each? ==> ScalarsOnly(s.additional.schema))
    && (s.items.Some? ==> ScalarsOnly(s.items.value))
  }

  predicate ScalarRoot(root: Definitions) { forall name :: name in root ==> ScalarsOnly(root[name]) }

  lemma {:induction false} PropertyScalars(properties: seq<Property>, key: string)
    requires forall i :: 0 <= i < |properties| ==> ScalarsOnly(properties[i].schema)
    ensures PropertyFor(properties, key).Some? ==> ScalarsOnly(PropertyFor(properties, key).value)
  {
    if properties != [] { PropertyScalars(properties[1..], key); }
  }

  lemma PlainAgrees(d: Json, s: Schema)
    requires ScalarValues(s)
    ensures SatisfiesPlain(Structural, d, s) == SatisfiesPlain(Identity, d, s)
  {
    if s.choices.Some? {
      forall k | 0 <= k < |s.choices.value|
        ensures Same(Structural, d, s.choices.value[k]) == Same(Identity, d, s.choices.value[k]) {}
    }
  }

  lemma SchemaForScalars(s: Schema, key: string)
    requires ScalarsOnly(s)
    ensures SchemaFor(s, key).Some? ==> ScalarsOnly(SchemaFor(s, key).value)
  {
    PropertyScalars(s.properties, key);
  }

  /** With scalar `const` and `enum`, what the validator accepts is what draft-07 accepts. */
  lemma {:induction false} ScalarsAgree(d: Json, s: Schema, root: Definitions, n: nat)
    requires Ends(d, s, root, n) && ScalarRoot(root) && ScalarsOnly(s)
    ensures Satisfies(Structural, d, s, root, n) <==> Satisfies(Identity, d, s, root, n)
    decreases n, 0
  {
    if s.ref.Some? {
      var target := ResolveRef(s.ref.value, root);
      if target.Ok? { ScalarsAgree(d, target.value, root, n - 1); }
    } else {
      PlainAgrees(d, s);
      if s.oneOf.OneOf? { AlternativesAgree(d, s, root, n - 1); }
      if TypeMatches(d, s) { InsideAgrees(d, s, root, n - 1); }
    }
  }

  lemma {:induction false} AlternativesAgree(d: Json, s: Schema, root: Definitions, n: nat)
    requires s.oneOf.OneOf? && forall i :: 0 <= i < |s.oneOf.schemas| ==> Ends(d, s.oneOf.schemas[i], root, n)
    requires ScalarRoot(root) && ScalarsOnly(s)
    ensures Accepting(Structural, d, s, root, n) == Accepting(Identity, d, s, root, n)
    decreases n, 1
  {
    hide Ends, Satisfies, ScalarRoot;
    forall i | 0 <= i < |s.oneOf.schemas|
      ensures Satisfies(Structural, d, s.oneOf.schemas[i], root, n) <==> Satisfies(Identity, d, s.oneOf.schemas[i], root, n)
    {
      ScalarsAgree(d, s.oneOf.schemas[i], root, n);
    }
  }

  lemma {:induction false} InsideAgrees(d: Json, s: Schema, root: Definitions, n: nat)
    requires EndsInside(d, s, root, n) && ScalarRoot(root) && ScalarsOnly(s)
    ensures SatisfiesInside(Structural, d, s, root, n) <==> SatisfiesInside(Identity, d, s, root, n)
    decreases n, 1
  {
    hide Ends, Satisfies, ScalarRoot;
    if d.Object? {
      forall k | 0 <= k < |d.members|
        ensures SatisfiesMember(Structural, d.members[k], s, root, n) <==> SatisfiesMember(Identity, d.members[k], s, root, n)
      {
        SchemaForScalars(s, d.members[k].key);
        var schema := SchemaFor(s, d.members[k].key);
        if schema.Some? { ScalarsAgree(d.members[k].value, schema.value, root, n); }
      }
    }
    if d.Array? && s.items.Some? {
      forall k | 0 <= k < |d.items|
        ensures Satisfies(Structural, d.items[k], s.items.value, root, n) <==> Satisfies(Identity, d.items[k], s.items.value, root, n)
      {
        ScalarsAgree(d.items[k], s.items.value, root, n);
      }
    }
  }

  /** A `const` or `enum` entry is compared as draft-07 asks exactly when it is a scalar. */
  lemma ComparedAsDraft07Exactly(entry: Json)
    ensures (forall d :: Same(Identity, d, entry) == Same(Structural, d, entry)) <==> IsScalar(entry)
  {
    EqualToItself(entry);
    assert Same(Structural, entry, entry);
  }

  // ---- The meaning does not depend on the bound ---------------------------------------------------

  /** However long the walk is given, the meaning is the same. */
  lemma {:induction false} MeaningIsUnique(eq: Equality, d: Json, s: Schema, root: Definitions, n: nat, m: nat)
    requires Ends(d, s, root, n) && Ends(d, s, root, m)
    ensures Satisfies(eq, d, s, root, n) <==> Satisfies(eq, d, s, root, m)
    decreases n, 0
  {
    if s.ref.Some? {
      var target := ResolveRef(s.ref.value, root);
      if target.Ok? { MeaningIsUnique(eq, d, target.value, root, n - 1, m - 1); }
    } else {
      if s.oneOf.OneOf? { AlternativesUnique(eq, d, s, root, n - 1, m - 1); }
      if TypeMatches(d, s) { InsideIsUnique(eq, d, s, root, n - 1, m - 1); }
    }
  }

  lemma {:induction false} AlternativesUnique(eq: Equality, d: Json, s: Schema, root: Definitions, n: nat, m: nat)
    requires s.oneOf.OneOf? && forall i :: 0 <= i < |s.oneOf.schemas| ==> Ends(d, s.oneOf.schemas[i], root, n)
    requires forall i :: 0 <= i < |s.oneOf.schemas| ==> Ends(d, s.oneOf.schemas[i], root, m)
    ensures Accepting(eq, d, s, root, n) == Accepting(eq, d, s, root, m)
    decreases n, 1
  {
    hide Ends, Satisfies;
    forall i | 0 <= i < |s.oneOf.schemas|
      ensures Satisfies(eq, d, s.oneOf.schemas[i], root, n) <==> Satisfies(eq, d, s.oneOf.schemas[i], root, m)
    {
      MeaningIsUnique(eq, d, s.oneOf.schemas[i], root, n, m);
    }
  }

  lemma {:induction false} InsideIsUnique(eq: Equality, d: Json, s: Schema, root: Definitions, n: nat, m: nat)
    requires EndsInside(d, s, root, n) && EndsInside(d, s, root, m)
    ensures SatisfiesInside(eq, d, s, root, n) <==> SatisfiesInside(eq, d, s, root, m)
    decreases n, 1
  {
    hide Ends, Satisfies;
    if d.Object? {
      forall k | 0 <= k < |d.members|
        ensures SatisfiesMember(eq, d.members[k], s, root, n) <==> SatisfiesMember(eq, d.members[k], s, root, m)
      {
        var schema := SchemaFor(s, d.members[k].key);
        if schema.Some? { MeaningIsUnique(eq, d.members[k].value, schema.value, root, n, m); }
      }
    }
    if d.Array? && s.items.Some? {
      forall k | 0 <= k < |d.items|
        ensures Satisfies(eq, d.items[k], s.items.value, root, n) <==> Satisfies(eq, d.items[k], s.items.value, root, m)
      {
        MeaningIsUnique(eq, d.items[k], s.items.value, root, n, m);
      }
    }
  }

  // ---- When every walk ends -------------------------------------------------------------------------

  type Ranks = map<string, nat>

  /** Every definition that `schema` reaches without consuming data ranks below `bound`. */
  predicate HeadsBelow(schema: Schema, ranks: Ranks, bound: nat) {
    if schema.ref.Some? then
      var name := RefName(schema.ref.value);
      name.Some? && name.value in ranks ==> ranks[name.value] < bound
    else
      schema.oneOf.OneOf? ==>
        forall i :: 0 <= i < |schema.oneOf.schemas| ==> HeadsBelow(schema.oneOf.schemas[i], ranks, bound)
  }

  /** Every definition that `schema` refers to, however deep, is among `names`. */
  predicate Covered(schema: Schema, root: Definitions, names: set<string>) {
    if schema.ref.Some? then
      var name := RefName(schema.ref.value);
      name.Some? && name.value in root ==> name.value in names
    else
      && (schema.oneOf.OneOf? ==>
            forall i :: 0 <= i < |schema.oneOf.schemas| ==> Covered(schema.oneOf.schemas[i], root, names))
      && (forall i :: 0 <= i < |schema.properties| ==> Covered(schema.properties[i].schema, root, names))
      && (schema.additional.Each? ==> Covered(schema.additional.schema, root, names))
      && (schema.items.Some? ==> Covered(schema.items.value, root, names))
  }

  /** A ranked definition refers to ranked ones only, and to lower ones where no data is consumed. */
  predicate Guarded(root: Definitions, ranks: Ranks, limit: nat) {
    forall name :: name in ranks ==>
      && name in root && ranks[name] < limit
      && Covered(root[name], root, ranks.Keys) && HeadsBelow(root[name], ranks, ranks[name])
  }

  lemma {:induction false} AllHeadsBelow(schema: Schema, ranks: Ranks, limit: nat)
    requires forall name :: name in ranks ==> ranks[name] < limit
    ensures HeadsBelow(schema, ranks, limit)
  {
    if schema.ref.None? && schema.oneOf.OneOf? {
      forall i | 0 <= i < |schema.oneOf.schemas| ensures HeadsBelow(schema.oneOf.schemas[i], ranks, limit) {
        AllHeadsBelow(schema.oneOf.schemas[i], ranks, limit);
      }
    }
  }

  /** A ranking of those definitions that can be reached. */
  datatype Guard = Guard(root: Definitions, ranks: Ranks, limit: nat) {
    ghost predicate Valid() { Guarded(root, ranks, limit) }

    predicate Covers(schema: Schema) { Covered(schema, root, ranks.Keys) }

    predicate Fits(schema: Schema, bound: nat) { Covers(schema) && HeadsBelow(schema, ranks, bound) }
  }

  /** The definitions a schema reaches without consuming data. */
  function Heads(s: Schema): set<string> {
    if s.ref.Some? then
      var name := RefName(s.ref.value);
      if name.Some? then {name.value} else {}
    else if s.oneOf.OneOf? then
      set i, n | 0 <= i < |s.oneOf.schemas| && n in Heads(s.oneOf.schemas[i]) :: n
    else {}
  }

  /** `name` reaches `other` without consuming data. */
  function Reaches(root: Definitions): (string, string) -> bool {
    (name: string, other: string) => name in root && other in Heads(root[name])
  }

  lemma {:induction false} HeadsRankBelow(s: Schema, ranks: Ranks, bound: nat)
    ensures HeadsBelow(s, ranks, bound) <==> forall n :: n in Heads(s) && n in ranks ==> ranks[n] < bound
  {
    if s.ref.None? && s.oneOf.OneOf? {
      forall i | 0 <= i < |s.oneOf.schemas|
        ensures HeadsBelow(s.oneOf.schemas[i], ranks, bound) <==>
          forall n :: n in Heads(s.oneOf.schemas[i]) && n in ranks ==> ranks[n] < bound
      {
        HeadsRankBelow(s.oneOf.schemas[i], ranks, bound);
      }
    }
  }

  /** `names` holds every definition that the schema, or a definition in `names`, refers to. */
  ghost predicate ClosedUnder(s: Schema, root: Definitions, names: set<string>) {
    && names <= root.Keys && Covered(s, root, names)
    && forall name :: name in names ==> Covered(root[name], root, names)
  }

  /** The definitions that the schema can reach: the least such set. */
  ghost function Reachable(s: Schema, root: Definitions): set<string> {
    set name | name in root.Keys && forall names :: ClosedUnder(s, root, names) ==> name in names
  }

  /** References into every one of some sets are references into all of them together. */
  lemma {:induction false} CoveredByAll(t: Schema, s: Schema, root: Definitions)
    requires forall names :: ClosedUnder(s, root, names) ==> Covered(t, root, names)
    ensures Covered(t, root, Reachable(s, root))
  {
    if t.ref.None? {
      if t.oneOf.OneOf? {
        forall i | 0 <= i < |t.oneOf.schemas| ensures Covered(t.oneOf.schemas[i], root, Reachable(s, root)) {
          CoveredByAll(t.oneOf.schemas[i], s, root);
        }
      }
      forall i | 0 <= i < |t.properties| ensures Covered(t.properties[i].schema, root, Reachable(s, root)) {
        CoveredByAll(t.properties[i].schema, s, root);
      }
      if t.additional.Each? { CoveredByAll(t.additional.schema, s, root); }
      if t.items.Some? { CoveredByAll(t.items.value, s, root); }
    }
  }

  lemma ReachableIsClosed(s: Schema, root: Definitions)
    ensures ClosedUnder(s, root, Reachable(s, root))
  {
    CoveredByAll(s, s, root);
    forall name | name in Reachable(s, root) ensures Covered(root[name], root, Reachable(s, root)) {
      CoveredByAll(root[name], s, root);
    }
  }

  /** A guard ranks what can be reached, without a cycle. */
  lemma GuardLeavesNoCycle(s: Schema, g: Guard)
    requires g.Valid() && g.Covers(s)
    ensures Graphs.Acyclic(Reaches(g.root), Reachable(s, g.root))
  {
    var edge, nodes := Reaches(g.root), Reachable(s, g.root);
    assert ClosedUnder(s, g.root, g.ranks.Keys);
    var ranks := map name | name in nodes :: g.ranks[name];
    forall a, b | a in nodes && b in nodes && edge(a, b) ensures ranks[b] < ranks[a] {
      HeadsRankBelow(g.root[a], g.ranks, g.ranks[a]);
    }
    assert Graphs.Ranks(edge, nodes, ranks);
    Graphs.RankedIffAcyclic(edge, nodes);
  }

  lemma NoCycleGivesGuard(s: Schema, root: Definitions) returns (g: Guard)
    requires Graphs.Acyclic(Reaches(root), Reachable(s, root))
    ensures g.root == root && g.Valid() && g.Covers(s)
  {
    var nodes := Reachable(s, root);
    ReachableIsClosed(s, root);
    var ranks := Graphs.RankingExists(Reaches(root), nodes, nodes);
    g := Guard(root, ranks, |nodes|);
    forall name | name in ranks ensures HeadsBelow(root[name], ranks, ranks[name]) {
      forall n | n in Heads(root[name]) && n in ranks ensures ranks[n] < ranks[name] {
        assert Reaches(root)(name, n);
      }
      HeadsRankBelow(root[name], ranks, ranks[name]);
    }
  }

  /** The walk over a schema is guarded exactly when no definition it can reach reaches itself without consuming data. */
  lemma GuardedIffNoCycle(s: Schema, root: Definitions)
    ensures (exists g: Guard :: g.root == root && g.Valid() && g.Covers(s))
      <==> Graphs.Acyclic(Reaches(root), Reachable(s, root))
  {
    if g: Guard :| g.root == root && g.Valid() && g.Covers(s) { GuardLeavesNoCycle(s, g); }
    if Graphs.Acyclic(Reaches(root), Reachable(s, root)) { var g := NoCycleGivesGuard(s, root); }
  }

  // ---- Walks that end ---------------------------------------------------------------------------------

  lemma {:induction false} EndsLonger(d: Json, s: Schema, root: Definitions, n: nat, m: nat)
    requires Ends(d, s, root, n) && n <= m
    ensures Ends(d, s, root, m)
    decreases n, 0
  {
    if s.ref.Some? {
      var target := ResolveRef(s.ref.value, root);
      if target.Ok? { EndsLonger(d, target.value, root, n - 1, m - 1); }
    } else {
      if s.oneOf.OneOf? {
        forall i | 0 <= i < |s.oneOf.schemas| ensures Ends(d, s.oneOf.schemas[i], root, m - 1) {
          EndsLonger(d, s.oneOf.schemas[i], root, n - 1, m - 1);
        }
      }
      if TypeMatches(d, s) { EndsInsideLonger(d, s, root, n - 1, m - 1); }
    }
  }

  lemma {:induction false} EndsInsideLonger(d: Json, s: Schema, root: Definitions, n: nat, m: nat)
    requires EndsInside(d, s, root, n) && n <= m
    ensures EndsInside(d, s, root, m)
    decreases n, 2
  {
    hide Ends;
    if d.Object? {
      forall k | 0 <= k < |d.members| ensures MemberEnds(d.members[k], s, root, m) {
        MemberEndsLonger(d.members[k], s, root, n, m);
      }
    }
    if d.Array? && s.items.Some? {
      forall k | 0 <= k < |d.items| ensures Ends(d.items[k], s.items.value, root, m) {
        EndsLonger(d.items[k], s.items.value, root, n, m);
      }
    }
  }

  lemma {:induction false} MemberEndsLonger(member: Member, s: Schema, root: Definitions, n: nat, m: nat)
    requires MemberEnds(member, s, root, n) && n <= m
    ensures MemberEnds(member, s, root, m)
    decreases n, 1
  {
    var schema := SchemaFor(s, member.key);
    if schema.Some? { EndsLonger(member.value, schema.value, root, n, m); }
  }

  lemma {:induction false} PropertyCovered(properties: seq<Property>, key: string, root: Definitions, names: set<string>)
    requires forall i :: 0 <= i < |properties| ==> Covered(properties[i].schema, root, names)
    ensures PropertyFor(properties, key).Some? ==> Covered(PropertyFor(properties, key).value, root, names)
  {
    if properties != [] { PropertyCovered(properties[1..], key, root, names); }
  }

  /** With a guard the walk over every value ends. */
  lemma {:induction false} GuardedEnds(d: Json, s: Schema, g: Guard, bound: nat) returns (n: nat)
    requires g.Valid() && g.Fits(s, bound)
    ensures Ends(d, s, g.root, n)
    decreases d, bound, s, 1
  {
    if s.ref.Some? {
      var target := ResolveRef(s.ref.value, g.root);
      n := 0;
      if target.Ok? { n := GuardedEnds(d, target.value, g, g.ranks[RefName(s.ref.value).value]); }
      n := n + 1;
    } else {
      var a := 0;
      if s.oneOf.OneOf? { a := AlternativesEnd(d, s, g, bound, |s.oneOf.schemas|); }
      var b := InsideEnds(d, s, g);
      n := if a < b then b else a;
      if s.oneOf.OneOf? {
        forall i | 0 <= i < |s.oneOf.schemas| ensures Ends(d, s.oneOf.schemas[i], g.root, n) { EndsLonger(d, s.oneOf.schemas[i], g.root, a, n); }
      }
      EndsInsideLonger(d, s, g.root, b, n);
      n := n + 1;
    }
  }

  lemma {:induction false} AlternativesEnd(d: Json, s: Schema, g: Guard, bound: nat, k: nat) returns (n: nat)
    requires g.Valid() && g.Fits(s, bound) && s.ref.None? && s.oneOf.OneOf? && k <= |s.oneOf.schemas|
    ensures forall i :: 0 <= i < k ==> Ends(d, s.oneOf.schemas[i], g.root, n)
    decreases d, bound, s, 0, k
  {
    n := 0;
    if k > 0 {
      var a := AlternativesEnd(d, s, g, bound, k - 1);
      var b := GuardedEnds(d, s.oneOf.schemas[k - 1], g, bound);
      n := a + b;
      forall i | 0 <= i < k ensures Ends(d, s.oneOf.schemas[i], g.root, n) {
        EndsLonger(d, s.oneOf.schemas[i], g.root, if i < k - 1 then a else b, n);
      }
    }
  }

  lemma {:induction false} InsideEnds(d: Json, s: Schema, g: Guard) returns (n: nat)
    requires g.Valid() && g.Covers(s) && s.ref.None?
    ensures EndsInside(d, s, g.root, n)
    decreases d, 0, s, 0
  {
    n := 0;
    if d.Object? { n := MembersEnd(d, s, g, |d.members|); }
    if d.Array? && s.items.Some? { n := ItemsEnd(d, s.items.value, g, |d.items|); }
  }

  lemma {:induction false} MembersEnd(d: Json, s: Schema, g: Guard, k: nat) returns (n: nat)
    requires g.Valid() && g.Covers(s) && s.ref.None? && d.Object? && k <= |d.members|
    ensures forall i :: 0 <= i < k ==> MemberEnds(d.members[i], s, g.root, n)
    decreases d, 0, s, 0, k
  {
    n := 0;
    if k > 0 {
      var a := MembersEnd(d, s, g, k - 1);
      var m, b := d.members[k - 1], 0;
      PropertyCovered(s.properties, m.key, g.root, g.ranks.Keys);
      var schema := SchemaFor(s, m.key);
      if schema.Some? {
        AllHeadsBelow(schema.value, g.ranks, g.limit);
        b := GuardedEnds(m.value, schema.value, g, g.limit);
      }
      n := a + b;
      forall i | 0 <= i < k ensures MemberEnds(d.members[i], s, g.root, n) {
        MemberEndsLonger(d.members[i], s, g.root, if i < k - 1 then a else b, n);
      }
    }
  }

  lemma {:induction false} ItemsEnd(d: Json, s: Schema, g: Guard, k: nat) returns (n: nat)
    requires g.Valid() && g.Covers(s) && d.Array? && k <= |d.items|
    ensures forall i :: 0 <= i < k ==> Ends(d.items[i], s, g.root, n)
    decreases d, 0, s, 0, k
  {
    n := 0;
    if k > 0 {
      var a := ItemsEnd(d, s, g, k - 1);
      AllHeadsBelow(s, g.ranks, g.limit);
      var b := GuardedEnds(d.items[k - 1], s, g, g.limit);
      n := a + b;
      forall i | 0 <= i < k ensures Ends(d.items[i], s, g.root, n) {
        EndsLonger(d.items[i], s, g.root, if i < k - 1 then a else b, n);
      }
    }
  }

  /** Where no definition within reach leads back to itself without consuming data, every walk ends. */
  lemma WalkEnds(d: Json, s: Schema, root: Definitions) returns (n: nat)
    requires Graphs.Acyclic(Reaches(root), Reachable(s, root))
    ensures Ends(d, s, root, n)
  {
    var g := NoCycleGivesGuard(s, root);
    AllHeadsBelow(s, g.ranks, g.limit);
    n := GuardedEnds(d, s, g, g.limit);
  }

  /** A walk that ends, ends sooner at every definition it reaches without consuming data. */
  lemma {:induction false} HeadEnds(d: Json, s: Schema, root: Definitions, n: nat, name: string) returns (m: nat)
    requires Ends(d, s, root, n) && name in Heads(s) && name in root
    ensures m < n && Ends(d, root[name], root, m)
    decreases n
  {
    if s.ref.Some? {
      m := n - 1;
    } else {
      var i :| 0 <= i < |s.oneOf.schemas| && name in Heads(s.oneOf.schemas[i]);
      m := HeadEnds(d, s.oneOf.schemas[i], root, n - 1, name);
    }
  }

  lemma {:induction false} EndsAlongWalk(d: Json, root: Definitions, p: seq<string>, k: nat, n: nat) returns (m: nat)
    requires Graphs.IsWalk(Reaches(root), p) && 0 < k < |p| && forall name :: name in p ==> name in root
    requires Ends(d, root[p[0]], root, n)
    ensures m < n && Ends(d, root[p[k]], root, m)
    decreases k
  {
    var before := n;
    if k > 1 { before := EndsAlongWalk(d, root, p, k - 1, n); }
    assert Reaches(root)(p[k - 1], p[k]) && p[k - 1] in p && p[k] in p;
    m := HeadEnds(d, root[p[k - 1]], root, before, p[k]);
  }

  /** From a definition on a circle no walk ends, whatever the value. */
  lemma {:induction false} CircleNeverEnds(d: Json, root: Definitions, p: seq<string>, n: nat)
    requires Graphs.IsCycle(Reaches(root), root.Keys, p)
    ensures !Ends(d, root[p[0]], root, n)
    decreases n
  {
    if Ends(d, root[p[0]], root, n) {
      var m := EndsAlongWalk(d, root, p, |p| - 1, n);
      CircleNeverEnds(d, root, p, m);
    }
  }

  ghost predicate HasEnd(d: Json, s: Schema, root: Definitions) { exists n :: Ends(d, s, root, n) }

  /** Reachable definitions are definitions, so a circle among them is one among all. */
  lemma SmallerAcyclic(s: Schema, root: Definitions)
    requires Graphs.Acyclic(Reaches(root), root.Keys)
    ensures Graphs.Acyclic(Reaches(root), Reachable(s, root))
  {
    forall p ensures !Graphs.IsCycle(Reaches(root), Reachable(s, root), p) {
      assert Graphs.IsCycle(Reaches(root), Reachable(s, root), p) ==> Graphs.IsCycle(Reaches(root), root.Keys, p);
    }
  }

  /** The walks from every definition over every value end exactly when no definition leads back to itself without consuming data. */
  lemma EveryWalkEndsIff(root: Definitions)
    ensures (forall name, d :: name in root ==> HasEnd(d, root[name], root)) <==> Graphs.Acyclic(Reaches(root), root.Keys)
  {
    if Graphs.Acyclic(Reaches(root), root.Keys) {
      forall name, d | name in root ensures HasEnd(d, root[name], root) {
        SmallerAcyclic(root[name], root);
        var n := WalkEnds(d, root[name], root);
      }
    } else {
      var p :| Graphs.IsCycle(Reaches(root), root.Keys, p);
      forall n ensures !Ends(Null, root[p[0]], root, n) { CircleNeverEnds(Null, root, p, n); }
      assert p[0] in root && !HasEnd(Null, root[p[0]], root);
    }
  }
}
