/**
 * The translation of documented TypeScript types into JSON Schema: its two sides, each with
 * a meaning over JSON values, and the strict translator between them.
 */
module TypeSchema {
  import opened Text

  // ----- JSON values -----

  datatype Json =
    | Null
    | Bool(b: bool)
    | Num(n: real)
    | Str(s: string)
    | Arr(items: seq<Json>)
    | Obj(fields: map<string, Json>)

  // ----- Types -----

  datatype Literal = StringLit(s: string) | NumberLit(n: real) | BoolLit(b: bool) | BigIntLit | NullLit

  /** Description, default and deprecation, copied from a doc comment; they constrain nothing. */
  datatype Doc = Doc(description: string, defaultValue: Option<string>, deprecated: bool)

  /** `readonly T`, `keyof T`, `unique symbol`. */
  datatype Operator = KeyOf | ReadOnly | Unique

  /**
   * `Reflection` is an object type written out: its members, whether it can be called or constructed, and the value
   * types of its index signatures over strings. `Wrapper` is an optional or rest element of a tuple. `Incomplete` is a
   * node of the named kind that lacks the part it needs: members, element, declaration, target.
   */
  datatype Type =
    | Intrinsic(name: string)
    | LiteralType(value: Literal)
    | Union(types: seq<Type>)
    | ArrayType(element: Type)
    | Reflection(children: seq<Child>, calls: bool, index: seq<Type>)
    | Reference(name: string, arguments: seq<Type>)
    | TypeOperator(operator: Operator, target: Type)
    | Wrapper(kind: string, element: Type)
    | Unsupported(kind: string)
    | Incomplete(kind: string)

  datatype MemberKind = PropertyMember | MethodMember | AccessorMember

  datatype Child = Child(name: string, kind: MemberKind, isOptional: bool, declared: Type, doc: Doc)

  predicate IsProperty(c: Child) {
    c.kind.PropertyMember?
  }

  predicate IsUndefined(t: Type) {
    t == Intrinsic("undefined")
  }

  predicate IsNull(t: Type) {
    t == Intrinsic("null") || t == LiteralType(NullLit)
  }

  predicate IsAmbiguous(t: Type) {
    t == Intrinsic("unknown") || t == Intrinsic("any")
  }

  predicate IsStringLiteral(t: Type) {
    t.LiteralType? && t.value.StringLit?
  }

  predicate IsStringKey(t: Type) {
    || t == Intrinsic("string")
    || (t.Union? && forall m | m in t.types :: IsStringLiteral(m))
    || t == Incomplete("union")
  }

  /** A property may be absent when it is marked so or when its union lists `undefined`. */
  predicate MayBeAbsent(c: Child) {
    c.isOptional || (c.declared.Union? && exists t | t in c.declared.types :: IsUndefined(t))
  }

  /** A member may be absent exactly when it is optional or declared as a union with `undefined`. */
  lemma AbsentExact(c: Child)
    ensures MayBeAbsent(c)
       <==> c.isOptional || exists types :: c.declared == Union(types) && Intrinsic("undefined") in types
  {
  }

  /** The members of a union other than `undefined`. */
  function Actual(types: seq<Type>): (r: seq<Type>)
    ensures forall t | t in r :: t in types && !IsUndefined(t)
    ensures forall t | t in types && !IsUndefined(t) :: t in r
    ensures |r| <= |types|
  {
    if types == [] then []
    else (if IsUndefined(types[0]) then [] else [types[0]]) + Actual(types[1..])
  }

  predicate LiteralIs(l: Literal, v: Json) {
    match l
    case StringLit(s) => v == Str(s)
    case NumberLit(n) => v == Num(n)
    case BoolLit(b) => v == Bool(b)
    case BigIntLit => false
    case NullLit => v == Null
  }

  /** The JSON value is a value of the type. Object types are closed; `undefined` and functions have no JSON value. */
  ghost predicate Inhabits(t: Type, v: Json)
    decreases t, 1
  {
    match t
    case Intrinsic(name) =>
      || name == "any" || name == "unknown"
      || (name == "string" && v.Str?)
      || (name == "number" && v.Num?)
      || (name == "boolean" && v.Bool?)
      || (name == "null" && v.Null?)
    case LiteralType(value) => LiteralIs(value, v)
    case Union(types) => exists m | m in types :: Inhabits(m, v)
    case ArrayType(element) => v.Arr? && forall e | e in v.items :: Inhabits(element, e)
    case Reflection(children, calls, index) =>
      && v.Obj? && !calls
      && (forall c | c in children && !MayBeAbsent(c) :: c.name in v.fields)
      && (forall k | k in v.fields ::
            (exists c | c in children :: c.name == k) || exists x | x in index :: Inhabits(x, v.fields[k]))
      && (forall c | c in children && c.name in v.fields ::
            !c.kind.MethodMember? && Inhabits(c.declared, v.fields[c.name]))
    case Reference(name, arguments) =>
      if name == "Record" then
        && |arguments| == 2 && v.Obj?
        && (forall k | k in v.fields :: Inhabits(arguments[0], Str(k)))
        && (arguments[0].Union? ==> forall m | m in arguments[0].types && IsStringLiteral(m) :: m.value.s in v.fields)
        && (forall k | k in v.fields :: Inhabits(arguments[1], v.fields[k]))
      else
        && (name == "Array" || name == "ReadonlyArray")
        && |arguments| == 1 && v.Arr?
        && forall e | e in v.items :: Inhabits(arguments[0], e)
    case TypeOperator(operator, target) => if operator == KeyOf then HasKey(target, v) else Inhabits(target, v)
    case Wrapper(_, element) => Inhabits(element, v)
    case Unsupported(_) => false
    case Incomplete(_) => false
  }

  /** A member every string has: String.prototype of ECMAScript 2022, section 22.1.3 and annex B.2.2, and `length`. */
  predicate NamesStringMember(name: string) {
    name in {"length", "at", "charAt", "charCodeAt", "codePointAt", "concat", "endsWith", "includes", "indexOf",
             "lastIndexOf", "localeCompare", "match", "matchAll", "normalize", "padEnd", "padStart", "repeat",
             "replace", "replaceAll", "search", "slice", "split", "startsWith", "substring", "toLocaleLowerCase",
             "toLocaleUpperCase", "toLowerCase", "toString", "toUpperCase", "trim", "trimEnd", "trimStart", "valueOf",
             "substr", "anchor", "big", "blink", "bold", "fixed", "fontcolor", "fontsize", "italics", "link", "small",
             "strike", "sub", "sup", "trimLeft", "trimRight"}
  }

  /** The value is a key of the type; the members of numbers, booleans and arrays are not listed. */
  ghost predicate HasKey(t: Type, key: Json)
    decreases t, 0
  {
    match t
    case Intrinsic(name) =>
      if name == "string" then IsStringMember(key) else (name == "any" || name == "never") && IsName(key)
    case LiteralType(value) => value.StringLit? && IsStringMember(key)
    case Union(types) => forall m | m in types :: HasKey(m, key)
    case Reflection(children, _, index) =>
      (index != [] && IsName(key)) || (key.Str? && exists c | c in children :: c.name == key.s)
    case Reference(name, arguments) => name == "Record" && |arguments| == 2 && Inhabits(arguments[0], key)
    case TypeOperator(operator, target) => operator != KeyOf && HasKey(target, key)
    case Wrapper(_, element) => HasKey(element, key)
    case _ => false
  }

  /** A property name, or an index. */
  predicate IsName(key: Json) {
    key.Str? || key.Num?
  }

  /** Strings have their members, and are indexed by numbers. */
  predicate IsStringMember(key: Json) {
    key.Num? || (key.Str? && NamesStringMember(key.s))
  }

  // ----- Schemas -----

  datatype Kind = StringKind | NumberKind | BooleanKind

  datatype Schema =
    | Anything                                                       // {}
    | Simple(kind: Kind)                                             // type
    | Enum(kind: Kind, values: seq<Literal>)                         // type, enum
    | ArrayOf(items: Schema)                                         // type: array, items
    | Closed(properties: seq<Property>, required: seq<string>)       // type: object, additionalProperties: false
    | MapOfAnything                                                  // type: object, additionalProperties: true
    | MapOf(each: Schema)                                            // type: object, additionalProperties: a schema
    | OneOf(options: seq<Schema>)                                    // oneOf

  datatype Property = Property(name: string, schema: Schema, doc: Doc)

  predicate IsOfKind(v: Json, kind: Kind) {
    match kind
    case StringKind => v.Str?
    case NumberKind => v.Num?
    case BooleanKind => v.Bool?
  }

  /** Validation as JSON Schema Core 2020-12 defines it: `oneOf` in section 10.2.1.3, closed objects in 10.3.2.3. */
  ghost predicate Valid(s: Schema, v: Json)
    decreases s
  {
    match s
    case Anything => true
    case Simple(kind) => IsOfKind(v, kind)
    case Enum(kind, values) => IsOfKind(v, kind) && exists l | l in values :: LiteralIs(l, v)
    case ArrayOf(items) => v.Arr? && forall e | e in v.items :: Valid(items, e)
    case Closed(properties, required) =>
      && v.Obj?
      && (forall r | r in required :: r in v.fields)
      && (forall k | k in v.fields :: exists p | p in properties :: p.name == k)
      && (forall p | p in properties && p.name in v.fields :: Valid(p.schema, v.fields[p.name]))
    case MapOfAnything => v.Obj?
    case MapOf(each) => v.Obj? && forall k | k in v.fields :: Valid(each, v.fields[k])
    case OneOf(options) =>
      exists i | 0 <= i < |options| ::
        Valid(options[i], v) && forall j | 0 <= j < |options| && j != i :: !Valid(options[j], v)
  }

  // ----- The strict translator -----

  datatype Error =
    | MissingPart(kind: string)
    | AmbiguousIntrinsic(name: string)
    | UnsupportedIntrinsic(name: string)
    | BigIntLiteral
    | NullishLiteral
    | EmptyUnion
    | NullableUnion
    | UndefinedOnlyUnion
    | RecordKey
    | UnsupportedReference(name: string)
    | UnsupportedKind(kind: string)

  function ParseIntrinsic(name: string): Result<Schema, Error> {
    if name == "string" then Ok(Simple(StringKind))
    else if name == "number" then Ok(Simple(NumberKind))
    else if name == "boolean" then Ok(Simple(BooleanKind))
    else if name in {"any", "unknown", "undefined", "null", "never", "void"} then Err(AmbiguousIntrinsic(name))
    else Err(UnsupportedIntrinsic(name))
  }

  function ParseLiteral(value: Literal): Result<Schema, Error> {
    match value
    case StringLit(_) => Ok(Enum(StringKind, [value]))
    case NumberLit(_) => Ok(Enum(NumberKind, [value]))
    case BigIntLit => Err(BigIntLiteral)
    case BoolLit(_) => Ok(Enum(BooleanKind, [value]))
    case NullLit => Err(NullishLiteral)
  }

  /** An array index of ECMA-262: such a name comes before all others, whenever it was set. */
  predicate IsIndex(name: string) {
    && name != "" && (forall c | c in name :: '0' <= c <= '9')
    && (name[0] == '0' ==> name == "0")
    && (|name| < 10 || (|name| == 10 && Less(name, "4294967295")))
  }

  /** The numeric order of digit strings of the same length. */
  predicate Less(a: string, b: string)
    requires |a| == |b|
  {
    a != "" && (a[0] < b[0] || (a[0] == b[0] && Less(a[1..], b[1..])))
  }

  /** Where properties are listed, `a` comes before `b` although `b` was set first. */
  predicate Overtakes(a: string, b: string) {
    IsIndex(a) && (!IsIndex(b) || |a| < |b| || (|a| == |b| && Less(a, b)))
  }

  /**
   * `schema.properties[name] = property`: a known name keeps its place, indices are listed first and in order, and
   * `__proto__` sets no property at all.
   */
  function Assign(properties: seq<Property>, p: Property): seq<Property> {
    if p.name == "__proto__" then properties
    else if properties == [] then [p]
    else if properties[0].name == p.name then [p] + properties[1..]
    else if Overtakes(p.name, properties[0].name) then [p] + properties
    else [properties[0]] + Assign(properties[1..], p)
  }

  predicate IsBoolLiteral(t: Type) {
    t.LiteralType? && t.value.BoolLit?
  }

  function LiteralValues(types: seq<Type>): (r: seq<Literal>)
    requires forall t | t in types :: t.LiteralType?
    ensures |r| == |types| && forall i | 0 <= i < |r| :: r[i] == types[i].value
  {
    seq(|types|, i requires 0 <= i < |types| => types[i].value)
  }

  /** Keeps the first of equal schemas. */
  function Without(kept: seq<Schema>, schemas: seq<Schema>): seq<Schema>
    decreases schemas
  {
    if schemas == [] then kept
    else if schemas[0] in kept then Without(kept, schemas[1..])
    else Without(kept + [schemas[0]], schemas[1..])
  }

  function Combined(options: seq<Schema>): Schema {
    if |options| == 1 then options[0] else OneOf(options)
  }

  function Parse(t: Type): Result<Schema, Error>
    decreases t, 2
  {
    match t
    case Intrinsic(name) => ParseIntrinsic(name)
    case LiteralType(value) => ParseLiteral(value)
    case Union(types) => ParseUnion(types)
    case ArrayType(element) => ArraySchema(Parse(element))
    case Reflection(children, _, _) => ParseObject(children)
    case Reference(name, arguments) =>
      if (name == "Array" || name == "ReadonlyArray") && |arguments| == 1 then ArraySchema(Parse(arguments[0]))
      else if name == "Record" && |arguments| == 2 then
        if !IsStringKey(arguments[0]) then Err(RecordKey)
        else if IsAmbiguous(arguments[1]) then Ok(MapOfAnything)
        else MapSchema(Parse(arguments[1]))
      else Err(UnsupportedReference(name))
    case TypeOperator(_, target) => Parse(target)
    case Wrapper(_, element) => Parse(element)
    case Unsupported(kind) => Err(UnsupportedKind(kind))
    case Incomplete(kind) => Err(MissingPart(kind))
  }

  function ArraySchema(items: Result<Schema, Error>): Result<Schema, Error> {
    if items.Ok? then Ok(ArrayOf(items.value)) else items
  }

  function MapSchema(values: Result<Schema, Error>): Result<Schema, Error> {
    if values.Ok? then Ok(MapOf(values.value)) else values
  }

  function ParseUnion(types: seq<Type>): Result<Schema, Error>
    decreases types, 1
  {
    var actual := Actual(types);
    if types == [] then Err(EmptyUnion)
    else if exists t | t in types :: IsNull(t) then Err(NullableUnion)
    else if actual == [] then Err(UndefinedOnlyUnion)
    else if |actual| == 1 then
      assert actual[0] in types;
      Parse(actual[0])
    else if forall t | t in actual :: IsStringLiteral(t) then Ok(Enum(StringKind, LiteralValues(actual)))
    else if |actual| == 2 && forall t | t in actual :: IsBoolLiteral(t) then Ok(Simple(BooleanKind))
    else Merged([], ParseMembers(types))
  }

  /** The alternatives kept so far and the distinct ones still to come, as one schema. */
  function Merged(kept: seq<Schema>, schemas: Result<seq<Schema>, Error>): Result<Schema, Error> {
    if schemas.Err? then Err(schemas.error) else Ok(Combined(Without(kept, schemas.value)))
  }

  /** The schemas of the members other than `undefined`, or the first error. */
  function ParseMembers(types: seq<Type>): (r: Result<seq<Schema>, Error>)
    ensures r.Ok? ==> |r.value| == |Actual(types)|
    decreases types, 0
  {
    if types == [] then Ok([])
    else if IsUndefined(types[0]) then ParseMembers(types[1..])
    else
      var head := Parse(types[0]);
      if head.Err? then Err(head.error)
      else
        var tail := ParseMembers(types[1..]);
        if tail.Err? then tail else Ok([head.value] + tail.value)
  }

  /** The closed object schema after some of the children, continued with the rest. */
  function ParseChildren(properties: seq<Property>, required: seq<string>, children: seq<Child>): Result<Schema, Error>
    decreases children, 0
  {
    if children == [] then Ok(Closed(properties, required))
    else
      var c := children[0];
      if !IsProperty(c) then ParseChildren(properties, required, children[1..])
      else
        var schema := Parse(c.declared);
        if schema.Err? then schema
        else
          ParseChildren(Assign(properties, Property(c.name, schema.value, c.doc)),
                        if MayBeAbsent(c) then required else required + [c.name],
                        children[1..])
  }

  function ParseObject(children: seq<Child>): Result<Schema, Error>
    decreases children, 1
  {
    ParseChildren([], [], children)
  }

  // ----- The loops of the translator -----

  method ParseObjectReflection(children: seq<Child>) returns (r: Result<Schema, Error>)
    ensures r == ParseObject(children)
  {
    var properties, required := [], [];
    var i := 0;
    while i < |children|
      invariant 0 <= i <= |children|
      invariant ParseObject(children) == ParseChildren(properties, required, children[i..])
    {
      var child := children[i];
      assert children[i..][0] == child && children[i..][1..] == children[i + 1..];
      i := i + 1;
      if !IsProperty(child) { continue; }
      var schema := Parse(child.declared);
      if schema.Err? { return schema; }
      properties := Assign(properties, Property(child.name, schema.value, child.doc));
      if !MayBeAbsent(child) { required := required + [child.name]; }
    }
    assert children[i..] == [];
    return Ok(Closed(properties, required));
  }

  method ParseUnionType(types: seq<Type>) returns (r: Result<Schema, Error>)
    ensures r == ParseUnion(types)
  {
    if |types| == 0 { return Err(EmptyUnion); }
    if exists t | t in types :: IsNull(t) { return Err(NullableUnion); }
    var actual := Actual(types);
    if |actual| == 0 { return Err(UndefinedOnlyUnion); }
    if |actual| == 1 { return Parse(actual[0]); }
    if forall t | t in actual :: IsStringLiteral(t) { return Ok(Enum(StringKind, LiteralValues(actual))); }
    if |actual| == 2 && forall t | t in actual :: IsBoolLiteral(t) { return Ok(Simple(BooleanKind)); }
    var r' := ParseAlternatives(actual);
    ActualAgain(types);
    return r';
  }

  /** The distinct schemas of the members, under `oneOf` if there is more than one. */
  method ParseAlternatives(actual: seq<Type>) returns (r: Result<Schema, Error>)
    requires forall t | t in actual :: !IsUndefined(t)
    ensures r == Merged([], ParseMembers(actual))
  {
    hide Parse, ParseMembers, Merged, IsUndefined;
    var oneOf := [];
    var i := 0;
    while i < |actual|
      invariant 0 <= i <= |actual|
      invariant Merged([], ParseMembers(actual)) == Merged(oneOf, ParseMembers(actual[i..]))
    {
      MembersStep(actual, i);
      var schema := Parse(actual[i]);
      MergedStep(oneOf, schema, ParseMembers(actual[i + 1..]));
      if schema.Err? { return schema; }
      if schema.value !in oneOf { oneOf := oneOf + [schema.value]; }
      i := i + 1;
    }
    MembersNone(oneOf, actual[i..]);
    return Ok(Combined(oneOf));
  }

  /** The first member's schema in front of the others', or the first error. */
  function Front(head: Result<Schema, Error>, tail: Result<seq<Schema>, Error>): Result<seq<Schema>, Error> {
    if head.Err? then Err(head.error) else if tail.Err? then tail else Ok([head.value] + tail.value)
  }

  lemma MembersStep(actual: seq<Type>, i: nat)
    requires i < |actual| && !IsUndefined(actual[i])
    ensures ParseMembers(actual[i..]) == Front(Parse(actual[i]), ParseMembers(actual[i + 1..]))
  {
    hide Parse;
    assert actual[i..][1..] == actual[i + 1..];
  }

  lemma MembersNone(kept: seq<Schema>, none: seq<Type>)
    requires none == []
    ensures Merged(kept, ParseMembers(none)) == Ok(Combined(kept))
  {
  }

  lemma MergedStep(kept: seq<Schema>, head: Result<Schema, Error>, tail: Result<seq<Schema>, Error>)
    ensures Merged(kept, Front(head, tail))
         == if head.Err? then Err(head.error)
            else Merged(if head.value in kept then kept else kept + [head.value], tail)
  {
    if head.Ok? && tail.Ok? { assert ([head.value] + tail.value)[1..] == tail.value; }
  }

  lemma {:induction false} ActualAgain(types: seq<Type>)
    ensures ParseMembers(Actual(types)) == ParseMembers(types)
  {
    if types != [] {
      ActualAgain(types[1..]);
      if IsUndefined(types[0]) {
        assert [] + Actual(types[1..]) == Actual(types[1..]);
      } else {
        assert Actual(types)[1..] == Actual(types[1..]);
      }
    }
  }
}
