/** The strict translator keeps the meaning of the type. */
module SchemaMeaning {
  import opened Text
  import opened TypeSchema

  // ----- Shapes of types -----

  predicate NamesOnce(children: seq<Child>) {
    forall i, j | 0 <= i < j < |children| :: children[i].name != children[j].name
  }

  /** Two boolean literals that are the same one. */
  predicate Twins(types: seq<Type>) {
    var actual := Actual(types);
    |actual| == 2 && IsBoolLiteral(actual[0]) && actual[0] == actual[1]
  }

  predicate StringKeyed(name: string, arguments: seq<Type>) {
    name == "Record" && |arguments| == 2 ==> arguments[0] == Intrinsic("string")
  }

  /** Every member that JSON cannot carry, or that the translator skips, may be absent. */
  predicate NothingMissing(children: seq<Child>, calls: bool) {
    !calls && forall c | c in children && !IsProperty(c) :: MayBeAbsent(c)
  }

  /**
   * Members are named once and whatever is required is a property, records are keyed by `string`, there is no `keyof`,
   * and no union is the same boolean literal twice.
   */
  predicate SoundShape(t: Type) {
    match t
    case Union(types) => !Twins(types) && forall m | m in types :: SoundShape(m)
    case ArrayType(element) => SoundShape(element)
    case Reflection(children, calls, _) =>
      && NamesOnce(children) && NothingMissing(children, calls)
      && forall c | c in children :: IsProperty(c) ==> SoundShape(c.declared)
    case Reference(name, arguments) => StringKeyed(name, arguments) && forall a | a in arguments :: SoundShape(a)
    case TypeOperator(operator, target) => operator != KeyOf && SoundShape(target)
    case Wrapper(_, element) => SoundShape(element)
    case _ => true
  }

  ghost predicate Disjoint(t: Type, u: Type) {
    forall v :: !(Inhabits(t, v) && Inhabits(u, v))
  }

  /** Members that are translated to different schemas share no value; equal schemas are merged. */
  ghost predicate Apart(types: seq<Type>) {
    var actual := Actual(types);
    forall i, j | 0 <= i < j < |actual| :: Parse(actual[i]) != Parse(actual[j]) ==> Disjoint(actual[i], actual[j])
  }

  /** A member the closed schema gets right: a property not called `__proto__`, or a method that may be absent. */
  predicate Translatable(c: Child) {
    if IsProperty(c) then c.name != "__proto__" else c.kind.MethodMember? && MayBeAbsent(c)
  }

  /** Besides, members of a union with different schemas are disjoint, and all members of objects are translatable. */
  ghost predicate ExactShape(t: Type) {
    match t
    case Union(types) => !Twins(types) && Apart(types) && forall m | m in types :: ExactShape(m)
    case ArrayType(element) => ExactShape(element)
    case Reflection(children, calls, index) =>
      && NamesOnce(children) && !calls && index == []
      && (forall c | c in children :: Translatable(c))
      && forall c | c in children :: IsProperty(c) ==> ExactShape(c.declared)
    case Reference(name, arguments) => StringKeyed(name, arguments) && forall a | a in arguments :: ExactShape(a)
    case TypeOperator(operator, target) => operator != KeyOf && ExactShape(target)
    case Wrapper(_, element) => ExactShape(element)
    case _ => true
  }

  lemma {:induction false} ExactIsSound(t: Type)
    requires ExactShape(t)
    ensures SoundShape(t)
  {
    match t
    case Union(types) =>
      forall m | m in types ensures SoundShape(m) { ExactIsSound(m); }
    case ArrayType(element) => ExactIsSound(element);
    case Reflection(children, calls, _) =>
      forall c | c in children ensures Translatable(c) {}
      forall c | c in children && IsProperty(c) ensures SoundShape(c.declared) { ExactIsSound(c.declared); }
    case Reference(name, arguments) =>
      forall a | a in arguments ensures SoundShape(a) { ExactIsSound(a); }
    case TypeOperator(_, target) => ExactIsSound(target);
    case Wrapper(_, element) => ExactIsSound(element);
    case _ =>
  }

  // ----- Object types -----

  type Translator = Type -> Result<Schema, Error>

  /** The property is made from the member: its name, the translation of its type, its documentation. */
  ghost predicate DescribesBy(parse: Translator, p: Property, c: Child) {
    IsProperty(c) && c.name != "__proto__" && p.name == c.name && parse(c.declared) == Ok(p.schema) && p.doc == c.doc
  }

  ghost predicate Describes(p: Property, c: Child) {
    DescribesBy(Parse, p, c)
  }

  lemma {:induction false} AssignNew(properties: seq<Property>, p: Property)
    requires forall q | q in properties :: q.name != p.name
    ensures forall q :: q in Assign(properties, p) <==> q in properties || (q == p && p.name != "__proto__")
  {
    hide Overtakes;
    if p.name != "__proto__" && properties != [] {
      AssignNew(properties[1..], p);
      assert properties == [properties[0]] + properties[1..];
    }
  }

  lemma FirstNamedOnce(children: seq<Child>)
    requires children != [] && NamesOnce(children)
    ensures forall d | d in children[1..] :: d.name != children[0].name
  {
    forall d | d in children[1..] ensures d.name != children[0].name {
      var j :| 0 <= j < |children[1..]| && children[1..][j] == d;
      assert children[j + 1] == d;
    }
  }

  /** The closed object schema after some of the children, continued with the rest, by a translator of their types. */
  function ChildrenBy(parse: Translator, properties: seq<Property>, required: seq<string>, children: seq<Child>)
    : Result<Schema, Error>
    decreases children
  {
    if children == [] then Ok(Closed(properties, required))
    else
      var c := children[0];
      if !IsProperty(c) then ChildrenBy(parse, properties, required, children[1..])
      else
        var schema := parse(c.declared);
        if schema.Err? then schema
        else
          ChildrenBy(parse, Assign(properties, Property(c.name, schema.value, c.doc)),
                     if MayBeAbsent(c) then required else required + [c.name], children[1..])
  }

  /** The schema lists the properties given and those of the children, and requires the names given and by them. */
  ghost predicate ListsBy(parse: Translator, s: Schema, properties: seq<Property>, required: seq<string>,
                          children: seq<Child>)
  {
    && s.Closed?
    && (forall p | p in s.properties :: p in properties || exists c | c in children :: DescribesBy(parse, p, c))
    && (forall p | p in properties :: p in s.properties)
    && (forall c | c in children && IsProperty(c) && c.name != "__proto__" ::
          exists p | p in s.properties :: DescribesBy(parse, p, c))
    && (forall c | c in children && IsProperty(c) :: parse(c.declared).Ok?)
    && forall r :: r in s.required
              <==> r in required || exists c | c in children :: IsProperty(c) && !MayBeAbsent(c) && c.name == r
  }

  lemma ListsSkipped(parse: Translator, s: Schema, properties: seq<Property>, required: seq<string>, c: Child,
                     rest: seq<Child>)
    requires ListsBy(parse, s, properties, required, rest) && !IsProperty(c)
    ensures ListsBy(parse, s, properties, required, [c] + rest)
  {
    hide MayBeAbsent, IsProperty;
    assert forall d :: d in [c] + rest <==> d == c || d in rest;
    assert forall p: Property :: !DescribesBy(parse, p, c);
  }

  lemma ListsOneMore(parse: Translator, s: Schema, properties: seq<Property>, properties': seq<Property>,
                     required: seq<string>, c: Child, p: Property, rest: seq<Child>)
    requires IsProperty(c) && parse(c.declared).Ok? && p == Property(c.name, parse(c.declared).value, c.doc)
    requires forall q :: q in properties' <==> q in properties || (q == p && p.name != "__proto__")
    requires ListsBy(parse, s, properties', if MayBeAbsent(c) then required else required + [c.name], rest)
    ensures ListsBy(parse, s, properties, required, [c] + rest)
  {
    hide MayBeAbsent, IsProperty;
    assert forall d :: d in [c] + rest <==> d == c || d in rest;
    if c.name != "__proto__" { assert p in properties' && DescribesBy(parse, p, c); }
  }

  lemma ListsNothing(parse: Translator, properties: seq<Property>, required: seq<string>)
    ensures ListsBy(parse, Closed(properties, required), properties, required, [])
  {
  }

  lemma ParseOneMore(parse: Translator, properties: seq<Property>, required: seq<string>, c: Child, rest: seq<Child>,
                     s: Schema)
    requires ChildrenBy(parse, properties, required, [c] + rest) == Ok(s)
    ensures if !IsProperty(c) then ChildrenBy(parse, properties, required, rest) == Ok(s)
            else parse(c.declared).Ok?
                 && ChildrenBy(parse, Assign(properties, Property(c.name, parse(c.declared).value, c.doc)),
                               if MayBeAbsent(c) then required else required + [c.name], rest) == Ok(s)
  {
    hide MayBeAbsent, IsProperty, Assign;
    assert ([c] + rest)[1..] == rest;
  }

  lemma {:induction false} ChildrenListed(parse: Translator, properties: seq<Property>, required: seq<string>,
                                          children: seq<Child>, s: Schema)
    requires ChildrenBy(parse, properties, required, children) == Ok(s)
    requires NamesOnce(children)
    requires forall p, c | p in properties && c in children && IsProperty(c) :: p.name != c.name
    ensures ListsBy(parse, s, properties, required, children)
    decreases children
  {
    hide Assign, MayBeAbsent, IsProperty, ListsBy;
    if children == [] {
      ListsNothing(parse, properties, required);
    } else {
      hide ChildrenBy;
      var c, rest := children[0], children[1..];
      assert children == [c] + rest && c in children && forall d | d in rest :: d in children;
      FirstNamedOnce(children);
      assert NamesOnce(rest);
      ParseOneMore(parse, properties, required, c, rest, s);
      if !IsProperty(c) {
        ChildrenListed(parse, properties, required, rest, s);
        ListsSkipped(parse, s, properties, required, c, rest);
      } else {
        var p := Property(c.name, parse(c.declared).value, c.doc);
        AssignNew(properties, p);
        ChildrenListed(parse, Assign(properties, p), if MayBeAbsent(c) then required else required + [c.name], rest, s);
        ListsOneMore(parse, s, properties, Assign(properties, p), required, c, p, rest);
      }
    }
  }

  lemma {:induction false} StrictChildren(properties: seq<Property>, required: seq<string>, children: seq<Child>)
    ensures ParseChildren(properties, required, children) == ChildrenBy(Parse, properties, required, children)
    decreases children
  {
    hide Assign, MayBeAbsent;
    if children != [] {
      var c := children[0];
      if !IsProperty(c) {
        StrictChildren(properties, required, children[1..]);
      } else if Parse(c.declared).Ok? {
        StrictChildren(Assign(properties, Property(c.name, Parse(c.declared).value, c.doc)),
                       if MayBeAbsent(c) then required else required + [c.name], children[1..]);
      }
    }
  }

  /** The closed schema lists exactly the declared properties, each with the schema of its type. */
  lemma ChildrenParsed(properties: seq<Property>, required: seq<string>, children: seq<Child>, s: Schema)
    requires ParseChildren(properties, required, children) == Ok(s)
    requires NamesOnce(children)
    requires forall p, c | p in properties && c in children && IsProperty(c) :: p.name != c.name
    ensures s.Closed?
    ensures forall p | p in s.properties :: p in properties || exists c | c in children :: Describes(p, c)
    ensures forall p | p in properties :: p in s.properties
    ensures forall c | c in children && IsProperty(c) && c.name != "__proto__" ::
              exists p | p in s.properties :: Describes(p, c)
    ensures forall c | c in children && IsProperty(c) :: Parse(c.declared).Ok?
    ensures forall r :: r in s.required
                   <==> r in required || exists c | c in children :: IsProperty(c) && !MayBeAbsent(c) && c.name == r
  {
    StrictChildren(properties, required, children);
    ChildrenListed(Parse, properties, required, children, s);
    hide Parse, MayBeAbsent, IsProperty, DescribesBy, ParseChildren;
  }

  // ----- Every valid value inhabits the type -----

  lemma {:induction false} Soundness(t: Type, s: Schema, v: Json)
    requires Parse(t) == Ok(s) && SoundShape(t) && Valid(s, v)
    ensures Inhabits(t, v)
    decreases t
  {
    match t
    case Intrinsic(_) =>
    case LiteralType(_) =>
    case Union(types) => UnionSoundness(types, s, v);
    case ArrayType(element) =>
      forall e | e in v.items ensures Inhabits(element, e) { Soundness(element, s.items, e); }
    case Reflection(children, calls, index) => ObjectSoundness(children, calls, index, s, v);
    case Reference(name, arguments) => ReferenceSoundness(name, arguments, s, v);
    case TypeOperator(_, target) => Soundness(target, s, v);
    case Wrapper(_, element) => Soundness(element, s, v);
    case Unsupported(_) =>
    case Incomplete(_) =>
  }

  lemma {:induction false} ReferenceSoundness(name: string, arguments: seq<Type>, s: Schema, v: Json)
    requires Parse(Reference(name, arguments)) == Ok(s) && SoundShape(Reference(name, arguments)) && Valid(s, v)
    ensures Inhabits(Reference(name, arguments), v)
    decreases arguments
  {
    if name == "Record" {
      if s.MapOf? {
        forall k | k in v.fields ensures Inhabits(arguments[1], v.fields[k]) {
          Soundness(arguments[1], s.each, v.fields[k]);
        }
      }
    } else {
      forall e | e in v.items ensures Inhabits(arguments[0], e) { Soundness(arguments[0], s.items, e); }
    }
  }

  lemma {:induction false} ObjectSoundness(children: seq<Child>, calls: bool, index: seq<Type>, s: Schema, v: Json)
    requires ParseObject(children) == Ok(s) && Valid(s, v)
    requires NamesOnce(children) && NothingMissing(children, calls)
    requires forall c | c in children :: IsProperty(c) ==> SoundShape(c.declared)
    ensures Inhabits(Reflection(children, calls, index), v)
    decreases children
  {
    ChildrenParsed([], [], children, s);
    forall c | c in children && c.name in v.fields
      ensures !c.kind.MethodMember? && Inhabits(c.declared, v.fields[c.name])
    {
      var q :| q in s.properties && q.name == c.name;
      var d :| d in children && Describes(q, d);
      SameMember(children, c, d);
      Soundness(c.declared, q.schema, v.fields[c.name]);
    }
  }

  lemma SameMember(children: seq<Child>, c: Child, d: Child)
    requires NamesOnce(children) && c in children && d in children && c.name == d.name
    ensures c == d
  {
    var i :| 0 <= i < |children| && children[i] == c;
    var j :| 0 <= j < |children| && children[j] == d;
  }

  /** `Without` drops repetitions and nothing else. */
  lemma {:induction false} WithoutExact(kept: seq<Schema>, schemas: seq<Schema>)
    requires Distinct(kept)
    ensures Distinct(Without(kept, schemas))
    ensures forall s :: s in Without(kept, schemas) <==> s in kept || s in schemas
    decreases schemas
  {
    if schemas != [] {
      assert schemas == [schemas[0]] + schemas[1..];
      if schemas[0] in kept {
        WithoutExact(kept, schemas[1..]);
      } else {
        DistinctAppend(kept, [schemas[0]]);
        WithoutExact(kept + [schemas[0]], schemas[1..]);
      }
    }
  }

  lemma {:induction false} MembersParsed(types: seq<Type>)
    requires ParseMembers(types).Ok?
    ensures forall i | 0 <= i < |Actual(types)| :: Parse(Actual(types)[i]) == Ok(ParseMembers(types).value[i])
  {
    hide Parse, IsUndefined, Actual, ParseMembers;
    if types == [] {
      NoMembers(types);
    } else {
      MembersCons(types);
      MembersParsed(types[1..]);
    }
  }

  lemma NoMembers(types: seq<Type>)
    requires types == []
    ensures Actual(types) == []
  {
  }

  lemma MembersCons(types: seq<Type>)
    requires types != [] && ParseMembers(types).Ok?
    ensures ParseMembers(types[1..]).Ok?
    ensures var actual, schemas := Actual(types[1..]), ParseMembers(types[1..]).value;
            if IsUndefined(types[0]) then Actual(types) == actual && ParseMembers(types).value == schemas
            else Actual(types) == [types[0]] + actual && Parse(types[0]).Ok?
                 && ParseMembers(types).value == [Parse(types[0]).value] + schemas
  {
    hide Parse, IsUndefined;
    assert [] + Actual(types[1..]) == Actual(types[1..]);
  }

  /** A member other than `undefined` whose schema is the given one. */
  lemma MemberOf(types: seq<Type>, s: Schema) returns (i: nat)
    requires ParseMembers(types).Ok? && s in ParseMembers(types).value
    ensures i < |Actual(types)| && Parse(Actual(types)[i]) == Ok(s) && ParseMembers(types).value[i] == s
    ensures Actual(types)[i] in types
  {
    MembersParsed(types);
    i :| 0 <= i < |ParseMembers(types).value| && ParseMembers(types).value[i] == s;
  }

  lemma MemberInhabits(types: seq<Type>, m: Type, v: Json)
    requires m in types && Inhabits(m, v)
    ensures Inhabits(Union(types), v)
  {
  }

  lemma LiteralsSound(types: seq<Type>, s: Schema, v: Json)
    requires var actual := Actual(types);
             && (forall t | t in actual :: IsStringLiteral(t)) && s == Enum(StringKind, LiteralValues(actual))
    requires Valid(s, v)
    ensures Inhabits(Union(types), v)
  {
    var actual := Actual(types);
    var l :| l in s.values && LiteralIs(l, v);
    var i :| 0 <= i < |actual| && LiteralValues(actual)[i] == l;
    assert actual[i] in types && Inhabits(actual[i], v);
  }

  lemma BooleansSound(types: seq<Type>, v: Json)
    requires var actual := Actual(types); |actual| == 2 && forall t | t in actual :: IsBoolLiteral(t)
    requires !Twins(types) && Valid(Simple(BooleanKind), v)
    ensures Inhabits(Union(types), v)
  {
    var actual := Actual(types);
    assert actual[0] in actual && actual[1] in actual;
    var i := if actual[0].value.b == v.b then 0 else 1;
    assert actual[i] in types && Inhabits(actual[i], v);
  }

  /** A valid value of the merged schemas is valid for one of them. */
  lemma MergedChoice(schemas: seq<Schema>, v: Json) returns (o: Schema)
    requires Valid(Combined(Without([], schemas)), v)
    ensures o in schemas && Valid(o, v)
  {
    var options := Without([], schemas);
    WithoutExact([], schemas);
    if |options| == 1 {
      o := options[0];
    } else {
      var k :| 0 <= k < |options| && Valid(options[k], v);
      o := options[k];
    }
    assert o in options;
  }

  lemma StringsAreLiterals(actual: seq<Type>)
    requires forall t | t in actual :: IsStringLiteral(t)
    ensures forall t | t in actual :: t.LiteralType?
  {
    forall t | t in actual ensures t.LiteralType? { assert IsStringLiteral(t); }
  }

  /** The schema of an accepted union, case by case. */
  lemma UnionCases(types: seq<Type>, s: Schema)
    requires ParseUnion(types) == Ok(s)
    ensures var actual := Actual(types);
            if |actual| == 1 then Parse(actual[0]) == Ok(s)
            else if forall t | t in actual :: IsStringLiteral(t) then
              (forall t | t in actual :: t.LiteralType?) && s == Enum(StringKind, LiteralValues(actual))
            else if |actual| == 2 && forall t | t in actual :: IsBoolLiteral(t) then s == Simple(BooleanKind)
            else Merged([], ParseMembers(types)) == Ok(s)
    ensures Actual(types) != []
  {
    hide Parse, ParseMembers, Merged, LiteralValues, IsStringLiteral, IsBoolLiteral, IsUndefined, IsNull;
    var actual := Actual(types);
    if forall t | t in actual :: IsStringLiteral(t) { StringsAreLiterals(actual); }
  }

  lemma {:induction false} UnionSoundness(types: seq<Type>, s: Schema, v: Json)
    requires ParseUnion(types) == Ok(s) && Valid(s, v)
    requires !Twins(types) && forall m | m in types :: SoundShape(m)
    ensures Inhabits(Union(types), v)
    decreases types
  {
    hide Parse, ParseUnion, SoundShape, Valid, Inhabits, ParseMembers, Without, Actual, Twins, LiteralValues,
         IsStringLiteral, IsBoolLiteral;
    UnionCases(types, s);
    var actual := Actual(types);
    if |actual| == 1 {
      assert actual[0] in types;
      Soundness(actual[0], s, v);
      MemberInhabits(types, actual[0], v);
    } else if forall t | t in actual :: IsStringLiteral(t) {
      LiteralsSound(types, s, v);
    } else if |actual| == 2 && forall t | t in actual :: IsBoolLiteral(t) {
      BooleansSound(types, v);
    } else {
      var o := MergedChoice(ParseMembers(types).value, v);
      var i := MemberOf(types, o);
      Soundness(actual[i], o, v);
      MemberInhabits(types, actual[i], v);
    }
  }

  // ----- Every inhabitant is valid -----

  lemma {:induction false} Completeness(t: Type, s: Schema, v: Json)
    requires Parse(t) == Ok(s) && ExactShape(t) && Inhabits(t, v)
    ensures Valid(s, v)
    decreases t
  {
    match t
    case Intrinsic(_) =>
    case LiteralType(value) => assert value in [value];
    case Union(types) => UnionInhabited(types, s, v);
    case ArrayType(element) =>
      forall e | e in v.items ensures Valid(s.items, e) { Completeness(element, s.items, e); }
    case Reflection(children, calls, index) => ObjectCompleteness(children, calls, index, s, v);
    case Reference(name, arguments) => ReferenceCompleteness(name, arguments, s, v);
    case TypeOperator(_, target) => Completeness(target, s, v);
    case Wrapper(_, element) => Completeness(element, s, v);
    case Unsupported(_) =>
    case Incomplete(_) =>
  }

  lemma {:induction false} ReferenceCompleteness(name: string, arguments: seq<Type>, s: Schema, v: Json)
    requires Parse(Reference(name, arguments)) == Ok(s) && ExactShape(Reference(name, arguments))
    requires Inhabits(Reference(name, arguments), v)
    ensures Valid(s, v)
    decreases arguments
  {
    if name == "Record" {
      if s.MapOf? {
        forall k | k in v.fields ensures Valid(s.each, v.fields[k]) { Completeness(arguments[1], s.each, v.fields[k]); }
      }
    } else {
      forall e | e in v.items ensures Valid(s.items, e) { Completeness(arguments[0], s.items, e); }
    }
  }

  lemma {:induction false} ObjectCompleteness(children: seq<Child>, calls: bool, index: seq<Type>, s: Schema, v: Json)
    requires ParseObject(children) == Ok(s) && Inhabits(Reflection(children, calls, index), v)
    requires NamesOnce(children) && index == [] && forall c | c in children :: Translatable(c)
    requires forall c | c in children :: IsProperty(c) ==> ExactShape(c.declared)
    ensures Valid(s, v)
    decreases children
  {
    ChildrenParsed([], [], children, s);
    forall p | p in s.properties && p.name in v.fields ensures Valid(p.schema, v.fields[p.name]) {
      var c :| c in children && Describes(p, c);
      Completeness(c.declared, p.schema, v.fields[p.name]);
    }
    forall k | k in v.fields ensures exists p | p in s.properties :: p.name == k {
      var c :| c in children && c.name == k;
      assert Translatable(c);
      var p :| p in s.properties && Describes(p, c);
    }
  }

  lemma UndefinedIsEmpty(t: Type, v: Json)
    requires Inhabits(t, v)
    ensures !IsUndefined(t)
  {
  }

  lemma {:induction false} UnionInhabited(types: seq<Type>, s: Schema, v: Json)
    requires ParseUnion(types) == Ok(s)
    requires exists m | m in types :: Inhabits(m, v)
    requires forall m | m in types :: ExactShape(m)
    requires Apart(types)
    ensures Valid(s, v)
    decreases types
  {
    hide Parse, ParseUnion, ExactShape, Inhabits, Valid, Apart;
    var m :| m in types && Inhabits(m, v);
    if Parse(m).Ok? { Completeness(m, Parse(m).value, v); }
    UndefinedIsEmpty(m, v);
    var i :| 0 <= i < |Actual(types)| && Actual(types)[i] == m;
    UnionCompleteness(types, s, i, v);
  }

  /** A union's schema accepts what a member's schema accepts. */
  lemma UnionCompleteness(types: seq<Type>, s: Schema, i: nat, v: Json)
    requires ParseUnion(types) == Ok(s)
    requires i < |Actual(types)| && Inhabits(Actual(types)[i], v)
    requires Parse(Actual(types)[i]).Ok? ==> Valid(Parse(Actual(types)[i]).value, v)
    requires forall m | m in types :: ExactShape(m)
    requires Apart(types)
    ensures Valid(s, v)
  {
    hide Parse, ParseUnion, ParseMembers, ExactShape, Inhabits, Valid, Without, Actual, Apart, LiteralValues,
         IsStringLiteral, IsBoolLiteral;
    UnionCases(types, s);
    var actual := Actual(types);
    assert actual[i] in actual;
    if |actual| > 1 {
      if forall t | t in actual :: IsStringLiteral(t) {
        StringComplete(actual, i, v);
      } else if |actual| == 2 && forall t | t in actual :: IsBoolLiteral(t) {
        BooleanComplete(actual[i], v);
      } else {
        MembersParsed(types);
        OneOfCompleteness(types, i, v);
      }
    }
  }

  lemma StringComplete(actual: seq<Type>, i: nat, v: Json)
    requires forall t | t in actual :: t.LiteralType? && IsStringLiteral(t)
    requires i < |actual| && Inhabits(actual[i], v)
    ensures Valid(Enum(StringKind, LiteralValues(actual)), v)
  {
    var values := LiteralValues(actual);
    assert actual[i] in actual;
    assert values[i] == actual[i].value && values[i] in values && LiteralIs(values[i], v);
  }

  lemma BooleanComplete(t: Type, v: Json)
    requires IsBoolLiteral(t) && Inhabits(t, v)
    ensures Valid(Simple(BooleanKind), v)
  {
  }

  /** Among distinct alternatives made from members apart, the one valid for a member's value is the only one. */
  lemma OneOfCompleteness(types: seq<Type>, i: nat, v: Json)
    requires ParseMembers(types).Ok? && i < |Actual(types)|
    requires Inhabits(Actual(types)[i], v) && Valid(ParseMembers(types).value[i], v)
    requires forall m | m in types :: ExactShape(m)
    requires Apart(types)
    ensures Valid(Combined(Without([], ParseMembers(types).value)), v)
  {
    hide Parse, ParseMembers, Without, ExactShape, Inhabits, Apart, Valid, Actual;
    var schemas := ParseMembers(types).value;
    var options := Without([], schemas);
    WithoutExact([], schemas);
    assert schemas[i] in schemas && schemas[i] in options;
    var k :| 0 <= k < |options| && options[k] == schemas[i];
    forall j | 0 <= j < |options| && j != k ensures !Valid(options[j], v) {
      assert options[j] in options;
      var i' := MemberOf(types, options[j]);
      if Valid(options[j], v) {
        MembersParsed(types);
        OtherMember(types, i, i', options[j], v);
      }
    }
    OnlyOne(options, k, v);
  }

  lemma OnlyOne(options: seq<Schema>, k: nat, v: Json)
    requires k < |options| && Valid(options[k], v)
    requires forall j | 0 <= j < |options| && j != k :: !Valid(options[j], v)
    ensures Valid(Combined(options), v)
  {
  }

  /** A member whose schema is valid for a value of another one has the same schema. */
  lemma OtherMember(types: seq<Type>, i: nat, i': nat, s: Schema, v: Json)
    requires i < |Actual(types)| && i' < |Actual(types)| && Parse(Actual(types)[i']) == Ok(s) && Valid(s, v)
    requires ExactShape(Actual(types)[i'])
    requires Inhabits(Actual(types)[i], v)
    requires Apart(types)
    ensures Parse(Actual(types)[i]) == Ok(s)
  {
    var actual := Actual(types);
    ExactIsSound(actual[i']);
    Soundness(actual[i'], s, v);
  }

  // ----- The main results -----

  /** Where the members of every union are apart, the schema accepts exactly the values of the type. */
  lemma SchemaExact(t: Type, s: Schema, v: Json)
    requires Parse(t) == Ok(s) && ExactShape(t)
    ensures Valid(s, v) <==> Inhabits(t, v)
  {
    ExactIsSound(t);
    if Valid(s, v) { Soundness(t, s, v); }
    if Inhabits(t, v) { Completeness(t, s, v); }
  }
}
