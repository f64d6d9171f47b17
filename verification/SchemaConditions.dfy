/** Types the strict translator accepts and gets wrong, each with the exact condition under which it gets them right. */
module SchemaConditions {
  import opened Text
  import opened TypeSchema
  import opened SchemaMeaning

  ghost predicate Inhabited(t: Type) {
    exists v :: Inhabits(t, v)
  }

  /** Every value the schema accepts is a value of the type. */
  ghost predicate IsSoundFor(s: Schema, t: Type) {
    forall v :: Valid(s, v) ==> Inhabits(t, v)
  }

  /** The schema accepts the values of the type and no others. */
  ghost predicate IsExactFor(s: Schema, t: Type) {
    forall v :: Valid(s, v) <==> Inhabits(t, v)
  }

  // ----- Unions of two boolean literals -----

  lemma TwinsUnsound(types: seq<Type>) returns (v: Json)
    requires Twins(types)
    ensures v.Bool? && !Inhabits(Union(types), v)
  {
    hide Actual;
    var actual := Actual(types);
    v := Bool(!actual[0].value.b);
    forall m | m in types ensures !Inhabits(m, v) {
      if !IsUndefined(m) {
        var i :| 0 <= i < |actual| && actual[i] == m;
        assert m == actual[0];
      }
    }
  }

  lemma BooleanUnionSchema(types: seq<Type>, s: Schema)
    requires ParseUnion(types) == Ok(s)
    requires |Actual(types)| == 2 && forall t | t in Actual(types) :: IsBoolLiteral(t)
    ensures s == Simple(BooleanKind)
  {
    var actual := Actual(types);
    assert actual[0] in actual && IsBoolLiteral(actual[0]) && !IsStringLiteral(actual[0]);
    hide ParseMembers, Parse, Actual;
  }

  /** A union whose members are two boolean literals becomes `boolean`, which is sound exactly when they differ. */
  lemma BooleanUnionExact(types: seq<Type>, s: Schema)
    requires ParseUnion(types) == Ok(s)
    requires |Actual(types)| == 2 && forall t | t in Actual(types) :: IsBoolLiteral(t)
    ensures s == Simple(BooleanKind) && (IsSoundFor(s, Union(types)) <==> !Twins(types))
  {
    BooleanUnionSchema(types, s);
    if Twins(types) {
      TwinsNeverSound(types, s);
    } else {
      hide Inhabits, Actual, ParseUnion, Twins;
      forall v | Valid(s, v) ensures Inhabits(Union(types), v) { BooleansSound(types, v); }
    }
  }

  // ----- Unions -----

  lemma LiteralsApart(types: seq<Type>)
    requires forall t | t in Actual(types) :: IsStringLiteral(t)
    ensures Apart(types)
  {
    var actual := Actual(types);
    forall i, j, v | 0 <= i < j < |actual| && Inhabits(actual[i], v) && Inhabits(actual[j], v)
      ensures Parse(actual[i]) == Parse(actual[j])
    {
      assert IsStringLiteral(actual[i]) && IsStringLiteral(actual[j]);
      assert actual[i].value.s == v.s == actual[j].value.s;
    }
  }

  lemma BooleansApart(types: seq<Type>)
    requires |Actual(types)| == 2 && (forall t | t in Actual(types) :: IsBoolLiteral(t)) && !Twins(types)
    ensures Apart(types)
  {
    var actual := Actual(types);
    assert IsBoolLiteral(actual[0]) && IsBoolLiteral(actual[1]) && actual[0].value.b != actual[1].value.b;
  }

  lemma TwoValid(options: seq<Schema>, k: nat, l: nat, v: Json)
    requires k < |options| && l < |options| && k != l && Valid(options[k], v) && Valid(options[l], v)
    ensures !Valid(Combined(options), v)
  {
  }

  /** A value of two members with different schemas is valid under two alternatives, and so for none of `oneOf`. */
  lemma ClashRejected(types: seq<Type>, i: nat, j: nat, v: Json)
    requires ParseMembers(types).Ok? && i < j < |Actual(types)| && forall m | m in types :: ExactShape(m)
    requires Parse(Actual(types)[i]) != Parse(Actual(types)[j])
    requires Inhabits(Actual(types)[i], v) && Inhabits(Actual(types)[j], v)
    ensures !Valid(Combined(Without([], ParseMembers(types).value)), v)
  {
    hide Parse, ParseMembers, Without, ExactShape, Inhabits, Valid, Combined;
    var schemas, actual := ParseMembers(types).value, Actual(types);
    MembersParsed(types);
    assert actual[i] in actual && actual[j] in actual;
    Completeness(actual[i], schemas[i], v);
    Completeness(actual[j], schemas[j], v);
    WithoutExact([], schemas);
    var options := Without([], schemas);
    assert schemas[i] in options && schemas[j] in options;
    var k :| 0 <= k < |options| && options[k] == schemas[i];
    var l :| 0 <= l < |options| && options[l] == schemas[j];
    TwoValid(options, k, l, v);
  }

  lemma AlternativesApart(types: seq<Type>, s: Schema)
    requires Merged([], ParseMembers(types)) == Ok(s) && forall m | m in types :: ExactShape(m)
    requires IsExactFor(s, Union(types))
    ensures Apart(types)
  {
    hide Parse, ParseMembers, Without, Combined, ExactShape, Inhabits, Valid;
    var actual := Actual(types);
    forall i, j, v | 0 <= i < j < |actual| && Inhabits(actual[i], v) && Inhabits(actual[j], v)
      ensures Parse(actual[i]) == Parse(actual[j])
    {
      if Parse(actual[i]) != Parse(actual[j]) {
        ClashRejected(types, i, j, v);
        assert actual[i] in actual;
        MemberInhabits(types, actual[i], v);
      }
    }
  }

  lemma OneIsApart(types: seq<Type>)
    requires |Actual(types)| == 1
    ensures Apart(types)
  {
  }

  /** A union translated exactly keeps the members apart. */
  lemma ExactIsApart(types: seq<Type>, s: Schema)
    requires ParseUnion(types) == Ok(s) && (forall m | m in types :: ExactShape(m)) && !Twins(types)
    requires IsExactFor(s, Union(types))
    ensures Apart(types)
  {
    hide Parse, ParseUnion, Actual, Merged, ParseMembers, ExactShape, Inhabits, Valid, LiteralValues, IsStringLiteral,
         IsBoolLiteral, Twins, IsExactFor, Apart;
    UnionCases(types, s);
    var actual := Actual(types);
    if |actual| == 1 {
      OneIsApart(types);
    } else {
      if forall t | t in actual :: IsStringLiteral(t) {
        LiteralsApart(types);
      } else if |actual| == 2 && forall t | t in actual :: IsBoolLiteral(t) {
        BooleansApart(types);
      } else {
        AlternativesApart(types, s);
      }
    }
  }

  lemma UnionSound(types: seq<Type>, s: Schema)
    requires ParseUnion(types) == Ok(s) && (forall m | m in types :: ExactShape(m)) && !Twins(types)
    ensures IsSoundFor(s, Union(types))
  {
    hide Parse, ParseUnion, ExactShape, Inhabits, Valid, Twins;
    forall m | m in types ensures SoundShape(m) { ExactIsSound(m); }
    forall v | Valid(s, v) ensures Inhabits(Union(types), v) { UnionSoundness(types, s, v); }
  }

  lemma ApartIsExact(types: seq<Type>, s: Schema)
    requires ParseUnion(types) == Ok(s) && (forall m | m in types :: ExactShape(m)) && !Twins(types) && Apart(types)
    ensures IsExactFor(s, Union(types))
  {
    hide Parse, ParseUnion, ExactShape, Inhabits, Valid, Twins, Apart;
    UnionSound(types, s);
    forall v | Inhabits(Union(types), v) ensures Valid(s, v) {
      InhabitedMember(types, v);
      UnionInhabited(types, s, v);
    }
  }

  lemma InhabitedMember(types: seq<Type>, v: Json)
    requires Inhabits(Union(types), v)
    ensures exists m | m in types :: Inhabits(m, v)
  {
  }

  /**
   * A union of members that are translated exactly is sound exactly when it is not the same boolean literal twice, and
   * exact exactly when besides no value belongs to two members with different schemas: `oneOf` accepts no such value.
   */
  lemma UnionExact(types: seq<Type>, s: Schema)
    requires ParseUnion(types) == Ok(s) && forall m | m in types :: ExactShape(m)
    ensures IsSoundFor(s, Union(types)) <==> !Twins(types)
    ensures IsExactFor(s, Union(types)) <==> !Twins(types) && Apart(types)
  {
    if Twins(types) {
      TwinsNeverSound(types, s);
    } else {
      hide ParseUnion, ExactShape, Inhabits, Valid, Twins, Apart;
      UnionSound(types, s);
      if Apart(types) { ApartIsExact(types, s); }
      if IsExactFor(s, Union(types)) { ExactIsApart(types, s); }
    }
  }

  lemma TwinsNeverSound(types: seq<Type>, s: Schema)
    requires ParseUnion(types) == Ok(s) && Twins(types)
    ensures !IsSoundFor(s, Union(types))
  {
    TwinsAreBooleans(types);
    hide Actual, ParseUnion, Inhabits, Twins;
    BooleanUnionSchema(types, s);
    var v := TwinsUnsound(types);
    assert Valid(s, v);
  }

  lemma TwinsAreBooleans(types: seq<Type>)
    requires Twins(types)
    ensures |Actual(types)| == 2 && forall t | t in Actual(types) :: IsBoolLiteral(t)
  {
    var actual := Actual(types);
    assert actual == [actual[0], actual[1]];
  }

  // ----- Records -----

  lemma StringRecordExact(value: Type, s: Schema)
    requires Parse(Reference("Record", [Intrinsic("string"), value])) == Ok(s)
    requires IsAmbiguous(value) || ExactShape(value)
    ensures IsExactFor(s, Reference("Record", [Intrinsic("string"), value]))
  {
    var t := Reference("Record", [Intrinsic("string"), value]);
    forall v ensures Valid(s, v) <==> Inhabits(t, v) {
      RecordValues(Intrinsic("string"), value, s, v);
      RecordInhabits(value, v);
      hide Parse, ExactShape, Valid, Inhabits;
      if IsAmbiguous(value) {
        AmbiguousInhabits(value);
      } else if v.Obj? {
        forall k | k in v.fields ensures Valid(s.each, v.fields[k]) <==> Inhabits(value, v.fields[k]) {
          SchemaExact(value, s.each, v.fields[k]);
        }
      }
    }
  }

  lemma RecordInhabits(value: Type, v: Json)
    ensures Inhabits(Reference("Record", [Intrinsic("string"), value]), v)
       <==> v.Obj? && forall k | k in v.fields :: Inhabits(value, v.fields[k])
  {
    var arguments := [Intrinsic("string"), value];
    assert arguments[0] == Intrinsic("string") && arguments[1] == value;
  }

  lemma AmbiguousInhabits(t: Type)
    requires IsAmbiguous(t)
    ensures forall v :: Inhabits(t, v)
  {
  }

  /** What an accepted record's schema accepts, whatever its keys. */
  lemma RecordValues(key: Type, value: Type, s: Schema, v: Json)
    requires Parse(Reference("Record", [key, value])) == Ok(s)
    ensures if IsAmbiguous(value) then Valid(s, v) <==> v.Obj?
            else s.MapOf? && Parse(value) == Ok(s.each)
                 && (Valid(s, v) <==> v.Obj? && forall k | k in v.fields :: Valid(s.each, v.fields[k]))
  {
    hide ExactShape;
    var arguments := [key, value];
    assert arguments[0] == key && arguments[1] == value;
  }

  lemma RecordKeys(key: Type, value: Type, s: Schema)
    requires Parse(Reference("Record", [key, value])) == Ok(s)
    ensures IsStringKey(key)
  {
    var arguments := [key, value];
    assert arguments[0] == key;
    hide IsStringKey;
  }

  lemma RecordValue(key: Type, value: Type, s: Schema) returns (w: Json)
    requires Parse(Reference("Record", [key, value])) == Ok(s) && (IsAmbiguous(value) || ExactShape(value))
    ensures Inhabits(value, w)
  {
    RecordValues(key, value, s, Null);
    hide Parse, ExactShape;
    if IsAmbiguous(value) {
      AmbiguousInhabits(value);
      w := Null;
    } else {
      ExactInhabited(value);
      w :| Inhabits(value, w);
    }
  }

  /** A name that no key type but `string` has, or one that it requires: the object with a value of the wrong names. */
  lemma WrongNames(key: Type, value: Type, w: Json) returns (v: Json)
    requires IsStringKey(key) && key != Intrinsic("string")
    ensures v.Obj? && !Inhabits(Reference("Record", [key, value]), v)
    ensures forall k | k in v.fields :: v.fields[k] == w
  {
    var arguments := [key, value];
    assert arguments[0] == key;
    if key.Union? && key.types != [] {
      v := Obj(map[]);
      assert key.types[0] in key.types && IsStringLiteral(key.types[0]);
    } else {
      v := Obj(map["" := w]);
      assert "" in v.fields && !Inhabits(key, Str(""));
    }
  }

  /** A record is translated exactly when its keys are arbitrary strings: literal keys are not enforced. */
  lemma RecordExact(key: Type, value: Type, s: Schema)
    requires Parse(Reference("Record", [key, value])) == Ok(s)
    requires IsAmbiguous(value) || ExactShape(value)
    ensures var t := Reference("Record", [key, value]);
            && (IsSoundFor(s, t) <==> key == Intrinsic("string"))
            && (IsExactFor(s, t) <==> key == Intrinsic("string"))
  {
    var t := Reference("Record", [key, value]);
    if key == Intrinsic("string") {
      StringRecordExact(value, s);
    } else {
      hide Inhabits, ExactShape, Parse, Valid, IsStringKey, IsAmbiguous;
      var w := RecordValue(key, value, s);
      RecordKeys(key, value, s);
      var v := WrongNames(key, value, w);
      RecordValues(key, value, s, v);
      if !IsAmbiguous(value) { Completeness(value, s.each, w); }
      assert Valid(s, v) && !Inhabits(t, v);
    }
  }

  // ----- Object types -----

  ghost function Pick(t: Type): (v: Json)
    requires Inhabited(t)
    ensures Inhabits(t, v)
  {
    var v :| Inhabits(t, v);
    v
  }

  /** A JSON object can hold a value for the member. */
  ghost predicate Carried(c: Child) {
    !c.kind.MethodMember? && Inhabited(c.declared)
  }

  /** An object with a value for every member of the wanted kinds. */
  ghost function Sample(children: seq<Child>, wanted: Child -> bool): map<string, Json> {
    if children == [] then map[]
    else
      var c, rest := children[0], Sample(children[1..], wanted);
      if Carried(c) && wanted(c) then rest[c.name := Pick(c.declared)] else rest
  }

  /** `fields` holds a value for each wanted member, and nothing else. */
  ghost predicate Samples(fields: map<string, Json>, children: seq<Child>, wanted: Child -> bool) {
    && (forall k :: k in fields <==> exists c | c in children :: Carried(c) && wanted(c) && c.name == k)
    && (forall c | c in children && c.name in fields :: Carried(c) && wanted(c))
    && (forall c | c in children && c.name in fields :: Inhabits(c.declared, fields[c.name]))
  }

  lemma {:induction false} SampleExact(children: seq<Child>, wanted: Child -> bool)
    requires NamesOnce(children)
    ensures Samples(Sample(children, wanted), children, wanted)
  {
    hide Inhabits, Samples;
    if children == [] {
      NoSamples(children, wanted);
    } else {
      assert children == [children[0]] + children[1..];
      assert NamesOnce(children[1..]) && forall d | d in children[1..] :: d in children;
      SampleExact(children[1..], wanted);
      FirstNamedOnce(children);
      SampleStep(children, wanted, Sample(children[1..], wanted));
    }
  }

  lemma NoSamples(children: seq<Child>, wanted: Child -> bool)
    requires children == []
    ensures Samples(map[], children, wanted)
  {
  }

  lemma SampleStep(children: seq<Child>, wanted: Child -> bool, rest: map<string, Json>)
    requires children != [] && Samples(rest, children[1..], wanted)
    requires forall d | d in children[1..] :: d.name != children[0].name
    ensures var c := children[0];
            Samples(if Carried(c) && wanted(c) then rest[c.name := Pick(c.declared)] else rest, children, wanted)
  {
    hide Inhabits;
    var c := children[0];
    assert forall d :: d in children <==> d == c || d in children[1..];
  }

  /** A required property is called `__proto__`: the schema asks for a name it does not declare. */
  predicate ProtoRequired(children: seq<Child>) {
    exists c | c in children :: IsProperty(c) && c.name == "__proto__" && !MayBeAbsent(c)
  }

  /** The object has to carry something JSON cannot carry. */
  ghost predicate Impossible(children: seq<Child>, calls: bool) {
    calls || exists c | c in children :: !Carried(c) && !MayBeAbsent(c)
  }

  /** The schema gets the member right: a property not called `__proto__`, or what no value carries or needs. */
  ghost predicate Fits(c: Child) {
    if IsProperty(c) then c.name != "__proto__" else !Carried(c) && MayBeAbsent(c)
  }

  predicate Declared(c: Child) {
    IsProperty(c) && c.name != "__proto__"
  }

  predicate AnyMember(c: Child) {
    true
  }

  ghost predicate ExactProperties(children: seq<Child>) {
    forall c | c in children && IsProperty(c) :: ExactShape(c.declared)
  }

  lemma ClosedValid(s: Schema, fields: map<string, Json>)
    requires s.Closed? && (forall r | r in s.required :: r in fields)
    requires forall k | k in fields :: exists p | p in s.properties :: p.name == k
    requires forall p | p in s.properties && p.name in fields :: Valid(p.schema, fields[p.name])
    ensures Valid(s, Obj(fields))
  {
  }

  /** Every accepted property has a value. */
  lemma {:induction false} PropertiesCarried(children: seq<Child>, s: Schema)
    requires ParseObject(children) == Ok(s) && NamesOnce(children) && ExactProperties(children)
    ensures forall c | c in children && IsProperty(c) :: Carried(c)
    decreases children, 0
  {
    ChildrenParsed([], [], children, s);
    forall c | c in children && IsProperty(c) ensures Carried(c) { ExactInhabited(c.declared); }
  }

  /** All properties that the schema declares make a valid object, unless it asks for `__proto__`. */
  lemma DeclaredIsValid(children: seq<Child>, s: Schema)
    requires ParseObject(children) == Ok(s) && NamesOnce(children)
    requires ExactProperties(children) && !ProtoRequired(children)
    ensures Valid(s, Obj(Sample(children, Declared)))
  {
    var fields := Sample(children, Declared);
    ChildrenParsed([], [], children, s);
    SampleExact(children, Declared);
    PropertiesCarried(children, s);
    hide Inhabits, Valid, Parse, ExactShape, Sample, ParseObject, IsProperty, MayBeAbsent, Carried;
    forall r | r in s.required ensures r in fields {
      var c :| c in children && IsProperty(c) && !MayBeAbsent(c) && c.name == r;
      assert Declared(c);
    }
    forall k | k in fields ensures exists p | p in s.properties :: p.name == k {
      var c :| c in children && Carried(c) && Declared(c) && c.name == k;
      var p :| p in s.properties && Describes(p, c);
    }
    forall p | p in s.properties && p.name in fields ensures Valid(p.schema, fields[p.name]) {
      var c :| c in children && Describes(p, c);
      Completeness(c.declared, p.schema, fields[p.name]);
    }
    ClosedValid(s, fields);
  }

  /** All members that JSON can carry make a value of the type, unless it has to carry something else. */
  lemma FullInhabits(children: seq<Child>, calls: bool, index: seq<Type>)
    requires NamesOnce(children) && !Impossible(children, calls)
    ensures Inhabits(Reflection(children, calls, index), Obj(Sample(children, AnyMember)))
  {
    SampleExact(children, AnyMember);
    var v := Obj(Sample(children, AnyMember));
    forall c | c in children && !MayBeAbsent(c) ensures c.name in v.fields { assert AnyMember(c); }
  }

  /** A name no member has. */
  lemma {:induction false} FreshName(children: seq<Child>) returns (name: string)
    ensures forall c | c in children :: |c.name| < |name|
  {
    if children == [] {
      name := "x";
    } else {
      name := FreshName(children[1..]);
      name := name + children[0].name + "x";
      assert children == [children[0]] + children[1..];
    }
  }

  /** A value with a key that the schema does not declare is not valid. */
  lemma UndeclaredInvalid(children: seq<Child>, s: Schema, fields: map<string, Json>, key: string)
    requires ParseObject(children) == Ok(s) && NamesOnce(children) && key in fields
    requires forall c | c in children && Declared(c) :: c.name != key
    ensures !Valid(s, Obj(fields))
  {
    ChildrenParsed([], [], children, s);
    hide ParseObject;
    forall p | p in s.properties ensures p.name != key {
      var c :| c in children && Describes(p, c);
      assert Declared(c);
    }
  }

  lemma ProtoNeverValid(children: seq<Child>, s: Schema, v: Json)
    requires ParseObject(children) == Ok(s) && NamesOnce(children) && ProtoRequired(children)
    ensures !Valid(s, v)
  {
    ChildrenParsed([], [], children, s);
    var c :| c in children && IsProperty(c) && c.name == "__proto__" && !MayBeAbsent(c);
    assert c.name in s.required;
    if v.Obj? && c.name in v.fields { UndeclaredInvalid(children, s, v.fields, c.name); }
  }

  lemma ImpossibleIsEmpty(children: seq<Child>, calls: bool, index: seq<Type>, v: Json)
    requires Impossible(children, calls)
    ensures !Inhabits(Reflection(children, calls, index), v)
  {
  }

  /** A skipped member that is required is missing from the declared object. */
  lemma DeclaredMisses(children: seq<Child>, calls: bool, index: seq<Type>)
    requires NamesOnce(children) && !NothingMissing(children, calls)
    ensures !Inhabits(Reflection(children, calls, index), Obj(Sample(children, Declared)))
  {
    SampleExact(children, Declared);
  }

  /** A member that is carried and not declared makes the full object a value the schema rejects. */
  lemma FullRejected(children: seq<Child>, s: Schema, c: Child)
    requires ParseObject(children) == Ok(s) && NamesOnce(children) && c in children && Carried(c) && !Declared(c)
    ensures !Valid(s, Obj(Sample(children, AnyMember)))
  {
    SampleExact(children, AnyMember);
    hide Inhabits, ParseObject, Carried, Sample;
    assert AnyMember(c);
    forall d | d in children && Declared(d) ensures d.name != c.name {
      if d.name == c.name { SameMember(children, c, d); }
    }
    UndeclaredInvalid(children, s, Sample(children, AnyMember), c.name);
  }

  /** An index signature with a value lets names in that the schema rejects. */
  lemma IndexRejected(children: seq<Child>, calls: bool, index: seq<Type>, x: Type, s: Schema) returns (v: Json)
    requires ParseObject(children) == Ok(s) && NamesOnce(children)
    requires !Impossible(children, calls) && x in index && Inhabited(x)
    ensures Inhabits(Reflection(children, calls, index), v) && !Valid(s, v)
  {
    var full := Sample(children, AnyMember);
    FullInhabits(children, calls, index);
    var name := FreshName(children);
    var fields := full[name := Pick(x)];
    v := Obj(fields);
    assert Inhabits(x, fields[name]);
    forall k | k in fields
      ensures (exists c | c in children :: c.name == k) || exists x | x in index :: Inhabits(x, fields[k])
    {
      if k != name { assert fields[k] == full[k] && k in Obj(full).fields; }
    }
    UndeclaredInvalid(children, s, fields, name);
  }

  /** Sound exactly when nothing required is skipped, or when a required `__proto__` leaves nothing valid. */
  lemma ObjectSoundExact(children: seq<Child>, calls: bool, index: seq<Type>, s: Schema)
    requires ParseObject(children) == Ok(s) && NamesOnce(children) && ExactProperties(children)
    ensures IsSoundFor(s, Reflection(children, calls, index))
       <==> ProtoRequired(children) || NothingMissing(children, calls)
  {
    var t := Reflection(children, calls, index);
    if ProtoRequired(children) {
      forall v ensures !Valid(s, v) { ProtoNeverValid(children, s, v); }
    } else if NothingMissing(children, calls) {
      NothingMissingSound(children, calls, index, s);
    } else {
      DeclaredIsValid(children, s);
      DeclaredMisses(children, calls, index);
    }
  }

  lemma NothingMissingSound(children: seq<Child>, calls: bool, index: seq<Type>, s: Schema)
    requires ParseObject(children) == Ok(s) && NamesOnce(children) && ExactProperties(children)
    requires NothingMissing(children, calls)
    ensures IsSoundFor(s, Reflection(children, calls, index))
  {
    forall c | c in children && IsProperty(c) ensures SoundShape(c.declared) { ExactIsSound(c.declared); }
    hide Inhabits, Valid, Parse, ParseObject;
    forall v | Valid(s, v) ensures Inhabits(Reflection(children, calls, index), v) {
      ObjectSoundness(children, calls, index, s, v);
    }
  }

  /**
   * An object type is translated exactly under this condition: if it has to carry what JSON cannot, it has no value,
   * and the schema has none exactly when it requires `__proto__`; otherwise every member fits and no index signature
   * has a value.
   */
  lemma ObjectExact(children: seq<Child>, calls: bool, index: seq<Type>, s: Schema)
    requires ParseObject(children) == Ok(s) && NamesOnce(children) && ExactProperties(children)
    ensures IsExactFor(s, Reflection(children, calls, index))
       <==> if Impossible(children, calls) then ProtoRequired(children)
            else (forall x | x in index :: !Inhabited(x)) && forall c | c in children :: Fits(c)
  {
    hide Inhabits, Inhabited, Valid, Parse, ParseObject, Sample, ExactProperties, ProtoRequired, NamesOnce, Impossible,
         Fits;
    var t := Reflection(children, calls, index);
    if Impossible(children, calls) {
      forall v ensures !Inhabits(t, v) { ImpossibleIsEmpty(children, calls, index, v); }
      if ProtoRequired(children) {
        forall v ensures !Valid(s, v) { ProtoNeverValid(children, s, v); }
      } else {
        DeclaredIsValid(children, s);
      }
    } else if x :| x in index && Inhabited(x) {
      var v := IndexRejected(children, calls, index, x, s);
    } else if c :| c in children && !Fits(c) {
      FullInhabits(children, calls, index);
      MisfitCarried(children, calls, s, c);
      FullRejected(children, s, c);
    } else {
      FittingExact(children, calls, index, s);
    }
  }

  /** A member that does not fit is carried and not declared, unless the type has no value. */
  lemma MisfitCarried(children: seq<Child>, calls: bool, s: Schema, c: Child)
    requires ParseObject(children) == Ok(s) && NamesOnce(children) && ExactProperties(children)
    requires !Impossible(children, calls) && c in children && !Fits(c)
    ensures Carried(c) && !Declared(c)
  {
    PropertiesCarried(children, s);
    hide Carried, MayBeAbsent, Parse, ParseObject;
  }

  /** Where all members fit and no index signature has a value, a value of the type holds only declared properties. */
  lemma FittingKeys(children: seq<Child>, calls: bool, index: seq<Type>, v: Json, k: string) returns (c: Child)
    requires (forall x | x in index :: !Inhabited(x)) && forall c | c in children :: Fits(c)
    requires Inhabits(Reflection(children, calls, index), v) && k in v.fields
    ensures c in children && Declared(c) && c.name == k
  {
    if x :| x in index && Inhabits(x, v.fields[k]) {
      assert Inhabited(x);
      assert false;
    }
    c :| c in children && c.name == k;
    assert Inhabited(c.declared);
    assert Fits(c);
  }

  lemma FittingComplete(children: seq<Child>, calls: bool, index: seq<Type>, s: Schema, v: Json)
    requires ParseObject(children) == Ok(s) && NamesOnce(children) && ExactProperties(children)
    requires (forall x | x in index :: !Inhabited(x)) && forall c | c in children :: Fits(c)
    requires Inhabits(Reflection(children, calls, index), v)
    ensures Valid(s, v)
  {
    ChildrenParsed([], [], children, s);
    ReflectionValue(children, calls, index, v);
    hide Inhabits, Inhabited, Valid, Parse, ExactShape, ParseObject, IsProperty, MayBeAbsent, Fits;
    forall k | k in v.fields ensures exists p | p in s.properties :: p.name == k {
      var c := FittingKeys(children, calls, index, v, k);
      var p :| p in s.properties && Describes(p, c);
    }
    forall p | p in s.properties && p.name in v.fields ensures Valid(p.schema, v.fields[p.name]) {
      var c :| c in children && Describes(p, c);
      Completeness(c.declared, p.schema, v.fields[p.name]);
    }
    ClosedValid(s, v.fields);
  }

  lemma ReflectionValue(children: seq<Child>, calls: bool, index: seq<Type>, v: Json)
    requires Inhabits(Reflection(children, calls, index), v)
    ensures v.Obj? && !calls && (forall c | c in children && !MayBeAbsent(c) :: c.name in v.fields)
    ensures forall c | c in children && c.name in v.fields :: Inhabits(c.declared, v.fields[c.name])
  {
  }

  lemma FittingExact(children: seq<Child>, calls: bool, index: seq<Type>, s: Schema)
    requires ParseObject(children) == Ok(s) && NamesOnce(children) && ExactProperties(children)
    requires !Impossible(children, calls) && forall c | c in children :: Fits(c)
    requires forall x | x in index :: !Inhabited(x)
    ensures IsExactFor(s, Reflection(children, calls, index))
  {
    assert NothingMissing(children, calls) by {
      forall c | c in children && !IsProperty(c) ensures MayBeAbsent(c) { assert Fits(c); }
    }
    hide Inhabits, Inhabited, Valid, Parse, ParseObject, Fits, NothingMissing, Impossible;
    NothingMissingSound(children, calls, index, s);
    forall v | Inhabits(Reflection(children, calls, index), v) ensures Valid(s, v) {
      FittingComplete(children, calls, index, s, v);
    }
  }

  // ----- Type operators -----

  lemma LiteralAccepted(t: Type)
    requires IsStringLiteral(t) || IsBoolLiteral(t)
    ensures Parse(t).Ok?
  {
  }

  lemma ActualAccepted(types: seq<Type>, m: Type)
    requires ParseUnion(types).Ok? && m in types && !IsUndefined(m)
    ensures Parse(m).Ok?
  {
    hide Parse, ParseUnion, ParseMembers, Actual, LiteralValues, IsStringLiteral, IsBoolLiteral, IsUndefined;
    UnionCases(types, ParseUnion(types).value);
    var actual := Actual(types);
    var i :| 0 <= i < |actual| && actual[i] == m;
    if IsStringLiteral(m) || IsBoolLiteral(m) {
      LiteralAccepted(m);
    } else if ParseMembers(types).Ok? {
      MembersParsed(types);
    }
  }

  lemma {:induction false} UnionInhabitedBy(types: seq<Type>)
    requires ParseUnion(types).Ok? && forall m | m in types :: ExactShape(m)
    ensures Inhabited(Union(types))
    decreases types
  {
    var actual := Actual(types);
    var m := actual[0];
    assert m in actual && m in types;
    ActualAccepted(types, m);
    ExactInhabited(m);
    hide Parse, ParseUnion, ExactShape;
    var v :| Inhabits(m, v);
    MemberInhabits(types, m, v);
  }

  lemma {:induction false} ObjectInhabited(children: seq<Child>)
    requires ParseObject(children).Ok? && NamesOnce(children)
    requires forall c | c in children :: Translatable(c) && (IsProperty(c) ==> ExactShape(c.declared))
    ensures Inhabited(Reflection(children, false, []))
    decreases children, 1
  {
    PropertiesCarried(children, ParseObject(children).value);
    hide Parse, ExactShape, Inhabits, Inhabited, Carried, ParseObject;
    assert !Impossible(children, false) by {
      forall c | c in children && !Carried(c) ensures MayBeAbsent(c) { assert Translatable(c); }
    }
    FullInhabits(children, false, []);
    ValueFound(Reflection(children, false, []), Obj(Sample(children, AnyMember)));
  }

  lemma ValueFound(t: Type, v: Json)
    requires Inhabits(t, v)
    ensures Inhabited(t)
  {
  }

  /** Every accepted type of exact shape has a value. */
  lemma {:induction false} ExactInhabited(t: Type)
    requires Parse(t).Ok? && ExactShape(t)
    ensures Inhabited(t)
    decreases t
  {
    match t
    case Intrinsic(name) =>
      assert Inhabits(t, if name == "string" then Str("") else if name == "number" then Num(0.0) else Bool(true));
    case LiteralType(value) =>
      assert Inhabits(t, match value case StringLit(s) => Str(s) case NumberLit(n) => Num(n) case BoolLit(b) => Bool(b)
                               case _ => Null);
    case Union(types) => UnionInhabitedBy(types);
    case ArrayType(_) => assert Inhabits(t, Arr([]));
    case Reflection(children, _, _) => ObjectInhabited(children);
    case Reference(name, _) => assert Inhabits(t, if name == "Record" then Obj(map[]) else Arr([]));
    case TypeOperator(_, target) =>
      ExactInhabited(target);
      var v :| Inhabits(target, v);
      assert Inhabits(t, v);
    case Wrapper(_, element) =>
      ExactInhabited(element);
      var v :| Inhabits(element, v);
      assert Inhabits(t, v);
  }

  /** A literal naming a member of strings, or a union of such literals. */
  predicate NamesStringMembers(t: Type) {
    match t
    case LiteralType(value) => value.StringLit? && NamesStringMember(value.s)
    case Union(types) => types != [] && forall m | m in types :: NamesStringMembers(m)
    case TypeOperator(operator, target) => operator != KeyOf && NamesStringMembers(target)
    case Wrapper(_, element) => NamesStringMembers(element)
    case _ => false
  }

  /** Such a type has the keys of strings, and some of them for values. */
  lemma {:induction false} KeysOfNames(t: Type, v: Json)
    requires NamesStringMembers(t)
    ensures HasKey(t, v) <==> IsStringMember(v)
    ensures Inhabits(t, v) ==> v.Str? && IsStringMember(v)
    decreases t
  {
    hide NamesStringMember;
    match t
    case LiteralType(_) =>
    case Union(types) =>
      forall m | m in types
        ensures HasKey(m, v) <==> IsStringMember(v)
        ensures Inhabits(m, v) ==> v.Str? && IsStringMember(v)
      {
        KeysOfNames(m, v);
      }
      assert types[0] in types;
    case TypeOperator(_, target) => KeysOfNames(target, v);
    case Wrapper(_, element) => KeysOfNames(element, v);
  }

  lemma EmptyIsNoMember()
    ensures !NamesStringMember("")
  {
  }

  /** Any other accepted type has a value that is none of its own keys. */
  lemma {:induction false} OtherValue(t: Type) returns (v: Json)
    requires Parse(t).Ok? && ExactShape(t) && !NamesStringMembers(t)
    ensures Inhabits(t, v) && !HasKey(t, v)
    decreases t
  {
    hide NamesStringMember;
    EmptyIsNoMember();
    match t
    case Intrinsic(name) =>
      v := if name == "string" then Str("") else if name == "number" then Num(0.0) else Bool(true);
    case LiteralType(value) =>
      v := match value case StringLit(s) => Str(s) case NumberLit(n) => Num(n) case BoolLit(b) => Bool(b)
                       case _ => Null;
    case Union(types) => v := OtherMemberValue(types);
    case ArrayType(_) => v := Arr([]);
    case Reflection(children, _, _) =>
      ObjectInhabited(children);
      v :| Inhabits(t, v);
    case Reference(name, _) => v := if name == "Record" then Obj(map[]) else Arr([]);
    case TypeOperator(_, target) => v := OtherValue(target);
    case Wrapper(_, element) => v := OtherValue(element);
  }

  lemma {:induction false} OtherMemberValue(types: seq<Type>) returns (v: Json)
    requires ParseUnion(types).Ok? && !NamesStringMembers(Union(types)) && forall m | m in types :: ExactShape(m)
    ensures Inhabits(Union(types), v) && !HasKey(Union(types), v)
    decreases types
  {
    hide NamesStringMember;
    var m :| m in types && !NamesStringMembers(m);
    if IsUndefined(m) {
      UnionInhabitedBy(types);
      v :| Inhabits(Union(types), v);
      assert !HasKey(m, v);
    } else {
      ActualAccepted(types, m);
      v := OtherValue(m);
      MemberInhabits(types, m, v);
    }
  }

  /**
   * An operator is read as its target, which is right exactly when it is not `keyof`. For `keyof` the schema is still
   * sound exactly when the target is made of literals that name members of strings, as `keyof "length"` is.
   */
  lemma OperatorExact(operator: Operator, t: Type, s: Schema)
    requires Parse(t) == Ok(s) && ExactShape(t)
    ensures var u := TypeOperator(operator, t);
            && Parse(u) == Ok(s)
            && (IsSoundFor(s, u) <==> operator != KeyOf || NamesStringMembers(t))
            && (IsExactFor(s, u) <==> operator != KeyOf)
  {
    var u := TypeOperator(operator, t);
    forall v ensures Valid(s, v) <==> Inhabits(t, v) { SchemaExact(t, s, v); }
    hide Parse, ExactShape, Valid, NamesStringMembers, HasKey;
    if operator == KeyOf {
      forall v ensures Inhabits(u, v) <==> HasKey(t, v) { KeyInhabits(t, v); }
      if NamesStringMembers(t) {
        forall v ensures (HasKey(t, v) <==> IsStringMember(v)) && (Inhabits(t, v) ==> v.Str? && IsStringMember(v)) {
          KeysOfNames(t, v);
        }
        assert Inhabits(u, Num(0.0)) && !Valid(s, Num(0.0));
      } else {
        var v := OtherValue(t);
        assert Valid(s, v) && !Inhabits(u, v);
      }
    } else {
      forall v ensures Inhabits(u, v) <==> Inhabits(t, v) { OperatorIgnored(operator, t, v); }
    }
  }

  lemma KeyInhabits(t: Type, v: Json)
    ensures Inhabits(TypeOperator(KeyOf, t), v) <==> HasKey(t, v)
  {
  }

  lemma OperatorIgnored(operator: Operator, t: Type, v: Json)
    requires operator != KeyOf
    ensures Inhabits(TypeOperator(operator, t), v) <==> Inhabits(t, v)
  {
  }

  /** `keyof` of an object type: an object with its properties is accepted, its keys are not. */
  lemma KeysRejected(children: seq<Child>, calls: bool, index: seq<Type>, s: Schema, name: string)
    requires ParseObject(children) == Ok(s) && exists c | c in children :: c.name == name
    ensures var u := TypeOperator(KeyOf, Reflection(children, calls, index));
            Parse(u) == Ok(s) && Inhabits(u, Str(name)) && !Valid(s, Str(name))
  {
    ParsedClosed([], [], children, s);
    assert HasKey(Reflection(children, calls, index), Str(name));
  }

  lemma {:induction false} ParsedClosed(properties: seq<Property>, required: seq<string>, children: seq<Child>,
                                        s: Schema)
    requires ParseChildren(properties, required, children) == Ok(s)
    ensures s.Closed?
    decreases children
  {
    if children != [] {
      var c := children[0];
      if !IsProperty(c) {
        ParsedClosed(properties, required, children[1..], s);
      } else {
        ParsedClosed(Assign(properties, Property(c.name, Parse(c.declared).value, c.doc)),
                     if MayBeAbsent(c) then required else required + [c.name], children[1..], s);
      }
    }
  }

  // ----- The inputs -----

  const NO_DOC := Doc("", None, false)

  function StringProperty(name: string): Child {
    Child(name, PropertyMember, false, Intrinsic("string"), NO_DOC)
  }

  function RequiredMethod(name: string): Child {
    Child(name, MethodMember, false, Unsupported("method"), NO_DOC)
  }

  lemma OneProperty(name: string)
    requires name != "__proto__"
    ensures ParseObject([StringProperty(name)]) == Ok(Closed([Property(name, Simple(StringKind), NO_DOC)], [name]))
    ensures Inhabits(Reflection([StringProperty(name)], false, []), Obj(map[name := Str("x")]))
    ensures ExactShape(Reflection([StringProperty(name)], false, []))
  {
    var children := [StringProperty(name)];
    var property := Property(name, Simple(StringKind), NO_DOC);
    assert children[1..] == [] && Parse(Intrinsic("string")) == Ok(Simple(StringKind));
    assert [] + [name] == [name] && Assign([], property) == [property];
    assert ParseChildren([], [], children) == ParseChildren([property], [name], []);
    assert children[0] in children;
  }

  lemma TwoMembers(t: Type, u: Type, first: Schema, second: Schema)
    requires Parse(t) == Ok(first) && Parse(u) == Ok(second) && first != second && !IsUndefined(t) && !IsUndefined(u)
    ensures Merged([], ParseMembers([t, u])) == Ok(OneOf([first, second]))
    ensures Actual([t, u]) == [t, u]
  {
    hide Parse, IsUndefined;
    var types, schemas := [t, u], [first, second];
    assert types[1..] == [u] && [u][1..] == [];
    OneMember(u, second);
    assert [first] + [second] == schemas && schemas[1..] == [second] && [second][1..] == [];
    assert [] + [first] == [first] && [t] + [u] == types;
    assert Without([first, second], []) == [first, second];
    assert Without([first], [second]) == Without([first] + [second], []);
    assert Without([], schemas) == Without([] + [first], [second]);
  }

  lemma OneMember(t: Type, s: Schema)
    requires Parse(t) == Ok(s) && !IsUndefined(t)
    ensures ParseMembers([t]) == Ok([s]) && Actual([t]) == [t]
  {
    hide Parse, IsUndefined;
    assert [t][1..] == [];
    assert ParseMembers([]) == Ok([]);
    assert [s] + [] == [s];
  }

  lemma ArrayParsed(name: string, kind: Kind)
    requires ParseIntrinsic(name) == Ok(Simple(kind))
    ensures Parse(ArrayType(Intrinsic(name))) == Ok(ArrayOf(Simple(kind)))
    ensures Inhabits(ArrayType(Intrinsic(name)), Arr([])) && Valid(ArrayOf(Simple(kind)), Arr([]))
  {
  }

  lemma UnionOfArrays(t: Type, u: Type, first: Schema, second: Schema)
    requires t.ArrayType? && u.ArrayType? && Parse(t) == Ok(first) && Parse(u) == Ok(second) && first != second
    ensures ParseUnion([t, u]) == Ok(OneOf([first, second]))
  {
    hide Parse, ParseMembers, Merged, Actual;
    TwoMembers(t, u, first, second);
    assert [t, u][0] == t && t in [t, u];
  }

  /** `string[] | number[]` becomes a `oneOf` that rejects the empty array. */
  lemma OverlapBreaks()
    ensures var types := [ArrayType(Intrinsic("string")), ArrayType(Intrinsic("number"))];
            var s := OneOf([ArrayOf(Simple(StringKind)), ArrayOf(Simple(NumberKind))]);
            ParseUnion(types) == Ok(s) && Inhabits(Union(types), Arr([])) && !Valid(s, Arr([]))
  {
    ArrayParsed("string", StringKind);
    ArrayParsed("number", NumberKind);
    hide *;
    var strings, numbers := ArrayType(Intrinsic("string")), ArrayType(Intrinsic("number"));
    var first, second := ArrayOf(Simple(StringKind)), ArrayOf(Simple(NumberKind));
    UnionOfArrays(strings, numbers, first, second);
    assert [strings, numbers][0] == strings;
    MemberInhabits([strings, numbers], strings, Arr([]));
    assert [first, second][0] == first && [first, second][1] == second;
    TwoValid([first, second], 0, 1, Arr([]));
    BothKept(first, second);
  }

  lemma BothKept(first: Schema, second: Schema)
    ensures Combined([first, second]) == OneOf([first, second])
  {
  }

  /** `Record<'a', string>` becomes the schema of any record: `{}` and `{"b": "x"}` are valid. */
  lemma LiteralKeysBreak()
    ensures var t := Reference("Record", [Union([LiteralType(StringLit("a"))]), Intrinsic("string")]);
            var s := MapOf(Simple(StringKind));
            && Parse(t) == Ok(s)
            && Valid(s, Obj(map[])) && !Inhabits(t, Obj(map[]))
            && Valid(s, Obj(map["b" := Str("x")])) && !Inhabits(t, Obj(map["b" := Str("x")]))
  {
    LiteralRecord("a");
    OtherName("a", "b", Str("x"));
  }

  lemma LiteralRecord(name: string)
    ensures Parse(Reference("Record", [Union([LiteralType(StringLit(name))]), Intrinsic("string")]))
         == Ok(MapOf(Simple(StringKind)))
  {
    var a := LiteralType(StringLit(name));
    var arguments := [Union([a]), Intrinsic("string")];
    assert arguments[0] == Union([a]) && arguments[1] == Intrinsic("string");
    assert forall m | m in [a] :: m == a;
    assert Parse(Intrinsic("string")) == Ok(Simple(StringKind));
  }

  lemma OtherName(name: string, other: string, w: Json)
    requires name != other
    ensures var t := Reference("Record", [Union([LiteralType(StringLit(name))]), Intrinsic("string")]);
            !Inhabits(t, Obj(map[])) && !Inhabits(t, Obj(map[other := w]))
  {
    var a := LiteralType(StringLit(name));
    var arguments := [Union([a]), Intrinsic("string")];
    assert arguments[0] == Union([a]) && a in [a] && IsStringLiteral(a);
    assert forall m | m in [a] :: m == a;
    assert other in Obj(map[other := w]).fields;
    hide IsStringKey;
  }

  /** `{ a?: string; 1?: string } | { 1?: string; a?: string }`: indices come first in both schemas: merged. */
  lemma IndicesMerged()
    ensures var a, one := Child("a", PropertyMember, true, Intrinsic("string"), NO_DOC),
                          Child("1", PropertyMember, true, Intrinsic("string"), NO_DOC);
            ParseUnion([Reflection([a, one], false, []), Reflection([one, a], false, [])])
            == Ok(Closed([Property("1", Simple(StringKind), NO_DOC), Property("a", Simple(StringKind), NO_DOC)], []))
  {
    var a, one := Child("a", PropertyMember, true, Intrinsic("string"), NO_DOC),
                  Child("1", PropertyMember, true, Intrinsic("string"), NO_DOC);
    TwoOptional(a, one);
    UnionOfAlike(Reflection([a, one], false, []), Reflection([one, a], false, []),
                 Closed([Property("1", Simple(StringKind), NO_DOC), Property("a", Simple(StringKind), NO_DOC)], []));
  }

  lemma TwoOptional(a: Child, one: Child)
    requires a == Child("a", PropertyMember, true, Intrinsic("string"), NO_DOC)
    requires one == Child("1", PropertyMember, true, Intrinsic("string"), NO_DOC)
    ensures var s := Closed([Property("1", Simple(StringKind), NO_DOC), Property("a", Simple(StringKind), NO_DOC)], []);
            ParseObject([a, one]) == Ok(s) && ParseObject([one, a]) == Ok(s)
  {
    var p, q := Property("a", Simple(StringKind), NO_DOC), Property("1", Simple(StringKind), NO_DOC);
    assert Parse(Intrinsic("string")) == Ok(Simple(StringKind));
    assert IsIndex("1") && !IsIndex("a") by { assert "a"[0] in "a"; }
    assert Assign([], p) == [p] && Assign([], q) == [q];
    assert Assign([p], q) == [q, p] && Assign([q], p) == [q] + Assign([q][1..], p);
    assert [a, one][1..] == [one] && [one, a][1..] == [a] && [one][1..] == [] && [a][1..] == [];
    hide Parse, Assign, IsIndex;
    assert ParseChildren([q, p], [], []) == Ok(Closed([q, p], []));
    assert ParseChildren([p], [], [one]) == ParseChildren(Assign([p], q), [], []);
    assert ParseChildren([q], [], [a]) == ParseChildren(Assign([q], p), [], []);
  }

  lemma UnionOfAlike(t: Type, u: Type, s: Schema)
    requires t.Reflection? && u.Reflection? && Parse(t) == Ok(s) && Parse(u) == Ok(s)
    ensures ParseUnion([t, u]) == Ok(s)
  {
    hide Parse;
    OneMember(u, s);
    assert [t, u][1..] == [u] && [t, u][0] == t;
    assert [s] + [s] == [s, s] && [s, s][1..] == [s] && [s][1..] == [] && [] + [s] == [s];
    assert Without([s], [s]) == [s];
  }

  /** `keyof { a: string }` becomes the schema of `{ a: string }`. */
  lemma KeyOfBreaks()
    ensures var t := TypeOperator(KeyOf, Reflection([StringProperty("a")], false, []));
            && Parse(t).Ok?
            && Valid(Parse(t).value, Obj(map["a" := Str("x")])) && !Inhabits(t, Obj(map["a" := Str("x")]))
            && Inhabits(t, Str("a")) && !Valid(Parse(t).value, Str("a"))
  {
    var children := [StringProperty("a")];
    var target := Reflection(children, false, []);
    OneProperty("a");
    var s := Closed([Property("a", Simple(StringKind), NO_DOC)], ["a"]);
    assert Parse(target) == Ok(s) && Parse(TypeOperator(KeyOf, target)) == Ok(s);
    Completeness(target, s, Obj(map["a" := Str("x")]));
    assert children[0] in children && children[0].name == "a" && HasKey(target, Str("a"));
  }

  /** `{ run(): void }` becomes the schema of `{}`, which accepts the empty object. */
  lemma MethodBreaks()
    ensures var t := Reflection([RequiredMethod("run")], false, []);
            && Parse(t) == Ok(Closed([], []))
            && Valid(Closed([], []), Obj(map[])) && forall v :: !Inhabits(t, v)
  {
    var children := [RequiredMethod("run")];
    assert children[1..] == [] && children[0] in children;
    assert ParseChildren([], [], children) == ParseChildren([], [], []);
    forall v ensures !Inhabits(Reflection(children, false, []), v) { ImpossibleIsEmpty(children, false, [], v); }
  }

  /** `{ __proto__: string }` becomes a schema that no value meets. */
  lemma ProtoBreaks()
    ensures var t := Reflection([StringProperty("__proto__")], false, []);
            Parse(t) == Ok(Closed([], ["__proto__"])) && Inhabits(t, Obj(map["__proto__" := Str("")]))
            && forall v :: !Valid(Closed([], ["__proto__"]), v)
  {
    var children := [StringProperty("__proto__")];
    assert children[1..] == [] && children[0] in children && Parse(Intrinsic("string")) == Ok(Simple(StringKind));
    assert [] + ["__proto__"] == ["__proto__"];
    assert ParseChildren([], [], children) == ParseChildren([], ["__proto__"], []);
    forall v ensures !Valid(Closed([], ["__proto__"]), v) { assert "__proto__" in ["__proto__"]; }
  }
}
