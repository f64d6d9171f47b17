/** What the relaxed translator's schemas mean: on its whole domain, under the conditions of the strict one. */
module ArgumentMeaning {
  import opened Text
  import opened TypeSchema
  import opened SchemaMeaning
  import opened FunctionArguments
  import opened TypeAcceptance

  /** Nothing required is skipped, records are keyed by `string`, and what is left to the strict translator is sound. */
  ghost predicate SoundParam(t: Type)
    decreases t
  {
    Anyhow(t)
    || match t
       case Reflection(children, calls, _) =>
         && NamesOnce(children) && NothingMissing(children, calls)
         && forall c | c in children :: IsProperty(c) ==> SoundParam(c.declared)
       case ArrayType(element) => SoundParam(element)
       case Union(types) =>
         if exists k: nat :: Alone(types, k) then forall m | m in types :: !Passed(m) ==> SoundParam(m)
         else (exists m | m in types :: Anyhow(m)) || SoundShape(t)
       case Reference(name, arguments) =>
         if name == "Record" && |arguments| == 2 then arguments[0] == Intrinsic("string") && SoundParam(arguments[1])
         else SoundShape(t)
       case _ => SoundShape(t)
  }

  /** Besides, all members of objects are translatable, and what is left to the strict translator is exact. */
  ghost predicate ExactParam(t: Type)
    decreases t
  {
    Anyhow(t)
    || match t
       case Reflection(children, calls, index) =>
         && NamesOnce(children) && !calls && index == [] && (forall c | c in children :: Translatable(c))
         && forall c | c in children :: IsProperty(c) ==> ExactParam(c.declared)
       case ArrayType(element) => ExactParam(element)
       case Union(types) =>
         if exists k: nat :: Alone(types, k) then forall m | m in types :: !Passed(m) ==> ExactParam(m)
         else (exists m | m in types :: Anyhow(m)) || ExactShape(t)
       case Reference(name, arguments) =>
         if name == "Record" && |arguments| == 2 then arguments[0] == Intrinsic("string") && ExactParam(arguments[1])
         else ExactShape(t)
       case _ => ExactShape(t)
  }

  lemma {:induction false} RelaxedChildren(properties: seq<Property>, required: seq<string>, children: seq<Child>)
    ensures ParseParamChildren(properties, required, children) == ChildrenBy(ParseParam, properties, required, children)
    decreases children
  {
    hide Assign, MayBeAbsent;
    if children != [] {
      var c := children[0];
      if !IsProperty(c) {
        RelaxedChildren(properties, required, children[1..]);
      } else if ParseParam(c.declared).Ok? {
        RelaxedChildren(Assign(properties, Property(c.name, ParseParam(c.declared).value, c.doc)),
                        if MayBeAbsent(c) then required else required + [c.name], children[1..]);
      }
    }
  }

  lemma ParamListed(children: seq<Child>, s: Schema)
    requires ParseParamChildren([], [], children) == Ok(s) && NamesOnce(children)
    ensures ListsBy(ParseParam, s, [], [], children)
  {
    RelaxedChildren([], [], children);
    ChildrenListed(ParseParam, [], [], children, s);
  }

  lemma AnyhowInhabits(t: Type, v: Json)
    requires Anyhow(t)
    ensures Inhabits(t, v) && ParseParam(t) == Ok(Anything)
  {
  }

  // ----- Every valid value inhabits the type -----

  lemma {:induction false} ParamSoundness(t: Type, s: Schema, v: Json)
    requires ParseParam(t) == Ok(s) && SoundParam(t) && Valid(s, v)
    ensures Inhabits(t, v)
    decreases t
  {
    if Anyhow(t) {
      AnyhowInhabits(t, v);
    } else {
      match t
      case Reflection(children, calls, index) => ParamObjectSoundness(children, calls, index, s, v);
      case ArrayType(element) =>
        forall e | e in v.items ensures Inhabits(element, e) { ParamSoundness(element, s.items, e); }
      case Union(types) => ParamUnionSoundness(types, s, v);
      case Reference(name, arguments) =>
        if name == "Record" && |arguments| == 2 {
          forall k | k in v.fields ensures Inhabits(arguments[1], v.fields[k]) {
            ParamSoundness(arguments[1], s.each, v.fields[k]);
          }
        } else {
          Soundness(t, s, v);
        }
      case _ => Soundness(t, s, v);
    }
  }

  /** A value given for a member is valid under the translation of the member's type. */
  lemma MemberValid(children: seq<Child>, s: Schema, v: Json, c: Child) returns (q: Property)
    requires ListsBy(ParseParam, s, [], [], children) && NamesOnce(children)
    requires Valid(s, v) && v.Obj? && c in children && c.name in v.fields
    ensures IsProperty(c) && ParseParam(c.declared) == Ok(q.schema) && Valid(q.schema, v.fields[c.name])
  {
    hide ParseParam, MayBeAbsent;
    q :| q in s.properties && q.name == c.name;
    var d :| d in children && DescribesBy(ParseParam, q, d);
    SameMember(children, c, d);
  }

  lemma {:induction false} ParamObjectSoundness(children: seq<Child>, calls: bool, index: seq<Type>, s: Schema, v: Json)
    requires ParseParamChildren([], [], children) == Ok(s) && Valid(s, v)
    requires NamesOnce(children) && NothingMissing(children, calls)
    requires forall c | c in children :: IsProperty(c) ==> SoundParam(c.declared)
    ensures Inhabits(Reflection(children, calls, index), v)
    decreases children
  {
    hide ParseParam, ParseParamChildren, SoundParam;
    ParamListed(children, s);
    forall c | c in children && c.name in v.fields
      ensures !c.kind.MethodMember? && Inhabits(c.declared, v.fields[c.name])
    {
      var q := MemberValid(children, s, v, c);
      ParamSoundness(c.declared, q.schema, v.fields[c.name]);
    }
  }

  lemma {:induction false} ParamUnionSoundness(types: seq<Type>, s: Schema, v: Json)
    requires ParseParam(Union(types)) == Ok(s) && SoundParam(Union(types)) && Valid(s, v)
    ensures Inhabits(Union(types), v)
    decreases types
  {
    hide ParseParam, Parse, Inhabits, Valid, SoundShape, Actual;
    UnionParam(types);
    AloneExact(types);
    if |Actual(types)| == 1 {
      OneActual(types);
      ParamSoundness(Actual(types)[0], s, v);
      MemberInhabits(types, Actual(types)[0], v);
    } else if m :| m in types && Anyhow(m) {
      AnyhowInhabits(m, v);
      MemberInhabits(types, m, v);
    } else {
      StrictUnion(types);
      Soundness(Union(types), s, v);
    }
  }

  lemma StrictUnion(types: seq<Type>)
    requires |Actual(types)| != 1 && !exists m | m in types :: Anyhow(m)
    ensures ParseParam(Union(types)) == Parse(Union(types))
  {
    UnionParam(types);
    hide ParseParam, ParseUnion;
  }

  // ----- Every inhabitant is valid -----

  lemma {:induction false} ParamCompleteness(t: Type, s: Schema, v: Json)
    requires ParseParam(t) == Ok(s) && ExactParam(t) && Inhabits(t, v)
    ensures Valid(s, v)
    decreases t
  {
    if Anyhow(t) {
      AnyhowInhabits(t, v);
    } else {
      match t
      case Reflection(children, calls, index) => ParamObjectCompleteness(children, calls, index, s, v);
      case ArrayType(element) =>
        forall e | e in v.items ensures Valid(s.items, e) { ParamCompleteness(element, s.items, e); }
      case Union(types) => ParamUnionCompleteness(types, s, v);
      case Reference(name, arguments) =>
        if name == "Record" && |arguments| == 2 {
          forall k | k in v.fields ensures Valid(s.each, v.fields[k]) {
            ParamCompleteness(arguments[1], s.each, v.fields[k]);
          }
        } else {
          Completeness(t, s, v);
        }
      case _ => Completeness(t, s, v);
    }
  }

  lemma {:induction false} ParamObjectCompleteness(children: seq<Child>, calls: bool, index: seq<Type>, s: Schema,
                                                   v: Json)
    requires ParseParamChildren([], [], children) == Ok(s) && Inhabits(Reflection(children, calls, index), v)
    requires NamesOnce(children) && index == [] && forall c | c in children :: Translatable(c)
    requires forall c | c in children :: IsProperty(c) ==> ExactParam(c.declared)
    ensures Valid(s, v)
    decreases children
  {
    ParamListed(children, s);
    forall p | p in s.properties && p.name in v.fields ensures Valid(p.schema, v.fields[p.name]) {
      var c :| c in children && DescribesBy(ParseParam, p, c);
      ParamCompleteness(c.declared, p.schema, v.fields[p.name]);
    }
    forall k | k in v.fields ensures exists p | p in s.properties :: p.name == k {
      var c :| c in children && c.name == k;
      assert Translatable(c);
      var p :| p in s.properties && DescribesBy(ParseParam, p, c);
    }
  }

  lemma {:induction false} ParamUnionCompleteness(types: seq<Type>, s: Schema, v: Json)
    requires ParseParam(Union(types)) == Ok(s) && ExactParam(Union(types)) && Inhabits(Union(types), v)
    ensures Valid(s, v)
    decreases types
  {
    UnionParam(types);
    AloneExact(types);
    if |Actual(types)| == 1 {
      OneActual(types);
      OneInhabits(types, v);
      hide ParseParam, Parse, Inhabits, Valid, ExactShape, Actual;
      ParamCompleteness(Actual(types)[0], s, v);
    } else if exists m | m in types :: Anyhow(m) {
      AnyActual(types);
    } else {
      StrictUnion(types);
      hide ParseParam, Parse, Inhabits, Valid, ExactShape, Actual;
      Completeness(Union(types), s, v);
    }
  }

  lemma OneInhabits(types: seq<Type>, v: Json)
    requires |Actual(types)| == 1 && Inhabits(Union(types), v)
    ensures Inhabits(Actual(types)[0], v)
  {
    OneActual(types);
    var m :| m in types && Inhabits(m, v);
    UndefinedIsEmpty(m, v);
  }

  lemma AnyActual(types: seq<Type>)
    requires |Actual(types)| != 1 && exists m | m in types :: Anyhow(m)
    ensures ParseParam(Union(types)) == Ok(Anything)
  {
    UnionParam(types);
    var m :| m in types && Anyhow(m);
    assert m in Actual(types) && IsAmbiguous(m);
    hide ParseParam, ParseUnion;
  }

  /** On every accepted argument type of exact shape, the relaxed schema accepts exactly the values of the type. */
  lemma ParamExact(t: Type, s: Schema, v: Json)
    requires ParseParam(t) == Ok(s) && ExactParam(t)
    ensures Valid(s, v) <==> Inhabits(t, v)
  {
    ExactParamIsSound(t);
    hide ParseParam, ExactParam, SoundParam, Valid, Inhabits;
    if Valid(s, v) { ParamSoundness(t, s, v); }
    if Inhabits(t, v) { ParamCompleteness(t, s, v); }
  }

  lemma {:induction false} ExactParamIsSound(t: Type)
    requires ExactParam(t)
    ensures SoundParam(t)
    decreases t
  {
    if !Anyhow(t) {
      match t
      case Reflection(children, calls, _) =>
        forall c | c in children && !IsProperty(c) ensures MayBeAbsent(c) { assert Translatable(c); }
        forall c | c in children && IsProperty(c) ensures SoundParam(c.declared) { ExactParamIsSound(c.declared); }
      case ArrayType(element) => ExactParamIsSound(element);
      case Union(types) =>
        if exists k: nat :: Alone(types, k) {
          forall m | m in types && !Passed(m) ensures SoundParam(m) { ExactParamIsSound(m); }
        } else if !exists m | m in types :: Anyhow(m) {
          ExactIsSound(t);
        }
      case Reference(name, arguments) =>
        if name == "Record" && |arguments| == 2 { ExactParamIsSound(arguments[1]); } else { ExactIsSound(t); }
      case _ => ExactIsSound(t);
    }
  }
}
