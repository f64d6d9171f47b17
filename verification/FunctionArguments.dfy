/**
 * The relaxed translator used for function arguments, which also takes `any` and `unknown`,
 * and the proof that it extends the strict one without changing what is accepted.
 */
module FunctionArguments {
  import opened Text
  import opened TypeSchema
  import opened SchemaMeaning

  function ParseParam(t: Type): Result<Schema, Error>
    decreases t, 2
  {
    if IsAmbiguous(t) then Ok(Anything)
    else
      match t
      case Reflection(children, _, _) => ParseParamChildren([], [], children)
      case ArrayType(element) => ArraySchema(ParseParam(element))
      case Union(types) =>
        var actual := Actual(types);
        if |actual| == 1 then
          assert actual[0] in types;
          ParseParam(actual[0])
        else if exists m | m in actual :: IsAmbiguous(m) then Ok(Anything)
        else Parse(t)
      case Reference(name, arguments) =>
        if name == "Record" && |arguments| == 2 then MapSchema(ParseParam(arguments[1])) else Parse(t)
      case _ => Parse(t)
  }

  function ParseParamChildren(properties: seq<Property>, required: seq<string>, children: seq<Child>)
    : Result<Schema, Error>
    decreases children, 0
  {
    if children == [] then Ok(Closed(properties, required))
    else
      var c := children[0];
      if !IsProperty(c) then ParseParamChildren(properties, required, children[1..])
      else
        var schema := ParseParam(c.declared);
        if schema.Err? then schema
        else
          ParseParamChildren(Assign(properties, Property(c.name, schema.value, c.doc)),
                             if MayBeAbsent(c) then required else required + [c.name],
                             children[1..])
  }

  method ParseFunctionObjectReflection(children: seq<Child>) returns (r: Result<Schema, Error>)
    ensures r == ParseParamChildren([], [], children)
  {
    var properties, required := [], [];
    var i := 0;
    while i < |children|
      invariant 0 <= i <= |children|
      invariant ParseParamChildren([], [], children) == ParseParamChildren(properties, required, children[i..])
    {
      var child := children[i];
      assert children[i..][0] == child && children[i..][1..] == children[i + 1..];
      i := i + 1;
      if !IsProperty(child) { continue; }
      var schema := ParseParam(child.declared);
      if schema.Err? { return schema; }
      properties := Assign(properties, Property(child.name, schema.value, child.doc));
      if !MayBeAbsent(child) { required := required + [child.name]; }
    }
    assert children[i..] == [];
    return Ok(Closed(properties, required));
  }

  // ----- The relaxed translator extends the strict one -----

  /** Both schemas accept the same values. */
  ghost predicate Alike(s: Schema, u: Schema) {
    forall v :: Valid(s, v) <==> Valid(u, v)
  }

  ghost predicate AlikeProperties(ps: seq<Property>, qs: seq<Property>) {
    |ps| == |qs| && forall i | 0 <= i < |ps| :: ps[i].name == qs[i].name && Alike(ps[i].schema, qs[i].schema)
  }

  lemma AlikeCons(p: Property, q: Property, ps: seq<Property>, qs: seq<Property>)
    requires AlikeProperties(ps, qs) && p.name == q.name && Alike(p.schema, q.schema)
    ensures AlikeProperties([p] + ps, [q] + qs)
  {
    hide Alike;
  }

  lemma AlikeTail(ps: seq<Property>, qs: seq<Property>)
    requires AlikeProperties(ps, qs) && ps != []
    ensures qs != [] && ps[0].name == qs[0].name && Alike(ps[0].schema, qs[0].schema)
    ensures AlikeProperties(ps[1..], qs[1..]) && ps == [ps[0]] + ps[1..] && qs == [qs[0]] + qs[1..]
  {
    hide Alike;
  }

  lemma NoneAlike(ps: seq<Property>, qs: seq<Property>)
    requires AlikeProperties(ps, qs)
    ensures ps == [] <==> qs == []
  {
  }

  lemma {:induction false} AssignAlike(ps: seq<Property>, qs: seq<Property>, p: Property, q: Property)
    requires AlikeProperties(ps, qs) && p.name == q.name && Alike(p.schema, q.schema)
    ensures AlikeProperties(Assign(ps, p), Assign(qs, q))
  {
    hide Alike, AlikeProperties, Overtakes;
    NoneAlike(ps, qs);
    if p.name != "__proto__" {
      if ps == [] {
        AlikeNothing();
        AlikeCons(p, q, [], []);
        assert [p] + [] == [p] && [q] + [] == [q];
      } else {
        AlikeTail(ps, qs);
        AssignAlike(ps[1..], qs[1..], p, q);
        AlikeCons(p, q, ps[1..], qs[1..]);
        AlikeCons(p, q, ps, qs);
        AlikeCons(ps[0], qs[0], Assign(ps[1..], p), Assign(qs[1..], q));
      }
    }
  }

  lemma AlikeNothing()
    ensures AlikeProperties([], [])
  {
  }

  lemma ClosedForward(ps: seq<Property>, qs: seq<Property>, required: seq<string>, v: Json)
    requires AlikeProperties(ps, qs) && Valid(Closed(ps, required), v)
    ensures Valid(Closed(qs, required), v)
  {
    forall k | k in v.fields ensures exists q | q in qs :: q.name == k {
      var p :| p in ps && p.name == k;
      var i :| 0 <= i < |ps| && ps[i] == p;
      assert qs[i] in qs;
    }
    forall q | q in qs && q.name in v.fields ensures Valid(q.schema, v.fields[q.name]) {
      var i :| 0 <= i < |qs| && qs[i] == q;
      assert ps[i] in ps && Alike(ps[i].schema, qs[i].schema);
    }
  }

  lemma ClosedAlike(ps: seq<Property>, qs: seq<Property>, required: seq<string>)
    requires AlikeProperties(ps, qs)
    ensures Alike(Closed(ps, required), Closed(qs, required))
  {
    forall i | 0 <= i < |ps| ensures Alike(qs[i].schema, ps[i].schema) { assert Alike(ps[i].schema, qs[i].schema); }
    forall v ensures Valid(Closed(ps, required), v) <==> Valid(Closed(qs, required), v) {
      if Valid(Closed(ps, required), v) { ClosedForward(ps, qs, required, v); }
      if Valid(Closed(qs, required), v) { ClosedForward(qs, ps, required, v); }
    }
  }

  lemma ArrayAlike(s: Schema, u: Schema)
    requires Alike(s, u)
    ensures Alike(ArrayOf(s), ArrayOf(u))
  {
  }

  lemma MapAlike(s: Schema, u: Schema)
    requires Alike(s, u)
    ensures Alike(MapOf(s), MapOf(u))
  {
  }

  /** Whatever the strict translator accepts, the relaxed one accepts too, with a schema for exactly the same values. */
  lemma {:induction false} Conservative(t: Type, s: Schema)
    requires Parse(t) == Ok(s)
    ensures ParseParam(t).Ok? && Alike(s, ParseParam(t).value)
    decreases t
  {
    match t
    case Reflection(children, _, _) => ChildrenConservative([], [], [], children, s);
    case ArrayType(element) =>
      Conservative(element, s.items);
      ArrayAlike(s.items, ParseParam(element).value);
    case Union(types) => UnionConservative(types, s);
    case Reference(name, arguments) =>
      if name == "Record" {
        if IsAmbiguous(arguments[1]) {
          assert Alike(MapOfAnything, MapOf(Anything));
        } else {
          Conservative(arguments[1], s.each);
          MapAlike(s.each, ParseParam(arguments[1]).value);
        }
      }
    case _ =>
  }

  /** The relaxed translator on unions, spelled out. */
  lemma UnionParam(types: seq<Type>)
    ensures var actual := Actual(types);
            ParseParam(Union(types))
            == if |actual| == 1 then ParseParam(actual[0])
               else if exists m | m in actual :: IsAmbiguous(m) then Ok(Anything)
               else ParseUnion(types)
  {
    hide ParseUnion, ParseMembers;
  }

  lemma UnionOfOne(types: seq<Type>)
    requires |Actual(types)| == 1
    ensures ParseUnion(types).Ok? ==> ParseUnion(types) == Parse(Actual(types)[0])
    ensures Actual(types)[0] in types
  {
    hide Parse, ParseMembers;
  }

  lemma {:induction false} UnionConservative(types: seq<Type>, s: Schema)
    requires ParseUnion(types) == Ok(s)
    ensures ParseParam(Union(types)).Ok? && Alike(s, ParseParam(Union(types)).value)
    decreases types
  {
    hide ParseParam, ParseUnion, Parse;
    var actual := Actual(types);
    UnionParam(types);
    if |actual| == 1 {
      UnionOfOne(types);
      Conservative(actual[0], s);
    } else if exists m | m in actual :: IsAmbiguous(m) {
      AmbiguousUnion(types);
    }
  }

  /** The strict translator rejects a union of several members one of which is ambiguous. */
  lemma AmbiguousUnion(types: seq<Type>)
    requires |Actual(types)| != 1 && exists m | m in Actual(types) :: IsAmbiguous(m)
    ensures ParseUnion(types).Err?
  {
    hide Parse, ParseMembers, Actual, IsAmbiguous, LiteralValues, IsStringLiteral, IsBoolLiteral, IsUndefined, IsNull;
    AmbiguousFails(types);
  }

  /** The strict translator rejects a union with an ambiguous member. */
  lemma {:induction false} AmbiguousFails(types: seq<Type>)
    requires exists m | m in Actual(types) :: IsAmbiguous(m)
    ensures ParseMembers(types).Err?
    ensures !forall m | m in Actual(types) :: IsStringLiteral(m)
    ensures !forall m | m in Actual(types) :: IsBoolLiteral(m)
  {
    var m :| m in Actual(types) && IsAmbiguous(m);
    assert !IsStringLiteral(m) && !IsBoolLiteral(m);
    assert Parse(m).Err?;
    if ParseMembers(types).Ok? {
      MembersParsed(types);
    }
  }

  lemma {:induction false} ChildrenConservative(ps: seq<Property>, qs: seq<Property>, required: seq<string>,
                                                children: seq<Child>, s: Schema)
    requires ParseChildren(ps, required, children) == Ok(s) && AlikeProperties(ps, qs)
    ensures var r := ParseParamChildren(qs, required, children); r.Ok? && Alike(s, r.value)
    decreases children
  {
    if children == [] {
      ClosedAlike(ps, qs, required);
    } else {
      var c := children[0];
      if !IsProperty(c) {
        ChildrenConservative(ps, qs, required, children[1..], s);
      } else {
        var schema := Parse(c.declared).value;
        Conservative(c.declared, schema);
        var p, q := Property(c.name, schema, c.doc), Property(c.name, ParseParam(c.declared).value, c.doc);
        AssignAlike(ps, qs, p, q);
        ChildrenConservative(Assign(ps, p), Assign(qs, q),
                             if MayBeAbsent(c) then required else required + [c.name], children[1..], s);
      }
    }
  }

  /** The two schemas can differ as texts: for `Record<string, unknown>` one says `true`, the other `{}`. */
  lemma DifferentTexts()
    ensures var t := Reference("Record", [Intrinsic("string"), Intrinsic("unknown")]);
            && Parse(t) == Ok(MapOfAnything) && ParseParam(t) == Ok(MapOf(Anything))
            && Alike(MapOfAnything, MapOf(Anything))
  {
    assert ParseParam(Intrinsic("unknown")) == Ok(Anything);
  }
}
