/** Which types the two translators accept, told from the types alone, and what is reported first for the others. */
module TypeAcceptance {
  import opened Text
  import opened TypeSchema
  import opened SchemaMeaning
  import opened FunctionArguments

  const UNDEFINED := Intrinsic("undefined")

  // ----- The strict translator -----

  /** A member of a union that is not looked at. */
  predicate Passed(m: Type) {
    m == UNDEFINED
  }

  predicate Nullish(m: Type) {
    m == Intrinsic("null") || m == LiteralType(NullLit)
  }

  /** What stands for the keys of a record: any string, or string literals. */
  predicate Keys(t: Type) {
    match t
    case Intrinsic(name) => name == "string"
    case Union(types) => forall m | m in types :: m.LiteralType? && m.value.StringLit?
    case Incomplete(kind) => kind == "union"
    case _ => false
  }

  predicate Anyhow(t: Type) {
    t == Intrinsic("any") || t == Intrinsic("unknown")
  }

  /**
   * The types with a schema: strings, numbers, booleans and their literals, unions without `null` of such types and
   * `undefined`, arrays, object types whose properties have such types, records with string keys, and what operators
   * and wrappers are put around.
   */
  predicate Accepted(t: Type) {
    match t
    case Intrinsic(name) => name == "string" || name == "number" || name == "boolean"
    case LiteralType(value) => value.StringLit? || value.NumberLit? || value.BoolLit?
    case Union(types) =>
      && (exists m | m in types :: !Passed(m))
      && (forall m | m in types :: !Nullish(m))
      && forall m | m in types :: !Passed(m) ==> Accepted(m)
    case ArrayType(element) => Accepted(element)
    case Reflection(children, _, _) => forall c | c in children :: c.kind.PropertyMember? ==> Accepted(c.declared)
    case Reference(name, arguments) =>
      || (name in {"Array", "ReadonlyArray"} && |arguments| == 1 && Accepted(arguments[0]))
      || (name == "Record" && |arguments| == 2 && Keys(arguments[0])
          && (Anyhow(arguments[1]) || Accepted(arguments[1])))
    case TypeOperator(_, target) => Accepted(target)
    case Wrapper(_, element) => Accepted(element)
    case Unsupported(_) => false
    case Incomplete(_) => false
  }

  lemma KeysExact(t: Type)
    ensures IsStringKey(t) <==> Keys(t)
  {
  }

  lemma {:induction false} MembersExact(types: seq<Type>)
    ensures ParseMembers(types).Ok? <==> forall m | m in types :: !Passed(m) ==> Accepted(m)
    decreases types, 0
  {
    hide Parse, Accepted, Passed;
    if types != [] {
      MembersExact(types[1..]);
      AcceptedExact(types[0]);
      assert Passed(types[0]) <==> IsUndefined(types[0]) by { PassedExact(types[0]); }
      assert types == [types[0]] + types[1..];
    }
  }

  lemma PassedExact(t: Type)
    ensures Passed(t) <==> IsUndefined(t)
  {
  }

  lemma {:induction false} ChildrenExact(properties: seq<Property>, required: seq<string>, children: seq<Child>)
    ensures ParseChildren(properties, required, children).Ok?
       <==> forall c | c in children :: c.kind.PropertyMember? ==> Accepted(c.declared)
    decreases children, 0
  {
    hide Parse, Accepted, Assign, MayBeAbsent;
    if children != [] {
      var c := children[0];
      assert children == [c] + children[1..];
      AcceptedExact(c.declared);
      if !IsProperty(c) {
        ChildrenExact(properties, required, children[1..]);
      } else if Parse(c.declared).Ok? {
        ChildrenExact(Assign(properties, Property(c.name, Parse(c.declared).value, c.doc)),
                      if MayBeAbsent(c) then required else required + [c.name], children[1..]);
      }
    }
  }

  lemma {:induction false} UnionAccepted(types: seq<Type>)
    ensures ParseUnion(types).Ok? <==> Accepted(Union(types))
    decreases types, 1
  {
    hide Parse, ParseMembers, LiteralValues, Actual, Passed;
    var actual := Actual(types);
    MembersExact(types);
    NothingActual(types);
    assert forall m | m in types :: IsNull(m) <==> Nullish(m);
    if |actual| == 1 {
      OneActual(types);
      AcceptedExact(actual[0]);
    } else if (forall m | m in actual :: IsStringLiteral(m)) || forall m | m in actual :: IsBoolLiteral(m) {
      LiteralsAccepted(types);
    }
  }

  /** The members that the shortcuts of a union take are accepted. */
  lemma LiteralsAccepted(types: seq<Type>)
    requires (forall m | m in Actual(types) :: IsStringLiteral(m)) || forall m | m in Actual(types) :: IsBoolLiteral(m)
    ensures forall m | m in types :: !Passed(m) ==> Accepted(m)
  {
    forall m | m in types && !Passed(m) ensures Accepted(m) {
      PassedExact(m);
      assert m in Actual(types);
    }
  }

  /** A type has a schema exactly when it is accepted. */
  lemma {:induction false} AcceptedExact(t: Type)
    ensures Parse(t).Ok? <==> Accepted(t)
    decreases t, 2
  {
    match t
    case Union(types) => UnionAccepted(types);
    case ArrayType(element) => AcceptedExact(element);
    case Reflection(children, _, _) => ChildrenExact([], [], children);
    case Reference(name, arguments) =>
      forall a | a in arguments ensures Parse(a).Ok? <==> Accepted(a) { AcceptedExact(a); }
      if |arguments| == 2 { KeysExact(arguments[0]); }
    case TypeOperator(_, target) => AcceptedExact(target);
    case Wrapper(_, element) => AcceptedExact(element);
    case _ =>
  }

  // ----- What is reported first -----

  predicate FirstRefused(types: seq<Type>, k: nat) {
    && k < |types| && !Passed(types[k]) && !Accepted(types[k])
    && forall j | 0 <= j < k :: Passed(types[j]) || Accepted(types[j])
  }

  predicate FirstUnusable(children: seq<Child>, k: nat) {
    && k < |children| && children[k].kind.PropertyMember? && !Accepted(children[k].declared)
    && forall j | 0 <= j < k :: children[j].kind.PropertyMember? ==> Accepted(children[j].declared)
  }

  /** What is reported for a type without a schema: the first thing wrong with it, from the outside and the left. */
  ghost predicate Reports(t: Type, e: Error)
    decreases t
  {
    match t
    case Intrinsic(name) =>
      e == if name in {"any", "unknown", "undefined", "null", "never", "void"} then AmbiguousIntrinsic(name)
           else UnsupportedIntrinsic(name)
    case LiteralType(value) => e == if value.BigIntLit? then BigIntLiteral else NullishLiteral
    case Union(types) =>
      if types == [] then e == EmptyUnion
      else if exists m | m in types :: Nullish(m) then e == NullableUnion
      else if forall m | m in types :: Passed(m) then e == UndefinedOnlyUnion
      else exists k: nat :: FirstRefused(types, k) && Reports(types[k], e)
    case ArrayType(element) => Reports(element, e)
    case Reflection(children, _, _) => exists k: nat :: FirstUnusable(children, k) && Reports(children[k].declared, e)
    case Reference(name, arguments) =>
      if name in {"Array", "ReadonlyArray"} && |arguments| == 1 then Reports(arguments[0], e)
      else if name == "Record" && |arguments| == 2 then
        if Keys(arguments[0]) then Reports(arguments[1], e) else e == RecordKey
      else e == UnsupportedReference(name)
    case TypeOperator(_, target) => Reports(target, e)
    case Wrapper(_, element) => Reports(element, e)
    case Unsupported(kind) => e == UnsupportedKind(kind)
    case Incomplete(kind) => e == MissingPart(kind)
  }

  /** The error of a list of members is that of the first one that is refused. */
  lemma {:induction false} MembersReport(types: seq<Type>) returns (k: nat)
    requires ParseMembers(types).Err?
    ensures FirstRefused(types, k) && Parse(types[k]) == Err(ParseMembers(types).error)
  {
    hide Parse, Accepted;
    AcceptedExact(types[0]);
    if !Passed(types[0]) && Parse(types[0]).Err? {
      k := 0;
    } else {
      var l := MembersReport(types[1..]);
      k := l + 1;
      forall j | 0 <= j < k ensures Passed(types[j]) || Accepted(types[j]) {
        if j > 0 { assert types[j] == types[1..][j - 1]; }
      }
    }
  }

  lemma {:induction false} ChildrenReport(properties: seq<Property>, required: seq<string>, children: seq<Child>)
    returns (k: nat)
    requires ParseChildren(properties, required, children).Err?
    ensures FirstUnusable(children, k)
    ensures Parse(children[k].declared) == Err(ParseChildren(properties, required, children).error)
    decreases children
  {
    hide Parse, Accepted, Assign, MayBeAbsent;
    var c := children[0];
    AcceptedExact(c.declared);
    if IsProperty(c) && Parse(c.declared).Err? {
      k := 0;
    } else {
      var l;
      if !IsProperty(c) {
        l := ChildrenReport(properties, required, children[1..]);
      } else {
        l := ChildrenReport(Assign(properties, Property(c.name, Parse(c.declared).value, c.doc)),
                            if MayBeAbsent(c) then required else required + [c.name], children[1..]);
      }
      k := l + 1;
      forall j | 0 <= j < k ensures children[j].kind.PropertyMember? ==> Accepted(children[j].declared) {
        if j > 0 { assert children[j] == children[1..][j - 1]; }
      }
    }
  }

  lemma OneActual(types: seq<Type>)
    requires |Actual(types)| == 1
    ensures forall m | m in types && !Passed(m) :: m == Actual(types)[0]
    ensures Actual(types)[0] in types && !Passed(Actual(types)[0])
  {
    var actual := Actual(types);
    forall m | m in types && !Passed(m) ensures m == actual[0] { assert m in actual; }
    assert actual[0] in actual;
  }

  lemma FirstOf(types: seq<Type>, only: Type) returns (k: nat)
    requires only in types && !Passed(only) && !Accepted(only) && forall m | m in types && !Passed(m) :: m == only
    ensures FirstRefused(types, k) && types[k] == only
  {
    hide Accepted;
    if types[0] == only {
      k := 0;
    } else {
      assert types[0] in types && types == [types[0]] + types[1..];
      k := FirstOf(types[1..], only);
      k := k + 1;
      forall j | 0 <= j < k ensures Passed(types[j]) || Accepted(types[j]) {
        if j > 0 { assert types[j] == types[1..][j - 1]; }
      }
    }
  }

  lemma NothingActual(types: seq<Type>)
    ensures Actual(types) == [] <==> forall m | m in types :: Passed(m)
  {
    if Actual(types) != [] { assert Actual(types)[0] in Actual(types); }
  }

  lemma UnionErrors(types: seq<Type>)
    ensures types == [] ==> ParseUnion(types) == Err(EmptyUnion)
    ensures (exists m | m in types :: Nullish(m)) ==> ParseUnion(types) == Err(NullableUnion)
    ensures types != [] && !(exists m | m in types :: Nullish(m)) && (forall m | m in types :: Passed(m)) ==>
              ParseUnion(types) == Err(UndefinedOnlyUnion)
  {
    hide Parse, ParseMembers, LiteralValues, Actual, Passed;
    NothingActual(types);
    assert forall m | m in types :: IsNull(m) <==> Nullish(m);
  }

  lemma UnionBlames(types: seq<Type>, k: nat, e: Error)
    requires !(exists m | m in types :: Nullish(m)) && !(forall m | m in types :: Passed(m))
    requires FirstRefused(types, k) && Reports(types[k], e)
    ensures Reports(Union(types), e)
  {
    hide FirstRefused, Nullish, Passed;
  }

  lemma RefusedMember(types: seq<Type>, k: nat)
    requires FirstRefused(types, k)
    ensures k < |types| && types[k] in types && !Accepted(types[k])
  {
    hide Accepted, Passed;
  }

  lemma UnionReports(types: seq<Type>)
    requires !Accepted(Union(types))
    ensures ParseUnion(types).Err? && Reports(Union(types), ParseUnion(types).error)
    decreases types, 1
  {
    UnionAccepted(types);
    hide Parse, ParseMembers, ParseUnion, Accepted, FirstRefused, Nullish, Passed, Actual;
    UnionErrors(types);
    NothingActual(types);
    if !(exists m | m in types :: Nullish(m)) && !(forall m | m in types :: Passed(m)) {
      var k := UnionReported(types);
      RefusedMember(types, k);
      TypeReports(types[k]);
      UnionBlames(types, k, ParseUnion(types).error);
    }
  }

  lemma UnionReported(types: seq<Type>) returns (k: nat)
    requires ParseUnion(types).Err? && Actual(types) != [] && !exists m | m in types :: Nullish(m)
    ensures FirstRefused(types, k) && Parse(types[k]) == Err(ParseUnion(types).error)
  {
    hide Parse, ParseMembers, Accepted, LiteralValues;
    var actual := Actual(types);
    assert forall m | m in types :: IsNull(m) <==> Nullish(m);
    if |actual| == 1 {
      OneActual(types);
      AcceptedExact(actual[0]);
      k := FirstOf(types, actual[0]);
    } else {
      k := MembersReport(types);
    }
  }

  /** For every other type, what is reported is what is first wrong with it. */
  lemma {:induction false} TypeReports(t: Type)
    requires !Accepted(t)
    ensures Parse(t).Err? && Reports(t, Parse(t).error)
    decreases t, 2
  {
    AcceptedExact(t);
    match t
    case Union(types) => UnionReports(types);
    case ArrayType(element) => TypeReports(element);
    case Reflection(children, _, _) =>
      var k := ChildrenReport([], [], children);
      assert children[k] in children;
      TypeReports(children[k].declared);
    case Reference(name, arguments) =>
      if |arguments| == 2 { KeysExact(arguments[0]); }
      forall a | a in arguments && !Accepted(a) ensures Parse(a).Err? && Reports(a, Parse(a).error) { TypeReports(a); }
    case TypeOperator(_, target) => TypeReports(target);
    case Wrapper(_, element) => TypeReports(element);
    case _ =>
  }

  // ----- The relaxed translator -----

  /** All members but one are passed over. */
  predicate Alone(types: seq<Type>, k: nat) {
    k < |types| && !Passed(types[k]) && forall j | 0 <= j < |types| && j != k :: Passed(types[j])
  }

  /** Function arguments may besides be anything at all, and a record's keys are not looked at. */
  ghost predicate AcceptedParam(t: Type)
    decreases t
  {
    Anyhow(t)
    || match t
       case Reflection(children, _, _) =>
         forall c | c in children :: c.kind.PropertyMember? ==> AcceptedParam(c.declared)
       case ArrayType(element) => AcceptedParam(element)
       case Union(types) =>
         if exists k: nat :: Alone(types, k) then exists m | m in types :: !Passed(m) && AcceptedParam(m)
         else (exists m | m in types :: Anyhow(m)) || Accepted(t)
       case Reference(name, arguments) =>
         if name == "Record" && |arguments| == 2 then AcceptedParam(arguments[1]) else Accepted(t)
       case _ => Accepted(t)
  }

  lemma {:induction false} AloneExact(types: seq<Type>)
    ensures |Actual(types)| == 1 <==> exists k: nat :: Alone(types, k)
  {
    hide Alone, Passed, Actual;
    if types == [] {
      NoneAlone();
      NothingActual(types);
    } else {
      var rest := types[1..];
      ActualCons(types);
      NothingActual(rest);
      if Passed(types[0]) {
        AloneExact(rest);
        AloneShifted(types);
      } else if Actual(rest) == [] {
        AloneFirst(types);
      } else {
        var m :| m in rest && !Passed(m);
        var i :| 0 <= i < |rest| && rest[i] == m;
        NotAlone(types, i + 1);
      }
    }
  }

  lemma ActualCons(types: seq<Type>)
    requires types != []
    ensures |Actual(types)| == (if Passed(types[0]) then 0 else 1) + |Actual(types[1..])|
  {
  }

  lemma NoneAlone()
    ensures !exists k: nat :: Alone([], k)
  {
  }

  lemma AloneFirst(types: seq<Type>)
    requires types != [] && !Passed(types[0]) && forall m | m in types[1..] :: Passed(m)
    ensures Alone(types, 0)
  {
    hide Passed;
    forall j | 0 < j < |types| ensures Passed(types[j]) { assert types[j] in types[1..]; }
  }

  lemma NotAlone(types: seq<Type>, i: nat)
    requires 0 < i < |types| && !Passed(types[0]) && !Passed(types[i])
    ensures !exists k: nat :: Alone(types, k)
  {
    hide Passed;
  }

  lemma AloneShifted(types: seq<Type>)
    requires types != [] && Passed(types[0])
    ensures (exists k: nat :: Alone(types, k)) <==> exists k: nat :: Alone(types[1..], k)
  {
    var rest := types[1..];
    if k: nat :| Alone(types, k) {
      forall j | 0 <= j < |rest| && j != k - 1 ensures Passed(rest[j]) { assert rest[j] == types[j + 1]; }
      assert Alone(rest, k - 1);
    }
    if k: nat :| Alone(rest, k) {
      forall j | 0 <= j < |types| && j != k + 1 ensures Passed(types[j]) {
        if j > 0 { assert types[j] == rest[j - 1]; }
      }
      assert Alone(types, k + 1);
    }
  }

  lemma {:induction false} ParamChildrenExact(properties: seq<Property>, required: seq<string>, children: seq<Child>)
    ensures ParseParamChildren(properties, required, children).Ok?
       <==> forall c | c in children :: c.kind.PropertyMember? ==> AcceptedParam(c.declared)
    decreases children, 0
  {
    hide ParseParam, AcceptedParam, Assign, MayBeAbsent;
    if children != [] {
      var c := children[0];
      assert children == [c] + children[1..];
      AcceptedParamExact(c.declared);
      if !IsProperty(c) {
        ParamChildrenExact(properties, required, children[1..]);
      } else if ParseParam(c.declared).Ok? {
        ParamChildrenExact(Assign(properties, Property(c.name, ParseParam(c.declared).value, c.doc)),
                           if MayBeAbsent(c) then required else required + [c.name], children[1..]);
      }
    }
  }

  lemma {:induction false} UnionParamAccepted(types: seq<Type>)
    ensures ParseParam(Union(types)).Ok? <==> AcceptedParam(Union(types))
    decreases types, 1
  {
    var actual := Actual(types);
    AloneExact(types);
    AcceptedExact(Union(types));
    UnionParam(types);
    if |actual| == 1 {
      OneActual(types);
      AcceptedParamExact(actual[0]);
    } else {
      assert (exists m | m in actual :: IsAmbiguous(m)) <==> exists m | m in types :: Anyhow(m);
    }
    hide ParseParam, Parse, Accepted;
  }

  /** A type is accepted for a function argument exactly under this condition. */
  lemma {:induction false} AcceptedParamExact(t: Type)
    ensures ParseParam(t).Ok? <==> AcceptedParam(t)
    decreases t, 2
  {
    AcceptedExact(t);
    match t
    case Reflection(children, _, _) => ParamChildrenExact([], [], children);
    case ArrayType(element) => AcceptedParamExact(element);
    case Union(types) => UnionParamAccepted(types);
    case Reference(_, arguments) =>
      forall a | a in arguments ensures ParseParam(a).Ok? <==> AcceptedParam(a) { AcceptedParamExact(a); }
    case _ =>
  }
}
