/** Function definitions written into a catalog and read back from it. */
module FunctionCatalog {
  import opened Text
  import opened TypeSchema

  datatype FunctionDefinition = FunctionDefinition(
    name: string, description: Option<string>, parameters: map<string, Json>, returnType: string)

  /** An own property of the `functions` object. */
  datatype Entry = Entry(name: string, schema: Json)

  const RETURN_TYPES := {"string", "number", "boolean", "array", "object", "any", "void"}

  // ----- Writing -----

  function StripDialect(schema: map<string, Json>): map<string, Json> {
    schema - {"$schema"}
  }

  function Visible(description: Option<string>): Option<string> {
    if description.Some? && description.value != "" then description else None
  }

  function FunctionSchema(f: FunctionDefinition): Json {
    var base := map[
      "type" := Str("object"),
      "properties" := Obj(map[
        "call" := Obj(map["const" := Str(f.name)]),
        "args" := Obj(StripDialect(f.parameters)),
        "returnType" := Obj(map["const" := Str(f.returnType)])
      ]),
      "required" := Arr([Str("call"), Str("args")]),
      "unevaluatedProperties" := Bool(false)
    ];
    var description := Visible(f.description);
    Obj(if description.Some? then base["description" := Str(description.value)] else base)
  }

  function Entries(functions: seq<FunctionDefinition>): (r: seq<Entry>)
    ensures |r| == |functions|
    ensures forall i | 0 <= i < |r| :: r[i] == Entry(functions[i].name, FunctionSchema(functions[i]))
  {
    seq(|functions|, i requires 0 <= i < |functions| => Entry(functions[i].name, FunctionSchema(functions[i])))
  }

  ghost predicate NamesCoincide(functions: seq<FunctionDefinition>) {
    exists i, j :: 0 <= i < j < |functions| && functions[i].name == functions[j].name
  }

  ghost predicate Repeated(functions: seq<FunctionDefinition>, name: string) {
    exists i, j :: 0 <= i < j < |functions| && functions[i].name == name && functions[j].name == name
  }

  /** Fails exactly when two names coincide, and then reports exactly the repeated ones. */
  method CreateFunctionSchemas(functions: seq<FunctionDefinition>) returns (r: Result<seq<Entry>, set<string>>)
    ensures r.Ok? <==> !NamesCoincide(functions)
    ensures r.Ok? ==> r.value == Entries(functions)
    ensures r.Err? ==> forall name :: name in r.error <==> Repeated(functions, name)
  {
    hide Entries, Repeated;
    RepeatedNone(functions);
    var seen: set<string>, duplicates: set<string> := {}, {};
    var i := 0;
    while i < |functions|
      invariant 0 <= i <= |functions|
      invariant forall name :: name in seen <==> exists k | 0 <= k < i :: functions[k].name == name
      invariant forall name :: name in duplicates <==> Repeated(functions[..i], name)
    {
      var fn := functions[i];
      RepeatedStep(functions, i);
      if fn.name in seen { duplicates := duplicates + {fn.name}; }
      seen := seen + {fn.name};
      i := i + 1;
    }
    assert functions[..i] == functions;
    RepeatedCoincide(functions);
    if |duplicates| > 0 {
      var name :| name in duplicates;
      assert Repeated(functions, name);
      return Err(duplicates);
    }
    return Ok(Entries(functions));
  }

  lemma RepeatedNone(functions: seq<FunctionDefinition>)
    ensures forall name :: !Repeated(functions[..0], name)
  {
  }

  lemma RepeatedCoincide(functions: seq<FunctionDefinition>)
    ensures NamesCoincide(functions) <==> exists name :: Repeated(functions, name)
  {
    if NamesCoincide(functions) {
      var i, j :| 0 <= i < j < |functions| && functions[i].name == functions[j].name;
      assert Repeated(functions, functions[i].name);
    }
  }

  lemma RepeatedStep(functions: seq<FunctionDefinition>, i: nat)
    requires i < |functions|
    ensures forall name :: (Repeated(functions[..i + 1], name) <==>
              (Repeated(functions[..i], name)
               || (name == functions[i].name && exists k | 0 <= k < i :: functions[k].name == name)))
  {
    var before, after := functions[..i], functions[..i + 1];
    forall name ensures Repeated(after, name) <==>
        (Repeated(before, name) || (name == functions[i].name && exists k | 0 <= k < i :: functions[k].name == name))
    {
      if Repeated(before, name) {
        var a, b :| 0 <= a < b < |before| && before[a].name == name && before[b].name == name;
        assert after[a].name == name && after[b].name == name;
      }
      if name == functions[i].name && exists k | 0 <= k < i :: functions[k].name == name {
        var k :| 0 <= k < i && functions[k].name == name;
        assert after[k].name == name && after[i].name == name;
      }
      if Repeated(after, name) {
        var a, b :| 0 <= a < b < |after| && after[a].name == name && after[b].name == name;
        assert functions[a].name == name;
        if b < i { assert before[a].name == name && before[b].name == name; }
      }
    }
  }

  // ----- Reading -----

  datatype FunctionSpec = FunctionSpec(
    name: string, description: Option<string>, parameters: map<string, Json>, returnType: string)

  function FunctionSpecFromSchema(name: string, schema: Json): Option<FunctionSpec> {
    if !schema.Obj? || "properties" !in schema.fields || !schema.fields["properties"].Obj? then None
    else
      var properties := schema.fields["properties"].fields;
      if "args" !in properties || !properties["args"].Obj? then None
      else if "returnType" !in properties || !properties["returnType"].Obj? then None
      else
        var returnType := properties["returnType"].fields;
        if "const" !in returnType || !returnType["const"].Str? || returnType["const"].s !in RETURN_TYPES then None
        else
          var description :=
            if "description" in schema.fields && schema.fields["description"].Str?
            then Some(schema.fields["description"].s)
            else None;
          Some(FunctionSpec(name, description, properties["args"].fields, returnType["const"].s))
  }

  function Readable(entries: seq<Entry>): seq<FunctionSpec> {
    if entries == [] then []
    else
      var spec := FunctionSpecFromSchema(entries[0].name, entries[0].schema);
      (if spec.Some? then [spec.value] else []) + Readable(entries[1..])
  }

  /** `le` orders names totally, as the locale's collation does. */
  ghost predicate TotalOrder(le: (string, string) -> bool) {
    && (forall a, b :: le(a, b) || le(b, a))
    && (forall a, b :: le(a, b) && le(b, a) ==> a == b)
    && (forall a, b, c :: le(a, b) && le(b, c) ==> le(a, c))
  }

  function Insert(le: (string, string) -> bool, x: FunctionSpec, sorted: seq<FunctionSpec>): seq<FunctionSpec> {
    if sorted == [] || le(x.name, sorted[0].name) then [x] + sorted
    else [sorted[0]] + Insert(le, x, sorted[1..])
  }

  /** A stable sort by name. */
  function SortByName(le: (string, string) -> bool, specs: seq<FunctionSpec>): seq<FunctionSpec> {
    if specs == [] then [] else Insert(le, specs[0], SortByName(le, specs[1..]))
  }

  function FunctionDefinitionsFromFullCatalog(le: (string, string) -> bool, entries: seq<Entry>): seq<FunctionSpec> {
    SortByName(le, Readable(entries))
  }

  // ----- The round trip -----

  /** What survives writing and reading: everything but an empty description and the schema dialect. */
  function Surviving(f: FunctionDefinition): FunctionSpec {
    var description := if f.description == Some("") then None else f.description;
    FunctionSpec(f.name, description, f.parameters - {"$schema"}, f.returnType)
  }

  /** Ascending by name, no name twice: there is only one such listing of a set of functions. */
  predicate Ascending(le: (string, string) -> bool, specs: seq<FunctionSpec>) {
    forall i, j | 0 <= i < j < |specs| :: le(specs[i].name, specs[j].name) && specs[i].name != specs[j].name
  }

  lemma {:induction false} InsertMembers(le: (string, string) -> bool, x: FunctionSpec, sorted: seq<FunctionSpec>)
    ensures forall s :: s in Insert(le, x, sorted) <==> s == x || s in sorted
  {
    if sorted != [] {
      assert sorted == [sorted[0]] + sorted[1..];
      if !le(x.name, sorted[0].name) { InsertMembers(le, x, sorted[1..]); }
    }
  }

  lemma {:induction false} InsertAscends(le: (string, string) -> bool, x: FunctionSpec, sorted: seq<FunctionSpec>)
    requires TotalOrder(le) && Ascending(le, sorted)
    requires forall s | s in sorted :: s.name != x.name
    ensures Ascending(le, Insert(le, x, sorted))
  {
    if sorted != [] {
      var head, tail := sorted[0], sorted[1..];
      if le(x.name, head.name) {
        forall i | 0 <= i < |sorted| ensures le(x.name, sorted[i].name) && x.name != sorted[i].name {
          assert i > 0 ==> le(head.name, sorted[i].name);
          assert sorted[i] in sorted;
        }
      } else {
        forall s | s in tail ensures s.name != x.name { assert s in sorted; }
        InsertAscends(le, x, tail);
        InsertMembers(le, x, tail);
        var rest := Insert(le, x, tail);
        forall i | 0 <= i < |rest| ensures le(head.name, rest[i].name) && head.name != rest[i].name {
          assert rest[i] in rest;
          if rest[i] != x {
            var k :| 0 <= k < |tail| && tail[k] == rest[i];
            assert sorted[k + 1] == rest[i];
          } else {
            assert head in sorted;
          }
        }
      }
    }
  }

  lemma {:induction false} SortByNameSorts(le: (string, string) -> bool, specs: seq<FunctionSpec>)
    requires TotalOrder(le)
    requires forall i, j | 0 <= i < j < |specs| :: specs[i].name != specs[j].name
    ensures Ascending(le, SortByName(le, specs))
    ensures forall s :: s in SortByName(le, specs) <==> s in specs
  {
    if specs != [] {
      SortByNameSorts(le, specs[1..]);
      InsertMembers(le, specs[0], SortByName(le, specs[1..]));
      InsertAscends(le, specs[0], SortByName(le, specs[1..]));
      assert specs == [specs[0]] + specs[1..];
    }
  }

  lemma ReadsBack(f: FunctionDefinition)
    requires f.returnType in RETURN_TYPES
    ensures FunctionSpecFromSchema(f.name, FunctionSchema(f)) == Some(Surviving(f))
  {
    var schema := FunctionSchema(f).fields;
    assert schema["properties"].fields["returnType"].fields["const"] == Str(f.returnType);
  }

  // ----- What is read, from any catalog -----

  /** The value lies under the keys, one below the other. */
  predicate Has(v: Json, keys: seq<string>, w: Json)
    decreases keys
  {
    if keys == [] then v == w else v.Obj? && keys[0] in v.fields && Has(v.fields[keys[0]], keys[1..], w)
  }

  /** The schema is one for the function: it has its parameters and a known return type, and a description perhaps. */
  ghost predicate Describes(schema: Json, spec: FunctionSpec) {
    && Has(schema, ["properties", "args"], Obj(spec.parameters))
    && Has(schema, ["properties", "returnType", "const"], Str(spec.returnType))
    && spec.returnType in ["string", "number", "boolean", "array", "object", "any", "void"]
    && forall text :: Has(schema, ["description"], Str(text)) <==> spec.description == Some(text)
  }

  lemma HasOne(v: Json, key: string, w: Json)
    ensures Has(v, [key], w) <==> v.Obj? && key in v.fields && v.fields[key] == w
  {
    assert [key][1..] == [];
    assert v.Obj? && key in v.fields ==> (Has(v.fields[key], [], w) <==> v.fields[key] == w);
  }

  lemma HasBelow(v: Json, key: string, keys: seq<string>, w: Json)
    ensures Has(v, [key] + keys, w) <==> v.Obj? && key in v.fields && Has(v.fields[key], keys, w)
  {
    assert ([key] + keys)[1..] == keys;
  }

  lemma PathsExact(schema: Json, parameters: map<string, Json>, returnType: string)
    ensures Has(schema, ["properties", "args"], Obj(parameters))
       <==> && schema.Obj? && "properties" in schema.fields && schema.fields["properties"].Obj?
            && var properties := schema.fields["properties"].fields;
            "args" in properties && properties["args"] == Obj(parameters)
    ensures Has(schema, ["properties", "returnType", "const"], Str(returnType))
       <==> && schema.Obj? && "properties" in schema.fields && schema.fields["properties"].Obj?
            && var properties := schema.fields["properties"].fields;
            && "returnType" in properties && properties["returnType"].Obj?
            && "const" in properties["returnType"].fields
            && properties["returnType"].fields["const"] == Str(returnType)
  {
    hide Has;
    assert ["properties", "args"] == ["properties"] + ["args"];
    assert ["properties", "returnType", "const"] == ["properties"] + ["returnType", "const"];
    assert ["returnType", "const"] == ["returnType"] + ["const"];
    HasBelow(schema, "properties", ["args"], Obj(parameters));
    HasBelow(schema, "properties", ["returnType", "const"], Str(returnType));
    if schema.Obj? && "properties" in schema.fields {
      var properties := schema.fields["properties"];
      HasOne(properties, "args", Obj(parameters));
      HasBelow(properties, "returnType", ["const"], Str(returnType));
      if properties.Obj? && "returnType" in properties.fields {
        HasOne(properties.fields["returnType"], "const", Str(returnType));
      }
    }
  }

  /** A schema is read as a function exactly when it describes it, under the name it is listed by. */
  lemma ReadExact(name: string, schema: Json, spec: FunctionSpec)
    ensures FunctionSpecFromSchema(name, schema) == Some(spec) <==> spec.name == name && Describes(schema, spec)
  {
    hide Has;
    forall parameters, returnType { PathsExact(schema, parameters, returnType); }
    forall text { HasOne(schema, "description", Str(text)); }
    var read := FunctionSpecFromSchema(name, schema);
    if spec.name == name && Describes(schema, spec) {
      assert read.Some?;
    }
  }

  lemma {:induction false} ReadableMembers(entries: seq<Entry>, s: FunctionSpec)
    ensures s in Readable(entries) <==> exists e | e in entries :: FunctionSpecFromSchema(e.name, e.schema) == Some(s)
  {
    hide FunctionSpecFromSchema;
    if entries != [] {
      ReadableMembers(entries[1..], s);
      assert entries == [entries[0]] + entries[1..];
    }
  }

  lemma {:induction false} ReadableNames(entries: seq<Entry>)
    requires forall i, j | 0 <= i < j < |entries| :: entries[i].name != entries[j].name
    ensures forall i, j | 0 <= i < j < |Readable(entries)| :: Readable(entries)[i].name != Readable(entries)[j].name
  {
    hide FunctionSpecFromSchema;
    if entries != [] {
      var first, rest := entries[0], entries[1..];
      forall i, j | 0 <= i < j < |rest| ensures rest[i].name != rest[j].name {
        assert rest[i] == entries[i + 1] && rest[j] == entries[j + 1];
      }
      ReadableNames(rest);
      forall s | s in Readable(rest) ensures s.name != first.name {
        ReadableMembers(rest, s);
        var e :| e in rest && FunctionSpecFromSchema(e.name, e.schema) == Some(s);
        ReadExact(e.name, e.schema, s);
        var k :| 0 <= k < |rest| && rest[k] == e;
        assert entries[k + 1] == e;
      }
      if FunctionSpecFromSchema(first.name, first.schema).Some? {
        var head, tail := FunctionSpecFromSchema(first.name, first.schema).value, Readable(rest);
        ReadExact(first.name, first.schema, head);
        assert Readable(entries) == [head] + tail;
      } else {
        assert Readable(entries) == Readable(rest);
      }
    }
  }

  /** Reading any catalog: exactly the functions its schemas describe, ascending by name. */
  lemma CatalogRead(le: (string, string) -> bool, entries: seq<Entry>)
    requires TotalOrder(le)
    requires forall i, j | 0 <= i < j < |entries| :: entries[i].name != entries[j].name
    ensures var specs := FunctionDefinitionsFromFullCatalog(le, entries);
            && Ascending(le, specs)
            && forall s :: s in specs <==> exists e | e in entries :: s.name == e.name && Describes(e.schema, s)
  {
    hide FunctionSpecFromSchema, Readable, Describes;
    ReadableNames(entries);
    SortByNameSorts(le, Readable(entries));
    forall s ensures s in Readable(entries) <==> exists e | e in entries :: s.name == e.name && Describes(e.schema, s) {
      ReadableMembers(entries, s);
      forall e: Entry { ReadExact(e.name, e.schema, s); }
    }
  }

  // ----- The calls that a written schema admits -----

  function Properties(schema: map<string, Json>): map<string, Json> {
    if "properties" in schema && schema["properties"].Obj? then schema["properties"].fields else map[]
  }

  /**
   * The meaning of the keywords `type`, `properties`, `required` and `unevaluatedProperties` in JSON Schema 2020-12,
   * for a schema without others that evaluate properties; `below` says what the schema of a property admits.
   */
  ghost predicate Admits(schema: map<string, Json>, v: Json, below: (Json, Json) -> bool) {
    && ("type" in schema && schema["type"] == Str("object") ==> v.Obj?)
    && ("required" in schema && schema["required"].Arr? && v.Obj? ==>
          forall name: string :: Str(name) in schema["required"].items ==> name in v.fields)
    && (v.Obj? ==> forall k | k in Properties(schema) && k in v.fields :: below(Properties(schema)[k], v.fields[k]))
    && ("unevaluatedProperties" in schema && schema["unevaluatedProperties"] == Bool(false) && v.Obj? ==>
          v.fields.Keys <= Properties(schema).Keys)
  }

  /** `const` admits its own value only. */
  ghost predicate ReadsConst(below: (Json, Json) -> bool) {
    forall c, w :: below(Obj(map["const" := c]), w) <==> w == c
  }

  /**
   * A written schema admits exactly the calls of its function: `call` is the function's name, the arguments are there
   * and admitted by the parameters, a return type is the function's own, and there is nothing else.
   */
  lemma CallsAdmitted(f: FunctionDefinition, v: Json, below: (Json, Json) -> bool)
    requires ReadsConst(below)
    ensures FunctionSchema(f).Obj?
    ensures Admits(FunctionSchema(f).fields, v, below)
       <==> && v.Obj? && v.fields.Keys <= {"call", "args", "returnType"}
            && "call" in v.fields && v.fields["call"] == Str(f.name)
            && "args" in v.fields && below(Obj(f.parameters - {"$schema"}), v.fields["args"])
            && ("returnType" in v.fields ==> v.fields["returnType"] == Str(f.returnType))
  {
    var schema := FunctionSchema(f).fields;
    var properties := Properties(schema);
    assert properties.Keys == {"call", "args", "returnType"};
    assert schema["required"].items == [Str("call"), Str("args")];
    assert Str("call") in schema["required"].items && Str("args") in schema["required"].items;
    assert properties["call"] == Obj(map["const" := Str(f.name)]);
    assert properties["returnType"] == Obj(map["const" := Str(f.returnType)]);
    assert properties["args"] == Obj(f.parameters - {"$schema"});
  }

  ghost predicate Written(e: Entry, functions: seq<FunctionDefinition>) {
    exists f | f in functions :: e == Entry(f.name, FunctionSchema(f))
  }

  /** Reading entries one by one, in whatever order the object lists them. */
  lemma WrittenReads(e: Entry, functions: seq<FunctionDefinition>)
    requires (forall f | f in functions :: f.returnType in RETURN_TYPES) && Written(e, functions)
    ensures FunctionSpecFromSchema(e.name, e.schema).Some?
    ensures FunctionSpecFromSchema(e.name, e.schema).value.name == e.name
  {
    hide FunctionSchema, FunctionSpecFromSchema, RETURN_TYPES;
    var f :| f in functions && e == Entry(f.name, FunctionSchema(f));
    ReadsBack(f);
  }

  lemma NothingReadable()
    ensures Readable([]) == []
  {
  }

  lemma ReadableCons(e: Entry, rest: seq<Entry>)
    requires FunctionSpecFromSchema(e.name, e.schema).Some?
    ensures Readable([e] + rest) == [FunctionSpecFromSchema(e.name, e.schema).value] + Readable(rest)
  {
    hide FunctionSpecFromSchema;
    assert ([e] + rest)[1..] == rest;
  }

  lemma {:induction false} ReadableExact(entries: seq<Entry>, functions: seq<FunctionDefinition>)
    requires forall f | f in functions :: f.returnType in RETURN_TYPES
    requires forall e | e in entries :: Written(e, functions)
    ensures |Readable(entries)| == |entries|
    ensures forall i | 0 <= i < |entries| ::
              Readable(entries)[i].name == entries[i].name
              && FunctionSpecFromSchema(entries[i].name, entries[i].schema) == Some(Readable(entries)[i])
  {
    hide Readable, FunctionSpecFromSchema, Written, RETURN_TYPES;
    if entries == [] {
      NothingReadable();
    } else {
      var e, rest := entries[0], entries[1..];
      assert [e] + rest == entries && e in entries && forall d | d in rest :: d in entries;
      WrittenReads(e, functions);
      ReadableExact(rest, functions);
      ReadableCons(e, rest);
    }
  }

  /**
   * Reading a written catalog back, whatever order its properties are listed in, yields exactly the surviving part of
   * every function, ascending by name.
   */
  lemma CatalogRoundTrip(le: (string, string) -> bool, functions: seq<FunctionDefinition>, entries: seq<Entry>)
    requires TotalOrder(le)
    requires forall f | f in functions :: f.returnType in RETURN_TYPES
    requires !NamesCoincide(functions)
    requires forall e :: e in entries <==> e in Entries(functions)
    requires forall i, j | 0 <= i < j < |entries| :: entries[i].name != entries[j].name
    ensures var specs := FunctionDefinitionsFromFullCatalog(le, entries);
            && Ascending(le, specs)
            && forall s :: s in specs <==> exists f | f in functions :: s == Surviving(f)
  {
    forall e | e in entries ensures Written(e, functions) {
      var i :| 0 <= i < |functions| && Entries(functions)[i] == e;
      assert functions[i] in functions;
    }
    ReadableExact(entries, functions);
    var specs := Readable(entries);
    SortByNameSorts(le, specs);
    forall s ensures s in specs <==> exists f | f in functions :: s == Surviving(f) {
      if s in specs {
        var i :| 0 <= i < |specs| && specs[i] == s;
        assert entries[i] in entries && Written(entries[i], functions);
        var f :| f in functions && entries[i] == Entry(f.name, FunctionSchema(f));
        ReadsBack(f);
      }
      if exists f | f in functions :: s == Surviving(f) {
        var f :| f in functions && s == Surviving(f);
        var k :| 0 <= k < |functions| && functions[k] == f;
        assert Entries(functions)[k] in entries;
        var i :| 0 <= i < |entries| && entries[i] == Entry(f.name, FunctionSchema(f));
        ReadsBack(f);
        assert specs[i] == s;
      }
    }
  }
}
