/**
 * The compiler from a parsed XML fragment to the straight-line program that builds it,
 * and the proof that running the program builds exactly the forest the fragment denotes.
 */
module FragmentCompiler {
  import opened Text
  import opened XmlFragment
  import opened ElementMachine

  const FACTORIES := map[
    "frame" := CreateFrame,
    "image" := CreateImage,
    "scroll-view" := CreateScrollView,
    "text" := CreateText,
    "view" := CreateView,
    "wrapper" := CreateWrapperElement
  ]

  /** The one property name every plain object inherits that is also a well-formed tag name. */
  const INHERITED := "constructor"

  /** The table of factories is a plain object, so looking up INHERITED in it finds a function, not undefined. */
  function CreateElementExpression(tag: string): Callee {
    if tag in FACTORIES then Factory(FACTORIES[tag])
    else if tag == INHERITED then Garbled
    else Generic(tag)
  }

  // ----- The program of a node -----

  function TextCode(text: string, inText: bool): seq<Instr> {
    if AllSpace(text) then []
    else if inText then [AppendRaw(Top, text)]
    else [Create(Factory(CreateText)), AppendRaw(Register, text), Append(Top)]
  }

  function AttributeCode(a: Attribute): seq<Instr> {
    if a.name == "id" then [Bind(a.value), Apply(Id(a.value))] else [Apply(Meaning(a))]
  }

  function AttributesCode(attributes: seq<Attribute>): seq<Instr> {
    if attributes == [] then [] else AttributeCode(attributes[0]) + AttributesCode(attributes[1..])
  }

  function RawCode(attributes: seq<Attribute>, children: seq<XmlNode>, inText: bool): seq<Instr> {
    var ids := RawIds(attributes);
    (if inText then [] else [Create(Factory(CreateText)), Append(Top), Push])
    + [CreateRaw(RawContent(attributes, children))]
    + (if ids == [] then [] else [Bind(ids[0]), Apply(Id(ids[0]))])
    + [Append(Top)]
    + (if inText then [] else [Pop])
  }

  function Code(x: XmlNode, inText: bool): seq<Instr>
    decreases x, 1
  {
    match x
    case Text(text) => TextCode(text, inText)
    case Unsupported => []
    case Element(tag, attributes, children) =>
      if tag == "raw-text" then RawCode(attributes, children, inText)
      else
        [Create(CreateElementExpression(tag))] + AttributesCode(attributes) + [Append(Top), Push]
        + ForestCode(children, tag == "text") + [Pop]
  }

  function ForestCode(xs: seq<XmlNode>, inText: bool): seq<Instr>
    decreases xs, 0
  {
    if xs == [] then [] else Code(xs[0], inText) + ForestCode(xs[1..], inText)
  }

  /** Class tokens of a fragment, offered to the preset stylesheet. */
  function Words(s: string): (words: set<string>)
    ensures forall w | w in words :: w != "" && forall c | c in w :: !IsSpace(c)
    decreases |s|
  {
    var start := SkipSpace(s, 0);
    if start == |s| then {}
    else
      var end := WordEnd(s, start);
      {s[start..end]} + Words(s[end..])
  }

  function WordEnd(s: string, from: nat): (end: nat)
    requires from <= |s|
    ensures from <= end <= |s|
    ensures forall c | c in s[from..end] :: !IsSpace(c)
    ensures end < |s| ==> IsSpace(s[end])
    ensures from < |s| && !IsSpace(s[from]) ==> from < end
    decreases |s| - from
  {
    if from < |s| && !IsSpace(s[from]) then
      var end := WordEnd(s, from + 1);
      assert s[from..end] == [s[from]] + s[from + 1..end];
      end
    else from
  }

  function ClassesOf(a: Attribute): set<string> {
    if a.name == "class" then Words(a.value) else {}
  }

  function AttributeClasses(attributes: seq<Attribute>): set<string> {
    if attributes == [] then {} else ClassesOf(attributes[0]) + AttributeClasses(attributes[1..])
  }

  function ClassNames(x: XmlNode): set<string> {
    match x
    case Text(_) => {}
    case Unsupported => {}
    case Element(tag, attributes, children) =>
      if tag == "raw-text" then {} else AttributeClasses(attributes) + ForestClassNames(children)
  }

  function ForestClassNames(xs: seq<XmlNode>): set<string> {
    if xs == [] then {} else ClassNames(xs[0]) + ForestClassNames(xs[1..])
  }

  /** What a piece of the fragment adds to the output: lines, names, class tokens. */
  datatype Emission = Emission(lines: seq<Instr>, bindings: seq<string>, classNames: set<string>)

  function Then(a: Emission, b: Emission): Emission {
    Emission(a.lines + b.lines, a.bindings + b.bindings, a.classNames + b.classNames)
  }

  lemma ThenAssociates(a: Emission, b: Emission, c: Emission)
    ensures Then(Then(a, b), c) == Then(a, Then(b, c))
  {
    assert a.lines + b.lines + c.lines == a.lines + (b.lines + c.lines);
    assert a.bindings + b.bindings + c.bindings == a.bindings + (b.bindings + c.bindings);
    assert a.classNames + b.classNames + c.classNames == a.classNames + (b.classNames + c.classNames);
  }

  function EmitAttribute(a: Attribute): Emission {
    Emission(AttributeCode(a), IdOf(a), ClassesOf(a))
  }

  lemma IdEmission(id: string)
    ensures EmitAttribute(Attribute("id", id)) == Emission([Bind(id), Apply(Id(id))], [id], {})
  {
  }

  function EmitAttributes(attributes: seq<Attribute>): Emission {
    Emission(AttributesCode(attributes), AttributeIds(attributes), AttributeClasses(attributes))
  }

  function Emit(x: XmlNode, inText: bool): Emission {
    Emission(Code(x, inText), Ids(x), ClassNames(x))
  }

  function EmitForest(xs: seq<XmlNode>, inText: bool): Emission {
    Emission(ForestCode(xs, inText), ForestIds(xs), ForestClassNames(xs))
  }

  function Lines(lines: seq<Instr>): Emission {
    Emission(lines, [], {})
  }

  /** The emission of an element, stage by stage. */
  lemma ElementStages(o: Emission, x: XmlNode, inText: bool)
    requires x.Element? && x.tag != "raw-text"
    ensures var created := Then(o, Lines([Create(CreateElementExpression(x.tag))]));
            var dressed := Then(Then(created, EmitAttributes(x.attributes)), Lines([Append(Top), Push]));
            Then(Then(dressed, EmitForest(x.children, x.tag == "text")), Lines([Pop])) == Then(o, Emit(x, inText))
  {
    hide CreateElementExpression, AttributesCode, AttributeIds, AttributeClasses, ForestCode, ForestIds,
         ForestClassNames;
    var c, a := Lines([Create(CreateElementExpression(x.tag))]), EmitAttributes(x.attributes);
    var p, f, q := Lines([Append(Top), Push]), EmitForest(x.children, x.tag == "text"), Lines([Pop]);
    assert Emit(x, inText) == Then(Then(Then(Then(c, a), p), f), q);
    ThenAssociates(o, c, a);
    ThenAssociates(o, Then(c, a), p);
    ThenAssociates(o, Then(Then(c, a), p), f);
    ThenAssociates(o, Then(Then(Then(c, a), p), f), q);
  }

  /** The emission of a raw-text element, stage by stage. */
  lemma RawStages(o: Emission, attributes: seq<Attribute>, children: seq<XmlNode>, inText: bool)
    ensures var ids := RawIds(attributes);
            var entered := if inText then o else Then(o, Lines([Create(Factory(CreateText)), Append(Top), Push]));
            var made := Then(entered, Lines([CreateRaw(RawContent(attributes, children))]));
            var named := if ids == [] then made else Then(made, EmitAttribute(Attribute("id", ids[0])));
            var attached := Then(named, Lines([Append(Top)]));
            (if inText then attached else Then(attached, Lines([Pop])))
            == Then(o, Emission(RawCode(attributes, children, inText), RawIds(attributes), {}))
  {
    hide RawContent, EmitAttribute, Lookup;
    var ids := RawIds(attributes);
    if ids != [] { IdEmission(ids[0]); }
  }

  // ----- The generator and its mutable state -----

  class Generator {
    var bindings: seq<string>
    var classNames: set<string>
    var lines: seq<Instr>

    constructor ()
      ensures Output() == Emission([], [], {})
    {
      bindings, classNames, lines := [], {}, [];
    }

    function Output(): Emission
      reads this
    {
      Emission(lines, bindings, classNames)
    }

    function Seen(): set<string>
      reads this
    {
      Elements(bindings)
    }

    method AppendText(text: string, parentTag: Option<string>)
      modifies this
      ensures Output() == Then(old(Output()), Emission(TextCode(text, parentTag == Some("text")), [], {}))
    {
      TrimEmpty(text);
      if Trim(text) == "" { return; }
      if parentTag == Some("text") {
        lines := lines + [AppendRaw(Top, text)];
        return;
      }
      lines := lines + [Create(Factory(CreateText)), AppendRaw(Register, text), Append(Top)];
    }

    method AppendAttribute(a: Attribute) returns (fault: Option<Error>)
      modifies this
      ensures fault == IdFault(a, old(Seen()))
      ensures fault.None? ==> Output() == Then(old(Output()), EmitAttribute(a))
    {
      fault := None;
      if a.name == "class" {
        classNames := classNames + Words(a.value);
        lines := lines + [Apply(Classes(a.value))];
      } else if a.name == "id" {
        if a.value in bindings { return Some(DuplicateId(a.value)); }
        bindings := bindings + [a.value];
        lines := lines + [Bind(a.value), Apply(Id(a.value))];
      } else if a.name == "style" {
        lines := lines + [Apply(Style(a.value))];
      } else if "data-" <= a.name && |a.name| > 5 {
        lines := lines + [Apply(Dataset(a.name[5..], a.value))];
      } else {
        lines := lines + [Apply(Plain(a.name, a.value))];
      }
    }

    method AppendRawText(children: seq<XmlNode>, attributes: seq<Attribute>, parentTag: Option<string>)
      returns (fault: Option<Error>)
      modifies this
      ensures fault == RawFault(attributes, children, old(Seen()))
      ensures fault.None? ==>
                var inText := parentTag == Some("text");
                Output() == Then(old(Output()), Emission(RawCode(attributes, children, inText), RawIds(attributes), {}))
    {
      hide IsSpace, Trim, RawBody, Lookup, FirstUnsupported, EmitAttribute, RawCode;
      var body := RawBody(children);
      if body.None? { return Some(RawTextChild); }
      var text := Lookup(attributes, "text");
      if text.Some? && Trim(body.value) != "" { return Some(RawTextBoth); }
      var content := if text.Some? then text.value else body.value;
      var unsupported := FirstUnsupported(attributes);
      if unsupported.Some? { return Some(RawTextAttribute(unsupported.value)); }
      RawStages(Output(), attributes, children, parentTag == Some("text"));
      if parentTag != Some("text") {
        lines := lines + [Create(Factory(CreateText)), Append(Top), Push];
      }
      lines := lines + [CreateRaw(content)];
      fault := None;
      var id := Lookup(attributes, "id");
      if id.Some? {
        fault := AppendAttribute(Attribute("id", id.value));
        if fault.Some? { return; }
      }
      lines := lines + [Append(Top)];
      if parentTag != Some("text") { lines := lines + [Pop]; }
    }

    /** The loop over the attributes of one element. */
    method AppendAttributes(attributes: seq<Attribute>) returns (fault: Option<Error>)
      modifies this
      ensures fault == AttributeFault(attributes, old(Seen()))
      ensures fault.None? ==> Output() == Then(old(Output()), EmitAttributes(attributes))
    {
      hide AttributeCode, ClassesOf, IdOf;
      fault := None;
      var i := 0;
      while i < |attributes|
        invariant 0 <= i <= |attributes| && fault.None?
        invariant AttributeFault(attributes, old(Seen())) == AttributeFault(attributes[i..], Seen())
        invariant Then(old(Output()), EmitAttributes(attributes)) == Then(Output(), EmitAttributes(attributes[i..]))
      {
        var a := attributes[i];
        ghost var before := Output();
        assert attributes[i..][0] == a && attributes[i..][1..] == attributes[i + 1..];
        assert EmitAttributes(attributes[i..]) == Then(EmitAttribute(a), EmitAttributes(attributes[i + 1..]));
        fault := AppendAttribute(a);
        if fault.Some? { return; }
        ThenAssociates(before, EmitAttribute(a), EmitAttributes(attributes[i + 1..]));
        assert Seen() == Elements(before.bindings) + Elements(IdOf(a));
        i := i + 1;
      }
      assert attributes[i..] == [];
    }

    method AppendParsedNode(x: XmlNode, parentTag: Option<string>, depth: nat) returns (fault: Option<Error>)
      modifies this
      ensures fault == Fault(x, depth, old(Seen()))
      ensures fault.None? ==> Output() == Then(old(Output()), Emit(x, parentTag == Some("text")))
      decreases x, 1
    {
      hide CreateElementExpression, IsTagName, FORBIDDEN, RawFault, RawCode, RawIds, AttributesCode, AttributeIds,
           AttributeClasses, ForestCode, ForestIds, ForestClassNames, TextCode;
      if x.Unsupported? { return Some(UnsupportedNode); }
      if x.Text? {
        AppendText(x.text, parentTag);
        return None;
      }
      if depth > MAX_DEPTH { return Some(TooDeep); }
      if !IsTagName(x.tag) { return Some(UnsupportedElement(x.tag)); }
      if x.tag in FORBIDDEN { return Some(ForbiddenElement(x.tag)); }
      if x.tag == "raw-text" {
        fault := AppendRawText(x.children, x.attributes, parentTag);
        return;
      }
      ghost var before := Output();
      lines := lines + [Create(CreateElementExpression(x.tag))];
      assert Output() == Then(before, Lines([Create(CreateElementExpression(x.tag))]));
      fault := AppendAttributes(x.attributes);
      if fault.Some? { return; }
      assert Seen() == Elements(before.bindings) + Elements(AttributeIds(x.attributes));
      ghost var dressed := Output();
      lines := lines + [Append(Top), Push];
      assert Output() == Then(dressed, Lines([Append(Top), Push]));
      fault := AppendForest(x.children, Some(x.tag), depth + 1);
      if fault.Some? { return; }
      ghost var filled := Output();
      lines := lines + [Pop];
      assert Output() == Then(filled, Lines([Pop]));
      ElementStages(before, x, parentTag == Some("text"));
    }

    /** The loop over the children of an element, or over the top of the fragment. */
    method AppendForest(xs: seq<XmlNode>, parentTag: Option<string>, depth: nat) returns (fault: Option<Error>)
      modifies this
      ensures fault == ForestFault(xs, depth, old(Seen()))
      ensures fault.None? ==> Output() == Then(old(Output()), EmitForest(xs, parentTag == Some("text")))
      decreases xs, 0
    {
      fault := None;
      var i := 0;
      ghost var inText := parentTag == Some("text");
      while i < |xs|
        invariant 0 <= i <= |xs| && fault.None?
        invariant ForestFault(xs, depth, old(Seen())) == ForestFault(xs[i..], depth, Seen())
        invariant Then(old(Output()), EmitForest(xs, inText)) == Then(Output(), EmitForest(xs[i..], inText))
      {
        ghost var before := Output();
        assert xs[i..][0] == xs[i] && xs[i..][1..] == xs[i + 1..];
        assert EmitForest(xs[i..], inText) == Then(Emit(xs[i], inText), EmitForest(xs[i + 1..], inText));
        fault := AppendParsedNode(xs[i], parentTag, depth);
        if fault.Some? { return; }
        ThenAssociates(before, Emit(xs[i], inText), EmitForest(xs[i + 1..], inText));
        assert Seen() == Elements(before.bindings) + Elements(Ids(xs[i]));
        i := i + 1;
      }
      assert xs[i..] == [];
    }
  }

  datatype Generated = Generated(bindings: seq<string>, classNames: set<string>, code: seq<Instr>)

  /** The program of a fragment, or the first thing wrong with it. The XML parser's answer is given. */
  function Generate(source: string, parsed: Option<seq<XmlNode>>): Result<Generated, Error> {
    if AllSpace(source) then Err(EmptyFragment)
    else if |source| > MAX_LENGTH then Err(FragmentTooLong)
    else if parsed.None? then Err(InvalidXml)
    else
      var fault := ForestFault(parsed.value, 1, {});
      if fault.Some? then Err(fault.value)
      else if ForestCode(parsed.value, false) == [] then Err(NoVisibleContent)
      else
        Ok(Generated(ForestIds(parsed.value), ForestClassNames(parsed.value), ForestCode(parsed.value, false)))
  }

  method GenerateMainThreadScriptResult(source: string, parsed: Option<seq<XmlNode>>)
    returns (r: Result<Generated, Error>)
    ensures r == Generate(source, parsed)
  {
    TrimEmpty(source);
    if Trim(source) == "" { return Err(EmptyFragment); }
    if |source| > MAX_LENGTH { return Err(FragmentTooLong); }
    if parsed.None? { return Err(InvalidXml); }
    var state := new Generator();
    var fault := state.AppendForest(parsed.value, None, 1);
    assert Elements([]) == {};
    if fault.Some? { return Err(fault.value); }
    assert [] + ForestCode(parsed.value, false) == ForestCode(parsed.value, false);
    assert [] + ForestIds(parsed.value) == ForestIds(parsed.value);
    assert {} + ForestClassNames(parsed.value) == ForestClassNames(parsed.value);
    if state.lines == [] { return Err(NoVisibleContent); }
    return Ok(Generated(state.bindings, state.classNames, state.lines));
  }

  /** The exact condition, in terms of the fragment alone, under which a program is produced. */
  ghost predicate Compiles(source: string, parsed: Option<seq<XmlNode>>) {
    && !AllSpace(source)
    && |source| <= MAX_LENGTH
    && parsed.Some?
    && (forall x | x in parsed.value :: Admissible(x, 1))
    && Distinct(ForestIds(parsed.value))
    && DenoteAll(parsed.value, false) != []
  }

  lemma GenerateExact(source: string, parsed: Option<seq<XmlNode>>)
    ensures Generate(source, parsed).Ok? <==> Compiles(source, parsed)
  {
    if parsed.Some? {
      ForestFaultExact(parsed.value, 1, {});
      if forall x | x in parsed.value :: Admissible(x, 1) { CodeEmpty(parsed.value, false, 1); }
    }
  }

  /** No code is emitted exactly when nothing is shown. */
  lemma {:induction false} CodeEmpty(xs: seq<XmlNode>, inText: bool, depth: nat)
    requires forall x | x in xs :: Admissible(x, depth)
    ensures ForestCode(xs, inText) == [] <==> DenoteAll(xs, inText) == []
  {
    if xs != [] {
      CodeEmpty(xs[1..], inText, depth);
      assert Code(xs[0], inText) == [] <==> Denote(xs[0], inText) == [];
    }
  }

  // ----- Running the program -----

  /** Some element of the node carries the inherited name as its tag. */
  predicate MentionsInherited(x: XmlNode) {
    x.Element? && x.tag != "raw-text" && (x.tag == INHERITED || exists c | c in x.children :: MentionsInherited(c))
  }

  lemma {:induction false} GarbledExact(x: XmlNode, inText: bool)
    ensures Create(Garbled) in Code(x, inText) <==> MentionsInherited(x)
    decreases x, 1
  {
    if x.Element? && x.tag != "raw-text" {
      NeverGarbled(x.attributes);
      ForestGarbledExact(x.children, x.tag == "text");
    }
  }

  lemma {:induction false} NeverGarbled(attributes: seq<Attribute>)
    ensures Create(Garbled) !in AttributesCode(attributes)
  {
    if attributes != [] { NeverGarbled(attributes[1..]); }
  }

  lemma {:induction false} ForestGarbledExact(xs: seq<XmlNode>, inText: bool)
    ensures Create(Garbled) in ForestCode(xs, inText) <==> exists x | x in xs :: MentionsInherited(x)
    decreases xs, 0
  {
    if xs != [] {
      GarbledExact(xs[0], inText);
      ForestGarbledExact(xs[1..], inText);
      assert xs == [xs[0]] + xs[1..];
    }
  }

  ghost predicate Ready(m: Machine) {
    m.parents != [] && m.parents[|m.parents| - 1] < |m.heap|
  }

  /**
   * From `m` to `n` the innermost open parent gained the children `ats`, which hold the trees `ts`;
   * every new cell has a parent; nothing else that existed changed; `ids` are exactly the new names.
   */
  ghost predicate Built(m: Machine, n: Machine, ats: seq<nat>, ts: seq<Tree>, ids: seq<string>)
    requires Ready(m)
  {
    var top := m.parents[|m.parents| - 1];
    && n.parents == m.parents
    && |m.heap| <= |n.heap|
    && n.heap[top] == m.heap[top].(children := m.heap[top].children + ats)
    && (forall k | 0 <= k < |m.heap| && k != top :: n.heap[k] == m.heap[k])
    && (forall k | |m.heap| <= k < |n.heap| :: n.heap[k].attached)
    && HoldsAll(n, |m.heap|, ats, ts)
    && n.nodeMap.Keys == m.nodeMap.Keys + Elements(ids)
    && (forall v | v in m.nodeMap :: n.nodeMap[v] == m.nodeMap[v])
  }

  /** All of `ids` bound to the cell `e`. */
  function Named(names: map<string, nat>, ids: seq<string>, e: nat): map<string, nat>
    decreases ids
  {
    if ids == [] then names else Named(names[ids[0] := e], ids[1..], e)
  }

  lemma {:induction false} NamedExact(names: map<string, nat>, ids: seq<string>, e: nat)
    ensures Named(names, ids, e).Keys == names.Keys + Elements(ids)
    ensures forall v | v in names && v !in ids :: Named(names, ids, e)[v] == names[v]
    ensures forall v | v in ids :: Named(names, ids, e)[v] == e
    decreases ids
  {
    if ids != [] {
      NamedExact(names[ids[0] := e], ids[1..], e);
      assert ids == [ids[0]] + ids[1..];
      assert Elements(ids) == {ids[0]} + Elements(ids[1..]);
    }
  }

  lemma {:induction false} NamedAppend(names: map<string, nat>, a: seq<string>, b: seq<string>, e: nat)
    ensures Named(names, a + b, e) == Named(Named(names, a, e), b, e)
    decreases a
  {
    if a == [] {
      assert a + b == b;
    } else {
      assert (a + b)[1..] == a[1..] + b;
      NamedAppend(names[a[0] := e], a[1..], b, e);
    }
  }

  /** The machine after the element in the register received settings and names. */
  function Dressed(m: Machine, settings: seq<Setting>, ids: seq<string>): Machine
    requires m.register.Some? && m.register.value < |m.heap|
  {
    var e := m.register.value;
    m.(heap := m.heap[e := m.heap[e].(settings := m.heap[e].settings + settings)],
       nodeMap := Named(m.nodeMap, ids, e))
  }

  lemma OneAttributeRuns(a: Attribute, m: Machine, low: nat, high: nat)
    requires m.register.Some? && m.register.value < |m.heap|
    requires low <= |m.parents| <= high
    ensures Runs(AttributeCode(a), m, Dressed(m, [Meaning(a)], IdOf(a)), low, high)
  {
    var e := m.register.value;
    var n := Dressed(m, [Meaning(a)], IdOf(a));
    if a.name == "id" {
      var m1 := m.(nodeMap := m.nodeMap[a.value := e]);
      RunsStep(Bind(a.value), m, m1, low, high);
      assert IdOf(a)[1..] == [];
      assert Named(m.nodeMap, IdOf(a), e) == Named(m.nodeMap[a.value := e], [], e);
      RunsStep(Apply(Id(a.value)), m1, n, low, high);
      RunsThen([Bind(a.value)], [Apply(Id(a.value))], m, m1, n, low, high);
    } else {
      RunsStep(Apply(Meaning(a)), m, n, low, high);
    }
  }

  lemma DressedAppend(m: Machine, ss: seq<Setting>, ids: seq<string>, ss': seq<Setting>, ids': seq<string>)
    requires m.register.Some? && m.register.value < |m.heap|
    ensures Dressed(Dressed(m, ss, ids), ss', ids') == Dressed(m, ss + ss', ids + ids')
  {
    var e := m.register.value;
    NamedAppend(m.nodeMap, ids, ids', e);
    assert m.heap[e].settings + ss + ss' == m.heap[e].settings + (ss + ss');
  }

  lemma DressedNothing(m: Machine)
    requires m.register.Some? && m.register.value < |m.heap|
    ensures Dressed(m, [], []) == m
  {
    var e := m.register.value;
    assert m.heap[e].settings + [] == m.heap[e].settings;
  }

  lemma AttributesCons(attributes: seq<Attribute>)
    requires attributes != []
    ensures var a, rest := attributes[0], attributes[1..];
            && AttributesCode(attributes) == AttributeCode(a) + AttributesCode(rest)
            && Meanings(attributes) == [Meaning(a)] + Meanings(rest)
            && AttributeIds(attributes) == IdOf(a) + AttributeIds(rest)
  {
    hide AttributeCode, Meaning, IdOf;
  }

  lemma {:induction false} AttributesRun(attributes: seq<Attribute>, m: Machine, low: nat, high: nat)
    requires m.register.Some? && m.register.value < |m.heap|
    requires low <= |m.parents| <= high
    ensures Runs(AttributesCode(attributes), m, Dressed(m, Meanings(attributes), AttributeIds(attributes)), low, high)
  {
    hide Runs, Named, Meaning, AttributeCode, IdOf;
    if attributes == [] {
      RunsNothing(m, low, high);
      DressedNothing(m);
    } else {
      hide AttributesCode, Meanings, AttributeIds;
      var a, rest := attributes[0], attributes[1..];
      var m1 := Dressed(m, [Meaning(a)], IdOf(a));
      var m2 := Dressed(m1, Meanings(rest), AttributeIds(rest));
      OneAttributeRuns(a, m, low, high);
      AttributesRun(rest, m1, low, high);
      RunsThen(AttributeCode(a), AttributesCode(rest), m, m1, m2, low, high);
      DressedAppend(m, [Meaning(a)], IdOf(a), Meanings(rest), AttributeIds(rest));
      AttributesCons(attributes);
    }
  }

  // ----- Each node builds what it denotes -----

  /** The machine once the start tag of an element has run: cell created, dressed, attached and open. */
  function Entered(m: Machine, tag: string, settings: seq<Setting>, ids: seq<string>): Machine
    requires Ready(m)
  {
    var top := m.parents[|m.parents| - 1];
    With(Adopt(m, top, |m.heap|), Cell(Tag(tag), settings, [], true))
      .(parents := m.parents + [|m.heap|], nodeMap := Named(m.nodeMap, ids, |m.heap|))
  }

  lemma CreateRuns(tag: string, m: Machine, low: nat, high: nat)
    requires tag != INHERITED && low <= |m.parents| <= high
    ensures Runs([Create(CreateElementExpression(tag))], m, With(m, Cell(Tag(tag), [], [], false)), low, high)
  {
    RunsStep(Create(CreateElementExpression(tag)), m, With(m, Cell(Tag(tag), [], [], false)), low, high);
  }

  lemma EnterRuns(tag: string, attributes: seq<Attribute>, m: Machine, low: nat, high: nat)
    requires Ready(m) && tag != INHERITED && low <= |m.parents| < high
    ensures Runs([Create(CreateElementExpression(tag))] + AttributesCode(attributes) + [Append(Top), Push],
                 m, Entered(m, tag, Meanings(attributes), AttributeIds(attributes)), low, high)
  {
    hide Runs, Exec, StaysWithin, Named, CreateElementExpression, AttributesCode, Meanings, AttributeIds;
    var create, dress := [Create(CreateElementExpression(tag))], AttributesCode(attributes);
    var settings, ids := Meanings(attributes), AttributeIds(attributes);
    var m1 := With(m, Cell(Tag(tag), [], [], false));
    CreateRuns(tag, m, low, high);
    AttributesRun(attributes, m1, low, high);
    var named := m.(nodeMap := Named(m.nodeMap, ids, |m.heap|));
    var m2 := With(named, Cell(Tag(tag), settings, [], false));
    assert Dressed(m1, settings, ids) == m2 by { assert [] + settings == settings; }
    RunsThen(create, dress, m, m1, m2, low, high);
    AttachRuns(named, Cell(Tag(tag), settings, [], false), low, high);
    var m3 := With(Adopt(named, m.parents[|m.parents| - 1], |m.heap|), Cell(Tag(tag), settings, [], true));
    RunsThen(create + dress, [Append(Top)], m, m2, m3, low, high);
    var m4 := Entered(m, tag, settings, ids);
    RunsStep(Push, m3, m4, low, high);
    RunsThen(create + dress + [Append(Top)], [Push], m, m3, m4, low, high);
    assert create + dress + [Append(Top)] + [Push] == create + dress + [Append(Top), Push];
  }

  lemma AttachRuns(m: Machine, cell: Cell, low: nat, high: nat)
    requires Ready(m) && !cell.attached && low <= |m.parents| <= high
    ensures Runs([Append(Top)], With(m, cell),
                 With(Adopt(m, m.parents[|m.parents| - 1], |m.heap|), cell.(attached := true)), low, high)
  {
    AppendNewest(m, cell, m.parents[|m.parents| - 1]);
    RunsStep(Append(Top), With(m, cell), With(Adopt(m, m.parents[|m.parents| - 1], |m.heap|), cell.(attached := true)),
             low, high);
  }

  /** Closing an element whose children are built leaves one more child on the parent. */
  lemma Left(m: Machine, n: Machine, tag: string, settings: seq<Setting>, ids: seq<string>,
             cats: seq<nat>, children: seq<Tree>, inner: seq<string>)
    requires Ready(m) && Fresh(ids, m.nodeMap.Keys)
    requires forall v | Id(v) in settings :: v in ids
    requires Built(Entered(m, tag, settings, ids), n, cats, children, inner)
    ensures Built(m, n.(parents := m.parents), [|m.heap|], [Tree(Tag(tag), settings, children)], ids + inner)
  {
    var e := |m.heap|;
    var n1 := n.(parents := m.parents);
    NamedExact(m.nodeMap, ids, e);
    LeftHolds(m, n, tag, settings, ids, cats, children, inner);
    assert Elements(ids + inner) == Elements(ids) + Elements(inner);
    hide Holds, Elements;
    assert HoldsAll(n1, e, [e], [Tree(Tag(tag), settings, children)]);
  }

  lemma LeftHolds(m: Machine, n: Machine, tag: string, settings: seq<Setting>, ids: seq<string>,
                  cats: seq<nat>, children: seq<Tree>, inner: seq<string>)
    requires Ready(m) && Fresh(ids, m.nodeMap.Keys)
    requires forall v | Id(v) in settings :: v in ids
    requires Built(Entered(m, tag, settings, ids), n, cats, children, inner)
    ensures Holds(n.(parents := m.parents), |m.heap|, |m.heap|, Tree(Tag(tag), settings, children))
  {
    var e := |m.heap|;
    var n1 := n.(parents := m.parents);
    NamedExact(m.nodeMap, ids, e);
    HoldsAllKept(n, n1, e + 1, e, cats, children);
    assert n1.heap[e] == Cell(Tag(tag), settings, cats, true);
  }

  lemma BuiltParents(m: Machine, n: Machine, ats: seq<nat>, ts: seq<Tree>, ids: seq<string>)
    requires Ready(m) && Built(m, n, ats, ts, ids)
    ensures n.parents == m.parents
  {
  }

  /** Nothing built. */
  lemma BuiltNothing(m: Machine)
    requires Ready(m)
    ensures Built(m, m, [], [], [])
  {
    var top := m.parents[|m.parents| - 1];
    assert m.heap[top].children + [] == m.heap[top].children;
    assert m.nodeMap.Keys + Elements([]) == m.nodeMap.Keys;
  }

  /** Two things built one after the other. */
  lemma BuiltThen(m: Machine, n: Machine, o: Machine, ats: seq<nat>, ts: seq<Tree>, ids: seq<string>,
                  ats': seq<nat>, ts': seq<Tree>, ids': seq<string>)
    requires Ready(m) && Built(m, n, ats, ts, ids) && Ready(n) && Built(n, o, ats', ts', ids')
    ensures Built(m, o, ats + ats', ts + ts', ids + ids')
  {
    var top := m.parents[|m.parents| - 1];
    assert m.heap[top].children + ats + ats' == m.heap[top].children + (ats + ats');
    assert Elements(ids + ids') == Elements(ids) + Elements(ids');
    HoldsAllKept(n, o, |m.heap|, |m.heap|, ats, ts);
    HoldsAllKept(o, o, |n.heap|, |m.heap|, ats', ts');
  }

  /** A leaf cell, attached to the innermost open parent. */
  lemma LeafBuilt(m: Machine, kind: Kind, settings: seq<Setting>, ids: seq<string>, register: Option<nat>)
    requires Ready(m) && Fresh(ids, m.nodeMap.Keys)
    requires forall v | Id(v) in settings :: v in ids
    ensures var n := With(Adopt(m, m.parents[|m.parents| - 1], |m.heap|), Cell(kind, settings, [], true));
            Built(m, n.(nodeMap := Named(m.nodeMap, ids, |m.heap|), register := register),
                  [|m.heap|], [Tree(kind, settings, [])], ids)
  {
    NamedExact(m.nodeMap, ids, |m.heap|);
    var n := With(Adopt(m, m.parents[|m.parents| - 1], |m.heap|), Cell(kind, settings, [], true))
             .(nodeMap := Named(m.nodeMap, ids, |m.heap|), register := register);
    assert Holds(n, |m.heap|, |m.heap|, Tree(kind, settings, []));
  }

  lemma TextBuilds(text: string, inText: bool, m: Machine, low: nat, high: nat)
    returns (n: Machine, ats: seq<nat>)
    requires Ready(m) && low <= |m.parents| <= high
    ensures Runs(TextCode(text, inText), m, n, low, high)
    ensures Built(m, n, ats, Denote(Text(text), inText), [])
  {
    hide Runs, Built, AllSpace;
    if AllSpace(text) {
      n, ats := m, [];
      RunsNothing(m, low, high);
      BuiltNothing(m);
    } else {
      ats := [|m.heap|];
      if inText { n := LeafInText(text, m, low, high); } else { n := LeafInHolder(text, m, low, high); }
    }
  }

  lemma LeafInText(text: string, m: Machine, low: nat, high: nat) returns (n: Machine)
    requires Ready(m) && low <= |m.parents| <= high
    ensures Runs([AppendRaw(Top, text)], m, n, low, high)
    ensures Built(m, n, [|m.heap|], [Tree(Raw(text), [], [])], [])
  {
    hide Runs, Built;
    var top, e := m.parents[|m.parents| - 1], |m.heap|;
    var cell := Cell(Raw(text), [], [], false);
    AppendNewest(m, cell, top);
    n := With(Adopt(m, top, e), cell.(attached := true)).(register := m.register);
    RunsStep(AppendRaw(Top, text), m, n, low, high);
    LeafBuilt(m, Raw(text), [], [], m.register);
  }

  lemma LeafInHolder(text: string, m: Machine, low: nat, high: nat) returns (n: Machine)
    requires Ready(m) && low <= |m.parents| <= high
    ensures Runs([Create(Factory(CreateText)), AppendRaw(Register, text), Append(Top)], m, n, low, high)
    ensures Built(m, n, [|m.heap|], [Leaf(Tree(Raw(text), [], []), false)], [])
  {
    hide Runs, Built;
    var top, e := m.parents[|m.parents| - 1], |m.heap|;
    var cell := Cell(Raw(text), [], [], false);
    var m1 := With(m, Cell(Tag("text"), [], [], false));
    RunsStep(Create(Factory(CreateText)), m, m1, low, high);
    AppendNewest(m1, cell, e);
    var m2 := With(Adopt(m1, e, e + 1), cell.(attached := true)).(register := m1.register);
    RunsStep(AppendRaw(Register, text), m1, m2, low, high);
    RunsThen([Create(Factory(CreateText))], [AppendRaw(Register, text)], m, m1, m2, low, high);
    n := AppendCell(m2, top, e).value;
    RunsStep(Append(Top), m2, n, low, high);
    var first := [Create(Factory(CreateText))] + [AppendRaw(Register, text)];
    RunsThen(first, [Append(Top)], m, m2, n, low, high);
    assert first + [Append(Top)] == [Create(Factory(CreateText)), AppendRaw(Register, text), Append(Top)];
    assert [] + [e + 1] == [e + 1];
    assert m2.heap == m.heap + [Cell(Tag("text"), [], [e + 1], false), cell.(attached := true)];
    assert n.heap == Adopt(m, top, e).heap + [Cell(Tag("text"), [], [e + 1], true), cell.(attached := true)];
    HolderBuilt(m, n, Raw(text));
  }

  /** A text element around one leaf. */
  lemma HolderBuilt(m: Machine, n: Machine, kind: Kind)
    requires Ready(m)
    requires var e := |m.heap|;
             && n.heap == Adopt(m, m.parents[|m.parents| - 1], e).heap
                          + [Cell(Tag("text"), [], [e + 1], true), Cell(kind, [], [], true)]
             && n.parents == m.parents && n.nodeMap == m.nodeMap
    ensures Built(m, n, [|m.heap|], [Leaf(Tree(kind, [], []), false)], [])
  {
    var e := |m.heap|;
    var leaf := Tree(kind, [], []);
    assert Holds(n, e, e + 1, leaf);
    assert HoldsAll(n, e, [e + 1], [leaf]);
    assert Holds(n, e, e, Leaf(leaf, false));
  }

  /** The leaf of a raw-text element, built under the innermost open parent. */
  lemma RawLeafBuilds(text: string, ids: seq<string>, m: Machine, low: nat, high: nat) returns (n: Machine)
    requires Ready(m) && low <= |m.parents| <= high
    requires |ids| <= 1 && Fresh(ids, m.nodeMap.Keys)
    ensures Runs([CreateRaw(text)] + (if ids == [] then [] else [Bind(ids[0]), Apply(Id(ids[0]))]) + [Append(Top)],
                 m, n, low, high)
    ensures Built(m, n, [|m.heap|], [Tree(Raw(text), if ids == [] then [] else [Id(ids[0])], [])], ids)
  {
    hide Runs, Exec, StaysWithin, Built;
    var top, e := m.parents[|m.parents| - 1], |m.heap|;
    var settings := if ids == [] then [] else [Id(ids[0])];
    var dress := if ids == [] then [] else [Bind(ids[0]), Apply(Id(ids[0]))];
    var m1 := With(m, Cell(Raw(text), [], [], false));
    RunsStep(CreateRaw(text), m, m1, low, high);
    var named := m.(nodeMap := Named(m.nodeMap, ids, e));
    var m2 := With(named, Cell(Raw(text), settings, [], false));
    if ids == [] {
      assert m2 == m1;
      RunsNothing(m1, low, high);
    } else {
      assert ids == [ids[0]] && ids[1..] == [];
      OneAttributeRuns(Attribute("id", ids[0]), m1, low, high);
      assert Dressed(m1, settings, ids) == m2 by { assert [] + settings == settings; }
    }
    RunsThen([CreateRaw(text)], dress, m, m1, m2, low, high);
    AttachRuns(named, Cell(Raw(text), settings, [], false), low, high);
    n := With(Adopt(named, top, e), Cell(Raw(text), settings, [], true));
    RunsThen([CreateRaw(text)] + dress, [Append(Top)], m, m2, n, low, high);
    if ids != [] { assert ids[0] in ids; }
    LeafBuilt(m, Raw(text), settings, ids, Some(e));
  }

  lemma RawBuilds(attributes: seq<Attribute>, children: seq<XmlNode>, inText: bool, m: Machine, low: nat, high: nat)
    returns (n: Machine, ats: seq<nat>)
    requires Ready(m) && low <= |m.parents| < high
    requires Fresh(RawIds(attributes), m.nodeMap.Keys)
    ensures Runs(RawCode(attributes, children, inText), m, n, low, high)
    ensures Built(m, n, ats, Denote(Element("raw-text", attributes, children), inText), RawIds(attributes))
  {
    hide Runs, Exec, StaysWithin, Built;
    var ids, text := RawIds(attributes), RawContent(attributes, children);
    var leaf := Tree(Raw(text), if ids == [] then [] else [Id(ids[0])], []);
    var body := [CreateRaw(text)] + (if ids == [] then [] else [Bind(ids[0]), Apply(Id(ids[0]))]) + [Append(Top)];
    ats := [|m.heap|];
    if inText {
      n := RawLeafBuilds(text, ids, m, low, high);
      assert RawCode(attributes, children, inText) == body;
    } else {
      var enter := [Create(Factory(CreateText)), Append(Top), Push];
      EnterRuns("text", [], m, low, high);
      assert [Create(CreateElementExpression("text"))] + AttributesCode([]) + [Append(Top), Push] == enter;
      var m3 := Entered(m, "text", [], []);
      assert Meanings([]) == [];
      var m4 := RawLeafBuilds(text, ids, m3, low, high);
      RunsThen(enter, body, m, m3, m4, low, high);
      BuiltParents(m3, m4, [|m.heap| + 1], [leaf], ids);
      n := m4.(parents := m.parents);
      RunsStep(Pop, m4, n, low, high);
      RunsThen(enter + body, [Pop], m, m4, n, low, high);
      assert RawCode(attributes, children, inText) == enter + body + [Pop];
      Left(m, m4, "text", [], [], [|m.heap| + 1], [leaf], ids);
      assert [] + ids == ids;
    }
  }

  /** Every admissible node without the inherited tag builds exactly what it denotes. */
  lemma {:induction false} Builds(x: XmlNode, inText: bool, m: Machine, depth: nat)
    returns (n: Machine, ats: seq<nat>)
    requires Admissible(x, depth) && !MentionsInherited(x)
    requires Ready(m) && |m.parents| == depth <= MAX_DEPTH + 1
    requires Fresh(Ids(x), m.nodeMap.Keys)
    ensures Runs(Code(x, inText), m, n, depth, MAX_DEPTH + 1)
    ensures Built(m, n, ats, Denote(x, inText), Ids(x))
    decreases x, 1
  {
    var high := MAX_DEPTH + 1;
    match x
    case Text(text) =>
      n, ats := TextBuilds(text, inText, m, depth, high);
    case Element(tag, attributes, children) =>
      if tag == "raw-text" {
        n, ats := RawBuilds(attributes, children, inText, m, depth, high);
      } else {
        n := ElementBuilds(tag, attributes, children, inText, m, depth);
        ats := [|m.heap|];
      }
  }

  /** What an element that is no raw text consists of. */
  lemma ElementParts(tag: string, attributes: seq<Attribute>, children: seq<XmlNode>, inText: bool, depth: nat)
    requires var x := Element(tag, attributes, children);
             Admissible(x, depth) && !MentionsInherited(x) && tag != "raw-text"
    ensures tag != INHERITED && depth <= MAX_DEPTH
    ensures forall c | c in children :: Admissible(c, depth + 1) && !MentionsInherited(c)
    ensures var x := Element(tag, attributes, children);
            && Code(x, inText)
               == [Create(CreateElementExpression(tag))] + AttributesCode(attributes) + [Append(Top), Push]
                  + ForestCode(children, tag == "text") + [Pop]
            && Ids(x) == AttributeIds(attributes) + ForestIds(children)
            && Denote(x, inText) == [Tree(Tag(tag), Meanings(attributes), DenoteAll(children, tag == "text"))]
  {
    hide IsTagName, FORBIDDEN;
  }

  lemma RunsHigher(code: seq<Instr>, m: Machine, n: Machine, low: nat, low': nat, high: nat)
    requires Runs(code, m, n, low', high) && low <= low'
    ensures Runs(code, m, n, low, high)
  {
    StaysHigher(code, m, low, low', high);
  }

  lemma ClosedRuns(m: Machine, parents: seq<nat>, e: nat, low: nat, high: nat)
    requires m.parents == parents + [e] && low <= |parents| < high
    ensures Runs([Pop], m, m.(parents := parents), low, high)
  {
    RunsStep(Pop, m, m.(parents := parents), low, high);
  }

  lemma {:induction false} ElementBuilds(tag: string, attributes: seq<Attribute>, children: seq<XmlNode>, inText: bool,
                                         m: Machine, depth: nat)
    returns (n: Machine)
    requires var x := Element(tag, attributes, children);
             && Admissible(x, depth) && !MentionsInherited(x) && tag != "raw-text"
             && Fresh(Ids(x), m.nodeMap.Keys)
    requires Ready(m) && |m.parents| == depth
    ensures var x := Element(tag, attributes, children);
            && Runs(Code(x, inText), m, n, depth, MAX_DEPTH + 1)
            && Built(m, n, [|m.heap|], Denote(x, inText), Ids(x))
    decreases children, 1
  {
    hide Admissible, MentionsInherited, Code, Denote, Ids, Runs, Built, Named, CreateElementExpression, Fresh,
         AttributesCode, AttributeIds, Meanings, ForestCode, ForestIds, DenoteAll, Elements;
    var high := MAX_DEPTH + 1;
    var settings, ids := Meanings(attributes), AttributeIds(attributes);
    var enter := [Create(CreateElementExpression(tag))] + AttributesCode(attributes) + [Append(Top), Push];
    var body := ForestCode(children, tag == "text");
    var m1 := Entered(m, tag, settings, ids);
    ElementParts(tag, attributes, children, inText, depth);
    EnterRuns(tag, attributes, m, depth, high);
    FreshAppend(ids, ForestIds(children), m.nodeMap.Keys);
    NamedExact(m.nodeMap, ids, |m.heap|);
    var m2, cats := ForestBuilds(children, tag == "text", m1, depth + 1);
    RunsHigher(body, m1, m2, depth, depth + 1, high);
    RunsThen(enter, body, m, m1, m2, depth, high);
    BuiltParents(m1, m2, cats, DenoteAll(children, tag == "text"), ForestIds(children));
    n := m2.(parents := m.parents);
    ClosedRuns(m2, m.parents, |m.heap|, depth, high);
    RunsThen(enter + body, [Pop], m, m2, n, depth, high);
    SettingIds(attributes);
    Left(m, m2, tag, settings, ids, cats, DenoteAll(children, tag == "text"), ForestIds(children));
  }

  lemma {:induction false} ForestBuilds(xs: seq<XmlNode>, inText: bool, m: Machine, depth: nat)
    returns (n: Machine, ats: seq<nat>)
    requires forall x | x in xs :: Admissible(x, depth) && !MentionsInherited(x)
    requires Ready(m) && |m.parents| == depth <= MAX_DEPTH + 1
    requires Fresh(ForestIds(xs), m.nodeMap.Keys)
    ensures Runs(ForestCode(xs, inText), m, n, depth, MAX_DEPTH + 1)
    ensures Built(m, n, ats, DenoteAll(xs, inText), ForestIds(xs))
    decreases xs, 0
  {
    if xs == [] {
      n, ats := m, [];
      RunsNothing(m, depth, MAX_DEPTH + 1);
      BuiltNothing(m);
    } else {
      hide Admissible, MentionsInherited, Code, Ids, Denote, Runs, Fresh;
      FreshAppend(Ids(xs[0]), ForestIds(xs[1..]), m.nodeMap.Keys);
      var m1, ats1 := Builds(xs[0], inText, m, depth);
      var m2, ats2 := ForestBuilds(xs[1..], inText, m1, depth);
      RunsThen(Code(xs[0], inText), ForestCode(xs[1..], inText), m, m1, m2, depth, MAX_DEPTH + 1);
      BuiltThen(m, m1, m2, ats1, Denote(xs[0], inText), Ids(xs[0]),
                ats2, DenoteAll(xs[1..], inText), ForestIds(xs[1..]));
      n, ats := m2, ats1 + ats2;
    }
  }

  lemma {:induction false} SettingIds(attributes: seq<Attribute>)
    ensures forall v | Id(v) in Meanings(attributes) :: v in AttributeIds(attributes)
  {
    if attributes != [] {
      SettingIds(attributes[1..]);
      assert Meanings(attributes) == [Meaning(attributes[0])] + Meanings(attributes[1..]);
    }
  }

  lemma {:induction false} StaysHigher(code: seq<Instr>, m: Machine, low: nat, low': nat, high: nat)
    requires StaysWithin(code, m, low', high) && low <= low'
    ensures StaysWithin(code, m, low, high)
  {
    if code != [] && Step(code[0], m).Some? { StaysHigher(code[1..], Step(code[0], m).value, low, low', high); }
  }

  // ----- The compiler is correct -----

  /**
   * The page holds exactly the forest, every node is attached and has one place below it, and the names are exactly the
   * ids, each on its node.
   */
  ghost predicate Shows(m: Machine, forest: seq<Tree>, ids: seq<string>) {
    && m.parents == [0]
    && |m.heap| > 0
    && m.heap[0].kind == Tag("page") && m.heap[0].settings == []
    && HoldsAll(m, 1, m.heap[0].children, forest)
    && (forall k | 0 <= k < |m.heap| :: m.heap[k].attached)
    && Forested(m.heap)
    && m.nodeMap.Keys == Elements(ids)
  }

  /**
   * The emitted program builds what the fragment denotes, never leaving between 1 and 65 open parents,
   * exactly when no element is called by the inherited name; otherwise the program does not start.
   */
  lemma CompilerCorrect(source: string, xs: seq<XmlNode>)
    requires Compiles(source, Some(xs))
    ensures var code := ForestCode(xs, false);
            if exists x | x in xs :: MentionsInherited(x) then Run(code).None?
            else Run(code).Some? && Shows(Run(code).value, DenoteAll(xs, false), ForestIds(xs))
                 && StaysWithin(code, START, 1, 65)
  {
    ForestGarbledExact(xs, false);
    if !exists x | x in xs :: MentionsInherited(x) {
      var n, ats := ForestBuilds(xs, false, START, 1);
      StartOrderly();
      ExecOrderly(ForestCode(xs, false), START);
      ShowsBuilt(n, ats, DenoteAll(xs, false), ForestIds(xs));
    }
  }

  /** What is built below the page alone, in an orderly heap, is what the page shows. */
  lemma ShowsBuilt(n: Machine, ats: seq<nat>, forest: seq<Tree>, ids: seq<string>)
    requires Built(START, n, ats, forest, ids) && Orderly(n)
    ensures Shows(n, forest, ids)
  {
    assert [] + ats == ats;
    hide HoldsAll, Forested;
  }

  lemma OneElement(tag: string)
    requires tag != "raw-text"
    ensures var x := Element(tag, [], []);
            ForestIds([x]) == [] && DenoteAll([x], false) != []
  {
    hide Meanings;
    var x := Element(tag, [], []);
    assert DenoteAll([x], false) == Denote(x, false) + DenoteAll([], false);
    assert Ids(x) == [] && ForestIds([x]) == Ids(x) + ForestIds([]);
  }

  lemma TagsAreVisible(rest: string)
    ensures !AllSpace("<" + rest)
  {
    assert '<' in "<" + rest;
  }

  lemma InheritedElement()
    ensures var x := Element(INHERITED, [], []);
            Admissible(x, 1) && MentionsInherited(x) && INHERITED != "raw-text"
  {
    assert INHERITED[0] == 'c';
    hide MAX_DEPTH;
  }

  /** A one-element fragment that compiles to a program that does not start. */
  lemma InheritedNameBreaks()
    ensures var xs := [Element(INHERITED, [], [])];
            Compiles("<constructor/>", Some(xs)) && Run(ForestCode(xs, false)).None?
  {
    hide Admissible, AllSpace, DenoteAll, ForestIds, ForestCode, MentionsInherited, CreateElementExpression, INHERITED,
         Exec;
    var x := Element(INHERITED, [], []);
    InheritedElement();
    OneElement(INHERITED);
    TagsAreVisible("constructor/>");
    assert "<constructor/>" == "<" + "constructor/>";
    assert x in [x];
    ForestGarbledExact([x], false);
  }
}
