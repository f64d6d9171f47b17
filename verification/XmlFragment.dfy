/**
 * The parsed XML fragment: its shape, the conditions under which it is accepted,
 * and the element forest it denotes.
 */
module XmlFragment {
  import opened Text

  datatype Attribute = Attribute(name: string, value: string)

  /** One record of the ordered parse. `Unsupported` is a record without exactly one entry besides its attributes. */
  datatype XmlNode =
    | Text(text: string)
    | Element(tag: string, attributes: seq<Attribute>, children: seq<XmlNode>)
    | Unsupported

  datatype Error =
    | EmptyFragment
    | FragmentTooLong
    | InvalidXml
    | UnsupportedNode
    | TooDeep
    | UnsupportedElement(tag: string)
    | ForbiddenElement(tag: string)
    | DuplicateId(id: string)
    | RawTextChild
    | RawTextBoth
    | RawTextAttribute(name: string)
    | NoVisibleContent

  const MAX_DEPTH: nat := 64
  const MAX_LENGTH: nat := 100_000
  const FORBIDDEN := {"lynx", "page", "script", "style"}

  /** `/^[a-z][a-z0-9-]*$/` */
  predicate IsTagName(tag: string) {
    && tag != ""
    && 'a' <= tag[0] <= 'z'
    && forall c | c in tag :: 'a' <= c <= 'z' || '0' <= c <= '9' || c == '-'
  }

  function Lookup(attributes: seq<Attribute>, name: string): (value: Option<string>) {
    if attributes == [] then None
    else if attributes[0].name == name then Some(attributes[0].value)
    else Lookup(attributes[1..], name)
  }

  lemma TagNameExact(tag: string)
    ensures IsTagName(tag)
       <==> exists first, rest ::
              && tag == [first] + rest && 'a' <= first <= 'z'
              && forall c | c in rest :: c == '-' || '0' <= c <= '9' || 'a' <= c <= 'z'
  {
    if IsTagName(tag) {
      assert tag == [tag[0]] + tag[1..];
      assert forall c | c in tag[1..] :: c in tag;
    }
  }

  /** The first attribute of the name is looked up. */
  lemma {:induction false} LookupExact(attributes: seq<Attribute>, name: string, value: string)
    ensures Lookup(attributes, name) == Some(value)
       <==> exists k :: 0 <= k < |attributes| && attributes[k] == Attribute(name, value)
                        && forall j | 0 <= j < k :: attributes[j].name != name
  {
    if attributes != [] {
      var rest := attributes[1..];
      LookupExact(rest, name, value);
      assert forall k | 0 <= k < |rest| :: rest[k] == attributes[k + 1];
      assert forall k | 0 < k < |attributes| :: attributes[k] == rest[k - 1];
    }
  }

  /** The text inside `<raw-text>`, or None when a child is not literal text. */
  function RawBody(children: seq<XmlNode>): Option<string> {
    if children == [] then Some("")
    else
      var rest := RawBody(children[1..]);
      if children[0].Text? && rest.Some? then Some(children[0].text + rest.value) else None
  }

  /** What `<raw-text>` shows: its `text` attribute when it has one, else its body. */
  function RawContent(attributes: seq<Attribute>, children: seq<XmlNode>): string {
    var body := RawBody(children);
    var text := Lookup(attributes, "text");
    if text.Some? then text.value else if body.Some? then body.value else ""
  }

  function FirstUnsupported(attributes: seq<Attribute>): (name: Option<string>)
    ensures name.None? <==> forall a | a in attributes :: a.name in {"text", "id"}
  {
    if attributes == [] then None
    else if attributes[0].name !in {"text", "id"} then Some(attributes[0].name)
    else FirstUnsupported(attributes[1..])
  }

  function IdOf(a: Attribute): seq<string> {
    if a.name == "id" then [a.value] else []
  }

  function AttributeIds(attributes: seq<Attribute>): seq<string> {
    if attributes == [] then [] else IdOf(attributes[0]) + AttributeIds(attributes[1..])
  }

  function RawIds(attributes: seq<Attribute>): seq<string> {
    var id := Lookup(attributes, "id");
    if id.Some? then [id.value] else []
  }

  /** The explicit ids of a node in document order. */
  function Ids(x: XmlNode): seq<string> {
    match x
    case Text(_) => []
    case Unsupported => []
    case Element(tag, attributes, children) =>
      if tag == "raw-text" then RawIds(attributes)
      else AttributeIds(attributes) + ForestIds(children)
  }

  function ForestIds(xs: seq<XmlNode>): seq<string> {
    if xs == [] then [] else Ids(xs[0]) + ForestIds(xs[1..])
  }

  // ----- Which fragments are accepted -----

  predicate RawAdmissible(attributes: seq<Attribute>, children: seq<XmlNode>) {
    && (forall c | c in children :: c.Text?)
    && (forall a | a in attributes :: a.name in {"text", "id"})
    && (Lookup(attributes, "text").None? || forall c | c in children :: c.Text? && AllSpace(c.text))
  }

  /** Every element of the node, sitting at the given nesting depth, is allowed where it stands. */
  predicate Admissible(x: XmlNode, depth: nat) {
    match x
    case Text(_) => true
    case Unsupported => false
    case Element(tag, attributes, children) =>
      && depth <= MAX_DEPTH
      && IsTagName(tag)
      && tag !in FORBIDDEN
      && (if tag == "raw-text" then RawAdmissible(attributes, children)
          else forall c | c in children :: Admissible(c, depth + 1))
  }

  // ----- The first fault met in document order -----

  function IdFault(a: Attribute, seen: set<string>): (fault: Option<Error>) {
    if a.name == "id" && a.value in seen then Some(DuplicateId(a.value)) else None
  }

  function AttributeFault(attributes: seq<Attribute>, seen: set<string>): (fault: Option<Error>) {
    if attributes == [] then None
    else
      var fault := IdFault(attributes[0], seen);
      if fault.Some? then fault else AttributeFault(attributes[1..], seen + Elements(IdOf(attributes[0])))
  }

  function RawFault(attributes: seq<Attribute>, children: seq<XmlNode>, seen: set<string>): (fault: Option<Error>) {
    var body := RawBody(children);
    if body.None? then Some(RawTextChild)
    else if Lookup(attributes, "text").Some? && Trim(body.value) != "" then Some(RawTextBoth)
    else
      var unsupported := FirstUnsupported(attributes);
      var id := Lookup(attributes, "id");
      if unsupported.Some? then Some(RawTextAttribute(unsupported.value))
      else if id.Some? && id.value in seen then Some(DuplicateId(id.value))
      else None
  }

  function Fault(x: XmlNode, depth: nat, seen: set<string>): (fault: Option<Error>)
    decreases x, 1
  {
    match x
    case Text(_) => None
    case Unsupported => Some(UnsupportedNode)
    case Element(tag, attributes, children) =>
      if depth > MAX_DEPTH then Some(TooDeep)
      else if !IsTagName(tag) then Some(UnsupportedElement(tag))
      else if tag in FORBIDDEN then Some(ForbiddenElement(tag))
      else if tag == "raw-text" then RawFault(attributes, children, seen)
      else
        var fault := AttributeFault(attributes, seen);
        if fault.Some? then fault
        else ForestFault(children, depth + 1, seen + Elements(AttributeIds(attributes)))
  }

  function ForestFault(xs: seq<XmlNode>, depth: nat, seen: set<string>): (fault: Option<Error>)
    decreases xs, 0
  {
    if xs == [] then None
    else
      var fault := Fault(xs[0], depth, seen);
      if fault.Some? then fault else ForestFault(xs[1..], depth, seen + Elements(Ids(xs[0])))
  }

  function Elements(s: seq<string>): set<string> {
    set x | x in s
  }

  predicate Fresh(ids: seq<string>, seen: set<string>) {
    Distinct(ids) && forall id | id in ids :: id !in seen
  }

  lemma FreshAppend(a: seq<string>, b: seq<string>, seen: set<string>)
    ensures Fresh(a + b, seen) <==> Fresh(a, seen) && Fresh(b, seen + Elements(a))
  {
    DistinctAppend(a, b);
    if Fresh(a, seen) && Fresh(b, seen + Elements(a)) {
      forall id | id in a + b ensures id !in seen { assert id in a || id in b; }
      forall x | x in a ensures x !in b { assert x in Elements(a); }
    } else if Fresh(a + b, seen) {
      forall id | id in a ensures id !in seen { assert id in a + b; }
      forall id | id in b ensures id !in seen + Elements(a) { assert id in a + b; }
    }
  }

  lemma {:induction false} AttributeFaultExact(attributes: seq<Attribute>, seen: set<string>)
    ensures AttributeFault(attributes, seen).None? <==> Fresh(AttributeIds(attributes), seen)
  {
    if attributes != [] {
      var ids := IdOf(attributes[0]);
      FreshAppend(ids, AttributeIds(attributes[1..]), seen);
      if ids != [] { assert ids[0] in ids; }
      AttributeFaultExact(attributes[1..], seen + Elements(ids));
    }
  }

  lemma {:induction false} RawBodyExact(children: seq<XmlNode>)
    ensures RawBody(children).Some? <==> forall c | c in children :: c.Text?
    ensures RawBody(children).Some? ==>
              (AllSpace(RawBody(children).value) <==> forall c | c in children :: c.Text? && AllSpace(c.text))
  {
    if children != [] {
      RawBodyExact(children[1..]);
      assert children == [children[0]] + children[1..];
      var body := RawBody(children);
      if body.Some? {
        var tail := RawBody(children[1..]).value;
        assert body.value == children[0].text + tail;
        assert AllSpace(body.value) <==> AllSpace(children[0].text) && AllSpace(tail);
      }
    }
  }

  lemma RawFaultExact(attributes: seq<Attribute>, children: seq<XmlNode>, seen: set<string>)
    ensures RawFault(attributes, children, seen).None?
       <==> RawAdmissible(attributes, children) && Fresh(RawIds(attributes), seen)
  {
    RawBodyExact(children);
    if RawBody(children).Some? { TrimEmpty(RawBody(children).value); }
    var id := Lookup(attributes, "id");
    if id.Some? { assert id.value in RawIds(attributes); }
  }

  /** A node is accepted exactly when it is admissible and brings only new ids. */
  lemma {:induction false} FaultExact(x: XmlNode, depth: nat, seen: set<string>)
    ensures Fault(x, depth, seen).None? <==> Admissible(x, depth) && Fresh(Ids(x), seen)
    decreases x, 1
  {
    match x
    case Text(_) =>
    case Unsupported =>
    case Element(tag, attributes, children) =>
      if tag == "raw-text" {
        RawFaultExact(attributes, children, seen);
      } else {
        AttributeFaultExact(attributes, seen);
        ForestFaultExact(children, depth + 1, seen + Elements(AttributeIds(attributes)));
        FreshAppend(AttributeIds(attributes), ForestIds(children), seen);
      }
  }

  lemma {:induction false} ForestFaultExact(xs: seq<XmlNode>, depth: nat, seen: set<string>)
    ensures ForestFault(xs, depth, seen).None?
       <==> (forall x | x in xs :: Admissible(x, depth)) && Fresh(ForestIds(xs), seen)
    decreases xs, 0
  {
    if xs != [] {
      FaultExact(xs[0], depth, seen);
      ForestFaultExact(xs[1..], depth, seen + Elements(Ids(xs[0])));
      FreshAppend(Ids(xs[0]), ForestIds(xs[1..]), seen);
      assert xs == [xs[0]] + xs[1..];
    }
  }

  // ----- What a fragment means -----

  /** One piece of literal markup an element carries. */
  datatype Setting =
    | Classes(value: string)
    | Id(value: string)
    | Style(value: string)
    | Dataset(name: string, value: string)
    | Plain(name: string, value: string)

  datatype Kind = Tag(name: string) | Raw(text: string)

  datatype Tree = Tree(kind: Kind, settings: seq<Setting>, children: seq<Tree>)

  function Meaning(a: Attribute): Setting {
    if a.name == "class" then Classes(a.value)
    else if a.name == "id" then Id(a.value)
    else if a.name == "style" then Style(a.value)
    else if "data-" <= a.name && |a.name| > 5 then Dataset(a.name[5..], a.value)
    else Plain(a.name, a.value)
  }

  function Meanings(attributes: seq<Attribute>): (r: seq<Setting>)
    ensures |r| == |attributes|
    ensures forall i | 0 <= i < |r| :: r[i] == Meaning(attributes[i])
  {
    seq(|attributes|, i requires 0 <= i < |attributes| => Meaning(attributes[i]))
  }

  /** A text leaf stands alone only inside `<text>`; anywhere else it gets a text element of its own. */
  function Leaf(leaf: Tree, inText: bool): Tree {
    if inText then leaf else Tree(Tag("text"), [], [leaf])
  }

  /** The trees a node contributes to its parent. */
  function Denote(x: XmlNode, inText: bool): seq<Tree> {
    match x
    case Text(text) => if AllSpace(text) then [] else [Leaf(Tree(Raw(text), [], []), inText)]
    case Unsupported => []
    case Element(tag, attributes, children) =>
      if tag == "raw-text" then
        var ids := RawIds(attributes);
        var settings := if ids == [] then [] else [Id(ids[0])];
        [Leaf(Tree(Raw(RawContent(attributes, children)), settings, []), inText)]
      else [Tree(Tag(tag), Meanings(attributes), DenoteAll(children, tag == "text"))]
  }

  function DenoteAll(xs: seq<XmlNode>, inText: bool): seq<Tree> {
    if xs == [] then [] else Denote(xs[0], inText) + DenoteAll(xs[1..], inText)
  }
}
