/** What a compiled fragment must show and name, told from the markup alone. */
module FragmentMeaning {
  import opened Text
  import opened XmlFragment
  import opened FragmentCompiler

  // ----- Class names -----

  /** A word of the text: no white space in it, and on each side white space or an end of the text. */
  ghost predicate IsWord(v: string, w: string) {
    exists i: nat, j: nat :: WordAt(v, w, i, j)
  }

  predicate WordAt(v: string, w: string, i: nat, j: nat) {
    && i < j <= |v| && w == v[i..j]
    && (forall c | c in w :: !IsSpace(c))
    && (i == 0 || IsSpace(v[i - 1])) && (j == |v| || IsSpace(v[j]))
  }

  lemma SpacesAt(s: string, from: nat, to: nat)
    requires from <= to <= |s| && AllSpace(s[from..to])
    ensures forall k | from <= k < to :: IsSpace(s[k])
  {
    hide IsSpace;
    forall k | from <= k < to ensures IsSpace(s[k]) { assert s[from..to][k - from] == s[k]; }
  }

  lemma SolidsAt(s: string, from: nat, to: nat)
    requires from <= to <= |s| && forall c | c in s[from..to] :: !IsSpace(c)
    ensures forall k | from <= k < to :: !IsSpace(s[k])
  {
    hide IsSpace;
    forall k | from <= k < to ensures !IsSpace(s[k]) { assert s[from..to][k - from] == s[k]; }
  }

  /** A word lies behind leading white space, and is the first one or behind it. */
  lemma WordPlace(s: string, w: string, i: nat, j: nat, start: nat, end: nat)
    requires WordAt(s, w, i, j) && start < end <= |s| && AllSpace(s[0..start])
    requires (forall c | c in s[start..end] :: !IsSpace(c)) && (end < |s| ==> IsSpace(s[end]))
    ensures (i == start && j == end) || (end < i)
  {
    hide IsSpace, AllSpace;
    SpacesAt(s, 0, start);
    SolidsAt(s, start, end);
    SolidsAt(s, i, j);
    assert !IsSpace(s[i]) && !IsSpace(s[start]);
    assert i > start ==> IsSpace(s[i - 1]);
    assert j < |s| ==> IsSpace(s[j]);
  }

  lemma WordShifted(s: string, w: string, end: nat, i: nat, j: nat)
    requires 0 < end < i < j <= |s|
    ensures WordAt(s, w, i, j) <==> WordAt(s[end..], w, i - end, j - end)
  {
    hide IsSpace;
    assert s[end..][i - end..j - end] == s[i..j];
  }

  lemma WordsFirst(s: string, w: string, start: nat, end: nat)
    requires start < end <= |s| && AllSpace(s[0..start])
    requires (forall c | c in s[start..end] :: !IsSpace(c)) && (end < |s| ==> IsSpace(s[end]))
    ensures IsWord(s, w) <==> w == s[start..end] || IsWord(s[end..], w)
  {
    hide IsSpace, AllSpace, WordAt;
    if i: nat, j: nat :| WordAt(s, w, i, j) {
      WordPlace(s, w, i, j, start, end);
      WordInside(s, w, i, j);
      if end < i { WordShifted(s, w, end, i, j); }
    }
    if i: nat, j: nat :| WordAt(s[end..], w, i, j) {
      WordBehind(s, w, end, i, j);
      WordShifted(s, w, end, end + i, end + j);
    }
    WordAlone(s, start, end);
  }

  lemma WordInside(s: string, w: string, i: nat, j: nat)
    requires WordAt(s, w, i, j)
    ensures i < j <= |s| && w == s[i..j]
  {
  }

  lemma WordBehind(s: string, w: string, end: nat, i: nat, j: nat)
    requires end <= |s| && (end < |s| ==> IsSpace(s[end])) && WordAt(s[end..], w, i, j)
    ensures 0 < i < j <= |s| - end
  {
    SolidsAt(s[end..], i, j);
    hide IsSpace;
    assert s[end..][i] == s[end + i];
  }

  lemma WordAlone(s: string, start: nat, end: nat)
    requires start < end <= |s| && AllSpace(s[0..start])
    requires (forall c | c in s[start..end] :: !IsSpace(c)) && (end < |s| ==> IsSpace(s[end]))
    ensures WordAt(s, s[start..end], start, end)
  {
    SpacesAt(s, 0, start);
    hide IsSpace, AllSpace;
  }

  lemma NoWord(s: string, w: string)
    requires AllSpace(s)
    ensures !IsWord(s, w)
  {
    assert s[0..|s|] == s;
    SpacesAt(s, 0, |s|);
    forall i: nat, j: nat ensures !WordAt(s, w, i, j) {
      if i < |s| {
        assert IsSpace(s[i]);
        if WordAt(s, w, i, j) { SolidsAt(s, i, j); }
      }
    }
  }

  lemma {:induction false} WordsExact(s: string, w: string)
    ensures w in Words(s) <==> IsWord(s, w)
    decreases |s|
  {
    hide IsSpace, AllSpace, IsWord, SkipSpace, WordEnd;
    var start := SkipSpace(s, 0);
    if start == |s| {
      assert s[0..start] == s;
      NoWord(s, w);
    } else {
      var end := WordEnd(s, start);
      WordsFirst(s, w, start, end);
      WordsExact(s[end..], w);
    }
  }

  /** Some element other than `raw-text`, at any depth, has the word in a `class` attribute. */
  ghost predicate Wears(x: XmlNode, w: string) {
    x.Element? && x.tag != "raw-text"
    && ((exists a | a in x.attributes :: a.name == "class" && IsWord(a.value, w))
        || exists c | c in x.children :: Wears(c, w))
  }

  lemma {:induction false} AttributeClassesExact(attributes: seq<Attribute>, w: string)
    ensures w in AttributeClasses(attributes) <==> exists a | a in attributes :: a.name == "class" && IsWord(a.value, w)
  {
    hide IsWord, Words;
    if attributes != [] {
      AttributeClassesExact(attributes[1..], w);
      WordsExact(attributes[0].value, w);
      assert attributes == [attributes[0]] + attributes[1..];
    }
  }

  lemma {:induction false} ClassNamesExact(x: XmlNode, w: string)
    ensures w in ClassNames(x) <==> Wears(x, w)
    decreases x, 1
  {
    hide IsWord, AttributeClasses;
    if x.Element? && x.tag != "raw-text" {
      AttributeClassesExact(x.attributes, w);
      ForestClassNamesExact(x.children, w);
    }
  }

  lemma {:induction false} ForestClassNamesExact(xs: seq<XmlNode>, w: string)
    ensures w in ForestClassNames(xs) <==> exists x | x in xs :: Wears(x, w)
    decreases xs, 0
  {
    hide Wears, ClassNames;
    if xs != [] {
      ClassNamesExact(xs[0], w);
      ForestClassNamesExact(xs[1..], w);
      assert xs == [xs[0]] + xs[1..];
    }
  }

  // ----- Names -----

  /** Some element, at any depth, has the name for an `id`. */
  predicate Carries(x: XmlNode, id: string) {
    x.Element?
    && (if x.tag == "raw-text" then Lookup(x.attributes, "id") == Some(id)
        else Attribute("id", id) in x.attributes || exists c | c in x.children :: Carries(c, id))
  }

  lemma {:induction false} AttributeIdsExact(attributes: seq<Attribute>, id: string)
    ensures id in AttributeIds(attributes) <==> Attribute("id", id) in attributes
  {
    if attributes != [] {
      AttributeIdsExact(attributes[1..], id);
      assert attributes == [attributes[0]] + attributes[1..];
    }
  }

  lemma {:induction false} IdsExact(x: XmlNode, id: string)
    ensures id in Ids(x) <==> Carries(x, id)
    decreases x, 1
  {
    if x.Element? && x.tag != "raw-text" {
      AttributeIdsExact(x.attributes, id);
      ForestIdsExact(x.children, id);
    }
  }

  lemma {:induction false} ForestIdsExact(xs: seq<XmlNode>, id: string)
    ensures id in ForestIds(xs) <==> exists x | x in xs :: Carries(x, id)
    decreases xs, 0
  {
    hide Ids, Carries;
    if xs != [] {
      IdsExact(xs[0], id);
      ForestIdsExact(xs[1..], id);
      assert xs == [xs[0]] + xs[1..];
    }
  }

  /** What a compiled fragment offers to the style sheet and to the script: exactly its class tokens and its ids. */
  lemma NamesExact(source: string, parsed: Option<seq<XmlNode>>, g: Generated)
    requires Generate(source, parsed) == Ok(g)
    ensures parsed.Some?
    ensures forall w :: w in g.classNames <==> exists x | x in parsed.value :: Wears(x, w)
    ensures forall id :: id in g.bindings <==> exists x | x in parsed.value :: Carries(x, id)
    ensures Distinct(g.bindings)
  {
    GenerateExact(source, parsed);
    hide Wears, Carries, ForestFault, ForestCode, AllSpace, DenoteAll, Admissible;
    forall w ensures w in g.classNames <==> exists x | x in parsed.value :: Wears(x, w) {
      ForestClassNamesExact(parsed.value, w);
    }
    forall id ensures id in g.bindings <==> exists x | x in parsed.value :: Carries(x, id) {
      ForestIdsExact(parsed.value, id);
    }
  }

  // ----- Reading the forest back as markup -----

  /** The literal markup a setting was made from. */
  function SourceOf(setting: Setting): Attribute {
    match setting
    case Classes(value) => Attribute("class", value)
    case Id(value) => Attribute("id", value)
    case Style(value) => Attribute("style", value)
    case Dataset(name, value) => Attribute("data-" + name, value)
    case Plain(name, value) => Attribute(name, value)
  }

  function SourcesOf(settings: seq<Setting>): (r: seq<Attribute>)
    ensures |r| == |settings| && forall i | 0 <= i < |r| :: r[i] == SourceOf(settings[i])
  {
    seq(|settings|, i requires 0 <= i < |settings| => SourceOf(settings[i]))
  }

  /** A leaf reads as a `raw-text` element with the text in it. */
  function Markup(t: Tree): XmlNode {
    match t.kind
    case Tag(tag) => Element(tag, SourcesOf(t.settings), MarkupAll(t.children))
    case Raw(text) => Element("raw-text", SourcesOf(t.settings), [XmlNode.Text(text)])
  }

  function MarkupAll(ts: seq<Tree>): seq<XmlNode> {
    if ts == [] then [] else [Markup(ts[0])] + MarkupAll(ts[1..])
  }

  /** A line of text: bare inside `text`, elsewhere in a `text` element of its own. */
  function Line(text: string, id: Option<string>, inText: bool): XmlNode {
    var leaf := Element("raw-text", if id.Some? then [Attribute("id", id.value)] else [], [XmlNode.Text(text)]);
    if inText then leaf else Element("text", [], [leaf])
  }

  /** The texts of a list of nodes, one behind the other. */
  function Written(xs: seq<XmlNode>): string {
    if xs == [] then "" else (if xs[0].Text? then xs[0].text else "") + Written(xs[1..])
  }

  /** The same markup without blank text, with every text spelled as `raw-text` where it is shown. */
  function Canonical(x: XmlNode, inText: bool): seq<XmlNode>
    decreases x, 1
  {
    match x
    case Text(text) => if forall c | c in text :: IsSpace(c) then [] else [Line(text, None, inText)]
    case Unsupported => []
    case Element(tag, attributes, children) =>
      if tag != "raw-text" then [Element(tag, attributes, Canonicals(children, tag == "text"))]
      else
        var text := Lookup(attributes, "text");
        [Line(if text.Some? then text.value else Written(children), Lookup(attributes, "id"), inText)]
  }

  function Canonicals(xs: seq<XmlNode>, inText: bool): seq<XmlNode>
    decreases xs, 0
  {
    if xs == [] then [] else Canonical(xs[0], inText) + Canonicals(xs[1..], inText)
  }

  /** No attribute is lost or changed by becoming a setting. */
  lemma AttributesRecovered(attributes: seq<Attribute>)
    ensures SourcesOf(Meanings(attributes)) == attributes
  {
    forall i | 0 <= i < |attributes| ensures SourceOf(Meaning(attributes[i])) == attributes[i] {
      AttributeRecovered(attributes[i]);
    }
  }

  lemma AttributeRecovered(a: Attribute)
    ensures SourceOf(Meaning(a)) == a
  {
    if "data-" <= a.name { assert "data-" + a.name[5..] == a.name; }
  }

  lemma MarkupCons(x: Tree, rest: seq<Tree>)
    ensures MarkupAll([x] + rest) == [Markup(x)] + MarkupAll(rest)
  {
    hide Markup;
    assert ([x] + rest)[1..] == rest;
  }

  lemma {:induction false} MarkupJoin(a: seq<Tree>, b: seq<Tree>)
    ensures MarkupAll(a + b) == MarkupAll(a) + MarkupAll(b)
  {
    hide Markup, MarkupAll;
    if a == [] {
      NoMarkup();
      assert a + b == b;
    } else {
      MarkupJoin(a[1..], b);
      assert a == [a[0]] + a[1..] && a + b == [a[0]] + (a[1..] + b);
      MarkupCons(a[0], a[1..]);
      MarkupCons(a[0], a[1..] + b);
    }
  }

  lemma NoMarkup()
    ensures MarkupAll([]) == []
  {
  }

  lemma {:induction false} BodyWritten(children: seq<XmlNode>)
    requires forall c | c in children :: c.Text?
    ensures RawBody(children) == Some(Written(children))
  {
    if children != [] {
      assert children[0] in children;
      BodyWritten(children[1..]);
    }
  }

  lemma LeafMarkup(text: string, id: Option<string>, inText: bool)
    ensures var settings := if id.Some? then [Id(id.value)] else [];
            MarkupAll([Leaf(Tree(Raw(text), settings, []), inText)]) == [Line(text, id, inText)]
  {
    var settings := if id.Some? then [Id(id.value)] else [];
    var leaf := Tree(Raw(text), settings, []);
    assert SourcesOf(settings) == if id.Some? then [Attribute("id", id.value)] else [];
    assert [leaf][1..] == [] && SourcesOf([]) == [];
    assert MarkupAll([leaf]) == [Markup(leaf)];
    var shown := Leaf(leaf, inText);
    assert [shown][1..] == [];
  }

  /** What an accepted node denotes reads back as its own markup: nothing but blank text is dropped, nothing added. */
  lemma {:induction false} DenotedMarkup(x: XmlNode, inText: bool, depth: nat)
    requires Admissible(x, depth)
    ensures MarkupAll(Denote(x, inText)) == Canonical(x, inText)
    decreases x, 1
  {
    match x
    case Text(text) => LeafMarkup(text, None, inText);
    case Element(tag, attributes, children) =>
      if tag == "raw-text" {
        BodyWritten(children);
        var text := Lookup(attributes, "text");
        LeafMarkup(RawContent(attributes, children), Lookup(attributes, "id"), inText);
      } else {
        ForestMarkup(children, tag == "text", depth + 1);
        AttributesRecovered(attributes);
        var t := Tree(Tag(tag), Meanings(attributes), DenoteAll(children, tag == "text"));
        assert [t][1..] == [];
      }
  }

  lemma {:induction false} ForestMarkup(xs: seq<XmlNode>, inText: bool, depth: nat)
    requires forall x | x in xs :: Admissible(x, depth)
    ensures MarkupAll(DenoteAll(xs, inText)) == Canonicals(xs, inText)
    decreases xs, 0
  {
    hide Denote, Canonical, Admissible;
    if xs != [] {
      DenotedMarkup(xs[0], inText, depth);
      ForestMarkup(xs[1..], inText, depth);
      MarkupJoin(Denote(xs[0], inText), DenoteAll(xs[1..], inText));
    }
  }
}
