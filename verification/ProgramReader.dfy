/** Reading a generated program back from its text: the text says exactly the instructions it was made from. */
module ProgramReader {
  import opened Text
  import opened XmlFragment
  import opened ElementMachine
  import opened FragmentCompiler
  import opened ScriptLiterals
  import opened FragmentScript

  // ----- A literal in front of other text -----

  /** What a literal's body says, and the text behind its closing quote. */
  function TakeBody(s: string): (r: Option<(string, string)>)
    ensures r.Some? ==> |r.value.1| < |s|
    decreases |s|
  {
    if s == "" || s[0] == '\n' || s[0] == '\r' then None
    else if s[0] == '\"' then Some(("", s[1..]))
    else if s[0] != '\\' then InFront([s[0]], TakeBody(s[1..]))
    else
      var escape := ReadEscape(s[1..]);
      if escape.None? then None
      else InFront([escape.value.0], TakeBody(s[1 + escape.value.1..]))
  }

  function InFront(head: string, r: Option<(string, string)>): Option<(string, string)> {
    if r.None? then None else Some((head + r.value.0, r.value.1))
  }

  function TakeLiteral(s: string): (r: Option<(string, string)>)
    ensures r.Some? ==> |r.value.1| < |s|
  {
    if s != "" && s[0] == '\"' then TakeBody(s[1..]) else None
  }

  /** More text behind an escape does not change it. */
  lemma EscapeAnywhere(s: string, rest: string)
    requires ReadEscape(s).Some?
    ensures ReadEscape(s + rest) == ReadEscape(s)
  {
  }

  /** Whatever is read as a whole literal is taken from in front of any text. */
  lemma {:induction false} TakeReads(s: string, rest: string)
    requires ReadBody(s).Some?
    ensures TakeBody(s + rest) == Some((ReadBody(s).value, rest))
    decreases |s|
  {
    hide ReadEscape;
    var t := s + rest;
    if s[0] == '\"' {
      assert t[1..] == rest;
    } else if s[0] != '\\' {
      TakeReads(s[1..], rest);
      assert t[1..] == s[1..] + rest;
    } else {
      var n := 1 + ReadEscape(s[1..]).value.1;
      TakeReads(s[n..], rest);
      TakeEscape(s, rest, n);
    }
  }

  lemma TakeEscape(s: string, rest: string, n: nat)
    requires s != "" && s[0] == '\\' && ReadEscape(s[1..]).Some? && n == 1 + ReadEscape(s[1..]).value.1
    ensures n <= |s|
    ensures TakeBody(s + rest) == InFront([ReadEscape(s[1..]).value.0], TakeBody(s[n..] + rest))
  {
    var t := s + rest;
    EscapeAnywhere(s[1..], rest);
    assert t[1..] == s[1..] + rest;
    hide ReadEscape;
    assert t[n..] == s[n..] + rest;
  }

  lemma LiteralTaken(value: string, rest: string)
    ensures TakeLiteral(JavascriptString(value) + rest) == Some((value, rest))
  {
    hide JavascriptString, ReadBody, TakeBody;
    LiteralRoundTrip(value);
    var s := JavascriptString(value);
    TakeReads(s[1..], rest);
    assert (s + rest)[1..] == s[1..] + rest;
  }

  // ----- Lines with literals in them -----

  datatype Token = Fixed(text: string) | Hole

  function Holes(tokens: seq<Token>): nat {
    if tokens == [] then 0 else (if tokens[0].Hole? then 1 else 0) + Holes(tokens[1..])
  }

  /** The pieces of a line, with the literals of the values in the holes. */
  function Fitted(tokens: seq<Token>, values: seq<string>): seq<string>
    requires |values| == Holes(tokens)
  {
    if tokens == [] then []
    else if tokens[0].Hole? then [JavascriptString(values[0])] + Fitted(tokens[1..], values[1..])
    else [tokens[0].text] + Fitted(tokens[1..], values)
  }

  /** The values in the holes, and the text behind the line. */
  function Take(tokens: seq<Token>, s: string): (r: Option<(seq<string>, string)>)
    ensures r.Some? ==> |r.value.0| == Holes(tokens) && |r.value.1| <= |s|
    decreases tokens
  {
    if tokens == [] then Some(([], s))
    else
      match tokens[0]
      case Fixed(text) => if At(s, text, 0) then Take(tokens[1..], s[|text|..]) else None
      case Hole =>
        var literal := TakeLiteral(s);
        if literal.None? then None
        else
          var more := Take(tokens[1..], literal.value.1);
          if more.None? then None else Some(([literal.value.0] + more.value.0, more.value.1))
  }

  lemma {:induction false} FittedTaken(tokens: seq<Token>, values: seq<string>, rest: string)
    requires |values| == Holes(tokens)
    ensures Take(tokens, Glue(Fitted(tokens, values)) + rest) == Some((values, rest))
    decreases tokens
  {
    hide JavascriptString, TakeLiteral;
    if tokens == [] {
      assert "" + rest == rest && values == [];
    } else if tokens[0].Hole? {
      var literal, more := JavascriptString(values[0]), Fitted(tokens[1..], values[1..]);
      FittedTaken(tokens[1..], values[1..], rest);
      GlueCons(literal, more, rest);
      LiteralTaken(values[0], Glue(more) + rest);
      assert [values[0]] + values[1..] == values;
    } else {
      var text, more := tokens[0].text, Fitted(tokens[1..], values);
      FittedTaken(tokens[1..], values, rest);
      GlueCons(text, more, rest);
      var s := text + (Glue(more) + rest);
      assert s[0..|text|] == text && s[|text|..] == Glue(more) + rest;
    }
  }

  lemma GlueCons(piece: string, more: seq<string>, rest: string)
    ensures Glue([piece] + more) + rest == piece + (Glue(more) + rest)
  {
    assert ([piece] + more)[1..] == more;
  }

  // ----- The kinds of lines -----

  datatype Shape =
    | Made(papi: Papi)
    | MadeGeneric
    | MadeRaw
    | RawAppended(parent: Operand)
    | Appended(parent: Operand)
    | Pushed
    | Popped
    | Bound
    | ClassesSet
    | IdSet
    | StyleSet
    | DatasetAdded
    | PlainSet

  function Template(shape: Shape): seq<Token> {
    match shape
    case Made(papi) => [Fixed("element = "), Fixed(PapiName(papi)), Fixed("(pageId)"), Fixed(";")]
    case MadeGeneric => [Fixed("element = "), Fixed("__CreateElement("), Hole, Fixed(", pageId)"), Fixed(";")]
    case MadeRaw => [Fixed("element = __CreateRawText("), Hole, Fixed(");")]
    case RawAppended(parent) =>
      [Fixed("__AppendElement(" + OperandText(parent) + ", __CreateRawText("), Hole, Fixed("));")]
    case Appended(parent) => [Fixed("__AppendElement(" + OperandText(parent) + ", element);")]
    case Pushed => [Fixed("parents.push(element);")]
    case Popped => [Fixed("parents.pop();")]
    case Bound => [Fixed("nodeMap["), Hole, Fixed("] = element;")]
    case ClassesSet => [Fixed("__SetClasses(element, "), Hole, Fixed(");")]
    case IdSet => [Fixed("__SetID(element, "), Hole, Fixed(");")]
    case StyleSet => [Fixed("__SetInlineStyles(element, "), Hole, Fixed(");")]
    case DatasetAdded => [Fixed("__AddDataset(element, "), Hole, Fixed(", "), Hole, Fixed(");")]
    case PlainSet => [Fixed("__SetAttribute(element, "), Hole, Fixed(", "), Hole, Fixed(");")]
  }

  function HoleCount(shape: Shape): nat {
    match shape
    case MadeGeneric => 1
    case MadeRaw => 1
    case RawAppended(_) => 1
    case Bound => 1
    case ClassesSet => 1
    case IdSet => 1
    case StyleSet => 1
    case DatasetAdded => 2
    case PlainSet => 2
    case _ => 0
  }

  lemma TemplateHoles(shape: Shape)
    ensures Holes(Template(shape)) == HoleCount(shape)
  {
    hide OperandText, PapiName;
    var tokens := Template(shape);
    if |tokens| > 1 { assert tokens[1..][1..] == tokens[2..]; }
    if |tokens| > 2 { assert tokens[2..][1..] == tokens[3..]; }
    if |tokens| > 3 { assert tokens[3..][1..] == tokens[4..]; }
    if |tokens| > 4 { assert tokens[4..][1..] == tokens[5..]; }
    HolesUnrolled(tokens);
  }

  lemma HolesUnrolled(tokens: seq<Token>)
    requires 0 < |tokens| <= 5
    ensures Holes(tokens) == One(tokens, 0) + One(tokens, 1) + One(tokens, 2) + One(tokens, 3) + One(tokens, 4)
  {
    var t1 := tokens[1..];
    if t1 != [] {
      var t2 := t1[1..];
      if t2 != [] {
        var t3 := t2[1..];
        if t3 != [] {
          var t4 := t3[1..];
          if t4 != [] { assert t4[1..] == []; }
        }
      }
    }
  }

  function One(tokens: seq<Token>, i: nat): nat {
    if i < |tokens| && tokens[i].Hole? then 1 else 0
  }

  function ShapeOf(i: Instr): Option<Shape> {
    match i
    case Create(callee) =>
      if callee.Factory? then Some(Made(callee.papi)) else if callee.Generic? then Some(MadeGeneric) else None
    case CreateRaw(_) => Some(MadeRaw)
    case AppendRaw(parent, _) => Some(RawAppended(parent))
    case Append(parent) => Some(Appended(parent))
    case Push => Some(Pushed)
    case Pop => Some(Popped)
    case Bind(_) => Some(Bound)
    case Apply(setting) =>
      match setting
      case Classes(_) => Some(ClassesSet)
      case Id(_) => Some(IdSet)
      case Style(_) => Some(StyleSet)
      case Dataset(_, _) => Some(DatasetAdded)
      case Plain(_, _) => Some(PlainSet)
  }

  function ValuesOf(i: Instr): seq<string> {
    match i
    case Create(callee) => if callee.Generic? then [callee.tag] else []
    case CreateRaw(text) => [text]
    case AppendRaw(_, text) => [text]
    case Append(_) => []
    case Push => []
    case Pop => []
    case Bind(id) => [id]
    case Apply(setting) =>
      if setting.Dataset? || setting.Plain? then [setting.name, setting.value] else [setting.value]
  }

  /** The instruction of that kind with these values. */
  function Instruction(shape: Shape, values: seq<string>): Instr
    requires |values| == HoleCount(shape)
  {
    match shape
    case Made(papi) => Create(Factory(papi))
    case MadeGeneric => Create(Generic(values[0]))
    case MadeRaw => CreateRaw(values[0])
    case RawAppended(parent) => AppendRaw(parent, values[0])
    case Appended(parent) => Append(parent)
    case Pushed => Push
    case Popped => Pop
    case Bound => Bind(values[0])
    case ClassesSet => Apply(Classes(values[0]))
    case IdSet => Apply(Id(values[0]))
    case StyleSet => Apply(Style(values[0]))
    case DatasetAdded => Apply(Dataset(values[0], values[1]))
    case PlainSet => Apply(Plain(values[0], values[1]))
  }

  lemma InstructionMade(i: Instr)
    requires ShapeOf(i).Some?
    ensures |ValuesOf(i)| == HoleCount(ShapeOf(i).value) && Instruction(ShapeOf(i).value, ValuesOf(i)) == i
  {
  }

  // ----- Telling the kind of a line -----

  function CharAt(s: string, i: nat): char {
    if i < |s| then s[i] else ' '
  }

  function CreateShape(c: char): Option<Shape> {
    match c
    case 'F' => Some(Made(CreateFrame))
    case 'I' => Some(Made(CreateImage))
    case 'S' => Some(Made(CreateScrollView))
    case 'T' => Some(Made(CreateText))
    case 'V' => Some(Made(CreateView))
    case 'W' => Some(Made(CreateWrapperElement))
    case 'E' => Some(MadeGeneric)
    case 'R' => Some(MadeRaw)
    case _ => None
  }

  /** `at` is where the second argument of an append begins. */
  function AppendShape(s: string, parent: Operand, at: nat): Shape {
    if CharAt(s, at) == '_' then RawAppended(parent) else Appended(parent)
  }

  /** A few characters tell the kinds of lines apart. */
  function Peek(s: string): Option<Shape> {
    var c := CharAt(s, 0);
    if c == 'e' then CreateShape(CharAt(s, 18))
    else if c == 'p' then Some(if CharAt(s, 9) == 'u' then Pushed else Popped)
    else if c == 'n' then Some(Bound)
    else if CharAt(s, 2) == 'A' then
      if CharAt(s, 3) == 'd' then Some(DatasetAdded)
      else if CharAt(s, 16) == 'e' then Some(AppendShape(s, Register, 25))
      else Some(AppendShape(s, Top, 45))
    else if CharAt(s, 5) == 'C' then Some(ClassesSet)
    else if CharAt(s, 5) == 'A' then Some(PlainSet)
    else if CharAt(s, 6) == 'D' then Some(IdSet)
    else Some(StyleSet)
  }

  /** The first piece of a line is where it can be told. */
  lemma InFirst(pieces: seq<string>, rest: string, k: nat)
    requires pieces != [] && k < |pieces[0]|
    ensures CharAt(Glue(pieces) + rest, k) == pieces[0][k]
  {
  }

  lemma InSecond(pieces: seq<string>, rest: string, k: nat)
    requires |pieces| > 1 && |pieces[0]| <= k < |pieces[0]| + |pieces[1]|
    ensures CharAt(Glue(pieces) + rest, k) == pieces[1][k - |pieces[0]|]
  {
    assert pieces[1..][0] == pieces[1];
    InFirst(pieces[1..], rest, k - |pieces[0]|);
    GlueCons(pieces[0], pieces[1..], rest);
    assert [pieces[0]] + pieces[1..] == pieces;
  }

  lemma CreatePeeked(callee: Callee, rest: string)
    requires !callee.Garbled?
    ensures Peek(Glue(LineText(Create(callee))) + rest) == ShapeOf(Create(callee))
  {
    hide Glue, JavascriptString;
    var pieces := LineText(Create(callee));
    assert pieces[0] == "element = " && pieces[1] == CalleeText(callee)[0];
    InFirst(pieces, rest, 0);
    InSecond(pieces, rest, 18);
  }

  /** What every append begins with, and where its parent is told. */
  lemma AppendBegins(pieces: seq<string>, parent: Operand, more: string, rest: string)
    requires pieces != [] && pieces[0] == "__AppendElement(" + OperandText(parent) + more && more != ""
    ensures var s := Glue(pieces) + rest;
            && CharAt(s, 0) == '_' && CharAt(s, 2) == 'A' && CharAt(s, 3) == 'p'
            && (parent.Register? ==> CharAt(s, 16) == 'e') && (parent.Top? ==> CharAt(s, 16) == 'p')
  {
    hide Glue;
    InFirst(pieces, rest, 0);
    InFirst(pieces, rest, 2);
    InFirst(pieces, rest, 3);
    InFirst(pieces, rest, 16);
  }

  lemma AppendPeeked(i: Instr, rest: string)
    requires i.Append? || i.AppendRaw?
    ensures Peek(Glue(LineText(i)) + rest) == ShapeOf(i)
  {
    var pieces := LineText(i);
    var more := if i.Append? then ", element);" else ", __CreateRawText(";
    hide Glue, JavascriptString, CreateShape;
    AppendBegins(pieces, i.parent, more, rest);
    InFirst(pieces, rest, if i.parent.Register? then 25 else 45);
  }

  lemma SettingPeeked(setting: Setting, rest: string)
    ensures Peek(Glue(LineText(Apply(setting))) + rest) == ShapeOf(Apply(setting))
  {
    hide Glue, JavascriptString;
    var pieces := LineText(Apply(setting));
    InFirst(pieces, rest, 0);
    InFirst(pieces, rest, 2);
    InFirst(pieces, rest, 3);
    InFirst(pieces, rest, 5);
    InFirst(pieces, rest, 6);
  }

  lemma LinePeeked(i: Instr, rest: string)
    requires i != Create(Garbled)
    ensures Peek(Glue(LineText(i)) + rest) == ShapeOf(i)
  {
    hide Glue, JavascriptString;
    match i
    case Create(callee) => CreatePeeked(callee, rest);
    case AppendRaw(_, _) => AppendPeeked(i, rest);
    case Append(_) => AppendPeeked(i, rest);
    case Apply(setting) => SettingPeeked(setting, rest);
    case CreateRaw(_) => InFirst(LineText(i), rest, 0); InFirst(LineText(i), rest, 18);
    case Bind(_) => InFirst(LineText(i), rest, 0);
    case _ => InFirst(LineText(i), rest, 0); InFirst(LineText(i), rest, 9);
  }

  // ----- Reading lines back -----

  lemma {:induction false} FittedFixed(text: string, tokens: seq<Token>, values: seq<string>)
    requires |values| == Holes(tokens)
    ensures Holes([Fixed(text)] + tokens) == |values|
    ensures Fitted([Fixed(text)] + tokens, values) == [text] + Fitted(tokens, values)
  {
    assert ([Fixed(text)] + tokens)[1..] == tokens;
  }

  lemma {:induction false} FittedHole(value: string, tokens: seq<Token>, values: seq<string>)
    requires |values| == Holes(tokens)
    ensures Holes([Hole] + tokens) == |[value] + values|
    ensures Fitted([Hole] + tokens, [value] + values) == [JavascriptString(value)] + Fitted(tokens, values)
  {
    assert ([Hole] + tokens)[1..] == tokens && ([value] + values)[1..] == values;
  }

  lemma FixedFitted(text: string)
    ensures Holes([Fixed(text)]) == 0 && Fitted([Fixed(text)], []) == [text]
  {
    FittedFixed(text, [], []);
    assert [Fixed(text)] + [] == [Fixed(text)];
  }

  lemma AroundFitted(before: string, value: string, after: string)
    ensures Holes([Fixed(before), Hole, Fixed(after)]) == 1
    ensures Fitted([Fixed(before), Hole, Fixed(after)], [value]) == [before, JavascriptString(value), after]
  {
    hide JavascriptString;
    FixedFitted(after);
    FittedHole(value, [Fixed(after)], []);
    FittedFixed(before, [Hole, Fixed(after)], [value]);
    assert [Hole] + [Fixed(after)] == [Hole, Fixed(after)] && [value] + [] == [value];
    assert [Fixed(before)] + [Hole, Fixed(after)] == [Fixed(before), Hole, Fixed(after)];
  }

  lemma TwoFitted(before: string, name: string, value: string)
    ensures Holes([Fixed(before), Hole, Fixed(", "), Hole, Fixed(");")]) == 2
    ensures Fitted([Fixed(before), Hole, Fixed(", "), Hole, Fixed(");")], [name, value])
         == [before, JavascriptString(name), ", ", JavascriptString(value), ");"]
  {
    hide JavascriptString;
    var inner := [Fixed(", "), Hole, Fixed(");")];
    AroundFitted(", ", value, ");");
    FittedHole(name, inner, [value]);
    FittedFixed(before, [Hole] + inner, [name, value]);
    assert [name] + [value] == [name, value];
    assert [Fixed(before)] + ([Hole] + inner) == [Fixed(before), Hole, Fixed(", "), Hole, Fixed(");")];
  }

  lemma PapiFitted(first: string, name: string, middle: string, last: string)
    ensures var tokens := [Fixed(first), Fixed(name), Fixed(middle), Fixed(last)];
            Holes(tokens) == 0 && Fitted(tokens, []) == [first, name, middle, last]
  {
    hide Holes, Fitted;
    FixedFitted(last);
    FittedFixed(middle, [Fixed(last)], []);
    FittedFixed(name, [Fixed(middle)] + [Fixed(last)], []);
    FittedFixed(first, [Fixed(name)] + ([Fixed(middle)] + [Fixed(last)]), []);
    assert [Fixed(first)] + ([Fixed(name)] + ([Fixed(middle)] + [Fixed(last)]))
        == [Fixed(first), Fixed(name), Fixed(middle), Fixed(last)];
  }

  lemma GenericFitted(first: string, open: string, tag: string, middle: string, last: string)
    ensures var tokens := [Fixed(first), Fixed(open), Hole, Fixed(middle), Fixed(last)];
            Holes(tokens) == 1 && Fitted(tokens, [tag]) == [first, open, JavascriptString(tag), middle, last]
  {
    hide Holes, Fitted, JavascriptString;
    var end := [Fixed(middle), Fixed(last)];
    FixedFitted(last);
    FittedFixed(middle, [Fixed(last)], []);
    assert [Fixed(middle)] + [Fixed(last)] == end && [tag] + [] == [tag];
    FittedHole(tag, end, []);
    FittedFixed(open, [Hole] + end, [tag]);
    FittedFixed(first, [Fixed(open)] + ([Hole] + end), [tag]);
    assert [Fixed(first)] + ([Fixed(open)] + ([Hole] + end))
        == [Fixed(first), Fixed(open), Hole, Fixed(middle), Fixed(last)];
  }

  lemma CreateFitted(callee: Callee)
    requires !callee.Garbled?
    ensures LineFits(Create(callee))
  {
    hide Holes, Fitted, JavascriptString, PapiName;
    if callee.Factory? {
      PapiFitted("element = ", PapiName(callee.papi), "(pageId)", ";");
    } else {
      GenericFitted("element = ", "__CreateElement(", callee.tag, ", pageId)", ";");
    }
  }

  ghost predicate LineFits(i: Instr)
    requires ShapeOf(i).Some?
  {
    var tokens := Template(ShapeOf(i).value);
    |ValuesOf(i)| == Holes(tokens) && Fitted(tokens, ValuesOf(i)) == LineText(i)
  }

  lemma LineFitted(i: Instr)
    requires i != Create(Garbled)
    ensures ShapeOf(i).Some? && LineFits(i)
  {
    hide JavascriptString, Fitted, Holes;
    match i
    case Create(callee) => CreateFitted(callee);
    case CreateRaw(text) => AroundFitted("element = __CreateRawText(", text, ");");
    case AppendRaw(parent, text) =>
      AroundFitted("__AppendElement(" + OperandText(parent) + ", __CreateRawText(", text, "));");
    case Append(parent) => FixedFitted("__AppendElement(" + OperandText(parent) + ", element);");
    case Push => FixedFitted("parents.push(element);");
    case Pop => FixedFitted("parents.pop();");
    case Bind(id) => AroundFitted("nodeMap[", id, "] = element;");
    case Apply(setting) =>
      match setting
      case Classes(value) => AroundFitted("__SetClasses(element, ", value, ");");
      case Id(value) => AroundFitted("__SetID(element, ", value, ");");
      case Style(value) => AroundFitted("__SetInlineStyles(element, ", value, ");");
      case Dataset(name, value) => TwoFitted("__AddDataset(element, ", name, value);
      case Plain(name, value) => TwoFitted("__SetAttribute(element, ", name, value);
  }

  /** One line, and the text behind it. */
  function ReadLine(s: string): (r: Option<(Instr, string)>)
    ensures r.Some? ==> |r.value.1| <= |s|
  {
    var shape := Peek(s);
    if shape.None? then None
    else
      var read := Take(Template(shape.value), s);
      if read.None? then None
      else
        TemplateHoles(shape.value);
        Some((Instruction(shape.value, read.value.0), read.value.1))
  }

  function ReadLines(s: string): Option<seq<Instr>>
    decreases |s|
  {
    if s == "" then Some([])
    else if s[0] != '\n' then None
    else
      var first := ReadLine(s[1..]);
      if first.None? then None
      else
        var more := ReadLines(first.value.1);
        if more.None? then None else Some([first.value.0] + more.value)
  }

  function ReadProgram(s: string): Option<seq<Instr>> {
    var head := NODE_MAP + PARENTS + ELEMENT;
    if At(s, head, 0) then ReadLines(s[|head|..]) else None
  }

  lemma LineRead(i: Instr, rest: string)
    requires i != Create(Garbled)
    ensures ReadLine(Glue(LineText(i)) + rest) == Some((i, rest))
  {
    hide Glue, JavascriptString, Fitted, Holes, LineText, Peek, Template, ShapeOf, ValuesOf, Instruction;
    LineFitted(i);
    LinePeeked(i, rest);
    FittedTaken(Template(ShapeOf(i).value), ValuesOf(i), rest);
    InstructionMade(i);
  }

  lemma {:induction false} LinesRead(code: seq<Instr>)
    requires Create(Garbled) !in code
    ensures ReadLines(LinesText(code)) == Some(code)
  {
    hide ReadLine, LineText, Glue;
    if code != [] {
      var line, rest := Glue(LineText(code[0])), LinesText(code[1..]);
      LinesRead(code[1..]);
      LineRead(code[0], rest);
      var s := LinesText(code);
      assert s == "\n" + (line + rest);
      assert s[1..] == line + rest;
      assert [code[0]] + code[1..] == code;
    }
  }

  /** The text of a program without garbled calls says exactly its instructions. */
  lemma ProgramReadsBack(code: seq<Instr>)
    requires Create(Garbled) !in code
    ensures ReadProgram(ProgramText(code)) == Some(code)
  {
    hide LinesText, ReadLines, NODE_MAP, PARENTS, ELEMENT, At;
    LinesRead(code);
    HeadTaken(NODE_MAP, PARENTS, ELEMENT, LinesText(code));
  }

  lemma HeadTaken(a: string, b: string, c: string, s: string)
    ensures var head := a + b + c;
            At(a + (b + (c + s)), head, 0) && (a + (b + (c + s)))[|head|..] == s
  {
    var head := a + b + c;
    assert a + (b + (c + s)) == head + s;
    assert (head + s)[0..|head|] == head;
  }

  /** Reading the text of a compiled fragment and running it builds what the fragment denotes. */
  lemma TextCorrect(source: string, xs: seq<XmlNode>)
    requires Compiles(source, Some(xs)) && !exists x | x in xs :: MentionsInherited(x)
    ensures var code := ReadProgram(ProgramText(ForestCode(xs, false)));
            code.Some? && Run(code.value).Some?
            && Shows(Run(code.value).value, DenoteAll(xs, false), ForestIds(xs))
            && StaysWithin(code.value, START, 1, 65)
  {
    hide *;
    ForestGarbledExact(xs, false);
    ProgramReadsBack(ForestCode(xs, false));
    CompilerCorrect(source, xs);
  }
}
