/** The generated program as script text, which never closes the script element it is put into. */
module FragmentScript {
  import opened Text
  import opened XmlFragment
  import opened ElementMachine
  import opened FragmentCompiler
  import opened ScriptLiterals

  /** What `String(Object)` gives. */
  const GARBLED := "function Object() { [native code] }"

  function PapiName(papi: Papi): string {
    match papi
    case CreateFrame => "__CreateFrame"
    case CreateImage => "__CreateImage"
    case CreateScrollView => "__CreateScrollView"
    case CreateText => "__CreateText"
    case CreateView => "__CreateView"
    case CreateWrapperElement => "__CreateWrapperElement"
  }

  function CalleeText(callee: Callee): seq<string> {
    match callee
    case Factory(papi) => [PapiName(papi), "(pageId)"]
    case Generic(tag) => ["__CreateElement(", JavascriptString(tag), ", pageId)"]
    case Garbled => [GARBLED, "(pageId)"]
  }

  function OperandText(operand: Operand): string {
    if operand.Register? then "element" else "parents[parents.length - 1]"
  }

  function SettingText(setting: Setting): seq<string> {
    match setting
    case Classes(value) => ["__SetClasses(element, ", JavascriptString(value), ");"]
    case Id(value) => ["__SetID(element, ", JavascriptString(value), ");"]
    case Style(value) => ["__SetInlineStyles(element, ", JavascriptString(value), ");"]
    case Dataset(name, value) =>
      ["__AddDataset(element, ", JavascriptString(name), ", ", JavascriptString(value), ");"]
    case Plain(name, value) =>
      ["__SetAttribute(element, ", JavascriptString(name), ", ", JavascriptString(value), ");"]
  }

  /** One line, in the pieces it is put together from. */
  function LineText(i: Instr): seq<string> {
    match i
    case Create(callee) => ["element = "] + CalleeText(callee) + [";"]
    case CreateRaw(text) => ["element = __CreateRawText(", JavascriptString(text), ");"]
    case AppendRaw(parent, text) =>
      ["__AppendElement(" + OperandText(parent) + ", __CreateRawText(", JavascriptString(text), "));"]
    case Append(parent) => ["__AppendElement(" + OperandText(parent) + ", element);"]
    case Push => ["parents.push(element);"]
    case Pop => ["parents.pop();"]
    case Bind(id) => ["nodeMap[", JavascriptString(id), "] = element;"]
    case Apply(setting) => SettingText(setting)
  }

  function Glue(pieces: seq<string>): string {
    if pieces == [] then "" else pieces[0] + Glue(pieces[1..])
  }

  function LinesText(code: seq<Instr>): string {
    if code == [] then "" else "\n" + Glue(LineText(code[0])) + LinesText(code[1..])
  }

  const NODE_MAP := "const nodeMap = Object.create(null);"
  const PARENTS := "\nconst parents = [page];"
  const ELEMENT := "\nlet element;"

  function ProgramText(code: seq<Instr>): string {
    NODE_MAP + (PARENTS + (ELEMENT + LinesText(code)))
  }

  // ----- No closing tag -----

  /** A character no closing tag contains past its first one. */
  predicate Fence(c: char) {
    c != '/' && forall k | 0 <= k < 6 :: !Folds(c, TAG[k])
  }

  ghost predicate Quiet(s: string) {
    forall i: nat | i <= |s| :: !ClosesScript(s[i..])
  }

  lemma NoFenceInside(t: string, d: nat)
    requires ClosesScript(t) && 0 < d < 8
    ensures !Fence(t[d])
  {
    assert d > 1 ==> Folds(t[2 + (d - 2)], TAG[d - 2]);
  }

  /** Two quiet texts stay quiet side by side when the second begins with a fence. */
  lemma QuietJoin(a: string, b: string)
    requires Quiet(a) && Quiet(b) && (b == "" || Fence(b[0]))
    ensures Quiet(a + b)
  {
    var s := a + b;
    forall i: nat | i <= |s| ensures !ClosesScript(s[i..]) {
      var t := s[i..];
      if i >= |a| {
        assert t == b[i - |a|..];
      } else if |a| - i >= 8 {
        assert t[..8] == a[i..][..8];
        if ClosesScript(t) { ClosesPrefix(t, a[i..]); }
      } else if |t| >= 8 {
        assert t[|a| - i] == b[0];
        if ClosesScript(t) { NoFenceInside(t, |a| - i); }
      }
    }
  }

  lemma ClosesPrefix(t: string, u: string)
    requires ClosesScript(t) && |u| >= 8 && t[..8] == u[..8]
    ensures ClosesScript(u)
  {
    forall j | 0 <= j < 8 ensures u[j] == t[j] { assert u[..8][j] == t[..8][j]; }
    forall k | 0 <= k < 6 ensures Folds(u[2 + k], TAG[k]) { assert u[2 + k] == t[2 + k]; }
  }

  lemma QuietCons(c: char, s: string)
    requires c != '<' && Quiet(s)
    ensures Quiet([c] + s)
  {
    var t := [c] + s;
    forall i: nat | i <= |t| ensures !ClosesScript(t[i..]) {
      if i > 0 { assert t[i..] == s[i - 1..]; }
    }
  }

  /** Fixed text: no `<` anywhere. */
  predicate Fixed(s: string) {
    forall i | 0 <= i < |s| :: s[i] != '<'
  }

  lemma FixedIsQuiet(s: string)
    requires Fixed(s)
    ensures Quiet(s)
  {
    forall i: nat | i <= |s| ensures !ClosesScript(s[i..]) { }
  }

  /** A piece that may follow any other: fixed text or a literal, beginning with a fence. */
  ghost predicate Follows(s: string) {
    s != "" && Fence(s[0]) && Quiet(s)
  }

  lemma {:induction false} GlueQuiet(pieces: seq<string>)
    requires pieces != [] && Quiet(pieces[0]) && pieces[0] != ""
    requires forall i | 0 < i < |pieces| :: Follows(pieces[i])
    ensures Quiet(Glue(pieces)) && Glue(pieces) != "" && Glue(pieces)[0] == pieces[0][0]
  {
    if |pieces| > 1 {
      GlueQuiet(pieces[1..]);
      QuietJoin(pieces[0], Glue(pieces[1..]));
    } else {
      assert pieces[0] + "" == pieces[0];
    }
  }

  lemma LiteralFollows(value: string)
    ensures Follows(JavascriptString(value))
  {
    LiteralIsBody(value);
    forall i: nat | i <= |JavascriptString(value)| ensures !ClosesScript(JavascriptString(value)[i..]) {
      LiteralNeverCloses(value, i);
    }
  }

  lemma FixedFollows(s: string)
    requires s != "" && Fixed(s) && Fence(s[0])
    ensures Follows(s)
  {
    FixedIsQuiet(s);
  }

  lemma PapiFollows(papi: Papi)
    ensures Follows(PapiName(papi))
  {
    hide Follows;
    FixedFollows(PapiName(papi));
  }

  lemma CallFollows()
    ensures Follows("(pageId)") && Follows("__CreateElement(") && Follows(", pageId)") && Follows(GARBLED)
  {
    hide Follows;
    FixedFollows("(pageId)");
    FixedFollows("__CreateElement(");
    FixedFollows(", pageId)");
    FixedFollows(GARBLED);
  }

  lemma CalleeFollows(callee: Callee)
    ensures forall p | p in CalleeText(callee) :: Follows(p)
  {
    hide Follows, PapiName, JavascriptString, GARBLED;
    CallFollows();
    match callee
    case Factory(papi) => PapiFollows(papi);
    case Generic(tag) => LiteralFollows(tag);
    case Garbled =>
  }

  lemma CreateQuiet(callee: Callee)
    ensures Quiet(Glue(LineText(Create(callee))))
  {
    CalleeFollows(callee);
    FixedFollows(";");
    FixedIsQuiet("element = ");
    GlueQuiet(LineText(Create(callee)));
  }

  lemma AroundLiteralQuiet(before: string, value: string, after: string)
    requires before != "" && Fixed(before) && after != "" && Fixed(after) && Fence(after[0])
    ensures Quiet(Glue([before, JavascriptString(value), after]))
  {
    FixedIsQuiet(before);
    LiteralFollows(value);
    FixedFollows(after);
    GlueQuiet([before, JavascriptString(value), after]);
  }

  lemma WholeLineQuiet(line: string)
    requires line != "" && Fixed(line)
    ensures Quiet(Glue([line]))
  {
    FixedIsQuiet(line);
    GlueQuiet([line]);
  }

  lemma OperandFixed(before: string, parent: Operand, after: string)
    requires Fixed(before) && Fixed(after) && before != ""
    ensures Fixed(before + OperandText(parent) + after) && before + OperandText(parent) + after != ""
  {
    assert Fixed(OperandText(parent));
  }

  lemma LineQuiet(i: Instr)
    ensures Quiet(Glue(LineText(i)))
  {
    hide Quiet, Glue, JavascriptString, SettingText, CalleeText, OperandText;
    match i
    case Create(callee) => CreateQuiet(callee);
    case CreateRaw(text) => AroundLiteralQuiet("element = __CreateRawText(", text, ");");
    case AppendRaw(parent, text) =>
      OperandFixed("__AppendElement(", parent, ", __CreateRawText(");
      AroundLiteralQuiet("__AppendElement(" + OperandText(parent) + ", __CreateRawText(", text, "));");
    case Append(parent) =>
      OperandFixed("__AppendElement(", parent, ", element);");
      WholeLineQuiet("__AppendElement(" + OperandText(parent) + ", element);");
    case Push => WholeLineQuiet("parents.push(element);");
    case Pop => WholeLineQuiet("parents.pop();");
    case Bind(id) => AroundLiteralQuiet("nodeMap[", id, "] = element;");
    case Apply(setting) => SettingQuiet(setting);
  }

  lemma SettingQuiet(setting: Setting)
    ensures Quiet(Glue(SettingText(setting)))
  {
    hide Quiet, Glue, JavascriptString, Follows;
    var pieces := SettingText(setting);
    LiteralFollows(setting.value);
    if setting.Dataset? || setting.Plain? { LiteralFollows(setting.name); }
    FixedFollows(", ");
    FixedFollows(");");
    FixedIsQuiet(pieces[0]);
    GlueQuiet(pieces);
  }

  lemma LinesCons(i: Instr, rest: seq<Instr>)
    ensures LinesText([i] + rest) == "\n" + (Glue(LineText(i)) + LinesText(rest))
  {
    hide Glue, LineText;
    assert ([i] + rest)[1..] == rest;
  }

  lemma BreakIsFence()
    ensures Fence('\n')
  {
  }

  lemma {:induction false} LinesQuiet(code: seq<Instr>)
    ensures Quiet(LinesText(code)) && (code != [] ==> LinesText(code) != "" && LinesText(code)[0] == '\n')
  {
    hide Quiet, LineText, Glue, LinesText, Fence;
    if code == [] {
      NoLinesQuiet();
    } else {
      var line, rest := Glue(LineText(code[0])), LinesText(code[1..]);
      LineQuiet(code[0]);
      LinesQuiet(code[1..]);
      BreakIsFence();
      if code[1..] == [] { NoLinesQuiet(); }
      QuietJoin(line, rest);
      QuietCons('\n', line + rest);
      LinesCons(code[0], code[1..]);
      assert [code[0]] + code[1..] == code;
    }
  }

  lemma NoLinesQuiet()
    ensures LinesText([]) == "" && Quiet("")
  {
  }

  /** No program, whatever its literals say, contains a closing script tag in any case. */
  lemma ProgramQuiet(code: seq<Instr>)
    ensures Quiet(ProgramText(code))
  {
    LinesQuiet(code);
    FixedIsQuiet(ELEMENT);
    QuietJoin(ELEMENT, LinesText(code));
    FixedIsQuiet(PARENTS);
    QuietJoin(PARENTS, ELEMENT + LinesText(code));
    FixedIsQuiet(NODE_MAP);
    QuietJoin(NODE_MAP, PARENTS + (ELEMENT + LinesText(code)));
  }
}
