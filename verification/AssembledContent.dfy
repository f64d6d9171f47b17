/** What an assembled document holds: its main script, its style sheet, and which documents are assembled at all. */
module AssembledContent {
  import opened Text
  import opened ArtifactScan
  import opened ArtifactAssembly
  import ArtifactProjection
  import ArtifactTransform
  import XmlFragment
  import ElementMachine
  import FragmentCompiler
  import FragmentMeaning
  import FragmentScript
  import ProgramReader

  // ----- Which documents are assembled -----

  function Templates(pieces: seq<Piece>): seq<string> {
    if pieces == [] then []
    else (if pieces[0].kind.Template? then [pieces[0].body] else []) + Templates(pieces[1..])
  }

  lemma {:induction false} SingleExact(pieces: seq<Piece>, template: bool, main: bool)
    ensures Single(pieces, template, main)
       <==> && |Templates(pieces)| + (if template && Templates(pieces) != [] then 1 else 0) <= 1
            && |Bodies(pieces, Script(true))| + (if main && Bodies(pieces, Script(true)) != [] then 1 else 0) <= 1
  {
    if pieces != [] {
      var p := pieces[0];
      SingleExact(pieces[1..], template || IsTemplate(p), main || IsMain(p));
    }
  }

  lemma {:induction false} TemplateFirst(pieces: seq<Piece>)
    ensures TemplateBody(pieces) == if Templates(pieces) == [] then None else Some(Templates(pieces)[0])
  {
    if pieces != [] { TemplateFirst(pieces[1..]); }
  }

  lemma {:induction false} MainFirst(pieces: seq<Piece>)
    ensures MainBody(pieces)
         == if Bodies(pieces, Script(true)) == [] then None else Some(Bodies(pieces, Script(true))[0])
  {
    if pieces != [] { MainFirst(pieces[1..]); }
  }

  /** The text is a root tag, well-formed blocks, and behind them nothing that opens a block. */
  ghost predicate IsDocument(source: string, pieces: seq<Piece>, tail: string) {
    && RootEnd(source).Some?
    && source[RootEnd(source).value..] == Render(pieces, tail)
    && AllWellFormed(pieces) && Stops(tail)
  }

  /** The blocks are those the options ask for: one main script that is accepted, a template that compiles or none. */
  ghost predicate IsComplete(pieces: seq<Piece>, tail: string, options: Options, world: World) {
    && Trim(tail) == "</lynx>"
    && |Bodies(pieces, Script(true))| == 1
    && world.accepts(Bodies(pieces, Script(true))[0], options.template, options.reuse)
    && |Templates(pieces)| == (if options.template then 1 else 0)
    && forall t | t in Templates(pieces) :: FragmentCompiler.Compiles(t, world.parse(t))
  }

  lemma CompleteIsSingle(pieces: seq<Piece>, tail: string, options: Options, world: World)
    requires IsComplete(pieces, tail, options, world)
    ensures Single(pieces, false, false)
  {
    SingleExact(pieces, false, false);
    hide Bodies, Templates, Trim, Single;
  }

  lemma FragmentFails(pieces: seq<Piece>, world: World)
    requires |Templates(pieces)| <= 1
    ensures (Generated(pieces, world).Some? && Generated(pieces, world).value.Err?)
       <==> !forall t | t in Templates(pieces) :: FragmentCompiler.Compiles(t, world.parse(t))
  {
    TemplateFirst(pieces);
    hide Templates, TemplateBody, FragmentCompiler.Generate, FragmentCompiler.Compiles;
    var ts := Templates(pieces);
    if ts != [] {
      FragmentCompiler.GenerateExact(ts[0], world.parse(ts[0]));
      assert ts == [ts[0]];
    }
  }

  /** For a document scanned: no failure exactly when it is complete. */
  lemma ScannedExact(source: string, options: Options, world: World, pieces: seq<Piece>, tail: string)
    requires !options.preset.Unknown? && RootEnd(source).Some?
    requires Scan(source[RootEnd(source).value..], false, false) == Ok(Scanned(pieces, tail))
    requires Single(pieces, false, false)
    ensures FailureOf(source, options, world).None? <==> IsComplete(pieces, tail, options, world)
  {
    hide Bodies, Templates, TemplateBody, MainBody, Trim, Single, Scan, RootEnd, Generated, FailureOf, ROOT_END,
         FragmentCompiler.Compiles;
    ArtifactTransform.FailureGiven(source, options, world, pieces, tail);
    SingleExact(pieces, false, false);
    TemplateFirst(pieces);
    MainFirst(pieces);
    FragmentFails(pieces, world);
    RootEndText();
  }

  lemma RootEndText()
    ensures ROOT_END == "</lynx>"
  {
  }

  /** The documents that are assembled, told from their text alone. */
  lemma AcceptedExact(source: string, options: Options, world: World)
    ensures FailureOf(source, options, world).None?
       <==> !options.preset.Unknown?
            && exists pieces, tail :: IsDocument(source, pieces, tail) && IsComplete(pieces, tail, options, world)
  {
    hide Scan, Render, AllWellFormed, Single, Trim, Stops, RootEnd, IsComplete, Bodies, Templates;
    if FailureOf(source, options, world).None? {
      var root, pieces, tail := ArtifactProjection.Accepted(source, options, world);
      RenderScan(source[root..], false, false);
      ScannedExact(source, options, world, pieces, tail);
      assert IsDocument(source, pieces, tail);
    }
    if !options.preset.Unknown? {
      forall pieces, tail | IsDocument(source, pieces, tail) && IsComplete(pieces, tail, options, world)
        ensures FailureOf(source, options, world).None?
      {
        CompleteIsSingle(pieces, tail, options, world);
        ScanRender(pieces, tail, false, false);
        ScannedExact(source, options, world, pieces, tail);
      }
    }
  }

  // ----- What is reported for the others -----

  function Count(seen: bool): nat {
    if seen then 1 else 0
  }

  /** Well-formed blocks, and behind them or with the last of them something is wrong. */
  ghost predicate Broken(s: string, error: ArtifactScan.Error, template: bool, main: bool) {
    exists pieces, rest :: BrokenAt(s, pieces, rest, error, template, main)
  }

  ghost predicate BrokenAt(s: string, pieces: seq<Piece>, rest: string, error: ArtifactScan.Error, template: bool,
                           main: bool) {
    && s == Render(pieces, rest) && AllWellFormed(pieces)
    && match error
       case UnclosedBlock => First(rest).Unclosed? && Single(pieces, template, main)
       case SecondTemplate => |Templates(pieces)| + Count(template) == 2
       case SecondMainScript => |Bodies(pieces, Script(true))| + Count(main) == 2
  }

  lemma BrokenCons(p: Piece, after: string, error: ArtifactScan.Error, template: bool, main: bool)
    requires WellFormed(p) && !(IsTemplate(p) && template) && !(IsMain(p) && main)
    requires Broken(after, error, template || IsTemplate(p), main || IsMain(p))
    ensures Broken(RenderPiece(p) + after, error, template, main)
  {
    hide WellFormed, RenderPiece, First;
    var pieces, rest :| BrokenAt(after, pieces, rest, error, template || IsTemplate(p), main || IsMain(p));
    var all := [p] + pieces;
    assert all[1..] == pieces;
    assert BrokenAt(RenderPiece(p) + after, all, rest, error, template, main);
  }

  lemma OnePiece(p: Piece, after: string)
    requires WellFormed(p)
    ensures Render([p], after) == RenderPiece(p) + after && AllWellFormed([p])
    ensures IsTemplate(p) ==> |Templates([p])| == 1
    ensures IsMain(p) ==> |Bodies([p], Script(true))| == 1
  {
    hide WellFormed, RenderPiece;
    assert [p][1..] == [];
    assert Render([], after) == after && Templates([]) == [] && Bodies([], Script(true)) == [];
  }

  lemma {:induction false} ScanFails(s: string, template: bool, main: bool)
    requires Scan(s, template, main).Err?
    ensures Broken(s, Scan(s, template, main).error, template, main)
    decreases |s|
  {
    hide WellFormed, RenderPiece, First;
    match First(s)
    case Nothing =>
    case Unclosed => assert BrokenAt(s, [], s, UnclosedBlock, template, main);
    case Block(p) =>
      var p, after := FirstSplits(s);
      assert s[|RenderPiece(p)|..] == after;
      OnePiece(p, after);
      if IsTemplate(p) && template {
        assert BrokenAt(s, [p], after, SecondTemplate, template, main);
      } else if IsMain(p) && main {
        assert BrokenAt(s, [p], after, SecondMainScript, template, main);
      } else {
        ScanFails(after, template || IsTemplate(p), main || IsMain(p));
        BrokenCons(p, after, Scan(after, template || IsTemplate(p), main || IsMain(p)).error, template, main);
      }
  }

  /** What is wrong with a document that is scanned to its end. */
  ghost predicate Wrong(f: Failure, pieces: seq<Piece>, tail: string, options: Options, world: World) {
    match f
    case Incomplete => Trim(tail) != "</lynx>" || Bodies(pieces, Script(true)) == []
    case MissingTemplate => options.template && Templates(pieces) == []
    case TemplateDisabled => !options.template && Templates(pieces) != []
    case Fragment(fault) =>
      exists t | t in Templates(pieces) :: FragmentCompiler.Generate(t, world.parse(t)) == Err(fault)
    case ScriptRejected =>
      exists b | b in Bodies(pieces, Script(true)) :: !world.accepts(b, options.template, options.reuse)
    case _ => false
  }

  /** The order of the checks. */
  function Rank(f: Failure): nat {
    match f
    case UnsupportedPreset => 0
    case NoRoot => 1
    case Malformed(_) => 2
    case Incomplete => 3
    case MissingTemplate => 4
    case TemplateDisabled => 5
    case Fragment(_) => 6
    case ScriptRejected => 7
  }

  /** What is reported is wrong, and nothing that is checked before is. */
  ghost predicate Reports(f: Failure, source: string, options: Options, world: World) {
    match f
    case UnsupportedPreset => options.preset.Unknown?
    case NoRoot => !options.preset.Unknown? && RootEnd(source).None?
    case Malformed(error) =>
      !options.preset.Unknown? && RootEnd(source).Some? && Broken(source[RootEnd(source).value..], error, false, false)
    case _ =>
      && !options.preset.Unknown?
      && exists pieces, tail :: IsDocument(source, pieces, tail) && Foremost(f, pieces, tail, options, world)
  }

  ghost predicate Foremost(f: Failure, pieces: seq<Piece>, tail: string, options: Options, world: World) {
    Wrong(f, pieces, tail, options, world)
    && forall g | Rank(g) < Rank(f) :: !Wrong(g, pieces, tail, options, world)
  }

  lemma ScannedReports(source: string, options: Options, world: World, pieces: seq<Piece>, tail: string)
    requires !options.preset.Unknown? && RootEnd(source).Some?
    requires Scan(source[RootEnd(source).value..], false, false) == Ok(Scanned(pieces, tail))
    requires Single(pieces, false, false) && FailureOf(source, options, world).Some?
    ensures Rank(FailureOf(source, options, world).value) > 2
    ensures Foremost(FailureOf(source, options, world).value, pieces, tail, options, world)
  {
    hide Bodies, Templates, TemplateBody, MainBody, Trim, Single, Scan, RootEnd, FailureOf, ROOT_END,
         FragmentCompiler.Generate;
    ArtifactTransform.FailureGiven(source, options, world, pieces, tail);
    SingleExact(pieces, false, false);
    TemplateFirst(pieces);
    MainFirst(pieces);
    RootEndText();
    var ts, bs := Templates(pieces), Bodies(pieces, Script(true));
    assert ts != [] ==> ts == [ts[0]];
    assert bs != [] ==> bs == [bs[0]];
  }

  /** For every other document the first thing wrong with it is reported. */
  lemma FailureReports(source: string, options: Options, world: World)
    requires FailureOf(source, options, world).Some?
    ensures Reports(FailureOf(source, options, world).value, source, options, world)
  {
    hide Scan, Render, AllWellFormed, Single, Stops, RootEnd, FailureOf, Foremost, Broken;
    ArtifactTransform.FailsEarly(source, options, world);
    if !options.preset.Unknown? && RootEnd(source).Some? {
      var text := source[RootEnd(source).value..];
      if Scan(text, false, false).Err? {
        ScanFails(text, false, false);
      } else {
        var Scanned(pieces, tail) := Scan(text, false, false).value;
        RenderScan(text, false, false);
        ScannedReports(source, options, world, pieces, tail);
        assert IsDocument(source, pieces, tail);
      }
    }
  }

  // ----- The main script -----

  /** The program's text reads back and runs, and the page then shows the fragment; or the inherited name garbles it. */
  ghost predicate Creates(program: string, xs: seq<XmlFragment.XmlNode>) {
    (exists x | x in xs :: FragmentCompiler.MentionsInherited(x))
    || var code := ProgramReader.ReadProgram(program);
       && code.Some? && ElementMachine.Run(code.value).Some?
       && FragmentCompiler.Shows(ElementMachine.Run(code.value).value, XmlFragment.DenoteAll(xs, false),
                                 XmlFragment.ForestIds(xs))
  }

  lemma FactorySpelled(code: seq<ElementMachine.Instr>)
    ensures FactoryText(code)
         == "\nfunction createFragment(page, pageId) {\n" + FragmentScript.ProgramText(code) + "\nreturn nodeMap;\n}\n"
  {
    hide FragmentScript.ProgramText;
    Around("\nfunction createFragment(page, pageId) {", "\n", FragmentScript.ProgramText(code),
           "\nreturn nodeMap;\n}\n");
    assert "\nfunction createFragment(page, pageId) {" + "\n" == "\nfunction createFragment(page, pageId) {\n";
  }

  lemma Around(a: string, b: string, c: string, d: string)
    ensures a + (b + c + d) == a + b + c + d
  {
  }

  lemma ProgramCreates(body: string, xs: seq<XmlFragment.XmlNode>)
    requires FragmentCompiler.Compiles(body, Some(xs))
    ensures Creates(FragmentScript.ProgramText(FragmentCompiler.ForestCode(xs, false)), xs)
  {
    hide *;
    if !exists x | x in xs :: FragmentCompiler.MentionsInherited(x) {
      ProgramReader.TextCorrect(body, xs);
      CreatesThen(FragmentScript.ProgramText(FragmentCompiler.ForestCode(xs, false)), xs);
    } else {
      GarbledCreates(FragmentScript.ProgramText(FragmentCompiler.ForestCode(xs, false)), xs);
    }
  }

  lemma CreatesThen(program: string, xs: seq<XmlFragment.XmlNode>)
    requires var code := ProgramReader.ReadProgram(program);
             && code.Some? && ElementMachine.Run(code.value).Some?
             && FragmentCompiler.Shows(ElementMachine.Run(code.value).value, XmlFragment.DenoteAll(xs, false),
                                       XmlFragment.ForestIds(xs))
    ensures Creates(program, xs)
  {
  }

  lemma GarbledCreates(program: string, xs: seq<XmlFragment.XmlNode>)
    requires exists x | x in xs :: FragmentCompiler.MentionsInherited(x)
    ensures Creates(program, xs)
  {
  }

  /** Behind the author's script: for a template the factory with its program, and the runtime when it is reused. */
  ghost predicate Extended(old_: string, script: string, template: Option<string>, options: Options, world: World) {
    var runtime := if options.reuse then world.shared(template.Some?) else "";
    if template.None? then script == old_ + runtime
    else
      exists program: string, xs: seq<XmlFragment.XmlNode> ::
        && script == old_ + "\nfunction createFragment(page, pageId) {\n" + program + "\nreturn nodeMap;\n}\n" + runtime
        && world.parse(template.value) == Some(xs) && Creates(program, xs)
  }

  lemma FactoryExtends(old_: string, body: string, options: Options, world: World)
    requires FragmentCompiler.Compiles(body, world.parse(body))
    ensures var xs := world.parse(body).value;
            Extended(old_, old_ + (FactoryText(FragmentCompiler.ForestCode(xs, false))
                                   + if options.reuse then world.shared(true) else ""), Some(body), options, world)
  {
    var xs := world.parse(body).value;
    var program := FragmentScript.ProgramText(FragmentCompiler.ForestCode(xs, false));
    var runtime := if options.reuse then world.shared(true) else "";
    ProgramCreates(body, xs);
    FactorySpelled(FragmentCompiler.ForestCode(xs, false));
    hide FragmentScript.ProgramText, FragmentCompiler.ForestCode, FactoryText, Creates;
    Behind(old_, "\nfunction createFragment(page, pageId) {\n", program, "\nreturn nodeMap;\n}\n", runtime);
  }

  lemma Behind(a: string, b: string, c: string, d: string, e: string)
    ensures a + (b + c + d + e) == a + b + c + d + e
  {
  }

  lemma GeneratedCode(body: string, world: World)
    requires FragmentCompiler.Compiles(body, world.parse(body))
    ensures var xs, g := world.parse(body).value, FragmentCompiler.Generate(body, world.parse(body));
            && g.Ok? && g.value.code == FragmentCompiler.ForestCode(xs, false)
            && g.value.classNames == FragmentCompiler.ForestClassNames(xs)
  {
    FragmentCompiler.GenerateExact(body, world.parse(body));
    hide FragmentCompiler.ForestCode, FragmentCompiler.ForestClassNames, XmlFragment.ForestFault,
         FragmentCompiler.Compiles;
  }

  lemma AppendedExact(pieces: seq<Piece>, tail: string, options: Options, world: World)
    requires IsComplete(pieces, tail, options, world)
    ensures MainBody(pieces) == Some(Bodies(pieces, Script(true))[0])
    ensures Extended(Bodies(pieces, Script(true))[0], ArtifactProjection.NewScript(pieces, options, world),
                     if options.template then Some(Templates(pieces)[0]) else None, options, world)
  {
    MainFirst(pieces);
    TemplateFirst(pieces);
    hide MainBody, TemplateBody, Bodies, Templates, Trim, Extended, FactoryText, FragmentCompiler.Compiles,
         FragmentCompiler.Generate, FragmentCompiler.ForestCode;
    var old_ := Bodies(pieces, Script(true))[0];
    if options.template {
      var body := Templates(pieces)[0];
      assert body in Templates(pieces);
      GeneratedCode(body, world);
      FactoryExtends(old_, body, options, world);
    } else {
      NothingExtends(old_, options, world);
    }
  }

  lemma NothingExtends(old_: string, options: Options, world: World)
    ensures Extended(old_, old_ + (if options.reuse then world.shared(false) else ""), None, options, world)
  {
  }

  /**
   * The main script of an assembled document, as a scan of the assembled text finds it: the author's script, and behind
   * it the factory whose program creates what the template shows, and the shared runtime when it is reused.
   */
  lemma MainScriptExact(source: string, options: Options, world: World) returns (pieces: seq<Piece>, tail: string)
    requires ArtifactProjection.Sound(world) && FailureOf(source, options, world).None?
    ensures IsDocument(source, pieces, tail) && IsComplete(pieces, tail, options, world)
    ensures var t := Assembled(source, options, world);
            && RootEnd(t).Some? && Scan(t[RootEnd(t).value..], false, false).Ok?
            && var blocks := Scan(t[RootEnd(t).value..], false, false).value.pieces;
            && |Bodies(blocks, Script(true))| == 1 && Templates(blocks) == []
            && Extended(Bodies(pieces, Script(true))[0], Bodies(blocks, Script(true))[0],
                        if options.template then Some(Templates(pieces)[0]) else None, options, world)
  {
    hide *;
    pieces, tail := AssembledBlocks(source, options, world);
    CompleteHasMain(pieces, tail, options, world);
    AppendedExact(pieces, tail, options, world);
    ArtifactProjection.FinalScript(pieces, options, world);
    var t, final := Assembled(source, options, world), FinalPieces(pieces, PlanFor(pieces, options, world));
    RescanIsSingle(t, RootEnd(t).value, final);
    MainFirst(final);
    ArtifactProjection.Rescans(source, options, world);
    TemplateFirst(final);
  }

  lemma NotUnknown(source: string, options: Options, world: World)
    requires FailureOf(source, options, world).None?
    ensures !options.preset.Unknown?
  {
    hide RootEnd, Scan, Trim, Generated, MainBody, TemplateBody;
  }

  lemma CompleteHasMain(pieces: seq<Piece>, tail: string, options: Options, world: World)
    requires IsComplete(pieces, tail, options, world)
    ensures |Bodies(pieces, Script(true))| == 1 && |Templates(pieces)| == if options.template then 1 else 0
  {
    hide Bodies, Templates, Trim;
  }

  lemma RescanIsSingle(t: string, root: nat, final: seq<Piece>)
    requires root <= |t| && Scan(t[root..], false, false).Ok? && Scan(t[root..], false, false).value.pieces == final
    ensures |Bodies(final, Script(true))| <= 1
  {
    RenderScan(t[root..], false, false);
    SingleExact(final, false, false);
    hide Scan, Bodies, Templates, Single, Render, AllWellFormed, Stops;
  }

  // ----- The style sheet -----

  /** A rule as it is printed. */
  function RuleText(rule: Rule): string {
    "." + rule.name + " { " + rule.declarations + " }"
  }

  /** `texts` are the rules with these names, each once and in the order of the registry; `f` tells which. */
  ghost predicate Picks(f: seq<nat>, texts: seq<string>, rules: seq<Rule>, names: set<string>) {
    && |f| == |texts|
    && (forall k | 0 <= k < |f| :: f[k] < |rules| && texts[k] == RuleText(rules[f[k]]))
    && (forall k, l | 0 <= k < l < |f| :: f[k] < f[l])
    && forall i | 0 <= i < |rules| :: i in f <==> rules[i].name in names
  }

  function Shifted(g: seq<nat>): (f: seq<nat>)
    ensures |f| == |g| && forall k | 0 <= k < |f| :: f[k] == g[k] + 1
  {
    seq(|g|, k requires 0 <= k < |g| => g[k] + 1)
  }

  lemma ShiftedMembers(g: seq<nat>, i: nat)
    ensures i in Shifted(g) <==> i > 0 && i - 1 in g
  {
    if i in Shifted(g) {
      var k :| 0 <= k < |g| && Shifted(g)[k] == i;
      assert g[k] == i - 1;
    }
    if i > 0 && i - 1 in g {
      var k :| 0 <= k < |g| && g[k] == i - 1;
      assert Shifted(g)[k] == i;
    }
  }

  lemma PicksSkip(g: seq<nat>, texts: seq<string>, rule: Rule, rules: seq<Rule>, names: set<string>)
    requires Picks(g, texts, rules, names) && rule.name !in names
    ensures Picks(Shifted(g), texts, [rule] + rules, names)
  {
    hide RuleText, Shifted;
    var all := [rule] + rules;
    forall i | 0 <= i < |all| ensures i in Shifted(g) <==> all[i].name in names {
      ShiftedMembers(g, i);
      if i > 0 { assert all[i] == rules[i - 1]; }
    }
    forall k | 0 <= k < |g| ensures all[Shifted(g)[k]] == rules[g[k]] {}
  }

  lemma PicksTake(g: seq<nat>, texts: seq<string>, rule: Rule, rules: seq<Rule>, names: set<string>)
    requires Picks(g, texts, rules, names) && rule.name in names
    ensures Picks([0] + Shifted(g), [RuleText(rule)] + texts, [rule] + rules, names)
  {
    hide RuleText, Shifted;
    forall i | 0 <= i < |[rule] + rules| ensures i in [0] + Shifted(g) <==> ([rule] + rules)[i].name in names {
      TakenMembers(g, rule, rules, names, i);
    }
    TakenTexts(g, texts, rule, rules);
    TakenAscends(g);
  }

  lemma TakenTexts(g: seq<nat>, texts: seq<string>, rule: Rule, rules: seq<Rule>)
    requires |g| == |texts| && forall k | 0 <= k < |g| :: g[k] < |rules| && texts[k] == RuleText(rules[g[k]])
    ensures var f, all := [0] + Shifted(g), [rule] + rules;
            forall k | 0 <= k < |f| :: f[k] < |all| && ([RuleText(rule)] + texts)[k] == RuleText(all[f[k]])
  {
    hide RuleText, Shifted;
    var f, all := [0] + Shifted(g), [rule] + rules;
    forall k | 0 < k < |f| ensures f[k] == g[k - 1] + 1 && all[f[k]] == rules[g[k - 1]] {}
  }

  lemma TakenAscends(g: seq<nat>)
    requires forall k, l | 0 <= k < l < |g| :: g[k] < g[l]
    ensures var f := [0] + Shifted(g); forall k, l | 0 <= k < l < |f| :: f[k] < f[l]
  {
    hide Shifted;
    var f := [0] + Shifted(g);
    forall k | 0 < k < |f| ensures f[k] == g[k - 1] + 1 {}
  }

  lemma TakenMembers(g: seq<nat>, rule: Rule, rules: seq<Rule>, names: set<string>, i: nat)
    requires rule.name in names && forall i | 0 <= i < |rules| :: i in g <==> rules[i].name in names
    requires i < |[rule] + rules|
    ensures i in [0] + Shifted(g) <==> ([rule] + rules)[i].name in names
  {
    hide Shifted;
    ShiftedMembers(g, i);
    if i > 0 { assert ([rule] + rules)[i] == rules[i - 1]; }
  }

  lemma {:induction false} UsedRulesExact(rules: seq<Rule>, names: set<string>) returns (f: seq<nat>)
    ensures Picks(f, UsedRules(rules, names), rules, names)
  {
    hide Picks, RuleText, Used, Shifted;
    if rules == [] {
      f := [];
      NothingPicked(names);
    } else {
      var texts := UsedRules(rules[1..], names);
      var g := UsedRulesExact(rules[1..], names);
      UsedText(rules[0], names);
      assert [rules[0]] + rules[1..] == rules && [] + texts == texts;
      if rules[0].name in names {
        f := [0] + Shifted(g);
        PicksTake(g, texts, rules[0], rules[1..], names);
      } else {
        f := Shifted(g);
        PicksSkip(g, texts, rules[0], rules[1..], names);
      }
    }
  }

  lemma NothingPicked(names: set<string>)
    ensures Picks([], [], [], names)
  {
  }

  lemma UsedText(rule: Rule, names: set<string>)
    ensures Used(rule, names) == if rule.name in names then [RuleText(rule)] else []
  {
  }

  const PAGE_RULE := ".genui-page { display: flex; flex-direction: column; }"

  lemma PageRuleText()
    ensures GENUI_PAGE == PAGE_RULE && GENUI_PAGE != ""
  {
  }

  lemma {:induction false} JoinEmpty(texts: seq<string>)
    requires forall t | t in texts :: t != ""
    ensures Join(texts, "\n") == "" <==> texts == []
  {
    if texts != [] { assert texts[0] in texts; }
  }

  lemma RulesNotEmpty(rules: seq<Rule>, names: set<string>)
    ensures forall t | t in UsedRules(rules, names) :: t != ""
  {
    var f := UsedRulesExact(rules, names);
    forall t | t in UsedRules(rules, names) ensures t != "" {
      var k :| 0 <= k < |f| && UsedRules(rules, names)[k] == t;
      assert t == RuleText(rules[f[k]]);
    }
  }

  /** The preset's lines: the page's own rule when the runtime is reused, then the used rules when they are wanted. */
  function PresetLines(options: Options, world: World, names: set<string>): seq<string> {
    (if options.reuse then [PAGE_RULE] else [])
    + (if options.preset.Default? then UsedRules(world.rules, names) else [])
  }

  lemma PresetExact(options: Options, world: World, names: set<string>)
    ensures PresetCss(options, world, names) == Join(PresetLines(options, world, names), "\n")
    ensures PresetCss(options, world, names) == "" <==> PresetLines(options, world, names) == []
  {
    PageRuleText();
    var page := if options.reuse then GENUI_PAGE else "";
    var texts := if options.preset.Default? then UsedRules(world.rules, names) else [];
    if options.preset.Default? { RulesNotEmpty(world.rules, names); }
    hide PAGE_RULE, GENUI_PAGE, UsedRules;
    JoinEmpty(texts);
    TwoParts(page, Join(texts, "\n"));
    if page != "" && texts != [] {
      JoinAppend([page], texts, "\n");
    } else if page != "" {
      assert [page] + [] == [page];
    } else {
      assert [] + texts == texts;
    }
  }

  lemma TwoParts(a: string, b: string)
    ensures Join(NonEmpty([a, b]), "\n")
         == if a == "" then b else if b == "" then a else a + "\n" + b
  {
    assert [a, b][1..] == [b] && [b][1..] == [];
    assert NonEmpty([b]) == if b == "" then [] else [b];
    assert [a] + [b] == [a, b];
  }

  /** A class is wanted when the template wears it, or a literal of the main script mentions it. */
  ghost predicate WantedClass(name: string, pieces: seq<Piece>, options: Options, world: World) {
    (exists t, xs: seq<XmlFragment.XmlNode> ::
       t in Templates(pieces) && world.parse(t) == Some(xs) && exists x | x in xs :: FragmentMeaning.Wears(x, name))
    || (options.preset.Default? && exists b | b in Bodies(pieces, Script(true)) :: name in world.literals(b))
  }

  lemma ClassNamesWanted(pieces: seq<Piece>, tail: string, options: Options, world: World, name: string)
    requires IsComplete(pieces, tail, options, world)
    ensures name in ClassNames(pieces, options, world) <==> WantedClass(name, pieces, options, world)
  {
    MainFirst(pieces);
    TemplateFirst(pieces);
    hide MainBody, TemplateBody, Bodies, Templates, Trim, FragmentCompiler.Compiles, FragmentCompiler.Generate,
         FragmentMeaning.Wears;
    var mains, ts := Bodies(pieces, Script(true)), Templates(pieces);
    assert mains == [mains[0]];
    if options.template {
      assert ts == [ts[0]] && ts[0] in ts;
      GeneratedCode(ts[0], world);
      FragmentMeaning.NamesExact(ts[0], world.parse(ts[0]), FragmentCompiler.Generate(ts[0], world.parse(ts[0])).value);
    }
  }

  /** The style blocks of an assembled document, told from the authored ones and the preset's lines. */
  function Sheet(authored: seq<string>, preset: seq<string>): seq<string> {
    if authored == [] && preset == [] then []
    else if authored == [] then ["\n" + Join(preset, "\n") + "\n"]
    else [Join(preset + authored, "\n")]
  }

  lemma FinalSheet(pieces: seq<Piece>, options: Options, world: World)
    ensures Bodies(FinalPieces(pieces, PlanFor(pieces, options, world)), Style)
         == Sheet(Bodies(pieces, Style), PresetLines(options, world, ClassNames(pieces, options, world)))
  {
    hide *;
    ArtifactProjection.FinalBodies(pieces, options, world);
    PresetExact(options, world, ClassNames(pieces, options, world));
    SheetText(PresetLines(options, world, ClassNames(pieces, options, world)), Bodies(pieces, Style));
  }

  /** The classes are the wanted ones, and the lines of the preset are the rules for them, if they are asked for. */
  lemma LinesExact(pieces: seq<Piece>, tail: string, options: Options, world: World)
    returns (lines: seq<string>, f: seq<nat>)
    requires IsComplete(pieces, tail, options, world)
    ensures var names := ClassNames(pieces, options, world);
            && (forall name :: name in names <==> WantedClass(name, pieces, options, world))
            && PresetLines(options, world, names) == (if options.reuse then [PAGE_RULE] else []) + lines
            && if options.preset.Default? then Picks(f, lines, world.rules, names) else lines == []
  {
    hide IsComplete, WantedClass, ClassNames, Picks, UsedRules, PAGE_RULE;
    var names := ClassNames(pieces, options, world);
    forall name ensures name in names <==> WantedClass(name, pieces, options, world) {
      ClassNamesWanted(pieces, tail, options, world, name);
    }
    lines, f := [], [];
    if options.preset.Default? {
      lines := UsedRules(world.rules, names);
      f := UsedRulesExact(world.rules, names);
    }
  }

  /** An accepted document, and the blocks that a scan of the assembled text finds. */
  lemma AssembledBlocks(source: string, options: Options, world: World) returns (pieces: seq<Piece>, tail: string)
    requires ArtifactProjection.Sound(world) && FailureOf(source, options, world).None?
    ensures IsDocument(source, pieces, tail) && IsComplete(pieces, tail, options, world)
    ensures var t := Assembled(source, options, world);
            && RootEnd(t).Some? && Scan(t[RootEnd(t).value..], false, false).Ok?
            && Scan(t[RootEnd(t).value..], false, false).value.pieces
               == FinalPieces(pieces, PlanFor(pieces, options, world))
  {
    hide Scan, Render, AllWellFormed, Single, Trim, Stops, RootEnd, IsComplete, Assembled, PlanFor, FinalPieces,
         FinalTail, TemplateBody, MainBody, ArtifactProjection.Sound, FailureOf;
    var root;
    root, pieces, tail := ArtifactProjection.Accepted(source, options, world);
    RenderScan(source[root..], false, false);
    NotUnknown(source, options, world);
    ScannedExact(source, options, world, pieces, tail);
    ArtifactProjection.Rescans(source, options, world);
  }

  /**
   * The style sheet of an assembled document, as a scan of the assembled text finds it: one block at most, which holds
   * the preset's lines in front of the authored styles in source order. The preset's lines are the page's own rule when
   * the runtime is reused, and with the default preset exactly the registered rules whose class is wanted.
   */
  lemma StylesExact(source: string, options: Options, world: World)
    returns (pieces: seq<Piece>, tail: string, names: set<string>, lines: seq<string>, f: seq<nat>)
    requires ArtifactProjection.Sound(world) && FailureOf(source, options, world).None?
    ensures IsDocument(source, pieces, tail) && IsComplete(pieces, tail, options, world)
    ensures forall name :: name in names <==> WantedClass(name, pieces, options, world)
    ensures if options.preset.Default? then Picks(f, lines, world.rules, names) else lines == []
    ensures var t := Assembled(source, options, world);
            && RootEnd(t).Some? && Scan(t[RootEnd(t).value..], false, false).Ok?
            && Bodies(Scan(t[RootEnd(t).value..], false, false).value.pieces, Style)
               == Sheet(Bodies(pieces, Style), (if options.reuse then [PAGE_RULE] else []) + lines)
  {
    hide *;
    pieces, tail := AssembledBlocks(source, options, world);
    names := ClassNames(pieces, options, world);
    lines, f := LinesExact(pieces, tail, options, world);
    FinalSheet(pieces, options, world);
  }

  lemma SheetText(preset: seq<string>, authored: seq<string>)
    requires Join(preset, "\n") == "" <==> preset == []
    ensures ArtifactProjection.StyleBodies(authored, Join(preset, "\n")) == Sheet(authored, preset)
  {
    if authored != [] {
      if preset == [] {
        assert preset + authored == authored;
      } else {
        JoinAppend(preset, authored, "\n");
      }
    }
  }
}
