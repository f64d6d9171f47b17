/**
 * Assembling a document: what becomes of each block, the edits that bring it about, and the
 * proof that the edited text is the rendering of the rewritten document.
 */
module ArtifactAssembly {
  import opened Text
  import opened Splice
  import opened ArtifactScan
  import XmlFragment
  import FragmentCompiler
  import FragmentScript
  import ElementMachine

  datatype Preset = Omitted | Default | Unknown(name: string)

  datatype Options = Options(template: bool, reuse: bool, preset: Preset)

  const OFF := Options(false, false, Omitted)

  datatype Rule = Rule(name: string, declarations: string)

  /**
   * What the assembler takes from elsewhere: the XML parser, the JavaScript analyses with the verdict on a main
   * script, the class names in its literals, the utility rules in registry order, and the shared runtime text.
   */
  datatype World = World(
    parse: string -> Option<seq<XmlFragment.XmlNode>>,
    accepts: (string, bool, bool) -> bool,
    literals: string -> set<string>,
    rules: seq<Rule>,
    shared: bool -> string)

  datatype Failure =
    | UnsupportedPreset
    | NoRoot
    | Malformed(error: ArtifactScan.Error)
    | Incomplete
    | MissingTemplate
    | TemplateDisabled
    | Fragment(fault: XmlFragment.Error)
    | ScriptRejected

  // ----- Looking at the blocks -----

  function Bodies(pieces: seq<Piece>, kind: Kind): seq<string> {
    if pieces == [] then []
    else (if pieces[0].kind == kind then [pieces[0].body] else []) + Bodies(pieces[1..], kind)
  }

  function TemplateBody(pieces: seq<Piece>): Option<string> {
    if pieces == [] then None
    else if IsTemplate(pieces[0]) then Some(pieces[0].body)
    else TemplateBody(pieces[1..])
  }

  function MainBody(pieces: seq<Piece>): Option<string> {
    if pieces == [] then None
    else if IsMain(pieces[0]) then Some(pieces[0].body)
    else MainBody(pieces[1..])
  }

  // ----- The plan -----

  const GENUI_PAGE := ".genui-page { display: flex;" + " flex-direction: column; }"

  /** The text of a rule whose class is used. */
  function Used(rule: Rule, names: set<string>): seq<string> {
    if rule.name in names then ["." + rule.name + " { " + rule.declarations + " }"] else []
  }

  function UsedRules(rules: seq<Rule>, names: set<string>): seq<string> {
    if rules == [] then [] else Used(rules[0], names) + UsedRules(rules[1..], names)
  }

  function GeneratePresetStyles(rules: seq<Rule>, names: set<string>): string {
    Join(UsedRules(rules, names), "\n")
  }

  function NonEmpty(parts: seq<string>): seq<string> {
    if parts == [] then []
    else (if parts[0] == "" then [] else [parts[0]]) + NonEmpty(parts[1..])
  }

  function PresetCss(options: Options, world: World, names: set<string>): string {
    Join(NonEmpty([if options.reuse then GENUI_PAGE else "",
                   if options.preset.Default? then GeneratePresetStyles(world.rules, names) else ""]), "\n")
  }

  const FACTORY_HEAD := "\nfunction createFragment(page, pageId) {"
  const FACTORY_TAIL := "\nreturn nodeMap;\n}\n"

  function FactoryText(code: seq<ElementMachine.Instr>): string {
    FACTORY_HEAD + ("\n" + FragmentScript.ProgramText(code) + FACTORY_TAIL)
  }

  /**
   * What is done to a document: templates dropped, text appended to the main script, the first style block given a
   * new body and the others dropped, or a style block put right behind the root tag.
   */
  datatype Plan = Plan(drop: bool, appended: Option<string>, css: Option<string>, inserted: Option<string>)

  function Generated(pieces: seq<Piece>, world: World): Option<Result<FragmentCompiler.Generated, XmlFragment.Error>> {
    var body := TemplateBody(pieces);
    if body.None? then None else Some(FragmentCompiler.Generate(body.value, world.parse(body.value)))
  }

  function Appended(pieces: seq<Piece>, options: Options, world: World): Option<string> {
    var generated := Generated(pieces, world);
    if generated.Some? && generated.value.Ok? then
      Some(FactoryText(generated.value.value.code) + (if options.reuse then world.shared(options.template) else ""))
    else if options.reuse then Some(world.shared(false))
    else None
  }

  function ClassNames(pieces: seq<Piece>, options: Options, world: World): set<string> {
    var generated := Generated(pieces, world);
    var main := MainBody(pieces);
    (if generated.Some? && generated.value.Ok? then generated.value.value.classNames else {})
    + (if options.preset.Default? && main.Some? then world.literals(main.value) else {})
  }

  function PlanFor(pieces: seq<Piece>, options: Options, world: World): Plan {
    var preset := PresetCss(options, world, ClassNames(pieces, options, world));
    var styles := Bodies(pieces, Style);
    var merge := styles != [] && (preset != "" || |styles| > 1);
    Plan(TemplateBody(pieces).Some?, Appended(pieces, options, world),
         if merge then Some((if preset != "" then preset + "\n" else "") + Join(styles, "\n")) else None,
         if styles == [] && preset != "" then Some(preset) else None)
  }

  // ----- What can go wrong, in the order it is noticed -----

  function FailureOf(source: string, options: Options, world: World): Option<Failure> {
    var root := RootEnd(source);
    if options.preset.Unknown? then Some(UnsupportedPreset)
    else if root.None? then Some(NoRoot)
    else
      var scanned := Scan(source[root.value..], false, false);
      if scanned.Err? then Some(Malformed(scanned.error))
      else
        var pieces := scanned.value.pieces;
        if Trim(scanned.value.tail) != ROOT_END || MainBody(pieces).None? then Some(Incomplete)
        else if options.template && TemplateBody(pieces).None? then Some(MissingTemplate)
        else if !options.template && TemplateBody(pieces).Some? then Some(TemplateDisabled)
        else
          var generated := Generated(pieces, world);
          if generated.Some? && generated.value.Err? then Some(Fragment(generated.value.error))
          else if !world.accepts(MainBody(pieces).value, options.template, options.reuse) then Some(ScriptRejected)
          else None
  }

  // ----- The rewritten document -----

  function Seen(p: Piece, seen: bool): bool {
    seen || p.kind == Style
  }

  /** The block goes: a template, or a style block after the first one when styles are merged. */
  predicate Dropped(p: Piece, plan: Plan, seen: bool) {
    (IsTemplate(p) && plan.drop) || (p.kind == Style && plan.css.Some? && seen)
  }

  function NewBody(p: Piece, plan: Plan): string {
    if IsMain(p) && plan.appended.Some? then p.body + plan.appended.value
    else if p.kind == Style && plan.css.Some? then plan.css.value
    else p.body
  }

  /** The blocks after the plan; `carry` is the white space left over from blocks dropped just before. */
  function Rewritten(pieces: seq<Piece>, plan: Plan, carry: string, seen: bool): seq<Piece> {
    if pieces == [] then []
    else
      var p := pieces[0];
      if Dropped(p, plan, seen) then Rewritten(pieces[1..], plan, carry + p.gap, Seen(p, seen))
      else [Piece(carry + p.gap, p.kind, NewBody(p, plan))] + Rewritten(pieces[1..], plan, "", Seen(p, seen))
  }

  /** The white space of dropped blocks behind which no block is left. */
  function Leftover(pieces: seq<Piece>, plan: Plan, carry: string, seen: bool): string {
    if pieces == [] then carry
    else
      var p := pieces[0];
      Leftover(pieces[1..], plan, if Dropped(p, plan, seen) then carry + p.gap else "", Seen(p, seen))
  }

  function FinalPieces(pieces: seq<Piece>, plan: Plan): seq<Piece> {
    if plan.inserted.Some? then
      [Piece("\n", Style, "\n" + plan.inserted.value + "\n")] + Rewritten(pieces, plan, "\n", false)
    else Rewritten(pieces, plan, "", false)
  }

  function FinalTail(scanned: Scanned, plan: Plan): string {
    Leftover(scanned.pieces, plan, if plan.inserted.Some? then "\n" else "", false) + scanned.tail
  }

  function Assembled(source: string, options: Options, world: World): string
    requires FailureOf(source, options, world).None?
  {
    var root := RootEnd(source).value;
    var scanned := Scan(source[root..], false, false).value;
    var plan := PlanFor(scanned.pieces, options, world);
    source[..root] + Render(FinalPieces(scanned.pieces, plan), FinalTail(scanned, plan))
  }

  // ----- The edits -----

  /** A block by its offsets. */
  datatype Span = Span(start: nat, end: nat, content: string)

  function TemplateSpans(pieces: seq<Piece>, o: nat): seq<Span> {
    if pieces == [] then []
    else
      var p := pieces[0];
      var end := o + |RenderPiece(p)|;
      (if IsTemplate(p) then [Span(o + |p.gap|, end, p.body)] else []) + TemplateSpans(pieces[1..], end)
  }

  function StyleSpans(pieces: seq<Piece>, o: nat): seq<Span> {
    if pieces == [] then []
    else
      var p := pieces[0];
      var end := o + |RenderPiece(p)|;
      (if p.kind == Style then [Span(o + |p.gap|, end, p.body)] else []) + StyleSpans(pieces[1..], end)
  }

  function BodyEnd(p: Piece, o: nat): nat {
    o + |p.gap| + |Opening(p.kind)| + |p.body|
  }

  function MainSpans(pieces: seq<Piece>, o: nat): seq<Span> {
    if pieces == [] then []
    else
      var p := pieces[0];
      (if IsMain(p) then [Span(BodyEnd(p, o) - |p.body|, BodyEnd(p, o), p.body)] else [])
      + MainSpans(pieces[1..], o + |RenderPiece(p)|)
  }

  function DropEdits(spans: seq<Span>, drop: bool): seq<Edit> {
    if spans == [] || !drop then []
    else [Edit(spans[0].start, spans[0].end, "")] + DropEdits(spans[1..], drop)
  }

  function AppendEdits(spans: seq<Span>, appended: Option<string>): seq<Edit> {
    if spans == [] || appended.None? then []
    else [Edit(spans[0].end, spans[0].end, appended.value)] + AppendEdits(spans[1..], appended)
  }

  function StyleBlock(css: string): string {
    "<style>" + css + "</style>"
  }

  function StyleEdits(spans: seq<Span>, css: Option<string>, seen: bool): seq<Edit> {
    if spans == [] || css.None? then []
    else
      [Edit(spans[0].start, spans[0].end, if seen then "" else StyleBlock(css.value))]
      + StyleEdits(spans[1..], css, true)
  }

  function RootEdits(root: nat, plan: Plan): seq<Edit> {
    if plan.inserted.None? then []
    else [Edit(root, root, "\n<style>\n" + plan.inserted.value + "\n</style>\n")]
  }

  /** The edits of the blocks, in the order they are collected. */
  function BlockEdits(pieces: seq<Piece>, o: nat, plan: Plan, seen: bool): seq<Edit> {
    DropEdits(TemplateSpans(pieces, o), plan.drop)
    + AppendEdits(MainSpans(pieces, o), plan.appended)
    + StyleEdits(StyleSpans(pieces, o), plan.css, seen)
  }
}
