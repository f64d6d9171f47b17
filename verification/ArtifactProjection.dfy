/** An assembled document is a fixed point: it re-extracts, re-scans and re-assembles to itself. */
module ArtifactProjection {
  import opened Text
  import opened ArtifactScan
  import opened ArtifactAssembly
  import ArtifactTransform
  import FragmentScript
  import ScriptLiterals
  import ElementMachine

  // ----- Texts that do not contain a closing tag -----

  predicate Free(s: string, p: string) {
    forall j: nat | j < |s| :: !At(s, p, j)
  }

  /** `c` occurs in `p` at most as its first character. */
  predicate Guarded(p: string, c: char) {
    forall k | 0 < k < |p| :: p[k] != c
  }

  lemma AtInFront(a: string, b: string, p: string, j: nat)
    requires j + |p| <= |a|
    ensures At(a + b, p, j) <==> At(a, p, j)
  {
    assert (a + b)[j..j + |p|] == a[j..j + |p|];
  }

  lemma AtInRest(a: string, b: string, p: string, j: nat)
    requires j >= |a|
    ensures At(a + b, p, j) <==> At(b, p, j - |a|)
  {
    if j + |p| <= |a + b| { assert (a + b)[j..j + |p|] == b[j - |a|..j - |a| + |p|]; }
  }

  /** An occurrence across the border has the first character behind it inside. */
  lemma AtAcross(a: string, b: string, p: string, j: nat)
    requires At(a + b, p, j) && j < |a| < j + |p| && b != ""
    ensures p[|a| - j] == b[0]
  {
    CharacterAt(a + b, p, j, |a| - j);
  }

  lemma FreeJoin(a: string, b: string, p: string)
    requires Free(a, p) && Free(b, p) && (b == "" || Guarded(p, b[0]))
    ensures Free(a + b, p)
  {
    hide At;
    forall j: nat | j < |a + b| ensures !At(a + b, p, j) {
      if j >= |a| {
        AtInRest(a, b, p, j);
      } else if j + |p| <= |a| {
        AtInFront(a, b, p, j);
      } else if At(a + b, p, j) {
        AtFits(a + b, p, j);
        AtAcross(a, b, p, j);
      }
    }
  }

  lemma AtBack(s: string, p: string)
    ensures At(s + p, p, |s|)
  {
    assert (s + p)[|s|..|s| + |p|] == p;
  }

  lemma AtFits(s: string, p: string, j: nat)
    requires At(s, p, j)
    ensures j + |p| <= |s|
  {
  }

  lemma FreeWithout(s: string, p: string)
    requires |p| > 0 && p[0] !in s
    ensures Free(s, p)
  {
    forall j: nat | j < |s| ensures !At(s, p, j) {
      assert s[j] in s;
      if j + |p| <= |s| { assert s[j..j + |p|][0] == s[j]; }
    }
  }

  predicate Tag(kind: Kind) {
    !kind.Comment?
  }

  lemma TagCloses(kind: Kind)
    requires Tag(kind)
    ensures Close(kind)[0] == '<' && Guarded(Close(kind), '<') && Guarded(Close(kind), '\n')
  {
  }

  lemma EndsWhenFree(kind: Kind, body: string)
    requires Tag(kind)
    ensures Ends(kind, body) <==> Free(body, Close(kind))
  {
    hide Close, At, IndexOf;
    TagCloses(kind);
    var c := Close(kind);
    AtBack(body, c);
    if Free(body, c) {
      forall j: nat | j < |body| ensures !At(body + c, c, j) {
        if j + |c| <= |body| {
          AtInFront(body, c, c, j);
        } else if At(body + c, c, j) {
          AtAcross(body, c, c, j);
        }
      }
      IndexOfUnique(body + c, c, 0, |body|);
    } else {
      var j: nat :| j < |body| && At(body, c, j);
      AtFits(body, c, j);
      AtInFront(body, c, c, j);
    }
  }

  /** A line break keeps two bodies apart. */
  lemma EndsJoin(kind: Kind, a: string, b: string)
    requires Tag(kind) && Ends(kind, a) && Ends(kind, b) && (b == "" || b[0] == '\n')
    ensures Ends(kind, a + b)
  {
    hide Close, Ends;
    TagCloses(kind);
    EndsWhenFree(kind, a);
    EndsWhenFree(kind, b);
    FreeJoin(a, b, Close(kind));
    EndsWhenFree(kind, a + b);
  }

  lemma EndsPlain(kind: Kind, body: string)
    requires Tag(kind) && '<' !in body
    ensures Ends(kind, body)
  {
    hide Close, Ends;
    TagCloses(kind);
    FreeWithout(body, Close(kind));
    EndsWhenFree(kind, body);
  }

  /** One more character in front moves an occurrence, and begins none that begins differently. */
  lemma AtBehind(x: char, body: string, c: string, j: nat)
    requires c != "" && c[0] != x
    ensures At([x] + body, c, j) ==> j > 0 && At(body, c, j - 1)
  {
    var s := [x] + body;
    if At(s, c, j) {
      assert s[j..j + |c|][0] == s[j];
      if j > 0 { assert body[j - 1..j - 1 + |c|] == s[j..j + |c|]; }
    }
  }

  lemma EndsLine(kind: Kind, body: string)
    requires Tag(kind) && Ends(kind, body)
    ensures Ends(kind, "\n" + body)
  {
    hide Ends, Close, At;
    var c := Close(kind);
    TagCloses(kind);
    EndsWhenFree(kind, body);
    var s := ['\n'] + body;
    forall j: nat | j < |s| ensures !At(s, c, j) { AtBehind('\n', body, c, j); }
    EndsWhenFree(kind, s);
  }

  lemma {:induction false} EndsLines(kind: Kind, parts: seq<string>)
    requires Tag(kind) && forall p | p in parts :: Ends(kind, p)
    ensures Ends(kind, Join(parts, "\n"))
  {
    hide Ends;
    if parts == [] {
      EndsPlain(kind, "");
    } else if |parts| > 1 {
      EndsLines(kind, parts[1..]);
      EndsLine(kind, Join(parts[1..], "\n"));
      EndsJoin(kind, parts[0], "\n" + Join(parts[1..], "\n"));
      assert parts[0] + "\n" + Join(parts[1..], "\n") == parts[0] + ("\n" + Join(parts[1..], "\n"));
    }
  }

  // ----- The texts the assembler puts in -----

  /** What is asked of the rule registry and the shared runtime text. */
  ghost predicate Sound(world: World) {
    && (forall r | r in world.rules :: '<' !in r.name && '<' !in r.declarations)
    && (forall t :: Ends(Script(true), world.shared(t)) && world.shared(t) != "" && world.shared(t)[0] == '\n')
  }

  lemma ProgramEnds(code: seq<ElementMachine.Instr>)
    ensures Ends(Script(true), FragmentScript.ProgramText(code))
  {
    var s := FragmentScript.ProgramText(code);
    FragmentScript.ProgramQuiet(code);
    forall j: nat | j < |s| ensures !At(s, "</script>", j) {
      assert !ScriptLiterals.ClosesScript(s[j..]);
      if At(s, "</script>", j) {
        var t := s[j..];
        assert t[..9] == s[j..j + 9] == "</script>";
        SpellsTag(t);
        assert false;
      }
    }
    EndsWhenFree(Script(true), s);
  }

  lemma SpellsTag(t: string)
    requires |t| >= 9 && t[..9] == "</script>"
    ensures ScriptLiterals.ClosesScript(t)
  {
    var tag := "</script>";
    assert t[0] == t[..9][0] && t[1] == t[..9][1];
    forall k | 0 <= k < 6 ensures ScriptLiterals.Folds(t[2 + k], ScriptLiterals.TAG[k]) {
      assert t[2 + k] == t[..9][2 + k] == tag[2 + k] == ScriptLiterals.TAG[k];
    }
  }

  lemma FactoryEnds(code: seq<ElementMachine.Instr>)
    ensures Ends(Script(true), FactoryText(code)) && FactoryText(code) != "" && FactoryText(code)[0] == '\n'
  {
    hide FragmentScript.ProgramText, Ends;
    var kind, program := Script(true), FragmentScript.ProgramText(code);
    ProgramEnds(code);
    FixedEnds();
    EndsJoin(kind, program, FACTORY_TAIL);
    EndsLine(kind, program + FACTORY_TAIL);
    assert "\n" + (program + FACTORY_TAIL) == "\n" + program + FACTORY_TAIL;
    EndsJoin(kind, FACTORY_HEAD, "\n" + program + FACTORY_TAIL);
  }

  lemma FixedEnds()
    ensures Ends(Script(true), FACTORY_HEAD) && Ends(Script(true), FACTORY_TAIL)
  {
    hide Ends;
    NoTagIn(FACTORY_HEAD);
    NoTagIn(FACTORY_TAIL);
    EndsPlain(Script(true), FACTORY_HEAD);
    EndsPlain(Script(true), FACTORY_TAIL);
  }

  lemma NoTagIn(s: string)
    requires forall i | 0 <= i < |s| :: s[i] != '<'
    ensures '<' !in s
  {
  }

  /** Whatever the plan adds to the main script, the script still ends where it did. */
  lemma AppendedEnds(pieces: seq<Piece>, options: Options, world: World)
    requires Sound(world)
    ensures var a := Appended(pieces, options, world);
            a.Some? ==> Ends(Script(true), a.value) && a.value != "" && a.value[0] == '\n'
  {
    hide FactoryText, Ends, Generated;
    var generated := Generated(pieces, world);
    if generated.Some? && generated.value.Ok? {
      var code := generated.value.value.code;
      FactoryEnds(code);
      if options.reuse {
        EndsJoin(Script(true), FactoryText(code), world.shared(options.template));
      } else {
        assert FactoryText(code) + "" == FactoryText(code);
      }
    }
  }

  lemma {:induction false} RulesPlain(rules: seq<Rule>, names: set<string>)
    requires forall r | r in rules :: '<' !in r.name && '<' !in r.declarations
    ensures forall s | s in UsedRules(rules, names) :: '<' !in s
  {
    if rules != [] {
      assert rules[0] in rules;
      RulesPlain(rules[1..], names);
    }
  }

  /** Used rules come in the order of the registry, each exactly when its class is used. */
  lemma {:induction false} RulesInOrder(before: seq<Rule>, rule: Rule, after: seq<Rule>, names: set<string>)
    ensures UsedRules(before + [rule] + after, names)
         == UsedRules(before, names) + Used(rule, names) + UsedRules(after, names)
  {
    hide UsedRules, Used;
    UsedFirst(rule, after, names);
    if before == [] {
      UsedNone(names);
      assert before + [rule] + after == [rule] + after;
    } else {
      RulesInOrder(before[1..], rule, after, names);
      UsedFirst(before[0], before[1..], names);
      UsedFirst(before[0], before[1..] + [rule] + after, names);
      assert before == [before[0]] + before[1..];
      assert before + [rule] + after == [before[0]] + (before[1..] + [rule] + after);
      Regrouped(Used(before[0], names), UsedRules(before[1..], names), Used(rule, names), UsedRules(after, names));
    }
  }

  lemma Regrouped(a: seq<string>, b: seq<string>, c: seq<string>, d: seq<string>)
    ensures a + (b + c + d) == a + b + c + d
  {
  }

  lemma UsedNone(names: set<string>)
    ensures UsedRules([], names) == []
  {
  }

  lemma UsedFirst(rule: Rule, rest: seq<Rule>, names: set<string>)
    ensures UsedRules([rule] + rest, names) == Used(rule, names) + UsedRules(rest, names)
  {
    assert ([rule] + rest)[1..] == rest;
  }

  lemma {:induction false} JoinPlain(parts: seq<string>)
    requires forall s | s in parts :: '<' !in s
    ensures '<' !in Join(parts, "\n")
  {
    if |parts| > 1 {
      assert parts[0] in parts;
      JoinPlain(parts[1..]);
    } else if |parts| == 1 {
      assert parts[0] in parts;
    }
  }

  lemma {:induction false} NonEmptyFrom(parts: seq<string>)
    ensures forall s | s in NonEmpty(parts) :: s in parts && s != ""
  {
    if parts != [] { NonEmptyFrom(parts[1..]); }
  }

  lemma PagePlain()
    ensures '<' !in GENUI_PAGE
  {
    NoTagIn(".genui-page { display: flex;");
    NoTagIn(" flex-direction: column; }");
  }

  lemma PresetPlain(options: Options, world: World, names: set<string>)
    requires Sound(world)
    ensures '<' !in PresetCss(options, world, names)
  {
    RulesPlain(world.rules, names);
    JoinPlain(UsedRules(world.rules, names));
    PagePlain();
    var parts := [if options.reuse then GENUI_PAGE else "",
                  if options.preset.Default? then GeneratePresetStyles(world.rules, names) else ""];
    NonEmptyFrom(parts);
    hide GENUI_PAGE;
    JoinPlain(NonEmpty(parts));
  }

  lemma {:induction false} BodiesEnd(pieces: seq<Piece>, kind: Kind)
    requires AllWellFormed(pieces)
    ensures forall b | b in Bodies(pieces, kind) :: Ends(kind, b)
  {
    hide Ends;
    if pieces != [] {
      assert WellFormed(pieces[0]);
      BodiesEnd(pieces[1..], kind);
    }
  }

  /** The style text the plan puts in ends where it should. */
  lemma StylesEnd(pieces: seq<Piece>, options: Options, world: World)
    requires Sound(world) && AllWellFormed(pieces)
    ensures var plan := PlanFor(pieces, options, world);
            && (plan.css.Some? ==> Ends(Style, plan.css.value))
            && (plan.inserted.Some? ==> Ends(Style, "\n" + plan.inserted.value + "\n"))
  {
    hide Ends, PresetCss, Bodies, ClassNames, Appended, TemplateBody, Sound;
    var preset, styles := PresetCss(options, world, ClassNames(pieces, options, world)), Bodies(pieces, Style);
    var joined := Join(styles, "\n");
    PresetPlain(options, world, ClassNames(pieces, options, world));
    BodiesEnd(pieces, Style);
    EndsLines(Style, styles);
    EndsLine(Style, joined);
    EndsPlain(Style, preset);
    EndsJoin(Style, preset, "\n" + joined);
    assert preset + ("\n" + joined) == preset + "\n" + joined && "" + joined == joined;
    NoTagIn("\n");
    EndsPlain(Style, "\n" + preset + "\n");
  }

  // ----- The rewritten blocks are in normal form -----

  lemma NewBodyEnds(p: Piece, pieces: seq<Piece>, options: Options, world: World)
    requires Sound(world) && AllWellFormed(pieces) && p in pieces
    ensures Ends(p.kind, NewBody(p, PlanFor(pieces, options, world)))
  {
    hide Ends, PresetCss, Bodies, ClassNames, Appended, TemplateBody, Sound, Join;
    assert WellFormed(p);
    var plan := PlanFor(pieces, options, world);
    AppendedEnds(pieces, options, world);
    StylesEnd(pieces, options, world);
    if IsMain(p) && plan.appended.Some? { EndsJoin(p.kind, p.body, plan.appended.value); }
  }

  lemma NoSpace()
    ensures AllSpace("")
  {
  }

  lemma SpaceJoin(a: string, b: string)
    requires AllSpace(a) && AllSpace(b)
    ensures AllSpace(a + b)
  {
  }

  lemma {:induction false} RewrittenWellFormed(pieces: seq<Piece>, plan: Plan, carry: string, seen: bool)
    requires AllWellFormed(pieces) && AllSpace(carry)
    requires forall p | p in pieces :: Ends(p.kind, NewBody(p, plan))
    ensures AllWellFormed(Rewritten(pieces, plan, carry, seen)) && AllSpace(Leftover(pieces, plan, carry, seen))
    decreases pieces
  {
    hide Ends, NewBody, Dropped, AllSpace;
    if pieces != [] {
      var p, rest := pieces[0], pieces[1..];
      assert p in pieces && WellFormed(p);
      SpaceJoin(carry, p.gap);
      NoSpace();
      RewrittenWellFormed(rest, plan, if Dropped(p, plan, seen) then carry + p.gap else "", Seen(p, seen));
    }
  }

  /** Templates are all dropped, so nothing is left to be counted but the main script. */
  lemma {:induction false} RewrittenSingle(pieces: seq<Piece>, plan: Plan, carry: string, seen: bool, t: bool, m: bool)
    requires Single(pieces, t, m) && forall p | p in pieces :: IsTemplate(p) ==> plan.drop
    ensures Single(Rewritten(pieces, plan, carry, seen), false, m)
    ensures TemplateBody(Rewritten(pieces, plan, carry, seen)).None?
    decreases pieces
  {
    hide NewBody;
    if pieces != [] {
      var p := pieces[0];
      assert p in pieces;
      RewrittenSingle(pieces[1..], plan, if Dropped(p, plan, seen) then carry + p.gap else "", Seen(p, seen),
                      t || IsTemplate(p), m || IsMain(p));
    }
  }

  /** Scripts and comments stay, in order, the main script with its addition. */
  lemma {:induction false} RewrittenBodies(pieces: seq<Piece>, plan: Plan, carry: string, seen: bool)
    ensures Bodies(Rewritten(pieces, plan, carry, seen), Script(false)) == Bodies(pieces, Script(false))
    ensures Bodies(Rewritten(pieces, plan, carry, seen), Comment) == Bodies(pieces, Comment)
    ensures MainBody(Rewritten(pieces, plan, carry, seen))
         == if MainBody(pieces).None? || plan.appended.None? then MainBody(pieces)
            else Some(MainBody(pieces).value + plan.appended.value)
    decreases pieces
  {
    if pieces != [] {
      var p := pieces[0];
      RewrittenBodies(pieces[1..], plan, if Dropped(p, plan, seen) then carry + p.gap else "", Seen(p, seen));
    }
  }

  /** Of merged styles one block is left, the first; styles that are not merged stay. */
  lemma {:induction false} RewrittenStyles(pieces: seq<Piece>, plan: Plan, carry: string, seen: bool)
    ensures Bodies(Rewritten(pieces, plan, carry, seen), Style)
         == if plan.css.None? then Bodies(pieces, Style)
            else if seen || Bodies(pieces, Style) == [] then []
            else [plan.css.value]
    decreases pieces
  {
    if pieces != [] {
      var p := pieces[0];
      RewrittenStyles(pieces[1..], plan, if Dropped(p, plan, seen) then carry + p.gap else "", Seen(p, seen));
    }
  }

  const IDLE := Plan(false, None, None, None)

  /** A plan with nothing to do leaves the blocks as they are. */
  lemma {:induction false} RewrittenIdle(pieces: seq<Piece>, seen: bool)
    ensures Rewritten(pieces, IDLE, "", seen) == pieces && Leftover(pieces, IDLE, "", seen) == ""
  {
    if pieces != [] {
      var p := pieces[0];
      RewrittenIdle(pieces[1..], Seen(p, seen));
      assert "" + p.gap == p.gap;
      assert [p] + pieces[1..] == pieces;
    }
  }

  // ----- The end of the document -----

  lemma {:induction false} TrimEndExact(s: string, gap: string)
    requires AllSpace(gap) && (s == "" || !IsSpace(s[|s| - 1]))
    ensures TrimEnd(s + gap) == s
  {
    hide IsSpace;
    if gap == "" {
      assert s + gap == s;
    } else {
      var t := s + gap;
      assert t[|t| - 1] == gap[|gap| - 1] && gap[|gap| - 1] in gap;
      assert t[..|t| - 1] == s + gap[..|gap| - 1];
      TrimEndExact(s, gap[..|gap| - 1]);
    }
  }

  /** The tail: white space, the closing tag, white space. */
  lemma TailShape(tail: string) returns (before: string, after: string)
    requires Trim(tail) == ROOT_END
    ensures tail == before + ROOT_END + after && AllSpace(before) && AllSpace(after)
  {
    var i := SkipSpace(tail, 0);
    var rest := TrimStart(tail);
    before, after := tail[..i], rest[|ROOT_END|..];
    assert tail[0..i] == before;
    assert rest[..|ROOT_END|] == ROOT_END;
  }

  lemma SecondCharacter(s: string, p: string)
    requires |p| > 1 && At(s, p, 0)
    ensures s[1] == p[1]
  {
    assert s[0..|p|][1] == s[1];
  }

  lemma RootEndStopped(after: string)
    ensures OpeningAt(ROOT_END + after).None? && !IsSpace((ROOT_END + after)[0])
  {
    var s := ROOT_END + after;
    assert s[1] == '/';
    forall p: string | |p| > 1 && p[1] != '/' ensures !At(s, p, 0) {
      if At(s, p, 0) { SecondCharacter(s, p); }
    }
    assert "<template"[1] != '/' && "<style>"[1] != '/' && "<!--"[1] != '/';
    assert MAIN_SCRIPT[1] != '/' && BACKGROUND_SCRIPT[1] != '/';
  }

  /** Behind a gap something that opens no block. */
  lemma GapStops(gap: string, rest: string)
    requires AllSpace(gap) && rest != "" && !IsSpace(rest[0]) && OpeningAt(rest).None?
    ensures Stops(gap + rest) && TrimStart(gap + rest) == rest
  {
    hide IsSpace, OpeningAt, AllSpace;
    SkipSpaceExact(gap, rest);
    assert (gap + rest)[|gap|..] == rest;
  }

  /** A tail stays a tail behind more white space. */
  lemma TailStops(carry: string, tail: string)
    requires AllSpace(carry) && Trim(tail) == ROOT_END
    ensures Stops(carry + tail) && Trim(carry + tail) == ROOT_END
  {
    hide IsSpace, OpeningAt, ROOT_END, AllSpace, Stops, TrimStart, TrimEnd;
    var before, after := TailShape(tail);
    var gap, rest := carry + before, ROOT_END + after;
    SpaceJoin(carry, before);
    assert carry + tail == gap + rest;
    RootEndStopped(after);
    RootEndSolid();
    GapStops(gap, rest);
    TrimEndExact(ROOT_END, after);
  }

  lemma RootEndSolid()
    ensures |ROOT_END| == 7 && !IsSpace(ROOT_END[6])
  {
  }

  // ----- The assembled text scans into the rewritten blocks -----

  lemma {:induction false} NoTemplate(pieces: seq<Piece>)
    ensures TemplateBody(pieces).None? <==> forall p | p in pieces :: !IsTemplate(p)
  {
    if pieces != [] {
      NoTemplate(pieces[1..]);
      assert pieces[0] in pieces;
    }
  }

  lemma RewrittenNormal(pieces: seq<Piece>, options: Options, world: World, carry: string)
    requires Sound(world) && AllWellFormed(pieces) && Single(pieces, false, false) && AllSpace(carry)
    ensures var plan := PlanFor(pieces, options, world);
            var blocks := Rewritten(pieces, plan, carry, false);
            && AllWellFormed(blocks) && Single(blocks, false, false) && TemplateBody(blocks).None?
            && AllSpace(Leftover(pieces, plan, carry, false))
  {
    hide Sound, Ends, WellFormed, Rewritten, Leftover, NewBody, AllSpace, Single, TemplateBody, IsTemplate, PresetCss,
         Bodies,
         Appended, ClassNames, Join;
    var plan := PlanFor(pieces, options, world);
    forall p | p in pieces ensures Ends(p.kind, NewBody(p, plan)) { NewBodyEnds(p, pieces, options, world); }
    NoTemplate(pieces);
    RewrittenWellFormed(pieces, plan, carry, false);
    RewrittenSingle(pieces, plan, carry, false, false, false);
  }

  /** A style block in front. */
  lemma InFront(first: Piece, rest: seq<Piece>)
    requires WellFormed(first) && first.kind == Style
    requires AllWellFormed(rest) && Single(rest, false, false) && TemplateBody(rest).None?
    ensures var all := [first] + rest;
            AllWellFormed(all) && Single(all, false, false) && TemplateBody(all).None?
  {
    hide WellFormed;
    assert ([first] + rest)[1..] == rest;
  }

  lemma InsertedWellFormed(pieces: seq<Piece>, options: Options, world: World)
    requires Sound(world) && AllWellFormed(pieces)
    requires PlanFor(pieces, options, world).inserted.Some?
    ensures WellFormed(Piece("\n", Style, "\n" + PlanFor(pieces, options, world).inserted.value + "\n"))
  {
    hide Sound, Ends, PlanFor;
    StylesEnd(pieces, options, world);
  }

  /** The insertion and the rewritten blocks are in normal form, so the assembled text scans into them. */
  lemma FinalScan(pieces: seq<Piece>, tail: string, options: Options, world: World)
    requires Sound(world) && AllWellFormed(pieces) && Single(pieces, false, false) && Trim(tail) == ROOT_END
    ensures var plan := PlanFor(pieces, options, world);
            var final, finalTail := FinalPieces(pieces, plan), FinalTail(Scanned(pieces, tail), plan);
            && Scan(Render(final, finalTail), false, false) == Ok(Scanned(final, finalTail))
            && Trim(finalTail) == ROOT_END && TemplateBody(final).None?
  {
    hide Sound, Ends, WellFormed, Rewritten, Leftover, NewBody, AllSpace, Single, TemplateBody, PlanFor, Scan, Render,
         Trim,
         Stops, ROOT_END, AllWellFormed;
    var plan := PlanFor(pieces, options, world);
    var carry := if plan.inserted.Some? then "\n" else "";
    NoSpace();
    LineIsSpace();
    RewrittenNormal(pieces, options, world, carry);
    if plan.inserted.Some? {
      InsertedWellFormed(pieces, options, world);
      InFront(Piece("\n", Style, "\n" + plan.inserted.value + "\n"), Rewritten(pieces, plan, "\n", false));
    }
    TailStops(Leftover(pieces, plan, carry, false), tail);
    ScanRender(FinalPieces(pieces, plan), FinalTail(Scanned(pieces, tail), plan), false, false);
  }

  lemma LineIsSpace()
    ensures AllSpace("\n")
  {
  }

  /** An accepted document: its root tag, its blocks in normal form, its tail. */
  lemma Accepted(source: string, options: Options, world: World) returns (root: nat, pieces: seq<Piece>, tail: string)
    requires FailureOf(source, options, world).None?
    ensures RootEnd(source) == Some(root) && root <= |source|
    ensures Scan(source[root..], false, false) == Ok(Scanned(pieces, tail))
    ensures source[root..] == Render(pieces, tail) && AllWellFormed(pieces) && Single(pieces, false, false)
    ensures Trim(tail) == ROOT_END && MainBody(pieces).Some?
    ensures var plan := PlanFor(pieces, options, world);
            Assembled(source, options, world)
            == source[..root] + Render(FinalPieces(pieces, plan), FinalTail(Scanned(pieces, tail), plan))
  {
    hide Scan, Render, AllWellFormed, Single, Trim, MainBody, PlanFor, FinalPieces, FinalTail, RootEnd,
         TemplateBody, Generated;
    root := RootEnd(source).value;
    pieces, tail := Scan(source[root..], false, false).value.pieces, Scan(source[root..], false, false).value.tail;
    RenderScan(source[root..], false, false);
  }

  /** The assembled text has the same root tag, and scans into exactly the rewritten blocks. */
  lemma Rescans(source: string, options: Options, world: World)
    requires Sound(world) && FailureOf(source, options, world).None?
    ensures var t, root := Assembled(source, options, world), RootEnd(source).value;
            var scanned := Scan(source[root..], false, false).value;
            var plan := PlanFor(scanned.pieces, options, world);
            && RootEnd(t) == Some(root) && root <= |t| && t[..root] == source[..root]
            && Scan(t[root..], false, false) == Ok(Scanned(FinalPieces(scanned.pieces, plan), FinalTail(scanned, plan)))
            && Trim(FinalTail(scanned, plan)) == ROOT_END
            && TemplateBody(FinalPieces(scanned.pieces, plan)).None?
  {
    var root, pieces, tail := Accepted(source, options, world);
    hide Sound, Scan, Render, AllWellFormed, Single, Trim, PlanFor, FinalPieces, FinalTail, RootEnd, TemplateBody,
         FailureOf, Assembled;
    var plan := PlanFor(pieces, options, world);
    var t := Assembled(source, options, world);
    var behind := Render(FinalPieces(pieces, plan), FinalTail(Scanned(pieces, tail), plan));
    FinalScan(pieces, tail, options, world);
    assert t[..root] == source[..root] && t[root..] == behind;
    RootEndStable(source, t);
  }

  /** Everything off: nothing is planned for a document without template and without a second style block. */
  lemma NothingPlanned(pieces: seq<Piece>, world: World)
    requires TemplateBody(pieces).None? && |Bodies(pieces, Style)| <= 1
    ensures PlanFor(pieces, OFF, world) == IDLE
  {
    hide TemplateBody, Bodies, GENUI_PAGE, Join;
    NothingPreset(world, ClassNames(pieces, OFF, world));
  }

  lemma NothingPreset(world: World, names: set<string>)
    ensures PresetCss(OFF, world, names) == ""
  {
    var parts := ["", ""];
    assert parts[1..] == [""] && [""][1..] == [];
    assert NonEmpty([""]) == [] && NonEmpty(parts) == [];
  }

  function StyleBodies(styles: seq<string>, preset: string): seq<string> {
    if styles == [] then if preset == "" then [] else ["\n" + preset + "\n"]
    else if preset == "" then [Join(styles, "\n")]
    else [preset + "\n" + Join(styles, "\n")]
  }

  /** What the assembled document is made of, kind by kind. */
  lemma FinalBodies(pieces: seq<Piece>, options: Options, world: World)
    ensures var final := FinalPieces(pieces, PlanFor(pieces, options, world));
            var appended := Appended(pieces, options, world);
            && Bodies(final, Script(false)) == Bodies(pieces, Script(false))
            && Bodies(final, Comment) == Bodies(pieces, Comment)
            && MainBody(final) == (if MainBody(pieces).None? || appended.None? then MainBody(pieces)
                                   else Some(MainBody(pieces).value + appended.value))
            && Bodies(final, Style)
               == StyleBodies(Bodies(pieces, Style), PresetCss(options, world, ClassNames(pieces, options, world)))
  {
    hide Bodies, Rewritten, MainBody, Appended, PresetCss, ClassNames, TemplateBody, Join;
    var plan := PlanFor(pieces, options, world);
    var carry := if plan.inserted.Some? then "\n" else "";
    var blocks, styles := Rewritten(pieces, plan, carry, false), Bodies(pieces, Style);
    RewrittenBodies(pieces, plan, carry, false);
    RewrittenStyles(pieces, plan, carry, false);
    if plan.inserted.Some? { InsertedBodies("\n" + plan.inserted.value + "\n", blocks); }
    assert |styles| == 1 ==> styles == [styles[0]];
    if |styles| == 1 { JoinOne(styles[0]); }
    assert "" + Join(styles, "\n") == Join(styles, "\n");
  }

  lemma JoinOne(s: string)
    ensures Join([s], "\n") == s
  {
  }

  lemma InsertedBodies(css: string, blocks: seq<Piece>)
    ensures var all := [Piece("\n", Style, css)] + blocks;
            && Bodies(all, Script(false)) == Bodies(blocks, Script(false))
            && Bodies(all, Comment) == Bodies(blocks, Comment)
            && MainBody(all) == MainBody(blocks)
            && Bodies(all, Style) == [css] + Bodies(blocks, Style)
  {
    assert ([Piece("\n", Style, css)] + blocks)[1..] == blocks;
  }

  /** The main script as the assembler leaves it. */
  function NewScript(pieces: seq<Piece>, options: Options, world: World): string
    requires MainBody(pieces).Some?
  {
    var appended := Appended(pieces, options, world);
    MainBody(pieces).value + if appended.Some? then appended.value else ""
  }

  /** With no template and one style block at most, assembling with everything off refuses only a script. */
  lemma OffChangesNothing(t: string, root: nat, pieces: seq<Piece>, tail: string, world: World)
    requires RootEnd(t) == Some(root) && root <= |t| && Scan(t[root..], false, false) == Ok(Scanned(pieces, tail))
    requires Trim(tail) == ROOT_END && TemplateBody(pieces).None? && MainBody(pieces).Some?
    requires |Bodies(pieces, Style)| <= 1
    ensures FailureOf(t, OFF, world)
         == if world.accepts(MainBody(pieces).value, false, false) then None else Some(ScriptRejected)
    ensures FailureOf(t, OFF, world).None? ==> Assembled(t, OFF, world) == t
  {
    hide Scan, Render, Trim, PlanFor, RootEnd, TemplateBody, MainBody, Bodies, FailureOf, ROOT_END;
    ArtifactTransform.FailureGiven(t, OFF, world, pieces, tail);
    RenderScan(t[root..], false, false);
    NothingPlanned(pieces, world);
    RewrittenIdle(pieces, false);
    assert "" + tail == tail;
    assert t == t[..root] + t[root..];
  }

  lemma FinalScript(pieces: seq<Piece>, options: Options, world: World)
    requires MainBody(pieces).Some?
    ensures var final := FinalPieces(pieces, PlanFor(pieces, options, world));
            MainBody(final) == Some(NewScript(pieces, options, world)) && |Bodies(final, Style)| <= 1
  {
    hide PlanFor, FinalPieces, MainBody, Bodies, Appended, PresetCss, ClassNames;
    FinalBodies(pieces, options, world);
    assert MainBody(pieces).value + "" == MainBody(pieces).value;
  }

  /** Assembling an assembled document again with everything off: refused for its script alone, otherwise unchanged. */
  lemma AssembledAgain(source: string, options: Options, world: World)
    requires Sound(world) && FailureOf(source, options, world).None?
    ensures var t := Assembled(source, options, world);
            var pieces := Scan(source[RootEnd(source).value..], false, false).value.pieces;
            && MainBody(pieces).Some?
            && FailureOf(t, OFF, world)
               == (if world.accepts(NewScript(pieces, options, world), false, false) then None
                   else Some(ScriptRejected))
            && (FailureOf(t, OFF, world).None? ==> Assembled(t, OFF, world) == t)
  {
    var root, pieces, tail := Accepted(source, options, world);
    hide *;
    var plan := PlanFor(pieces, options, world);
    var final := FinalPieces(pieces, plan);
    Rescans(source, options, world);
    FinalScript(pieces, options, world);
    OffChangesNothing(Assembled(source, options, world), root, final, FinalTail(Scanned(pieces, tail), plan), world);
  }

  // ----- Extraction -----

  lemma TrimEndSolid(s: string)
    requires s != "" && !IsSpace(s[0])
    ensures var r := TrimEnd(s); r != "" && r[0] == s[0] && !IsSpace(r[|r| - 1])
  {
    hide IsSpace, TrimEnd;
    var r := TrimEnd(s);
    if |r| < |s| { assert s[|r|..][0] == s[|r|]; }
  }

  /** An extract is a trimmed part of the text, behind a doctype of its own if the part has none. */
  lemma ExtractParts(value: string) returns (start: int, stop: nat)
    ensures start == if IndexOf(value, DOCTYPE, 0) >= 0 then IndexOf(value, DOCTYPE, 0) else FirstRoot(value, 0)
    ensures start < 0 ==> ExtractLynxXmlArtifact(value) == ""
    ensures 0 <= start < |value| ==>
              start < stop <= |value|
              && var part := TrimEnd(value[start..stop]);
                 ExtractLynxXmlArtifact(value) == part || ExtractLynxXmlArtifact(value) == DOCTYPE + "\n" + part
  {
    hide IndexOf, LastIndexOf, TrimEnd, FirstRoot, DOCTYPE, ROOT_END;
    RootEndSolid();
    start := if IndexOf(value, DOCTYPE, 0) >= 0 then IndexOf(value, DOCTYPE, 0) else FirstRoot(value, 0);
    stop := 0;
    if start >= 0 {
      var end := LastIndexOf(value, ROOT_END);
      stop := if end >= start then end + |ROOT_END| else |value|;
    }
  }

  lemma DoctypeSolid()
    ensures !IsSpace('<') && DOCTYPE != "" && DOCTYPE[0] == '<'
  {
  }

  /** An extract begins with a doctype and ends with something other than white space. */
  lemma ExtractSolid(value: string)
    ensures var s := ExtractLynxXmlArtifact(value);
            s != "" ==> s[0] == '<' && !IsSpace(s[|s| - 1])
  {
    hide *;
    var start, stop := ExtractParts(value);
    if start >= 0 {
      StartsWithTag(value, start);
      DoctypeSolid();
      var part := value[start..stop];
      assert part[0] == '<';
      TrimEndSolid(part);
      LastBehind(DOCTYPE + "\n", TrimEnd(part));
    }
  }

  lemma LastBehind(a: string, b: string)
    requires b != ""
    ensures (a + b)[|a + b| - 1] == b[|b| - 1]
  {
  }

  lemma {:induction false} FirstRootOpens(s: string, from: nat)
    ensures FirstRoot(s, from) >= 0 ==> RootOpens(s, FirstRoot(s, from))
    decreases |s| - from
  {
    if from < |s| && !RootOpens(s, from) { FirstRootOpens(s, from + 1); }
  }

  lemma StartsWithTag(value: string, start: nat)
    requires start == if IndexOf(value, DOCTYPE, 0) >= 0 then IndexOf(value, DOCTYPE, 0) else FirstRoot(value, 0)
    ensures start < |value| && value[start] == '<'
  {
    hide IndexOf, FirstRoot;
    FirstRootOpens(value, 0);
    if IndexOf(value, DOCTYPE, 0) >= 0 {
      assert value[start..start + |DOCTYPE|][0] == DOCTYPE[0];
    } else {
      assert value[start..start + 5][0] == '<';
    }
  }

  lemma {:induction false} RenderEnds(pieces: seq<Piece>, tail: string)
    ensures |tail| <= |Render(pieces, tail)| && Render(pieces, tail)[|Render(pieces, tail)| - |tail|..] == tail
  {
    hide RenderPiece;
    if pieces != [] {
      var head, rest := RenderPiece(pieces[0]), Render(pieces[1..], tail);
      RenderEnds(pieces[1..], tail);
      assert (head + rest)[|head + rest| - |tail|..] == rest[|rest| - |tail|..];
    }
  }

  /** A tail that does not end in white space ends with the closing tag. */
  lemma TailEnds(tail: string)
    requires Trim(tail) == ROOT_END && tail != "" && !IsSpace(tail[|tail| - 1])
    ensures |tail| >= |ROOT_END| && At(tail, ROOT_END, |tail| - |ROOT_END|)
  {
    hide IsSpace, Trim;
    var before, after := TailShape(tail);
    if after != "" { LastIsSpace(before + ROOT_END, after); }
  }

  lemma LastIsSpace(s: string, gap: string)
    requires AllSpace(gap) && gap != ""
    ensures IsSpace((s + gap)[|s + gap| - 1])
  {
    hide IsSpace;
    assert (s + gap)[|s + gap| - 1] == gap[|gap| - 1] && gap[|gap| - 1] in gap;
  }

  lemma TailNotEmpty(tail: string)
    requires Trim(tail) == ROOT_END
    ensures tail != ""
  {
  }

  lemma AtEnd(s: string, tail: string, p: string)
    requires |tail| <= |s| && s[|s| - |tail|..] == tail && |p| <= |tail| && At(tail, p, |tail| - |p|)
    ensures At(s, p, |s| - |p|)
  {
    assert s[|s| - |p|..|s| - |p| + |p|] == s[|s| - |tail|..][|tail| - |p|..|tail| - |p| + |p|];
  }

  lemma DoctypeFirst(t: string)
    requires RootEnd(t).Some? && t != "" && !IsSpace(t[0])
    ensures At(t, DOCTYPE, 0)
  {
    hide IsSpace, DOCTYPE;
  }

  lemma AngleSolid()
    ensures !IsSpace('<')
  {
  }

  /** The ends of a document survive: same first character, same last one. */
  lemma EndsSurvive(source: string, root: nat, pieces: seq<Piece>, tail: string, final: seq<Piece>, carry: string)
    requires 0 < root <= |source| && source[root..] == Render(pieces, tail) && tail != ""
    ensures var t := source[..root] + Render(final, carry + tail);
            && t[0] == source[0] && t[|t| - 1] == source[|source| - 1] == tail[|tail| - 1]
            && |carry + tail| <= |t| && t[|t| - |carry + tail|..] == carry + tail
  {
    hide Render;
    RenderEnds(pieces, tail);
    RenderEnds(final, carry + tail);
    var before, after := Render(pieces, tail), Render(final, carry + tail);
    var t := source[..root] + after;
    assert source == source[..root] + before;
    assert before[|before| - 1] == before[|before| - |tail|..][|tail| - 1];
    assert after[|after| - 1] == after[|after| - |carry + tail|..][|carry + tail| - 1];
    assert t[|t| - |carry + tail|..] == after[|after| - |carry + tail|..];
  }

  lemma FinalTailIs(pieces: seq<Piece>, tail: string, plan: Plan) returns (carry: string)
    ensures FinalTail(Scanned(pieces, tail), plan) == carry + tail
  {
    hide Leftover;
    carry := Leftover(pieces, plan, if plan.inserted.Some? then "\n" else "", false);
  }

  /** An assembled extract is its own extract. */
  lemma ExtractedAgain(value: string, options: Options, world: World)
    requires Sound(world) && FailureOf(ExtractLynxXmlArtifact(value), options, world).None?
    ensures var t := Assembled(ExtractLynxXmlArtifact(value), options, world);
            ExtractLynxXmlArtifact(t) == t
  {
    hide *;
    var source := ExtractLynxXmlArtifact(value);
    var root, pieces, tail := Accepted(source, options, world);
    var plan := PlanFor(pieces, options, world);
    var carry := FinalTailIs(pieces, tail, plan);
    var t := Assembled(source, options, world);
    Rescans(source, options, world);
    ExtractSolid(value);
    AngleSolid();
    RootPositive(source);
    TailNotEmpty(tail);
    EndsSurvive(source, root, pieces, tail, FinalPieces(pieces, plan), carry);
    DoctypeFirst(t);
    TailEnds(carry + tail);
    AtEnd(t, carry + tail, ROOT_END);
    ExtractsItself(t);
  }

  lemma RootPositive(s: string)
    requires RootEnd(s).Some?
    ensures 0 < RootEnd(s).value <= |s|
  {
  }

  /** The main result: extracting and assembling an assembled document, with everything off, leaves it alone. */
  lemma AssemblyIsProjection(value: string, options: Options, world: World)
    requires Sound(world) && FailureOf(ExtractLynxXmlArtifact(value), options, world).None?
    requires FailureOf(Assembled(ExtractLynxXmlArtifact(value), options, world), OFF, world) != Some(ScriptRejected)
    ensures var t := Assembled(ExtractLynxXmlArtifact(value), options, world);
            && FailureOf(ExtractLynxXmlArtifact(t), OFF, world).None?
            && Assembled(ExtractLynxXmlArtifact(t), OFF, world) == t
  {
    hide *;
    ExtractedAgain(value, options, world);
    AssembledAgain(ExtractLynxXmlArtifact(value), options, world);
  }

  // ----- A document that meets the premises -----

  /** No rules, an empty runtime text, analyses that accept everything. */
  const PLAIN_WORLD := World(_ => None, (_, _, _) => true, _ => {}, [], _ => "\n")

  const EMPTY_MAIN := [Piece("", Script(true), "")]

  function SmallestDocument(): string {
    DOCTYPE + ("<lynx>" + Render(EMPTY_MAIN, ROOT_END))
  }

  lemma PlainWorldIsSound()
    ensures Sound(PLAIN_WORLD)
  {
    NoTagIn("\n");
    EndsPlain(Script(true), "\n");
  }

  lemma SmallestRoot(rest: string)
    ensures RootEnd(DOCTYPE + ("<lynx>" + rest)) == Some(|DOCTYPE| + 6)
  {
    var t := DOCTYPE + ("<lynx>" + rest);
    var n := |DOCTYPE|;
    assert t[0] == '<' && t[n] == '<' && t[n + 5] == '>';
    assert t[0..n] == DOCTYPE && t[n..n + 5] == "<lynx" && t[n + 5..n + 6] == ">";
    assert t[0..0] == "" && t[n..n] == "";
    SkipSpaceFrom(t, 0, 0);
    SkipSpaceFrom(t, n, n);
    IndexOfUnique(t, ">", n + 5, n + 5);
    hide SkipSpace, IndexOf, DOCTYPE;
    RootEndAt(t, 0, n, n + 5);
  }

  lemma ClosingTagTrimmed()
    ensures Trim(ROOT_END) == ROOT_END
  {
    RootEndSolid();
    NoSpace();
    RootEndStopped("");
    assert ROOT_END + "" == ROOT_END;
    GapStops("", ROOT_END);
    assert "" + ROOT_END == ROOT_END;
    TrimEndExact(ROOT_END, "");
  }

  lemma SmallestScan()
    ensures Scan(Render(EMPTY_MAIN, ROOT_END), false, false) == Ok(Scanned(EMPTY_MAIN, ROOT_END))
  {
    var p := EMPTY_MAIN[0];
    EndsPlain(p.kind, p.body);
    assert WellFormed(p) && EMPTY_MAIN[1..] == [];
    ClosingTagTrimmed();
    NoSpace();
    TailStops("", ROOT_END);
    assert "" + ROOT_END == ROOT_END;
    hide ROOT_END, WellFormed, Stops, Scan;
    ScanRender(EMPTY_MAIN, ROOT_END, false, false);
  }

  lemma SmallestParts()
    ensures var t, root := SmallestDocument(), |DOCTYPE| + 6;
            && root <= |t| && t[root..] == Render(EMPTY_MAIN, ROOT_END)
            && t == DOCTYPE + ("<lynx>" + Render(EMPTY_MAIN, ROOT_END))
    ensures TemplateBody(EMPTY_MAIN).None? && MainBody(EMPTY_MAIN).Some? && Bodies(EMPTY_MAIN, Style) == []
    ensures PLAIN_WORLD.accepts(MainBody(EMPTY_MAIN).value, false, false)
  {
    hide Render, DOCTYPE, ROOT_END;
    assert EMPTY_MAIN[1..] == [];
  }

  /** The premises of the main result can be met: a document with one empty script, extracted and assembled. */
  lemma PremisesMet()
    ensures var t := SmallestDocument();
            && Sound(PLAIN_WORLD) && ExtractLynxXmlArtifact(t) == t && FailureOf(t, OFF, PLAIN_WORLD).None?
            && FailureOf(Assembled(t, OFF, PLAIN_WORLD), OFF, PLAIN_WORLD).None?
  {
    hide *;
    var t, root := SmallestDocument(), |DOCTYPE| + 6;
    var tail := Render(EMPTY_MAIN, ROOT_END);
    PlainWorldIsSound();
    SmallestParts();
    SmallestRoot(tail);
    SmallestScan();
    ClosingTagTrimmed();
    RenderEnds(EMPTY_MAIN, ROOT_END);
    ExtractsSmallest(tail);
    OffChangesNothing(t, root, EMPTY_MAIN, ROOT_END, PLAIN_WORLD);
  }

  lemma ExtractsSmallest(tail: string)
    requires |ROOT_END| <= |tail| && tail[|tail| - |ROOT_END|..] == ROOT_END
    ensures var t := DOCTYPE + ("<lynx>" + tail); ExtractLynxXmlArtifact(t) == t
  {
    var t := DOCTYPE + ("<lynx>" + tail);
    var n := |t| - |ROOT_END|;
    assert t[0..|DOCTYPE|] == DOCTYPE;
    assert t[n..n + |ROOT_END|] == tail[|tail| - |ROOT_END|..];
    ExtractsItself(t);
  }
}
