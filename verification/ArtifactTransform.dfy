/** The assembler's own loops: offsets advance, spans and edits are collected, and the edits are spliced in. */
module ArtifactTransform {
  import opened Text
  import opened Splice
  import opened ArtifactScan
  import opened ArtifactAssembly
  import FragmentCompiler
  import ArtifactSplicing

  datatype Output = Output(text: string, xmlFragment: Option<string>)

  // ----- The blocks scanned so far -----

  function Prepend(done: seq<Piece>, rest: Result<Scanned, ArtifactScan.Error>): Result<Scanned, ArtifactScan.Error> {
    if rest.Err? then rest else Ok(rest.value.(pieces := done + rest.value.pieces))
  }

  function Length(pieces: seq<Piece>): nat {
    if pieces == [] then 0 else |RenderPiece(pieces[0])| + Length(pieces[1..])
  }

  lemma LengthCons(p: Piece, rest: seq<Piece>)
    ensures Length([p] + rest) == |RenderPiece(p)| + Length(rest)
  {
    hide RenderPiece;
    assert ([p] + rest)[1..] == rest;
  }

  lemma {:induction false} LengthAppend(done: seq<Piece>, p: Piece)
    ensures Length(done + [p]) == Length(done) + |RenderPiece(p)|
  {
    hide RenderPiece;
    if done == [] {
      assert [] + [p] == [p];
    } else {
      assert (done + [p])[1..] == done[1..] + [p];
      LengthAppend(done[1..], p);
    }
  }

  lemma {:induction false} TemplateSpansAppend(done: seq<Piece>, p: Piece, o: nat)
    ensures TemplateSpans(done + [p], o) == TemplateSpans(done, o) + TemplateSpans([p], o + Length(done))
  {
    hide *;
    if done == [] {
      TemplateSpansNone(p, o);
    } else {
      TemplateSpansAppend(done[1..], p, o + |RenderPiece(done[0])|);
      TemplateSpansAppendOne(done[0], done[1..], p, o);
      assert done == [done[0]] + done[1..];
    }
  }

  lemma TemplateSpansAppendOne(d: Piece, rest: seq<Piece>, p: Piece, o: nat)
    requires var end := o + |RenderPiece(d)|;
             TemplateSpans(rest + [p], end) == TemplateSpans(rest, end) + TemplateSpans([p], end + Length(rest))
    ensures TemplateSpans([d] + rest + [p], o)
         == TemplateSpans([d] + rest, o) + TemplateSpans([p], o + Length([d] + rest))
  {
    hide *;
    TemplateSpansCons(d, rest, o);
    TemplateSpansCons(d, rest + [p], o);
    LengthCons(d, rest);
    assert [d] + rest + [p] == [d] + (rest + [p]);
  }

  lemma TemplateSpansNone(p: Piece, o: nat)
    ensures TemplateSpans([] + [p], o) == TemplateSpans([], o) + TemplateSpans([p], o + Length([]))
  {
    hide RenderPiece, BodyEnd;
    assert [] + [p] == [p];
    assert [] + TemplateSpans([p], o) == TemplateSpans([p], o);
  }

  lemma TemplateSpansCons(d: Piece, rest: seq<Piece>, o: nat)
    ensures TemplateSpans([d] + rest, o) == TemplateSpans([d], o) + TemplateSpans(rest, o + |RenderPiece(d)|)
  {
    hide RenderPiece, BodyEnd;
    assert ([d] + rest)[1..] == rest && [d][1..] == [];
  }

  lemma {:induction false} MainSpansAppend(done: seq<Piece>, p: Piece, o: nat)
    ensures MainSpans(done + [p], o) == MainSpans(done, o) + MainSpans([p], o + Length(done))
  {
    hide *;
    if done == [] {
      MainSpansNone(p, o);
    } else {
      MainSpansAppend(done[1..], p, o + |RenderPiece(done[0])|);
      MainSpansAppendOne(done[0], done[1..], p, o);
      assert done == [done[0]] + done[1..];
    }
  }

  lemma MainSpansAppendOne(d: Piece, rest: seq<Piece>, p: Piece, o: nat)
    requires var end := o + |RenderPiece(d)|;
             MainSpans(rest + [p], end) == MainSpans(rest, end) + MainSpans([p], end + Length(rest))
    ensures MainSpans([d] + rest + [p], o) == MainSpans([d] + rest, o) + MainSpans([p], o + Length([d] + rest))
  {
    hide *;
    MainSpansCons(d, rest, o);
    MainSpansCons(d, rest + [p], o);
    LengthCons(d, rest);
    assert [d] + rest + [p] == [d] + (rest + [p]);
  }

  lemma MainSpansNone(p: Piece, o: nat)
    ensures MainSpans([] + [p], o) == MainSpans([], o) + MainSpans([p], o + Length([]))
  {
    hide RenderPiece, BodyEnd;
    assert [] + [p] == [p];
    assert [] + MainSpans([p], o) == MainSpans([p], o);
  }

  lemma MainSpansCons(d: Piece, rest: seq<Piece>, o: nat)
    ensures MainSpans([d] + rest, o) == MainSpans([d], o) + MainSpans(rest, o + |RenderPiece(d)|)
  {
    hide RenderPiece, BodyEnd;
    assert ([d] + rest)[1..] == rest && [d][1..] == [];
  }

  lemma {:induction false} StyleSpansAppend(done: seq<Piece>, p: Piece, o: nat)
    ensures StyleSpans(done + [p], o) == StyleSpans(done, o) + StyleSpans([p], o + Length(done))
  {
    hide *;
    if done == [] {
      StyleSpansNone(p, o);
    } else {
      StyleSpansAppend(done[1..], p, o + |RenderPiece(done[0])|);
      StyleSpansAppendOne(done[0], done[1..], p, o);
      assert done == [done[0]] + done[1..];
    }
  }

  lemma StyleSpansAppendOne(d: Piece, rest: seq<Piece>, p: Piece, o: nat)
    requires var end := o + |RenderPiece(d)|;
             StyleSpans(rest + [p], end) == StyleSpans(rest, end) + StyleSpans([p], end + Length(rest))
    ensures StyleSpans([d] + rest + [p], o) == StyleSpans([d] + rest, o) + StyleSpans([p], o + Length([d] + rest))
  {
    hide *;
    StyleSpansCons(d, rest, o);
    StyleSpansCons(d, rest + [p], o);
    LengthCons(d, rest);
    assert [d] + rest + [p] == [d] + (rest + [p]);
  }

  lemma StyleSpansNone(p: Piece, o: nat)
    ensures StyleSpans([] + [p], o) == StyleSpans([], o) + StyleSpans([p], o + Length([]))
  {
    hide RenderPiece, BodyEnd;
    assert [] + [p] == [p];
    assert [] + StyleSpans([p], o) == StyleSpans([p], o);
  }

  lemma StyleSpansCons(d: Piece, rest: seq<Piece>, o: nat)
    ensures StyleSpans([d] + rest, o) == StyleSpans([d], o) + StyleSpans(rest, o + |RenderPiece(d)|)
  {
    hide RenderPiece, BodyEnd;
    assert ([d] + rest)[1..] == rest && [d][1..] == [];
  }

  lemma {:induction false} BodiesAppend(done: seq<Piece>, p: Piece)
    ensures TemplateBody(done + [p])
         == if TemplateBody(done).Some? then TemplateBody(done) else if IsTemplate(p) then Some(p.body) else None
    ensures MainBody(done + [p])
         == if MainBody(done).Some? then MainBody(done) else if IsMain(p) then Some(p.body) else None
    ensures Bodies(done + [p], Style) == Bodies(done, Style) + (if p.kind == Style then [p.body] else [])
  {
    if done != [] {
      var all := done + [p];
      assert all[0] == done[0] && all[1..] == done[1..] + [p];
      BodiesAppend(done[1..], p);
    }
  }

  function Contents(spans: seq<Span>): seq<string> {
    seq(|spans|, i requires 0 <= i < |spans| => spans[i].content)
  }

  datatype Found = Found(templates: seq<Span>, mains: seq<Span>, styles: seq<Span>)

  /** The blocks of `source[root..offset]`, their spans, and the scan that is still to be done. */
  ghost predicate Scanning(source: string, root: nat, offset: nat, done: seq<Piece>, found: Found) {
    && root <= offset <= |source|
    && offset == root + Length(done)
    && found == Found(TemplateSpans(done, root), MainSpans(done, root), StyleSpans(done, root))
    && Holding(done, found)
    && Scan(source[root..], false, false)
       == Prepend(done, Scan(source[offset..], TemplateBody(done).Some?, MainBody(done).Some?))
  }

  lemma ContentsAppend(a: seq<Span>, b: seq<Span>)
    ensures Contents(a + b) == Contents(a) + Contents(b)
  {
  }

  lemma ScanningStarts(source: string, root: nat)
    requires root <= |source|
    ensures Scanning(source, root, root, [], Found([], [], []))
  {
    var rest := Scan(source[root..], false, false);
    if rest.Ok? { assert [] + rest.value.pieces == rest.value.pieces; }
  }

  function SpansOf(p: Piece, o: nat): Found {
    var start, end := o + |p.gap|, o + |RenderPiece(p)|;
    Found(if IsTemplate(p) then [Span(start, end, p.body)] else [],
          if IsMain(p) then [Span(BodyEnd(p, o) - |p.body|, BodyEnd(p, o), p.body)] else [],
          if p.kind == Style then [Span(start, end, p.body)] else [])
  }

  lemma SpansOfOne(p: Piece, o: nat)
    ensures SpansOf(p, o) == Found(TemplateSpans([p], o), MainSpans([p], o), StyleSpans([p], o))
  {
    hide RenderPiece, BodyEnd;
    assert [p][1..] == [];
  }

  lemma PrependStep(done: seq<Piece>, p: Piece, rest: Result<Scanned, ArtifactScan.Error>)
    ensures Prepend(done, Prefixed(p, rest)) == Prepend(done + [p], rest)
  {
    if rest.Ok? { assert done + ([p] + rest.value.pieces) == done + [p] + rest.value.pieces; }
  }

  lemma SpansStep(done: seq<Piece>, p: Piece, root: nat, found: Found)
    requires found == Found(TemplateSpans(done, root), MainSpans(done, root), StyleSpans(done, root))
    ensures var more := SpansOf(p, root + Length(done));
            Found(TemplateSpans(done + [p], root), MainSpans(done + [p], root), StyleSpans(done + [p], root))
            == Found(found.templates + more.templates, found.mains + more.mains, found.styles + more.styles)
  {
    hide *;
    TemplateSpansAppend(done, p, root);
    MainSpansAppend(done, p, root);
    StyleSpansAppend(done, p, root);
    SpansOfOne(p, root + Length(done));
  }

  lemma ContentsOfOne(p: Piece, o: nat)
    ensures var more := SpansOf(p, o);
            && Contents(more.templates) == (if IsTemplate(p) then [p.body] else [])
            && Contents(more.mains) == (if IsMain(p) then [p.body] else [])
            && Contents(more.styles) == (if p.kind == Style then [p.body] else [])
  {
    hide RenderPiece, BodyEnd;
  }

  lemma ScanStep(s: string, p: Piece, t: bool, m: bool)
    requires First(s) == Block(p) && !(IsTemplate(p) && t) && !(IsMain(p) && m)
    ensures |RenderPiece(p)| <= |s|
    ensures Scan(s, t, m) == Prefixed(p, Scan(s[|RenderPiece(p)|..], t || IsTemplate(p), m || IsMain(p)))
  {
    hide RenderPiece, WellFormed;
  }

  lemma ScanAdvances(source: string, root: nat, offset: nat, done: seq<Piece>, p: Piece, t: bool, m: bool)
    requires root <= offset <= |source| && First(source[offset..]) == Block(p)
    requires !(IsTemplate(p) && t) && !(IsMain(p) && m)
    requires Scan(source[root..], false, false) == Prepend(done, Scan(source[offset..], t, m))
    ensures var end := offset + |RenderPiece(p)|;
            && end <= |source|
            && Scan(source[root..], false, false)
               == Prepend(done + [p], Scan(source[end..], t || IsTemplate(p), m || IsMain(p)))
  {
    hide *;
    var s, end := source[offset..], offset + |RenderPiece(p)|;
    ScanStep(s, p, t, m);
    assert s[|RenderPiece(p)|..] == source[end..];
    PrependStep(done, p, Scan(source[end..], t || IsTemplate(p), m || IsMain(p)));
  }

  /** The contents of the spans found are the bodies of the blocks. */
  ghost predicate Holding(done: seq<Piece>, found: Found) {
    && Contents(found.templates) == (if TemplateBody(done).Some? then [TemplateBody(done).value] else [])
    && Contents(found.mains) == (if MainBody(done).Some? then [MainBody(done).value] else [])
    && Contents(found.styles) == Bodies(done, Style)
  }

  lemma HoldingTold(done: seq<Piece>, found: Found)
    requires Holding(done, found)
    ensures found.templates != [] <==> TemplateBody(done).Some?
    ensures found.mains != [] <==> MainBody(done).Some?
  {
    assert |Contents(found.templates)| == |found.templates| && |Contents(found.mains)| == |found.mains|;
    hide TemplateBody, MainBody, Bodies;
  }

  lemma HoldingStep(done: seq<Piece>, found: Found, p: Piece, o: nat)
    requires Holding(done, found)
    requires !(IsTemplate(p) && found.templates != []) && !(IsMain(p) && found.mains != [])
    ensures var more := SpansOf(p, o);
            Holding(done + [p],
                    Found(found.templates + more.templates, found.mains + more.mains, found.styles + more.styles))
  {
    HoldingTold(done, found);
    BodiesAppend(done, p);
    ContentsOfOne(p, o);
    var more := SpansOf(p, o);
    ContentsAppend(found.templates, more.templates);
    ContentsAppend(found.mains, more.mains);
    ContentsAppend(found.styles, more.styles);
    hide SpansOf, Contents, TemplateBody, MainBody, Bodies, IsTemplate, IsMain;
  }

  /** The loop keeps its invariant when it has taken in the next block. */
  lemma ScanningStep(source: string, root: nat, offset: nat, done: seq<Piece>, found: Found, p: Piece)
    requires Scanning(source, root, offset, done, found) && First(source[offset..]) == Block(p)
    requires !(IsTemplate(p) && found.templates != []) && !(IsMain(p) && found.mains != [])
    ensures var more := SpansOf(p, offset);
            Scanning(source, root, offset + |RenderPiece(p)|, done + [p],
                     Found(found.templates + more.templates, found.mains + more.mains, found.styles + more.styles))
  {
    hide Holding, RenderPiece, First, Scan, SpansOf, TemplateSpans, MainSpans, StyleSpans, TemplateBody, MainBody,
         Length, Prepend, IsTemplate, IsMain;
    LengthAppend(done, p);
    SpansStep(done, p, root, found);
    HoldingTold(done, found);
    HoldingStep(done, found, p, offset);
    ScanAdvances(source, root, offset, done, p, TemplateBody(done).Some?, MainBody(done).Some?);
    BodiesTold(done, p);
  }

  lemma BodiesTold(done: seq<Piece>, p: Piece)
    ensures TemplateBody(done + [p]).Some? <==> TemplateBody(done).Some? || IsTemplate(p)
    ensures MainBody(done + [p]).Some? <==> MainBody(done).Some? || IsMain(p)
  {
    hide *;
    BodiesAppend(done, p);
  }

  // ----- The edits collected are those of the plan -----

  lemma {:induction false} StyleTail(spans: seq<Span>, css: string, k: nat)
    requires 0 < k < |spans|
    ensures StyleEdits(spans[..k + 1], Some(css), false)
         == StyleEdits(spans[..k], Some(css), false) + [Edit(spans[k].start, spans[k].end, "")]
  {
    hide StyleBlock;
    StyleEditsAppend(spans[..k], spans[k], css, false);
    assert spans[..k + 1] == spans[..k] + [spans[k]];
  }

  lemma {:induction false} StyleEditsAppend(spans: seq<Span>, last: Span, css: string, seen: bool)
    requires spans != [] || seen
    ensures StyleEdits(spans + [last], Some(css), seen)
         == StyleEdits(spans, Some(css), seen) + [Edit(last.start, last.end, "")]
  {
    hide StyleBlock;
    var all := spans + [last];
    if spans == [] {
      assert all[1..] == [];
    } else {
      assert all[0] == spans[0] && all[1..] == spans[1..] + [last];
      StyleEditsAppend(spans[1..], last, css, true);
    }
  }

  /** The style edits of the source: the merged block first, then the removal of every other block. */
  method CollectStyleEdits(styles: seq<Span>, css: string) returns (edits: seq<Edit>)
    requires styles != []
    ensures edits == StyleEdits(styles, Some(css), false)
  {
    hide StyleBlock;
    edits := [Edit(styles[0].start, styles[0].end, StyleBlock(css))];
    assert styles[..1][1..] == [];
    for i := 1 to |styles|
      invariant edits == StyleEdits(styles[..i], Some(css), false)
    {
      StyleTail(styles, css, i);
      edits := edits + [Edit(styles[i].start, styles[i].end, "")];
    }
    assert styles[..|styles|] == styles;
  }

  /** The scan stops here: what the whole scan says then. */
  lemma ScanStops(source: string, root: nat, offset: nat, done: seq<Piece>, found: Found)
    requires Scanning(source, root, offset, done, found)
    ensures found.templates != [] <==> TemplateBody(done).Some?
    ensures found.mains != [] <==> MainBody(done).Some?
    ensures First(source[offset..]).Nothing? ==>
              Scan(source[root..], false, false) == Ok(Scanned(done, source[offset..]))
    ensures First(source[offset..]).Unclosed? ==> Scan(source[root..], false, false) == Err(UnclosedBlock)
    ensures First(source[offset..]).Block? && IsTemplate(First(source[offset..]).piece) && found.templates != [] ==>
              Scan(source[root..], false, false) == Err(SecondTemplate)
    ensures First(source[offset..]).Block? && IsMain(First(source[offset..]).piece) && found.mains != [] ==>
              Scan(source[root..], false, false) == Err(SecondMainScript)
  {
    hide First, TemplateSpans, MainSpans, StyleSpans, TemplateBody, MainBody, Bodies, Length, RenderPiece;
    assert |Contents(found.templates)| == |found.templates| && |Contents(found.mains)| == |found.mains|;
    assert done + [] == done;
  }

  /** What the scan finds: the blocks' spans, or why the document is refused. */
  method ScanBlocks(source: string, root: nat)
    returns (r: Result<(nat, Found), ArtifactScan.Error>, ghost done: seq<Piece>)
    requires root <= |source|
    ensures r.Err? ==> Scan(source[root..], false, false) == Err(r.error)
    ensures r.Ok? ==> r.value.0 <= |source| && Scanning(source, root, r.value.0, done, r.value.1)
    ensures r.Ok? ==> Scan(source[root..], false, false) == Ok(Scanned(done, source[r.value.0..]))
  {
    hide *;
    var offset, found := root, Found([], [], []);
    done := [];
    ScanningStarts(source, root);
    InRangeWhileScanning(source, root, offset, done, found);
    while true
      invariant root <= offset <= |source| && Scanning(source, root, offset, done, found)
      decreases |source| - offset
    {
      var block := First(source[offset..]);
      ScanStops(source, root, offset, done, found);
      match block {
        case Nothing => return Ok((offset, found)), done;
        case Unclosed => return Err(UnclosedBlock), done;
        case Block(p) =>
          if IsTemplate(p) && found.templates != [] { return Err(SecondTemplate), done; }
          if IsMain(p) && found.mains != [] { return Err(SecondMainScript), done; }
          ScanningStep(source, root, offset, done, found, p);
          var more := SpansOf(p, offset);
          found := Found(found.templates + more.templates, found.mains + more.mains, found.styles + more.styles);
          offset, done := offset + |RenderPiece(p)|, done + [p];
          InRangeWhileScanning(source, root, offset, done, found);
      }
    }
  }

  lemma InRangeWhileScanning(source: string, root: nat, offset: nat, done: seq<Piece>, found: Found)
    requires Scanning(source, root, offset, done, found)
    ensures root <= offset <= |source|
  {
    hide TemplateSpans, MainSpans, StyleSpans, TemplateBody, MainBody, Bodies, Length, Contents, Scan;
  }

  /** The spans as the edits need them. */
  lemma SpansFound(source: string, root: nat, offset: nat, done: seq<Piece>, found: Found)
    requires Scanning(source, root, offset, done, found)
    ensures found == Found(TemplateSpans(done, root), MainSpans(done, root), StyleSpans(done, root))
    ensures match TemplateBody(done)
            case None => found.templates == []
            case Some(body) => |found.templates| == 1 && found.templates[0].content == body
    ensures match MainBody(done)
            case None => found.mains == []
            case Some(body) => |found.mains| == 1 && found.mains[0].content == body
    ensures Contents(found.styles) == Bodies(done, Style) && |found.styles| == |Bodies(done, Style)|
  {
    hide TemplateSpans, MainSpans, StyleSpans, TemplateBody, MainBody, Bodies, Length, Scan;
    var t, m := Contents(found.templates), Contents(found.mains);
    assert |t| == |found.templates| && |m| == |found.mains| && |Contents(found.styles)| == |found.styles|;
    assert |t| == 1 ==> found.templates[0].content == t[0];
    assert |m| == 1 ==> found.mains[0].content == m[0];
  }

  /** Why the document is refused, given its blocks. */
  lemma FailureGiven(source: string, options: Options, world: World, done: seq<Piece>, tail: string)
    requires RootEnd(source).Some? && Scan(source[RootEnd(source).value..], false, false) == Ok(Scanned(done, tail))
    requires !options.preset.Unknown?
    ensures FailureOf(source, options, world)
         == if Trim(tail) != ROOT_END || MainBody(done).None? then Some(Incomplete)
            else if options.template && TemplateBody(done).None? then Some(MissingTemplate)
            else if !options.template && TemplateBody(done).Some? then Some(TemplateDisabled)
            else if Generated(done, world).Some? && Generated(done, world).value.Err? then
              Some(Fragment(Generated(done, world).value.error))
            else if !world.accepts(MainBody(done).value, options.template, options.reuse) then Some(ScriptRejected)
            else None
  {
    hide RootEnd, Scan, Trim, MainBody, TemplateBody, Generated;
  }

  lemma FailsEarly(source: string, options: Options, world: World)
    ensures options.preset.Unknown? ==> FailureOf(source, options, world) == Some(UnsupportedPreset)
    ensures !options.preset.Unknown? && RootEnd(source).None? ==> FailureOf(source, options, world) == Some(NoRoot)
    ensures !options.preset.Unknown? && RootEnd(source).Some? ==>
              var scan := Scan(source[RootEnd(source).value..], false, false);
              scan.Err? ==> FailureOf(source, options, world) == Some(Malformed(scan.error))
  {
    hide RootEnd, Scan, Trim, MainBody, TemplateBody, Generated;
  }

  /** The plan, given what the compiler and the analyses said. */
  lemma PlanGiven(done: seq<Piece>, options: Options, world: World, code: Option<FragmentCompiler.Generated>,
                  names: set<string>, javascript: string)
    requires Generated(done, world) == if code.Some? then Some(Ok(code.value)) else None
    requires MainBody(done) == Some(javascript)
    requires names == (if code.Some? then code.value.classNames else {})
                    + (if options.preset.Default? then world.literals(javascript) else {})
    ensures var plan, preset := PlanFor(done, options, world), PresetCss(options, world, names);
            && plan.drop == code.Some?
            && plan.appended == (if code.Some? then
                                   Some(FactoryText(code.value.code)
                                        + (if options.reuse then world.shared(options.template) else ""))
                                 else if options.reuse then Some(world.shared(false)) else None)
            && plan.css == (if Bodies(done, Style) != [] && (preset != "" || |Bodies(done, Style)| > 1) then
                              Some((if preset != "" then preset + "\n" else "") + Join(Bodies(done, Style), "\n"))
                            else None)
            && plan.inserted == (if Bodies(done, Style) == [] && preset != "" then Some(preset) else None)
  {
    hide PresetCss, FactoryText, Bodies, Join;
  }

  lemma OneSpan(span: Span, drop: bool, appended: Option<string>)
    ensures DropEdits([span], drop) == if drop then [Edit(span.start, span.end, "")] else []
    ensures AppendEdits([span], appended) == if appended.Some? then [Edit(span.end, span.end, appended.value)] else []
  {
    assert [span][1..] == [];
  }

  /** The edits in the order they are pushed. */
  method CollectEdits(root: nat, found: Found, options: Options, world: World,
                      code: Option<FragmentCompiler.Generated>, presetCss: string, ghost done: seq<Piece>,
                      ghost plan: Plan)
    returns (edits: seq<Edit>)
    requires found == Found(TemplateSpans(done, root), MainSpans(done, root), StyleSpans(done, root))
    requires |found.templates| == (if code.Some? then 1 else 0) && |found.mains| == 1
    requires plan.drop == code.Some?
    requires plan.appended == (if code.Some? then
                                 Some(FactoryText(code.value.code)
                                      + (if options.reuse then world.shared(options.template) else ""))
                               else if options.reuse then Some(world.shared(false)) else None)
    requires plan.css == (if found.styles != [] && (presetCss != "" || |found.styles| > 1) then
                            Some((if presetCss != "" then presetCss + "\n" else "")
                                 + Join(Contents(found.styles), "\n"))
                          else None)
    requires plan.inserted == (if found.styles == [] && presetCss != "" then Some(presetCss) else None)
    ensures edits == BlockEdits(done, root, plan, false) + RootEdits(root, plan)
  {
    hide TemplateSpans, MainSpans, StyleSpans, FactoryText, StyleEdits, DropEdits, AppendEdits, Contents, Join;
    edits := [];
    var mainEnd := found.mains[0].end;
    OneSpan(found.mains[0], true, plan.appended);
    assert found.mains == [found.mains[0]];
    if code.Some? {
      var shared := if options.reuse then world.shared(options.template) else "";
      OneSpan(found.templates[0], true, None);
      assert found.templates == [found.templates[0]];
      edits := edits + [Edit(found.templates[0].start, found.templates[0].end, ""),
                        Edit(mainEnd, mainEnd, FactoryText(code.value.code) + shared)];
    } else if options.reuse {
      edits := edits + [Edit(mainEnd, mainEnd, world.shared(false))];
    }
    assert edits == DropEdits(found.templates, plan.drop) + AppendEdits(found.mains, plan.appended) by {
      NoSpans(plan.drop, plan.css);
    }
    var styles := found.styles;
    NoSpans(plan.drop, plan.css);
    if styles != [] && (presetCss != "" || |styles| > 1) {
      var css := (if presetCss != "" then presetCss + "\n" else "") + Join(Contents(styles), "\n");
      var merged := CollectStyleEdits(styles, css);
      edits := edits + merged;
    } else if presetCss != "" {
      NoCss(styles);
      edits := edits + [Edit(root, root, "\n<style>\n" + presetCss + "\n</style>\n")];
    } else {
      NoCss(styles);
    }
  }

  lemma NoSpans(drop: bool, css: Option<string>)
    ensures DropEdits([], drop) == [] && StyleEdits([], css, false) == []
  {
  }

  lemma NoCss(styles: seq<Span>)
    ensures StyleEdits(styles, None, false) == []
  {
  }

  /** What is left to show of an accepted document once its edits are spliced in. */
  lemma SplicedIsAssembled(source: string, options: Options, world: World, done: seq<Piece>, tail: string)
    requires FailureOf(source, options, world).None?
    requires Scan(source[RootEnd(source).value..], false, false) == Ok(Scanned(done, tail))
    ensures var root, plan := RootEnd(source).value, PlanFor(done, options, world);
            var edits := BlockEdits(done, root, plan, false) + RootEdits(root, plan);
            && AllCompatible(edits) && (forall e | e in edits :: InRange(e, |source|))
            && Substitute(source, edits, 0) == Assembled(source, options, world)
  {
    hide RootEnd, Scan, Trim, MainBody, TemplateBody, Generated, PlanFor, BlockEdits, RootEdits, Render, Substitute,
         AllCompatible;
    var root, plan := RootEnd(source).value, PlanFor(done, options, world);
    RenderScan(source[root..], false, false);
    ArtifactSplicing.EditsRender(source, root, done, tail, plan);
  }

  method TransformLynxXmlArtifact(source: string, options: Options, world: World) returns (r: Result<Output, Failure>)
    ensures r.Err? ==> FailureOf(source, options, world) == Some(r.error)
    ensures r.Ok? ==> FailureOf(source, options, world).None? && r.value.text == Assembled(source, options, world)
    ensures r.Ok? ==> r.value.xmlFragment.Some? == options.template
    ensures r.Ok? ==>
              r.value.xmlFragment == TemplateBody(Scan(source[RootEnd(source).value..], false, false).value.pieces)
  {
    hide Scan, Scanning, PlanFor, Render, Substitute, RootEnd, Trim, TemplateSpans, MainSpans, StyleSpans, Bodies,
         TemplateBody, FactoryText, PresetCss, FragmentCompiler.Generate, FailureOf, BlockEdits, RootEdits, Assembled,
         AllCompatible,
         Contents;
    FailsEarly(source, options, world);
    if options.preset.Unknown? { return Err(UnsupportedPreset); }
    var root := RootEnd(source);
    if root.None? { return Err(NoRoot); }
    var scan, done := ScanBlocks(source, root.value);
    if scan.Err? { return Err(Malformed(scan.error)); }
    var (offset, found) := scan.value;
    SpansFound(source, root.value, offset, done, found);
    FailureGiven(source, options, world, done, source[offset..]);
    if Trim(source[offset..]) != ROOT_END || found.mains == [] { return Err(Incomplete); }
    if options.template && found.templates == [] { return Err(MissingTemplate); }
    if !options.template && found.templates != [] { return Err(TemplateDisabled); }
    var code: Option<FragmentCompiler.Generated> := None;
    var xmlFragment: Option<string> := None;
    var classNames: set<string> := {};
    if found.templates != [] {
      var body := found.templates[0].content;
      var generated := FragmentCompiler.GenerateMainThreadScriptResult(body, world.parse(body));
      if generated.Err? { return Err(Fragment(generated.error)); }
      code, xmlFragment, classNames := Some(generated.value), Some(body), generated.value.classNames;
    }
    var javascript := found.mains[0].content;
    if !world.accepts(javascript, options.template, options.reuse) { return Err(ScriptRejected); }
    if options.preset.Default? { classNames := classNames + world.literals(javascript); }
    var presetCss := PresetCss(options, world, classNames);
    PlanGiven(done, options, world, code, classNames, javascript);
    var edits := CollectEdits(root.value, found, options, world, code, presetCss, done, PlanFor(done, options, world));
    SplicedIsAssembled(source, options, world, done, source[offset..]);
    var text := ApplyEdits(source, edits);
    return Ok(Output(text, xmlFragment));
  }
}
