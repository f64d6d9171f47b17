/**
 * The document as the assembler sees it: a root tag, blocks with opaque bodies, white space between
 * them, and the closing tag. Scanning and rendering are inverse to each other.
 */
module ArtifactScan {
  import opened Text

  datatype Kind = Comment | Style | Template(space: string) | Script(main: bool)

  /** White space, then one block. */
  datatype Piece = Piece(gap: string, kind: Kind, body: string)

  datatype Scanned = Scanned(pieces: seq<Piece>, tail: string)

  datatype Error = UnclosedBlock | SecondTemplate | SecondMainScript

  const DOCTYPE := "<!doctype lynx>"
  const ROOT_END := "</lynx>"
  const MAIN_SCRIPT := "<script thread=\"main\">"
  const BACKGROUND_SCRIPT := "<script thread=\"background\">"

  function Opening(kind: Kind): string {
    match kind
    case Comment => "<!--"
    case Style => "<style>"
    case Template(space) => "<template" + space + ">"
    case Script(main) => if main then MAIN_SCRIPT else BACKGROUND_SCRIPT
  }

  function Close(kind: Kind): (r: string)
    ensures |r| > 0
  {
    match kind
    case Comment => "-->"
    case Style => "</style>"
    case Template(_) => "</template>"
    case Script(_) => "</script>"
  }

  /** `/(<template\s*>|<style>|<script thread="(main|background)">|<!--)/y` at the start of `s`. */
  function OpeningAt(s: string): (kind: Option<Kind>)
    ensures kind.Some? ==> Opening(kind.value) <= s
  {
    if At(s, "<template", 0) && SkipSpace(s, 9) < |s| && s[SkipSpace(s, 9)] == '>' then
      var end := SkipSpace(s, 9);
      assert s[..end + 1] == "<template" + s[9..end] + ">";
      Some(Template(s[9..end]))
    else if At(s, "<style>", 0) then Some(Style)
    else if At(s, MAIN_SCRIPT, 0) then Some(Script(true))
    else if At(s, BACKGROUND_SCRIPT, 0) then Some(Script(false))
    else if At(s, "<!--", 0) then Some(Comment)
    else None
  }

  predicate IsTemplate(p: Piece) {
    p.kind.Template?
  }

  predicate IsMain(p: Piece) {
    p.kind == Script(true)
  }

  function Prefixed(p: Piece, rest: Result<Scanned, Error>): Result<Scanned, Error> {
    if rest.Err? then rest else Ok(rest.value.(pieces := [p] + rest.value.pieces))
  }

  function RenderPiece(p: Piece): string {
    p.gap + Opening(p.kind) + p.body + Close(p.kind)
  }

  /** The body ends at its first closing tag. */
  predicate Ends(kind: Kind, body: string) {
    IndexOf(body + Close(kind), Close(kind), 0) == |body|
  }

  predicate WellFormed(p: Piece) {
    AllSpace(p.gap) && (p.kind.Template? ==> AllSpace(p.kind.space)) && Ends(p.kind, p.body)
  }

  predicate AllWellFormed(pieces: seq<Piece>) {
    forall p | p in pieces :: WellFormed(p)
  }

  /** What the text begins with: no block, a block that is never closed, or a block. */
  datatype Found = Nothing | Unclosed | Block(piece: Piece)

  function First(s: string): (found: Found)
    ensures found.Block? ==>
              WellFormed(found.piece) && RenderPiece(found.piece) <= s && |RenderPiece(found.piece)| > 0
  {
    var gap := SkipSpace(s, 0);
    var kind := OpeningAt(s[gap..]);
    if kind.None? then Nothing
    else
      var rest := s[gap + |Opening(kind.value)|..];
      var end := IndexOf(rest, Close(kind.value), 0);
      if end == -1 then Unclosed
      else
        FirstIsWellFormed(s, gap, kind.value, rest, end);
        Block(Piece(s[..gap], kind.value, rest[..end]))
  }

  lemma FirstIsWellFormed(s: string, gap: nat, kind: Kind, rest: string, end: nat)
    requires SkipSpace(s, 0) == gap && OpeningAt(s[gap..]) == Some(kind)
    requires rest == s[gap + |Opening(kind)|..] && IndexOf(rest, Close(kind), 0) == end
    ensures end <= |rest|
    ensures var p := Piece(s[..gap], kind, rest[..end]);
            WellFormed(p) && RenderPiece(p) <= s && |RenderPiece(p)| > 0
  {
    hide IsSpace, SkipSpace, IndexOf, OpeningAt, Opening, Close;
    BodyEnds(kind, rest);
    if kind.Template? { TemplateSpace(s[gap..]); }
    assert s[..gap] == s[0..gap];
    Cut(s, gap, Opening(kind), rest, end, Close(kind));
    OpeningSolid(kind);
  }

  lemma OpeningSolid(kind: Kind)
    ensures |Opening(kind)| > 0 && |Close(kind)| > 0
  {
  }

  /** The scanning loop on what is left of the source, told whether a template and a main script have been seen. */
  function Scan(s: string, template: bool, main: bool): Result<Scanned, Error>
    decreases |s|
  {
    match First(s)
    case Nothing => Ok(Scanned([], s))
    case Unclosed => Err(UnclosedBlock)
    case Block(p) =>
      if IsTemplate(p) && template then Err(SecondTemplate)
      else if IsMain(p) && main then Err(SecondMainScript)
      else Prefixed(p, Scan(s[|RenderPiece(p)|..], template || IsTemplate(p), main || IsMain(p)))
  }

  function Render(pieces: seq<Piece>, tail: string): string {
    if pieces == [] then tail else RenderPiece(pieces[0]) + Render(pieces[1..], tail)
  }

  /** No block opens here. */
  predicate Stops(tail: string) {
    First(tail).Nothing?
  }

  /** At most one template and one main script, counting those already seen. */
  predicate Single(pieces: seq<Piece>, template: bool, main: bool) {
    pieces == [] ||
    (!(IsTemplate(pieces[0]) && template) && !(IsMain(pieces[0]) && main)
     && Single(pieces[1..], template || IsTemplate(pieces[0]), main || IsMain(pieces[0])))
  }

  // ----- Locating things in concatenations -----

  lemma IndexOfUnique(s: string, p: string, from: nat, i: nat)
    requires from <= i && At(s, p, i) && forall j: nat | from <= j < i :: !At(s, p, j)
    ensures IndexOf(s, p, from) == i
  {
  }

  /** More text behind the closing tag does not move it. */
  lemma EndsAnywhere(kind: Kind, body: string, more: string)
    requires Ends(kind, body)
    ensures IndexOf(body + Close(kind) + more, Close(kind), 0) == |body|
  {
    var c := Close(kind);
    var s, t := body + c, body + c + more;
    assert t[|body|..|body| + |c|] == c;
    forall j: nat | j < |body| ensures !At(t, c, j) {
      assert t[j..j + |c|] == s[j..j + |c|];
      assert !At(s, c, j);
    }
    IndexOfUnique(t, c, 0, |body|);
  }

  lemma BodyEnds(kind: Kind, rest: string)
    requires IndexOf(rest, Close(kind), 0) >= 0
    ensures Ends(kind, rest[..IndexOf(rest, Close(kind), 0)])
  {
    var c := Close(kind);
    var end := IndexOf(rest, c, 0);
    var s := rest[..end] + c;
    assert s == rest[..end + |c|];
    forall j: nat | j < end ensures !At(s, c, j) {
      assert s[j..j + |c|] == rest[j..j + |c|];
      assert !At(rest, c, j);
    }
    assert s[end..end + |c|] == rest[end..end + |c|] == c;
    IndexOfUnique(s, c, 0, end);
  }

  lemma TemplateFound(space: string, rest: string)
    requires AllSpace(space)
    ensures OpeningAt(Opening(Template(space)) + rest) == Some(Template(space))
  {
    var s := Opening(Template(space)) + rest;
    assert s == "<template" + space + (">" + rest);
    assert s[0..9] == "<template" && s[9..9 + |space|] == space;
    SkipSpaceFrom(s, 9, 9 + |space|);
  }

  /** The third character tells scripts, styles and comments from one another and from templates. */
  lemma ThirdCharacter(s: string)
    requires |s| > 2
    ensures At(s, "<template", 0) ==> s[2] == 'e'
    ensures At(s, "<style>", 0) ==> s[2] == 't'
    ensures At(s, "<!--", 0) ==> s[2] == '-'
    ensures At(s, MAIN_SCRIPT, 0) || At(s, BACKGROUND_SCRIPT, 0) ==> s[2] == 'c'
  {
    assert At(s, "<template", 0) ==> s[0..9][2] == 'e';
    assert At(s, "<style>", 0) ==> s[0..7][2] == 't';
    assert At(s, "<!--", 0) ==> s[0..4][2] == '-';
    assert At(s, MAIN_SCRIPT, 0) ==> s[0..|MAIN_SCRIPT|][2] == MAIN_SCRIPT[2];
    assert At(s, BACKGROUND_SCRIPT, 0) ==> s[0..|BACKGROUND_SCRIPT|][2] == BACKGROUND_SCRIPT[2];
  }

  lemma ScriptFound(main: bool, rest: string)
    ensures OpeningAt(Opening(Script(main)) + rest) == Some(Script(main))
  {
    var open := Opening(Script(main));
    var s := open + rest;
    assert s[0..|open|] == open;
    ThirdCharacter(s);
    assert s[2] == open[2] == 'c';
    assert s[16] == open[16];
    assert At(s, MAIN_SCRIPT, 0) ==> s[0..|MAIN_SCRIPT|][16] == 'm';
  }

  lemma OpeningFound(kind: Kind, rest: string)
    requires kind.Template? ==> AllSpace(kind.space)
    ensures OpeningAt(Opening(kind) + rest) == Some(kind)
    ensures !IsSpace((Opening(kind) + rest)[0])
  {
    var s := Opening(kind) + rest;
    assert s[0] == Opening(kind)[0] == '<';
    match kind
    case Template(space) => TemplateFound(space, rest);
    case Script(main) => ScriptFound(main, rest);
    case Style =>
      assert s[0..7] == "<style>";
      ThirdCharacter(s);
    case Comment =>
      assert s[0..4] == "<!--";
      ThirdCharacter(s);
  }

  // ----- Scanning and rendering -----

  lemma Cut(s: string, gap: nat, open: string, rest: string, end: nat, close: string)
    requires gap <= |s| && open <= s[gap..] && rest == s[gap + |open|..] && At(rest, close, end)
    ensures s == s[..gap] + open + rest[..end] + close + rest[end + |close|..]
  {
    assert s[gap..] == open + rest;
    assert rest == rest[..end] + close + rest[end + |close|..];
  }

  lemma TemplateSpace(s: string)
    requires OpeningAt(s).Some? && OpeningAt(s).value.Template?
    ensures AllSpace(OpeningAt(s).value.space)
  {
  }

  /** The scan of `s` is in normal form and renders back to `s`. */
  predicate Faithful(r: Scanned, s: string, template: bool, main: bool) {
    Render(r.pieces, r.tail) == s && AllWellFormed(r.pieces) && Stops(r.tail) && Single(r.pieces, template, main)
  }

  lemma FaithfulCons(p: Piece, r: Scanned, after: string, template: bool, main: bool)
    requires WellFormed(p) && !(IsTemplate(p) && template) && !(IsMain(p) && main)
    requires Faithful(r, after, template || IsTemplate(p), main || IsMain(p))
    ensures Faithful(r.(pieces := [p] + r.pieces), RenderPiece(p) + after, template, main)
  {
    var pieces := [p] + r.pieces;
    assert pieces[1..] == r.pieces;
    assert Render(pieces, r.tail) == RenderPiece(p) + Render(r.pieces, r.tail);
  }

  lemma ScanUnfold(s: string, p: Piece, after: string, template: bool, main: bool)
    requires First(s) == Block(p) && s == RenderPiece(p) + after
    requires Scan(s, template, main).Ok?
    ensures !(IsTemplate(p) && template) && !(IsMain(p) && main)
    ensures Scan(s, template, main) == Prefixed(p, Scan(after, template || IsTemplate(p), main || IsMain(p)))
  {
    assert s[|RenderPiece(p)|..] == after;
  }

  lemma FirstSplits(s: string) returns (p: Piece, after: string)
    requires First(s).Block?
    ensures First(s) == Block(p) && WellFormed(p) && s == RenderPiece(p) + after && |after| < |s|
  {
    hide WellFormed, RenderPiece;
    p := First(s).piece;
    after := s[|RenderPiece(p)|..];
  }

  /** What was scanned renders back to the source, and is in normal form. */
  lemma {:induction false} RenderScan(s: string, template: bool, main: bool)
    requires Scan(s, template, main).Ok?
    ensures Faithful(Scan(s, template, main).value, s, template, main)
    decreases |s|
  {
    if First(s).Block? {
      var p, after := FirstSplits(s);
      ScanUnfold(s, p, after, template, main);
      RenderScan(after, template || IsTemplate(p), main || IsMain(p));
      FaithfulCons(p, Scan(after, template || IsTemplate(p), main || IsMain(p)).value, after, template, main);
    }
  }

  lemma PieceSplit(p: Piece, after: string)
    ensures RenderPiece(p) + after == p.gap + (Opening(p.kind) + (p.body + Close(p.kind) + after))
  {
    hide Opening, Close;
  }

  /** A block in normal form is the first block of the text it heads. */
  lemma FirstRendered(p: Piece, after: string)
    requires WellFormed(p)
    ensures First(RenderPiece(p) + after) == Block(p)
  {
    hide IsSpace, AllSpace, At, SkipSpace, IndexOf, Opening, OpeningAt, Close, Ends, First, RenderPiece;
    var open := Opening(p.kind);
    var rest := p.body + Close(p.kind) + after;
    PieceSplit(p, after);
    OpeningFound(p.kind, rest);
    SkipSpaceExact(p.gap, open + rest);
    FirstOf(RenderPiece(p) + after, p, rest);
    EndsAnywhere(p.kind, p.body, after);
    assert rest[..|p.body|] == p.body;
  }

  lemma FirstOf(s: string, p: Piece, rest: string)
    requires s == p.gap + (Opening(p.kind) + rest) && SkipSpace(s, 0) == |p.gap|
    requires OpeningAt(Opening(p.kind) + rest) == Some(p.kind)
    ensures var end := IndexOf(rest, Close(p.kind), 0);
            First(s) == if end == -1 then Unclosed else Block(Piece(p.gap, p.kind, rest[..end]))
  {
    hide OpeningAt, Opening, Close, IsSpace, SkipSpace, IndexOf;
    var open := Opening(p.kind);
    assert s[|p.gap|..] == open + rest && s[..|p.gap|] == p.gap;
    assert s[|p.gap| + |open|..] == rest;
  }

  /** A document in normal form scans into itself. */
  lemma {:induction false} ScanRender(pieces: seq<Piece>, tail: string, template: bool, main: bool)
    requires AllWellFormed(pieces) && Stops(tail) && Single(pieces, template, main)
    ensures Scan(Render(pieces, tail), template, main) == Ok(Scanned(pieces, tail))
  {
    hide WellFormed, RenderPiece, First;
    if pieces != [] {
      var p, after := pieces[0], Render(pieces[1..], tail);
      assert p in pieces;
      FirstRendered(p, after);
      assert (RenderPiece(p) + after)[|RenderPiece(p)|..] == after;
      ScanRender(pieces[1..], tail, template || IsTemplate(p), main || IsMain(p));
      assert [p] + pieces[1..] == pieces;
    }
  }

  // ----- The root tag and the extraction of a document from prose -----

  predicate IsWordChar(c: char) {
    'a' <= c <= 'z' || 'A' <= c <= 'Z' || '0' <= c <= '9' || c == '_'
  }

  /** `/<lynx\b/` at `i`. */
  predicate RootOpens(s: string, i: nat) {
    At(s, "<lynx", i) && (i + 5 == |s| || !IsWordChar(s[i + 5]))
  }

  /** `/^\s*<!doctype lynx>\s*<lynx\b[^>]*>/`: the offset where the match ends. */
  function RootEnd(s: string): (end: Option<nat>)
    ensures end.Some? ==> end.value <= |s|
  {
    var i := SkipSpace(s, 0);
    if !At(s, DOCTYPE, i) then None
    else
      var j := SkipSpace(s, i + |DOCTYPE|);
      if !RootOpens(s, j) then None
      else
        var k := IndexOf(s, ">", j + 5);
        if k == -1 then None else Some(k + 1)
  }

  function FirstRoot(s: string, from: nat): (i: int)
    ensures i == -1 || from <= i < |s|
    decreases |s| - from
  {
    if from >= |s| then -1 else if RootOpens(s, from) then from else FirstRoot(s, from + 1)
  }

  /** `s.lastIndexOf(p)` */
  function LastIndexOf(s: string, p: string): (i: int)
    ensures i == -1 || (0 <= i && At(s, p, i))
  {
    LastFrom(s, p, |s|)
  }

  function LastFrom(s: string, p: string, from: nat): (i: int)
    ensures i == -1 || (0 <= i <= from && At(s, p, i))
  {
    if At(s, p, from) then from else if from == 0 then -1 else LastFrom(s, p, from - 1)
  }

  function ExtractLynxXmlArtifact(value: string): string {
    var doctypeStart := IndexOf(value, DOCTYPE, 0);
    var start := if doctypeStart >= 0 then doctypeStart else FirstRoot(value, 0);
    if start < 0 then ""
    else
      var end := LastIndexOf(value, ROOT_END);
      var artifact := TrimEnd(value[start..if end >= start then end + |ROOT_END| else |value|]);
      if doctypeStart >= 0 then artifact else DOCTYPE + "\n" + artifact
  }

  /** Both texts begin with the same `r` characters. */
  predicate Agree(s: string, t: string, r: nat) {
    r <= |s| && r <= |t| && t[..r] == s[..r]
  }

  lemma AgreeOn(s: string, t: string, r: nat, a: nat, b: nat)
    requires Agree(s, t, r) && a <= b <= r
    ensures t[a..b] == s[a..b]
  {
    assert t[a..b] == t[..r][a..b] && s[a..b] == s[..r][a..b];
  }

  lemma SkipSpaceStable(s: string, t: string, r: nat, from: nat)
    requires Agree(s, t, r) && from <= |s| && SkipSpace(s, from) < r
    ensures SkipSpace(t, from) == SkipSpace(s, from)
  {
    var i := SkipSpace(s, from);
    AgreeOn(s, t, r, from, i);
    AgreeOn(s, t, r, i, i + 1);
    assert t[i..i + 1][0] == s[i..i + 1][0];
    SkipSpaceFrom(t, from, i);
  }

  lemma IndexOfStable(s: string, t: string, r: nat, p: string, from: nat)
    requires Agree(s, t, r) && from <= IndexOf(s, p, from) && IndexOf(s, p, from) + |p| <= r
    ensures IndexOf(t, p, from) == IndexOf(s, p, from)
  {
    var k := IndexOf(s, p, from);
    AgreeOn(s, t, r, k, k + |p|);
    forall m: nat | from <= m < k ensures !At(t, p, m) {
      AgreeOn(s, t, r, m, m + |p|);
      assert !At(s, p, m);
    }
    IndexOfUnique(t, p, from, k);
  }

  /** The root tag, by the offsets of its parts. */
  lemma RootEndParts(s: string) returns (i: nat, j: nat, k: nat)
    requires RootEnd(s).Some?
    ensures i <= |s| && i == SkipSpace(s, 0) && At(s, DOCTYPE, i) && i + |DOCTYPE| <= |s|
    ensures j == SkipSpace(s, i + |DOCTYPE|) && RootOpens(s, j) && k == IndexOf(s, ">", j + 5)
    ensures RootEnd(s) == Some(k + 1) && j + 5 <= k && At(s, ">", k)
  {
    hide SkipSpace, IndexOf, DOCTYPE, RootOpens;
    i := SkipSpace(s, 0);
    j := SkipSpace(s, i + |DOCTYPE|);
    k := IndexOf(s, ">", j + 5);
  }

  lemma RootEndAt(t: string, i: nat, j: nat, k: nat)
    requires i == SkipSpace(t, 0) && At(t, DOCTYPE, i)
    requires j == SkipSpace(t, i + |DOCTYPE|) && RootOpens(t, j) && k == IndexOf(t, ">", j + 5)
    ensures RootEnd(t) == Some(k + 1)
  {
    hide SkipSpace, IndexOf, DOCTYPE, RootOpens;
  }

  lemma RootOpensStable(s: string, t: string, r: nat, j: nat)
    requires Agree(s, t, r) && RootOpens(s, j) && j + 6 <= r
    ensures RootOpens(t, j)
  {
    AgreeOn(s, t, r, j, j + 5);
    AgreeOn(s, t, r, j + 5, j + 6);
    assert t[j + 5..j + 6][0] == s[j + 5..j + 6][0];
  }

  /** The root tag is recognised from its own text alone. */
  lemma RootEndStable(s: string, t: string)
    requires RootEnd(s).Some? && Agree(s, t, RootEnd(s).value)
    ensures RootEnd(t) == RootEnd(s)
  {
    hide SkipSpace, IndexOf, DOCTYPE, RootOpens, RootEnd, IsSpace, AllSpace;
    var r := RootEnd(s).value;
    var i, j, k := RootEndParts(s);
    SkipSpaceStable(s, t, r, 0);
    AgreeOn(s, t, r, i, i + |DOCTYPE|);
    SkipSpaceStable(s, t, r, i + |DOCTYPE|);
    RootOpensStable(s, t, r, j);
    IndexOfStable(s, t, r, ">", j + 5);
    RootEndAt(t, i, j, k);
  }

  /** A text that begins with the doctype and ends with the closing tag is its own extract. */
  lemma ExtractsItself(t: string)
    requires At(t, DOCTYPE, 0) && |t| >= |ROOT_END| && At(t, ROOT_END, |t| - |ROOT_END|)
    ensures ExtractLynxXmlArtifact(t) == t
  {
    IndexOfUnique(t, DOCTYPE, 0, 0);
    var n := |t| - |ROOT_END|;
    LastFromExact(t, ROOT_END, |t|, n);
    assert t[0..n + |ROOT_END|] == t;
    assert t[|t| - 1] == t[n..n + |ROOT_END|][|ROOT_END| - 1] == '>';
  }

  lemma {:induction false} LastFromExact(s: string, p: string, from: nat, i: nat)
    requires At(s, p, i) && i <= from && forall j | i < j <= from :: !At(s, p, j)
    ensures LastFrom(s, p, from) == i
    decreases from
  {
    if from > i { LastFromExact(s, p, from - 1, i); }
  }

  // ----- The texts that are looked for -----

  /** A block as it stands in a document. */
  lemma BlockSpelled(p: Piece)
    ensures RenderPiece(p)
         == p.gap + (match p.kind
                     case Comment => "<!--" + p.body + "-->"
                     case Style => "<style>" + p.body + "</style>"
                     case Template(space) => "<template" + space + ">" + p.body + "</template>"
                     case Script(main) =>
                       "<script thread=\"" + (if main then "main" else "background") + "\">" + p.body + "</script>")
  {
    match p.kind
    case Comment => Around(p.gap, "<!--", p.body, "-->");
    case Style => Around(p.gap, "<style>", p.body, "</style>");
    case Template(space) => Around(p.gap, "<template" + space + ">", p.body, "</template>");
    case Script(main) =>
      ScriptTags();
      Around(p.gap, if main then MAIN_SCRIPT else BACKGROUND_SCRIPT, p.body, "</script>");
  }

  lemma Around(gap: string, open: string, body: string, close: string)
    ensures gap + open + body + close == gap + (open + body + close)
  {
  }

  lemma ScriptTags()
    ensures MAIN_SCRIPT == "<script thread=\"" + "main" + "\">"
    ensures BACKGROUND_SCRIPT == "<script thread=\"" + "background" + "\">"
  {
  }

  /** The doctype and the root tag, white space in front and in between. */
  predicate RootTag(t: string, gap: string, space: string, attributes: string) {
    && t == gap + ("<!doctype lynx>" + (space + ("<lynx" + (attributes + ">"))))
    && AllSpace(gap) && AllSpace(space) && '>' !in attributes
    && (attributes == "" || !IsWordChar(attributes[0]))
  }

  lemma CharacterIsAt(s: string, c: char, i: nat)
    ensures At(s, [c], i) <==> i < |s| && s[i] == c
  {
    if i < |s| { assert s[i..i + 1] == [s[i]]; }
  }

  lemma Halves(s: string, a: nat, b: nat, c: nat)
    requires a <= b <= c <= |s|
    ensures s[a..c] == s[a..b] + s[b..c]
  {
  }

  lemma NoneBefore(s: string, c: char, from: nat, k: nat)
    requires from <= k <= |s| && forall m: nat | from <= m < k :: !At(s, [c], m)
    ensures c !in s[from..k]
  {
    hide At;
    forall m | from <= m < k ensures s[m] != c { CharacterIsAt(s, c, m); }
  }

  lemma RootShape(s: string, i: nat, j: nat, k: nat)
    requires i + 15 <= j && j + 5 <= k < |s|
    requires s[i..i + 15] == "<!doctype lynx>" && s[j..j + 5] == "<lynx" && s[k..k + 1] == ">"
    ensures s[..k + 1] == s[0..i] + ("<!doctype lynx>" + (s[i + 15..j] + ("<lynx" + (s[j + 5..k] + ">"))))
  {
    Halves(s, j + 5, k, k + 1);
    Halves(s, j, j + 5, k + 1);
    Halves(s, i + 15, j, k + 1);
    Halves(s, i, i + 15, k + 1);
    Halves(s, 0, i, k + 1);
    assert s[0..k + 1] == s[..k + 1];
  }

  lemma TextAt(s: string, text: string, i: nat)
    requires At(s, text, i)
    ensures i + |text| <= |s| && s[i..i + |text|] == text
  {
  }

  lemma RootParts(s: string) returns (i: nat, j: nat, k: nat)
    requires RootEnd(s).Some?
    ensures RootEnd(s) == Some(k + 1) && i + 15 <= j && j + 5 <= k < |s|
    ensures s[i..i + 15] == "<!doctype lynx>" && s[j..j + 5] == "<lynx" && s[k..k + 1] == ">"
    ensures AllSpace(s[0..i]) && AllSpace(s[i + 15..j]) && '>' !in s[j + 5..k]
    ensures k > j + 5 ==> !IsWordChar(s[j + 5])
  {
    hide IndexOf, RootEnd, IsSpace, AllSpace, IsWordChar, At;
    i, j, k := RootEndParts(s);
    TextAt(s, DOCTYPE, i);
    TextAt(s, "<lynx", j);
    TextAt(s, ">", k);
    NoneBefore(s, '>', j + 5, k);
  }

  lemma RootFound(s: string) returns (gap: string, space: string, attributes: string)
    requires RootEnd(s).Some?
    ensures RootTag(s[..RootEnd(s).value], gap, space, attributes)
  {
    hide RootEnd, AllSpace, IsWordChar;
    var i, j, k := RootParts(s);
    gap, space, attributes := s[0..i], s[i + 15..j], s[j + 5..k];
    RootShape(s, i, j, k);
  }

  lemma PartAt(s: string, i: nat, text: string, rest: string)
    requires i <= |s| && s[i..] == text + rest
    ensures i + |text| <= |s| && s[i..i + |text|] == text && s[i + |text|..] == rest
  {
    assert s[i..][..|text|] == text && s[i..][|text|..] == rest;
  }

  /** Where the parts of the root tag lie. */
  lemma RootPlaces(s: string, gap: string, space: string, rest: string)
    requires s == gap + ("<!doctype lynx>" + (space + ("<lynx" + rest)))
    ensures var i := |gap|;
            var j := i + 15 + |space|;
            && j + 5 <= |s| && s[0..i] == gap && s[i..i + 15] == "<!doctype lynx>" && s[i + 15..j] == space
            && s[j..j + 5] == "<lynx" && s[j + 5..] == rest
  {
    var i := |gap|;
    assert s[0..] == s;
    PartAt(s, 0, gap, "<!doctype lynx>" + (space + ("<lynx" + rest)));
    PartAt(s, i, "<!doctype lynx>", space + ("<lynx" + rest));
    PartAt(s, i + 15, space, "<lynx" + rest);
    PartAt(s, i + 15 + |space|, "<lynx", rest);
  }

  lemma TagIsThere(s: string, text: string, c: char, i: nat)
    requires i + |text| <= |s| && s[i..i + |text|] == text && text != "" && text[0] == c
    ensures At(s, text, i) && s[i] == c
  {
    assert s[i..i + |text|][0] == s[i];
  }

  lemma AttributesEnd(s: string, attributes: string, rest: string, from: nat)
    requires from <= |s| && s[from..] == attributes + (">" + rest) && '>' !in attributes
    ensures from + |attributes| < |s| && IndexOf(s, ">", from) == from + |attributes|
  {
    hide IndexOf;
    var k := from + |attributes|;
    assert s[k] == s[from..][|attributes|] == '>';
    CharacterIsAt(s, '>', k);
    forall m: nat | from <= m < k ensures !At(s, ">", m) {
      CharacterIsAt(s, '>', m);
      assert s[m] == s[from..][m - from] == attributes[m - from] && attributes[m - from] in attributes;
    }
    IndexOfUnique(s, ">", from, k);
  }

  lemma RootMatches(s: string, t: string, gap: string, space: string, attributes: string)
    requires t <= s && RootTag(t, gap, space, attributes)
    ensures RootEnd(s) == Some(|t|)
  {
    hide SkipSpace, IndexOf, RootEnd, IsSpace, AllSpace, IsWordChar, At;
    var i := |gap|;
    var j := i + 15 + |space|;
    var rest := attributes + (">" + s[|t|..]);
    assert s == gap + ("<!doctype lynx>" + (space + ("<lynx" + rest)));
    RootPlaces(s, gap, space, rest);
    TagIsThere(s, "<!doctype lynx>", '<', i);
    TagIsThere(s, "<lynx", '<', j);
    TagIsSolid();
    SkipSpaceFrom(s, 0, i);
    SkipSpaceFrom(s, i + 15, j);
    AttributesEnd(s, attributes, s[|t|..], j + 5);
    assert s[j + 5] == rest[0] == if attributes == "" then '>' else attributes[0];
    RootEndAt(s, i, j, j + 5 + |attributes|);
  }

  lemma TagIsSolid()
    ensures !IsSpace('<') && !IsWordChar('>')
  {
  }

  /** The root tag is found exactly where the text begins with one. */
  lemma RootExact(s: string, k: nat)
    ensures RootEnd(s) == Some(k)
       <==> k <= |s| && exists gap, space, attributes :: RootTag(s[..k], gap, space, attributes)
  {
    hide RootEnd, RootTag;
    if RootEnd(s) == Some(k) { var gap, space, attributes := RootFound(s); }
    if k <= |s| {
      forall gap, space, attributes | RootTag(s[..k], gap, space, attributes) ensures RootEnd(s) == Some(k) {
        RootMatches(s, s[..k], gap, space, attributes);
      }
    }
  }
}
