/** Translating a generated page: which lines are kept, which are gathered, and what becomes of those. */
module PageTranslation {
  import opened Text
  import opened MarkdownLinks

  type Dictionary = map<string, string>

  /** An entry that is absent counts like an empty one. */
  function Lookup(dictionary: Dictionary, entry: string): string {
    if entry in dictionary then dictionary[entry] else ""
  }

  // ----- One text -----

  const SOURCE := "Defined in: "

  /** `wordy` is the verdict of the word patterns. */
  predicate HasProse(text: string, wordy: string -> bool) {
    !At(text, SOURCE, 0) && wordy(text)
  }

  /** What may follow the `$` of a replacement pattern. */
  const MARKS := "$&`'"

  /** The text that a pattern's second character stands for. */
  function WordOf(c: char, matched: string, before: string, after: string): string {
    match c
    case '$' => "$"
    case '&' => matched
    case '`' => before
    case _ => after
  }

  /** GetSubstitution of ECMA-262 for a pattern that is a plain string. */
  function Expand(replacement: string, matched: string, before: string, after: string): string {
    if replacement == "" then ""
    else if |replacement| >= 2 && replacement[0] == '$' && replacement[1] in MARKS then
      WordOf(replacement[1], matched, before, after) + Expand(replacement[2..], matched, before, after)
    else [replacement[0]] + Expand(replacement[1..], matched, before, after)
  }

  /** `text.replace(pattern, replacement)` for strings. */
  function Replace(text: string, pattern: string, replacement: string): string {
    var i := IndexOf(text, pattern, 0);
    if i == -1 then text
    else
      var after := text[i + |pattern|..];
      text[..i] + Expand(replacement, pattern, text[..i], after) + after
  }

  /** The text has an entry, and the dictionary, if there is one, has nothing for it. */
  function Untranslated(text: string, dictionary: Option<Dictionary>, wordy: string -> bool): set<string> {
    var source := Trim(text);
    if !HasProse(source, wordy) || (dictionary.Some? && Lookup(dictionary.value, Key(source)) != "") then {}
    else {Key(source)}
  }

  function TextOf(text: string, dictionary: Option<Dictionary>, wordy: string -> bool): string {
    var source := Trim(text);
    if !HasProse(source, wordy) || dictionary.None? || Lookup(dictionary.value, Key(source)) == "" then text
    else Replace(text, source, Refilled(Lookup(dictionary.value, Key(source)), Targets(source)))
  }

  // ----- One table row -----

  /** `row.split(/(?<!\\)\|/)`, told the character in front. */
  function Cells(row: string, escaped: bool): (cells: seq<string>)
    ensures cells != []
  {
    if row == "" then [""]
    else
      var rest := Cells(row[1..], row[0] == '\\');
      if row[0] == '|' && !escaped then [""] + rest else [[row[0]] + rest[0]] + rest[1..]
  }

  /** `/^\s*`/` */
  predicate CodeCell(cell: string) {
    SkipSpace(cell, 0) < |cell| && cell[SkipSpace(cell, 0)] == '`'
  }

  /** The cell at `i` of `n` is left alone. */
  predicate KeptCell(cell: string, i: nat, n: nat) {
    i == 0 || i == n - 1 || CodeCell(cell)
  }

  function CellsOf(cells: seq<string>, i: nat, n: nat, dictionary: Option<Dictionary>,
                   wordy: string -> bool): seq<string> {
    if cells == [] then []
    else
      [if KeptCell(cells[0], i, n) then cells[0] else TextOf(cells[0], dictionary, wordy)]
      + CellsOf(cells[1..], i + 1, n, dictionary, wordy)
  }

  function RowOf(row: string, dictionary: Option<Dictionary>, wordy: string -> bool): string {
    var cells := Cells(row, false);
    Join(CellsOf(cells, 0, |cells|, dictionary, wordy), "|")
  }

  function CellEntries(cells: seq<string>, i: nat, n: nat, dictionary: Option<Dictionary>,
                       wordy: string -> bool): set<string> {
    if cells == [] then {}
    else
      (if KeptCell(cells[0], i, n) then {} else Untranslated(cells[0], dictionary, wordy))
      + CellEntries(cells[1..], i + 1, n, dictionary, wordy)
  }

  function RowEntries(row: string, dictionary: Option<Dictionary>, wordy: string -> bool): set<string> {
    var cells := Cells(row, false);
    CellEntries(cells, 0, |cells|, dictionary, wordy)
  }

  // ----- One block -----

  /** `/^\s*\|/` */
  predicate Table(text: string) {
    SkipSpace(text, 0) < |text| && text[SkipSpace(text, 0)] == '|'
  }

  function Hashes(s: string): nat {
    if s == "" || s[0] != '#' then 0 else 1 + Hashes(s[1..])
  }

  /** `/^#{1,6} /` */
  predicate Heading(text: string) {
    1 <= Hashes(text) <= 6 && Hashes(text) < |text| && text[Hashes(text)] == ' '
  }

  /** The first two rows, the header and its rule, stay. */
  function RowsOf(rows: seq<string>, i: nat, dictionary: Option<Dictionary>, wordy: string -> bool): seq<string> {
    if rows == [] then []
    else [if i < 2 then rows[0] else RowOf(rows[0], dictionary, wordy)] + RowsOf(rows[1..], i + 1, dictionary, wordy)
  }

  function RowsEntries(rows: seq<string>, i: nat, dictionary: Option<Dictionary>, wordy: string -> bool): set<string> {
    if rows == [] then {}
    else
      (if i < 2 then {} else RowEntries(rows[0], dictionary, wordy))
      + RowsEntries(rows[1..], i + 1, dictionary, wordy)
  }

  function BlockOf(text: string, dictionary: Option<Dictionary>, wordy: string -> bool): string {
    if Table(text) then Join(RowsOf(Split(text, '\n'), 0, dictionary, wordy), "\n")
    else if Heading(text) then text
    else TextOf(text, dictionary, wordy)
  }

  function BlockEntries(text: string, dictionary: Option<Dictionary>, wordy: string -> bool): set<string> {
    if Table(text) then RowsEntries(Split(text, '\n'), 0, dictionary, wordy)
    else if Heading(text) then {}
    else Untranslated(text, dictionary, wordy)
  }

  // ----- The lines of a page -----

  predicate FenceLine(line: string) {
    At(line, "```", 0) || At(line, "~~~", 0)
  }

  /** `.` of a pattern does not match these. */
  predicate LineTerminator(c: char) {
    c == '\n' || c == '\r' || c as int == 0x2028 || c as int == 0x2029
  }

  // `/^>\s.*\*\*/`
  predicate DeclarationLine(line: string) {
    |line| >= 2 && line[0] == '>' && IsSpace(line[1])
    && var k := IndexOf(line, "**", 2);
       k >= 2 && forall i | 2 <= i < k :: !LineTerminator(line[i])
  }

  /** Kept outside of a fence. */
  predicate BreakLine(line: string) {
    DeclarationLine(line) || Trim(line) == ""
  }

  datatype Segment = Verbatim(line: string) | Paragraph(lines: seq<string>)

  function Flush(block: seq<string>): seq<Segment> {
    if block == [] then [] else [Paragraph(block)]
  }

  /** The automaton over the lines: what has been gathered, and whether a fence is open. */
  function Segments(lines: seq<string>, block: seq<string>, fence: bool): seq<Segment> {
    if lines == [] then Flush(block)
    else
      var line, rest := lines[0], lines[1..];
      if FenceLine(line) then
        if fence then [Verbatim(line)] + Segments(rest, block, false)
        else Flush(block) + [Verbatim(line)] + Segments(rest, [], true)
      else if fence then [Verbatim(line)] + Segments(rest, block, true)
      else if BreakLine(line) then Flush(block) + [Verbatim(line)] + Segments(rest, [], false)
      else Segments(rest, block + [line], false)
  }

  function SegmentOf(segment: Segment, dictionary: Option<Dictionary>, wordy: string -> bool): string {
    match segment
    case Verbatim(line) => line
    case Paragraph(lines) => BlockOf(Join(lines, "\n"), dictionary, wordy)
  }

  function SegmentsOf(segments: seq<Segment>, dictionary: Option<Dictionary>, wordy: string -> bool): seq<string> {
    if segments == [] then []
    else [SegmentOf(segments[0], dictionary, wordy)] + SegmentsOf(segments[1..], dictionary, wordy)
  }

  function SegmentEntries(segments: seq<Segment>, dictionary: Option<Dictionary>, wordy: string -> bool): set<string> {
    if segments == [] then {}
    else
      (if segments[0].Paragraph? then BlockEntries(Join(segments[0].lines, "\n"), dictionary, wordy) else {})
      + SegmentEntries(segments[1..], dictionary, wordy)
  }

  function PageSegments(markdown: string): seq<Segment> {
    Segments(Split(markdown, '\n'), [], false)
  }

  function PageOf(markdown: string, dictionary: Option<Dictionary>, wordy: string -> bool): string {
    Join(SegmentsOf(PageSegments(markdown), dictionary, wordy), "\n")
  }

  function PageEntries(markdown: string, dictionary: Option<Dictionary>, wordy: string -> bool): set<string> {
    SegmentEntries(PageSegments(markdown), dictionary, wordy)
  }

  // ----- Without a dictionary nothing changes -----

  lemma JoinFirst(c: char, cell: string, rest: seq<string>)
    ensures Join([[c] + cell] + rest, "|") == [c] + Join([cell] + rest, "|")
    ensures Join([""] + ([cell] + rest), "|") == "|" + Join([cell] + rest, "|")
  {
    assert ([[c] + cell] + rest)[1..] == rest && ([cell] + rest)[1..] == rest;
    assert ([""] + ([cell] + rest))[1..] == [cell] + rest;
  }

  lemma {:induction false} JoinCells(row: string, escaped: bool)
    ensures Join(Cells(row, escaped), "|") == row
  {
    if row != "" {
      hide Join;
      JoinCells(row[1..], row[0] == '\\');
      var rest := Cells(row[1..], row[0] == '\\');
      assert row == [row[0]] + row[1..] && rest == [rest[0]] + rest[1..];
      JoinFirst(row[0], rest[0], rest[1..]);
    }
  }

  lemma {:induction false} CellsSame(cells: seq<string>, i: nat, n: nat, wordy: string -> bool)
    ensures CellsOf(cells, i, n, None, wordy) == cells
  {
    if cells != [] { CellsSame(cells[1..], i + 1, n, wordy); }
  }

  lemma {:induction false} RowsSame(rows: seq<string>, i: nat, wordy: string -> bool)
    ensures RowsOf(rows, i, None, wordy) == rows
  {
    if rows != [] {
      CellsSame(Cells(rows[0], false), 0, |Cells(rows[0], false)|, wordy);
      JoinCells(rows[0], false);
      RowsSame(rows[1..], i + 1, wordy);
    }
  }

  lemma BlockSame(text: string, wordy: string -> bool)
    ensures BlockOf(text, None, wordy) == text
  {
    hide Join, Split;
    RowsSame(Split(text, '\n'), 0, wordy);
    JoinSplit(text, '\n');
  }

  function LinesOf(segment: Segment): seq<string> {
    match segment
    case Verbatim(line) => [line]
    case Paragraph(lines) => lines
  }

  function Flatten(segments: seq<Segment>): seq<string> {
    if segments == [] then [] else LinesOf(segments[0]) + Flatten(segments[1..])
  }

  lemma {:induction false} FlattenAppend(a: seq<Segment>, b: seq<Segment>)
    ensures Flatten(a + b) == Flatten(a) + Flatten(b)
  {
    if a == [] {
      assert a + b == b;
    } else {
      assert (a + b)[1..] == a[1..] + b;
      FlattenAppend(a[1..], b);
    }
  }

  /** No paragraph is empty. */
  predicate Filled(segments: seq<Segment>) {
    forall s | s in segments :: LinesOf(s) != []
  }

  lemma FlattenFlush(block: seq<string>, line: string, rest: seq<Segment>)
    ensures Flatten(Flush(block) + [Verbatim(line)] + rest) == block + [line] + Flatten(rest)
  {
    FlattenAppend(Flush(block) + [Verbatim(line)], rest);
    FlattenAppend(Flush(block), [Verbatim(line)]);
    assert Flatten([Verbatim(line)]) == [line];
    if block != [] { assert Flatten([Paragraph(block)]) == block + Flatten([]); }
  }

  /** The automaton, one line further: a kept line ends the paragraph, any other line joins it. */
  lemma SegmentsStep(line: string, rest: seq<string>, block: seq<string>, fence: bool)
    requires fence ==> block == []
    ensures Segments([line] + rest, block, fence)
         == if fence || FenceLine(line) || BreakLine(line) then
              Flush(block) + [Verbatim(line)] + Segments(rest, [], fence != FenceLine(line))
            else Segments(rest, block + [line], false)
  {
    hide FenceLine, BreakLine;
    assert ([line] + rest)[1..] == rest;
    if fence { assert Flush([]) + [Verbatim(line)] == [Verbatim(line)]; }
  }

  lemma SegmentsEnd(block: seq<string>)
    ensures Segments([], block, false) == Segments([], block, true) == Flush(block)
    ensures Flatten(Flush(block)) == block && Filled(Flush(block))
    ensures Verbatims(Flush(block)) == [] && Gathered(Flush(block)) == block && Separated(Flush(block))
  {
    if block != [] {
      assert Flatten([Paragraph(block)]) == block + Flatten([]);
      assert Gathered([Paragraph(block)]) == block + Gathered([]);
      assert Verbatims([Paragraph(block)]) == [] + Verbatims([]);
    }
  }

  lemma LineBehind(block: seq<string>, line: string, rest: seq<string>)
    ensures block + [line] + rest == block + ([line] + rest)
  {
  }

  /** No line is lost, added or moved. */
  lemma {:induction false} SegmentsLossless(lines: seq<string>, block: seq<string>, fence: bool)
    requires fence ==> block == []
    ensures Flatten(Segments(lines, block, fence)) == block + lines
    ensures Filled(Segments(lines, block, fence))
    decreases lines
  {
    hide *;
    if lines == [] {
      SegmentsEnd(block);
    } else {
      var line, rest := lines[0], lines[1..];
      var next := fence != FenceLine(line);
      assert lines == [line] + rest;
      LineBehind(block, line, rest);
      SegmentsStep(line, rest, block, fence);
      if fence || FenceLine(line) || BreakLine(line) {
        SegmentsLossless(rest, [], next);
        FlattenFlush(block, line, Segments(rest, [], next));
        FilledFlush(block, line, Segments(rest, [], next));
        assert [] + rest == rest;
      } else {
        SegmentsLossless(rest, block + [line], false);
      }
    }
  }

  lemma FilledFlush(block: seq<string>, line: string, rest: seq<Segment>)
    requires Filled(rest)
    ensures Filled(Flush(block) + [Verbatim(line)] + rest)
  {
  }

  /** Joining joined groups of lines joins the lines. */
  lemma {:induction false} JoinFlatten(segments: seq<Segment>, wordy: string -> bool)
    requires Filled(segments)
    ensures Join(SegmentsOf(segments, None, wordy), "\n") == Join(Flatten(segments), "\n")
    ensures segments != [] ==> Flatten(segments) != []
  {
    if segments != [] {
      hide BlockOf;
      var lines, rest := LinesOf(segments[0]), segments[1..];
      assert segments[0] in segments;
      JoinFlatten(rest, wordy);
      SegmentSame(segments[0], wordy);
      var texts := SegmentsOf(segments, None, wordy);
      assert texts[1..] == SegmentsOf(rest, None, wordy);
      if rest == [] {
        assert lines + [] == lines;
      } else {
        JoinAppend(lines, Flatten(rest), "\n");
      }
    }
  }

  lemma SegmentSame(segment: Segment, wordy: string -> bool)
    ensures SegmentOf(segment, None, wordy) == Join(LinesOf(segment), "\n")
  {
    if segment.Paragraph? { BlockSame(Join(segment.lines, "\n"), wordy); }
  }

  /** The English page: translating without a dictionary is the identity, whatever the page. */
  lemma NoDictionaryNoChange(markdown: string, wordy: string -> bool)
    ensures PageOf(markdown, None, wordy) == markdown
  {
    hide *;
    var lines := Split(markdown, '\n');
    SegmentsLossless(lines, [], false);
    PageUnfold(markdown, wordy);
    JoinFlatten(PageSegments(markdown), wordy);
    JoinSplit(markdown, '\n');
    assert [] + lines == lines;
  }

  lemma PageUnfold(markdown: string, wordy: string -> bool)
    ensures PageOf(markdown, None, wordy) == Join(SegmentsOf(PageSegments(markdown), None, wordy), "\n")
    ensures PageSegments(markdown) == Segments(Split(markdown, '\n'), [], false)
    ensures ['\n'] == "\n"
  {
  }

  // ----- Which lines are kept -----

  /** How many fence lines there are in front of line `k`. */
  function FencesBefore(lines: seq<string>, k: nat): nat
    requires k <= |lines|
  {
    if k == 0 then 0 else FencesBefore(lines, k - 1) + (if FenceLine(lines[k - 1]) then 1 else 0)
  }

  /** A line of the page that is not prose, told by its place in the page alone. */
  predicate Kept(lines: seq<string>, k: nat)
    requires k < |lines|
  {
    FenceLine(lines[k]) || FencesBefore(lines, k) % 2 == 1 || BreakLine(lines[k])
  }

  function KeptFrom(lines: seq<string>, k: nat): seq<string>
    requires k <= |lines|
    decreases |lines| - k
  {
    if k == |lines| then [] else (if Kept(lines, k) then [lines[k]] else []) + KeptFrom(lines, k + 1)
  }

  function ProseFrom(lines: seq<string>, k: nat): seq<string>
    requires k <= |lines|
    decreases |lines| - k
  {
    if k == |lines| then [] else (if Kept(lines, k) then [] else [lines[k]]) + ProseFrom(lines, k + 1)
  }

  function Verbatims(segments: seq<Segment>): seq<string> {
    if segments == [] then []
    else (if segments[0].Verbatim? then [segments[0].line] else []) + Verbatims(segments[1..])
  }

  function Gathered(segments: seq<Segment>): seq<string> {
    if segments == [] then []
    else (if segments[0].Paragraph? then segments[0].lines else []) + Gathered(segments[1..])
  }

  /** Between two paragraphs there is a kept line. */
  predicate Separated(segments: seq<Segment>) {
    forall i | 0 <= i < |segments| - 1 :: segments[i].Verbatim? || segments[i + 1].Verbatim?
  }

  lemma {:induction false} VerbatimsFlush(block: seq<string>, line: string, rest: seq<Segment>)
    ensures var all := Flush(block) + [Verbatim(line)] + rest;
            && Verbatims(all) == [line] + Verbatims(rest) && Gathered(all) == block + Gathered(rest)
            && (Separated(rest) ==> Separated(all))
  {
    var all := [Verbatim(line)] + rest;
    assert all[1..] == rest;
    assert Verbatims(all) == [line] + Verbatims(rest) && Gathered(all) == Gathered(rest);
    if block == [] {
      assert [] + [Verbatim(line)] + rest == all;
      assert [] + Gathered(rest) == Gathered(rest);
    } else {
      var more := [Paragraph(block)] + all;
      assert [Paragraph(block)] + [Verbatim(line)] + rest == more && more[1..] == all;
    }
    if Separated(rest) { SeparatedFlush(block, line, rest); }
  }

  lemma SeparatedFlush(block: seq<string>, line: string, rest: seq<Segment>)
    requires Separated(rest)
    ensures Separated(Flush(block) + [Verbatim(line)] + rest)
  {
    var all, n := Flush(block) + [Verbatim(line)] + rest, |Flush(block)| + 1;
    forall i | 0 <= i < |all| - 1 ensures all[i].Verbatim? || all[i + 1].Verbatim? {
      if i >= n { assert all[i] == rest[i - n] && all[i + 1] == rest[i + 1 - n]; }
    }
  }

  lemma KeptStep(lines: seq<string>, k: nat)
    requires k < |lines|
    ensures FencesBefore(lines, k + 1) % 2 == 1 <==> (FencesBefore(lines, k) % 2 == 1) != FenceLine(lines[k])
    ensures KeptFrom(lines, k) == (if Kept(lines, k) then [lines[k]] else []) + KeptFrom(lines, k + 1)
    ensures ProseFrom(lines, k) == (if Kept(lines, k) then [] else [lines[k]]) + ProseFrom(lines, k + 1)
    ensures Kept(lines, k) <==> FencesBefore(lines, k) % 2 == 1 || FenceLine(lines[k]) || BreakLine(lines[k])
    ensures lines[k..] == [lines[k]] + lines[k + 1..]
  {
    hide FenceLine, BreakLine;
  }

  /** The segments hold the kept lines and the prose lines from line `k` on, behind the lines already gathered. */
  predicate Matches(segments: seq<Segment>, lines: seq<string>, k: nat, block: seq<string>)
    requires k <= |lines|
  {
    && Verbatims(segments) == KeptFrom(lines, k)
    && Gathered(segments) == block + ProseFrom(lines, k)
    && Separated(segments)
  }

  lemma MatchesKept(lines: seq<string>, k: nat, block: seq<string>, rest: seq<Segment>)
    requires k < |lines| && Kept(lines, k) && Matches(rest, lines, k + 1, [])
    ensures Matches(Flush(block) + [Verbatim(lines[k])] + rest, lines, k, block)
  {
    hide FencesBefore, Kept, Flush, Verbatims, Gathered, Separated, KeptFrom, ProseFrom;
    KeptStep(lines, k);
    VerbatimsFlush(block, lines[k], rest);
    assert [] + ProseFrom(lines, k + 1) == ProseFrom(lines, k + 1);
  }

  lemma MatchesProse(lines: seq<string>, k: nat, block: seq<string>, segments: seq<Segment>)
    requires k < |lines| && !Kept(lines, k) && Matches(segments, lines, k + 1, block + [lines[k]])
    ensures Matches(segments, lines, k, block)
  {
    hide FencesBefore, Kept, Verbatims, Gathered, Separated, KeptFrom, ProseFrom;
    KeptStep(lines, k);
    assert block + [lines[k]] + ProseFrom(lines, k + 1) == block + ([lines[k]] + ProseFrom(lines, k + 1));
    assert [] + KeptFrom(lines, k + 1) == KeptFrom(lines, k + 1);
  }

  /** The automaton keeps exactly the lines to be kept, gathers exactly the others, and splits paragraphs only there. */
  lemma {:induction false} KeptExactly(lines: seq<string>, k: nat, block: seq<string>, fence: bool)
    requires k <= |lines| && fence == (FencesBefore(lines, k) % 2 == 1) && (fence ==> block == [])
    ensures Matches(Segments(lines[k..], block, fence), lines, k, block)
    decreases |lines| - k
  {
    if k == |lines| {
      hide FencesBefore, Segments;
      assert lines[k..] == [];
      SegmentsEnd(block);
    } else {
      hide *;
      var line, rest := lines[k], lines[k + 1..];
      var next := fence != FenceLine(line);
      KeptStep(lines, k);
      SegmentsStep(line, rest, block, fence);
      if Kept(lines, k) {
        KeptExactly(lines, k + 1, [], next);
        MatchesKept(lines, k, block, Segments(rest, [], next));
      } else {
        KeptExactly(lines, k + 1, block + [line], false);
        MatchesProse(lines, k, block, Segments(rest, block + [line], false));
      }
    }
  }

  /** A page's structure, told from its lines alone: what is kept, what is prose, and in which order. */
  lemma PageStructure(markdown: string)
    ensures var lines, segments := Split(markdown, '\n'), PageSegments(markdown);
            && Flatten(segments) == lines && Filled(segments) && Separated(segments)
            && Verbatims(segments) == KeptFrom(lines, 0) && Gathered(segments) == ProseFrom(lines, 0)
  {
    hide FenceLine, BreakLine, Split, Segments, Flatten, Filled, Separated, Verbatims, Gathered, KeptFrom, ProseFrom;
    var lines := Split(markdown, '\n');
    SegmentsLossless(lines, [], false);
    KeptExactly(lines, 0, [], false);
    assert lines[0..] == lines && [] + lines == lines && [] + ProseFrom(lines, 0) == ProseFrom(lines, 0);
  }

  // ----- What a translated text looks like -----

  /** A replacement pattern stands somewhere in the text. */
  predicate Patterned(s: string) {
    exists i :: 0 <= i < |s| - 1 && s[i] == '$' && s[i + 1] in MARKS
  }

  lemma PatternedTail(c: char, s: string)
    requires Patterned(s)
    ensures Patterned([c] + s)
  {
    var i :| 0 <= i < |s| - 1 && s[i] == '$' && s[i + 1] in MARKS;
    var t := [c] + s;
    assert t[i + 1] == s[i] && t[i + 2] == s[i + 1];
  }

  lemma {:induction false} ExpandPlain(replacement: string, matched: string, before: string, after: string)
    requires !Patterned(replacement)
    ensures Expand(replacement, matched, before, after) == replacement
  {
    if replacement != "" {
      var rest := replacement[1..];
      assert [replacement[0]] + rest == replacement;
      if Patterned(rest) { PatternedTail(replacement[0], rest); }
      ExpandPlain(rest, matched, before, after);
    }
  }

  /** How many characters can stand in no pattern. */
  function Ordinary(s: string): nat {
    if s == "" then 0 else (if s[0] in MARKS then 0 else 1) + Ordinary(s[1..])
  }

  lemma {:induction false} OrdinaryJoin(a: string, b: string)
    ensures Ordinary(a + b) == Ordinary(a) + Ordinary(b)
  {
    if a == "" {
      assert a + b == b;
    } else {
      assert (a + b)[0] == a[0] && (a + b)[1..] == a[1..] + b;
      OrdinaryJoin(a[1..], b);
    }
  }

  lemma MarksAreSolid(c: char)
    requires c in MARKS
    ensures !IsSpace(c)
  {
  }

  lemma {:induction false} OrdinarySpace(s: string)
    requires AllSpace(s)
    ensures Ordinary(s) == |s|
  {
    hide IsSpace, MARKS;
    if s != "" {
      assert s[0] in s && AllSpace(s[1..]);
      if s[0] in MARKS { MarksAreSolid(s[0]); }
      OrdinarySpace(s[1..]);
    }
  }

  lemma {:induction false} OrdinaryFound(s: string, c: char)
    requires c in s && c !in MARKS
    ensures Ordinary(s) > 0
  {
    hide MARKS;
    if s[0] != c {
      assert s == [s[0]] + s[1..];
      OrdinaryFound(s[1..], c);
    }
  }

  lemma ExpandPattern(r: string, matched: string, before: string, after: string)
    requires |r| >= 2 && r[0] == '$' && r[1] in MARKS
    ensures Expand(r, matched, before, after)
         == WordOf(r[1], matched, before, after) + Expand(r[2..], matched, before, after)
    ensures Ordinary(r) == Ordinary(r[2..])
  {
    assert r[1..][0] == r[1] && r[1..][1..] == r[2..];
  }

  lemma ExpandOrdinary(r: string, matched: string, before: string, after: string)
    requires r != "" && !(|r| >= 2 && r[0] == '$' && r[1] in MARKS)
    ensures Expand(r, matched, before, after) == [r[0]] + Expand(r[1..], matched, before, after)
    ensures Patterned(r) ==> Patterned(r[1..])
  {
    if Patterned(r) {
      var i :| 0 <= i < |r| - 1 && r[i] == '$' && r[i + 1] in MARKS;
      assert r[1..][i - 1] == r[i] && r[1..][i] == r[i + 1];
    }
  }

  lemma WordCounts(c: char, matched: string, before: string, after: string)
    requires c in MARKS && Ordinary(matched) > 0 && Ordinary(before) == |before| && Ordinary(after) == |after|
    ensures var word := WordOf(c, matched, before, after); Ordinary(word) > 0 || |word| <= 1
  {
  }

  /** An expansion loses no ordinary character; if it gains none, it gets shorter with every pattern. */
  lemma {:induction false} ExpandCounts(r: string, matched: string, before: string, after: string)
    requires Ordinary(matched) > 0 && Ordinary(before) == |before| && Ordinary(after) == |after|
    ensures var e := Expand(r, matched, before, after);
            && Ordinary(e) >= Ordinary(r)
            && (Ordinary(e) == Ordinary(r) ==> |e| <= |r| && (Patterned(r) ==> |e| < |r|))
    decreases |r|
  {
    hide Expand, Ordinary, WordOf, Patterned, MARKS;
    if r == "" {
      ExpandNothing(matched, before, after);
    } else if |r| >= 2 && r[0] == '$' && r[1] in MARKS {
      var word := WordOf(r[1], matched, before, after);
      ExpandPattern(r, matched, before, after);
      WordCounts(r[1], matched, before, after);
      OrdinaryJoin(word, Expand(r[2..], matched, before, after));
      ExpandCounts(r[2..], matched, before, after);
    } else {
      ExpandOrdinary(r, matched, before, after);
      OrdinaryJoin([r[0]], Expand(r[1..], matched, before, after));
      OrdinaryJoin([r[0]], r[1..]);
      assert [r[0]] + r[1..] == r;
      ExpandCounts(r[1..], matched, before, after);
    }
  }

  lemma ExpandNothing(matched: string, before: string, after: string)
    ensures Expand("", matched, before, after) == "" && !Patterned("")
  {
  }

  /** Between white space, for a text with an ordinary character: verbatim exactly without a pattern. */
  lemma ExpandExact(replacement: string, matched: string, before: string, after: string)
    requires AllSpace(before) && AllSpace(after) && exists c :: c in matched && c !in MARKS
    ensures Expand(replacement, matched, before, after) == replacement <==> !Patterned(replacement)
  {
    hide Expand, Ordinary, Patterned, AllSpace, MARKS;
    var c :| c in matched && c !in MARKS;
    OrdinaryFound(matched, c);
    OrdinarySpace(before);
    OrdinarySpace(after);
    if Patterned(replacement) {
      ExpandCounts(replacement, matched, before, after);
    } else {
      ExpandPlain(replacement, matched, before, after);
    }
  }

  /** The trimmed text is found right behind the leading white space. */
  lemma TrimmedFound(text: string) returns (lead: string, trail: string)
    requires Trim(text) != ""
    ensures text == lead + Trim(text) + trail && AllSpace(lead) && AllSpace(trail)
    ensures IndexOf(text, Trim(text), 0) == |lead|
  {
    hide IsSpace;
    var i, rest, source := SkipSpace(text, 0), TrimStart(text), Trim(text);
    lead, trail := text[..i], rest[|source|..];
    assert text[0..i] == lead && source == rest[..|source|];
    assert text == lead + source + trail;
    assert text[i..i + |source|] == source;
    forall j: nat | j < i ensures !At(text, source, j) {
      assert IsSpace(text[j]) by { assert text[j] == lead[j] && lead[j] in lead; }
      assert !IsSpace(source[0]) by { assert source[0] == rest[0]; }
      if j + |source| <= |text| { assert text[j..j + |source|][0] == text[j]; }
    }
    assert At(text, source, i);
  }

  /**
   * A translated text: what the entry says between the page's own white space, with the page's own links in order.
   * `replace` reads `$` patterns in it: for a text with a letter, and so for all prose, it comes out as it is exactly
   * when it holds no pattern.
   */
  lemma TranslatedText(text: string, dictionary: Dictionary, wordy: string -> bool)
    returns (lead: string, middle: string, printed: string, trail: string)
    requires Trim(text) != "" && HasProse(Trim(text), wordy)
    requires Lookup(dictionary, Key(Trim(text))) != ""
    ensures text == lead + Trim(text) + trail && AllSpace(lead) && AllSpace(trail)
    ensures TextOf(text, Some(dictionary), wordy) == lead + printed + trail
    ensures printed == Expand(middle, Trim(text), lead, trail)
    ensures !Patterned(middle) ==> printed == middle
    ensures (exists c :: c in Trim(text) && c !in MARKS) ==> (printed == middle <==> !Patterned(middle))
    ensures var source, value := Trim(text), Lookup(dictionary, Key(Trim(text)));
            && Key(middle) == Key(value)
            && (|Targets(value)| == |Targets(source)| ==> Targets(middle) == Targets(source))
  {
    hide IsSpace, Key, Targets, Refilled, Trim, IndexOf, HasProse, AllSpace, Patterned, Expand, MARKS;
    var source := Trim(text);
    var value := Lookup(dictionary, Key(source));
    lead, trail := TrimmedFound(text);
    middle := Refilled(value, Targets(source));
    printed := Expand(middle, source, lead, trail);
    assert text[|lead| + |source|..] == trail && text[..|lead|] == lead;
    if !Patterned(middle) { ExpandPlain(middle, source, lead, trail); }
    if exists c :: c in source && c !in MARKS { ExpandExact(middle, source, lead, trail); }
    LinksRestored(value, source);
  }

  lemma {:induction false} Linkless(s: string, targets: seq<string>)
    requires ']' !in s
    ensures Key(s) == s && Refilled(s, targets) == s
  {
    if s != "" {
      var rest := s[1..];
      assert s == [s[0]] + rest && s[0] in s;
      Linkless(rest, targets);
      assert Parts(s) == [Plain(s[0])] + Parts(rest);
    }
  }

  /** An entry that says `US$$` is printed as `US$`. */
  lemma DollarLost(source: string, wordy: string -> bool)
    requires Trim(source) == source && source != "" && ']' !in source && HasProse(source, wordy)
    ensures TextOf(source, Some(map[source := "US$$"]), wordy) == "US$"
  {
    hide Trim, Key, Refilled, Targets;
    Linkless(source, []);
    Linkless("US$$", Targets(source));
    assert source[0..|source|] == source;
    DollarExpanded(source);
  }

  lemma DollarExpanded(source: string)
    ensures Replace(source, source, "US$$") == "US$"
  {
    var r := "US$$";
    assert At(source, source, 0);
    assert r[1..] == "S$$" && r[1..][1..] == "$$" && r[2..][2..] == "";
    assert Expand("$$", source, "", "") == "$";
    assert Expand("S$$", source, "", "") == "S$";
  }
}
