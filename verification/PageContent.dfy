/** What a translated page says: every paragraph and cell with an entry is translated in its place, and nothing else. */
module PageContent {
  import opened Text
  import opened MarkdownLinks
  import opened PageTranslation
  import PageLines

  // ----- One text -----

  /** The dictionary has something for the text. */
  predicate Translated(text: string, dictionary: Option<Dictionary>, wordy: string -> bool) {
    && !At(Trim(text), "Defined in: ", 0) && wordy(Trim(text))
    && dictionary.Some? && Lookup(dictionary.value, Key(Trim(text))) != ""
  }

  /**
   * What is printed for a text: the text itself, or for one with an entry, between the page's own white space, the
   * entry with the page's own links in it, as `replace` expands it.
   */
  ghost predicate Prints(text: string, printed: string, dictionary: Option<Dictionary>, wordy: string -> bool) {
    if !Translated(text, dictionary, wordy) then printed == text
    else
      exists lead, middle, trail ::
        && text == lead + Trim(text) + trail && AllSpace(lead) && AllSpace(trail)
        && Localized(middle, Lookup(dictionary.value, Key(Trim(text))), Trim(text))
        && printed == lead + Expand(middle, Trim(text), lead, trail) + trail
  }

  /** The words are the entry's, and the links the page's, in order; a link too many keeps the entry's own. */
  predicate Localized(middle: string, value: string, source: string) {
    var n, own := |Targets(source)|, Targets(value);
    && Key(middle) == Key(value)
    && Targets(middle) == (if n <= |own| then Targets(source) + own[n..] else Targets(source)[..|own|])
  }

  lemma SourceSpelled()
    ensures SOURCE == "Defined in: "
  {
  }

  /** Where the trimmed text is found, be it empty or not. */
  lemma SourceFound(text: string) returns (lead: string, trail: string)
    ensures text == lead + Trim(text) + trail && AllSpace(lead) && AllSpace(trail)
    ensures IndexOf(text, Trim(text), 0) == |lead|
  {
    hide IsSpace;
    if Trim(text) == "" {
      TrimEmpty(text);
      lead, trail := "", text;
    } else {
      hide IndexOf, Trim, AllSpace;
      lead, trail := TrimmedFound(text);
    }
  }

  lemma TextPrints(text: string, dictionary: Option<Dictionary>, wordy: string -> bool)
    ensures Prints(text, TextOf(text, dictionary, wordy), dictionary, wordy)
  {
    hide IsSpace, Key, Targets, Refilled, Trim, IndexOf, AllSpace, Expand, SOURCE;
    SourceSpelled();
    if Translated(text, dictionary, wordy) {
      var source := Trim(text);
      var value := Lookup(dictionary.value, Key(source));
      var lead, trail := SourceFound(text);
      var middle := Refilled(value, Targets(source));
      assert text[|lead| + |source|..] == trail && text[..|lead|] == lead;
      LinksRestored(value, source);
      assert Localized(middle, value, source);
      assert TextOf(text, dictionary, wordy) == lead + Expand(middle, source, lead, trail) + trail;
    }
  }

  // ----- One row of a table -----

  /** Every bar in the cell is escaped, the first character's by what is in front of the cell. */
  predicate NoBar(cell: string, escaped: bool) {
    forall i | 0 <= i < |cell| && cell[i] == '|' :: if i == 0 then escaped else cell[i - 1] == '\\'
  }

  /** A bar behind the cell is not escaped, which for an empty cell depends on what is in front of it. */
  predicate EndsFree(cell: string, escaped: bool) {
    if cell == "" then !escaped else cell[|cell| - 1] != '\\'
  }

  /** The cells lie between bars that no backslash escapes, and hold no other such bar. */
  predicate Divided(cells: seq<string>, escaped: bool) {
    forall k | 0 <= k < |cells| ::
      NoBar(cells[k], k == 0 && escaped) && (k < |cells| - 1 ==> EndsFree(cells[k], k == 0 && escaped))
  }

  lemma BarFirst(rest: seq<string>)
    requires Divided(rest, false)
    ensures Divided([""] + rest, false)
  {
    hide NoBar, EndsFree;
    var cells := [""] + rest;
    EmptyCell();
    forall k | 0 < k < |cells| ensures cells[k] == rest[k - 1] {}
  }

  lemma EmptyCell()
    ensures NoBar("", false) && EndsFree("", false)
  {
  }

  lemma CharCell(c: char, cell: string, escaped: bool)
    requires NoBar(cell, c == '\\') && (c == '|' ==> escaped)
    ensures NoBar([c] + cell, escaped)
    ensures EndsFree(cell, c == '\\') ==> EndsFree([c] + cell, escaped)
  {
    var all := [c] + cell;
    forall i | 0 <= i < |all| && all[i] == '|' ensures if i == 0 then escaped else all[i - 1] == '\\' {
      if i == 1 {
        BarEscaped(cell, c == '\\', 0);
      } else if i > 1 {
        BarEscaped(cell, c == '\\', i - 1);
        assert all[i - 1] == cell[i - 2];
      }
    }
  }

  lemma BarEscaped(cell: string, escaped: bool, i: nat)
    requires NoBar(cell, escaped) && i < |cell| && cell[i] == '|'
    ensures if i == 0 then escaped else cell[i - 1] == '\\'
  {
  }

  lemma CharFirst(c: char, escaped: bool, rest: seq<string>)
    requires rest != [] && Divided(rest, c == '\\') && (c == '|' ==> escaped)
    ensures Divided([[c] + rest[0]] + rest[1..], escaped)
  {
    hide NoBar, EndsFree;
    var cells := [[c] + rest[0]] + rest[1..];
    CharCell(c, rest[0], escaped);
    forall k | 0 < k < |cells| ensures cells[k] == rest[k] {}
  }

  lemma {:induction false} CellsDivided(row: string, escaped: bool)
    ensures Divided(Cells(row, escaped), escaped)
  {
    hide Divided;
    if row == "" {
      NoCell(escaped);
    } else {
      CellsDivided(row[1..], row[0] == '\\');
      var rest := Cells(row[1..], row[0] == '\\');
      if row[0] == '|' && !escaped { BarFirst(rest); } else { CharFirst(row[0], escaped, rest); }
    }
  }

  lemma NoCell(escaped: bool)
    ensures Divided([""], escaped)
  {
  }

  /** The cells of a row, told from the row alone. */
  predicate AreCells(row: string, cells: seq<string>) {
    cells != [] && Join(cells, "|") == row && Divided(cells, false)
  }

  lemma CellsFound(row: string)
    ensures AreCells(row, Cells(row, false))
  {
    hide Divided, Join;
    CellsDivided(row, false);
    JoinCells(row, false);
  }

  /** A row has only one such list of cells. */
  lemma {:induction false} CellsUnique(cells: seq<string>, escaped: bool)
    requires cells != [] && Divided(cells, escaped)
    ensures Cells(Join(cells, "|"), escaped) == cells
    decreases |Join(cells, "|")|
  {
    hide Divided, NoBar, EndsFree, Join, Cells;
    var first, rest := cells[0], cells[1..];
    assert cells == [first] + rest;
    if first != "" {
      var c, less := first[0], [first[1..]] + rest;
      assert first == [c] + first[1..];
      CharTaken(c, first[1..], rest, escaped);
      JoinFirst(c, first[1..], rest);
      CellsUnique(less, c == '\\');
      CellsCons(c, Join(less, "|"), escaped);
      assert less[0] == first[1..] && less[1..] == rest;
    } else if rest == [] {
      LastCell(escaped);
      assert cells == [""];
    } else {
      assert rest == [rest[0]] + rest[1..];
      BarTaken(rest, escaped);
      JoinFirst('|', rest[0], rest[1..]);
      CellsUnique(rest, false);
      CellsCons('|', Join(rest, "|"), escaped);
    }
  }

  lemma LastCell(escaped: bool)
    ensures Join([""], "|") == "" && Cells("", escaped) == [""]
  {
  }

  lemma CellsCons(c: char, row: string, escaped: bool)
    ensures var rest := Cells(row, c == '\\');
            Cells([c] + row, escaped) == if c == '|' && !escaped then [""] + rest else [[c] + rest[0]] + rest[1..]
  {
    assert ([c] + row)[1..] == row;
  }

  lemma CharTaken(c: char, cell: string, rest: seq<string>, escaped: bool)
    requires Divided([[c] + cell] + rest, escaped)
    ensures Divided([cell] + rest, c == '\\') && (c == '|' ==> escaped)
  {
    hide NoBar, EndsFree;
    var more, less := [[c] + cell] + rest, [cell] + rest;
    assert more[0] == [c] + cell;
    CellTaken(c, cell, escaped);
    forall k | 0 < k < |less| ensures less[k] == more[k] {}
  }

  lemma CellTaken(c: char, cell: string, escaped: bool)
    requires NoBar([c] + cell, escaped)
    ensures NoBar(cell, c == '\\') && (c == '|' ==> escaped)
    ensures EndsFree([c] + cell, escaped) ==> EndsFree(cell, c == '\\')
  {
    var all := [c] + cell;
    forall i | 0 <= i < |cell| && cell[i] == '|' ensures if i == 0 then c == '\\' else cell[i - 1] == '\\' {
      BarEscaped(all, escaped, i + 1);
      assert all[i] == if i == 0 then c else cell[i - 1];
    }
    if c == '|' { BarEscaped(all, escaped, 0); }
    assert cell != "" ==> all[|all| - 1] == cell[|cell| - 1];
  }

  lemma BarTaken(rest: seq<string>, escaped: bool)
    requires rest != [] && Divided([""] + rest, escaped)
    ensures Divided(rest, false) && !escaped
  {
    hide NoBar;
    var more := [""] + rest;
    assert more[0] == "";
    forall k | 0 <= k < |rest| ensures rest[k] == more[k + 1] {}
  }

  lemma CellsExact(row: string, cells: seq<string>)
    ensures AreCells(row, cells) <==> cells == Cells(row, false)
  {
    hide Divided, Join, Cells;
    CellsFound(row);
    if AreCells(row, cells) { CellsUnique(cells, false); }
  }

  /** Cells between the first and the last one are translated, unless they begin with code. */
  ghost predicate RowPrints(row: string, printed: string, dictionary: Option<Dictionary>, wordy: string -> bool) {
    exists cells, texts ::
      AreCells(row, cells) && printed == Join(texts, "|") && CellsPrint(cells, texts, dictionary, wordy)
  }

  ghost predicate CellsPrint(cells: seq<string>, texts: seq<string>, dictionary: Option<Dictionary>,
                             wordy: string -> bool) {
    && |texts| == |cells|
    && forall k | 0 <= k < |cells| ::
         if k == 0 || k == |cells| - 1 || BeginsWithCode(cells[k]) then texts[k] == cells[k]
         else Prints(cells[k], texts[k], dictionary, wordy)
  }

  /** White space, then the character. */
  ghost predicate Begins(text: string, c: char) {
    exists space, rest :: Beginning(text, c, space, rest)
  }

  predicate Beginning(text: string, c: char, space: string, rest: string) {
    text == space + ([c] + rest) && AllSpace(space)
  }

  lemma BeginsExact(text: string, c: char)
    requires !IsSpace(c)
    ensures Begins(text, c) <==> SkipSpace(text, 0) < |text| && text[SkipSpace(text, 0)] == c
  {
    hide IsSpace, AllSpace, SkipSpace;
    var k := SkipSpace(text, 0);
    if k < |text| && text[k] == c {
      assert text == text[0..k] + ([c] + text[k + 1..]);
      assert Beginning(text, c, text[0..k], text[k + 1..]);
    }
    if space, rest :| Beginning(text, c, space, rest) {
      SkipSpaceExact(space, [c] + rest);
    }
  }

  ghost predicate BeginsWithCode(cell: string) {
    Begins(cell, '`')
  }

  lemma CodeExact(cell: string)
    ensures CodeCell(cell) <==> BeginsWithCode(cell)
  {
    BeginsExact(cell, '`');
  }

  lemma {:induction false} CellsTranslated(cells: seq<string>, i: nat, n: nat, dictionary: Option<Dictionary>,
                                           wordy: string -> bool)
    ensures var texts := CellsOf(cells, i, n, dictionary, wordy);
            && |texts| == |cells|
            && forall k | 0 <= k < |cells| ::
                 if i + k == 0 || i + k == n - 1 || BeginsWithCode(cells[k]) then texts[k] == cells[k]
                 else Prints(cells[k], texts[k], dictionary, wordy)
  {
    hide TextOf, Prints, BeginsWithCode, CodeCell;
    if cells != [] {
      CellsTranslated(cells[1..], i + 1, n, dictionary, wordy);
      CodeExact(cells[0]);
      TextPrints(cells[0], dictionary, wordy);
      var texts, more := CellsOf(cells, i, n, dictionary, wordy), CellsOf(cells[1..], i + 1, n, dictionary, wordy);
      forall k | 0 < k < |cells| ensures texts[k] == more[k - 1] && cells[k] == cells[1..][k - 1] {}
    }
  }

  lemma RowTranslated(row: string, dictionary: Option<Dictionary>, wordy: string -> bool)
    ensures RowPrints(row, RowOf(row, dictionary, wordy), dictionary, wordy)
  {
    hide AreCells, Prints, BeginsWithCode, CellsOf, Cells, Join;
    var cells := Cells(row, false);
    CellsFound(row);
    CellsTranslated(cells, 0, |cells|, dictionary, wordy);
    assert CellsPrint(cells, CellsOf(cells, 0, |cells|, dictionary, wordy), dictionary, wordy);
  }

  // ----- One paragraph -----

  /** A table, a heading or prose, told by how it begins. */
  ghost predicate IsTable(text: string) {
    Begins(text, '|')
  }

  ghost predicate IsHeading(text: string) {
    exists n, rest :: 1 <= n <= 6 && text == Marks(n) + " " + rest
  }

  function Marks(n: nat): string {
    if n == 0 then "" else "#" + Marks(n - 1)
  }

  lemma TableExact(text: string)
    ensures Table(text) <==> IsTable(text)
  {
    BeginsExact(text, '|');
  }

  lemma {:induction false} HashesFound(s: string)
    ensures |s| >= Hashes(s) && s == Marks(Hashes(s)) + s[Hashes(s)..]
  {
    if s != "" && s[0] == '#' {
      var rest := s[1..];
      HashesFound(rest);
      assert Marks(1 + Hashes(rest)) == "#" + Marks(Hashes(rest));
      assert s == "#" + rest && s[1 + Hashes(rest)..] == rest[Hashes(rest)..];
    }
  }

  lemma {:induction false} MarksHash(n: nat, rest: string)
    requires rest != "" && rest[0] != '#'
    ensures Hashes(Marks(n) + rest) == n && |Marks(n)| == n
  {
    if n == 0 {
      assert "" + rest == rest;
    } else {
      MarksHash(n - 1, rest);
      assert Marks(n) + rest == "#" + (Marks(n - 1) + rest);
      assert (Marks(n) + rest)[1..] == Marks(n - 1) + rest;
    }
  }

  lemma HeadingExact(text: string)
    ensures Heading(text) <==> IsHeading(text)
  {
    var n := Hashes(text);
    if Heading(text) {
      HashesFound(text);
      assert text == Marks(n) + " " + text[n + 1..];
    }
    if n, rest :| 1 <= n <= 6 && text == Marks(n) + " " + rest {
      MarksHash(n, " " + rest);
      assert text == Marks(n) + (" " + rest);
    }
  }

  /** The first two rows stay, and the others are translated cell by cell. */
  ghost predicate RowsPrint(rows: seq<string>, texts: seq<string>, dictionary: Option<Dictionary>,
                            wordy: string -> bool) {
    && |texts| == |rows|
    && forall k | 0 <= k < |rows| ::
         if k < 2 then texts[k] == rows[k] else RowPrints(rows[k], texts[k], dictionary, wordy)
  }

  lemma {:induction false} RowsTranslated(rows: seq<string>, i: nat, dictionary: Option<Dictionary>,
                                          wordy: string -> bool)
    ensures var texts := RowsOf(rows, i, dictionary, wordy);
            && |texts| == |rows|
            && forall k | 0 <= k < |rows| ::
                 if i + k < 2 then texts[k] == rows[k] else RowPrints(rows[k], texts[k], dictionary, wordy)
  {
    hide RowOf, RowPrints;
    if rows != [] {
      RowsTranslated(rows[1..], i + 1, dictionary, wordy);
      RowTranslated(rows[0], dictionary, wordy);
      var texts, more := RowsOf(rows, i, dictionary, wordy), RowsOf(rows[1..], i + 1, dictionary, wordy);
      forall k | 0 < k < |rows| ensures texts[k] == more[k - 1] && rows[k] == rows[1..][k - 1] {}
    }
  }

  /** What is printed for the lines of a paragraph. */
  ghost predicate ParagraphPrints(lines: seq<string>, printed: string, dictionary: Option<Dictionary>,
                                  wordy: string -> bool) {
    var text := Join(lines, "\n");
    if IsTable(text) then exists texts :: RowsPrint(lines, texts, dictionary, wordy) && printed == Join(texts, "\n")
    else if IsHeading(text) then printed == text
    else Prints(text, printed, dictionary, wordy)
  }

  lemma ParagraphTranslated(lines: seq<string>, dictionary: Option<Dictionary>, wordy: string -> bool)
    requires Split(Join(lines, "\n"), '\n') == lines
    ensures ParagraphPrints(lines, BlockOf(Join(lines, "\n"), dictionary, wordy), dictionary, wordy)
  {
    hide Join, Split, RowsOf, TextOf, Prints, RowPrints, IsTable, IsHeading, Table, Heading;
    var text := Join(lines, "\n");
    TableExact(text);
    HeadingExact(text);
    TextPrints(text, dictionary, wordy);
    RowsTranslated(lines, 0, dictionary, wordy);
    assert RowsPrint(lines, RowsOf(lines, 0, dictionary, wordy), dictionary, wordy);
  }

  // ----- The page -----

  /** Lines `i` to `j` of the page: one line that is kept, or a longest run of lines that are not. */
  predicate Group(lines: seq<string>, i: nat, j: nat) {
    && i < j <= |lines|
    && if Kept(lines, i) then j == i + 1
       else
         && (forall k | i <= k < j :: !Kept(lines, k))
         && (i == 0 || Kept(lines, i - 1)) && (j == |lines| || Kept(lines, j))
  }

  /** The groups that begin at `starts` and end at the next one cover the page from line `k` to its end. */
  predicate Groups(lines: seq<string>, k: nat, starts: seq<nat>) {
    && starts != [] && starts[0] == k && starts[|starts| - 1] == |lines|
    && forall n | 0 <= n < |starts| - 1 :: Group(lines, starts[n], starts[n + 1])
  }

  function GroupSegment(lines: seq<string>, i: nat, j: nat): Segment
    requires Group(lines, i, j)
  {
    if Kept(lines, i) then Verbatim(lines[i]) else Paragraph(lines[i..j])
  }

  predicate Placed(segments: seq<Segment>, lines: seq<string>, k: nat, starts: seq<nat>) {
    && Groups(lines, k, starts) && |segments| == |starts| - 1
    && forall n | 0 <= n < |segments| :: segments[n] == GroupSegment(lines, starts[n], starts[n + 1])
  }

  lemma PlacedCons(lines: seq<string>, i: nat, j: nat, segments: seq<Segment>, starts: seq<nat>)
    requires Group(lines, i, j) && Placed(segments, lines, j, starts)
    ensures Placed([GroupSegment(lines, i, j)] + segments, lines, i, [i] + starts)
  {
    hide Group, GroupSegment;
    var all, more := [i] + starts, [GroupSegment(lines, i, j)] + segments;
    forall n | 0 <= n < |all| - 1 ensures Group(lines, all[n], all[n + 1]) {
      if n > 0 { assert all[n] == starts[n - 1] && all[n + 1] == starts[n]; }
    }
    forall n | 0 <= n < |more| ensures more[n] == GroupSegment(lines, all[n], all[n + 1]) {
      if n > 0 { assert all[n] == starts[n - 1] && all[n + 1] == starts[n] && more[n] == segments[n - 1]; }
    }
  }

  lemma PlacedEnd(lines: seq<string>)
    ensures Placed([], lines, |lines|, [|lines|])
  {
  }

  /** Lines `i` to `k` have been gathered. */
  predicate Gathering(lines: seq<string>, i: nat, k: nat) {
    && i <= k <= |lines| && (i == 0 || Kept(lines, i - 1)) && forall m | i <= m < k :: !Kept(lines, m)
  }

  lemma GatheringStep(lines: seq<string>, i: nat, k: nat)
    requires Gathering(lines, i, k) && k < |lines|
    ensures Kept(lines, k) ==> Gathering(lines, k + 1, k + 1) && Group(lines, k, k + 1)
    ensures !Kept(lines, k) ==> Gathering(lines, i, k + 1) && lines[i..k] + [lines[k]] == lines[i..k + 1]
  {
    hide Kept;
  }

  lemma FlushPlaced(lines: seq<string>, i: nat, k: nat, segments: seq<Segment>, starts: seq<nat>)
    returns (all: seq<nat>)
    requires Gathering(lines, i, k) && (k == |lines| || Kept(lines, k)) && Placed(segments, lines, k, starts)
    ensures Placed(Flush(lines[i..k]) + segments, lines, i, all)
  {
    hide Kept, Placed;
    if i == k {
      assert lines[i..k] == [] && [] + segments == segments;
      all := starts;
    } else {
      all := [i] + starts;
      assert lines[i..k] != [];
      assert !Kept(lines, i);
      PlacedCons(lines, i, k, segments, starts);
    }
  }

  /** The automaton's segments are the groups. */
  lemma {:induction false} SegmentsPlaced(lines: seq<string>, i: nat, k: nat, fence: bool) returns (starts: seq<nat>)
    requires Gathering(lines, i, k) && fence == (FencesBefore(lines, k) % 2 == 1) && (fence ==> i == k)
    ensures Placed(Segments(lines[k..], lines[i..k], fence), lines, i, starts)
    decreases |lines| - k
  {
    hide FencesBefore, Kept, Segments, Placed, Group, Flush, FenceLine, BreakLine, Filled, Separated, Gathering;
    GatheringBounds(lines, i, k);
    if k == |lines| {
      assert lines[k..] == [];
      SegmentsEnd(lines[i..k]);
      PlacedEnd(lines);
      starts := FlushPlaced(lines, i, k, [], [k]);
      assert Flush(lines[i..k]) + [] == Flush(lines[i..k]);
    } else {
      var line, rest := lines[k], lines[k + 1..];
      KeptStep(lines, k);
      SegmentsStep(line, rest, lines[i..k], fence);
      GatheringStep(lines, i, k);
      if Kept(lines, k) {
        var next := fence != FenceLine(line);
        assert lines[k + 1..k + 1] == [];
        starts := SegmentsPlaced(lines, k + 1, k + 1, next);
        var more := Segments(rest, [], next);
        PlacedCons(lines, k, k + 1, more, starts);
        assert GroupSegment(lines, k, k + 1) == Verbatim(line);
        starts := FlushPlaced(lines, i, k, [Verbatim(line)] + more, [k] + starts);
        assert Flush(lines[i..k]) + ([Verbatim(line)] + more) == Flush(lines[i..k]) + [Verbatim(line)] + more;
      } else {
        starts := SegmentsPlaced(lines, i, k + 1, false);
      }
    }
  }

  lemma GatheringBounds(lines: seq<string>, i: nat, k: nat)
    requires Gathering(lines, i, k)
    ensures i <= k <= |lines|
    ensures i == k ==> lines[i..k] == []
  {
  }

  lemma {:induction false} SegmentsAt(segments: seq<Segment>, dictionary: Option<Dictionary>, wordy: string -> bool)
    ensures var texts := SegmentsOf(segments, dictionary, wordy);
            && |texts| == |segments|
            && forall n | 0 <= n < |segments| :: texts[n] == SegmentOf(segments[n], dictionary, wordy)
  {
    hide SegmentOf;
    if segments != [] { SegmentsAt(segments[1..], dictionary, wordy); }
  }

  /** What is printed for a group. */
  ghost predicate GroupPrints(lines: seq<string>, i: nat, j: nat, printed: string, dictionary: Option<Dictionary>,
                              wordy: string -> bool)
    requires Group(lines, i, j)
  {
    if Kept(lines, i) then printed == lines[i] else ParagraphPrints(lines[i..j], printed, dictionary, wordy)
  }

  lemma GroupTranslated(lines: seq<string>, i: nat, j: nat, dictionary: Option<Dictionary>, wordy: string -> bool)
    requires Group(lines, i, j) && PageLines.Unbroken(lines)
    ensures GroupPrints(lines, i, j, SegmentOf(GroupSegment(lines, i, j), dictionary, wordy), dictionary, wordy)
  {
    hide Kept, BlockOf, ParagraphPrints, Join, Split;
    var some := lines[i..j];
    assert some != [] && forall l | l in some :: l in lines;
    PageLines.SplitLines(some);
    ParagraphTranslated(some, dictionary, wordy);
  }

  /**
   * The translated page: its texts, joined by line ends, are those of the page's groups in order, so that a kept line
   * stays where it is and a paragraph's translation stands in the paragraph's place.
   */
  lemma PageExact(markdown: string, dictionary: Option<Dictionary>, wordy: string -> bool)
    returns (starts: seq<nat>, texts: seq<string>)
    ensures PageOf(markdown, dictionary, wordy) == Join(texts, "\n")
    ensures var lines := Split(markdown, '\n');
            && Groups(lines, 0, starts) && |texts| == |starts| - 1
            && forall n | 0 <= n < |texts| :: GroupPrints(lines, starts[n], starts[n + 1], texts[n], dictionary, wordy)
  {
    hide Kept, SegmentsOf, SegmentOf, GroupPrints, Group, Join, Segments;
    var lines := Split(markdown, '\n');
    starts := PageGroups(lines);
    var segments := Segments(lines, [], false);
    texts := SegmentsOf(segments, dictionary, wordy);
    SegmentsAt(segments, dictionary, wordy);
    forall n | 0 <= n < |texts| ensures GroupPrints(lines, starts[n], starts[n + 1], texts[n], dictionary, wordy) {
      GroupTranslated(lines, starts[n], starts[n + 1], dictionary, wordy);
    }
  }

  lemma PageGroups(lines: seq<string>) returns (starts: seq<nat>)
    ensures Placed(Segments(lines, [], false), lines, 0, starts)
  {
    hide Placed, Segments;
    starts := SegmentsPlaced(lines, 0, 0, false);
    assert lines[0..] == lines && lines[0..0] == [];
  }

  /** Every kept line and every longest run of other lines is one of the groups. */
  lemma {:induction false} GroupFound(lines: seq<string>, k: nat, starts: seq<nat>, i: nat, j: nat)
    requires Groups(lines, k, starts) && Group(lines, i, j) && k <= i
    ensures exists n :: 0 <= n < |starts| - 1 && starts[n] == i && starts[n + 1] == j
    decreases |starts|
  {
    hide Kept;
    assert |starts| > 1;
    var next := starts[1];
    assert Group(lines, starts[0], starts[1]);
    if i < next {
      SameGroup(lines, k, next, i, j);
    } else {
      var more := starts[1..];
      forall n | 0 <= n < |more| - 1 ensures Group(lines, more[n], more[n + 1]) {
        assert more[n] == starts[n + 1] && more[n + 1] == starts[n + 2];
      }
      GroupFound(lines, next, more, i, j);
      var n :| 0 <= n < |more| - 1 && more[n] == i && more[n + 1] == j;
      assert starts[n + 1] == i && starts[n + 2] == j;
    }
  }

  lemma SameGroup(lines: seq<string>, a: nat, b: nat, i: nat, j: nat)
    requires Group(lines, a, b) && Group(lines, i, j) && a <= i < b
    ensures i == a && j == b
  {
    hide FencesBefore, FenceLine, BreakLine, Kept;
  }

  // ----- The entries of a page -----

  /** The text is one of the cells to be translated. */
  ghost predicate CellOfRow(text: string, row: string) {
    exists cells, k ::
      AreCells(row, cells) && 0 < k < |cells| - 1 && !BeginsWithCode(cells[k]) && text == cells[k]
  }

  /** The text stands in the paragraph to be translated. */
  ghost predicate Says(lines: seq<string>, text: string) {
    var all := Join(lines, "\n");
    if IsTable(all) then exists r :: 2 <= r < |lines| && CellOfRow(text, lines[r])
    else !IsHeading(all) && text == all
  }

  /** The text asks for the entry, and the dictionary, if there is one, has nothing for it. */
  predicate Asks(text: string, en: string, dictionary: Option<Dictionary>, wordy: string -> bool) {
    && !At(Trim(text), "Defined in: ", 0) && wordy(Trim(text)) && en == Key(Trim(text))
    && (dictionary.None? || Lookup(dictionary.value, en) == "")
  }

  lemma AsksExact(text: string, en: string, dictionary: Option<Dictionary>, wordy: string -> bool)
    ensures en in Untranslated(text, dictionary, wordy) <==> Asks(text, en, dictionary, wordy)
  {
    hide Trim, Key, At;
  }

  lemma {:induction false} CellsAsk(cells: seq<string>, i: nat, n: nat, en: string, dictionary: Option<Dictionary>,
                                    wordy: string -> bool)
    ensures en in CellEntries(cells, i, n, dictionary, wordy)
       <==> exists k :: 0 <= k < |cells| && i + k != 0 && i + k != n - 1 && !BeginsWithCode(cells[k])
                        && Asks(cells[k], en, dictionary, wordy)
  {
    hide Asks, Untranslated, BeginsWithCode, CodeCell;
    if cells != [] {
      var rest := cells[1..];
      CellsAsk(rest, i + 1, n, en, dictionary, wordy);
      CodeExact(cells[0]);
      AsksExact(cells[0], en, dictionary, wordy);
      assert forall k | 0 <= k < |rest| :: rest[k] == cells[k + 1];
      assert forall k | 0 < k < |cells| :: cells[k] == rest[k - 1];
    }
  }

  lemma RowAsks(row: string, en: string, dictionary: Option<Dictionary>, wordy: string -> bool)
    ensures en in RowEntries(row, dictionary, wordy)
       <==> exists text :: CellOfRow(text, row) && Asks(text, en, dictionary, wordy)
  {
    hide AreCells, Asks, BeginsWithCode, CellEntries, Cells;
    var cells := Cells(row, false);
    CellsExact(row, cells);
    CellsAsk(cells, 0, |cells|, en, dictionary, wordy);
    if text :| CellOfRow(text, row) && Asks(text, en, dictionary, wordy) {
      var some, k :|
        AreCells(row, some) && 0 < k < |some| - 1 && !BeginsWithCode(some[k]) && text == some[k];
      CellsExact(row, some);
    }
  }

  lemma {:induction false} RowsAsk(rows: seq<string>, i: nat, en: string, dictionary: Option<Dictionary>,
                                   wordy: string -> bool)
    ensures en in RowsEntries(rows, i, dictionary, wordy)
       <==> exists r, text :: 0 <= r < |rows| && i + r >= 2 && CellOfRow(text, rows[r])
                              && Asks(text, en, dictionary, wordy)
  {
    hide Asks, CellOfRow, RowEntries;
    if rows != [] {
      var rest := rows[1..];
      RowsAsk(rest, i + 1, en, dictionary, wordy);
      RowAsks(rows[0], en, dictionary, wordy);
      assert forall r | 0 <= r < |rest| :: rest[r] == rows[r + 1];
      assert forall r | 0 < r < |rows| :: rows[r] == rest[r - 1];
    }
  }

  lemma ParagraphAsks(lines: seq<string>, en: string, dictionary: Option<Dictionary>, wordy: string -> bool)
    requires Split(Join(lines, "\n"), '\n') == lines
    ensures en in BlockEntries(Join(lines, "\n"), dictionary, wordy)
       <==> exists text :: Says(lines, text) && Asks(text, en, dictionary, wordy)
  {
    hide Join, Split, RowsEntries, Untranslated, Asks, CellOfRow, IsTable, IsHeading, Table, Heading;
    var all := Join(lines, "\n");
    TableExact(all);
    HeadingExact(all);
    AsksExact(all, en, dictionary, wordy);
    RowsAsk(lines, 0, en, dictionary, wordy);
    if en in BlockEntries(all, dictionary, wordy) {
      if IsTable(all) {
        var r, text :| 0 <= r < |lines| && 0 + r >= 2 && CellOfRow(text, lines[r]) && Asks(text, en, dictionary, wordy);
        assert Says(lines, text);
      } else {
        assert Says(lines, all);
      }
    }
  }

  lemma {:induction false} SegmentsAsk(segments: seq<Segment>, en: string, dictionary: Option<Dictionary>,
                                       wordy: string -> bool)
    ensures en in SegmentEntries(segments, dictionary, wordy)
       <==> exists n :: 0 <= n < |segments| && segments[n].Paragraph?
                        && en in BlockEntries(Join(segments[n].lines, "\n"), dictionary, wordy)
  {
    hide Join, BlockEntries;
    if segments != [] {
      var rest := segments[1..];
      SegmentsAsk(rest, en, dictionary, wordy);
      assert forall n | 0 <= n < |rest| :: rest[n] == segments[n + 1];
      assert forall n | 0 < n < |segments| :: segments[n] == rest[n - 1];
    }
  }

  /** A paragraph of the page in which a text asks for the entry. */
  ghost predicate Wants(lines: seq<string>, i: nat, j: nat, en: string, dictionary: Option<Dictionary>,
                        wordy: string -> bool) {
    && Group(lines, i, j) && !Kept(lines, i)
    && exists text :: Says(lines[i..j], text) && Asks(text, en, dictionary, wordy)
  }

  lemma GroupAsks(lines: seq<string>, i: nat, j: nat, en: string, dictionary: Option<Dictionary>,
                  wordy: string -> bool)
    requires Group(lines, i, j) && PageLines.Unbroken(lines)
    ensures var segment := GroupSegment(lines, i, j);
            Wants(lines, i, j, en, dictionary, wordy)
            <==> segment.Paragraph? && en in BlockEntries(Join(segment.lines, "\n"), dictionary, wordy)
  {
    hide Kept, BlockEntries, Says, Asks, Join, Split;
    var some := lines[i..j];
    assert some != [] && forall l | l in some :: l in lines;
    PageLines.SplitLines(some);
    ParagraphAsks(some, en, dictionary, wordy);
  }

  ghost predicate PageWants(lines: seq<string>, en: string, dictionary: Option<Dictionary>, wordy: string -> bool) {
    exists i, j :: Wants(lines, i, j, en, dictionary, wordy)
  }

  lemma EntryWanted(lines: seq<string>, en: string, dictionary: Option<Dictionary>, wordy: string -> bool)
    requires PageLines.Unbroken(lines) && en in SegmentEntries(Segments(lines, [], false), dictionary, wordy)
    ensures PageWants(lines, en, dictionary, wordy)
  {
    hide Kept, SegmentEntries, Wants, Group, Join, Segments, BlockEntries, GroupSegment;
    var segments := Segments(lines, [], false);
    var starts := PageGroups(lines);
    SegmentsAsk(segments, en, dictionary, wordy);
    var n :| 0 <= n < |segments| && segments[n].Paragraph?
             && en in BlockEntries(Join(segments[n].lines, "\n"), dictionary, wordy);
    GroupAsks(lines, starts[n], starts[n + 1], en, dictionary, wordy);
  }

  lemma WantedEntered(lines: seq<string>, en: string, dictionary: Option<Dictionary>, wordy: string -> bool)
    requires PageLines.Unbroken(lines) && PageWants(lines, en, dictionary, wordy)
    ensures en in SegmentEntries(Segments(lines, [], false), dictionary, wordy)
  {
    hide Kept, SegmentEntries, Wants, Group, Join, Segments, BlockEntries, GroupSegment;
    var segments := Segments(lines, [], false);
    var starts := PageGroups(lines);
    var i, j :| Wants(lines, i, j, en, dictionary, wordy);
    WantsGroup(lines, i, j, en, dictionary, wordy);
    GroupAsks(lines, i, j, en, dictionary, wordy);
    GroupFound(lines, 0, starts, i, j);
    var n :| 0 <= n < |starts| - 1 && starts[n] == i && starts[n + 1] == j;
    assert segments[n] == GroupSegment(lines, i, j);
    SegmentsAsk(segments, en, dictionary, wordy);
  }

  /** The page's entries: exactly those that some text to be translated asks for. */
  lemma EntriesExact(markdown: string, en: string, dictionary: Option<Dictionary>, wordy: string -> bool)
    ensures en in PageEntries(markdown, dictionary, wordy)
       <==> PageWants(Split(markdown, '\n'), en, dictionary, wordy)
  {
    hide SegmentEntries, PageWants, Segments, Split;
    var lines := Split(markdown, '\n');
    if en in PageEntries(markdown, dictionary, wordy) { EntryWanted(lines, en, dictionary, wordy); }
    if PageWants(lines, en, dictionary, wordy) { WantedEntered(lines, en, dictionary, wordy); }
  }

  lemma WantsGroup(lines: seq<string>, i: nat, j: nat, en: string, dictionary: Option<Dictionary>,
                   wordy: string -> bool)
    requires Wants(lines, i, j, en, dictionary, wordy)
    ensures Group(lines, i, j)
  {
  }
}
