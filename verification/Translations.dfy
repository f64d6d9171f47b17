/** The layered dictionary: what translating records, what is saved, and what a reload gives back. */
module Translations {
  import opened Text
  import opened MarkdownLinks
  import opened PageTranslation

  // ----- The saved file -----

  function Entries(dictionary: Dictionary, used: set<string>): set<string> {
    used + (set en | en in dictionary && dictionary[en] != "")
  }

  /** The entry comes unchanged from a base layer. */
  predicate FromBase(en: string, dictionary: Dictionary, base: Dictionary) {
    Lookup(base, en) != "" && Lookup(dictionary, en) == Lookup(base, en)
  }

  function FileOf(dictionary: Dictionary, base: Dictionary, used: set<string>): Dictionary {
    map en | en in Entries(dictionary, used) && !FromBase(en, dictionary, base) :: Lookup(dictionary, en)
  }

  /** Later layers win. */
  function Merged(layers: seq<Dictionary>): Dictionary {
    if layers == [] then map[] else Merged(layers[..|layers| - 1]) + layers[|layers| - 1]
  }

  /** An entry has its value from the last layer that has it. */
  lemma {:induction false} LayersExact(layers: seq<Dictionary>, en: string)
    ensures en in Merged(layers) <==> exists k :: 0 <= k < |layers| && en in layers[k]
    ensures en in Merged(layers) ==>
              exists k :: 0 <= k < |layers| && en in layers[k] && Merged(layers)[en] == layers[k][en]
                          && forall m | k < m < |layers| :: en !in layers[m]
  {
    if layers != [] {
      var n := |layers| - 1;
      var less := layers[..n];
      LayersExact(less, en);
      assert forall k | 0 <= k < n :: less[k] == layers[k];
      if en in layers[n] {
        assert Merged(layers)[en] == layers[n][en];
      } else if en in Merged(less) {
        var k :| 0 <= k < n && en in less[k] && Merged(less)[en] == less[k][en]
                 && forall m | k < m < n :: en !in less[m];
        assert en in layers[k] && Merged(layers)[en] == layers[k][en];
        assert forall m | k < m < |layers| :: en !in layers[m];
      }
    }
  }

  // ----- The laws of saving and reloading -----

  /** No nonempty translation is lost or changed by a save and a reload over the same base. */
  lemma NothingLost(dictionary: Dictionary, base: Dictionary, used: set<string>, en: string)
    requires en in dictionary && dictionary[en] != ""
    ensures Lookup(base + FileOf(dictionary, base, used), en) == dictionary[en]
  {
    if FromBase(en, dictionary, base) { assert en !in FileOf(dictionary, base, used); }
  }

  /**
   * A reload gives every entry the value it had, except one: an entry emptied over a nonempty base
   * entry and not used since is dropped from the file, so the base value shows through again.
   */
  lemma ReloadExact(dictionary: Dictionary, base: Dictionary, used: set<string>, en: string)
    requires base.Keys <= dictionary.Keys
    ensures Lookup(base + FileOf(dictionary, base, used), en) == Lookup(dictionary, en)
       <==> !(Lookup(dictionary, en) == "" && Lookup(base, en) != "" && en !in used)
  {
    var file := FileOf(dictionary, base, used);
    if en in file { assert file[en] == Lookup(dictionary, en); }
  }

  /** An entry emptied over a nonempty base entry and not used: the file drops it, and a reload shows the base value. */
  lemma EmptiedReturns(en: string)
    ensures var dictionary, base := map[en := ""], map[en := "base"];
            && FileOf(dictionary, base, {}) == map[]
            && Lookup(dictionary, en) == "" && Lookup(base + FileOf(dictionary, base, {}), en) == "base"
  {
    assert Lookup(map[en := ""], en) == "";
  }

  /** What is written: never a nonempty base entry's own value, and for a used string always something. */
  lemma FileExact(dictionary: Dictionary, base: Dictionary, used: set<string>, en: string)
    ensures var file := FileOf(dictionary, base, used);
            && (en in file ==> file[en] == Lookup(dictionary, en) && (Lookup(base, en) == "" || file[en] != base[en]))
            && (en in used && Lookup(dictionary, en) == "" ==> en in file && file[en] == "")
            && (en in file && file[en] == "" ==> en in used)
  {
  }

  /** Saving again after a reload, with the same strings used, writes the same file. */
  lemma SavedTwice(local: Dictionary, base: Dictionary, used: set<string>)
    ensures var file := FileOf(base + local, base, used);
            FileOf(base + file, base, used) == file
  {
    var dictionary := base + local;
    var file := FileOf(dictionary, base, used);
    var again := FileOf(base + file, base, used);
    forall en | en in again ensures en in file && file[en] == again[en] { SavedSame(dictionary, base, used, en); }
    forall en | en in file ensures en in again && file[en] == again[en] { SavedSame(dictionary, base, used, en); }
  }

  lemma SavedSame(dictionary: Dictionary, base: Dictionary, used: set<string>, en: string)
    requires base.Keys <= dictionary.Keys
    ensures var file := FileOf(dictionary, base, used);
            var again := FileOf(base + file, base, used);
            (en in again <==> en in file) && (en in file ==> again[en] == file[en])
  {
    var file := FileOf(dictionary, base, used);
    if en in file {
      assert Lookup(base + file, en) == file[en] == Lookup(dictionary, en);
      assert file[en] == "" ==> en in used;
    } else {
      assert Lookup(base + file, en) == Lookup(base, en);
    }
  }

  // ----- The recorder -----

  class Translations {
    const base: Dictionary
    const dictionary: Dictionary
    const wordy: string -> bool
    var used: set<string>
    var missing: set<string>

    ghost predicate Valid()
      reads this
    {
      && base.Keys <= dictionary.Keys
      && missing <= used
      && forall en | en in missing :: Lookup(dictionary, en) == ""
    }

    /** The base files' contents in order, and the last file's, if it exists. */
    constructor (layers: seq<Dictionary>, local: Option<Dictionary>, wordy: string -> bool)
      ensures Valid() && used == {} && missing == {}
      ensures base == Merged(layers) && dictionary == base + (if local.Some? then local.value else map[])
      ensures this.wordy == wordy
    {
      var merged: Dictionary := map[];
      for i := 0 to |layers|
        invariant merged == Merged(layers[..i])
      {
        assert layers[..i + 1][..i] == layers[..i];
        merged := merged + layers[i];
      }
      assert layers[..|layers|] == layers;
      base := merged;
      dictionary := merged + (if local.Some? then local.value else map[]);
      this.wordy := wordy;
      used, missing := {}, {};
    }

    method TranslateText(text: string, dictionary: Option<Dictionary>) returns (r: string)
      modifies this
      ensures r == TextOf(text, dictionary, wordy)
      ensures used == old(used) + Untranslated(text, dictionary, wordy)
      ensures missing == old(missing) + (if dictionary.Some? then Untranslated(text, dictionary, wordy) else {})
    {
      var source := Trim(text);
      if !HasProse(source, wordy) { return text; }
      var entry := Key(source);
      if dictionary.None? {
        used := used + {entry};
        return text;
      }
      var value := Lookup(dictionary.value, entry);
      if value == "" {
        used := used + {entry};
        missing := missing + {entry};
        return text;
      }
      var replacement := WithTargets(value, source);
      return Replace(text, source, replacement);
    }

    method TranslateCells(cells: seq<string>, dictionary: Option<Dictionary>) returns (texts: seq<string>)
      modifies this
      ensures texts == CellsOf(cells, 0, |cells|, dictionary, wordy)
      ensures used == old(used) + CellEntries(cells, 0, |cells|, dictionary, wordy)
      ensures missing
           == old(missing) + (if dictionary.Some? then CellEntries(cells, 0, |cells|, dictionary, wordy) else {})
    {
      hide TextOf, Untranslated, CellsOf, CellEntries, KeptCell;
      texts := [];
      ghost var seen: set<string> := {};
      for i := 0 to |cells|
        invariant texts + CellsOf(cells[i..], i, |cells|, dictionary, wordy)
               == CellsOf(cells, 0, |cells|, dictionary, wordy)
        invariant seen + CellEntries(cells[i..], i, |cells|, dictionary, wordy)
               == CellEntries(cells, 0, |cells|, dictionary, wordy)
        invariant used == old(used) + seen
        invariant missing == old(missing) + (if dictionary.Some? then seen else {})
      {
        CellsStep(cells, i, dictionary, wordy);
        if KeptCell(cells[i], i, |cells|) {
          texts := texts + [cells[i]];
        } else {
          var text := TranslateText(cells[i], dictionary);
          texts := texts + [text];
          seen := seen + Untranslated(cells[i], dictionary, wordy);
        }
      }
      NoCells(cells[|cells|..], |cells|, |cells|, dictionary, wordy);
    }

    method TranslateRow(row: string, dictionary: Option<Dictionary>) returns (r: string)
      modifies this
      ensures r == RowOf(row, dictionary, wordy)
      ensures used == old(used) + RowEntries(row, dictionary, wordy)
      ensures missing == old(missing) + (if dictionary.Some? then RowEntries(row, dictionary, wordy) else {})
    {
      hide CellsOf, CellEntries, PageTranslation.Cells, Join;
      var texts := TranslateCells(PageTranslation.Cells(row, false), dictionary);
      return Join(texts, "|");
    }

    method TranslateRows(rows: seq<string>, dictionary: Option<Dictionary>) returns (texts: seq<string>)
      modifies this
      ensures texts == RowsOf(rows, 0, dictionary, wordy)
      ensures used == old(used) + RowsEntries(rows, 0, dictionary, wordy)
      ensures missing == old(missing) + (if dictionary.Some? then RowsEntries(rows, 0, dictionary, wordy) else {})
    {
      hide RowOf, RowEntries, RowsOf, RowsEntries;
      texts := [];
      ghost var seen: set<string> := {};
      for i := 0 to |rows|
        invariant texts + RowsOf(rows[i..], i, dictionary, wordy) == RowsOf(rows, 0, dictionary, wordy)
        invariant seen + RowsEntries(rows[i..], i, dictionary, wordy) == RowsEntries(rows, 0, dictionary, wordy)
        invariant used == old(used) + seen
        invariant missing == old(missing) + (if dictionary.Some? then seen else {})
      {
        RowsStep(rows, i, dictionary, wordy);
        if i < 2 {
          texts := texts + [rows[i]];
        } else {
          var text := TranslateRow(rows[i], dictionary);
          texts := texts + [text];
          seen := seen + RowEntries(rows[i], dictionary, wordy);
        }
      }
      NoRows(rows[|rows|..], |rows|, dictionary, wordy);
    }

    /** What `flush` pushes for the lines gathered. */
    method Flushed(block: seq<string>, dictionary: Option<Dictionary>) returns (texts: seq<string>)
      modifies this
      ensures texts == SegmentsOf(Flush(block), dictionary, wordy)
      ensures used == old(used) + SegmentEntries(Flush(block), dictionary, wordy)
      ensures missing
           == old(missing) + (if dictionary.Some? then SegmentEntries(Flush(block), dictionary, wordy) else {})
    {
      hide RowsOf, RowsEntries, TextOf, Untranslated, Table, Heading, Join, Split;
      FlushedOf(block, dictionary, wordy);
      if block == [] { return []; }
      var text := Join(block, "\n");
      if Table(text) {
        var rows := TranslateRows(Split(text, '\n'), dictionary);
        return [Join(rows, "\n")];
      } else if Heading(text) {
        return [text];
      } else {
        var r := TranslateText(text, dictionary);
        return [r];
      }
    }

    /** The pass over the lines of a page. */
    method TranslateLines(markdown: string, dictionary: Option<Dictionary>) returns (r: string)
      modifies this
      ensures r == PageOf(markdown, dictionary, wordy)
      ensures used == old(used) + PageEntries(markdown, dictionary, wordy)
      ensures missing == old(missing) + (if dictionary.Some? then PageEntries(markdown, dictionary, wordy) else {})
    {
      hide Segments, SegmentsOf, SegmentEntries, FenceLine, BreakLine, Flush, Join, Split, Ahead;
      var lines := Split(markdown, '\n');
      var out: seq<string>, block: seq<string>, fence := [], [], false;
      ghost var seen: set<string> := {};
      ghost var page := PageSegments(markdown);
      AtStart(page, dictionary, wordy);
      assert lines[0..] == lines;
      for i := 0 to |lines|
        invariant fence ==> block == []
        invariant Ahead(out, seen, Segments(lines[i..], block, fence), page, dictionary, wordy)
        invariant used == old(used) + seen
        invariant missing == old(missing) + (if dictionary.Some? then seen else {})
      {
        var line := lines[i];
        ghost var next := Segments(lines[i + 1..], [], fence != FenceLine(line));
        SegmentsStep(line, lines[i + 1..], block, fence);
        assert lines[i..] == [line] + lines[i + 1..];
        if fence || FenceLine(line) || BreakLine(line) {
          LineSplit(out, seen, block, line, next, page, dictionary, wordy);
        }
        if FenceLine(line) {
          if !fence {
            seen := seen + SegmentEntries(Flush(block), dictionary, wordy);
            var texts := Flushed(block, dictionary);
            out, block := out + texts, [];
          }
          fence := !fence;
          out := out + [line];
        } else if fence {
          out := out + [line];
        } else if BreakLine(line) {
          seen := seen + SegmentEntries(Flush(block), dictionary, wordy);
          var texts := Flushed(block, dictionary);
          out, block := out + texts, [];
          out := out + [line];
        } else {
          block := block + [line];
        }
      }
      assert lines[|lines|..] == [];
      SegmentsEnd(block);
      AtEnd(out, seen, Flush(block), page, dictionary, wordy);
      var texts := Flushed(block, dictionary);
      return Join(out + texts, "\n");
    }

    /** A page, in English or in the language of the dictionary. */
    method Translate(markdown: string, english: bool) returns (r: string)
      requires Valid()
      modifies this
      ensures Valid()
      ensures var page, entries := UnixLines(markdown), if english then None else Some(dictionary);
              && r == PageOf(page, entries, wordy)
              && (english ==> r == page)
              && used == old(used) + PageEntries(page, entries, wordy)
              && missing == old(missing) + (if english then {} else PageEntries(page, entries, wordy))
    {
      hide PageOf, PageEntries, Lookup, UnixLines;
      var text := UnixLines(markdown);
      if english {
        r := TranslateLines(text, None);
        NoDictionaryNoChange(text, wordy);
      } else {
        r := TranslateLines(text, Some(dictionary));
        PageEntriesMissing(text, dictionary, wordy);
      }
    }

    /** What is written to the last file. */
    method Save() returns (next: Dictionary)
      ensures next == FileOf(dictionary, base, used)
      ensures Valid() ==> forall en | en in missing :: en in next && next[en] == ""
    {
      var rest := Entries(dictionary, used);
      next := map[];
      while rest != {}
        invariant rest <= Entries(dictionary, used)
        invariant next == map en | en in Entries(dictionary, used) - rest && !FromBase(en, dictionary, base)
                                 :: Lookup(dictionary, en)
        decreases rest
      {
        var en :| en in rest;
        var value := Lookup(dictionary, en);
        if !(Lookup(base, en) != "" && value == Lookup(base, en)) { next := next[en := value]; }
        rest := rest - {en};
      }
    }
  }

  /** `markdown.replaceAll('\r\n', '\n')` */
  function UnixLines(s: string): string {
    if s == "" then ""
    else if At(s, "\r\n", 0) then "\n" + UnixLines(s[2..])
    else [s[0]] + UnixLines(s[1..])
  }

  /** Between the line ends of two characters nothing changes. */
  lemma {:induction false} UnixLinesExact(s: string) returns (pieces: seq<string>)
    ensures pieces != [] && Join(pieces, "\r\n") == s && Join(pieces, "\n") == UnixLines(s)
    ensures forall k | 0 <= k < |pieces| :: forall i: nat :: !At(pieces[k], "\r\n", i)
    decreases |s|
  {
    hide At, Join;
    NoPiece();
    if s == "" {
      pieces := [""];
    } else if At(s, "\r\n", 0) {
      LineThere(s);
      var more := UnixLinesExact(s[2..]);
      pieces := [""] + more;
      LineBegins(more);
      assert UnixLines(s) == "\n" + UnixLines(s[2..]);
    } else {
      var more := UnixLinesExact(s[1..]);
      pieces := [[s[0]] + more[0]] + more[1..];
      assert s == [s[0]] + s[1..];
      PieceGrows(s, more);
      JoinGrows(s[0], more, "\r\n");
      JoinGrows(s[0], more, "\n");
      assert UnixLines(s) == [s[0]] + UnixLines(s[1..]);
    }
  }

  lemma NoPiece()
    ensures forall i: nat :: !At("", "\r\n", i)
    ensures forall sep :: Join([""], sep) == ""
  {
  }

  lemma LineThere(s: string)
    requires At(s, "\r\n", 0)
    ensures |s| >= 2 && s == "\r\n" + s[2..]
  {
  }

  lemma LineBegins(more: seq<string>)
    requires more != []
    ensures Join([""] + more, "\r\n") == "\r\n" + Join(more, "\r\n")
    ensures Join([""] + more, "\n") == "\n" + Join(more, "\n")
  {
    assert ([""] + more)[1..] == more;
  }

  lemma JoinGrows(c: char, more: seq<string>, sep: string)
    requires more != []
    ensures Join([[c] + more[0]] + more[1..], sep) == [c] + Join(more, sep)
  {
    assert ([[c] + more[0]] + more[1..])[1..] == more[1..];
  }

  /** The character in front makes no line end with the first piece. */
  lemma PieceGrows(s: string, more: seq<string>)
    requires s != "" && !At(s, "\r\n", 0) && more != [] && Join(more, "\r\n") == s[1..]
    requires forall i: nat :: !At(more[0], "\r\n", i)
    ensures forall i: nat :: !At([s[0]] + more[0], "\r\n", i)
  {
    var piece := [s[0]] + more[0];
    assert s[1..][..|more[0]|] == more[0];
    forall i: nat ensures !At(piece, "\r\n", i) {
      if i > 0 && i + 2 <= |piece| {
        assert piece[i..i + 2] == more[0][i - 1..i + 1];
        assert !At(more[0], "\r\n", i - 1);
      } else if i == 0 && 2 <= |piece| {
        assert piece[0..2] == s[0..2];
      }
    }
  }

  lemma CellsStep(cells: seq<string>, i: nat, dictionary: Option<Dictionary>, wordy: string -> bool)
    requires i < |cells|
    ensures CellsOf(cells[i..], i, |cells|, dictionary, wordy)
         == [if KeptCell(cells[i], i, |cells|) then cells[i] else TextOf(cells[i], dictionary, wordy)]
          + CellsOf(cells[i + 1..], i + 1, |cells|, dictionary, wordy)
    ensures CellEntries(cells[i..], i, |cells|, dictionary, wordy)
         == (if KeptCell(cells[i], i, |cells|) then {} else Untranslated(cells[i], dictionary, wordy))
          + CellEntries(cells[i + 1..], i + 1, |cells|, dictionary, wordy)
  {
    hide KeptCell, TextOf, Untranslated;
    assert cells[i..][1..] == cells[i + 1..];
  }

  lemma NoCells(cells: seq<string>, i: nat, n: nat, dictionary: Option<Dictionary>, wordy: string -> bool)
    requires cells == []
    ensures CellsOf(cells, i, n, dictionary, wordy) == [] && CellEntries(cells, i, n, dictionary, wordy) == {}
  {
  }

  lemma RowsStep(rows: seq<string>, i: nat, dictionary: Option<Dictionary>, wordy: string -> bool)
    requires i < |rows|
    ensures RowsOf(rows[i..], i, dictionary, wordy)
         == [if i < 2 then rows[i] else RowOf(rows[i], dictionary, wordy)]
            + RowsOf(rows[i + 1..], i + 1, dictionary, wordy)
    ensures RowsEntries(rows[i..], i, dictionary, wordy)
         == (if i < 2 then {} else RowEntries(rows[i], dictionary, wordy))
            + RowsEntries(rows[i + 1..], i + 1, dictionary, wordy)
  {
    hide RowOf, RowEntries;
    assert rows[i..][1..] == rows[i + 1..];
  }

  lemma NoRows(rows: seq<string>, i: nat, dictionary: Option<Dictionary>, wordy: string -> bool)
    requires rows == []
    ensures RowsOf(rows, i, dictionary, wordy) == [] && RowsEntries(rows, i, dictionary, wordy) == {}
  {
  }

  lemma FlushedOf(block: seq<string>, dictionary: Option<Dictionary>, wordy: string -> bool)
    ensures SegmentsOf(Flush(block), dictionary, wordy)
         == if block == [] then [] else [BlockOf(Join(block, "\n"), dictionary, wordy)]
    ensures SegmentEntries(Flush(block), dictionary, wordy)
         == if block == [] then {} else BlockEntries(Join(block, "\n"), dictionary, wordy)
  {
    hide BlockOf, BlockEntries, Join;
    assert [Paragraph(block)][1..] == [];
  }

  /** What is out and what is still to come make up the whole page, in text and in entries. */
  ghost predicate Ahead(out: seq<string>, seen: set<string>, rest: seq<Segment>, page: seq<Segment>,
                        dictionary: Option<Dictionary>, wordy: string -> bool) {
    && out + SegmentsOf(rest, dictionary, wordy) == SegmentsOf(page, dictionary, wordy)
    && seen + SegmentEntries(rest, dictionary, wordy) == SegmentEntries(page, dictionary, wordy)
  }

  lemma AtStart(page: seq<Segment>, dictionary: Option<Dictionary>, wordy: string -> bool)
    ensures Ahead([], {}, page, page, dictionary, wordy)
  {
    assert [] + SegmentsOf(page, dictionary, wordy) == SegmentsOf(page, dictionary, wordy);
  }

  lemma AtEnd(out: seq<string>, seen: set<string>, rest: seq<Segment>, page: seq<Segment>,
              dictionary: Option<Dictionary>, wordy: string -> bool)
    requires Ahead(out, seen, rest, page, dictionary, wordy)
    ensures out + SegmentsOf(rest, dictionary, wordy) == SegmentsOf(page, dictionary, wordy)
    ensures seen + SegmentEntries(rest, dictionary, wordy) == SegmentEntries(page, dictionary, wordy)
  {
  }

  lemma {:induction false} SegmentsAppend(a: seq<Segment>, b: seq<Segment>, dictionary: Option<Dictionary>,
                                          wordy: string -> bool)
    ensures SegmentsOf(a + b, dictionary, wordy) == SegmentsOf(a, dictionary, wordy) + SegmentsOf(b, dictionary, wordy)
    ensures SegmentEntries(a + b, dictionary, wordy)
         == SegmentEntries(a, dictionary, wordy) + SegmentEntries(b, dictionary, wordy)
  {
    hide SegmentOf, BlockEntries;
    if a == [] {
      assert a + b == b;
    } else {
      assert (a + b)[1..] == a[1..] + b;
      SegmentsAppend(a[1..], b, dictionary, wordy);
    }
  }

  /** A kept line: the paragraph before it is flushed, if there is one, and the line follows. */
  lemma LineSplit(out: seq<string>, seen: set<string>, block: seq<string>, line: string, rest: seq<Segment>,
                  page: seq<Segment>, dictionary: Option<Dictionary>, wordy: string -> bool)
    requires Ahead(out, seen, Flush(block) + [Verbatim(line)] + rest, page, dictionary, wordy)
    ensures Ahead(out + SegmentsOf(Flush(block), dictionary, wordy) + [line],
                  seen + SegmentEntries(Flush(block), dictionary, wordy), rest, page, dictionary, wordy)
    ensures block == [] ==> Ahead(out + [line], seen, rest, page, dictionary, wordy)
  {
    hide SegmentsOf, SegmentEntries, Flush;
    SegmentsAppend(Flush(block) + [Verbatim(line)], rest, dictionary, wordy);
    SegmentsAppend(Flush(block), [Verbatim(line)], dictionary, wordy);
    LineAlone(line, dictionary, wordy);
    FlushedOf(block, dictionary, wordy);
    var texts, more := SegmentsOf(Flush(block), dictionary, wordy), SegmentsOf(rest, dictionary, wordy);
    assert out + texts + [line] + more == out + (texts + [line] + more);
    assert out + [] == out;
  }

  lemma LineAlone(line: string, dictionary: Option<Dictionary>, wordy: string -> bool)
    ensures SegmentsOf([Verbatim(line)], dictionary, wordy) == [line]
    ensures SegmentEntries([Verbatim(line)], dictionary, wordy) == {}
  {
    assert [Verbatim(line)][1..] == [];
  }

  // ----- Everything recorded as missing is missing -----

  lemma {:induction false} CellEntriesMissing(cells: seq<string>, i: nat, n: nat, dictionary: Dictionary,
                                              wordy: string -> bool)
    ensures forall en | en in CellEntries(cells, i, n, Some(dictionary), wordy) :: Lookup(dictionary, en) == ""
  {
    if cells != [] { CellEntriesMissing(cells[1..], i + 1, n, dictionary, wordy); }
  }

  lemma {:induction false} RowsEntriesMissing(rows: seq<string>, i: nat, dictionary: Dictionary, wordy: string -> bool)
    ensures forall en | en in RowsEntries(rows, i, Some(dictionary), wordy) :: Lookup(dictionary, en) == ""
  {
    if rows != [] {
      var cells := PageTranslation.Cells(rows[0], false);
      CellEntriesMissing(cells, 0, |cells|, dictionary, wordy);
      RowsEntriesMissing(rows[1..], i + 1, dictionary, wordy);
    }
  }

  lemma {:induction false} SegmentEntriesMissing(segments: seq<Segment>, dictionary: Dictionary, wordy: string -> bool)
    ensures forall en | en in SegmentEntries(segments, Some(dictionary), wordy) :: Lookup(dictionary, en) == ""
  {
    if segments != [] {
      SegmentEntriesMissing(segments[1..], dictionary, wordy);
      if segments[0].Paragraph? {
        RowsEntriesMissing(Split(Join(segments[0].lines, "\n"), '\n'), 0, dictionary, wordy);
      }
    }
  }

  lemma PageEntriesMissing(markdown: string, dictionary: Dictionary, wordy: string -> bool)
    ensures forall en | en in PageEntries(markdown, Some(dictionary), wordy) :: Lookup(dictionary, en) == ""
  {
    SegmentEntriesMissing(PageSegments(markdown), dictionary, wordy);
  }
}
