/** What stays on the page itself, line by line, whatever the dictionary puts in between. */
module PageLines {
  import opened Text
  import opened PageTranslation

  /** The lines of `a` occur in `b`, in order. */
  predicate IsSubsequence(a: seq<string>, b: seq<string>)
    decreases b
  {
    if a == [] then true
    else b != [] && ((a[0] == b[0] && IsSubsequence(a[1..], b[1..])) || IsSubsequence(a, b[1..]))
  }

  lemma {:induction false} NoneIsSubsequence(b: seq<string>)
    ensures IsSubsequence([], b)
  {
  }

  lemma {:induction false} Behind(a: seq<string>, x: string, b: seq<string>)
    requires IsSubsequence(a, b)
    ensures IsSubsequence(a, [x] + b)
  {
    assert ([x] + b)[1..] == b;
  }

  lemma {:induction false} Appended(a: seq<string>, a': seq<string>, b: seq<string>, b': seq<string>)
    requires IsSubsequence(a, b) && IsSubsequence(a', b')
    ensures IsSubsequence(a + a', b + b')
    decreases b
  {
    if b == [] {
      assert a + a' == a' && b + b' == b';
    } else {
      assert b + b' == [b[0]] + (b[1..] + b');
      if a != [] && a[0] == b[0] && IsSubsequence(a[1..], b[1..]) {
        Appended(a[1..], a', b[1..], b');
        assert (a + a')[1..] == a[1..] + a' && (b + b')[1..] == b[1..] + b';
      } else {
        Appended(a, a', b[1..], b');
        Behind(a + a', b[0], b[1..] + b');
      }
    }
  }

  lemma {:induction false} Itself(a: seq<string>)
    ensures IsSubsequence(a, a)
  {
    if a != [] { Itself(a[1..]); }
  }

  lemma Prefix(a: seq<string>, b: seq<string>)
    ensures IsSubsequence(a, a + b)
  {
    Itself(a);
    NoneIsSubsequence(b);
    Appended(a, [], a, b);
    assert a + [] == a;
  }

  lemma {:induction false} Transitive(a: seq<string>, b: seq<string>, c: seq<string>)
    requires IsSubsequence(a, b) && IsSubsequence(b, c)
    ensures IsSubsequence(a, c)
    decreases c
  {
    if a != [] {
      if b[0] == c[0] && IsSubsequence(b[1..], c[1..]) {
        if a[0] == b[0] && IsSubsequence(a[1..], b[1..]) {
          Transitive(a[1..], b[1..], c[1..]);
        } else {
          Transitive(a, b[1..], c[1..]);
        }
      } else {
        Transitive(a, b, c[1..]);
      }
    }
  }

  // ----- Lines of joined texts -----

  lemma {:induction false} SplitTwo(a: string, b: string)
    ensures Split(a + "\n" + b, '\n') == Split(a, '\n') + Split(b, '\n')
  {
    hide Split;
    if a == "" {
      SplitNone(b);
    } else {
      SplitTwo(a[1..], b);
      SplitMore(a, '\n');
      SplitJoined(a, b);
    }
  }

  lemma SplitNone(b: string)
    ensures Split("" + "\n" + b, '\n') == Split("", '\n') + Split(b, '\n')
  {
    assert "" + "\n" + b == "\n" + b && ("\n" + b)[1..] == b;
    assert Split("", '\n') == [""];
  }

  lemma SplitJoined(a: string, b: string)
    requires a != "" && Split(a[1..] + "\n" + b, '\n') == Split(a[1..], '\n') + Split(b, '\n')
    ensures var first, more := Split(a[1..], '\n'), Split(b, '\n');
            Split(a + "\n" + b, '\n')
            == (if a[0] == '\n' then [[]] + first else [[a[0]] + first[0]] + first[1..]) + more
  {
    hide Split;
    var s := a + "\n" + b;
    assert s[0] == a[0] && s[1..] == a[1..] + "\n" + b;
    SplitMore(s, '\n');
    var first, more := Split(a[1..], '\n'), Split(b, '\n');
    assert (first + more)[0] == first[0] && (first + more)[1..] == first[1..] + more;
  }

  lemma SplitMore(s: string, c: char)
    requires s != ""
    ensures var rest := Split(s[1..], c);
            Split(s, c) == if s[0] == c then [[]] + rest else [[s[0]] + rest[0]] + rest[1..]
  {
  }

  lemma {:induction false} SplitOne(s: string)
    requires '\n' !in s
    ensures Split(s, '\n') == [s]
  {
    if s != "" {
      assert s == [s[0]] + s[1..];
      SplitOne(s[1..]);
    }
  }

  predicate Unbroken(lines: seq<string>) {
    forall l | l in lines :: '\n' !in l
  }

  lemma {:induction false} SplitLines(lines: seq<string>)
    requires lines != [] && Unbroken(lines)
    ensures Split(Join(lines, "\n"), '\n') == lines
  {
    assert lines[0] in lines && lines == [lines[0]] + lines[1..];
    SplitOne(lines[0]);
    if |lines| > 1 {
      SplitLines(lines[1..]);
      SplitTwo(lines[0], Join(lines[1..], "\n"));
    }
  }

  // ----- The firm lines -----

  /** Lines that a segment keeps: a kept line, a heading, or the header of a table and the rule below it. */
  function FirmLines(segment: Segment): seq<string> {
    match segment
    case Verbatim(line) => [line]
    case Paragraph(lines) =>
      var text := Join(lines, "\n");
      if Table(text) then if |lines| <= 2 then lines else lines[..2]
      else if Heading(text) then lines
      else []
  }

  function AllFirmLines(segments: seq<Segment>): seq<string> {
    if segments == [] then [] else FirmLines(segments[0]) + AllFirmLines(segments[1..])
  }

  lemma FirstTwo(x: string, y: string, more: seq<string>)
    requires '\n' !in x && '\n' !in y
    ensures IsSubsequence([x, y], Split(Join([x, y] + more, "\n"), '\n'))
  {
    hide Split, IsSubsequence;
    var texts := [x, y] + more;
    assert texts[1..] == [y] + more && ([y] + more)[1..] == more;
    var tail := Join([y] + more, "\n");
    SplitOne(x);
    SplitOne(y);
    SplitTwo(x, tail);
    assert Join(texts, "\n") == x + "\n" + tail;
    if more == [] {
      assert [y] + more == [y] && tail == y;
    } else {
      assert tail == y + "\n" + Join(more, "\n");
      SplitTwo(y, Join(more, "\n"));
    }
    var rest := if more == [] then [] else Split(Join(more, "\n"), '\n');
    assert [x] + ([y] + rest) == [x, y] + rest;
    Prefix([x, y], rest);
  }

  lemma HeaderStays(rows: seq<string>, dictionary: Option<Dictionary>, wordy: string -> bool)
    requires rows != [] && Unbroken(rows)
    ensures var texts := RowsOf(rows, 0, dictionary, wordy);
            IsSubsequence(if |rows| <= 2 then rows else rows[..2], Split(Join(texts, "\n"), '\n'))
  {
    hide RowOf, Split, IsSubsequence;
    var texts := RowsOf(rows, 0, dictionary, wordy);
    assert texts == [rows[0]] + RowsOf(rows[1..], 1, dictionary, wordy);
    assert rows[0] in rows;
    if |rows| == 1 {
      assert rows[1..] == [] && RowsOf([], 1, dictionary, wordy) == [];
      assert texts == [rows[0]] == rows;
      SplitOne(rows[0]);
      Itself(rows);
    } else {
      assert rows[1] in rows && rows[1..][1..] == rows[2..];
      var more := RowsOf(rows[2..], 2, dictionary, wordy);
      assert RowsOf(rows[1..], 1, dictionary, wordy) == [rows[1]] + more;
      assert texts == [rows[0], rows[1]] + more;
      assert (if |rows| <= 2 then rows else rows[..2]) == [rows[0], rows[1]];
      FirstTwo(rows[0], rows[1], more);
    }
  }

  /** A segment's firm lines are lines of what becomes of it. */
  lemma SegmentFirm(segment: Segment, dictionary: Option<Dictionary>, wordy: string -> bool)
    requires LinesOf(segment) != [] && Unbroken(LinesOf(segment))
    ensures IsSubsequence(FirmLines(segment), Split(SegmentOf(segment, dictionary, wordy), '\n'))
  {
    hide RowsOf, TextOf, Table, Heading, IsSubsequence;
    match segment
    case Verbatim(line) =>
      assert line in LinesOf(segment);
      SplitOne(line);
      Itself([line]);
    case Paragraph(lines) =>
      SplitLines(lines);
      HeaderStays(lines, dictionary, wordy);
      Itself(lines);
      NoneIsSubsequence(Split(SegmentOf(segment, dictionary, wordy), '\n'));
  }

  lemma {:induction false} SegmentsFirm(segments: seq<Segment>, dictionary: Option<Dictionary>, wordy: string -> bool)
    requires segments != [] && Filled(segments) && Unbroken(Flatten(segments))
    ensures IsSubsequence(AllFirmLines(segments), Split(Join(SegmentsOf(segments, dictionary, wordy), "\n"), '\n'))
  {
    hide SegmentOf, FirmLines, IsSubsequence;
    var first, rest := segments[0], segments[1..];
    assert first in segments && forall s | s in rest :: s in segments;
    assert forall l | l in LinesOf(first) :: l in Flatten(segments);
    assert forall l | l in Flatten(rest) :: l in Flatten(segments);
    SegmentFirm(first, dictionary, wordy);
    var texts := SegmentsOf(segments, dictionary, wordy);
    var text, more := SegmentOf(first, dictionary, wordy), SegmentsOf(rest, dictionary, wordy);
    assert texts == [text] + more && texts[1..] == more;
    if rest == [] {
      assert FirmLines(first) + [] == FirmLines(first);
    } else {
      SegmentsFirm(rest, dictionary, wordy);
      SplitTwo(text, Join(more, "\n"));
      Appended(FirmLines(first), AllFirmLines(rest), Split(text, '\n'), Split(Join(more, "\n"), '\n'));
    }
  }

  lemma {:induction false} VerbatimsAreFirm(segments: seq<Segment>)
    ensures IsSubsequence(Verbatims(segments), AllFirmLines(segments))
  {
    hide Table, Heading, Join;
    if segments != [] {
      VerbatimsAreFirm(segments[1..]);
      var head := if segments[0].Verbatim? then [segments[0].line] else [];
      Itself(head);
      NoneIsSubsequence(FirmLines(segments[0]));
      Appended(head, Verbatims(segments[1..]), FirmLines(segments[0]), AllFirmLines(segments[1..]));
    }
  }

  /**
   * On the translated page, in order: every fence line, fenced line, declaration line and blank line of the original,
   * and among them every line of a heading and the first two rows of every table.
   */
  lemma PageKeepsLines(markdown: string, dictionary: Option<Dictionary>, wordy: string -> bool)
    ensures var page := Split(PageOf(markdown, dictionary, wordy), '\n');
            && IsSubsequence(AllFirmLines(PageSegments(markdown)), page)
            && IsSubsequence(KeptFrom(Split(markdown, '\n'), 0), page)
  {
    var segments := PageSegments(markdown);
    PageStructure(markdown);
    hide Segments, KeptFrom, ProseFrom, IsSubsequence, Filled, Separated, AllFirmLines, Verbatims, Gathered, SegmentsOf;
    assert Unbroken(Flatten(segments));
    assert Flatten([]) == [];
    SegmentsFirm(segments, dictionary, wordy);
    VerbatimsAreFirm(segments);
    Transitive(Verbatims(segments), AllFirmLines(segments), Split(PageOf(markdown, dictionary, wordy), '\n'));
  }
}
