/** The end of a call: a scanner with a depth and a quote, against a grammar of parentheses and strings. */
module CallScanner {
  import opened Text

  predicate IsQuote(c: char) {
    c == '"' || c == '\'' || c == '`'
  }

  /** The scan from `i` on: the column behind the parenthesis that closes depth 1. */
  function Scan(line: string, i: nat, depth: int, quote: Option<char>): Option<nat>
    decreases |line| - i
  {
    if i >= |line| then None
    else
      var c := line[i];
      if quote.Some? then
        if c == '\\' then Scan(line, i + 2, depth, quote)
        else Scan(line, i + 1, depth, if c == quote.value then None else quote)
      else if IsQuote(c) then Scan(line, i + 1, depth, Some(c))
      else if c == '(' then Scan(line, i + 1, depth + 1, None)
      else if c == ')' then if depth == 1 then Some(i + 1) else Scan(line, i + 1, depth - 1, None)
      else Scan(line, i + 1, depth, None)
  }

  /** `None`: the parentheses are unbalanced. */
  method CallExprEnd(line: string, openIdx0: nat) returns (r: Option<nat>)
    ensures r == Scan(line, openIdx0, 0, None)
  {
    var depth := 0;
    var quote: Option<char> := None;
    var i := openIdx0;
    while i < |line|
      invariant Scan(line, i, depth, quote) == Scan(line, openIdx0, 0, None)
      decreases |line| - i
    {
      var c := line[i];
      if quote.Some? {
        if c == '\\' { i := i + 1; } else if c == quote.value { quote := None; }
        i := i + 1;
        continue;
      }
      if IsQuote(c) {
        quote := Some(c);
      } else if c == '(' {
        depth := depth + 1;
      } else if c == ')' {
        depth := depth - 1;
        if depth == 0 { return Some(i + 1); }
      }
      i := i + 1;
    }
    return None;
  }

  // ----- The grammar -----

  datatype Mark = Bare(c: char) | Escaped(c: char)

  datatype Item = Plain(c: char) | Quoted(quote: char, marks: seq<Mark>) | Group(items: seq<Item>)

  predicate ValidMarks(marks: seq<Mark>, quote: char) {
    forall m | m in marks :: m.Bare? ==> m.c != quote && m.c != '\\'
  }

  predicate ValidItem(item: Item) {
    match item
    case Plain(c) => !IsQuote(c) && c != '(' && c != ')'
    case Quoted(quote, marks) => IsQuote(quote) && ValidMarks(marks, quote)
    case Group(items) => ValidItems(items)
  }

  predicate ValidItems(items: seq<Item>) {
    forall item | item in items :: ValidItem(item)
  }

  function MarksText(marks: seq<Mark>): string {
    if marks == [] then ""
    else (if marks[0].Bare? then [marks[0].c] else ['\\', marks[0].c]) + MarksText(marks[1..])
  }

  function ItemText(item: Item): string {
    match item
    case Plain(c) => [c]
    case Quoted(quote, marks) => [quote] + MarksText(marks) + [quote]
    case Group(items) => "(" + ItemsText(items) + ")"
  }

  function ItemsText(items: seq<Item>): string {
    if items == [] then "" else ItemText(items[0]) + ItemsText(items[1..])
  }

  /** The arguments of a call, with their parentheses. */
  function CallText(items: seq<Item>): string {
    "(" + ItemsText(items) + ")"
  }

  // ----- Every rendered call is found -----

  /** `line` reads `text` at `i`. */
  predicate Reads(line: string, i: nat, text: string) {
    At(line, text, i)
  }

  lemma ReadsParts(line: string, i: nat, a: string, b: string)
    requires Reads(line, i, a + b)
    ensures Reads(line, i, a) && Reads(line, i + |a|, b)
  {
    var t := line[i..i + |a + b|];
    assert line[i..i + |a|] == t[..|a|] == a;
    assert line[i + |a|..i + |a| + |b|] == t[|a|..] == b;
  }

  lemma ReadsChar(line: string, i: nat, c: char)
    requires Reads(line, i, [c])
    ensures i < |line| && line[i] == c
  {
    assert line[i..i + 1][0] == c;
  }

  lemma {:induction false} ScanMarks(line: string, i: nat, depth: int, quote: char, marks: seq<Mark>)
    requires IsQuote(quote) && ValidMarks(marks, quote) && Reads(line, i, MarksText(marks) + [quote])
    ensures Scan(line, i, depth, Some(quote)) == Scan(line, i + |MarksText(marks)| + 1, depth, None)
    decreases marks
  {
    hide Reads, At;
    ReadsParts(line, i, MarksText(marks), [quote]);
    if marks == [] {
      ReadsChar(line, i, quote);
    } else {
      var first := if marks[0].Bare? then [marks[0].c] else ['\\', marks[0].c];
      var rest := MarksText(marks[1..]);
      assert marks[0] in marks;
      assert MarksText(marks) + [quote] == first + (rest + [quote]);
      ReadsParts(line, i, first, rest + [quote]);
      ScanMarks(line, i + |first|, depth, quote, marks[1..]);
      if marks[0].Escaped? {
        assert first == ['\\'] + [marks[0].c];
        ReadsParts(line, i, ['\\'], [marks[0].c]);
        ReadsChar(line, i, '\\');
      } else {
        ReadsChar(line, i, marks[0].c);
      }
    }
  }

  /** One item is passed over at the same depth. */
  lemma {:induction false} ScanItem(line: string, i: nat, depth: int, item: Item)
    requires depth >= 1 && ValidItem(item) && Reads(line, i, ItemText(item))
    ensures Scan(line, i, depth, None) == Scan(line, i + |ItemText(item)|, depth, None)
    decreases item, 0
  {
    hide Reads, At;
    match item
    case Plain(c) => ReadsChar(line, i, c);
    case Quoted(quote, marks) =>
      assert ItemText(item) == [quote] + (MarksText(marks) + [quote]);
      ReadsParts(line, i, [quote], MarksText(marks) + [quote]);
      ReadsChar(line, i, quote);
      ScanMarks(line, i + 1, depth, quote, marks);
    case Group(items) =>
      assert ItemText(item) == "(" + (ItemsText(items) + ")");
      ReadsParts(line, i, "(", ItemsText(items) + ")");
      ReadsParts(line, i + 1, ItemsText(items), ")");
      ReadsChar(line, i, '(');
      ScanItems(line, i + 1, depth + 1, items);
      ReadsChar(line, i + 1 + |ItemsText(items)|, ')');
  }

  lemma {:induction false} ScanItems(line: string, i: nat, depth: int, items: seq<Item>)
    requires depth >= 1 && ValidItems(items) && Reads(line, i, ItemsText(items))
    ensures Scan(line, i, depth, None) == Scan(line, i + |ItemsText(items)|, depth, None)
    decreases items, 1
  {
    hide Reads, At, Scan, ItemText;
    if items != [] {
      assert items[0] in items;
      ReadsParts(line, i, ItemText(items[0]), ItemsText(items[1..]));
      ScanItem(line, i, depth, items[0]);
      ScanItems(line, i + |ItemText(items[0])|, depth, items[1..]);
    }
  }

  lemma CallFound(line: string, open: nat, items: seq<Item>)
    requires ValidItems(items) && Reads(line, open, CallText(items))
    ensures Scan(line, open, 0, None) == Some(open + |CallText(items)|)
  {
    hide Reads, At;
    assert CallText(items) == "(" + (ItemsText(items) + ")");
    ReadsParts(line, open, "(", ItemsText(items) + ")");
    ReadsParts(line, open + 1, ItemsText(items), ")");
    ReadsChar(line, open, '(');
    ScanItems(line, open + 1, 1, items);
    ReadsChar(line, open + 1 + |ItemsText(items)|, ')');
  }

  // ----- Whatever is found is a rendered call -----

  /** The rest of an expression that is `|levels|` parentheses deep. */
  function LevelsText(levels: seq<seq<Item>>): string {
    if levels == [] then "" else ItemsText(levels[0]) + ")" + LevelsText(levels[1..])
  }

  predicate ValidLevels(levels: seq<seq<Item>>) {
    forall items | items in levels :: ValidItems(items)
  }

  function Push(item: Item, levels: seq<seq<Item>>): seq<seq<Item>>
    requires levels != []
  {
    [[item] + levels[0]] + levels[1..]
  }

  lemma PushText(item: Item, levels: seq<seq<Item>>)
    requires levels != [] && ValidLevels(levels) && ValidItem(item)
    ensures ValidLevels(Push(item, levels)) && |Push(item, levels)| == |levels|
    ensures LevelsText(Push(item, levels)) == ItemText(item) + LevelsText(levels)
  {
    hide ItemText;
    var first, rest := [item] + levels[0], levels[1..];
    assert first[1..] == levels[0] && Push(item, levels)[1..] == rest;
    assert levels[0] in levels;
    assert ItemsText(first) == ItemText(item) + ItemsText(levels[0]);
    forall items | items in Push(item, levels) ensures ValidItems(items) {
      assert items == first || items in levels;
    }
  }

  lemma GroupText(items: seq<Item>, rest: string)
    ensures ItemText(Group(items)) + rest == "(" + (ItemsText(items) + ")" + rest)
  {
    hide ItemsText;
    assert "(" + ItemsText(items) + ")" + rest == "(" + (ItemsText(items) + ")" + rest);
  }

  /** A closed group becomes one item of the level around it. */
  lemma Fold(levels: seq<seq<Item>>)
    requires |levels| >= 2 && ValidLevels(levels)
    ensures var group := Push(Group(levels[0]), levels[1..]);
            && ValidLevels(group) && |group| == |levels| - 1
            && LevelsText(group) == "(" + LevelsText(levels)
  {
    hide ItemText, ItemsText;
    assert levels[0] in levels && forall items | items in levels[1..] :: items in levels;
    PushText(Group(levels[0]), levels[1..]);
    GroupText(levels[0], LevelsText(levels[1..]));
  }

  lemma Closes(levels: seq<seq<Item>>)
    requires ValidLevels(levels)
    ensures ValidLevels([[]] + levels) && LevelsText([[]] + levels) == ")" + LevelsText(levels)
  {
    assert ([[]] + levels)[1..] == levels;
    assert "" + ")" + LevelsText(levels) == ")" + LevelsText(levels);
  }

  lemma {:induction false} ScanParses(line: string, i: nat, depth: nat, end: nat) returns (levels: seq<seq<Item>>)
    requires depth >= 1 && Scan(line, i, depth, None) == Some(end)
    ensures i <= end <= |line| && |levels| == depth && ValidLevels(levels) && line[i..end] == LevelsText(levels)
    decreases |line| - i
  {
    hide ValidLevels, LevelsText, ItemText;
    var c := line[i];
    if IsQuote(c) {
      var marks, more := QuoteParses(line, i + 1, depth, c, end);
      PushText(Quoted(c, marks), more);
      levels := Push(Quoted(c, marks), more);
      QuotedText(c, marks);
      assert line[i..end] == [c] + line[i + 1..end];
      assert [c] + (MarksText(marks) + [c] + LevelsText(more)) == [c] + MarksText(marks) + [c] + LevelsText(more);
    } else if c == '(' {
      var more := ScanParses(line, i + 1, depth + 1, end);
      Fold(more);
      levels := Push(Group(more[0]), more[1..]);
      assert line[i..end] == "(" + line[i + 1..end];
    } else if c == ')' {
      var more: seq<seq<Item>> := [];
      if depth == 1 {
        Nothing();
        assert line[i..end] == ")" + "";
      } else {
        more := ScanParses(line, i + 1, depth - 1, end);
        assert line[i..end] == ")" + line[i + 1..end];
      }
      Closes(more);
      levels := [[]] + more;
    } else {
      var more := ScanParses(line, i + 1, depth, end);
      PushText(Plain(c), more);
      levels := Push(Plain(c), more);
      PlainText(c);
      assert line[i..end] == [c] + line[i + 1..end];
    }
  }

  lemma Nothing()
    ensures ValidLevels([]) && LevelsText([]) == ""
  {
  }

  lemma QuotedText(quote: char, marks: seq<Mark>)
    ensures ItemText(Quoted(quote, marks)) == [quote] + MarksText(marks) + [quote]
  {
  }

  lemma PlainText(c: char)
    ensures ItemText(Plain(c)) == [c]
  {
  }

  lemma {:induction false} QuoteParses(line: string, i: nat, depth: nat, quote: char, end: nat)
    returns (marks: seq<Mark>, levels: seq<seq<Item>>)
    requires depth >= 1 && IsQuote(quote) && Scan(line, i, depth, Some(quote)) == Some(end)
    ensures ValidMarks(marks, quote) && |levels| == depth && ValidLevels(levels)
    ensures i <= end <= |line| && line[i..end] == MarksText(marks) + [quote] + LevelsText(levels)
    decreases |line| - i
  {
    hide ValidLevels, LevelsText;
    var c := line[i];
    if c == '\\' {
      var rest;
      rest, levels := QuoteParses(line, i + 2, depth, quote, end);
      marks := [Escaped(line[i + 1])] + rest;
      assert marks[1..] == rest;
      assert line[i..end] == ['\\', line[i + 1]] + line[i + 2..end];
      assert MarksText(marks) == ['\\', line[i + 1]] + MarksText(rest);
    } else if c == quote {
      levels := ScanParses(line, i + 1, depth, end);
      marks := [];
      assert line[i..end] == [quote] + line[i + 1..end];
      assert "" + [quote] == [quote];
    } else {
      var rest;
      rest, levels := QuoteParses(line, i + 1, depth, quote, end);
      marks := [Bare(c)] + rest;
      assert marks[1..] == rest;
      assert line[i..end] == [c] + line[i + 1..end];
      assert MarksText(marks) == [c] + MarksText(rest);
    }
  }

  /** From an opening parenthesis the scanner ends at `end` exactly when a call of the grammar ends there. */
  lemma CallEndExact(line: string, open: nat, end: nat)
    requires open < |line| && line[open] == '('
    ensures Scan(line, open, 0, None) == Some(end)
       <==> exists items :: ValidItems(items) && open <= end <= |line| && line[open..end] == CallText(items)
  {
    if Scan(line, open, 0, None) == Some(end) {
      var levels := ScanParses(line, open + 1, 1, end);
      assert levels[0] in levels && levels[1..] == [];
      assert LevelsText(levels) == ItemsText(levels[0]) + ")" + "";
      assert line[open..end] == "(" + line[open + 1..end];
      assert line[open..end] == CallText(levels[0]);
    }
    if items :| ValidItems(items) && open <= end <= |line| && line[open..end] == CallText(items) {
      assert |line[open..end]| == end - open;
      CallFound(line, open, items);
    }
  }
}
