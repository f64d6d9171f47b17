/** What the patterns of the page translation match, told from the text alone. */
module PageReading {
  import opened Text
  import opened MarkdownLinks
  import opened PageTranslation

  // ----- Link targets -----

  /** A link target with its brackets stands at the start: it holds neither white space nor a closing bracket. */
  ghost predicate LinkBegins(s: string) {
    exists target, rest :: LinkIn(s, target, rest)
  }

  predicate LinkIn(s: string, target: string, rest: string) {
    s == "](" + target + ")" + rest && forall c | c in target :: c != ')' && !IsSpace(c)
  }

  /** The parts spell the text, every link's target is one, and no link begins at a single character. */
  ghost predicate Reads(s: string, parts: seq<Part>)
    decreases |parts|
  {
    if parts == [] then s == ""
    else
      match parts[0]
      case Link(target) => exists rest :: LinkIn(s, target, rest) && Reads(rest, parts[1..])
      case Plain(c) => s != "" && s[0] == c && !LinkBegins(s) && Reads(s[1..], parts[1..])
  }

  lemma LinkFound(s: string, target: string, rest: string)
    requires LinkIn(s, target, rest)
    ensures LinkAt(s) && target == s[2..2 + Run(s[2..])] && rest == s[3 + Run(s[2..])..]
  {
    hide IsSpace;
    assert s == LinkText(target) + rest;
    LinkStarts(target, rest);
  }

  lemma LinkExact(s: string)
    ensures LinkAt(s) <==> LinkBegins(s)
  {
    hide IsSpace, LinkAt, Run;
    if LinkAt(s) {
      var target, rest := LinkSplit(s);
      assert LinkIn(s, target, rest);
    }
    if LinkBegins(s) {
      var target, rest :| LinkIn(s, target, rest);
      LinkFound(s, target, rest);
    }
  }

  lemma PartsRead(s: string)
    ensures Reads(s, Parts(s))
    decreases |s|
  {
    hide IsSpace, LinkAt, LinkIn, Run, LinkBegins;
    LinkExact(s);
    if s != "" {
      if LinkAt(s) {
        var target, rest := LinkSplit(s);
        PartsRead(rest);
        assert LinkIn(s, target, rest) by { LinkSpelled(s, target, rest); }
        assert ([Link(target)] + Parts(rest))[1..] == Parts(rest);
      } else {
        PlainSplit(s);
        PartsRead(s[1..]);
        assert ([Plain(s[0])] + Parts(s[1..]))[1..] == Parts(s[1..]);
      }
    }
  }

  lemma LinkSpelled(s: string, target: string, rest: string)
    requires s == LinkText(target) + rest && ValidTarget(target)
    ensures LinkIn(s, target, rest)
  {
    hide IsSpace;
  }

  /** A text reads in exactly one way. */
  lemma {:induction false} PartsExact(s: string, parts: seq<Part>)
    ensures Reads(s, parts) <==> parts == Parts(s)
    decreases |parts|
  {
    hide IsSpace, LinkAt, LinkIn, Run, LinkBegins;
    PartsRead(s);
    if Reads(s, parts) && parts != [] {
      LinkExact(s);
      assert parts == [parts[0]] + parts[1..];
      match parts[0]
      case Link(target) =>
        var rest :| LinkIn(s, target, rest) && Reads(rest, parts[1..]);
        PartsExact(rest, parts[1..]);
        LinkFound(s, target, rest);
        var target', rest' := LinkSplit(s);
      case Plain(c) =>
        PartsExact(s[1..], parts[1..]);
        PlainSplit(s);
    }
  }

  /** The parts are the same but for what the links lead to. */
  predicate SameWords(a: seq<Part>, b: seq<Part>) {
    |a| == |b| && forall i | 0 <= i < |a| :: if a[i].Plain? then b[i] == a[i] else b[i].Link?
  }

  lemma {:induction false} BlankExact(a: seq<Part>, b: seq<Part>)
    ensures Blank(a) == Blank(b) <==> SameWords(a, b)
    ensures |Blank(a)| == |a|
  {
    if a == [] || b == [] {
      BlankLength(b);
      BlankLength(a);
    } else {
      BlankExact(a[1..], b[1..]);
      SameWordsCons(a, b);
      BlankCons(a);
      BlankCons(b);
    }
  }

  lemma BlankCons(a: seq<Part>)
    requires a != []
    ensures Blank(a) != [] && Blank(a)[1..] == Blank(a[1..])
    ensures Blank(a)[0] == if a[0].Link? then Link("") else a[0]
    ensures Blank(a) == [Blank(a)[0]] + Blank(a)[1..]
  {
  }

  lemma {:induction false} BlankLength(a: seq<Part>)
    ensures |Blank(a)| == |a|
  {
    if a != [] { BlankLength(a[1..]); }
  }

  lemma SameWordsCons(a: seq<Part>, b: seq<Part>)
    requires a != [] && b != []
    ensures SameWords(a, b)
       <==> (if a[0].Plain? then b[0] == a[0] else b[0].Link?) && SameWords(a[1..], b[1..])
  {
    if (if a[0].Plain? then b[0] == a[0] else b[0].Link?) && SameWords(a[1..], b[1..]) {
      forall i | 0 <= i < |a| ensures if a[i].Plain? then b[i] == a[i] else b[i].Link? {
        if i > 0 { assert a[i] == a[1..][i - 1] && b[i] == b[1..][i - 1]; }
      }
    }
  }

  /** Two texts have the same key exactly when they differ in nothing but link targets. */
  lemma KeyExact(a: string, b: string)
    ensures Key(a) == Key(b) <==> SameWords(Parts(a), Parts(b))
  {
    hide Blank, Parts, Render, Retargeted, SameWords;
    BlankExact(Parts(a), Parts(b));
    KeyParts(a);
    KeyParts(b);
  }

  lemma KeyParts(a: string)
    ensures Parts(Key(a)) == Blank(Parts(a)) && Key(a) == Render(Blank(Parts(a)))
  {
    BlankRetargets(Parts(a));
    RetargetedParts(a, Blank(Parts(a)));
  }

  /** A key's links lead nowhere. */
  lemma KeyLinks(a: string)
    ensures SameWords(Parts(a), Parts(Key(a)))
    ensures forall part | part in Parts(Key(a)) :: part.Link? ==> part.target == ""
  {
    hide Parts, Render, Key;
    KeyParts(a);
    BlankEmpties(Parts(a));
    BlankRetargets(Parts(a));
    BlankExact(Parts(a), Blank(Parts(a)));
  }

  lemma {:induction false} BlankEmpties(a: seq<Part>)
    ensures forall part | part in Blank(a) :: part.Link? ==> part.target == ""
  {
    if a != [] { BlankEmpties(a[1..]); }
  }

  // ----- Replacement texts -----

  /** A replacement text piece by piece: a character, or a pattern for something around the match. */
  datatype Piece = Char(c: char) | Dollar | Match | Before | After

  function PieceText(p: Piece): string {
    match p
    case Char(c) => [c]
    case Dollar => "$$"
    case Match => "$&"
    case Before => "$`"
    case After => "$'"
  }

  function PieceValue(p: Piece, matched: string, before: string, after: string): string {
    match p
    case Char(c) => [c]
    case Dollar => "$"
    case Match => matched
    case Before => before
    case After => after
  }

  function Spelt(pieces: seq<Piece>): string {
    if pieces == [] then "" else PieceText(pieces[0]) + Spelt(pieces[1..])
  }

  function Value(pieces: seq<Piece>, matched: string, before: string, after: string): string {
    if pieces == [] then ""
    else PieceValue(pieces[0], matched, before, after) + Value(pieces[1..], matched, before, after)
  }

  /** No dollar sign stands alone in front of what would make it a pattern. */
  predicate Plainly(pieces: seq<Piece>) {
    pieces != [] ==>
      && Plainly(pieces[1..])
      && (pieces[0] == Char('$') ==> var rest := Spelt(pieces[1..]); rest == "" || rest[0] !in "$&`'")
  }

  /** GetSubstitution: every pattern gives what it stands for, and every other character itself. */
  lemma {:induction false} ExpandMeaning(pieces: seq<Piece>, matched: string, before: string, after: string)
    requires Plainly(pieces)
    ensures Expand(Spelt(pieces), matched, before, after) == Value(pieces, matched, before, after)
  {
    if pieces != [] {
      ExpandMeaning(pieces[1..], matched, before, after);
      PieceFirst(pieces[0], Spelt(pieces[1..]), matched, before, after);
    }
  }

  lemma PieceFirst(p: Piece, rest: string, matched: string, before: string, after: string)
    requires p == Char('$') ==> rest == "" || rest[0] !in "$&`'"
    ensures Expand(PieceText(p) + rest, matched, before, after)
         == PieceValue(p, matched, before, after) + Expand(rest, matched, before, after)
  {
    var r := PieceText(p) + rest;
    if p.Char? {
      assert r[0] == p.c && r[1..] == rest;
    } else {
      assert r[0] == '$' && r[1] in "$&`'" && r[2..] == rest;
    }
  }

  /** Every text is made of such pieces. */
  lemma {:induction false} PiecesFound(r: string) returns (pieces: seq<Piece>)
    ensures Plainly(pieces) && Spelt(pieces) == r
    decreases |r|
  {
    if r == "" {
      pieces := [];
    } else {
      var p := if |r| < 2 || r[0] != '$' then Char(r[0])
               else match r[1]
                    case '$' => Dollar
                    case '&' => Match
                    case '`' => Before
                    case '\'' => After
                    case _ => Char('$');
      var rest := r[|PieceText(p)|..];
      var more := PiecesFound(rest);
      pieces := [p] + more;
      assert pieces[1..] == more && r == PieceText(p) + rest;
    }
  }

  // ----- The lines that are kept -----

  ghost predicate IsFence(line: string) {
    "```" <= line || "~~~" <= line
  }

  /** A quote with something bold behind it on the line. */
  ghost predicate IsDeclaration(line: string) {
    exists c, middle, rest :: DeclarationIn(line, c, middle, rest)
  }

  predicate DeclarationIn(line: string, c: char, middle: string, rest: string) {
    && line == ">" + [c] + middle + "**" + rest && IsSpace(c)
    && forall d | d in middle :: d as int !in {10, 13, 0x2028, 0x2029}
  }

  lemma DeclarationExact(line: string)
    ensures DeclarationLine(line) <==> IsDeclaration(line)
  {
    hide IsSpace, At;
    if DeclarationLine(line) { DeclarationFound(line); }
    if c, middle, rest :| DeclarationIn(line, c, middle, rest) { DeclarationMatches(line, c, middle, rest); }
  }

  lemma DeclarationFound(line: string)
    requires DeclarationLine(line)
    ensures IsDeclaration(line)
  {
    hide IsSpace, IndexOf;
    var k := IndexOf(line, "**", 2);
    var middle, rest := line[2..k], line[k + 2..];
    forall d | d in middle ensures d as int !in {10, 13, 0x2028, 0x2029} {
      var i :| 0 <= i < |middle| && middle[i] == d;
      assert line[2 + i] == d;
    }
    var c := line[1];
    assert line[k..k + 2] == "**" && [line[0]] == ">";
    assert line == [line[0]] + [c] + middle + line[k..k + 2] + rest;
    assert DeclarationIn(line, c, middle, rest);
  }

  lemma DeclarationMatches(line: string, c: char, middle: string, rest: string)
    requires DeclarationIn(line, c, middle, rest)
    ensures DeclarationLine(line)
  {
    hide IsSpace;
    var n := 2 + |middle|;
    assert line[n..n + 2] == "**" && At(line, "**", n);
    var k := IndexOf(line, "**", 2);
    assert 2 <= k <= n;
    forall i | 2 <= i < k ensures !LineTerminator(line[i]) {
      assert line[i] == middle[i - 2] && middle[i - 2] in middle;
    }
  }

  /** Told from the lines alone: a fence, a line behind an odd number of fences, a declaration, or a blank line. */
  ghost predicate IsKept(lines: seq<string>, k: nat)
    requires k < |lines|
  {
    || IsFence(lines[k]) || |FencesAbove(lines, k)| % 2 == 1
    || IsDeclaration(lines[k]) || AllSpace(lines[k])
  }

  ghost function FencesAbove(lines: seq<string>, k: nat): set<nat>
    requires k <= |lines|
  {
    set m: nat | m < k && IsFence(lines[m])
  }

  lemma FenceExact(line: string)
    ensures FenceLine(line) <==> IsFence(line)
  {
  }

  lemma {:induction false} FencesCounted(lines: seq<string>, k: nat)
    requires k <= |lines|
    ensures FencesBefore(lines, k) == |FencesAbove(lines, k)|
  {
    hide FenceLine, IsFence;
    if k > 0 {
      FencesCounted(lines, k - 1);
      FenceExact(lines[k - 1]);
      assert FencesAbove(lines, k)
          == FencesAbove(lines, k - 1) + (if IsFence(lines[k - 1]) then {k - 1} else {});
    }
  }

  lemma KeptExact(lines: seq<string>, k: nat)
    requires k < |lines|
    ensures Kept(lines, k) <==> IsKept(lines, k)
  {
    hide FenceLine, IsFence, DeclarationLine, IsDeclaration, AllSpace, Trim;
    FencesCounted(lines, k);
    FenceExact(lines[k]);
    DeclarationExact(lines[k]);
    TrimEmpty(lines[k]);
  }
}
