/** Link targets: taken out of the text a dictionary entry is keyed by, and put back into the translation. */
module MarkdownLinks {
  import opened Text

  /** A page text read from the left: single characters and link targets with their brackets. */
  datatype Part = Plain(c: char) | Link(target: string)

  predicate TargetChar(c: char) {
    c != ')' && !IsSpace(c)
  }

  predicate ValidTarget(t: string) {
    forall c | c in t :: TargetChar(c)
  }

  /** How many characters `[^)\s]*` takes at the start. */
  function Run(s: string): (n: nat)
    ensures n <= |s| && ValidTarget(s[..n]) && (n < |s| ==> !TargetChar(s[n]))
  {
    if s == "" || !TargetChar(s[0]) then 0
    else
      assert s[..1 + Run(s[1..])] == [s[0]] + s[1..][..Run(s[1..])];
      1 + Run(s[1..])
  }

  /** The text goes on to a closing bracket without white space. */
  predicate Closed(s: string) {
    Run(s) < |s| && s[Run(s)] == ')'
  }

  /** `/(\]\()([^)\s]*)(\))/` matches at the start. */
  predicate LinkAt(s: string) {
    |s| >= 2 && s[0] == ']' && s[1] == '(' && Closed(s[2..])
  }

  function LinkText(target: string): string {
    "](" + target + ")"
  }

  /** The matches of the pattern, and everything between them. */
  function Parts(s: string): seq<Part>
    decreases |s|
  {
    if s == "" then []
    else if LinkAt(s) then [Link(s[2..2 + Run(s[2..])])] + Parts(s[3 + Run(s[2..])..])
    else [Plain(s[0])] + Parts(s[1..])
  }

  function PartText(p: Part): string {
    match p
    case Plain(c) => [c]
    case Link(target) => LinkText(target)
  }

  function Render(parts: seq<Part>): string {
    if parts == [] then "" else PartText(parts[0]) + Render(parts[1..])
  }

  function TargetsOf(parts: seq<Part>): seq<string> {
    if parts == [] then []
    else (if parts[0].Link? then [parts[0].target] else []) + TargetsOf(parts[1..])
  }

  function Targets(s: string): seq<string> {
    TargetsOf(Parts(s))
  }

  /** The links get the given targets in order; links beyond the last one keep theirs. */
  function Refill(parts: seq<Part>, targets: seq<string>): seq<Part> {
    if parts == [] then []
    else if parts[0].Link? && targets != [] then [Link(targets[0])] + Refill(parts[1..], targets[1..])
    else [parts[0]] + Refill(parts[1..], targets)
  }

  function Blank(parts: seq<Part>): seq<Part> {
    if parts == [] then []
    else [if parts[0].Link? then Link("") else parts[0]] + Blank(parts[1..])
  }

  /** `text.replace(TARGET, '$1$3')` */
  function Key(text: string): string {
    Render(Blank(Parts(text)))
  }

  function Refilled(value: string, targets: seq<string>): string {
    Render(Refill(Parts(value), targets))
  }

  /** One pass over the translation; `index` is the next target of the page to be put in. */
  method WithTargets(value: string, source: string) returns (r: string)
    ensures r == Refilled(value, Targets(source))
  {
    hide *;
    var targets := Targets(source);
    var index, i := 0, 0;
    r := "";
    while i < |value|
      invariant 0 <= i <= |value| && 0 <= index <= |targets|
      invariant r + Refilled(value[i..], targets[index..]) == Refilled(value, targets)
    {
      var rest, left := value[i..], targets[index..];
      Unroll(rest, left);
      if LinkAt(rest) {
        var end := 3 + Run(rest[2..]);
        assert rest[end..] == value[i + end..];
        if index < |targets| {
          assert left[1..] == targets[index + 1..];
          Regroup(r, LinkText(targets[index]), Refilled(rest[end..], left[1..]));
          r := r + LinkText(targets[index]);
          index := index + 1;
        } else {
          Regroup(r, rest[..end], Refilled(rest[end..], left));
          r := r + rest[..end];
        }
        i := i + end;
      } else {
        assert rest[1..] == value[i + 1..];
        Regroup(r, [rest[0]], Refilled(rest[1..], left));
        r := r + [value[i]];
        i := i + 1;
      }
    }
    NothingLeft(targets[index..]);
    assert value[i..] == "";
  }

  lemma Regroup(a: string, b: string, c: string)
    ensures a + (b + c) == a + b + c
  {
  }

  lemma NothingLeft(targets: seq<string>)
    ensures Refilled("", targets) == ""
  {
  }

  /** The part at the start, and the rest. */
  lemma Unroll(s: string, targets: seq<string>)
    requires s != ""
    ensures LinkAt(s) ==>
              |s| >= 2 && var end := 3 + Run(s[2..]);
              && end <= |s| && s[..end] == LinkText(s[2..end - 1])
              && Refilled(s, targets) == (if targets != [] then LinkText(targets[0]) + Refilled(s[end..], targets[1..])
                                          else s[..end] + Refilled(s[end..], targets))
    ensures !LinkAt(s) ==> Refilled(s, targets) == [s[0]] + Refilled(s[1..], targets)
  {
    if LinkAt(s) {
      var end := 3 + Run(s[2..]);
      var head, rest := Link(s[2..end - 1]), Parts(s[end..]);
      assert s[2..][..Run(s[2..])] == s[2..end - 1];
      assert s[..end] == LinkText(s[2..end - 1]);
      assert Parts(s) == [head] + rest && ([head] + rest)[1..] == rest;
      RenderCons(if targets != [] then Link(targets[0]) else head,
                 Refill(rest, if targets != [] then targets[1..] else targets));
    } else {
      var head, rest := Plain(s[0]), Parts(s[1..]);
      assert ([head] + rest)[1..] == rest;
      RenderCons(head, Refill(rest, targets));
    }
  }

  lemma RenderCons(p: Part, rest: seq<Part>)
    ensures Render([p] + rest) == PartText(p) + Render(rest)
  {
    assert ([p] + rest)[1..] == rest;
  }

  // ----- Changing targets changes nothing else -----

  /** `t` is `s` with other link targets in it. */
  ghost predicate Retargeted(parts: seq<Part>, other: seq<Part>) {
    |parts| == |other|
    && forall i | 0 <= i < |parts| ::
         if parts[i].Plain? then other[i] == parts[i] else other[i].Link? && ValidTarget(other[i].target)
  }

  lemma {:induction false} RunStops(t: string, rest: string)
    requires ValidTarget(t) && (rest == "" || !TargetChar(rest[0]))
    ensures Run(t + rest) == |t|
  {
    if t == "" {
      assert t + rest == rest;
    } else {
      assert t[0] in t && (t + rest)[1..] == t[1..] + rest;
      RunStops(t[1..], rest);
    }
  }

  lemma LinkStarts(t: string, rest: string)
    requires ValidTarget(t)
    ensures LinkAt(LinkText(t) + rest) && Run((LinkText(t) + rest)[2..]) == |t|
    ensures Parts(LinkText(t) + rest) == [Link(t)] + Parts(rest)
  {
    var s := LinkText(t) + rest;
    assert s[2..] == t + (")" + rest);
    RunStops(t, ")" + rest);
    assert s[2..2 + |t|] == t && s[3 + |t|..] == rest;
  }

  /** Text that runs into white space or the end before a closing bracket has no link on that way. */
  lemma {:induction false} OpenStaysOpen(s: string, other: seq<Part>)
    requires Retargeted(Parts(s), other)
    ensures Closed(s) <==> Closed(Render(other))
    ensures s == "" <==> Render(other) == ""
    ensures s != "" ==> Render(other)[0] == s[0]
    decreases |s|
  {
    if s != "" {
      hide LinkAt, Parts, Render, LinkText, Closed, TargetChar;
      if LinkAt(s) {
        var t, rest := LinkSplit(s);
        RenderCons(other[0], other[1..]);
        assert other == [other[0]] + other[1..];
        ClosedLink(t, rest);
        ClosedLink(other[0].target, Render(other[1..]));
      } else {
        PlainSplit(s);
        RetargetedTail(Plain(s[0]), Parts(s[1..]), other);
        OpenStaysOpen(s[1..], other[1..]);
        RenderCons(other[0], other[1..]);
        ClosedCons(s[0], s[1..]);
        ClosedCons(s[0], Render(other[1..]));
      }
    }
  }

  lemma RetargetedTail(head: Part, rest: seq<Part>, other: seq<Part>)
    requires Retargeted([head] + rest, other)
    ensures other != [] && other == [other[0]] + other[1..] && Retargeted(rest, other[1..])
    ensures head.Plain? ==> other[0] == head
    ensures head.Link? ==> other[0].Link? && ValidTarget(other[0].target)
  {
    var parts := [head] + rest;
    forall i | 0 <= i < |rest| ensures rest[i] == parts[i + 1] && other[1..][i] == other[i + 1] {}
  }

  lemma ClosedCons(c: char, s: string)
    ensures Closed([c] + s) <==> c == ')' || (TargetChar(c) && Closed(s))
  {
    assert ([c] + s)[1..] == s;
  }

  lemma ClosedLink(t: string, rest: string)
    requires ValidTarget(t)
    ensures Closed(LinkText(t) + rest) && (LinkText(t) + rest)[0] == ']'
  {
    var run := "](" + t;
    assert LinkText(t) + rest == run + (")" + rest);
    assert ValidTarget(run) by {
      assert TargetChar(']') && TargetChar('(');
    }
    RunStops(run, ")" + rest);
  }

  /** With other targets a text still has the same parts. */
  lemma {:induction false} RetargetedParts(s: string, other: seq<Part>)
    requires Retargeted(Parts(s), other)
    ensures Parts(Render(other)) == other
    decreases |s|
  {
    if s == "" {
      assert other == [];
    } else {
      hide LinkAt, Parts, Render, LinkText, TargetChar;
      if LinkAt(s) {
        var t, rest := LinkSplit(s);
        RetargetedTail(Link(t), Parts(rest), other);
        RetargetedParts(rest, other[1..]);
        RenderCons(other[0], other[1..]);
        LinkStarts(other[0].target, Render(other[1..]));
      } else {
        PlainSplit(s);
        RetargetedTail(Plain(s[0]), Parts(s[1..]), other);
        RetargetedParts(s[1..], other[1..]);
        RenderCons(other[0], other[1..]);
        PlainStarts(s, other[1..]);
      }
    }
  }

  /** A character that starts no link starts none when later targets change. */
  lemma PlainStarts(s: string, other: seq<Part>)
    requires s != "" && !LinkAt(s) && Retargeted(Parts(s[1..]), other)
    ensures Parts([s[0]] + Render(other)) == [Plain(s[0])] + Parts(Render(other))
  {
    var t := [s[0]] + Render(other);
    assert t[1..] == Render(other);
    OpenStaysOpen(s[1..], other);
    if |s| >= 2 && s[0] == ']' && s[1] == '(' {
      var rest := s[1..];
      assert rest[1..] == s[2..];
      PlainSplit(rest);
      RetargetedTail(Plain('('), Parts(s[2..]), other);
      OpenStaysOpen(s[2..], other[1..]);
      RenderCons(other[0], other[1..]);
      assert t[2..] == Render(other[1..]);
    }
  }

  // ----- The laws -----

  lemma LinkSplit(s: string) returns (t: string, rest: string)
    requires LinkAt(s)
    ensures s == LinkText(t) + rest && ValidTarget(t) && |rest| < |s| && Parts(s) == [Link(t)] + Parts(rest)
  {
    hide IsSpace;
    var n := Run(s[2..]);
    t, rest := s[2..2 + n], s[3 + n..];
    assert s[2..][..n] == t;
  }

  lemma PlainSplit(s: string)
    requires s != "" && !LinkAt(s)
    ensures s == [s[0]] + s[1..] && Parts(s) == [Plain(s[0])] + Parts(s[1..])
  {
    hide IsSpace;
  }

  lemma {:induction false} PartsRender(s: string)
    ensures Render(Parts(s)) == s
    decreases |s|
  {
    if s != "" {
      hide LinkAt, Parts, Render, LinkText;
      if LinkAt(s) {
        var t, rest := LinkSplit(s);
        PartsRender(rest);
        RenderCons(Link(t), Parts(rest));
      } else {
        PlainSplit(s);
        PartsRender(s[1..]);
        RenderCons(Plain(s[0]), Parts(s[1..]));
      }
    }
  }

  lemma {:induction false} PartsValid(s: string)
    ensures forall i | 0 <= i < |Parts(s)| :: Parts(s)[i].Link? ==> ValidTarget(Parts(s)[i].target)
    decreases |s|
  {
    hide IsSpace;
    if s != "" {
      if LinkAt(s) {
        var n := Run(s[2..]);
        PartsValid(s[3 + n..]);
        assert s[2..][..n] == s[2..2 + n];
      } else {
        PartsValid(s[1..]);
      }
    }
  }

  lemma PartsOfText(s: string)
    ensures Render(Parts(s)) == s
    ensures forall i | 0 <= i < |Parts(s)| :: Parts(s)[i].Link? ==> ValidTarget(Parts(s)[i].target)
  {
    PartsRender(s);
    PartsValid(s);
  }

  lemma {:induction false} RefillRetargets(parts: seq<Part>, targets: seq<string>)
    requires forall i | 0 <= i < |parts| :: parts[i].Link? ==> ValidTarget(parts[i].target)
    requires forall t | t in targets :: ValidTarget(t)
    ensures Retargeted(parts, Refill(parts, targets))
  {
    hide ValidTarget;
    if parts != [] {
      var rest := if parts[0].Link? && targets != [] then targets[1..] else targets;
      RefillRetargets(parts[1..], rest);
      var all := Refill(parts, targets);
      assert all[1..] == Refill(parts[1..], rest);
      assert targets != [] ==> targets[0] in targets;
      forall i | 0 < i < |all| ensures all[i] == all[1..][i - 1] && parts[i] == parts[1..][i - 1] {}
    }
  }

  lemma {:induction false} RefillBlank(parts: seq<Part>, targets: seq<string>)
    ensures Blank(Refill(parts, targets)) == Blank(parts)
  {
    if parts != [] {
      var rest := if parts[0].Link? && targets != [] then targets[1..] else targets;
      RefillBlank(parts[1..], rest);
      assert Refill(parts, targets)[1..] == Refill(parts[1..], rest);
    }
  }

  /** The targets from the left over the link's own, as far as there are links. */
  function Overwritten(own: seq<string>, targets: seq<string>): seq<string> {
    if |targets| <= |own| then targets + own[|targets|..] else targets[..|own|]
  }

  lemma OverwrittenStep(x: string, own: seq<string>, t: string, targets: seq<string>)
    ensures Overwritten([x] + own, [t] + targets) == [t] + Overwritten(own, targets)
  {
  }

  lemma {:induction false} RefillTargets(parts: seq<Part>, targets: seq<string>)
    ensures TargetsOf(Refill(parts, targets)) == Overwritten(TargetsOf(parts), targets)
  {
    hide Overwritten;
    if parts == [] || targets == [] {
      RefillNone(parts, targets);
    } else {
      var more := parts[1..];
      assert parts == [parts[0]] + more;
      TargetsCons(parts[0], more);
      if parts[0].Link? {
        RefillTargets(more, targets[1..]);
        TargetsCons(Link(targets[0]), Refill(more, targets[1..]));
        OverwrittenStep(parts[0].target, TargetsOf(more), targets[0], targets[1..]);
        assert [targets[0]] + targets[1..] == targets;
      } else {
        RefillTargets(more, targets);
        TargetsCons(parts[0], Refill(more, targets));
      }
    }
  }

  lemma TargetsCons(p: Part, rest: seq<Part>)
    ensures TargetsOf([p] + rest) == if p.Link? then [p.target] + TargetsOf(rest) else TargetsOf(rest)
  {
    assert ([p] + rest)[1..] == rest;
  }

  lemma {:induction false} RefillNone(parts: seq<Part>, targets: seq<string>)
    requires parts == [] || targets == []
    ensures TargetsOf(Refill(parts, targets)) == Overwritten(TargetsOf(parts), targets)
    decreases parts
  {
    if parts != [] {
      RefillNone(parts[1..], targets);
      assert Refill(parts, targets)[1..] == Refill(parts[1..], targets);
    }
  }

  lemma {:induction false} BlankRetargets(parts: seq<Part>)
    ensures Retargeted(parts, Blank(parts)) && Blank(Blank(parts)) == Blank(parts)
  {
    if parts != [] {
      BlankRetargets(parts[1..]);
      var all := Blank(parts);
      assert all[1..] == Blank(parts[1..]);
      forall i | 0 < i < |all| ensures all[i] == all[1..][i - 1] && parts[i] == parts[1..][i - 1] {}
    }
  }

  lemma {:induction false} TargetsValid(parts: seq<Part>)
    requires forall i | 0 <= i < |parts| :: parts[i].Link? ==> ValidTarget(parts[i].target)
    ensures forall t | t in TargetsOf(parts) :: ValidTarget(t)
  {
    if parts != [] { TargetsValid(parts[1..]); }
  }

  /** The page's links are back in place, in order; a link too many keeps the translation's own; no word changes. */
  lemma LinksRestored(value: string, source: string)
    ensures var r := Refilled(value, Targets(source));
            var n, own := |Targets(source)|, Targets(value);
            && Targets(r) == (if n <= |own| then Targets(source) + own[n..] else Targets(source)[..|own|])
            && (n == |own| ==> Targets(r) == Targets(source))
            && Key(r) == Key(value)
  {
    hide Parts, Blank, Refill, Retargeted, Render, TargetsOf, ValidTarget;
    var parts, targets := Parts(value), Targets(source);
    PartsOfText(value);
    PartsOfText(source);
    TargetsValid(Parts(source));
    RefillRetargets(parts, targets);
    RefillBlank(parts, targets);
    RefillTargets(parts, targets);
    RetargetedParts(value, Refill(parts, targets));
    assert targets[..|targets|] == targets;
  }

  /** A key is its own key. */
  lemma KeyTwice(text: string)
    ensures Key(Key(text)) == Key(text)
  {
    BlankRetargets(Parts(text));
    RetargetedParts(text, Blank(Parts(text)));
  }

  /** A text put back into itself is unchanged. */
  lemma OwnTargets(text: string)
    ensures Refilled(text, Targets(text)) == text
  {
    PartsOfText(text);
    RefillOwn(Parts(text));
  }

  lemma {:induction false} RefillOwn(parts: seq<Part>)
    ensures Refill(parts, TargetsOf(parts)) == parts
  {
    if parts != [] {
      RefillOwn(parts[1..]);
      var targets := TargetsOf(parts);
      if parts[0].Link? {
        assert targets[1..] == TargetsOf(parts[1..]);
      } else {
        assert targets == TargetsOf(parts[1..]);
      }
      assert parts == [parts[0]] + parts[1..];
    }
  }
}
