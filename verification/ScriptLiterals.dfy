/** String literals safe inside an inline script: `JSON.stringify` with every closing script tag broken up. */
module ScriptLiterals {
  import opened Text

  const HEX := "0123456789abcdef"

  function HexDigit(n: nat): char
    requires n < 16
  {
    HEX[n]
  }

  /** The letter of a two-character escape. */
  function ShortEscape(c: char): Option<char> {
    if c == '\"' || c == '\\' then Some(c)
    else if c == '\U{8}' then Some('b')
    else if c == '\U{C}' then Some('f')
    else if c == '\n' then Some('n')
    else if c == '\r' then Some('r')
    else if c == '\t' then Some('t')
    else None
  }

  /** How `JSON.stringify` writes one character. */
  function Escape(c: char): (r: string)
    ensures r != ""
  {
    var short := ShortEscape(c);
    if short.Some? then ['\\', short.value]
    else if (c as int) < 0x20 then ['\\', 'u', '0', '0', HexDigit(c as int / 16), HexDigit(c as int % 16)]
    else [c]
  }

  function EscapeAll(s: string): string {
    if s == "" then "" else Escape(s[0]) + EscapeAll(s[1..])
  }

  const TAG := "script"

  /** Case-insensitive equality with a letter of TAG; under Unicode folding the long s is an s. */
  predicate Folds(c: char, letter: char)
    requires 'a' <= letter <= 'z'
  {
    c == letter || c as int == letter as int - 32 || (letter == 's' && c as int == 0x17F)
  }

  /** `/<\/script/iu` matches at the start. */
  predicate ClosesScript(s: string) {
    |s| >= 8 && s[0] == '<' && s[1] == '/' && forall k | 0 <= k < 6 :: Folds(s[2 + k], TAG[k])
  }

  /** The global replacement that puts a backslash into every match. */
  function BreakTags(s: string): string
    decreases |s|
  {
    if s == "" then ""
    else if ClosesScript(s) then "<\\/" + s[2..8] + BreakTags(s[8..])
    else [s[0]] + BreakTags(s[1..])
  }

  function JavascriptString(value: string): string {
    BreakTags("\"" + EscapeAll(value) + "\"")
  }

  // ----- Reading a literal back -----

  function HexValue(c: char): Option<nat> {
    if '0' <= c <= '9' then Some(c as int - '0' as int)
    else if 'a' <= c <= 'f' then Some(c as int - 'a' as int + 10)
    else None
  }

  /** The character an escape after its backslash stands for, and how long it is. */
  function ReadEscape(s: string): (r: Option<(char, nat)>)
    ensures r.Some? ==> 0 < r.value.1 <= |s|
  {
    if s == "" then None
    else if s[0] == 'u' then
      if |s| < 5 || s[1] != '0' || s[2] != '0' then None
      else
        var high, low := HexValue(s[3]), HexValue(s[4]);
        if high.None? || low.None? then None else Some(((high.value * 16 + low.value) as char, 5))
    else if s[0] == 'b' then Some(('\U{8}', 1))
    else if s[0] == 'f' then Some(('\U{C}', 1))
    else if s[0] == 'n' then Some(('\n', 1))
    else if s[0] == 'r' then Some(('\r', 1))
    else if s[0] == 't' then Some(('\t', 1))
    else if s[0] in "\"\\/" then Some((s[0], 1))
    else None
  }

  function Prefixed(p: string, r: Option<string>): Option<string> {
    if r.None? then None else Some(p + r.value)
  }

  /** The value of a literal whose opening quote has been read: it ends at the first bare quote, which must be last. */
  function ReadBody(s: string): (r: Option<string>)
    decreases |s|
  {
    if s == "" || s[0] == '\n' || s[0] == '\r' then None
    else if s[0] == '\"' then if |s| == 1 then Some("") else None
    else if s[0] != '\\' then Prefixed([s[0]], ReadBody(s[1..]))
    else
      var escape := ReadEscape(s[1..]);
      if escape.None? then None
      else Prefixed([escape.value.0], ReadBody(s[1 + escape.value.1..]))
  }

  function ReadLiteral(s: string): Option<string> {
    if s != "" && s[0] == '\"' then ReadBody(s[1..]) else None
  }

  // ----- Both steps at once -----

  /** The rest of the literal for the rest of the value, closing quote included. */
  function Body(value: string): string
    decreases |value|
  {
    if value == "" then "\""
    else if ClosesScript(value) then "<\\/" + value[2..8] + Body(value[8..])
    else Escape(value[0]) + Body(value[1..])
  }

  /** A character that is not escaped and starts no match. */
  predicate PlainChar(c: char) {
    c as int >= 0x20 && c != '\"' && c != '\\' && c != '<'
  }

  predicate PlainText(s: string) {
    forall i | 0 <= i < |s| :: PlainChar(s[i])
  }

  lemma EscapeOnePlain(c: char, rest: string)
    requires PlainChar(c)
    ensures EscapeAll([c] + rest) == [c] + EscapeAll(rest)
  {
    assert Escape(c) == [c];
    assert ([c] + rest)[1..] == rest;
  }

  lemma {:induction false} EscapePlain(s: string, rest: string)
    requires PlainText(s)
    ensures EscapeAll(s + rest) == s + EscapeAll(rest)
  {
    hide EscapeAll, PlainChar;
    if s == "" {
      assert s + rest == rest;
    } else {
      var tail := s[1..] + rest;
      EscapePlain(s[1..], rest);
      EscapeOnePlain(s[0], tail);
      assert s + rest == [s[0]] + tail;
      assert s == [s[0]] + s[1..];
    }
  }

  lemma {:induction false} BreakPlain(s: string, rest: string)
    requires forall i | 0 <= i < |s| :: s[i] != '<'
    ensures BreakTags(s + rest) == s + BreakTags(rest)
  {
    if s == "" {
      assert s + rest == rest;
    } else {
      assert (s + rest)[1..] == s[1..] + rest;
      BreakPlain(s[1..], rest);
    }
  }

  lemma ClosingIsPlain(s: string)
    requires ClosesScript(s)
    ensures PlainText(s[1..8])
  {
    forall i | 0 <= i < 7 ensures PlainChar(s[1..8][i]) {
      assert i > 0 ==> Folds(s[2 + (i - 1)], TAG[i - 1]);
    }
  }

  lemma EscapeHasNoBracket(c: char)
    requires c != '<'
    ensures forall i | 0 <= i < |Escape(c)| :: Escape(c)[i] != '<'
  {
  }

  lemma PlainIsItself(c: char)
    requires PlainChar(Escape(c)[0])
    ensures Escape(c) == [c]
  {
  }

  lemma EscapeCons(c: char, rest: string)
    ensures EscapeAll([c] + rest) == Escape(c) + EscapeAll(rest)
  {
    assert ([c] + rest)[1..] == rest;
  }

  lemma PlainCons(c: char, s: string)
    requires PlainText([c] + s)
    ensures PlainChar(c) && PlainText(s)
  {
    hide PlainChar;
    var t := [c] + s;
    assert t[0] == c;
    forall i | 0 <= i < |s| ensures PlainChar(s[i]) { assert t[i + 1] == s[i]; }
  }

  /** A leading run of plain characters survives escaping, and only such a run looks like one. */
  lemma {:induction false} PlainPrefix(value: string, tail: string, k: nat)
    requires PlainText(tail)
    requires k <= |EscapeAll(value) + tail| && PlainText((EscapeAll(value) + tail)[..k])
    ensures k <= |value + tail| && (value + tail)[..k] == (EscapeAll(value) + tail)[..k]
    decreases k
  {
    hide EscapeAll, Escape, PlainText, PlainChar;
    if value == "" {
      EscapeNothing();
    } else if k > 0 {
      var c, rest := value[0], value[1..];
      assert [c] + rest == value;
      EscapeCons(c, rest);
      var e := EscapeAll(rest) + tail;
      assert EscapeAll(value) + tail == Escape(c) + e;
      PlainFirst(Escape(c) + e, k);
      PlainIsItself(c);
      assert EscapeAll(value) + tail == [c] + e;
      assert ([c] + e)[..k] == [c] + e[..k - 1];
      PlainCons(c, e[..k - 1]);
      PlainPrefix(rest, tail, k - 1);
      assert (value + tail)[..k] == [c] + (rest + tail)[..k - 1];
    }
  }

  lemma EscapeNothing()
    ensures EscapeAll("") == ""
  {
  }

  lemma PlainFirst(s: string, k: nat)
    requires 0 < k <= |s| && PlainText(s[..k])
    ensures PlainChar(s[0])
  {
    hide PlainChar;
    assert s[..k][0] == s[0];
  }

  /** Escaping does not hide a closing tag at the start. */
  lemma ClosesAfterEscaping(value: string)
    requires ClosesScript(value)
    ensures EscapeAll(value) == value[..8] + EscapeAll(value[8..])
  {
    ClosingIsPlain(value);
    assert value[1..] == value[1..8] + value[8..];
    EscapePlain(value[1..8], value[8..]);
    assert Escape(value[0]) == "<";
  }

  /** Escaping does not make a closing tag at the start. */
  lemma ClosesBeforeEscaping(value: string)
    requires value != "" && ClosesScript(EscapeAll(value) + "\"")
    ensures ClosesScript(value)
  {
    var e := EscapeAll(value) + "\"";
    ClosingIsPlain(e);
    assert e[0] == Escape(value[0])[0];
    assert Escape(value[0]) == "<";
    var e' := EscapeAll(value[1..]);
    assert e == "<" + (e' + "\"");
    assert PlainChar(e[1..8][if |e'| < 7 then |e'| else 0]);
    assert (e' + "")[..7] == e[1..8];
    PlainPrefix(value[1..], "", 7);
    assert value[1..] + "" == value[1..];
    forall j | 1 <= j < 8 ensures value[j] == e[j] { assert value[j] == value[1..][..7][j - 1] == e[1..8][j - 1]; }
    forall k | 0 <= k < 6 ensures Folds(value[2 + k], TAG[k]) { assert value[2 + k] == e[2 + k]; }
  }

  lemma BodyOfClosing(value: string)
    requires ClosesScript(value)
    ensures BreakTags(EscapeAll(value) + "\"") == "<\\/" + value[2..8] + BreakTags(EscapeAll(value[8..]) + "\"")
  {
    var e := EscapeAll(value) + "\"";
    ClosesAfterEscaping(value);
    hide EscapeAll;
    assert e == value[..8] + (EscapeAll(value[8..]) + "\"");
    assert e[..8] == value[..8];
    forall k | 0 <= k < 6 ensures Folds(e[2 + k], TAG[k]) { assert e[2 + k] == e[..8][2 + k] == value[..8][2 + k]; }
    assert e[8..] == EscapeAll(value[8..]) + "\"";
    assert e[2..8] == value[2..8];
  }

  lemma BodyOfOther(value: string)
    requires value != "" && !ClosesScript(value)
    ensures BreakTags(EscapeAll(value) + "\"") == Escape(value[0]) + BreakTags(EscapeAll(value[1..]) + "\"")
  {
    var e := EscapeAll(value) + "\"";
    var more := EscapeAll(value[1..]) + "\"";
    if ClosesScript(e) { ClosesBeforeEscaping(value); }
    assert e == Escape(value[0]) + more;
    if value[0] == '<' {
      BreakBracket(e, more);
    } else {
      EscapeHasNoBracket(value[0]);
      hide EscapeAll, ClosesScript, Escape;
      BreakPlain(Escape(value[0]), more);
    }
  }

  lemma BreakBracket(e: string, more: string)
    requires e == Escape('<') + more && !ClosesScript(e)
    ensures BreakTags(e) == Escape('<') + BreakTags(more)
  {
    hide ClosesScript;
    assert Escape('<') == ['<'] && e[1..] == more;
  }

  lemma {:induction false} BodyExact(value: string)
    ensures BreakTags(EscapeAll(value) + "\"") == Body(value)
    decreases |value|
  {
    if value == "" {
      var e := EscapeAll(value) + "\"";
      assert e == "\"" && e[1..] == "";
    } else {
      hide EscapeAll, BreakTags, ClosesScript, Escape;
      if ClosesScript(value) {
        ClosingIsLong(value);
        BodyOfClosing(value);
        BodyExact(value[8..]);
      } else {
        BodyOfOther(value);
        BodyExact(value[1..]);
      }
    }
  }

  lemma ClosingIsLong(s: string)
    requires ClosesScript(s)
    ensures |s| >= 8
  {
  }

  lemma LiteralIsBody(value: string)
    ensures JavascriptString(value) == "\"" + Body(value)
  {
    assert "\"" + EscapeAll(value) + "\"" == "\"" + (EscapeAll(value) + "\"");
    BreakPlain("\"", EscapeAll(value) + "\"");
    BodyExact(value);
  }

  lemma ReadsOne(c: char, rest: string)
    ensures ReadBody(Escape(c) + rest) == Prefixed([c], ReadBody(rest))
  {
    var s := Escape(c) + rest;
    var n := |Escape(c)|;
    assert s[n..] == rest;
    if s[0] == '\\' {
      EscapeRead(c, rest);
      hide Escape, ReadEscape;
      assert s[1..] == Escape(c)[1..] + rest;
      assert s[1 + (n - 1)..] == rest;
    } else {
      assert Escape(c) == [c];
    }
  }

  lemma HexRead(v: nat)
    requires v < 16
    ensures HexValue(HexDigit(v)) == Some(v)
  {
  }

  /** An escape stands for its character. */
  lemma EscapeRead(c: char, rest: string)
    requires Escape(c)[0] == '\\'
    ensures ReadEscape(Escape(c)[1..] + rest) == Some((c, |Escape(c)| - 1))
  {
    var t := Escape(c)[1..] + rest;
    if |Escape(c)| == 6 {
      var v := c as int;
      HexRead(v / 16);
      HexRead(v % 16);
      hide HexValue, HexDigit;
      assert t[0] == 'u' && t[1] == '0' && t[2] == '0' && t[3] == HexDigit(v / 16) && t[4] == HexDigit(v % 16);
    } else {
      assert t[0] == ShortEscape(c).value;
    }
  }

  lemma {:induction false} ReadsPlain(s: string, rest: string)
    requires PlainText(s)
    ensures ReadBody(s + rest) == Prefixed(s, ReadBody(rest))
  {
    var tail := ReadBody(rest);
    if s == "" {
      assert s + rest == rest;
      if tail.Some? { assert s + tail.value == tail.value; }
    } else {
      assert (s + rest)[1..] == s[1..] + rest;
      assert PlainChar(s[0]);
      ReadsPlain(s[1..], rest);
      if tail.Some? { assert [s[0]] + (s[1..] + tail.value) == s + tail.value; }
    }
  }

  /** An escaped slash behind an opening angle bracket. */
  lemma ReadsSlash(rest: string)
    ensures ReadBody("<\\/" + rest) == Prefixed("<", Prefixed("/", ReadBody(rest)))
  {
    var escaped := "\\/" + rest;
    assert escaped[1..] == "/" + rest;
    assert ReadEscape(escaped[1..]) == Some(('/', 1));
    assert escaped[2..] == rest;
    assert ReadBody(escaped) == Prefixed("/", ReadBody(rest));
    var s := "<\\/" + rest;
    assert s[1..] == escaped;
  }

  lemma ClosingParts(value: string)
    requires ClosesScript(value)
    ensures |value| >= 8 && value == "</" + (value[2..8] + value[8..]) && PlainText(value[2..8])
  {
    ClosingIsPlain(value);
    hide ClosesScript, PlainChar;
    assert value[2..8] == value[1..8][1..];
    assert value[0..2] == "</" by { OpensClosing(value); }
  }

  lemma OpensClosing(value: string)
    requires ClosesScript(value)
    ensures |value| >= 8 && value[0] == '<' && value[1] == '/'
  {
  }

  lemma ReadsBroken(value: string)
    requires ClosesScript(value) && ReadBody(Body(value[8..])) == Some(value[8..])
    ensures ReadBody("<\\/" + value[2..8] + Body(value[8..])) == Some(value)
  {
    hide ReadBody, Body, ClosesScript, PlainText;
    ClosingParts(value);
    var tag, rest := value[2..8], Body(value[8..]);
    ReadsPlain(tag, rest);
    ReadsSlash(tag + rest);
    assert "<\\/" + tag + rest == "<\\/" + (tag + rest);
    assert "<" + ("/" + (tag + value[8..])) == "</" + (tag + value[8..]);
  }

  lemma {:induction false} BodyReads(value: string)
    ensures ReadBody(Body(value)) == Some(value)
    decreases |value|
  {
    if value == "" {
    } else if ClosesScript(value) {
      BodyReads(value[8..]);
      ReadsBroken(value);
    } else {
      BodyReads(value[1..]);
      ReadsOne(value[0], Body(value[1..]));
      assert value == [value[0]] + value[1..];
    }
  }

  /** No closing tag begins in a broken up one. */
  lemma BrokenNeverCloses(value: string, i: nat)
    requires ClosesScript(value) && i < 9
    ensures Body(value) == "<\\/" + value[2..8] + Body(value[8..])
    ensures !ClosesScript(Body(value)[i..])
  {
    var s := Body(value);
    ClosingIsPlain(value);
    hide Body;
    assert s == "<\\/" + value[2..8] + Body(value[8..]) by { BodyBroken(value); }
    if i >= 3 { assert s[i] == value[i - 1] == value[1..8][i - 2]; }
  }

  lemma BodyBroken(value: string)
    requires ClosesScript(value)
    ensures Body(value) == "<\\/" + value[2..8] + Body(value[8..])
  {
  }

  lemma BodyOther(value: string)
    requires value != "" && !ClosesScript(value)
    ensures Body(value) == Escape(value[0]) + Body(value[1..])
  {
  }

  lemma BracketIsItself()
    ensures Escape('<') == "<"
  {
  }

  lemma BracketFirst(a: string, b: string, i: nat)
    requires i < |a| && forall j | 0 <= j < |a| :: a[j] != '<'
    ensures !ClosesScript((a + b)[i..])
  {
    assert (a + b)[i..][0] == a[i];
  }

  /** No closing tag begins in an escaped character. */
  lemma EscapedNeverCloses(value: string, i: nat)
    requires value != "" && !ClosesScript(value) && i < |Escape(value[0])|
    ensures !ClosesScript(Body(value)[i..])
  {
    hide Body, Escape, ClosesScript;
    BodyOther(value);
    if value[0] == '<' {
      BracketIsItself();
      assert i == 0 && Body(value)[i..] == "<" + Body(value[1..]);
      if ClosesScript("<" + Body(value[1..])) { BodyOpens(value); }
    } else {
      EscapeHasNoBracket(value[0]);
      BracketFirst(Escape(value[0]), Body(value[1..]), i);
    }
  }

  /** No closing tag begins anywhere in the rest of a literal. */
  lemma {:induction false} BodyNeverCloses(value: string, i: nat)
    requires i <= |Body(value)|
    ensures !ClosesScript(Body(value)[i..])
    decreases |value|
  {
    if value != "" {
      var s := Body(value);
      if ClosesScript(value) {
        BodyBroken(value);
        hide Body, Escape, ClosesScript;
        if i < 9 {
          BrokenNeverCloses(value, i);
        } else {
          ClosingIsLong(value);
          assert s[i..] == Body(value[8..])[i - 9..];
          BodyNeverCloses(value[8..], i - 9);
        }
      } else {
        var n := |Escape(value[0])|;
        BodyOther(value);
        hide Body, Escape, ClosesScript;
        if i < n {
          EscapedNeverCloses(value, i);
        } else {
          assert s[i..] == Body(value[1..])[i - n..];
          BodyNeverCloses(value[1..], i - n);
        }
      }
    }
  }

  /** A closing tag seen across a bare `<` was already there in the value. */
  lemma BodyOpens(value: string)
    requires value != "" && value[0] == '<' && ClosesScript("<" + Body(value[1..]))
    ensures ClosesScript(value)
  {
    var s := "<" + Body(value[1..]);
    ClosingIsPlain(s);
    assert Body(value[1..])[..7] == s[1..8];
    BodyPrefix(value[1..], 7);
    forall j | 1 <= j < 8 ensures value[j] == s[j] {
      assert value[j] == value[1..][..7][j - 1] == s[1..8][j - 1];
    }
    forall k | 0 <= k < 6 ensures Folds(value[2 + k], TAG[k]) { assert value[2 + k] == s[2 + k]; }
  }

  /** What begins with a plain character is a plain character and the rest. */
  lemma BodyPlain(value: string)
    requires PlainChar(Body(value)[0])
    ensures value != "" && Body(value) == [value[0]] + Body(value[1..])
  {
  }

  lemma {:induction false} BodyPrefix(value: string, k: nat)
    requires k <= |Body(value)| && PlainText(Body(value)[..k])
    ensures k <= |value| && value[..k] == Body(value)[..k]
    decreases k
  {
    hide Body, PlainText, PlainChar;
    if k > 0 {
      PlainFirst(Body(value), k);
      BodyPlain(value);
      var c, t := value[0], Body(value[1..]);
      assert ([c] + t)[..k] == [c] + t[..k - 1];
      PlainCons(c, t[..k - 1]);
      BodyPrefix(value[1..], k - 1);
      assert value[..k] == [c] + value[1..][..k - 1];
    }
  }

  /** The literal denotes the value it was made from. */
  lemma LiteralRoundTrip(value: string)
    ensures ReadLiteral(JavascriptString(value)) == Some(value)
  {
    LiteralIsBody(value);
    assert JavascriptString(value)[1..] == Body(value);
    BodyReads(value);
  }

  /** No closing script tag, in any case, occurs anywhere in the literal. */
  lemma LiteralNeverCloses(value: string, i: nat)
    requires i <= |JavascriptString(value)|
    ensures !ClosesScript(JavascriptString(value)[i..])
  {
    LiteralIsBody(value);
    if i > 0 {
      assert JavascriptString(value)[i..] == Body(value)[i - 1..];
      BodyNeverCloses(value, i - 1);
    }
  }
}
