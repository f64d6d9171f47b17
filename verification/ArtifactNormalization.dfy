/** The document-level contract of a finished artifact, and why normalizing twice changes nothing. */
module ArtifactNormalization {
  import opened Text
  import opened ArtifactScan

  datatype Failure = NoArtifact | NoClosingTag | WrongRoot | WrongScriptCount | UnclosedScript | HasCdata

  /** How many times `p` occurs from `from` on when an occurrence is looked for behind the end of the last one. */
  function Stepping(s: string, p: string, from: nat): nat
    requires p != ""
    decreases |s| - from
  {
    if from >= |s| || IndexOf(s, p, from) == -1 then 0 else 1 + Stepping(s, p, IndexOf(s, p, from) + |p|)
  }

  method CountOccurrences(source: string, value: string) returns (count: nat)
    requires value != ""
    ensures count == Stepping(source, value, 0)
  {
    hide At;
    var offset := 0;
    count := 0;
    while offset < |source|
      invariant count + Stepping(source, value, offset) == Stepping(source, value, 0)
      decreases |source| - offset
    {
      var next := IndexOf(source, value, offset);
      if next == -1 { break; }
      count := count + 1;
      offset := next + |value|;
    }
  }

  /** All offsets at which `p` occurs. */
  function Offsets(s: string, p: string, from: nat): set<nat> {
    set i: nat | from <= i <= |s| && At(s, p, i)
  }

  /** The first character of `p` does not come again in `p`, so occurrences cannot overlap. */
  predicate Unbordered(p: string) {
    p != "" && forall k | 0 < k < |p| :: p[k] != p[0]
  }

  /** No occurrence begins inside another one. */
  lemma NoOverlap(s: string, p: string, next: nat, i: nat)
    requires Unbordered(p) && At(s, p, next) && next < i < next + |p|
    ensures !At(s, p, i)
  {
    CharacterAt(s, p, next, i - next);
    if i + |p| <= |s| { assert s[i..i + |p|][0] == s[i]; }
  }

  /** The first occurrence, and no other before its end. */
  lemma OffsetsStep(s: string, p: string, from: nat, next: nat)
    requires Unbordered(p) && next == IndexOf(s, p, from)
    ensures Offsets(s, p, from) == {next} + Offsets(s, p, next + |p|)
  {
    forall i: nat | next < i < next + |p| ensures !At(s, p, i) { NoOverlap(s, p, next, i); }
    hide IndexOf, Unbordered;
  }

  lemma NoOffsets(s: string, p: string, from: nat)
    requires p != "" && (from >= |s| || IndexOf(s, p, from) == -1)
    ensures Offsets(s, p, from) == {}
  {
    hide IndexOf;
  }

  /** Stepping over whole occurrences misses none. */
  lemma {:induction false} SteppingCountsAll(s: string, p: string, from: nat)
    requires Unbordered(p)
    ensures Stepping(s, p, from) == |Offsets(s, p, from)|
    decreases |s| - from
  {
    hide IndexOf, Offsets, At;
    var next := IndexOf(s, p, from);
    if from >= |s| || next == -1 {
      NoOffsets(s, p, from);
    } else {
      SteppingCountsAll(s, p, next + |p|);
      OffsetsStep(s, p, from, next);
      NotThere(s, p, next);
    }
  }

  lemma NotThere(s: string, p: string, next: nat)
    requires p != ""
    ensures next !in Offsets(s, p, next + |p|)
  {
  }

  const ROOT_START := "<lynx engine-version=\""

  /** `/^<lynx engine-version="[^"]+">/` at the start of `s`. */
  predicate VersionedRoot(s: string) {
    At(s, ROOT_START, 0)
    && var end := IndexOf(s, "\"", |ROOT_START|);
       end > |ROOT_START| && end + 1 < |s| && s[end + 1] == '>'
  }

  const CDATA := "<![CDATA["

  predicate EndsWith(s: string, p: string) {
    |p| <= |s| && At(s, p, |s| - |p|)
  }

  /** The artifact, or the first thing wrong with it. */
  function NormalizeLynxXmlArtifact(value: string): Result<string, Failure> {
    var source := ExtractLynxXmlArtifact(value);
    if source == "" then Err(NoArtifact)
    else if !EndsWith(source, ROOT_END) then Err(NoClosingTag)
    else if |source| < |DOCTYPE| || !VersionedRoot(TrimStart(source[|DOCTYPE|..])) then Err(WrongRoot)
    else if Stepping(source, MAIN_SCRIPT, 0) != 1 then Err(WrongScriptCount)
    else if IndexOf(source, "</script>", IndexOf(source, MAIN_SCRIPT, 0) + |MAIN_SCRIPT|) == -1 then Err(UnclosedScript)
    else if IndexOf(source, CDATA, 0) != -1 then Err(HasCdata)
    else Ok(source)
  }

  lemma ExtractBegins(value: string)
    requires |ExtractLynxXmlArtifact(value)| >= |DOCTYPE|
    ensures At(ExtractLynxXmlArtifact(value), DOCTYPE, 0)
  {
    hide IndexOf, LastIndexOf, FirstRoot, TrimEnd, DOCTYPE, ROOT_END;
    var start := IndexOf(value, DOCTYPE, 0);
    var s := ExtractLynxXmlArtifact(value);
    if start >= 0 {
      var end := LastIndexOf(value, ROOT_END);
      var slice := value[start..if end >= start then end + |ROOT_END| else |value|];
      assert s[0..|DOCTYPE|] == slice[0..|DOCTYPE|] == value[start..start + |DOCTYPE|];
    } else if FirstRoot(value, 0) >= 0 {
      assert s[0..|DOCTYPE|] == DOCTYPE;
    }
  }

  lemma MainScriptUnbordered()
    ensures Unbordered(MAIN_SCRIPT)
  {
  }

  /** What normalization accepts it leaves alone from then on, and that holds exactly one main script tag. */
  lemma NormalizedTwice(value: string)
    requires NormalizeLynxXmlArtifact(value).Ok?
    ensures var s := NormalizeLynxXmlArtifact(value).value;
            NormalizeLynxXmlArtifact(s) == Ok(s) && |Offsets(s, MAIN_SCRIPT, 0)| == 1
  {
    hide ExtractLynxXmlArtifact, IndexOf, Stepping, VersionedRoot, DOCTYPE, MAIN_SCRIPT, CDATA, Unbordered, Offsets;
    var s := ExtractLynxXmlArtifact(value);
    ExtractBegins(value);
    ExtractsItself(s);
    MainScriptUnbordered();
    SteppingCountsAll(s, MAIN_SCRIPT, 0);
  }

  // ----- What is extracted, and what is accepted -----

  ghost predicate Contains(s: string, p: string) {
    exists i: nat :: At(s, p, i)
  }

  predicate Wordlike(c: char) {
    c == '_' || '0' <= c <= '9' || 'A' <= c <= 'Z' || 'a' <= c <= 'z'
  }

  predicate RootBegins(s: string, i: nat) {
    At(s, "<lynx", i) && (i + 5 < |s| ==> !Wordlike(s[i + 5]))
  }

  /** The document starts at the first doctype, and without one at the first root tag. */
  ghost predicate Starts(value: string, i: nat) {
    if Contains(value, "<!doctype lynx>")
    then At(value, "<!doctype lynx>", i) && forall j: nat | j < i :: !At(value, "<!doctype lynx>", j)
    else RootBegins(value, i) && forall j: nat | j < i :: !RootBegins(value, j)
  }

  /** It ends behind the last closing tag, and without one behind its start at the end of the text. */
  ghost predicate Ends(value: string, start: nat, end: nat) {
    if exists k: nat :: start <= k && At(value, "</lynx>", k)
    then start + 7 <= end && At(value, "</lynx>", end - 7) && forall k: nat | end - 7 < k :: !At(value, "</lynx>", k)
    else end == |value|
  }

  /** What `trimEnd` leaves. */
  ghost predicate TrimmedEnd(s: string, r: string) {
    (r == "" || !IsSpace(r[|r| - 1])) && exists trail :: s == r + trail && AllSpace(trail)
  }

  /** The document in a text, with the doctype put in front of one that has none. */
  ghost predicate Extracted(value: string, s: string) {
    if exists i :: Starts(value, i) then
      exists start: nat, end: nat, r ::
        && Starts(value, start) && Ends(value, start, end) && start <= end <= |value|
        && TrimmedEnd(value[start..end], r)
        && s == (if Contains(value, "<!doctype lynx>") then r else "<!doctype lynx>" + "\n" + r)
    else s == ""
  }

  /** The texts that are looked for. */
  lemma Spelled()
    ensures DOCTYPE == "<!doctype lynx>" && |DOCTYPE| == 15 && ROOT_END == "</lynx>" && |ROOT_END| == 7
    ensures MAIN_SCRIPT == "<script thread=\"main\">" && |MAIN_SCRIPT| == 22 && CDATA == "<![CDATA["
    ensures ROOT_START == "<lynx engine-version=\"" && ROOT_START[0] == '<'
  {
  }

  lemma FoundExact(s: string, p: string)
    ensures Contains(s, p) <==> IndexOf(s, p, 0) != -1
    ensures Contains(s, p) ==> var i := IndexOf(s, p, 0); At(s, p, i) && forall j: nat | j < i :: !At(s, p, j)
  {
    hide At;
  }

  lemma RootBeginsExact(s: string, i: nat)
    ensures RootOpens(s, i) <==> RootBegins(s, i)
  {
  }

  lemma {:induction false} FirstRootExact(s: string, from: nat)
    ensures var i := FirstRoot(s, from);
            && (i == -1 ==> forall j: nat | from <= j :: !RootBegins(s, j))
            && (i != -1 ==> RootBegins(s, i) && forall j: nat | from <= j < i :: !RootBegins(s, j))
    decreases |s| - from
  {
    if from < |s| {
      hide RootBegins, RootOpens;
      RootBeginsExact(s, from);
      FirstRootExact(s, from + 1);
    }
  }

  lemma {:induction false} LastFromMeets(s: string, p: string, from: nat)
    ensures var i := LastFrom(s, p, from);
            && (i == -1 ==> forall j: nat | j <= from :: !At(s, p, j))
            && (i != -1 ==> At(s, p, i) && forall j: nat | i < j <= from :: !At(s, p, j))
  {
    hide At;
    if !At(s, p, from) && from > 0 { LastFromMeets(s, p, from - 1); }
  }

  lemma EndsExact(value: string, start: nat)
    requires start <= |value|
    ensures var last := LastIndexOf(value, ROOT_END);
            var end := if last >= start then last + |ROOT_END| else |value|;
            Ends(value, start, end) && start <= end <= |value|
  {
    Spelled();
    LastFromMeets(value, ROOT_END, |value|);
    var last := LastIndexOf(value, ROOT_END);
    if last >= start { assert At(value, ROOT_END, last + |ROOT_END| - 7); }
  }

  lemma StartsExact(value: string)
    ensures var doctype := IndexOf(value, DOCTYPE, 0);
            var start := if doctype >= 0 then doctype else FirstRoot(value, 0);
            && (doctype >= 0 <==> Contains(value, "<!doctype lynx>"))
            && (start < 0 ==> !exists i :: Starts(value, i))
            && (start >= 0 ==> Starts(value, start) && start <= |value|)
  {
    hide RootBegins, FirstRoot, IndexOf, DOCTYPE;
    Spelled();
    FoundExact(value, DOCTYPE);
    FirstRootExact(value, 0);
  }

  lemma TrimmedEndExact(s: string)
    ensures TrimmedEnd(s, TrimEnd(s))
  {
    hide IsSpace, AllSpace, TrimEnd;
    assert s == TrimEnd(s) + s[|TrimEnd(s)|..];
  }

  lemma ExtractedShape(value: string, start: nat, end: nat, artifact: string, s: string)
    requires Starts(value, start) && Ends(value, start, end) && start <= end <= |value|
    requires TrimmedEnd(value[start..end], artifact)
    requires s == if Contains(value, "<!doctype lynx>") then artifact else "<!doctype lynx>" + "\n" + artifact
    ensures Extracted(value, s)
  {
    hide Starts, Ends, Contains, TrimmedEnd;
  }

  /** Exactly the document in the text is extracted. */
  lemma ExtractExact(value: string)
    ensures Extracted(value, ExtractLynxXmlArtifact(value))
  {
    hide At, FirstRoot, IndexOf, LastIndexOf, Starts, Ends, Contains, TrimEnd, TrimmedEnd, DOCTYPE, ROOT_END;
    Spelled();
    StartsExact(value);
    var doctype := IndexOf(value, DOCTYPE, 0);
    var start := if doctype >= 0 then doctype else FirstRoot(value, 0);
    if start >= 0 {
      EndsExact(value, start);
      var last := LastIndexOf(value, ROOT_END);
      var end := if last >= start then last + |ROOT_END| else |value|;
      TrimmedEndExact(value[start..end]);
      ExtractedShape(value, start, end, TrimEnd(value[start..end]), ExtractLynxXmlArtifact(value));
    }
  }

  // ----- What is accepted -----

  /** A script element for the main thread that is closed somewhere behind its tag. */
  ghost predicate ScriptCloses(s: string) {
    exists i: nat, j: nat :: At(s, "<script thread=\"main\">", i) && At(s, "</script>", j) && i + 22 <= j
  }

  /** What is wrong with the extracted text. */
  ghost predicate Faulty(s: string, failure: Failure) {
    match failure
    case NoArtifact => s == ""
    case NoClosingTag => !exists body :: s == body + "</lynx>"
    case WrongRoot => !Rooted(s)
    case WrongScriptCount => |Offsets(s, "<script thread=\"main\">", 0)| != 1
    case UnclosedScript => !ScriptCloses(s)
    case HasCdata => Contains(s, "<![CDATA[")
  }

  const FAILURES := [NoArtifact, NoClosingTag, WrongRoot, WrongScriptCount, UnclosedScript, HasCdata]

  lemma EndsWithExact(s: string, p: string)
    ensures EndsWith(s, p) <==> exists body :: s == body + p
  {
    if EndsWith(s, p) { assert s == s[..|s| - |p|] + p; }
    if body :| s == body + p { assert s[|body|..|body| + |p|] == p; }
  }

  /** What the root begins with, version and all. */
  ghost predicate Versioned(s: string) {
    exists version, rest :: version != "" && '"' !in version && s == Tag(version, rest)
  }

  function Tag(version: string, rest: string): string {
    "<lynx engine-version=\"" + (version + ("\">" + rest))
  }

  lemma QuoteAt(s: string, i: nat)
    ensures At(s, "\"", i) <==> i < |s| && s[i] == '"'
  {
    if i < |s| { assert s[i..i + 1] == [s[i]]; }
  }

  lemma QuoteEnds(s: string, end: nat)
    requires end + 1 < |s| && s[end] == '"' && s[end + 1] == '>'
    ensures s[end..] == "\">" + s[end + 2..]
  {
  }

  lemma ThreeParts(s: string, n: nat, end: nat)
    requires n <= end <= |s|
    ensures s == s[..n] + (s[n..end] + s[end..])
  {
  }

  lemma NoQuote(s: string, n: nat, end: nat)
    requires n <= end <= |s| && forall j: nat | n <= j < end :: !At(s, "\"", j)
    ensures '"' !in s[n..end]
  {
    hide At;
    forall j | n <= j < end ensures s[j] != '"' { QuoteAt(s, j); }
  }

  lemma VersionedFound(s: string)
    requires VersionedRoot(s)
    ensures Versioned(s)
  {
    hide At, ROOT_START;
    Spelled();
    var n := |ROOT_START|;
    var end := IndexOf(s, "\"", n);
    QuoteAt(s, end);
    NoQuote(s, n, end);
    AtStart(s, ROOT_START);
    QuoteEnds(s, end);
    ThreeParts(s, n, end);
    assert s == Tag(s[n..end], s[end + 2..]);
  }

  lemma AtStart(s: string, p: string)
    ensures At(s, p, 0) <==> p <= s
    ensures At(s, p, 0) ==> s[..|p|] == p
  {
  }

  lemma VersionedMatches(version: string, rest: string)
    requires version != "" && '"' !in version
    ensures VersionedRoot(Tag(version, rest))
  {
    hide At, ROOT_START;
    Spelled();
    var s := Tag(version, rest);
    var n := |ROOT_START|;
    AtStart(s, ROOT_START);
    var end := n + |version|;
    assert s[end] == '"' && s[end + 1] == '>';
    QuoteAt(s, end);
    forall j: nat | n <= j < end ensures !At(s, "\"", j) {
      assert s[j] == version[j - n] && version[j - n] in version;
      QuoteAt(s, j);
    }
    IndexOfUnique(s, "\"", n, end);
  }

  lemma VersionedExact(s: string)
    ensures VersionedRoot(s) <==> Versioned(s)
  {
    hide VersionedRoot, Tag;
    if VersionedRoot(s) { VersionedFound(s); }
    if Versioned(s) {
      var version, rest :| version != "" && '"' !in version && s == Tag(version, rest);
      VersionedMatches(version, rest);
    }
  }

  /** What an artifact begins with: the doctype, white space perhaps, and the root with its version. */
  ghost predicate Rooted(s: string) {
    exists gap, root :: s == "<!doctype lynx>" + (gap + root) && AllSpace(gap) && Versioned(root)
  }

  lemma RootedFound(s: string)
    requires |s| >= 15 && At(s, "<!doctype lynx>", 0) && VersionedRoot(TrimStart(s[15..]))
    ensures Rooted(s)
  {
    hide AllSpace, SkipSpace, VersionedRoot, Versioned;
    var tail := s[15..];
    var k := SkipSpace(tail, 0);
    VersionedExact(tail[k..]);
    AtStart(s, "<!doctype lynx>");
    assert tail == tail[0..k] + tail[k..];
    assert s == "<!doctype lynx>" + (tail[0..k] + tail[k..]);
  }

  lemma VersionedSolid(root: string)
    requires Versioned(root)
    ensures root != "" && !IsSpace(root[0])
  {
  }

  lemma RootedMatches(gap: string, root: string)
    requires AllSpace(gap) && Versioned(root)
    ensures VersionedRoot(TrimStart(gap + root))
  {
    hide AllSpace, SkipSpace, VersionedRoot, Versioned, IsSpace;
    VersionedSolid(root);
    SkipSpaceExact(gap, root);
    assert (gap + root)[|gap|..] == root;
    VersionedExact(root);
  }

  lemma RootedExact(s: string)
    requires At(s, "<!doctype lynx>", 0) || |s| < 15
    ensures Rooted(s) <==> |s| >= 15 && VersionedRoot(TrimStart(s[15..]))
  {
    hide AllSpace, TrimStart, VersionedRoot, Versioned;
    if |s| >= 15 && VersionedRoot(TrimStart(s[15..])) { RootedFound(s); }
    if Rooted(s) {
      var gap, root :| s == "<!doctype lynx>" + (gap + root) && AllSpace(gap) && Versioned(root);
      assert s[15..] == gap + root;
      RootedMatches(gap, root);
    }
  }

  /** With one script tag it is the one found. */
  lemma ClosesExact(s: string)
    requires Stepping(s, MAIN_SCRIPT, 0) == 1
    ensures ScriptCloses(s) <==> IndexOf(s, "</script>", IndexOf(s, MAIN_SCRIPT, 0) + 22) != -1
  {
    hide At, IndexOf;
    var i := IndexOf(s, MAIN_SCRIPT, 0);
    assert i != -1;
    var j := IndexOf(s, "</script>", i + 22);
    FoundExact(s, MAIN_SCRIPT);
    if ScriptCloses(s) {
      var i': nat, j': nat :| At(s, MAIN_SCRIPT, i') && At(s, "</script>", j') && i' + 22 <= j';
      assert i <= i';
    }
  }

  /**
   * Acceptance, told by occurrences in the extracted text: it is returned exactly when nothing is wrong with it, and
   * otherwise the first thing wrong is reported.
   */
  lemma NormalizeExact(value: string)
    ensures var s := ExtractLynxXmlArtifact(value);
            match NormalizeLynxXmlArtifact(value)
            case Ok(r) => r == s && forall k | 0 <= k < |FAILURES| :: !Faulty(s, FAILURES[k])
            case Err(f) => exists k :: 0 <= k < |FAILURES| && FAILURES[k] == f && Faulty(s, f)
                                       && forall m | 0 <= m < k :: !Faulty(s, FAILURES[m])
  {
    hide IndexOf, Stepping, VersionedRoot, Rooted, ScriptCloses, Contains, EndsWith, At, Offsets, Unbordered;
    hide ExtractLynxXmlArtifact, TrimStart;
    var s := ExtractLynxXmlArtifact(value);
    if |s| >= 15 { ExtractBegins(value); }
    EndsWithExact(s, "</lynx>");
    RootedExact(s);
    MainScriptUnbordered();
    SteppingCountsAll(s, MAIN_SCRIPT, 0);
    if Stepping(s, MAIN_SCRIPT, 0) == 1 { ClosesExact(s); }
    FoundExact(s, CDATA);
    var r := NormalizeLynxXmlArtifact(value);
    if r.Err? {
      var k := Place(r.error);
      assert FAILURES[k] == r.error;
    }
  }

  function Place(failure: Failure): nat {
    match failure
    case NoArtifact => 0
    case NoClosingTag => 1
    case WrongRoot => 2
    case WrongScriptCount => 3
    case UnclosedScript => 4
    case HasCdata => 5
  }
}
