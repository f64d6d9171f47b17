/** The hooked profiler: nested profiles bracket at most one benchmark, that of the outermost one that counts. */
module Profiler {
  import opened Text

  /** `None` is `undefined`. */
  type Name = Option<string>

  const MARKER: Name := Some("__IGNORED__")
  const UNDEFINED := "undefined"

  predicate StartsWith(s: string, p: string) {
    At(s, p, 0)
  }

  predicate ShouldIgnoreBenchmark(name: Name) {
    || name.None?
    || name.value == ""
    || name.value == "ReactLynx::commit"
    || name.value == "ReactLynx::commitChanges"
    || name.value == "ReactLynx::BSI::setAttribute"
    || StartsWith(name.value, "OnLifecycleEvent::")
    || StartsWith(name.value, "ReactLynx::diff::")
    || StartsWith(name.value, "ReactLynx::render::")
  }

  /** The property name a name is looked up by. */
  function PropertyOf(name: Name): string {
    if name.None? then UNDEFINED else name.value
  }

  /** `Unlabelled` is a stop whose label cannot be made. */
  datatype Call = Started | Stopped(name: string) | Unlabelled

  datatype State = State(ignored: map<string, bool>, stack: seq<Name>, depth: int, calls: seq<Call>)

  const START := State(map[], [], 0, [])

  /** `ignored[name] ??= ...`; a property that every object inherits reads as something truthy. */
  function Verdict(s: State, name: Name, inherited: string -> bool): bool {
    var p := PropertyOf(name);
    if p in s.ignored then s.ignored[p] else inherited(p) || ShouldIgnoreBenchmark(name)
  }

  function Remembered(s: State, name: Name, inherited: string -> bool): map<string, bool> {
    var p := PropertyOf(name);
    if p in s.ignored || inherited(p) then s.ignored else s.ignored[p := ShouldIgnoreBenchmark(name)]
  }

  function Begin(s: State, name: Name, inherited: string -> bool): State {
    var t := s.(ignored := Remembered(s, name, inherited));
    if Verdict(s, name, inherited) then t.(stack := s.stack + [MARKER])
    else t.(stack := s.stack + [name], depth := s.depth + 1,
            calls := s.calls + (if s.depth + 1 > 1 then [] else [Started]))
  }

  /** The hook's end; it throws when it has to label a benchmark and there is no name. */
  function Finish(s: State): Result<State, ()> {
    var name := if s.stack == [] then None else s.stack[|s.stack| - 1];
    var t := s.(stack := if s.stack == [] then [] else s.stack[..|s.stack| - 1]);
    if name == MARKER then Ok(t)
    else if s.depth > 1 then Ok(t.(depth := s.depth - 1))
    else if name.None? then Err(())
    else Ok(t.(depth := s.depth - 1, calls := s.calls + [Stopped(name.value)]))
  }

  /** What the end hook leaves behind when it throws: the entry is gone, the benchmark stopped, but the depth stays. */
  function Thrown(s: State): State {
    s.(stack := if s.stack == [] then [] else s.stack[..|s.stack| - 1], calls := s.calls + [Unlabelled])
  }

  class Hooks {
    const inherited: string -> bool
    var ignored: map<string, bool>
    var stack: seq<Name>
    var depth: int
    var calls: seq<Call>

    ghost function Abstract(): State
      reads this
    {
      State(ignored, stack, depth, calls)
    }

    constructor (inherited: string -> bool)
      ensures this.inherited == inherited && Abstract() == START
    {
      this.inherited := inherited;
      ignored, stack, depth, calls := map[], [], 0, [];
    }

    method ProfileStart(name: Name)
      modifies this
      ensures Abstract() == Begin(old(Abstract()), name, inherited)
    {
      hide ShouldIgnoreBenchmark, MARKER;
      var p := PropertyOf(name);
      var verdict := true;
      if p in ignored {
        verdict := ignored[p];
      } else if !inherited(p) {
        verdict := ShouldIgnoreBenchmark(name);
        ignored := ignored[p := verdict];
      }
      if verdict {
        stack := stack + [MARKER];
      } else {
        stack := stack + [name];
        depth := depth + 1;
        if depth <= 1 { calls := calls + [Started]; }
      }
    }

    method ProfileEnd() returns (threw: bool)
      modifies this
      ensures threw <==> Finish(old(Abstract())).Err?
      ensures if threw then Abstract() == Thrown(old(Abstract())) else Finish(old(Abstract())) == Ok(Abstract())
    {
      hide MARKER;
      var name: Name := None;
      if stack != [] {
        name := stack[|stack| - 1];
        stack := stack[..|stack| - 1];
      }
      if name != MARKER {
        if depth <= 1 {
          if name.None? {
            calls := calls + [Unlabelled];
            return true;
          }
          calls := calls + [Stopped(name.value)];
        }
        depth := depth - 1;
      }
      return false;
    }
  }

  // ----- Verdicts on the two special names -----

  const COMMITS := ["ReactLynx::commit", "ReactLynx::commitChanges", "ReactLynx::BSI::setAttribute"]
  const PREFIXES := ["OnLifecycleEvent::", "ReactLynx::diff::", "ReactLynx::render::"]

  /** No benchmark for a profile without a name, for the commits, and for the families of three prefixes. */
  lemma IgnoredExact(name: Name)
    ensures ShouldIgnoreBenchmark(name)
       <==> || name in {None, Some("")} || (name.Some? && name.value in COMMITS)
            || exists prefix, rest :: prefix in PREFIXES && name == Some(prefix + rest)
  {
    if name.Some? {
      var n := name.value;
      forall prefix ensures StartsWith(n, prefix) <==> exists rest :: n == prefix + rest {
        if StartsWith(n, prefix) { assert n == prefix + n[|prefix|..]; }
      }
    }
  }

  lemma FirstDiffers(s: string, p: string)
    requires s != "" && p != "" && s[0] != p[0]
    ensures s != p && !StartsWith(s, p)
  {
    if |p| <= |s| { assert s[0..|p|][0] == s[0]; }
  }

  lemma Counts(name: string)
    requires name != "" && name[0] != 'R' && name[0] != 'O'
    ensures !ShouldIgnoreBenchmark(Some(name))
  {
    FirstDiffers(name, "ReactLynx::commit");
    FirstDiffers(name, "ReactLynx::commitChanges");
    FirstDiffers(name, "ReactLynx::BSI::setAttribute");
    FirstDiffers(name, "OnLifecycleEvent::");
    FirstDiffers(name, "ReactLynx::diff::");
    FirstDiffers(name, "ReactLynx::render::");
  }

  /** Judged alone, a profile called `undefined` counts and an unnamed one does not. */
  lemma UndefinedCounts()
    ensures !ShouldIgnoreBenchmark(Some(UNDEFINED)) && ShouldIgnoreBenchmark(None)
    ensures MARKER != Some(UNDEFINED) && MARKER != None
  {
    Counts(UNDEFINED);
    assert "__IGNORED__"[0] != UNDEFINED[0];
  }

  // ----- The depth counts -----

  function Counted(stack: seq<Name>): nat {
    if stack == [] then 0 else Counted(stack[..|stack| - 1]) + (if stack[|stack| - 1] == MARKER then 0 else 1)
  }

  predicate Balanced(s: State) {
    s.depth == Counted(s.stack)
  }

  /** Balance is lost exactly by starting a profile that counts and has the marker for a name. */
  lemma BeginBalance(s: State, name: Name, inherited: string -> bool)
    requires Balanced(s)
    ensures Balanced(Begin(s, name, inherited)) <==> (name != MARKER || Verdict(s, name, inherited))
  {
    hide ShouldIgnoreBenchmark, MARKER;
    var stack := Begin(s, name, inherited).stack;
    assert stack[..|stack| - 1] == s.stack;
  }

  lemma FinishBalance(s: State)
    requires Balanced(s) && s.stack != [] && Finish(s).Ok?
    ensures Balanced(Finish(s).value)
  {
    hide MARKER;
  }

  /** The marker as a name: one start and one end leave a benchmark running and the depth off by one. */
  lemma MarkerUnbalances(inherited: string -> bool)
    requires !inherited("__IGNORED__")
    ensures var s := Begin(START, MARKER, inherited);
            Finish(s) == Ok(s.(stack := [])) && s.depth == 1 && s.calls == [Started]
  {
    Counts("__IGNORED__");
    hide ShouldIgnoreBenchmark;
    assert PropertyOf(MARKER) == "__IGNORED__";
    assert [] + [MARKER] == [MARKER];
    assert [MARKER][..0] == [];
    assert [] + [Started] == [Started];
  }

  // ----- Every state of every run -----

  datatype Event = StartOf(name: Name) | End

  function Run(s: State, events: seq<Event>, inherited: string -> bool): Result<State, ()>
    decreases events
  {
    if events == [] then Ok(s)
    else
      match events[0]
      case StartOf(name) => Run(Begin(s, name, inherited), events[1..], inherited)
      case End => if Finish(s).Err? then Err(()) else Run(Finish(s).value, events[1..], inherited)
  }

  /** Starts and stops take turns, beginning with a start. */
  predicate Alternating(calls: seq<Call>) {
    forall i | 0 <= i < |calls| :: calls[i].Started? <==> i % 2 == 0
  }

  /** The depth counts, starts and stops take turns, and a benchmark runs exactly while something counts. */
  predicate Bracketed(s: State) {
    Balanced(s) && Alternating(s.calls) && (|s.calls| % 2 == 1 <==> s.depth > 0)
  }

  lemma CallAdded(calls: seq<Call>, call: Call)
    requires Alternating(calls) && (call.Started? <==> |calls| % 2 == 0)
    ensures Alternating(calls + [call])
  {
  }

  lemma BeginBrackets(s: State, name: Name, inherited: string -> bool)
    requires Bracketed(s) && name != MARKER
    ensures Bracketed(Begin(s, name, inherited))
  {
    BeginBalance(s, name, inherited);
    hide ShouldIgnoreBenchmark, MARKER, Counted;
    if s.depth == 0 { CallAdded(s.calls, Started); }
    assert s.calls + [] == s.calls;
  }

  lemma FinishBrackets(s: State)
    requires Bracketed(s) && Finish(s).Ok?
    ensures Bracketed(Finish(s).value)
  {
    UndefinedCounts();
    hide MARKER;
    FinishBalance(s);
    if s.stack[|s.stack| - 1] != MARKER && s.depth <= 1 { CallAdded(s.calls, Stopped(s.stack[|s.stack| - 1].value)); }
  }

  /**
   * In every state any sequence of starts and ends without the marker as a name leads to, benchmarks are bracketed,
   * until an end hook throws.
   */
  lemma {:induction false} EveryStateIsBracketed(s: State, events: seq<Event>, inherited: string -> bool)
    requires Bracketed(s) && StartOf(MARKER) !in events
    ensures Run(s, events, inherited).Ok? ==> Bracketed(Run(s, events, inherited).value)
    decreases events
  {
    hide Begin, Finish, Bracketed, MARKER;
    if events != [] {
      assert events[0] in events;
      match events[0]
      case StartOf(name) =>
        BeginBrackets(s, name, inherited);
        EveryStateIsBracketed(Begin(s, name, inherited), events[1..], inherited);
      case End =>
        if Finish(s).Ok? {
          FinishBrackets(s);
          EveryStateIsBracketed(Finish(s).value, events[1..], inherited);
        }
    }
  }

  // ----- Going on behind a throw -----

  /** A run whose caller catches what the end hook throws and goes on. */
  function RunOn(s: State, events: seq<Event>, inherited: string -> bool): State
    decreases events
  {
    if events == [] then s
    else
      match events[0]
      case StartOf(name) => RunOn(Begin(s, name, inherited), events[1..], inherited)
      case End => RunOn(if Finish(s).Ok? then Finish(s).value else Thrown(s), events[1..], inherited)
  }

  lemma {:induction false} RunOnAgrees(s: State, events: seq<Event>, inherited: string -> bool)
    ensures Run(s, events, inherited).Ok? ==> Run(s, events, inherited) == Ok(RunOn(s, events, inherited))
    decreases events
  {
    hide Begin, Finish, Thrown;
    if events != [] {
      match events[0]
      case StartOf(name) => RunOnAgrees(Begin(s, name, inherited), events[1..], inherited);
      case End => if Finish(s).Ok? { RunOnAgrees(Finish(s).value, events[1..], inherited); }
    }
  }

  /** The depth is ahead of the entries that count, so that no start is ever at depth 0 again. */
  predicate Lost(s: State) {
    s.depth > Counted(s.stack)
  }

  lemma ThrowLoses(s: State)
    requires Balanced(s) && s.stack != [] && Finish(s).Err?
    ensures Lost(Thrown(s))
  {
    UndefinedCounts();
    hide MARKER;
  }

  /** Nothing is benchmarked any more: only stops without a label are added. */
  predicate Idles(s: State, t: State) {
    && |s.calls| <= |t.calls| && t.calls[..|s.calls|] == s.calls
    && forall i | |s.calls| <= i < |t.calls| :: t.calls[i] == Unlabelled
  }

  lemma BeginLost(s: State, name: Name, inherited: string -> bool)
    requires Lost(s)
    ensures Lost(Begin(s, name, inherited)) && Begin(s, name, inherited).calls == s.calls
  {
    hide ShouldIgnoreBenchmark, MARKER;
    var stack := Begin(s, name, inherited).stack;
    assert stack[..|stack| - 1] == s.stack;
    assert s.calls + [] == s.calls;
  }

  lemma FinishLost(s: State)
    requires Lost(s)
    ensures var t := if Finish(s).Ok? then Finish(s).value else Thrown(s); Lost(t) && Idles(s, t)
  {
    hide MARKER;
  }

  lemma {:induction false} LostForever(s: State, events: seq<Event>, inherited: string -> bool)
    requires Lost(s)
    ensures Lost(RunOn(s, events, inherited)) && Idles(s, RunOn(s, events, inherited))
    decreases events
  {
    hide Begin, Finish, Thrown, Lost;
    if events != [] {
      match events[0]
      case StartOf(name) =>
        BeginLost(s, name, inherited);
        LostForever(Begin(s, name, inherited), events[1..], inherited);
      case End =>
        FinishLost(s);
        LostForever(if Finish(s).Ok? then Finish(s).value else Thrown(s), events[1..], inherited);
    }
  }

  /** Once the end of an unnamed profile has thrown, nothing is benchmarked again, whatever starts and ends. */
  lemma NothingAfterThrow(s: State, events: seq<Event>, inherited: string -> bool)
    requires Balanced(s) && s.stack != [] && Finish(s).Err?
    ensures var t := RunOn(Thrown(s), events, inherited);
            t.depth > 0 && Idles(s, t) && |t.calls| > |s.calls|
  {
    ThrowLoses(s);
    LostForever(Thrown(s), events, inherited);
    var t := RunOn(Thrown(s), events, inherited);
    hide RunOn, Finish;
    assert Thrown(s).calls[..|s.calls|] == s.calls;
    assert t.calls[..|s.calls|] == t.calls[..|s.calls| + 1][..|s.calls|];
    assert t.calls[|s.calls|] == t.calls[..|s.calls| + 1][|s.calls|];
  }

  // ----- The marker as a name -----

  /** Nothing is remembered about the marker's own name but that it counts. */
  predicate MarkerCounts(s: State, inherited: string -> bool) {
    PropertyOf(MARKER) in s.ignored ==> !inherited(PropertyOf(MARKER)) && !s.ignored[PropertyOf(MARKER)]
  }

  lemma MarkerVerdict(s: State, inherited: string -> bool)
    requires MarkerCounts(s, inherited)
    ensures Verdict(s, MARKER, inherited) <==> inherited(PropertyOf(MARKER))
  {
    Counts("__IGNORED__");
    hide ShouldIgnoreBenchmark;
  }

  lemma MarkerRemembered(s: State, name: Name, inherited: string -> bool)
    requires MarkerCounts(s, inherited)
    ensures MarkerCounts(Begin(s, name, inherited), inherited)
  {
    Counts("__IGNORED__");
    UndefinedCounts();
    hide ShouldIgnoreBenchmark;
  }

  lemma FinishRemembers(s: State)
    requires Finish(s).Ok?
    ensures Finish(s).value.ignored == s.ignored
  {
    hide MARKER;
  }

  lemma FinishBalanced(s: State)
    requires Balanced(s) && Finish(s).Ok?
    ensures Balanced(Finish(s).value)
  {
    UndefinedCounts();
    hide MARKER;
    if s.stack != [] { FinishBalance(s); }
  }

  lemma LostUnbalances(s: State, events: seq<Event>, inherited: string -> bool)
    requires Lost(s) && Run(s, events, inherited).Ok?
    ensures !Balanced(Run(s, events, inherited).value)
  {
    LostForever(s, events, inherited);
    RunOnAgrees(s, events, inherited);
  }

  lemma BeginMarkerLoses(s: State, inherited: string -> bool)
    requires Balanced(s) && !Verdict(s, MARKER, inherited)
    ensures Lost(Begin(s, MARKER, inherited))
  {
    hide ShouldIgnoreBenchmark, MARKER;
    var stack := Begin(s, MARKER, inherited).stack;
    assert stack[..|stack| - 1] == s.stack;
  }

  lemma {:induction false} RunBalance(s: State, events: seq<Event>, inherited: string -> bool)
    requires Balanced(s) && MarkerCounts(s, inherited) && Run(s, events, inherited).Ok?
    ensures Balanced(Run(s, events, inherited).value)
       <==> inherited(PropertyOf(MARKER)) || StartOf(MARKER) !in events
    decreases events
  {
    hide Begin, Finish, Verdict, Balanced, Lost, MarkerCounts, MARKER;
    if events != [] {
      var rest := events[1..];
      assert events == [events[0]] + rest;
      match events[0]
      case StartOf(name) =>
        BeginBalance(s, name, inherited);
        MarkerVerdict(s, inherited);
        if name == MARKER && !inherited(PropertyOf(MARKER)) {
          BeginMarkerLoses(s, inherited);
          LostUnbalances(Begin(s, MARKER, inherited), rest, inherited);
        } else {
          MarkerRemembered(s, name, inherited);
          RunBalance(Begin(s, name, inherited), rest, inherited);
        }
      case End =>
        FinishBalanced(s);
        SameMarker(s, Finish(s).value, inherited);
        RunBalance(Finish(s).value, rest, inherited);
    }
  }

  lemma SameMarker(s: State, t: State, inherited: string -> bool)
    requires MarkerCounts(s, inherited) && Finish(s) == Ok(t)
    ensures MarkerCounts(t, inherited)
  {
    FinishRemembers(s);
    hide Finish, MARKER;
  }

  /**
   * A run from the start in which nothing throws ends with a depth that counts its open entries, exactly unless the
   * marker was the name of a profile and no plain object inherits that name.
   */
  lemma MarkerExact(events: seq<Event>, inherited: string -> bool)
    requires Run(START, events, inherited).Ok?
    ensures Balanced(Run(START, events, inherited).value)
       <==> inherited(PropertyOf(MARKER)) || StartOf(MARKER) !in events
  {
    RunBalance(START, events, inherited);
  }

  // ----- Nested profiles -----

  /** A profile and the profiles inside it. */
  datatype Profile = Profile(name: Name, inner: seq<Profile>)

  function Events(profiles: seq<Profile>): seq<Event> {
    if profiles == [] then []
    else [StartOf(profiles[0].name)] + Events(profiles[0].inner) + [End] + Events(profiles[1..])
  }

  predicate MarkerFree(profiles: seq<Profile>) {
    forall p | p in profiles :: p.name != MARKER && MarkerFree(p.inner)
  }

  /** The verdict on a name alone. */
  predicate Ignored(name: Name, inherited: string -> bool) {
    inherited(PropertyOf(name)) || ShouldIgnoreBenchmark(name)
  }

  /** The verdict on a name when the property `undefined` has been decided. */
  predicate IgnoredGiven(name: Name, undefinedIgnored: bool, inherited: string -> bool) {
    if PropertyOf(name) == UNDEFINED then undefinedIgnored else Ignored(name, inherited)
  }

  /** The benchmarks of nested profiles: the outermost ones that count, each stopped under its own name. */
  function Benchmarks(profiles: seq<Profile>, ignores: Name -> bool): seq<Call> {
    if profiles == [] then []
    else
      var p := profiles[0];
      (if ignores(p.name) then Benchmarks(p.inner, ignores)
       else if p.name.None? then []
       else [Started, Stopped(p.name.value)])
      + Benchmarks(profiles[1..], ignores)
  }

  /** A profile of that name starts outside of every profile that counts. */
  predicate Outside(profiles: seq<Profile>, ignores: Name -> bool, name: Name) {
    exists p | p in profiles :: p.name == name || (ignores(p.name) && Outside(p.inner, ignores, name))
  }

  /** An unnamed profile that counts starts where its end has to label a benchmark. */
  predicate Throws(profiles: seq<Profile>, ignores: Name -> bool) {
    exists p | p in profiles :: if ignores(p.name) then Throws(p.inner, ignores) else p.name.None?
  }

  /** The property `undefined` has been decided, and everything remembered agrees with the verdicts. */
  predicate Settled(ignored: map<string, bool>, undefinedIgnored: bool, inherited: string -> bool) {
    && UNDEFINED in ignored
    && forall p | p in ignored ::
         !inherited(p) && ignored[p] == if p == UNDEFINED then undefinedIgnored else ShouldIgnoreBenchmark(Some(p))
  }

  lemma VerdictExact(s: State, name: Name, b: bool, inherited: string -> bool)
    requires Settled(s.ignored, b, inherited)
    ensures Verdict(s, name, inherited) <==> IgnoredGiven(name, b, inherited)
    ensures Settled(Remembered(s, name, inherited), b, inherited)
  {
    hide ShouldIgnoreBenchmark;
    assert PropertyOf(name) != UNDEFINED ==> Some(PropertyOf(name)) == name;
  }

  lemma {:induction false} RunAppend(s: State, a: seq<Event>, b: seq<Event>, inherited: string -> bool)
    ensures Run(s, a + b, inherited)
         == if Run(s, a, inherited).Err? then Err(()) else Run(Run(s, a, inherited).value, b, inherited)
    decreases a
  {
    hide Begin, Finish;
    if a == [] {
      assert a + b == b;
    } else {
      assert (a + b)[0] == a[0] && (a + b)[1..] == a[1..] + b;
      match a[0]
      case StartOf(name) => RunAppend(Begin(s, name, inherited), a[1..], b, inherited);
      case End => if Finish(s).Ok? { RunAppend(Finish(s).value, a[1..], b, inherited); }
    }
  }

  function ThenFinish(inner: Result<State, ()>): Result<State, ()> {
    if inner.Err? then Err(()) else Finish(inner.value)
  }

  lemma RunProfile(s: State, p: Profile, rest: seq<Profile>, inherited: string -> bool)
    ensures var one := ThenFinish(Run(Begin(s, p.name, inherited), Events(p.inner), inherited));
            Run(s, Events([p] + rest), inherited)
            == if one.Err? then Err(()) else Run(one.value, Events(rest), inherited)
  {
    hide Begin, Finish;
    var start, inner, end, more := [StartOf(p.name)], Events(p.inner), [End], Events(rest);
    assert ([p] + rest)[1..] == rest;
    assert Events([p] + rest) == start + (inner + (end + more));
    assert (start + (inner + (end + more)))[1..] == inner + (end + more);
    RunAppend(Begin(s, p.name, inherited), inner, end + more, inherited);
    assert (end + more)[1..] == more;
  }

  /** A run throws, or leaves the stack and the depth as they were and adds to the calls. */
  predicate Leaves(s: State, r: Result<State, ()>, throws: bool, added: seq<Call>, b: bool, inherited: string -> bool) {
    if s.depth == 0 && throws then r.Err?
    else
      && r.Ok? && r.value.stack == s.stack && r.value.depth == s.depth
      && r.value.calls == s.calls + (if s.depth == 0 then added else [])
      && Settled(r.value.ignored, b, inherited)
  }

  /** What one profile throws or adds. */
  predicate HeadThrows(p: Profile, ignores: Name -> bool) {
    if ignores(p.name) then Throws(p.inner, ignores) else p.name.None?
  }

  function HeadBenchmarks(p: Profile, ignores: Name -> bool): seq<Call> {
    if ignores(p.name) then Benchmarks(p.inner, ignores)
    else if p.name.None? then []
    else [Started, Stopped(p.name.value)]
  }

  /** The verdict is the one for `b`. */
  ghost predicate Judges(ignores: Name -> bool, b: bool, inherited: string -> bool) {
    forall name :: ignores(name) <==> IgnoredGiven(name, b, inherited)
  }

  /** One profile, given what the profiles inside it do. */
  lemma OneProfile(s: State, p: Profile, ignores: Name -> bool, b: bool, inherited: string -> bool,
                   inner: Result<State, ()>)
    requires s.depth >= 0 && Settled(s.ignored, b, inherited) && Judges(ignores, b, inherited) && p.name != MARKER
    requires Leaves(Begin(s, p.name, inherited), inner, Throws(p.inner, ignores), Benchmarks(p.inner, ignores), b,
                    inherited)
    ensures Leaves(s, ThenFinish(inner), HeadThrows(p, ignores), HeadBenchmarks(p, ignores), b, inherited)
  {
    VerdictExact(s, p.name, b, inherited);
    assert ignores(p.name) <==> IgnoredGiven(p.name, b, inherited);
    UndefinedCounts();
    hide MARKER, Throws, Benchmarks, Settled, Remembered, Verdict, IgnoredGiven, Judges;
    var begun := Begin(s, p.name, inherited);
    assert begun.stack[..|begun.stack| - 1] == s.stack;
    assert s.calls + [] == s.calls;
    if !ignores(p.name) && s.depth == 0 && p.name.Some? {
      assert s.calls + [Started] + [] + [Stopped(p.name.value)] == s.calls + [Started, Stopped(p.name.value)];
    }
  }

  lemma HeadAndRest(p: Profile, rest: seq<Profile>, ignores: Name -> bool)
    ensures Throws([p] + rest, ignores) <==> HeadThrows(p, ignores) || Throws(rest, ignores)
    ensures Benchmarks([p] + rest, ignores) == HeadBenchmarks(p, ignores) + Benchmarks(rest, ignores)
  {
    assert ([p] + rest)[1..] == rest && p in [p] + rest;
    assert forall q | q in rest :: q in [p] + rest;
  }

  /** Two parts of a run one after the other. */
  lemma LeavesThen(s: State, one: Result<State, ()>, after: Result<State, ()>, throws: bool, throws': bool,
                   added: seq<Call>, added': seq<Call>, b: bool, inherited: string -> bool)
    requires Leaves(s, one, throws, added, b, inherited)
    requires one.Ok? ==> Leaves(one.value, after, throws', added', b, inherited)
    requires one.Err? ==> after.Err?
    ensures Leaves(s, after, throws || throws', added + added', b, inherited)
  {
    hide Settled;
    assert s.calls + added + added' == s.calls + (added + added') && s.calls + [] + [] == s.calls + [];
  }

  lemma LeavesOk(s: State, r: Result<State, ()>, throws: bool, added: seq<Call>, b: bool, inherited: string -> bool)
    requires Leaves(s, r, throws, added, b, inherited) && r.Ok?
    ensures r.value.depth == s.depth && Settled(r.value.ignored, b, inherited)
  {
  }

  lemma NoProfiles(s: State, ignores: Name -> bool, b: bool, inherited: string -> bool)
    requires Settled(s.ignored, b, inherited)
    ensures Leaves(s, Run(s, Events([]), inherited), Throws([], ignores), Benchmarks([], ignores), b, inherited)
  {
    assert s.calls + [] == s.calls;
  }

  /**
   * Any well-nested run, once `undefined` is decided: it throws exactly when an unnamed profile that counts starts at
   * depth 0; otherwise stack and depth are left as they were, and on an idle profiler exactly the outermost benchmarks
   * that count are started and stopped, never one inside another, each under the name that started it.
   */
  lemma {:induction false} NestedExactly(s: State, profiles: seq<Profile>, ignores: Name -> bool, b: bool,
                                         inherited: string -> bool)
    requires s.depth >= 0 && Settled(s.ignored, b, inherited) && Judges(ignores, b, inherited) && MarkerFree(profiles)
    ensures Leaves(s, Run(s, Events(profiles), inherited), Throws(profiles, ignores), Benchmarks(profiles, ignores),
                   b, inherited)
    decreases profiles
  {
    if profiles == [] {
      NoProfiles(s, ignores, b, inherited);
    } else {
      hide Begin, Finish, ThenFinish, Judges, Settled, Events, Run, Benchmarks, Throws, HeadThrows, HeadBenchmarks,
           Leaves, MARKER;
      var p, rest := profiles[0], profiles[1..];
      assert p in profiles && [p] + rest == profiles;
      Begun(s, p.name, b, inherited);
      NestedExactly(Begin(s, p.name, inherited), p.inner, ignores, b, inherited);
      var inner := Run(Begin(s, p.name, inherited), Events(p.inner), inherited);
      OneProfile(s, p, ignores, b, inherited, inner);
      RunProfile(s, p, rest, inherited);
      HeadAndRest(p, rest, ignores);
      var one := ThenFinish(inner);
      if one.Ok? {
        LeavesOk(s, one, HeadThrows(p, ignores), HeadBenchmarks(p, ignores), b, inherited);
        NestedExactly(one.value, rest, ignores, b, inherited);
      }
      LeavesThen(s, one, Run(s, Events(profiles), inherited), HeadThrows(p, ignores), Throws(rest, ignores),
                 HeadBenchmarks(p, ignores), Benchmarks(rest, ignores), b, inherited);
    }
  }

  lemma Begun(s: State, name: Name, b: bool, inherited: string -> bool)
    requires s.depth >= 0 && Settled(s.ignored, b, inherited)
    ensures Begin(s, name, inherited).depth >= 0 && Settled(Begin(s, name, inherited).ignored, b, inherited)
  {
    hide ShouldIgnoreBenchmark, MARKER;
    VerdictExact(s, name, b, inherited);
  }

  // ----- The first word on `undefined` -----

  /** The first start that looks up the property `undefined`. */
  function FirstUndefined(events: seq<Event>): Option<Name> {
    if events == [] then None
    else if events[0].StartOf? && PropertyOf(events[0].name) == UNDEFINED then Some(events[0].name)
    else FirstUndefined(events[1..])
  }

  /** The verdict its name gets. */
  predicate FirstVerdict(events: seq<Event>) {
    FirstUndefined(events) != Some(Some(UNDEFINED))
  }

  /** Two results that differ at most in what is remembered. */
  predicate Alike(r: Result<State, ()>, q: Result<State, ()>) {
    if r.Err? then q.Err? else q.Ok? && r.value == q.value.(ignored := r.value.ignored)
  }

  function Decided(s: State, b: bool): State {
    s.(ignored := s.ignored[UNDEFINED := b])
  }

  lemma BeginUndecided(s: State, name: Name, b: bool, inherited: string -> bool)
    requires UNDEFINED !in s.ignored && !inherited(UNDEFINED)
    ensures if PropertyOf(name) != UNDEFINED
            then Begin(Decided(s, b), name, inherited) == Decided(Begin(s, name, inherited), b)
                 && UNDEFINED !in Begin(s, name, inherited).ignored
            else b == ShouldIgnoreBenchmark(name) ==>
                   Begin(Decided(s, b), name, inherited) == Begin(s, name, inherited)
  {
    hide ShouldIgnoreBenchmark, MARKER, UNDEFINED;
    var p := PropertyOf(name);
    if p != UNDEFINED {
      assert s.ignored[UNDEFINED := b][p := ShouldIgnoreBenchmark(name)]
          == s.ignored[p := ShouldIgnoreBenchmark(name)][UNDEFINED := b];
    } else {
      assert s.ignored[UNDEFINED := ShouldIgnoreBenchmark(name)] == s.ignored[p := ShouldIgnoreBenchmark(name)];
    }
  }

  lemma FinishDecided(s: State, b: bool)
    ensures Finish(Decided(s, b)).Err? <==> Finish(s).Err?
    ensures Finish(s).Ok? ==> Finish(Decided(s, b)) == Ok(Decided(Finish(s).value, b))
    ensures Finish(s).Ok? ==> Finish(s).value.ignored == s.ignored
  {
    hide MARKER;
  }

  lemma AlikeSelf(r: Result<State, ()>)
    ensures Alike(r, r)
  {
  }

  /** A run behaves as if its first word on `undefined` had been known from the start. */
  lemma {:induction false} DecidedFromStart(s: State, events: seq<Event>, b: bool, inherited: string -> bool)
    requires UNDEFINED !in s.ignored && !inherited(UNDEFINED)
    requires FirstUndefined(events).None? || FirstVerdict(events) == b
    ensures Alike(Run(s, events, inherited), Run(Decided(s, b), events, inherited))
    decreases events
  {
    hide Begin, Finish, Decided, ShouldIgnoreBenchmark, UNDEFINED;
    if events == [] {
      DecidedAlike(s, b);
    } else {
      match events[0]
      case StartOf(name) =>
        BeginUndecided(s, name, b, inherited);
        if PropertyOf(name) != UNDEFINED {
          DecidedFromStart(Begin(s, name, inherited), events[1..], b, inherited);
        } else {
          UndefinedName(name);
          AlikeSelf(Run(Begin(s, name, inherited), events[1..], inherited));
        }
      case End =>
        FinishDecided(s, b);
        if Finish(s).Ok? { DecidedFromStart(Finish(s).value, events[1..], b, inherited); }
    }
  }

  lemma DecidedAlike(s: State, b: bool)
    ensures Alike(Ok(s), Ok(Decided(s, b)))
  {
  }

  lemma UndefinedName(name: Name)
    requires PropertyOf(name) == UNDEFINED
    ensures name == None || name == Some(UNDEFINED)
    ensures ShouldIgnoreBenchmark(name) <==> name != Some(UNDEFINED)
  {
    UndefinedCounts();
  }

  // ----- From the start -----

  lemma {:induction false} ThrowsOutside(profiles: seq<Profile>, ignores: Name -> bool)
    ensures Throws(profiles, ignores) <==> !ignores(None) && Outside(profiles, ignores, None)
  {
    forall p | p in profiles
      ensures (if ignores(p.name) then Throws(p.inner, ignores) else p.name.None?)
         <==> !ignores(None) && (p.name == None || (ignores(p.name) && Outside(p.inner, ignores, None)))
    {
      ThrowsOutside(p.inner, ignores);
    }
  }

  /** A name that starts under counting profiles only has no say in the benchmarks. */
  lemma {:induction false} SameBenchmarks(profiles: seq<Profile>, u: Name -> bool, v: Name -> bool, name: Name)
    requires forall n | n != name :: u(n) == v(n)
    requires !Outside(profiles, u, name)
    ensures Benchmarks(profiles, u) == Benchmarks(profiles, v)
  {
    if profiles != [] {
      var p, rest := profiles[0], profiles[1..];
      assert p in profiles && forall q | q in rest :: q in profiles;
      if u(p.name) { SameBenchmarks(p.inner, u, v, name); }
      SameBenchmarks(rest, u, v, name);
    }
  }

  lemma {:induction false} OutsideStops(profiles: seq<Profile>, ignores: Name -> bool, name: string)
    requires Outside(profiles, ignores, Some(name)) && !ignores(Some(name))
    ensures Stopped(name) in Benchmarks(profiles, ignores)
  {
    var p, rest := profiles[0], profiles[1..];
    assert Benchmarks(profiles, ignores) == HeadBenchmarks(p, ignores) + Benchmarks(rest, ignores);
    if p.name == Some(name) {
      assert HeadBenchmarks(p, ignores)[1] == Stopped(name);
    } else if ignores(p.name) && Outside(p.inner, ignores, Some(name)) {
      OutsideStops(p.inner, ignores, name);
    } else {
      assert profiles == [p] + rest;
      OutsideStops(rest, ignores, name);
    }
  }

  lemma {:induction false} IgnoredNeverStops(profiles: seq<Profile>, ignores: Name -> bool, name: string)
    requires ignores(Some(name))
    ensures Stopped(name) !in Benchmarks(profiles, ignores)
  {
    if profiles != [] {
      IgnoredNeverStops(profiles[0].inner, ignores, name);
      IgnoredNeverStops(profiles[1..], ignores, name);
    }
  }

  lemma {:induction false} FirstAppend(a: seq<Event>, b: seq<Event>)
    ensures FirstUndefined(a + b) == if FirstUndefined(a).Some? then FirstUndefined(a) else FirstUndefined(b)
  {
    hide UNDEFINED;
    if a == [] {
      assert a + b == b;
    } else {
      assert (a + b)[0] == a[0] && (a + b)[1..] == a[1..] + b;
      FirstAppend(a[1..], b);
    }
  }

  /** Whatever starts outside has started. */
  lemma {:induction false} OutsideStarts(profiles: seq<Profile>, ignores: Name -> bool, name: Name)
    requires Outside(profiles, ignores, name) && PropertyOf(name) == UNDEFINED
    ensures FirstUndefined(Events(profiles)).Some?
  {
    hide UNDEFINED;
    var p, rest := profiles[0], profiles[1..];
    var start, inner, more := [StartOf(p.name)], Events(p.inner), Events(rest);
    assert Events(profiles) == start + inner + [End] + more;
    FirstAppend(start + inner + [End], more);
    FirstAppend(start + inner, [End]);
    FirstAppend(start, inner);
    if p.name == name {
      assert FirstUndefined(start) == Some(name);
    } else if ignores(p.name) && Outside(p.inner, ignores, name) {
      OutsideStarts(p.inner, ignores, name);
    } else {
      assert profiles == [p] + rest;
      OutsideStarts(rest, ignores, name);
    }
  }

  /** A run from the start, given its first word on `undefined`. */
  lemma DecidedRun(profiles: seq<Profile>, ignores: Name -> bool, b: bool, inherited: string -> bool)
    requires MarkerFree(profiles) && !inherited(UNDEFINED) && Judges(ignores, b, inherited)
    requires FirstUndefined(Events(profiles)).None? || FirstVerdict(Events(profiles)) == b
    ensures var r := Run(START, Events(profiles), inherited);
            && (r.Err? <==> Throws(profiles, ignores))
            && (r.Ok? ==> r.value.stack == [] && r.value.depth == 0 && r.value.calls == Benchmarks(profiles, ignores))
  {
    hide Begin, Finish, Judges, Events, Run, Benchmarks, Throws, ShouldIgnoreBenchmark, FirstUndefined, FirstVerdict;
    DecidedFromStart(START, Events(profiles), b, inherited);
    NestedExactly(Decided(START, b), profiles, ignores, b, inherited);
    assert [] + Benchmarks(profiles, ignores) == Benchmarks(profiles, ignores);
  }

  /** Every name judged alone. */
  function Alone(inherited: string -> bool): Name -> bool {
    name => Ignored(name, inherited)
  }

  /** Every name judged once `undefined` has been decided. */
  function Given(b: bool, inherited: string -> bool): Name -> bool {
    name => IgnoredGiven(name, b, inherited)
  }

  lemma VerdictsDiffer(b: bool, inherited: string -> bool)
    requires !inherited(UNDEFINED)
    ensures Given(b, inherited)(None) == b == Given(b, inherited)(Some(UNDEFINED))
    ensures Alone(inherited)(None) && !Alone(inherited)(Some(UNDEFINED))
    ensures Judges(Given(b, inherited), b, inherited)
    ensures forall n | n != if b then Some(UNDEFINED) else None :: Given(b, inherited)(n) == Alone(inherited)(n)
  {
    UndefinedCounts();
    forall n | n != if b then Some(UNDEFINED) else None ensures Given(b, inherited)(n) == Alone(inherited)(n) {
      if PropertyOf(n) == UNDEFINED { UndefinedName(n); }
    }
  }

  /** Named first: without an unnamed profile outside, all benchmarks are those of the names judged alone. */
  lemma NamedFirst(profiles: seq<Profile>, inherited: string -> bool)
    requires !inherited(UNDEFINED) && !Outside(profiles, Given(false, inherited), None)
    ensures Benchmarks(profiles, Given(false, inherited)) == Benchmarks(profiles, Alone(inherited))
  {
    VerdictsDiffer(false, inherited);
    SameBenchmarks(profiles, Given(false, inherited), Alone(inherited), None);
  }

  /** Not named first: a benchmark is skipped exactly when a profile called `undefined` starts outside. */
  lemma UnnamedFirst(profiles: seq<Profile>, inherited: string -> bool)
    requires !inherited(UNDEFINED)
    ensures Benchmarks(profiles, Given(true, inherited)) == Benchmarks(profiles, Alone(inherited))
       <==> !Outside(profiles, Alone(inherited), Some(UNDEFINED))
  {
    VerdictsDiffer(true, inherited);
    hide Benchmarks, Outside, Given, Alone, Judges, UNDEFINED;
    if Outside(profiles, Alone(inherited), Some(UNDEFINED)) {
      OutsideStops(profiles, Alone(inherited), UNDEFINED);
      IgnoredNeverStops(profiles, Given(true, inherited), UNDEFINED);
    } else {
      SameBenchmarks(profiles, Alone(inherited), Given(true, inherited), Some(UNDEFINED));
    }
  }

  /**
   * Any well-nested run without the marker, from the start. It throws exactly when the first profile that looks up
   * `undefined` has that name and an unnamed one starts outside of every counting profile. Otherwise it ends idle, and
   * its benchmarks are those of the names judged alone, exactly unless the first such profile is unnamed and one called
   * `undefined` starts outside of every counting profile: its benchmark is skipped.
   */
  lemma RunExact(profiles: seq<Profile>, inherited: string -> bool)
    requires MarkerFree(profiles) && !inherited(UNDEFINED)
    ensures var r, first := Run(START, Events(profiles), inherited), FirstUndefined(Events(profiles));
            && (r.Err? <==> first == Some(Some(UNDEFINED)) && Outside(profiles, Given(false, inherited), None))
            && (r.Ok? ==> r.value.stack == [] && r.value.depth == 0)
            && (r.Ok? ==> (r.value.calls == Benchmarks(profiles, Alone(inherited))
                           <==> !(first == Some(None) && Outside(profiles, Alone(inherited), Some(UNDEFINED)))))
  {
    var events := Events(profiles);
    var b := FirstVerdict(events);
    VerdictsDiffer(b, inherited);
    DecidedRun(profiles, Given(b, inherited), b, inherited);
    ThrowsOutside(profiles, Given(b, inherited));
    if b {
      UnnamedFirst(profiles, inherited);
      if Outside(profiles, Alone(inherited), Some(UNDEFINED)) {
        OutsideStarts(profiles, Alone(inherited), Some(UNDEFINED));
        FirstName(events);
      }
    } else if !Outside(profiles, Given(false, inherited), None) {
      NamedFirst(profiles, inherited);
    }
    hide Benchmarks, Throws, Outside, Run, Events, Given, Alone, Judges, FirstUndefined, UNDEFINED;
  }

  lemma {:induction false} FirstName(events: seq<Event>)
    ensures FirstUndefined(events) in {None, Some(None), Some(Some(UNDEFINED))}
  {
    hide UNDEFINED;
    if events != [] {
      FirstName(events[1..]);
      if events[0].StartOf? && PropertyOf(events[0].name) == UNDEFINED { UndefinedName(events[0].name); }
    }
  }

  /** The string first, then no name at all: the end of the unnamed profile throws. */
  lemma UndefinedThrows(inherited: string -> bool)
    requires !inherited(UNDEFINED)
    ensures Run(START, Events([Profile(Some(UNDEFINED), []), Profile(None, [])]), inherited).Err?
  {
    var named, unnamed := Profile(Some(UNDEFINED), []), Profile(None, []);
    var profiles := [named, unnamed];
    UndefinedCounts();
    TwoEvents(named.name, unnamed.name);
    hide MARKER, UNDEFINED, Run;
    assert unnamed in profiles && Outside(profiles, Given(false, inherited), None);
    RunExact(profiles, inherited);
  }

  /** The other way round nothing throws, but the profile called `undefined` is not benchmarked. */
  lemma UndefinedSkipped(inherited: string -> bool)
    requires !inherited(UNDEFINED)
    ensures var r := Run(START, Events([Profile(None, []), Profile(Some(UNDEFINED), [])]), inherited);
            r.Ok? && r.value.calls == []
  {
    var named, unnamed := Profile(Some(UNDEFINED), []), Profile(None, []);
    var profiles := [unnamed, named];
    UndefinedCounts();
    TwoEvents(unnamed.name, named.name);
    VerdictsDiffer(true, inherited);
    hide MARKER, UNDEFINED, Run, Given, Alone, IgnoredGiven, Ignored, Judges, Throws, Benchmarks, HeadThrows,
         HeadBenchmarks;
    var ignores := Given(true, inherited);
    OneIgnored(named.name, ignores);
    OneIgnored(unnamed.name, ignores);
    HeadAndRest(unnamed, [named], ignores);
    assert [unnamed] + [named] == profiles;
    DecidedRun(profiles, ignores, true, inherited);
  }

  /** A profile that does not count, with nothing inside. */
  lemma OneIgnored(name: Name, ignores: Name -> bool)
    requires ignores(name)
    ensures var p := Profile(name, []);
            && !HeadThrows(p, ignores) && HeadBenchmarks(p, ignores) == []
            && !Throws([p], ignores) && Benchmarks([p], ignores) == []
  {
    assert [Profile(name, [])][1..] == [];
  }

  lemma TwoEvents(a: Name, b: Name)
    ensures Events([Profile(a, []), Profile(b, [])]) == [StartOf(a), End, StartOf(b), End]
    ensures PropertyOf(a) == UNDEFINED ==> FirstUndefined([StartOf(a), End, StartOf(b), End]) == Some(a)
  {
    hide UNDEFINED;
    var profiles := [Profile(a, []), Profile(b, [])];
    assert profiles[1..] == [Profile(b, [])] && [Profile(b, [])][1..] == [];
  }
}
