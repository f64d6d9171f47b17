/** The memoizing selector: a cache over snapshots that must agree with the plain selector. */
module MemoSelector {
  import opened Text

  // ----- Values and their identity -----

  type Nonzero = r: real | r != 0.0 witness 1.0

  datatype Number = NaN | PlusZero | MinusZero | PlusInfinity | MinusInfinity | Finite(value: Nonzero)

  /** One datatype value for each ECMAScript value; objects are references. */
  datatype Value = Undefined | Null | Truth(b: bool) | Num(n: Number) | Str(s: string) | Object(address: nat)

  predicate Zero(v: Value) {
    v == Num(PlusZero) || v == Num(MinusZero)
  }

  /** `x === y` */
  predicate StrictEquals(x: Value, y: Value) {
    if x.Num? && y.Num? then (x.n != NaN && x.n == y.n) || (Zero(x) && Zero(y)) else x == y
  }

  /** `1 / x` for a zero */
  function Reciprocal(x: Value): Value
    requires Zero(x)
  {
    if x.n.PlusZero? then Num(PlusInfinity) else Num(MinusInfinity)
  }

  predicate Is(x: Value, y: Value) {
    || (StrictEquals(x, y) && (!StrictEquals(Num(PlusZero), x) || StrictEquals(Reciprocal(x), Reciprocal(y))))
    || (!StrictEquals(x, x) && !StrictEquals(y, y))
  }

  /** `is` tells exactly the same values apart that are different values: SameValue of ECMA-262. */
  lemma IsSameValue(x: Value, y: Value)
    ensures Is(x, y) <==> x == y
  {
  }

  // ----- One call -----

  /** `None`: the selector throws. */
  type Selector = Value -> Option<Value>

  /** The custom equality, if there is one; `None` of a comparison: it throws. */
  type Equality = Option<(Value, Value) -> Option<bool>>

  /** The closure variables, and the record shared with the effect. */
  datatype State = State(hasMemo: bool, snapshot: Value, selection: Value, hasValue: bool, value: Value)

  const START := State(false, Undefined, Undefined, false, Null)

  function Select(s: State, next: Value, selector: Selector, isEqual: Equality): (Option<Value>, State) {
    var selected := selector(next);
    if !s.hasMemo then
      var entered := s.(hasMemo := true, snapshot := next);
      if selected.None? then (None, entered)
      else if isEqual.Some? && s.hasValue then
        match isEqual.value(s.value, selected.value)
        case None => (None, entered)
        case Some(equal) =>
          var v := if equal then s.value else selected.value;
          (Some(v), entered.(selection := v))
      else (selected, entered.(selection := selected.value))
    else if Is(s.snapshot, next) then (Some(s.selection), s)
    else if selected.None? then (None, s)
    else
      match if isEqual.Some? then isEqual.value(s.selection, selected.value) else Some(false)
      case None => (None, s)
      case Some(equal) =>
        if equal then (Some(s.selection), s.(snapshot := next))
        else (selected, s.(snapshot := next, selection := selected.value))
  }

  /** The record that outlives a closure. */
  class Inst {
    var hasValue: bool
    var value: Value

    constructor ()
      ensures !hasValue && value == Null
    {
      hasValue, value := false, Null;
    }

    /** The effect that runs after a value was rendered. */
    method Commit(rendered: Value)
      modifies this
      ensures hasValue && value == rendered
    {
      hasValue := true;
      value := rendered;
    }
  }

  class Memo {
    const selector: Selector
    const isEqual: Equality
    const inst: Inst
    var hasMemo: bool
    var memoizedSnapshot: Value
    var memoizedSelection: Value

    ghost function Abstract(): State
      reads this, inst
    {
      State(hasMemo, memoizedSnapshot, memoizedSelection, inst.hasValue, inst.value)
    }

    constructor (selector: Selector, isEqual: Equality, inst: Inst)
      ensures this.selector == selector && this.isEqual == isEqual && this.inst == inst
      ensures Abstract() == START.(hasValue := inst.hasValue, value := inst.value)
    {
      this.selector, this.isEqual, this.inst := selector, isEqual, inst;
      hasMemo, memoizedSnapshot, memoizedSelection := false, Undefined, Undefined;
    }

    method MemoizedSelector(nextSnapshot: Value) returns (r: Option<Value>)
      modifies this
      ensures (r, Abstract()) == Select(old(Abstract()), nextSnapshot, selector, isEqual)
    {
      if !hasMemo {
        hasMemo := true;
        memoizedSnapshot := nextSnapshot;
        var nextSelection := selector(nextSnapshot);
        if nextSelection.None? { return None; }
        if isEqual.Some? && inst.hasValue {
          var currentSelection := inst.value;
          var equal := isEqual.value(currentSelection, nextSelection.value);
          if equal.None? { return None; }
          if equal.value {
            memoizedSelection := currentSelection;
            return Some(currentSelection);
          }
        }
        memoizedSelection := nextSelection.value;
        return nextSelection;
      }
      var prevSnapshot, prevSelection := memoizedSnapshot, memoizedSelection;
      if Is(prevSnapshot, nextSnapshot) { return Some(prevSelection); }
      var nextSelection := selector(nextSnapshot);
      if nextSelection.None? { return None; }
      if isEqual.Some? {
        var equal := isEqual.value(prevSelection, nextSelection.value);
        if equal.None? { return None; }
        if equal.value {
          memoizedSnapshot := nextSnapshot;
          return Some(prevSelection);
        }
      }
      memoizedSnapshot := nextSnapshot;
      memoizedSelection := nextSelection.value;
      return nextSelection;
    }
  }

  // ----- Agreement over all runs -----

  datatype Event = Call(snapshot: Value) | Commit(rendered: Value)

  function After(s: State, e: Event, selector: Selector, isEqual: Equality): State {
    match e
    case Call(snapshot) => Select(s, snapshot, selector, isEqual).1
    case Commit(rendered) => s.(hasValue := true, value := rendered)
  }

  function Run(s: State, events: seq<Event>, selector: Selector, isEqual: Equality): State
    decreases events
  {
    if events == [] then s else Run(After(s, events[0], selector, isEqual), events[1..], selector, isEqual)
  }

  /** The answer stands for the plain selector's: the same value, or one that `isEqual` takes for it. */
  predicate Accepts(v: Value, w: Value, isEqual: Equality) {
    v == w || (isEqual.Some? && isEqual.value(v, w) == Some(true))
  }

  /** Comparing the plain selector's value `w` with the value at hand throws. */
  predicate ComparisonThrows(s: State, w: Value, isEqual: Equality) {
    && isEqual.Some? && (s.hasMemo || s.hasValue)
    && isEqual.value(if s.hasMemo then s.selection else s.value, w).None?
  }

  /** A call agrees with the plain selector: it throws only with it or in the comparison, and else answers for it. */
  predicate Agrees(s: State, snapshot: Value, selector: Selector, isEqual: Equality) {
    var r := Select(s, snapshot, selector, isEqual).0;
    match selector(snapshot)
    case None => r.None?
    case Some(w) => if r.Some? then Accepts(r.value, w, isEqual) else ComparisonThrows(s, w, isEqual)
  }

  /** Every call of the run agrees with the plain selector. */
  predicate AllAgree(s: State, events: seq<Event>, selector: Selector, isEqual: Equality)
    decreases events
  {
    events == []
    || ((events[0].Call? ==> Agrees(s, events[0].snapshot, selector, isEqual))
        && AllAgree(After(s, events[0], selector, isEqual), events[1..], selector, isEqual))
  }

  /** `held` stands for the selection of the snapshot. */
  predicate StandsFor(held: Value, snapshot: Value, selector: Selector, isEqual: Equality) {
    selector(snapshot).Some? && Accepts(held, selector(snapshot).value, isEqual)
  }

  /** The memo stands for the selection of its snapshot. */
  predicate Sound(s: State, selector: Selector, isEqual: Equality) {
    s.hasMemo && StandsFor(s.selection, s.snapshot, selector, isEqual)
  }

  /** With `held` in the memo, a call for another snapshot gives no answer: selector or comparison throws. */
  predicate NoAnswer(held: Value, snapshot: Value, selector: Selector, isEqual: Equality) {
    selector(snapshot).None? || (isEqual.Some? && isEqual.value(held, selector(snapshot).value).None?)
  }

  /** `snapshot` comes again before a call answers. */
  predicate ComesAgain(snapshot: Value, held: Value, events: seq<Event>, selector: Selector, isEqual: Equality) {
    events != []
    && (match events[0]
        case Call(next) =>
          next == snapshot
          || (NoAnswer(held, next, selector, isEqual) && ComesAgain(snapshot, held, events[1..], selector, isEqual))
        case Commit(_) => ComesAgain(snapshot, held, events[1..], selector, isEqual))
  }

  /** A first call throws: the selector does, or the comparison with the value committed before. */
  predicate FirstThrows(s: State, snapshot: Value, selector: Selector, isEqual: Equality) {
    || selector(snapshot).None?
    || (isEqual.Some? && s.hasValue && isEqual.value(s.value, selector(snapshot).value).None?)
  }

  /**
   * The first call of the run throws, what the variables hold by then does not stand for its snapshot's selection, and
   * the snapshot comes again before a call answers.
   */
  predicate FirstThrowComesAgain(s: State, events: seq<Event>, selector: Selector, isEqual: Equality)
    decreases events
  {
    events != []
    && (match events[0]
        case Call(next) =>
          && FirstThrows(s, next, selector, isEqual)
          && !StandsFor(s.selection, next, selector, isEqual)
          && ComesAgain(next, s.selection, events[1..], selector, isEqual)
        case Commit(_) =>
          FirstThrowComesAgain(After(s, events[0], selector, isEqual), events[1..], selector, isEqual))
  }

  lemma {:induction false} SoundAgrees(s: State, events: seq<Event>, selector: Selector, isEqual: Equality)
    requires Sound(s, selector, isEqual)
    ensures AllAgree(s, events, selector, isEqual) && Sound(Run(s, events, selector, isEqual), selector, isEqual)
    decreases events
  {
    if events != [] {
      if events[0].Call? { IsSameValue(s.snapshot, events[0].snapshot); }
      SoundAgrees(After(s, events[0], selector, isEqual), events[1..], selector, isEqual);
    }
  }

  lemma {:induction false} PoisonedAgreesUnless(s: State, events: seq<Event>, selector: Selector, isEqual: Equality)
    requires s.hasMemo && !Sound(s, selector, isEqual)
    ensures AllAgree(s, events, selector, isEqual) <==> !ComesAgain(s.snapshot, s.selection, events, selector, isEqual)
    decreases events
  {
    if events != [] {
      var next := After(s, events[0], selector, isEqual);
      if events[0].Call? { IsSameValue(s.snapshot, events[0].snapshot); }
      if events[0].Call? && !NoAnswer(s.selection, events[0].snapshot, selector, isEqual) {
        if s.snapshot != events[0].snapshot { SoundAgrees(next, events[1..], selector, isEqual); }
      } else {
        PoisonedAgreesUnless(next, events[1..], selector, isEqual);
      }
    }
  }

  /**
   * Every call of a run agrees with the plain selector, exactly unless the very first call throws and its snapshot is
   * asked for again before a call answers: then the cache answers what it never selected.
   */
  lemma {:induction false} AgreementExact(s: State, events: seq<Event>, selector: Selector, isEqual: Equality)
    requires !s.hasMemo
    ensures AllAgree(s, events, selector, isEqual) <==> !FirstThrowComesAgain(s, events, selector, isEqual)
    decreases events
  {
    if events != [] {
      var next := After(s, events[0], selector, isEqual);
      match events[0]
      case Commit(_) => AgreementExact(next, events[1..], selector, isEqual);
      case Call(snapshot) =>
        if FirstThrows(s, snapshot, selector, isEqual) && !StandsFor(s.selection, snapshot, selector, isEqual) {
          PoisonedAgreesUnless(next, events[1..], selector, isEqual);
        } else {
          SoundAgrees(next, events[1..], selector, isEqual);
        }
    }
  }

  /** A selector that throws on `null`: asked twice for it, the cache throws once and then answers `undefined`. */
  lemma ThrowThenUndefined()
    ensures var selector: Selector := v => if v == Null then None else Some(v);
            var first := Select(START, Null, selector, None);
            first.0 == None && Select(first.1, Null, selector, None).0 == Some(Undefined)
  {
    IsSameValue(Null, Null);
  }

  /** An equality that throws on the committed value: asked twice, the cache throws and then answers `undefined`. */
  lemma ComparisonThrowThenUndefined()
    ensures var selector: Selector := v => Some(v);
            var isEqual: Equality := Some((x, y) => if x == Null then None else Some(x == y));
            var committed := START.(hasValue := true, value := Null);
            var first := Select(committed, Truth(true), selector, isEqual);
            first.0 == None && Select(first.1, Truth(true), selector, isEqual).0 == Some(Undefined)
  {
    IsSameValue(Truth(true), Truth(true));
  }

  /** Without `isEqual` a sound cache answers with the plain selector's own value. */
  lemma PlainIsExact(s: State, snapshot: Value, selector: Selector)
    requires Sound(s, selector, None)
    ensures Select(s, snapshot, selector, None).0 == selector(snapshot)
  {
    IsSameValue(s.snapshot, snapshot);
  }

  /** A call that answers remembers its snapshot and its answer, and asked for the same again it changes nothing. */
  lemma AnswerRemembered(s: State, next: Value, selector: Selector, isEqual: Equality)
    requires Select(s, next, selector, isEqual).0.Some?
    ensures var (r, t) := Select(s, next, selector, isEqual);
            && t.hasMemo && t.snapshot == next && t.selection == r.value
            && Select(t, next, selector, isEqual) == (r, t)
  {
    IsSameValue(next, next);
    IsSameValue(s.snapshot, next);
  }

  // ----- References stay while selections stay equal -----

  /** Whatever throws, comparing as equal is an equivalence. */
  ghost predicate Equivalence(eq: (Value, Value) -> Option<bool>) {
    && (forall x :: eq(x, x) == Some(true))
    && (forall x, y :: eq(x, y) == Some(true) ==> eq(y, x) == Some(true))
    && (forall x, y, z :: eq(x, y) == Some(true) && eq(y, z) == Some(true) ==> eq(x, z) == Some(true))
  }

  /** Nothing but commits, calls that throw, and calls for snapshots whose selection equals `w`. */
  predicate StaysEqual(w: Value, events: seq<Event>, selector: Selector, eq: (Value, Value) -> Option<bool>) {
    forall e | e in events && e.Call? :: selector(e.snapshot).Some? ==> eq(w, selector(e.snapshot).value) == Some(true)
  }

  /** Every call that answers answers with `ref`. */
  predicate AnswersWith(ref: Value, s: State, events: seq<Event>, selector: Selector, isEqual: Equality)
    decreases events
  {
    events == []
    || ((events[0].Call? ==> Select(s, events[0].snapshot, selector, isEqual).0 in {None, Some(ref)})
        && AnswersWith(ref, After(s, events[0], selector, isEqual), events[1..], selector, isEqual))
  }

  /** As long as the selections stay equal to the current one, every answer is the same reference. */
  lemma {:induction false} ReferenceStays(s: State, events: seq<Event>, selector: Selector,
                                          eq: (Value, Value) -> Option<bool>)
    requires Equivalence(eq) && Sound(s, selector, Some(eq))
    requires StaysEqual(selector(s.snapshot).value, events, selector, eq)
    ensures AnswersWith(s.selection, s, events, selector, Some(eq))
    decreases events
  {
    if events != [] {
      var e, next := events[0], After(s, events[0], selector, Some(eq));
      var w := selector(s.snapshot).value;
      assert e in events;
      if e.Call? { IsSameValue(s.snapshot, e.snapshot); }
      if e.Call? && e.snapshot != s.snapshot && selector(e.snapshot).Some? {
        var v := selector(e.snapshot).value;
        assert eq(s.selection, w) == Some(true) && eq(w, v) == Some(true) && eq(s.selection, v) == Some(true);
        forall x | eq(w, x) == Some(true) ensures eq(v, x) == Some(true) { assert eq(v, w) == Some(true); }
      }
      ReferenceStays(next, events[1..], selector, eq);
    }
  }

  /** A new closure, too, answers with the committed reference, as long as the selections are equal to it. */
  lemma CommittedReferenceStays(s: State, next: Value, events: seq<Event>, selector: Selector,
                                eq: (Value, Value) -> Option<bool>)
    requires Equivalence(eq) && !s.hasMemo && s.hasValue
    requires selector(next).Some? && eq(s.value, selector(next).value) == Some(true)
    requires StaysEqual(selector(next).value, events, selector, eq)
    ensures AnswersWith(s.value, s, [Call(next)] + events, selector, Some(eq))
  {
    var all, t := [Call(next)] + events, Select(s, next, selector, Some(eq)).1;
    assert all[1..] == events;
    assert t.selection == s.value && t.snapshot == next;
    ReferenceStays(t, events, selector, eq);
  }
}
