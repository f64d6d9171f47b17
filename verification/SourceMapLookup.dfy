/** The mapping a generated position is resolved to: the greatest at or before it, the first one on ties. */
module SourceMapLookup {
  import opened Text

  /** `origin` stands for the source, the original position and the name. */
  datatype Mapping = Mapping(line: int, column: int, origin: int)

  /** Lexicographic order of generated positions. */
  predicate Before(a: Mapping, line: int, column: int) {
    a.line < line || (a.line == line && a.column < column)
  }

  predicate AtOrBefore(a: Mapping, line: int, column: int) {
    a.line < line || (a.line == line && a.column <= column)
  }

  /** `ms[k]` is at or before the target, no such mapping is greater, and none in front of it is as great. */
  predicate IsBest(ms: seq<Mapping>, line: int, column: int, k: nat) {
    && k < |ms| && AtOrBefore(ms[k], line, column)
    && (forall j | 0 <= j < |ms| && AtOrBefore(ms[j], line, column) :: AtOrBefore(ms[j], ms[k].line, ms[k].column))
    && (forall j | 0 <= j < k && AtOrBefore(ms[j], line, column) :: Before(ms[j], ms[k].line, ms[k].column))
  }

  /** The pass over all mappings; `k` is where the best one is. */
  method GreatestLowerBound(ms: seq<Mapping>, genLine: int, genCol0: int) returns (best: Option<Mapping>, ghost k: nat)
    ensures best.None? <==> forall m | m in ms :: !AtOrBefore(m, genLine, genCol0)
    ensures best.Some? ==> IsBest(ms, genLine, genCol0, k) && best.value == ms[k]
  {
    best, k := None, 0;
    for i := 0 to |ms|
      invariant best.None? ==> forall j | 0 <= j < i :: !AtOrBefore(ms[j], genLine, genCol0)
      invariant best.Some? ==> IsBest(ms[..i], genLine, genCol0, k) && best.value == ms[k]
    {
      var m := ms[i];
      if m.line < genLine || (m.line == genLine && m.column <= genCol0) {
        if best.None? || m.line > best.value.line || (m.line == best.value.line && m.column > best.value.column) {
          best, k := Some(m), i;
        }
      }
    }
    assert ms[..|ms|] == ms;
  }

  /** There is only one best place. */
  lemma BestIsUnique(ms: seq<Mapping>, line: int, column: int, a: nat, b: nat)
    requires IsBest(ms, line, column, a) && IsBest(ms, line, column, b)
    ensures a == b
  {
  }

  // ----- On sorted mappings -----

  predicate Sorted(ms: seq<Mapping>) {
    forall i, j | 0 <= i < j < |ms| :: AtOrBefore(ms[i], ms[j].line, ms[j].column)
  }

  /** Bisection: how many mappings of `ms[lo..hi]` and before are at or before the target. */
  function Bisect(ms: seq<Mapping>, line: int, column: int, lo: nat, hi: nat): (n: nat)
    requires Sorted(ms) && lo <= hi <= |ms|
    requires forall j | 0 <= j < lo :: AtOrBefore(ms[j], line, column)
    requires forall j | hi <= j < |ms| :: !AtOrBefore(ms[j], line, column)
    ensures n <= |ms| && forall j | 0 <= j < |ms| :: AtOrBefore(ms[j], line, column) <==> j < n
    decreases hi - lo
  {
    if lo == hi then lo
    else
      var mid := (lo + hi) / 2;
      if AtOrBefore(ms[mid], line, column) then Bisect(ms, line, column, mid + 1, hi)
      else Bisect(ms, line, column, lo, mid)
  }

  /** Bisection for the first mapping at a position that `ms[at]` has. */
  function FirstDuplicate(ms: seq<Mapping>, at: nat, lo: nat, hi: nat): (n: nat)
    requires Sorted(ms) && lo <= hi <= at < |ms|
    requires forall j | 0 <= j < lo :: Before(ms[j], ms[at].line, ms[at].column)
    requires forall j | hi <= j <= at :: !Before(ms[j], ms[at].line, ms[at].column)
    ensures n <= at && forall j | 0 <= j <= at :: Before(ms[j], ms[at].line, ms[at].column) <==> j < n
    decreases hi - lo
  {
    if lo == hi then lo
    else
      var mid := (lo + hi) / 2;
      if Before(ms[mid], ms[at].line, ms[at].column) then FirstDuplicate(ms, at, mid + 1, hi)
      else FirstDuplicate(ms, at, lo, mid)
  }

  function BinarySearch(ms: seq<Mapping>, line: int, column: int): Option<nat>
    requires Sorted(ms)
  {
    var n := Bisect(ms, line, column, 0, |ms|);
    if n == 0 then None else Some(FirstDuplicate(ms, n - 1, 0, n - 1))
  }

  lemma FirstIsBest(ms: seq<Mapping>, line: int, column: int, n: nat, f: nat)
    requires Sorted(ms) && f < n <= |ms|
    requires forall j | 0 <= j < |ms| :: AtOrBefore(ms[j], line, column) <==> j < n
    requires forall j | 0 <= j < n :: Before(ms[j], ms[n - 1].line, ms[n - 1].column) <==> j < f
    ensures IsBest(ms, line, column, f)
  {
    assert f < n - 1 ==> AtOrBefore(ms[f], ms[n - 1].line, ms[n - 1].column);
    assert ms[f].line == ms[n - 1].line && ms[f].column == ms[n - 1].column;
  }

  /** On sorted mappings a binary search for the first duplicate finds the place the pass finds. */
  lemma SearchIsLookup(ms: seq<Mapping>, line: int, column: int, k: nat)
    requires Sorted(ms)
    ensures BinarySearch(ms, line, column).None? <==> forall m | m in ms :: !AtOrBefore(m, line, column)
    ensures BinarySearch(ms, line, column) == Some(k) <==> IsBest(ms, line, column, k)
  {
    var n := Bisect(ms, line, column, 0, |ms|);
    if n > 0 {
      var f := FirstDuplicate(ms, n - 1, 0, n - 1);
      assert ms[n - 1] in ms;
      FirstIsBest(ms, line, column, n, f);
      hide IsBest;
      if IsBest(ms, line, column, k) { BestIsUnique(ms, line, column, f, k); }
    } else {
      forall m | m in ms ensures !AtOrBefore(m, line, column) {
        var j :| 0 <= j < |ms| && ms[j] == m;
      }
    }
  }

  /** The position found does not depend on the order in which the mappings are traversed. */
  lemma PositionFound(ms: seq<Mapping>, ns: seq<Mapping>, line: int, column: int, a: nat, b: nat)
    requires IsBest(ms, line, column, a) && IsBest(ns, line, column, b)
    requires forall m :: m in ms <==> m in ns
    ensures ms[a].line == ns[b].line && ms[a].column == ns[b].column
  {
    assert ms[a] in ns && ns[b] in ms;
    var i :| 0 <= i < |ns| && ns[i] == ms[a];
    var j :| 0 <= j < |ms| && ms[j] == ns[b];
  }

  /** The best place, by lines and columns: nothing lies between it and the target, and it is the first such. */
  lemma BestSpelled(ms: seq<Mapping>, line: int, column: int, k: nat)
    ensures IsBest(ms, line, column, k)
       <==> && k < |ms| && (ms[k].line < line || (ms[k].line == line && ms[k].column <= column))
            && (forall j | 0 <= j < |ms| ::
                  || ms[j].line > line || (ms[j].line == line && ms[j].column > column)
                  || ms[j].line < ms[k].line || (ms[j].line == ms[k].line && ms[j].column <= ms[k].column))
            && (forall j | 0 <= j < k :: ms[j].line != ms[k].line || ms[j].column != ms[k].column)
  {
  }
}
