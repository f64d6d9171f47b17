/** Replacing ranges of a text by offsets: the right-to-left loop equals simultaneous substitution. */
module Splice {
  import opened Text

  /** Replace `[start, end)` by `text`. */
  datatype Edit = Edit(start: nat, end: nat, text: string)

  predicate InRange(e: Edit, n: nat) {
    e.start <= e.end <= n
  }

  function ApplyOne(s: string, e: Edit): string
    requires InRange(e, |s|)
  {
    s[..e.start] + e.text + s[e.end..]
  }

  // ----- The stable sort and the loop -----

  function InsertEdit(e: Edit, sorted: seq<Edit>): seq<Edit> {
    if sorted == [] || sorted[0].start <= e.start then [e] + sorted
    else [sorted[0]] + InsertEdit(e, sorted[1..])
  }

  /** `edits.sort((left, right) => right.start - left.start)`: descending starts, ties in their original order. */
  function SortEdits(edits: seq<Edit>): seq<Edit> {
    if edits == [] then [] else InsertEdit(edits[0], SortEdits(edits[1..]))
  }

  /** Applying edits one after the other; None when an offset has run out of the text. */
  function ApplyAll(s: string, edits: seq<Edit>): Option<string>
    decreases edits
  {
    if edits == [] then Some(s)
    else if !InRange(edits[0], |s|) then None
    else ApplyAll(ApplyOne(s, edits[0]), edits[1..])
  }

  // ----- Simultaneous substitution -----

  /** The texts that go in at `p`; of two edits starting there, the later one's text comes first. */
  function Inserted(edits: seq<Edit>, p: nat): string {
    if edits == [] then ""
    else Inserted(edits[1..], p) + (if edits[0].start == p then edits[0].text else "")
  }

  predicate Covered(edits: seq<Edit>, p: nat) {
    exists e | e in edits :: e.start <= p < e.end
  }

  /** What stands for the character at `p`; past the last character, only insertions do. */
  function Here(s: string, edits: seq<Edit>, p: nat): string
    requires p <= |s|
  {
    Inserted(edits, p) + (if p == |s| || Covered(edits, p) then "" else [s[p]])
  }

  function Parts(s: string, edits: seq<Edit>): (parts: seq<string>)
    ensures |parts| == |s| + 1
    ensures forall p | 0 <= p <= |s| :: parts[p] == Here(s, edits, p)
  {
    seq(|s| + 1, p requires 0 <= p <= |s| => Here(s, edits, p))
  }

  function Weave(parts: seq<string>, p: nat): string
    requires p <= |parts|
    decreases |parts| - p
  {
    if p == |parts| then "" else parts[p] + Weave(parts, p + 1)
  }

  /** `s[p..]` with every edit done at once, each against the original offsets. */
  function Substitute(s: string, edits: seq<Edit>, p: nat): string
    requires p <= |s|
  {
    Weave(Parts(s, edits), p)
  }

  /** Ranges do not overlap, and an edit starting where an earlier one in the list does must be a pure insertion. */
  predicate Compatible(a: Edit, b: Edit) {
    (a.end <= b.start || b.end <= a.start) && (a.start == b.start ==> b.start == b.end)
  }

  predicate AllCompatible(edits: seq<Edit>) {
    forall i, j | 0 <= i < j < |edits| :: Compatible(edits[i], edits[j])
  }

  // ----- Weaving -----

  lemma {:induction false} WeaveSame(a: seq<string>, b: seq<string>, p: nat)
    requires |a| == |b| && p <= |a| && forall q | p <= q < |a| :: a[q] == b[q]
    ensures Weave(a, p) == Weave(b, p)
    decreases |a| - p
  {
    if p < |a| { WeaveSame(a, b, p + 1); }
  }

  lemma {:induction false} WeaveEmpty(parts: seq<string>, p: nat, q: nat)
    requires p <= q <= |parts| && forall i | p <= i < q :: parts[i] == ""
    ensures Weave(parts, p) == Weave(parts, q)
    decreases q - p
  {
    if p < q { WeaveEmpty(parts, p + 1, q); }
  }

  lemma {:induction false} WeavePlain(parts: seq<string>, s: string, p: nat, q: nat)
    requires p <= q <= |s| && q <= |parts| && forall i | p <= i < q :: parts[i] == [s[i]]
    ensures Weave(parts, p) == s[p..q] + Weave(parts, q)
    decreases q - p
  {
    if p < q {
      WeavePlain(parts, s, p + 1, q);
      var front, back := s[p + 1..q], Weave(parts, q);
      assert Weave(parts, p) == [s[p]] + (front + back);
      assert s[p..q] == [s[p]] + front;
      assert [s[p]] + (front + back) == [s[p]] + front + back;
    }
  }

  // ----- What stands at each place -----

  lemma SameSubstitution(s: string, a: seq<Edit>, b: seq<Edit>, p: nat)
    requires p <= |s|
    requires forall q | p <= q <= |s| :: Inserted(a, q) == Inserted(b, q) && Covered(a, q) == Covered(b, q)
    ensures Substitute(s, a, p) == Substitute(s, b, p)
  {
    var x, y := Parts(s, a), Parts(s, b);
    forall q | p <= q < |x| ensures x[q] == y[q] { assert Inserted(a, q) == Inserted(b, q); }
    WeaveSame(x, y, p);
  }

  lemma {:induction false} InsertedAppend(a: seq<Edit>, b: seq<Edit>, p: nat)
    ensures Inserted(a + b, p) == Inserted(b, p) + Inserted(a, p)
  {
    if a == [] {
      assert a + b == b;
    } else {
      assert (a + b)[1..] == a[1..] + b;
      InsertedAppend(a[1..], b, p);
    }
  }

  lemma {:induction false} InsertedNone(edits: seq<Edit>, p: nat)
    requires forall e | e in edits :: e.start != p
    ensures Inserted(edits, p) == ""
  {
    if edits != [] { InsertedNone(edits[1..], p); }
  }

  /** Where nothing starts and nothing is covered, the text comes through unchanged. */
  lemma Untouched(s: string, edits: seq<Edit>, p: nat, q: nat)
    requires p <= q <= |s|
    requires forall e | e in edits :: (e.end <= p && e.start < p) || q <= e.start
    ensures Substitute(s, edits, p) == s[p..q] + Substitute(s, edits, q)
  {
    forall i | p <= i < q ensures Parts(s, edits)[i] == [s[i]] { InsertedNone(edits, i); }
    WeavePlain(Parts(s, edits), s, p, q);
  }

  /** A covered stretch in which nothing starts disappears. */
  lemma Swallowed(s: string, edits: seq<Edit>, p: nat, q: nat, e: Edit)
    requires p <= q <= |s| && e in edits && e.start < p && q <= e.end
    requires forall d | d in edits :: d.start < p || q <= d.start
    ensures Substitute(s, edits, p) == Substitute(s, edits, q)
  {
    forall i | p <= i < q ensures Parts(s, edits)[i] == "" {
      InsertedNone(edits, i);
      assert Covered(edits, i);
    }
    WeaveEmpty(Parts(s, edits), p, q);
  }

  // ----- The loop does the substitution -----

  predicate Descending(edits: seq<Edit>) {
    forall i, j | 0 <= i < j < |edits| :: edits[j].start <= edits[i].start
  }

  /** What one more edit in front of the others changes: the text at its start, and what it covers. */
  lemma OneMoreAt(edits: seq<Edit>, e: Edit, p: nat)
    ensures Inserted(edits + [e], p) == (if e.start == p then e.text else "") + Inserted(edits, p)
    ensures Covered(edits + [e], p) <==> Covered(edits, p) || e.start <= p < e.end
  {
    InsertedAppend(edits, [e], p);
    assert [e][1..] == [];
    assert Inserted([e], p) == "" + (if e.start == p then e.text else "");
    assert forall d :: d in edits + [e] <==> d in edits || d == e;
  }

  /** One more edit, starting at or before all those done and ending before any of them starts. */
  lemma OneMore(s: string, edits: seq<Edit>, e: Edit)
    requires InRange(e, |s|) && forall d | d in edits :: e.end <= d.start
    ensures Substitute(s, edits + [e], e.start) == e.text + Substitute(s, edits, e.end)
  {
    if e.start < e.end { OneMoreDeletes(s, edits, e); } else { OneMoreInserts(s, edits, e); }
  }

  lemma OneMoreDeletes(s: string, edits: seq<Edit>, e: Edit)
    requires e.start < e.end <= |s| && forall d | d in edits :: e.end <= d.start
    ensures Substitute(s, edits + [e], e.start) == e.text + Substitute(s, edits, e.end)
  {
    hide Inserted, Covered;
    var all := edits + [e];
    assert Here(s, all, e.start) == e.text by {
      OneMoreAt(edits, e, e.start);
      InsertedNone(edits, e.start);
    }
    assert Substitute(s, all, e.start + 1) == Substitute(s, all, e.end) by {
      assert e in all;
      Swallowed(s, all, e.start + 1, e.end, e);
    }
    AfterEdit(s, edits, e, e.end);
  }

  lemma OneMoreInserts(s: string, edits: seq<Edit>, e: Edit)
    requires e.start == e.end <= |s|
    ensures Substitute(s, edits + [e], e.start) == e.text + Substitute(s, edits, e.end)
  {
    hide Inserted, Covered;
    var all, p := edits + [e], e.start;
    var kept := if p == |s| || Covered(edits, p) then "" else [s[p]];
    assert Here(s, all, p) == e.text + Here(s, edits, p) by {
      OneMoreAt(edits, e, p);
      assert e.text + Inserted(edits, p) + kept == e.text + (Inserted(edits, p) + kept);
    }
    var rest := Weave(Parts(s, edits), p + 1);
    forall q | p < q <= |s| ensures Parts(s, all)[q] == Parts(s, edits)[q] { OneMoreAt(edits, e, q); }
    WeaveSame(Parts(s, all), Parts(s, edits), p + 1);
    assert e.text + Here(s, edits, p) + rest == e.text + (Here(s, edits, p) + rest);
  }

  lemma AfterEdit(s: string, edits: seq<Edit>, e: Edit, p: nat)
    requires e.start < p && e.end <= p <= |s|
    ensures Substitute(s, edits + [e], p) == Substitute(s, edits, p)
  {
    forall q | p <= q <= |s|
      ensures Inserted(edits + [e], q) == Inserted(edits, q) && Covered(edits + [e], q) == Covered(edits, q)
    {
      OneMoreAt(edits, e, q);
    }
    SameSubstitution(s, edits + [e], edits, p);
  }

  /** The text once the edits in `done` have been applied: untouched up to any of their starts. */
  ghost predicate Spliced(s: string, done: seq<Edit>, text: string) {
    forall m: nat | m <= |s| && (forall d | d in done :: m <= d.start) :: text == s[..m] + Substitute(s, done, m)
  }

  lemma LoopStep(s: string, done: seq<Edit>, e: Edit, text: string)
    requires Spliced(s, done, text) && InRange(e, |s|) && forall d | d in done :: e.end <= d.start
    ensures InRange(e, |text|) && Spliced(s, done + [e], ApplyOne(text, e))
  {
    var rest := Substitute(s, done, e.end);
    var next := ApplyOne(text, e);
    assert text == s[..e.end] + rest;
    assert text[..e.start] == s[..e.start] && text[e.end..] == rest;
    OneMore(s, done, e);
    assert next == s[..e.start] + Substitute(s, done + [e], e.start);
    forall m: nat | m <= |s| && (forall d | d in done + [e] :: m <= d.start)
      ensures next == s[..m] + Substitute(s, done + [e], m)
    {
      assert e in done + [e];
      Before(s, done + [e], m, e.start, next);
    }
  }

  lemma Before(s: string, edits: seq<Edit>, m: nat, n: nat, text: string)
    requires m <= n <= |s| && forall d | d in edits :: n <= d.start
    requires text == s[..n] + Substitute(s, edits, n)
    ensures text == s[..m] + Substitute(s, edits, m)
  {
    Untouched(s, edits, m, n);
    assert s[..n] == s[..m] + s[m..n];
  }

  lemma {:induction false} LoopSubstitutes(s: string, done: seq<Edit>, rest: seq<Edit>, text: string)
    requires forall e | e in done + rest :: InRange(e, |s|)
    requires Descending(done + rest) && AllCompatible(done + rest)
    requires Spliced(s, done, text)
    ensures ApplyAll(text, rest) == Some(Substitute(s, done + rest, 0))
    decreases rest
  {
    if rest == [] {
      assert done + rest == done;
      assert text == s[..0] + Substitute(s, done, 0) == Substitute(s, done, 0);
    } else {
      var e := rest[0];
      var all := done + rest;
      assert all[|done|] == e && e in all;
      forall d | d in done ensures e.end <= d.start {
        var i :| 0 <= i < |done| && done[i] == d;
        assert d in all && all[i] == d;
        assert Compatible(all[i], all[|done|]) && all[|done|].start <= all[i].start;
      }
      LoopStep(s, done, e, text);
      assert done + [e] + rest[1..] == all;
      LoopSubstitutes(s, done + [e], rest[1..], ApplyOne(text, e));
    }
  }

  // ----- Sorting changes neither what goes in nor what is compatible -----

  lemma {:induction false} InsertEditMembers(e: Edit, sorted: seq<Edit>)
    ensures forall d :: d in InsertEdit(e, sorted) <==> d == e || d in sorted
  {
    if sorted != [] {
      assert sorted == [sorted[0]] + sorted[1..];
      if sorted[0].start > e.start { InsertEditMembers(e, sorted[1..]); }
    }
  }

  lemma {:induction false} InsertEditDescends(e: Edit, sorted: seq<Edit>)
    requires Descending(sorted)
    ensures Descending(InsertEdit(e, sorted))
  {
    if sorted != [] && sorted[0].start > e.start {
      var tail := sorted[1..];
      InsertEditDescends(e, tail);
      InsertEditMembers(e, tail);
      var rest := InsertEdit(e, tail);
      forall i | 0 <= i < |rest| ensures rest[i].start <= sorted[0].start {
        assert rest[i] in rest;
        if rest[i] in tail {
          var k :| 0 <= k < |tail| && tail[k] == rest[i];
          assert sorted[k + 1] == rest[i];
        }
      }
    }
  }

  /** Moving an edit behind one that starts elsewhere changes no insertion. */
  lemma {:induction false} InsertEditInserts(e: Edit, sorted: seq<Edit>, p: nat)
    ensures Inserted(InsertEdit(e, sorted), p) == Inserted([e] + sorted, p)
  {
    if sorted != [] && sorted[0].start > e.start {
      var head, tail := sorted[0], sorted[1..];
      var rest := InsertEdit(e, tail);
      InsertEditInserts(e, tail, p);
      assert ([head] + rest)[1..] == rest && ([e] + sorted)[1..] == sorted && ([e] + tail)[1..] == tail;
      assert Inserted([head] + rest, p) == Inserted(rest, p) + (if head.start == p then head.text else "");
      assert Inserted([e] + sorted, p) == Inserted(sorted, p) + (if e.start == p then e.text else "");
    }
  }

  lemma {:induction false} InsertEditCompatible(e: Edit, sorted: seq<Edit>)
    requires AllCompatible([e] + sorted)
    ensures AllCompatible(InsertEdit(e, sorted))
  {
    if sorted != [] && sorted[0].start > e.start {
      var head, tail, all := sorted[0], sorted[1..], [e] + sorted;
      forall i, j | 0 <= i < j < |[e] + tail| ensures Compatible(([e] + tail)[i], ([e] + tail)[j]) {
        assert ([e] + tail)[i] == all[if i == 0 then 0 else i + 1] && ([e] + tail)[j] == all[j + 1];
      }
      InsertEditCompatible(e, tail);
      InsertEditMembers(e, tail);
      var rest := InsertEdit(e, tail);
      forall i | 0 <= i < |rest| ensures Compatible(head, rest[i]) {
        assert rest[i] in rest;
        assert all[1] == head;
        if rest[i] == e {
          assert Compatible(all[0], all[1]);
        } else {
          var k :| 0 <= k < |tail| && tail[k] == rest[i];
          assert Compatible(all[1], all[k + 2]);
        }
      }
    }
  }

  lemma {:induction false} SortEditsExact(edits: seq<Edit>)
    ensures Descending(SortEdits(edits))
    ensures forall d :: d in SortEdits(edits) <==> d in edits
    ensures forall p :: Inserted(SortEdits(edits), p) == Inserted(edits, p)
    ensures AllCompatible(edits) ==> AllCompatible(SortEdits(edits))
  {
    if edits != [] {
      var e, sorted := edits[0], SortEdits(edits[1..]);
      SortEditsExact(edits[1..]);
      InsertEditMembers(e, sorted);
      InsertEditDescends(e, sorted);
      assert edits == [e] + edits[1..];
      forall p ensures Inserted(SortEdits(edits), p) == Inserted(edits, p) {
        InsertEditInserts(e, sorted, p);
        InsertedAppend([e], sorted, p);
        InsertedAppend([e], edits[1..], p);
      }
      if AllCompatible(edits) {
        assert AllCompatible(edits[1..]);
        forall i | 0 <= i < |sorted| ensures Compatible(e, sorted[i]) {
          assert sorted[i] in sorted;
          var k :| 0 <= k < |edits[1..]| && edits[1..][k] == sorted[i];
          assert edits[k + 1] == sorted[i];
        }
        InsertEditCompatible(e, sorted);
      }
    }
  }

  lemma NothingBehind(s: string)
    ensures Substitute(s, [], |s|) == ""
  {
    var parts := Parts(s, []);
    assert parts[|s|] == "" && Weave(parts, |s| + 1) == "";
    assert Weave(parts, |s|) == parts[|s|] + Weave(parts, |s| + 1);
  }

  lemma NothingSpliced(s: string)
    ensures Spliced(s, [], s)
  {
    hide Substitute;
    NothingBehind(s);
    forall m: nat | m <= |s| ensures s == s[..m] + Substitute(s, [], m) {
      Untouched(s, [], m, |s|);
      assert s[m..|s|] + "" == s[m..];
    }
  }

  /** Sorting the edits and applying them from right to left is the simultaneous substitution of all of them. */
  lemma SplicingCorrect(s: string, edits: seq<Edit>)
    requires forall e | e in edits :: InRange(e, |s|)
    requires AllCompatible(edits)
    ensures ApplyAll(s, SortEdits(edits)) == Some(Substitute(s, edits, 0))
  {
    hide SortEdits, ApplyAll, Substitute, Spliced, AllCompatible, Descending, Inserted, InRange;
    SortEditsExact(edits);
    var sorted := SortEdits(edits);
    NothingSpliced(s);
    assert [] + sorted == sorted;
    LoopSubstitutes(s, [], sorted, s);
    SameSubstitution(s, sorted, edits, 0);
  }

  /** The loop over the sorted edits. */
  method ApplyEdits(source: string, edits: seq<Edit>) returns (text: string)
    requires forall e | e in edits :: InRange(e, |source|)
    requires AllCompatible(edits)
    ensures text == Substitute(source, edits, 0)
  {
    var sorted := SortEdits(edits);
    SplicingCorrect(source, edits);
    text := source;
    var i := 0;
    while i < |sorted|
      invariant 0 <= i <= |sorted|
      invariant ApplyAll(text, sorted[i..]) == Some(Substitute(source, edits, 0))
    {
      var edit := sorted[i];
      assert sorted[i..][0] == edit && sorted[i..][1..] == sorted[i + 1..];
      text := text[..edit.start] + edit.text + text[edit.end..];
      i := i + 1;
    }
  }

  /** Why the order of ties matters: an insertion listed before a deletion at the same offset is lost. */
  lemma TieOrderMatters()
    ensures ApplyAll("ab", SortEdits([Edit(0, 1, ""), Edit(0, 0, "x")])) == Some("xb")
    ensures ApplyAll("ab", SortEdits([Edit(0, 0, "x"), Edit(0, 1, "")])) == Some("ab")
  {
    var d, i := Edit(0, 1, ""), Edit(0, 0, "x");
    assert SortEdits([d, i]) == [d, i] by {
      assert [d, i][1..] == [i] && [i][1..] == [];
      assert SortEdits([i]) == [i];
    }
    assert SortEdits([i, d]) == [i, d] by {
      assert [i, d][1..] == [d] && [d][1..] == [];
      assert SortEdits([d]) == [d];
    }
    assert [d, i][1..] == [i] && [i][1..] == [] && [i, d][1..] == [d] && [d][1..] == [];
    assert ApplyOne("ab", d) == "b" && ApplyOne("b", i) == "xb";
    assert ApplyOne("ab", i) == "xab" && ApplyOne("xab", d) == "ab";
    assert ApplyAll("b", [i]) == ApplyAll("xb", []);
    assert ApplyAll("xab", [d]) == ApplyAll("ab", []);
  }
}
