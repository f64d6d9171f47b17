/** Texts made of blocks, each with at most one change: splicing all changes at once changes each block in place. */
module BlockSplicing {
  import opened Text
  import opened Splice

  /** The kinds of blocks that are edited. */
  datatype Class = Templates | Mains | Styles | Others

  /** Replace `[from, until)` of a block. */
  datatype Change = Change(from: nat, until: nat, text: string)

  /** White space, then a block. */
  datatype Cell = Cell(class_: Class, gap: string, inner: string, change: Option<Change>)

  predicate ValidCell(c: Cell) {
    c.change.Some? ==> c.change.value.from <= c.change.value.until <= |c.inner| && c.change.value.from < |c.inner|
  }

  predicate ValidCells(cells: seq<Cell>) {
    forall c | c in cells :: ValidCell(c)
  }

  /** The text the cells stand for. */
  function Flat(cells: seq<Cell>, tail: string): string {
    if cells == [] then tail else cells[0].gap + cells[0].inner + Flat(cells[1..], tail)
  }

  /** A block after its change. */
  function Out(c: Cell): string
    requires ValidCell(c)
  {
    if c.change.None? then c.inner
    else c.inner[..c.change.value.from] + c.change.value.text + c.inner[c.change.value.until..]
  }

  function Outs(cells: seq<Cell>, tail: string): string
    requires ValidCells(cells)
  {
    if cells == [] then tail else cells[0].gap + Out(cells[0]) + Outs(cells[1..], tail)
  }

  function EditAt(c: Cell, o: nat): Option<Edit> {
    if c.change.None? then None
    else Some(Edit(o + |c.gap| + c.change.value.from, o + |c.gap| + c.change.value.until, c.change.value.text))
  }

  /** A block reduced to its class, its edit and the offset where it ends. */
  datatype Slot = Slot(class_: Class, edit: Option<Edit>, end: nat)

  function SizeOf(c: Cell): nat {
    |c.gap| + |c.inner|
  }

  function Slots(cells: seq<Cell>, o: nat): seq<Slot> {
    if cells == [] then []
    else [Slot(cells[0].class_, EditAt(cells[0], o), o + SizeOf(cells[0]))] + Slots(cells[1..], o + SizeOf(cells[0]))
  }

  /** The edits of the blocks of some classes, in the order of the blocks. */
  function Pick(classes: set<Class>, slots: seq<Slot>): seq<Edit> {
    if slots == [] then []
    else Head(classes, slots[0]) + Pick(classes, slots[1..])
  }

  function Head(classes: set<Class>, slot: Slot): seq<Edit> {
    if slot.class_ in classes && slot.edit.Some? then [slot.edit.value] else []
  }

  // ----- The edits are where they should be -----

  /** Every edit of the list lies within the bounds. */
  predicate Between(edits: seq<Edit>, lo: nat, hi: nat) {
    forall e | e in edits :: lo <= e.start <= e.end <= hi
  }

  /** Every slot's edit starts inside its block, and the blocks follow one another. */
  predicate Placed(slots: seq<Slot>, lo: nat, hi: nat)
    decreases slots
  {
    if slots == [] then lo <= hi
    else
      && lo <= slots[0].end
      && (slots[0].edit.Some? ==>
            var e := slots[0].edit.value; lo <= e.start <= e.end <= slots[0].end && e.start < slots[0].end)
      && Placed(slots[1..], slots[0].end, hi)
  }

  function Extent(cells: seq<Cell>): nat {
    if cells == [] then 0 else SizeOf(cells[0]) + Extent(cells[1..])
  }

  lemma {:induction false} FlatExtent(cells: seq<Cell>, tail: string)
    ensures |Flat(cells, tail)| == Extent(cells) + |tail|
  {
    if cells != [] { FlatExtent(cells[1..], tail); }
  }

  lemma {:induction false} SlotsPlaced(cells: seq<Cell>, o: nat)
    requires ValidCells(cells)
    ensures Placed(Slots(cells, o), o, o + Extent(cells))
  {
    if cells != [] {
      var c := cells[0];
      assert c in cells;
      SlotsPlaced(cells[1..], o + SizeOf(c));
      assert Slots(cells, o)[1..] == Slots(cells[1..], o + SizeOf(c));
    }
  }

  lemma {:induction false} PickBetween(classes: set<Class>, slots: seq<Slot>, lo: nat, hi: nat)
    requires Placed(slots, lo, hi)
    ensures Between(Pick(classes, slots), lo, hi) && lo <= hi
    decreases slots
  {
    if slots != [] { PickBetween(classes, slots[1..], slots[0].end, hi); }
  }

  /** Edits of different blocks start at different places and do not overlap. */
  predicate Apart(a: seq<Edit>, b: seq<Edit>) {
    forall d, e | d in a && e in b :: (d.start < e.start && d.end <= e.start) || (e.start < d.start && e.end <= d.start)
  }

  lemma ApartJoin(a: seq<Edit>, a': seq<Edit>, b: seq<Edit>, b': seq<Edit>)
    requires Apart(a, b) && Apart(a, b') && Apart(a', b) && Apart(a', b')
    ensures Apart(a + a', b + b')
  {
  }

  lemma CompatibleJoin(a: seq<Edit>, b: seq<Edit>)
    requires AllCompatible(a) && AllCompatible(b) && Apart(a, b)
    ensures AllCompatible(a + b)
  {
    var c := a + b;
    forall i, j | 0 <= i < j < |c| ensures Compatible(c[i], c[j]) {
      if j < |a| {
        assert c[i] == a[i] && c[j] == a[j];
      } else if i >= |a| {
        assert c[i] == b[i - |a|] && c[j] == b[j - |a|];
      } else {
        assert c[i] in a && c[j] in b;
      }
    }
  }

  lemma {:induction false} PickCompatible(classes: set<Class>, slots: seq<Slot>, lo: nat, hi: nat)
    requires Placed(slots, lo, hi)
    ensures AllCompatible(Pick(classes, slots))
    decreases slots
  {
    if slots != [] {
      PickBetween(classes, slots[1..], slots[0].end, hi);
      PickCompatible(classes, slots[1..], slots[0].end, hi);
      CompatibleJoin(Head(classes, slots[0]), Pick(classes, slots[1..]));
    }
  }

  lemma {:induction false} PickApart(a: set<Class>, b: set<Class>, slots: seq<Slot>, lo: nat, hi: nat)
    requires Placed(slots, lo, hi) && a !! b
    ensures Apart(Pick(a, slots), Pick(b, slots))
    decreases slots
  {
    if slots != [] {
      var slot, rest := slots[0], slots[1..];
      PickBetween(a, rest, slot.end, hi);
      PickBetween(b, rest, slot.end, hi);
      PickApart(a, b, rest, slot.end, hi);
      ApartJoin(Head(a, slot), Pick(a, rest), Head(b, slot), Pick(b, rest));
    }
  }

  /** A pure insertion at or before the starts of all others may come last. */
  lemma RootLast(edits: seq<Edit>, root: Edit, hi: nat)
    requires AllCompatible(edits) && Between(edits, root.start, hi) && root.start == root.end
    ensures AllCompatible(edits + [root])
  {
    var all := edits + [root];
    forall i, j | 0 <= i < j < |all| ensures Compatible(all[i], all[j]) {
      assert all[i] == edits[i] && edits[i] in edits;
      if j < |edits| { assert all[j] == edits[j]; } else { assert all[j] == root; }
    }
  }

  /** Drops, then additions to the main script, then styles: the order of collection. */
  function Collected(slots: seq<Slot>): seq<Edit> {
    Pick({Templates}, slots) + Pick({Mains}, slots) + Pick({Styles}, slots)
  }

  lemma CollectedCompatible(slots: seq<Slot>, lo: nat, hi: nat)
    requires Placed(slots, lo, hi)
    ensures AllCompatible(Collected(slots)) && Between(Collected(slots), lo, hi)
  {
    var d, a, s := Pick({Templates}, slots), Pick({Mains}, slots), Pick({Styles}, slots);
    PickCompatible({Templates}, slots, lo, hi);
    PickCompatible({Mains}, slots, lo, hi);
    PickCompatible({Styles}, slots, lo, hi);
    PickApart({Templates}, {Mains}, slots, lo, hi);
    PickApart({Templates}, {Styles}, slots, lo, hi);
    PickApart({Mains}, {Styles}, slots, lo, hi);
    PickBetween({Templates}, slots, lo, hi);
    PickBetween({Mains}, slots, lo, hi);
    PickBetween({Styles}, slots, lo, hi);
    CompatibleJoin(d, a);
    ApartJoin(d, a, s, []);
    assert s + [] == s;
    CompatibleJoin(d + a, s);
  }

  // ----- The order of collection does not matter -----

  lemma CoveredAppend(a: seq<Edit>, b: seq<Edit>, q: nat)
    ensures Covered(a + b, q) <==> Covered(a, q) || Covered(b, q)
  {
    assert forall e :: e in a + b <==> e in a || e in b;
  }

  const ALL := {Templates, Mains, Styles, Others}

  /** The first block only matters before its end, the rest only from there on. */
  lemma PickSplit(classes: set<Class>, slots: seq<Slot>, lo: nat, hi: nat, q: nat)
    requires slots != [] && Placed(slots, lo, hi)
    ensures Inserted(Pick(classes, slots), q)
         == if q < slots[0].end then Inserted(Head(classes, slots[0]), q) else Inserted(Pick(classes, slots[1..]), q)
    ensures Covered(Pick(classes, slots), q)
         == if q < slots[0].end then Covered(Head(classes, slots[0]), q) else Covered(Pick(classes, slots[1..]), q)
  {
    var head, rest := Head(classes, slots[0]), Pick(classes, slots[1..]);
    PickBetween(classes, slots[1..], slots[0].end, hi);
    InsertedAppend(head, rest, q);
    CoveredAppend(head, rest, q);
    if q < slots[0].end { InsertedNone(rest, q); } else { InsertedNone(head, q); }
  }

  lemma {:induction false} PickUnion(a: set<Class>, b: set<Class>, slots: seq<Slot>, lo: nat, hi: nat, q: nat)
    requires Placed(slots, lo, hi) && a !! b
    ensures Inserted(Pick(b, slots), q) + Inserted(Pick(a, slots), q) == Inserted(Pick(a + b, slots), q)
    ensures Covered(Pick(a, slots), q) || Covered(Pick(b, slots), q) <==> Covered(Pick(a + b, slots), q)
    decreases slots
  {
    if slots != [] {
      PickSplit(a, slots, lo, hi, q);
      PickSplit(b, slots, lo, hi, q);
      PickSplit(a + b, slots, lo, hi, q);
      PickUnion(a, b, slots[1..], slots[0].end, hi, q);
    }
  }

  /** The edits as collected put in and cover the same as those in the order of the blocks. */
  lemma SameEdits(slots: seq<Slot>, lo: nat, hi: nat, q: nat)
    requires Placed(slots, lo, hi) && forall s | s in slots :: s.class_ == Others ==> s.edit.None?
    ensures Inserted(Collected(slots), q) == Inserted(Pick(ALL, slots), q)
    ensures Covered(Collected(slots), q) == Covered(Pick(ALL, slots), q)
  {
    var d, a, s := Pick({Templates}, slots), Pick({Mains}, slots), Pick({Styles}, slots);
    PickUnion({Templates}, {Mains}, slots, lo, hi, q);
    PickUnion({Templates} + {Mains}, {Styles}, slots, lo, hi, q);
    InsertedAppend(d + a, s, q);
    CoveredAppend(d + a, s, q);
    InsertedAppend(d, a, q);
    CoveredAppend(d, a, q);
    OthersIdle(slots);
  }

  lemma {:induction false} OthersIdle(slots: seq<Slot>)
    requires forall s | s in slots :: s.class_ == Others ==> s.edit.None?
    ensures Pick({Templates} + {Mains} + {Styles}, slots) == Pick(ALL, slots)
  {
    if slots != [] {
      assert slots[0] in slots;
      OthersIdle(slots[1..]);
    }
  }

  // ----- What the edits do to each block -----

  /** One edit inside `[o, end)`, the others behind. */
  lemma OneEdit(s: string, o: nat, end: nat, e: Edit, rest: seq<Edit>)
    requires o <= e.start <= e.end <= end <= |s| && e.start < end && Between(rest, end, |s|)
    ensures Substitute(s, [e] + rest, o) == s[o..e.start] + e.text + s[e.end..end] + Substitute(s, rest, end)
  {
    Untouched(s, [e] + rest, o, e.start);
    forall q | e.start <= q <= |s|
      ensures Inserted([e] + rest, q) == Inserted(rest + [e], q) && Covered([e] + rest, q) == Covered(rest + [e], q)
    {
      InsertedAppend([e], rest, q);
      InsertedAppend(rest, [e], q);
      CoveredAppend([e], rest, q);
      CoveredAppend(rest, [e], q);
      if q == e.start { InsertedNone(rest, q); } else { InsertedNone([e], q); }
    }
    SameSubstitution(s, [e] + rest, rest + [e], e.start);
    OneMore(s, rest, e);
    Untouched(s, rest, e.end, end);
    var tail := Substitute(s, rest, end);
    assert s[o..e.start] + (e.text + (s[e.end..end] + tail)) == s[o..e.start] + e.text + s[e.end..end] + tail;
  }

  lemma CellSubstituted(s: string, o: nat, c: Cell, edits: seq<Edit>)
    requires ValidCell(c) && o + SizeOf(c) <= |s| && s[o..o + SizeOf(c)] == c.gap + c.inner
    requires Between(edits, o + SizeOf(c), |s|)
    ensures Substitute(s, (if c.change.Some? then [EditAt(c, o).value] else []) + edits, o)
         == c.gap + Out(c) + Substitute(s, edits, o + SizeOf(c))
  {
    hide Substitute;
    var end, start := o + SizeOf(c), o + |c.gap|;
    var text := s[o..end];
    if c.change.None? {
      assert [] + edits == edits;
      Untouched(s, edits, o, end);
    } else {
      var e, from, until := EditAt(c, o).value, c.change.value.from, c.change.value.until;
      OneEdit(s, o, end, e, edits);
      assert s[o..start + from] == text[..|c.gap| + from] == c.gap + c.inner[..from];
      assert s[start + until..end] == text[|c.gap| + until..] == c.inner[until..];
    }
  }

  /** Where the first cell ends in a text of cells. */
  lemma FirstCell(s: string, o: nat, c: Cell, rest: string)
    requires o <= |s| && s[o..] == c.gap + c.inner + rest
    ensures o + SizeOf(c) <= |s| && s[o..o + SizeOf(c)] == c.gap + c.inner && s[o + SizeOf(c)..] == rest
  {
    var text := s[o..];
    assert |text| == |s| - o;
    assert s[o..o + SizeOf(c)] == text[..SizeOf(c)] == c.gap + c.inner;
    assert s[o + SizeOf(c)..] == text[SizeOf(c)..] == rest;
  }

  lemma ClassInAll(c: Class)
    ensures c in ALL
  {
    match c case Templates => case Mains => case Styles => case Others =>
  }

  lemma PickAll(cells: seq<Cell>, o: nat)
    requires cells != []
    ensures Pick(ALL, Slots(cells, o))
         == (if cells[0].change.Some? then [EditAt(cells[0], o).value] else [])
          + Pick(ALL, Slots(cells[1..], o + SizeOf(cells[0])))
  {
    var slots := Slots(cells, o);
    assert slots[1..] == Slots(cells[1..], o + SizeOf(cells[0]));
    ClassInAll(slots[0].class_);
  }

  /** All changes at once give the changed blocks. */
  lemma {:induction false} CellsSubstituted(s: string, o: nat, cells: seq<Cell>, tail: string)
    requires ValidCells(cells) && o <= |s| && s[o..] == Flat(cells, tail)
    ensures Substitute(s, Pick(ALL, Slots(cells, o)), o) == Outs(cells, tail)
    decreases cells
  {
    hide *;
    if cells == [] {
      NoCells(s, o, tail);
    } else {
      var c, rest := cells[0], cells[1..];
      assert [c] + rest == cells;
      FlatCons(c, rest, tail);
      ValidCons(c, rest);
      FirstCell(s, o, c, Flat(rest, tail));
      CellsSubstituted(s, o + SizeOf(c), rest, tail);
      CellsStep(s, o, c, rest, tail);
      OutsCons(c, rest, tail);
    }
  }

  lemma NoCells(s: string, o: nat, tail: string)
    requires o <= |s| && s[o..] == Flat([], tail)
    ensures ValidCells([]) && Substitute(s, Pick(ALL, Slots([], o)), o) == Outs([], tail)
  {
    Untouched(s, [], o, |s|);
    NothingBehind(s);
    assert s[o..|s|] == tail;
  }

  lemma FlatCons(c: Cell, rest: seq<Cell>, tail: string)
    ensures Flat([c] + rest, tail) == c.gap + c.inner + Flat(rest, tail)
  {
    assert ([c] + rest)[1..] == rest;
  }

  lemma ValidCons(c: Cell, rest: seq<Cell>)
    requires ValidCells([c] + rest)
    ensures ValidCell(c) && ValidCells(rest)
  {
    hide ValidCell;
    assert c in [c] + rest && forall d | d in rest :: d in [c] + rest;
  }

  lemma OutsCons(c: Cell, rest: seq<Cell>, tail: string)
    requires ValidCell(c) && ValidCells(rest) && ValidCells([c] + rest)
    ensures Outs([c] + rest, tail) == c.gap + Out(c) + Outs(rest, tail)
  {
    hide Out;
    assert ([c] + rest)[1..] == rest;
  }

  lemma CellsStep(s: string, o: nat, c: Cell, rest: seq<Cell>, tail: string)
    requires ValidCell(c) && ValidCells(rest) && o + SizeOf(c) <= |s| && s[o..o + SizeOf(c)] == c.gap + c.inner
    requires s[o + SizeOf(c)..] == Flat(rest, tail)
    requires Substitute(s, Pick(ALL, Slots(rest, o + SizeOf(c))), o + SizeOf(c)) == Outs(rest, tail)
    ensures Substitute(s, Pick(ALL, Slots([c] + rest, o)), o) == c.gap + Out(c) + Outs(rest, tail)
  {
    hide Flat, Substitute, Pick, Slots, EditAt, Out;
    var end := o + SizeOf(c);
    assert ([c] + rest)[1..] == rest;
    EditsBehind(s, end, rest, tail);
    PickAll([c] + rest, o);
    CellSubstituted(s, o, c, Pick(ALL, Slots(rest, end)));
  }

  lemma EditsBehind(s: string, o: nat, cells: seq<Cell>, tail: string)
    requires ValidCells(cells) && o <= |s| && s[o..] == Flat(cells, tail)
    ensures Between(Pick(ALL, Slots(cells, o)), o, |s|)
  {
    assert |s[o..]| == |s| - o;
    FlatExtent(cells, tail);
    SlotsPlaced(cells, o);
    PickBetween(ALL, Slots(cells, o), o, o + Extent(cells));
  }

  lemma {:induction false} SlotsIdle(cells: seq<Cell>, o: nat)
    requires forall c | c in cells :: c.class_ == Others ==> c.change.None?
    ensures forall s | s in Slots(cells, o) :: s.class_ == Others ==> s.edit.None?
  {
    if cells != [] {
      assert cells[0] in cells;
      SlotsIdle(cells[1..], o + SizeOf(cells[0]));
    }
  }

  /** The edits as collected, and one insertion in front of everything, give the changed blocks behind the insertion. */
  lemma CollectedSubstitutes(s: string, o: nat, cells: seq<Cell>, tail: string, front: Option<string>)
    requires ValidCells(cells) && o <= |s| && s[o..] == Flat(cells, tail)
    requires forall c | c in cells :: c.class_ == Others ==> c.change.None?
    ensures var edits := Collected(Slots(cells, o)) + (if front.Some? then [Edit(o, o, front.value)] else []);
            && AllCompatible(edits) && Between(edits, o, |s|)
            && Substitute(s, edits, 0) == s[..o] + ((if front.Some? then front.value else "") + Outs(cells, tail))
  {
    var slots, hi := Slots(cells, o), o + Extent(cells);
    var edits := Collected(slots);
    var root := if front.Some? then [Edit(o, o, front.value)] else [];
    FlatExtent(cells, tail);
    assert |s[o..]| == |s| - o;
    SlotsPlaced(cells, o);
    SlotsIdle(cells, o);
    CollectedCompatible(slots, o, hi);
    forall q | o <= q <= |s|
      ensures Inserted(edits, q) == Inserted(Pick(ALL, slots), q) && Covered(edits, q) == Covered(Pick(ALL, slots), q)
    {
      SameEdits(slots, o, hi, q);
    }
    SameSubstitution(s, edits, Pick(ALL, slots), o);
    CellsSubstituted(s, o, cells, tail);
    if front.Some? {
      RootLast(edits, root[0], hi);
      OneMoreInserts(s, edits, root[0]);
    } else {
      assert edits + [] == edits;
      assert "" + Outs(cells, tail) == Outs(cells, tail);
    }
    Untouched(s, edits + root, 0, o);
    assert s[0..o] == s[..o];
  }
}
