/** The collected edits, applied from right to left, turn the source into the rendering of the rewritten document. */
module ArtifactSplicing {
  import opened Text
  import opened Splice
  import opened BlockSplicing
  import opened ArtifactScan
  import opened ArtifactAssembly

  // ----- Blocks as cells -----

  function ClassOf(p: Piece): Class {
    match p.kind
    case Template(_) => Templates
    case Script(main) => if main then Mains else Others
    case Style => Styles
    case Comment => Others
  }

  function Inner(p: Piece): string {
    Opening(p.kind) + p.body + Close(p.kind)
  }

  /** What the plan does to a block, relative to the block's own start. */
  function ChangeOf(p: Piece, plan: Plan, seen: bool): Option<Change> {
    var bodyEnd, end := |Opening(p.kind)| + |p.body|, |Inner(p)|;
    match ClassOf(p)
    case Templates => if plan.drop then Some(Change(0, end, "")) else None
    case Mains => if plan.appended.Some? then Some(Change(bodyEnd, bodyEnd, plan.appended.value)) else None
    case Styles =>
      if plan.css.Some? then Some(Change(0, end, if seen then "" else StyleBlock(plan.css.value))) else None
    case Others => None
  }

  function CellOf(p: Piece, plan: Plan, seen: bool): Cell {
    Cell(ClassOf(p), p.gap, Inner(p), ChangeOf(p, plan, seen))
  }

  function Cells(pieces: seq<Piece>, plan: Plan, seen: bool): seq<Cell> {
    if pieces == [] then [] else [CellOf(pieces[0], plan, seen)] + Cells(pieces[1..], plan, Seen(pieces[0], seen))
  }

  lemma CellSize(p: Piece, plan: Plan, seen: bool)
    ensures SizeOf(CellOf(p, plan, seen)) == |RenderPiece(p)|
    ensures p.gap + Inner(p) == RenderPiece(p)
    ensures ValidCell(CellOf(p, plan, seen))
  {
    OpeningSolid(p.kind);
    InnerRendered(p);
    hide StyleBlock, Opening, Close, Inner, RenderPiece;
  }

  lemma InnerRendered(p: Piece)
    ensures p.gap + Inner(p) == RenderPiece(p) && |Opening(p.kind)| + |p.body| <= |Inner(p)|
    ensures |Close(p.kind)| > 0 ==> |Opening(p.kind)| + |p.body| < |Inner(p)|
  {
    hide Opening, Close;
  }

  lemma {:induction false} CellsValid(pieces: seq<Piece>, plan: Plan, seen: bool)
    ensures ValidCells(Cells(pieces, plan, seen))
    ensures forall c | c in Cells(pieces, plan, seen) :: c.class_ == Others ==> c.change.None?
  {
    if pieces != [] {
      CellSize(pieces[0], plan, seen);
      CellsValid(pieces[1..], plan, Seen(pieces[0], seen));
    }
  }

  lemma {:induction false} CellsFlat(pieces: seq<Piece>, plan: Plan, seen: bool, tail: string)
    ensures Flat(Cells(pieces, plan, seen), tail) == Render(pieces, tail)
  {
    if pieces != [] {
      var cells := Cells(pieces, plan, seen);
      CellSize(pieces[0], plan, seen);
      CellsFlat(pieces[1..], plan, Seen(pieces[0], seen), tail);
      assert cells[1..] == Cells(pieces[1..], plan, Seen(pieces[0], seen));
    }
  }

  lemma CellsCons(p: Piece, rest: seq<Piece>, plan: Plan, seen: bool)
    ensures Cells([p] + rest, plan, seen) == [CellOf(p, plan, seen)] + Cells(rest, plan, Seen(p, seen))
  {
    hide CellOf, Seen;
    assert ([p] + rest)[1..] == rest;
  }

  lemma SlotsCons(c: Cell, rest: seq<Cell>, o: nat)
    ensures Slots([c] + rest, o) == [Slot(c.class_, EditAt(c, o), o + SizeOf(c))] + Slots(rest, o + SizeOf(c))
  {
    hide EditAt, SizeOf;
    assert ([c] + rest)[1..] == rest;
  }

  lemma CellClass(p: Piece, plan: Plan, seen: bool)
    ensures CellOf(p, plan, seen).class_ == ClassOf(p)
  {
  }

  /** The slots of a document, one block further. */
  lemma SlotsStep(pieces: seq<Piece>, o: nat, plan: Plan, seen: bool)
    requires pieces != []
    ensures var p := pieces[0];
            var end := o + |RenderPiece(p)|;
            Slots(Cells(pieces, plan, seen), o)
            == [Slot(ClassOf(p), EditAt(CellOf(p, plan, seen), o), end)]
               + Slots(Cells(pieces[1..], plan, Seen(p, seen)), end)
  {
    hide *;
    var p, rest := pieces[0], pieces[1..];
    assert [p] + rest == pieces;
    CellSize(p, plan, seen);
    CellClass(p, plan, seen);
    CellsCons(p, rest, plan, seen);
    SlotsCons(CellOf(p, plan, seen), Cells(rest, plan, Seen(p, seen)), o);
  }

  lemma PickFirst(classes: set<Class>, pieces: seq<Piece>, o: nat, plan: Plan, seen: bool)
    requires pieces != []
    ensures var p := pieces[0];
            var edit, end := EditAt(CellOf(p, plan, seen), o), o + |RenderPiece(p)|;
            var rest := Pick(classes, Slots(Cells(pieces[1..], plan, Seen(p, seen)), end));
            Pick(classes, Slots(Cells(pieces, plan, seen), o))
            == if ClassOf(p) in classes && edit.Some? then [edit.value] + rest else rest
  {
    var p := pieces[0];
    var end := o + |RenderPiece(p)|;
    var slot := Slot(ClassOf(p), EditAt(CellOf(p, plan, seen), o), end);
    var rest := Slots(Cells(pieces[1..], plan, Seen(p, seen)), end);
    SlotsStep(pieces, o, plan, seen);
    assert ([slot] + rest)[1..] == rest;
    assert [] + Pick(classes, rest) == Pick(classes, rest);
  }

  // ----- The three lists are picked from the blocks -----

  /** The edit of a block as an option, by its offsets in the source. */
  lemma EditOf(p: Piece, o: nat, plan: Plan, seen: bool)
    ensures var e, end := EditAt(CellOf(p, plan, seen), o), o + |RenderPiece(p)|;
            match ClassOf(p)
            case Templates => e == if plan.drop then Some(Edit(o + |p.gap|, end, "")) else None
            case Mains =>
              e == if plan.appended.Some? then Some(Edit(BodyEnd(p, o), BodyEnd(p, o), plan.appended.value)) else None
            case Styles =>
              e == if plan.css.Some?
                   then Some(Edit(o + |p.gap|, end, if seen then "" else StyleBlock(plan.css.value))) else None
            case Others => e.None?
    ensures IsTemplate(p) <==> ClassOf(p) == Templates
    ensures IsMain(p) <==> ClassOf(p) == Mains
    ensures p.kind == Style <==> ClassOf(p) == Styles
  {
    CellSize(p, plan, seen);
  }

  lemma DropFirst(span: Span, rest: seq<Span>, drop: bool)
    ensures DropEdits([span] + rest, drop)
         == if drop then [Edit(span.start, span.end, "")] + DropEdits(rest, drop) else DropEdits(rest, drop)
  {
    assert ([span] + rest)[1..] == rest;
  }

  lemma AppendFirst(span: Span, rest: seq<Span>, appended: Option<string>)
    ensures AppendEdits([span] + rest, appended)
         == var more := AppendEdits(rest, appended);
            if appended.Some? then [Edit(span.end, span.end, appended.value)] + more else more
  {
    assert ([span] + rest)[1..] == rest;
  }

  lemma StyleFirst(span: Span, rest: seq<Span>, css: Option<string>, seen: bool)
    ensures StyleEdits([span] + rest, css, seen)
         == var more := StyleEdits(rest, css, true);
            if css.Some? then [Edit(span.start, span.end, if seen then "" else StyleBlock(css.value))] + more else more
  {
    assert ([span] + rest)[1..] == rest;
  }

  lemma NonePicked(pieces: seq<Piece>, classes: set<Class>, o: nat, plan: Plan, seen: bool)
    requires pieces == []
    ensures Pick(classes, Slots(Cells(pieces, plan, seen), o)) == []
    ensures DropEdits(TemplateSpans(pieces, o), plan.drop) == []
    ensures AppendEdits(MainSpans(pieces, o), plan.appended) == []
    ensures StyleEdits(StyleSpans(pieces, o), plan.css, seen) == []
  {
  }

  lemma DropsStep(p: Piece, rest: seq<Piece>, o: nat, plan: Plan)
    ensures var more := DropEdits(TemplateSpans(rest, o + |RenderPiece(p)|), plan.drop);
            DropEdits(TemplateSpans([p] + rest, o), plan.drop)
            == if IsTemplate(p) && plan.drop then [Edit(o + |p.gap|, o + |RenderPiece(p)|, "")] + more else more
  {
    hide RenderPiece, DropEdits, TemplateSpans;
    var end := o + |RenderPiece(p)|;
    TemplateSpansFirst(p, rest, o);
    if IsTemplate(p) { DropFirst(Span(o + |p.gap|, end, p.body), TemplateSpans(rest, end), plan.drop); }
  }

  lemma TemplateSpansFirst(p: Piece, rest: seq<Piece>, o: nat)
    ensures var end := o + |RenderPiece(p)|;
            TemplateSpans([p] + rest, o)
            == var spans := TemplateSpans(rest, end);
               if IsTemplate(p) then [Span(o + |p.gap|, end, p.body)] + spans else spans
  {
    hide RenderPiece;
    assert ([p] + rest)[1..] == rest;
  }

  lemma {:induction false} DropsPicked(pieces: seq<Piece>, o: nat, plan: Plan, seen: bool)
    ensures DropEdits(TemplateSpans(pieces, o), plan.drop)
         == Pick({Templates}, Slots(Cells(pieces, plan, seen), o))
  {
    hide *;
    if pieces == [] {
      NonePicked(pieces, {Templates}, o, plan, seen);
    } else {
      var p := pieces[0];
      var end := o + |RenderPiece(p)|;
      DropsPicked(pieces[1..], end, plan, Seen(p, seen));
      assert [p] + pieces[1..] == pieces;
      DropsStep(p, pieces[1..], o, plan);
      PickFirst({Templates}, pieces, o, plan, seen);
      EditOf(p, o, plan, seen);
      var more := Pick({Templates}, Slots(Cells(pieces[1..], plan, Seen(p, seen)), end));
      var edits := Pick({Templates}, Slots(Cells(pieces, plan, seen), o));
      if IsTemplate(p) && plan.drop {
        assert edits == [Edit(o + |p.gap|, end, "")] + more;
      } else {
        assert edits == more;
      }
    }
  }

  lemma AppendsStep(p: Piece, rest: seq<Piece>, o: nat, plan: Plan)
    ensures var more := AppendEdits(MainSpans(rest, o + |RenderPiece(p)|), plan.appended);
            AppendEdits(MainSpans([p] + rest, o), plan.appended)
            == if IsMain(p) && plan.appended.Some?
               then [Edit(BodyEnd(p, o), BodyEnd(p, o), plan.appended.value)] + more else more
  {
    hide RenderPiece, AppendEdits;
    var spans := MainSpans(rest, o + |RenderPiece(p)|);
    assert ([p] + rest)[1..] == rest;
    if IsMain(p) {
      AppendFirst(Span(BodyEnd(p, o) - |p.body|, BodyEnd(p, o), p.body), spans, plan.appended);
    } else {
      assert [] + spans == spans;
    }
  }

  lemma {:induction false} AppendsPicked(pieces: seq<Piece>, o: nat, plan: Plan, seen: bool)
    ensures AppendEdits(MainSpans(pieces, o), plan.appended)
         == Pick({Mains}, Slots(Cells(pieces, plan, seen), o))
  {
    hide *;
    if pieces == [] {
      NonePicked(pieces, {Mains}, o, plan, seen);
    } else {
      var p := pieces[0];
      var end := o + |RenderPiece(p)|;
      AppendsPicked(pieces[1..], end, plan, Seen(p, seen));
      assert [p] + pieces[1..] == pieces;
      AppendsStep(p, pieces[1..], o, plan);
      PickFirst({Mains}, pieces, o, plan, seen);
      EditOf(p, o, plan, seen);
      var more := Pick({Mains}, Slots(Cells(pieces[1..], plan, Seen(p, seen)), end));
      var edits := Pick({Mains}, Slots(Cells(pieces, plan, seen), o));
      if IsMain(p) && plan.appended.Some? {
        assert edits == [Edit(BodyEnd(p, o), BodyEnd(p, o), plan.appended.value)] + more;
      } else {
        assert edits == more;
      }
    }
  }

  lemma StylesStep(p: Piece, rest: seq<Piece>, o: nat, plan: Plan, seen: bool)
    ensures var more := StyleEdits(StyleSpans(rest, o + |RenderPiece(p)|), plan.css, Seen(p, seen));
            StyleEdits(StyleSpans([p] + rest, o), plan.css, seen)
            == if p.kind == Style && plan.css.Some? then
                 [Edit(o + |p.gap|, o + |RenderPiece(p)|, if seen then "" else StyleBlock(plan.css.value))] + more
               else more
  {
    hide RenderPiece, StyleBlock, StyleEdits;
    var spans := StyleSpans(rest, o + |RenderPiece(p)|);
    assert ([p] + rest)[1..] == rest;
    if p.kind == Style {
      StyleFirst(Span(o + |p.gap|, o + |RenderPiece(p)|, p.body), spans, plan.css, seen);
    } else {
      assert [] + spans == spans;
    }
  }

  lemma {:induction false} StylesPicked(pieces: seq<Piece>, o: nat, plan: Plan, seen: bool)
    ensures StyleEdits(StyleSpans(pieces, o), plan.css, seen)
         == Pick({Styles}, Slots(Cells(pieces, plan, seen), o))
  {
    hide *;
    if pieces == [] {
      NonePicked(pieces, {Styles}, o, plan, seen);
    } else {
      var p := pieces[0];
      var end := o + |RenderPiece(p)|;
      StylesPicked(pieces[1..], end, plan, Seen(p, seen));
      assert [p] + pieces[1..] == pieces;
      StylesStep(p, pieces[1..], o, plan, seen);
      PickFirst({Styles}, pieces, o, plan, seen);
      EditOf(p, o, plan, seen);
      var more := Pick({Styles}, Slots(Cells(pieces[1..], plan, Seen(p, seen)), end));
      var edits := Pick({Styles}, Slots(Cells(pieces, plan, seen), o));
      if p.kind == Style && plan.css.Some? {
        assert edits == [Edit(o + |p.gap|, end, if seen then "" else StyleBlock(plan.css.value))] + more;
      } else {
        assert edits == more;
      }
    }
  }

  lemma BlockEditsCollected(pieces: seq<Piece>, o: nat, plan: Plan)
    ensures BlockEdits(pieces, o, plan, false) == Collected(Slots(Cells(pieces, plan, false), o))
  {
    DropsPicked(pieces, o, plan, false);
    AppendsPicked(pieces, o, plan, false);
    StylesPicked(pieces, o, plan, false);
  }

  // ----- The changed blocks are the rewritten document -----

  /** What becomes of a block's text. */
  function Outcome(p: Piece, plan: Plan, seen: bool): string {
    if Dropped(p, plan, seen) then "" else Opening(p.kind) + NewBody(p, plan) + Close(p.kind)
  }

  lemma StyleText(css: string)
    ensures StyleBlock(css) == Opening(Style) + css + Close(Style)
  {
  }

  lemma Untouched(c: Cell)
    ensures c.change.None? ==> ValidCell(c) && Out(c) == c.inner
    ensures c.change.Some? && c.change.value.from == 0 && c.change.value.until == |c.inner| > 0 ==>
              ValidCell(c) && Out(c) == c.change.value.text
  {
  }

  lemma MainOutcome(open: string, body: string, close: string, more: string)
    ensures var inner, n := open + body + close, |open| + |body|;
            inner[..n] + more + inner[n..] == open + (body + more) + close
  {
    var inner, n := open + body + close, |open| + |body|;
    assert inner[..n] == open + body && inner[n..] == close;
  }

  lemma CellOutcome(p: Piece, plan: Plan, seen: bool)
    ensures ValidCell(CellOf(p, plan, seen)) && Out(CellOf(p, plan, seen)) == Outcome(p, plan, seen)
  {
    hide Opening, Close, StyleBlock, RenderPiece, Out, ValidCell;
    CellSize(p, plan, seen);
    if plan.css.Some? { StyleText(plan.css.value); }
    Untouched(CellOf(p, plan, seen));
    if IsMain(p) && plan.appended.Some? { MainCell(p, plan, seen); }
  }

  lemma MainCell(p: Piece, plan: Plan, seen: bool)
    requires IsMain(p) && plan.appended.Some? && ValidCell(CellOf(p, plan, seen))
    ensures Out(CellOf(p, plan, seen)) == Opening(p.kind) + (p.body + plan.appended.value) + Close(p.kind)
  {
    hide Opening, Close, StyleBlock, ValidCell;
    MainOutcome(Opening(p.kind), p.body, Close(p.kind), plan.appended.value);
  }

  lemma KeptRendered(p: Piece, plan: Plan, carry: string, rest: seq<Piece>, tail: string)
    ensures Render([Piece(carry + p.gap, p.kind, NewBody(p, plan))] + rest, tail)
         == carry + p.gap + (Opening(p.kind) + NewBody(p, plan) + Close(p.kind)) + Render(rest, tail)
  {
    assert ([Piece(carry + p.gap, p.kind, NewBody(p, plan))] + rest)[1..] == rest;
  }

  lemma Reassociate(carry: string, gap: string, out: string, x: string)
    ensures carry + (gap + out + x) == carry + gap + out + x
    ensures carry + (gap + "" + x) == carry + gap + x
    ensures "" + x == x
  {
  }

  /** The rewritten document, one block further. */
  lemma RewrittenStep(p: Piece, rest: seq<Piece>, tail: string, plan: Plan, carry: string, seen: bool, x: string)
    requires var carry' := if Dropped(p, plan, seen) then carry + p.gap else "";
             carry' + x == Render(Rewritten(rest, plan, carry', Seen(p, seen)),
                                  Leftover(rest, plan, carry', Seen(p, seen)) + tail)
    ensures carry + (p.gap + Outcome(p, plan, seen) + x)
         == Render(Rewritten([p] + rest, plan, carry, seen), Leftover([p] + rest, plan, carry, seen) + tail)
  {
    Reassociate(carry, p.gap, Outcome(p, plan, seen), x);
    assert ([p] + rest)[1..] == rest;
    if !Dropped(p, plan, seen) {
      KeptRendered(p, plan, carry, Rewritten(rest, plan, "", Seen(p, seen)),
                   Leftover(rest, plan, "", Seen(p, seen)) + tail);
    }
  }

  /** The outcome of a document, one block further. */
  lemma OutsCons(p: Piece, rest: seq<Piece>, tail: string, plan: Plan, seen: bool)
    requires ValidCells(Cells([p] + rest, plan, seen))
    ensures ValidCells(Cells(rest, plan, Seen(p, seen)))
    ensures Outs(Cells([p] + rest, plan, seen), tail)
         == p.gap + Outcome(p, plan, seen) + Outs(Cells(rest, plan, Seen(p, seen)), tail)
  {
    hide Outcome, ChangeOf, Inner, Out;
    CellsValid(rest, plan, Seen(p, seen));
    CellOutcome(p, plan, seen);
    assert ([p] + rest)[1..] == rest;
    var cells := Cells([p] + rest, plan, seen);
    assert cells[0] == CellOf(p, plan, seen) && cells[1..] == Cells(rest, plan, Seen(p, seen));
  }

  lemma OutsNone(tail: string, plan: Plan, carry: string, seen: bool)
    ensures Outs(Cells([], plan, seen), tail) == tail
    ensures carry + tail == Render(Rewritten([], plan, carry, seen), Leftover([], plan, carry, seen) + tail)
  {
  }

  lemma {:induction false} OutsRender(pieces: seq<Piece>, tail: string, plan: Plan, carry: string, seen: bool)
    requires ValidCells(Cells(pieces, plan, seen))
    ensures carry + Outs(Cells(pieces, plan, seen), tail)
         == Render(Rewritten(pieces, plan, carry, seen), Leftover(pieces, plan, carry, seen) + tail)
    decreases pieces
  {
    hide *;
    if pieces == [] {
      OutsNone(tail, plan, carry, seen);
    } else {
      var p, rest := pieces[0], pieces[1..];
      assert [p] + rest == pieces;
      OutsCons(p, rest, tail, plan, seen);
      OutsRender(rest, tail, plan, if Dropped(p, plan, seen) then carry + p.gap else "", Seen(p, seen));
      RewrittenStep(p, rest, tail, plan, carry, seen, Outs(Cells(rest, plan, Seen(p, seen)), tail));
    }
  }

  lemma Lines(line: string, before: string, css: string, after: string, x: string)
    ensures line + before + (line + css + line) + after + (line + x)
         == (line + before + line) + css + (line + after + line) + x
  {
  }

  lemma InsertedRendered(plan: Plan, rest: seq<Piece>, tail: string, x: string)
    requires plan.inserted.Some? && "\n" + x == Render(rest, tail)
    ensures Render([Piece("\n", Style, "\n" + plan.inserted.value + "\n")] + rest, tail)
         == "\n<style>\n" + plan.inserted.value + "\n</style>\n" + x
  {
    var p := Piece("\n", Style, "\n" + plan.inserted.value + "\n");
    assert ([p] + rest)[1..] == rest;
    Lines("\n", Opening(Style), plan.inserted.value, Close(Style), x);
    StyleTags();
    hide Opening, Close;
  }

  lemma StyleTags()
    ensures "\n" + Opening(Style) + "\n" == "\n<style>\n" && "\n" + Close(Style) + "\n" == "\n</style>\n"
  {
  }

  /** Splicing in the collected edits renders the rewritten document behind an untouched root tag. */
  lemma EditsRender(s: string, root: nat, pieces: seq<Piece>, tail: string, plan: Plan)
    requires root <= |s| && s[root..] == Render(pieces, tail)
    ensures var edits := BlockEdits(pieces, root, plan, false) + RootEdits(root, plan);
            && AllCompatible(edits) && Between(edits, root, |s|)
            && Substitute(s, edits, 0)
               == s[..root] + Render(FinalPieces(pieces, plan), FinalTail(Scanned(pieces, tail), plan))
  {
    var cells := Cells(pieces, plan, false);
    CellsValid(pieces, plan, false);
    CellsFlat(pieces, plan, false, tail);
    BlockEditsCollected(pieces, root, plan);
    var front := if plan.inserted.Some? then Some("\n<style>\n" + plan.inserted.value + "\n</style>\n") else None;
    CollectedSubstitutes(s, root, cells, tail, front);
    OutsRender(pieces, tail, plan, if plan.inserted.Some? then "\n" else "", false);
    var x := Outs(cells, tail);
    if plan.inserted.Some? {
      InsertedRendered(plan, Rewritten(pieces, plan, "\n", false), FinalTail(Scanned(pieces, tail), plan), x);
    } else {
      assert "" + x == x;
    }
  }
}
