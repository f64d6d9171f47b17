/**
 * The emitted program and the machine it runs on: one `element` register, a stack of
 * open parents, a map of named nodes, and the native element tree as a heap of cells.
 */
module ElementMachine {
  import opened Text
  import opened XmlFragment

  /** The Element PAPI factories with a name of their own. */
  datatype Papi = CreateFrame | CreateImage | CreateScrollView | CreateText | CreateView | CreateWrapperElement

  /** How a creating call is spelled. `Garbled` is the text of a function found where a factory name was expected. */
  datatype Callee = Factory(papi: Papi) | Generic(tag: string) | Garbled

  /** `element`, or the innermost open parent. */
  datatype Operand = Register | Top

  datatype Instr =
    | Create(callee: Callee)
    | CreateRaw(text: string)
    | AppendRaw(parent: Operand, text: string)
    | Append(parent: Operand)
    | Push
    | Pop
    | Bind(id: string)
    | Apply(setting: Setting)

  /** A native node; `attached` once it has been given a parent. */
  datatype Cell = Cell(kind: Kind, settings: seq<Setting>, children: seq<nat>, attached: bool)

  datatype Machine = Machine(heap: seq<Cell>, register: Option<nat>, parents: seq<nat>, nodeMap: map<string, nat>)

  /** `const nodeMap = {}; const parents = [page]; let element;` */
  const START := Machine([Cell(Tag("page"), [], [], true)], None, [0], map[])

  /** The kind of node each factory makes. */
  function PapiKind(papi: Papi): string {
    match papi
    case CreateFrame => "frame"
    case CreateImage => "image"
    case CreateScrollView => "scroll-view"
    case CreateText => "text"
    case CreateView => "view"
    case CreateWrapperElement => "wrapper"
  }

  function KindOf(callee: Callee): Option<string> {
    match callee
    case Factory(papi) => Some(PapiKind(papi))
    case Generic(tag) => Some(tag)
    case Garbled => None
  }

  function Address(m: Machine, operand: Operand): (at: Option<nat>)
    ensures at.Some? ==> at.value < |m.heap|
  {
    match operand
    case Register => if m.register.Some? && m.register.value < |m.heap| then m.register else None
    case Top =>
      if m.parents != [] && m.parents[|m.parents| - 1] < |m.heap| then Some(m.parents[|m.parents| - 1]) else None
  }

  function New(m: Machine, kind: Kind): Machine {
    m.(heap := m.heap + [Cell(kind, [], [], false)], register := Some(|m.heap|))
  }

  /** Appending fails on a node that already has a parent, so that the heap stays a forest. */
  function AppendCell(m: Machine, parent: nat, child: nat): Option<Machine>
    requires parent < |m.heap| && child < |m.heap|
  {
    if m.heap[child].attached || parent == child then None
    else
      var heap := m.heap[child := m.heap[child].(attached := true)];
      Some(m.(heap := heap[parent := heap[parent].(children := heap[parent].children + [child])]))
  }

  /** One instruction; None when it cannot run. */
  function Step(i: Instr, m: Machine): Option<Machine> {
    match i
    case Create(callee) =>
      var kind := KindOf(callee);
      if kind.None? then None else Some(New(m, Tag(kind.value)))
    case CreateRaw(text) => Some(New(m, Raw(text)))
    case AppendRaw(parent, text) =>
      var at := Address(m, parent);
      if at.None? then None
      else
        var made := AppendCell(New(m, Raw(text)), at.value, |m.heap|);
        if made.None? then None else Some(made.value.(register := m.register))
    case Append(parent) =>
      var at := Address(m, parent);
      var child := Address(m, Register);
      if at.None? || child.None? then None else AppendCell(m, at.value, child.value)
    case Push =>
      var at := Address(m, Register);
      if at.None? then None else Some(m.(parents := m.parents + [at.value]))
    case Pop => if m.parents == [] then None else Some(m.(parents := m.parents[..|m.parents| - 1]))
    case Bind(id) =>
      var at := Address(m, Register);
      if at.None? then None else Some(m.(nodeMap := m.nodeMap[id := at.value]))
    case Apply(setting) =>
      var at := Address(m, Register);
      if at.None? then None
      else Some(m.(heap := m.heap[at.value := m.heap[at.value].(settings := m.heap[at.value].settings + [setting])]))
  }

  function Exec(code: seq<Instr>, m: Machine): Option<Machine> {
    if code == [] then Some(m)
    else
      var next := Step(code[0], m);
      if next.None? then None else Exec(code[1..], next.value)
  }

  /** A program with a syntax error never starts. */
  function Run(code: seq<Instr>): Option<Machine> {
    if Create(Garbled) in code then None else Exec(code, START)
  }

  /** In every state the program passes through, the number of open parents stays within the bounds. */
  ghost predicate StaysWithin(code: seq<Instr>, m: Machine, low: nat, high: nat) {
    && low <= |m.parents| <= high
    && (code != [] && Step(code[0], m).Some? ==> StaysWithin(code[1..], Step(code[0], m).value, low, high))
  }

  /** The program takes `m` to `n` without leaving the bounds. */
  ghost predicate Runs(code: seq<Instr>, m: Machine, n: Machine, low: nat, high: nat) {
    Exec(code, m) == Some(n) && StaysWithin(code, m, low, high)
  }

  lemma RunsNothing(m: Machine, low: nat, high: nat)
    requires low <= |m.parents| <= high
    ensures Runs([], m, m, low, high)
  {
  }

  lemma RunsStep(i: Instr, m: Machine, n: Machine, low: nat, high: nat)
    requires Step(i, m) == Some(n) && low <= |m.parents| <= high && low <= |n.parents| <= high
    ensures Runs([i], m, n, low, high)
  {
    assert [i][1..] == [];
    assert Exec([], n) == Some(n);
  }

  lemma {:induction false} RunsThen(a: seq<Instr>, b: seq<Instr>, m: Machine, n: Machine, o: Machine,
                                    low: nat, high: nat)
    requires Runs(a, m, n, low, high) && Runs(b, n, o, low, high)
    ensures Runs(a + b, m, o, low, high)
    decreases a
  {
    if a == [] {
      assert a + b == b;
    } else {
      assert (a + b)[1..] == a[1..] + b;
      RunsThen(a[1..], b, Step(a[0], m).value, n, o, low, high);
    }
  }

  /** The machine with one more cell, which becomes the element in the register. */
  function With(m: Machine, cell: Cell): Machine {
    m.(heap := m.heap + [cell], register := Some(|m.heap|))
  }

  /** The machine with one more child on a cell. */
  function Adopt(m: Machine, parent: nat, child: nat): Machine
    requires parent < |m.heap|
  {
    m.(heap := m.heap[parent := m.heap[parent].(children := m.heap[parent].children + [child])])
  }

  /** Appending the newest cell to an older one. */
  lemma AppendNewest(m: Machine, cell: Cell, parent: nat)
    requires parent < |m.heap| && !cell.attached
    ensures AppendCell(With(m, cell), parent, |m.heap|)
         == Some(With(Adopt(m, parent, |m.heap|), cell.(attached := true)))
  {
    var e := |m.heap|;
    var n := AppendCell(With(m, cell), parent, e).value;
    assert n.heap == With(Adopt(m, parent, e), cell.(attached := true)).heap;
  }

  // ----- Every node has one place -----

  /** The cell `c` is the child number `i` of the cell `a`. */
  predicate Place(heap: seq<Cell>, a: nat, i: nat, c: nat) {
    a < |heap| && i < |heap[a].children| && heap[a].children[i] == c
  }

  /**
   * The heap is a forest in which the page is a root: a child is a younger cell than its parent and has this one place,
   * and every attached cell but the page has a place.
   */
  ghost predicate Forested(heap: seq<Cell>) {
    && heap != [] && heap[0].attached
    && (forall a: nat, i: nat, c: nat | Place(heap, a, i, c) :: a < c < |heap| && heap[c].attached)
    && (forall a: nat, i: nat, b: nat, j: nat, c: nat | Place(heap, a, i, c) && Place(heap, b, j, c) ::
          a == b && i == j)
    && (forall c: nat | 0 < c < |heap| && heap[c].attached :: exists a: nat, i: nat :: Place(heap, a, i, c))
  }

  /** No open parent is younger than the element in the register. */
  predicate Seniority(m: Machine) {
    forall p | p in m.parents :: p <= if m.register.Some? then m.register.value else 0
  }

  ghost predicate Orderly(m: Machine) {
    Forested(m.heap) && Seniority(m) && (m.register.Some? ==> m.register.value < |m.heap|)
  }

  /** Cells whose children and attachment are the same have the same places. */
  lemma SamePlaces(heap: seq<Cell>, heap': seq<Cell>)
    requires Forested(heap) && |heap'| == |heap|
    requires forall k | 0 <= k < |heap| ::
               heap'[k].children == heap[k].children && heap'[k].attached == heap[k].attached
    ensures Forested(heap')
  {
    assert forall a: nat, i: nat, c: nat :: Place(heap', a, i, c) <==> Place(heap, a, i, c);
    forall c: nat | 0 < c < |heap'| && heap'[c].attached ensures exists a: nat, i: nat :: Place(heap', a, i, c) {
      var a: nat, i: nat :| Place(heap, a, i, c);
      assert Place(heap', a, i, c);
    }
  }

  lemma NewForested(heap: seq<Cell>, kind: Kind)
    requires Forested(heap)
    ensures Forested(heap + [Cell(kind, [], [], false)])
  {
    var heap' := heap + [Cell(kind, [], [], false)];
    assert forall a: nat, i: nat, c: nat :: Place(heap', a, i, c) <==> Place(heap, a, i, c);
    forall c: nat | 0 < c < |heap'| && heap'[c].attached ensures exists a: nat, i: nat :: Place(heap', a, i, c) {
      var a: nat, i: nat :| Place(heap, a, i, c);
      assert Place(heap', a, i, c);
    }
  }

  /** A free cell gets its one place at the end of an older cell's children. */
  lemma AppendForested(m: Machine, parent: nat, child: nat)
    requires Forested(m.heap) && parent < child < |m.heap| && AppendCell(m, parent, child).Some?
    ensures Forested(AppendCell(m, parent, child).value.heap)
  {
    var heap, heap' := m.heap, AppendCell(m, parent, child).value.heap;
    var last := |heap[parent].children|;
    forall a: nat, i: nat, c: nat
      ensures Place(heap', a, i, c) <==> Place(heap, a, i, c) || (a == parent && i == last && c == child)
    {
    }
    forall c: nat | 0 < c < |heap'| && heap'[c].attached ensures exists a: nat, i: nat :: Place(heap', a, i, c) {
      if c == child {
        assert Place(heap', parent, last, child);
      } else {
        assert heap[c].attached;
        var a: nat, i: nat :| Place(heap, a, i, c);
        assert Place(heap', a, i, c);
      }
    }
  }

  lemma SettingForested(heap: seq<Cell>, k: nat, settings: seq<Setting>)
    requires Forested(heap) && k < |heap|
    ensures Forested(heap[k := heap[k].(settings := settings)])
  {
    SamePlaces(heap, heap[k := heap[k].(settings := settings)]);
  }

  lemma TopIsSenior(m: Machine)
    requires Seniority(m) && m.parents != [] && m.register.Some?
    ensures m.parents[|m.parents| - 1] <= m.register.value
  {
    assert m.parents[|m.parents| - 1] in m.parents;
  }

  lemma PopOrderly(m: Machine)
    requires Orderly(m) && m.parents != []
    ensures Orderly(m.(parents := m.parents[..|m.parents| - 1]))
  {
    hide Forested;
    var n := m.(parents := m.parents[..|m.parents| - 1]);
    forall p | p in n.parents ensures p in m.parents {}
  }

  /** Whatever the instruction, if it runs, every node keeps one place. */
  lemma StepOrderly(i: Instr, m: Machine)
    requires Orderly(m) && Step(i, m).Some?
    ensures Orderly(Step(i, m).value)
  {
    hide Forested, KindOf;
    match i
    case Create(callee) => NewForested(m.heap, Tag(KindOf(callee).value));
    case CreateRaw(text) => NewForested(m.heap, Raw(text));
    case AppendRaw(parent, text) =>
      NewForested(m.heap, Raw(text));
      AppendForested(New(m, Raw(text)), Address(m, parent).value, |m.heap|);
    case Append(parent) =>
      if m.parents != [] { TopIsSenior(m); }
      AppendForested(m, Address(m, parent).value, m.register.value);
    case Push =>
    case Pop => PopOrderly(m);
    case Bind(_) =>
    case Apply(setting) =>
      var k := m.register.value;
      SettingForested(m.heap, k, m.heap[k].settings + [setting]);
  }

  lemma {:induction false} ExecOrderly(code: seq<Instr>, m: Machine)
    requires Orderly(m) && Exec(code, m).Some?
    ensures Orderly(Exec(code, m).value)
    decreases code
  {
    hide Orderly, Step;
    if code != [] {
      StepOrderly(code[0], m);
      ExecOrderly(code[1..], Step(code[0], m).value);
    }
  }

  lemma StartOrderly()
    ensures Orderly(START)
  {
  }

  // ----- Reading trees off the heap -----

  /**
   * Cell `at` and the cells below it are exactly the tree `t`, all of them at or above `low`,
   * and every id in the tree is bound to the very cell that carries it.
   */
  ghost predicate Holds(m: Machine, low: nat, at: nat, t: Tree)
    decreases t, 0
  {
    && low <= at < |m.heap|
    && m.heap[at].kind == t.kind
    && m.heap[at].settings == t.settings
    && (forall v | Id(v) in t.settings :: v in m.nodeMap && m.nodeMap[v] == at)
    && HoldsAll(m, low, m.heap[at].children, t.children)
  }

  ghost predicate HoldsAll(m: Machine, low: nat, ats: seq<nat>, ts: seq<Tree>)
    decreases ts
  {
    && |ats| == |ts|
    && forall i | 0 <= i < |ts| :: Holds(m, low, ats[i], ts[i])
  }

  /** `n` agrees with `m` on every cell from `low` on and on every name. */
  ghost predicate Keeps(m: Machine, n: Machine, low: nat) {
    && |m.heap| <= |n.heap|
    && (forall k | low <= k < |m.heap| :: n.heap[k] == m.heap[k])
    && (forall v | v in m.nodeMap :: v in n.nodeMap && n.nodeMap[v] == m.nodeMap[v])
  }

  lemma {:induction false} HoldsKept(m: Machine, n: Machine, low: nat, low': nat, at: nat, t: Tree)
    requires Holds(m, low, at, t) && Keeps(m, n, low) && low' <= low
    ensures Holds(n, low', at, t)
    decreases t, 0
  {
    HoldsAllKept(m, n, low, low', m.heap[at].children, t.children);
  }

  lemma {:induction false} HoldsAllKept(m: Machine, n: Machine, low: nat, low': nat, ats: seq<nat>, ts: seq<Tree>)
    requires HoldsAll(m, low, ats, ts) && Keeps(m, n, low) && low' <= low
    ensures HoldsAll(n, low', ats, ts)
    decreases ts
  {
    forall i | 0 <= i < |ts| ensures Holds(n, low', ats[i], ts[i]) {
      HoldsKept(m, n, low, low', ats[i], ts[i]);
    }
  }
}
