/**
 * The shared page runtime as a state machine: one page instance with its lifecycle flags and the list of
 * dispose closures, driven by engine events, listener events and the actions of hooks.
 */
module PageModel {
  import opened Text

  /** A dispose closure made by `track`; `node` is set for node listeners only. */
  datatype Disposer = Disposer(id: nat, node: Option<nat>)

  datatype EngineEvent = RenderPage | UpdatePage | DestroyLifetime

  /** What the outside can observe, in order. */
  datatype Effect =
    | PageCreated
    | RenderHook
    | UpdateHook
    | DestroyHook
    | Destroyed           // the `destroyed` flag is set
    | Flushed
    | Added(id: nat)      // a listener handed to the platform
    | Removed(id: nat)    // and taken back

  /** The native element tree: the children of each element that has any. */
  type Tree = map<nat, seq<nat>>

  /**
   * What a hook or handler does, one synchronous step after the other. `Emit` lists the listener events the
   * platform delivers before returning, `Signal` is any other event delivered meanwhile, `Attempt` swallows
   * an exception, and `Mutate` is any change of the native tree that touches no listener.
   */
  datatype Action =
    | On(node: nat)
    | Listen
    | Unsubscribe(id: nat)
    | ReplaceChildren(parent: nat, children: seq<nat>, after: Tree)
    | Mutate(after: Tree)
    | Flush
    | Emit(deliveries: seq<Event>)
    | Signal(event: Event)
    | Attempt(body: seq<Action>)
    | Throw

  /** A delivery to one of the registered functions, with what the hook or handler does if it gets to run. */
  datatype Event =
    | Render(body: seq<Action>)
    | Update(body: seq<Action>)
    | Destroy(body: seq<Action>)
    | NodeEvent(body: seq<Action>)
    | AppEvent(body: seq<Action>)

  datatype Hooks = Hooks(render: bool, update: bool, destroy: bool)

  datatype Page = Page(
    rendered: bool,
    destroyed: bool,
    hooks: Hooks,
    engine: set<EngineEvent>,
    disposers: seq<Disposer>,
    live: set<nat>,
    tree: Tree,
    next: nat,
    log: seq<Effect>)

  const ALL_EVENTS := {RenderPage, UpdatePage, DestroyLifetime}

  function Initial(hooks: Hooks): Page {
    Page(false, false, hooks, ALL_EVENTS, [], {}, map[], 0, [])
  }

  // ----- Reachability in the native tree -----

  function Kids(tree: Tree, node: nat): seq<nat> {
    if node in tree then tree[node] else []
  }

  /** A walk down the tree from one of the roots to the target. */
  ghost predicate Walk(tree: Tree, roots: seq<nat>, path: seq<nat>, target: nat) {
    && path != []
    && path[0] in roots
    && path[|path| - 1] == target
    && forall i | 0 < i < |path| :: path[i] in Kids(tree, path[i - 1])
  }

  ghost predicate Reaches(tree: Tree, roots: seq<nat>, target: nat) {
    exists path :: Walk(tree, roots, path, target)
  }

  ghost predicate Ranked(tree: Tree, height: nat -> nat) {
    forall n, c | n in tree && c in tree[n] :: height(c) < height(n)
  }

  /** No element contains itself. */
  ghost predicate Acyclic(tree: Tree) {
    exists height: nat -> nat :: Ranked(tree, height)
  }

  ghost predicate AcyclicBody(body: seq<Action>) {
    forall a | a in body :: AcyclicAction(a)
  }

  /** The native tree stays a tree under everything the action does. */
  ghost predicate AcyclicAction(a: Action) {
    match a
    case ReplaceChildren(_, _, after) => Acyclic(after)
    case Mutate(after) => Acyclic(after)
    case Emit(deliveries) => forall e | e in deliveries :: AcyclicBody(e.body)
    case Signal(event) => AcyclicBody(event.body)
    case Attempt(body) => AcyclicBody(body)
    case _ => true
  }

  // ----- What each operation does -----

  function IndexOfId(ds: seq<Disposer>, id: nat): (i: int)
    ensures i == -1 ==> forall d | d in ds :: d.id != id
    ensures i != -1 ==> 0 <= i < |ds| && ds[i].id == id && forall j | 0 <= j < i :: ds[j].id != id
  {
    if ds == [] then -1
    else if ds[0].id == id then 0
    else
      var i := IndexOfId(ds[1..], id);
      if i == -1 then -1 else i + 1
  }

  lemma FirstWithId(ds: seq<Disposer>, k: nat)
    requires k < |ds| && forall j | 0 <= j < k :: ds[j].id != ds[k].id
    ensures IndexOfId(ds, ds[k].id) == k
  {
    var i := IndexOfId(ds, ds[k].id);
    assert ds[k] in ds;
    assert i != -1 && !(k < i);
  }

  /** `dispose()`: a second call, or a call after removal, does nothing. */
  function DisposedAt(p: Page, i: nat): Page
    requires i < |p.disposers|
  {
    var id := p.disposers[i].id;
    p.(disposers := p.disposers[..i] + p.disposers[i + 1..], live := p.live - {id}, log := p.log + [Removed(id)])
  }

  function Disposed(p: Page, id: nat): Page {
    var i := IndexOfId(p.disposers, id);
    if i < 0 then p else DisposedAt(p, i)
  }

  function Tracked(p: Page, node: Option<nat>): Page {
    p.(disposers := p.disposers + [Disposer(p.next, node)], live := p.live + {p.next}, next := p.next + 1,
       log := p.log + [Added(p.next)])
  }

  function Subscribed(p: Page, node: Option<nat>): Page {
    if p.destroyed then p else Tracked(p, node)
  }

  function FlushedUnlessDestroyed(p: Page): Page {
    if p.destroyed then p else p.(log := p.log + [Flushed])
  }

  /** The listener sits on an element that the replacement takes out of the tree. */
  ghost predicate Dropped(tree: Tree, previous: seq<nat>, next: seq<nat>, d: Disposer) {
    d.node.Some? && Reaches(tree, previous, d.node.value) && !Reaches(tree, next, d.node.value)
  }

  /** The listeners that stay, in their order. */
  ghost function Kept(tree: Tree, previous: seq<nat>, next: seq<nat>, ds: seq<Disposer>): (r: seq<Disposer>) {
    if ds == [] then []
    else (if Dropped(tree, previous, next, ds[0]) then [] else [ds[0]]) + Kept(tree, previous, next, ds[1..])
  }

  /** The dropped ones, last first: the order in which the descending loop removes them. */
  ghost function DroppedIds(tree: Tree, previous: seq<nat>, next: seq<nat>, ds: seq<Disposer>): seq<nat> {
    if ds == [] then []
    else
      DroppedIds(tree, previous, next, ds[1..]) + (if Dropped(tree, previous, next, ds[0]) then [ds[0].id] else [])
  }

  function Removals(ids: seq<nat>): (r: seq<Effect>)
    ensures |r| == |ids| && forall i | 0 <= i < |ids| :: r[i] == Removed(ids[i])
  {
    seq(|ids|, i requires 0 <= i < |ids| => Removed(ids[i]))
  }

  function Members(ids: seq<nat>): set<nat> {
    set id | id in ids
  }

  /** The state once every listener from index `k` on has been looked at. */
  ghost function Swept(p: Page, previous: seq<nat>, next: seq<nat>, k: nat): Page
    requires k <= |p.disposers|
  {
    var ids := DroppedIds(p.tree, previous, next, p.disposers[k..]);
    p.(disposers := p.disposers[..k] + Kept(p.tree, previous, next, p.disposers[k..]), live := p.live - Members(ids),
       log := p.log + Removals(ids))
  }

  ghost function Replaced(p: Page, previous: seq<nat>, next: seq<nat>): Page {
    Swept(p, previous, next, 0)
  }

  lemma SweptStep(p: Page, previous: seq<nat>, next: seq<nat>, k: nat)
    requires k < |p.disposers| && Distinct(IdsOf(p.disposers))
    ensures var d := p.disposers[k];
            && Swept(p, previous, next, k + 1).disposers[k] == d
            && Swept(p, previous, next, k)
            == if Dropped(p.tree, previous, next, d) then Disposed(Swept(p, previous, next, k + 1), d.id)
               else Swept(p, previous, next, k + 1)
  {
    var d, front, rest := p.disposers[k], p.disposers[..k], p.disposers[k + 1..];
    var q := Swept(p, previous, next, k + 1);
    var kept := Kept(p.tree, previous, next, rest);
    var ids := DroppedIds(p.tree, previous, next, rest);
    assert p.disposers[k..] == [d] + rest && ([d] + rest)[1..] == rest;
    assert q.disposers == front + [d] + kept;
    if Dropped(p.tree, previous, next, d) {
      forall j | 0 <= j < k ensures front[j].id != d.id { assert IdsOf(p.disposers)[j] != IdsOf(p.disposers)[k]; }
      DisposedExact(q, front, d, kept);
      RemovedOneMore(p, ids, d.id);
      assert Kept(p.tree, previous, next, [d] + rest) == [] + kept == kept;
    } else {
      assert front + ([d] + kept) == front + [d] + kept;
      assert ids + [] == ids;
    }
  }

  lemma DisposedExact(q: Page, front: seq<Disposer>, d: Disposer, rest: seq<Disposer>)
    requires q.disposers == front + [d] + rest
    requires forall j | 0 <= j < |front| :: front[j].id != d.id
    ensures Disposed(q, d.id)
         == q.(disposers := front + rest, live := q.live - {d.id}, log := q.log + [Removed(d.id)])
  {
    forall j | 0 <= j < |front| ensures q.disposers[j].id != d.id { assert q.disposers[j] == front[j]; }
    assert q.disposers[|front|] == d;
    FirstWithId(q.disposers, |front|);
    assert q.disposers[..|front|] == front && q.disposers[|front| + 1..] == rest;
  }

  lemma RemovedOneMore(p: Page, ids: seq<nat>, id: nat)
    ensures p.live - Members(ids) - {id} == p.live - Members(ids + [id])
    ensures p.log + Removals(ids) + [Removed(id)] == p.log + Removals(ids + [id])
  {
    assert Members(ids + [id]) == Members(ids) + {id};
    assert Removals(ids + [id]) == Removals(ids) + [Removed(id)];
  }

  function IdsOf(ds: seq<Disposer>): (ids: seq<nat>)
    ensures |ids| == |ds| && forall i | 0 <= i < |ds| :: ids[i] == ds[i].id
  {
    seq(|ds|, i requires 0 <= i < |ds| => ds[i].id)
  }

  function Backwards(ids: seq<nat>): seq<nat> {
    if ids == [] then [] else [ids[|ids| - 1]] + Backwards(ids[..|ids| - 1])
  }

  /** Engine listeners gone, every tracked listener removed from the last one on. */
  function Drained(p: Page): Page {
    p.(engine := {}, disposers := [], live := p.live - Members(IdsOf(p.disposers)),
       log := p.log + Removals(Backwards(IdsOf(p.disposers))), hooks := Hooks(false, false, false))
  }

  function Started(p: Page): Page {
    p.(rendered := true, log := p.log + [PageCreated])
  }

  function Logged(p: Page, e: Effect): Page {
    p.(log := p.log + [e])
  }

  /** The state after an action, and whether an exception leaves it. */
  ghost function Act(p: Page, a: Action): (Page, bool)
    decreases a, 2
  {
    match a
    case On(node) => (Subscribed(p, Some(node)), false)
    case Listen => (Subscribed(p, None), false)
    case Unsubscribe(id) => (Disposed(p, id), false)
    case ReplaceChildren(parent, children, after) =>
      (Replaced(p, Kids(p.tree, parent), children).(tree := after), false)
    case Mutate(after) => (p.(tree := after), false)
    case Flush => (FlushedUnlessDestroyed(p), false)
    case Emit(deliveries) => if p.destroyed then (p, false) else Deliver(p, deliveries)
    case Signal(event) => Handle(p, event)
    case Attempt(body) => (Perform(p, body).0, false)
    case Throw => (p, true)
  }

  ghost function Perform(p: Page, body: seq<Action>): (Page, bool)
    decreases body, 1
  {
    if body == [] then (p, false)
    else
      var (q, thrown) := Act(p, body[0]);
      if thrown then (q, true) else Perform(q, body[1..])
  }

  ghost function Deliver(p: Page, events: seq<Event>): (Page, bool)
    decreases events, 1
  {
    if events == [] then (p, false)
    else
      var (q, thrown) := Handle(p, events[0]);
      if thrown then (q, true) else Deliver(q, events[1..])
  }

  ghost function Handle(p: Page, e: Event): (Page, bool)
    decreases e, 2
  {
    match e
    case Render(body) =>
      if p.rendered || p.destroyed then (p, false)
      else if p.hooks.render then Perform(Logged(Started(p), RenderHook), body)
      else (Started(p), false)
    case Update(body) =>
      if !p.rendered || p.destroyed then (p, false)
      else
        var (q, thrown) := if p.hooks.update then Perform(Logged(p, UpdateHook), body) else (p, false);
        if thrown then (q, true) else (FlushedUnlessDestroyed(q), false)
    case Destroy(body) =>
      if p.destroyed then (p, false)
      else
        var d := Logged(p.(destroyed := true), Destroyed);
        var (q, thrown) := if p.hooks.destroy then Perform(Logged(d, DestroyHook), body) else (d, false);
        (Drained(q), thrown)
    case NodeEvent(body) =>
      if p.destroyed then (p, false)
      else
        var (q, thrown) := Perform(p, body);
        if thrown then (q, true) else (FlushedUnlessDestroyed(q), false)
    case AppEvent(body) =>
      if !p.rendered || p.destroyed then (p, false)
      else
        var (q, thrown) := Perform(p, body);
        if thrown then (q, true) else (FlushedUnlessDestroyed(q), false)
  }

  /** A run: the platform delivers events one after the other and survives their exceptions. */
  ghost function Run(p: Page, events: seq<Event>): Page
    decreases events
  {
    if events == [] then p else Run(Handle(p, events[0]).0, events[1..])
  }

  // ----- How the steps of the loops add up -----

  lemma OnlyEngineEvents(events: set<EngineEvent>)
    ensures events - {RenderPage} - {UpdatePage} - {DestroyLifetime} == {}
  {
    forall e | e in events ensures e in ALL_EVENTS {
      match e case RenderPage => case UpdatePage => case DestroyLifetime =>
    }
  }

  /** The state while draining, with the first `k` listeners left. */
  function DrainedTo(p: Page, k: nat): Page
    requires k <= |p.disposers|
  {
    var ids := IdsOf(p.disposers[k..]);
    p.(disposers := p.disposers[..k], live := p.live - Members(ids), log := p.log + Removals(Backwards(ids)))
  }

  lemma {:induction false} BackwardsCons(id: nat, ids: seq<nat>)
    ensures Backwards([id] + ids) == Backwards(ids) + [id]
  {
    var all := [id] + ids;
    if ids == [] {
      assert all[..0] == [] && all == [id];
      assert Backwards(all) == [id] + Backwards([]);
    } else {
      assert all[..|all| - 1] == [id] + ids[..|ids| - 1];
      BackwardsCons(id, ids[..|ids| - 1]);
    }
  }

  lemma LastIsNew(ds: seq<Disposer>, k: nat)
    requires 0 < k <= |ds| && Distinct(IdsOf(ds))
    ensures ds[..k] == ds[..k - 1] + [ds[k - 1]] + []
    ensures var front := ds[..k - 1]; forall j | 0 <= j < |front| :: front[j].id != ds[k - 1].id
    ensures IdsOf(ds[k - 1..]) == [ds[k - 1].id] + IdsOf(ds[k..])
  {
    var front := ds[..k - 1];
    forall j | 0 <= j < k - 1 ensures front[j].id != ds[k - 1].id { assert IdsOf(ds)[j] != IdsOf(ds)[k - 1]; }
  }

  lemma MembersCons(id: nat, ids: seq<nat>)
    ensures Members(Backwards(ids) + [id]) == Members([id] + ids)
  {
    BackwardsMembers(ids);
    assert Members([id] + ids) == {id} + Members(ids);
    assert Members(Backwards(ids) + [id]) == Members(Backwards(ids)) + {id};
  }

  lemma DrainedStep(p: Page, k: nat)
    requires 0 < k <= |p.disposers| && Distinct(IdsOf(p.disposers))
    ensures Disposed(DrainedTo(p, k), p.disposers[k - 1].id) == DrainedTo(p, k - 1)
  {
    hide Disposed, Members, Backwards, Removals, IdsOf, Distinct;
    var d, front := p.disposers[k - 1], p.disposers[..k - 1];
    var ids := IdsOf(p.disposers[k..]);
    LastIsNew(p.disposers, k);
    BackwardsCons(d.id, ids);
    DisposedExact(DrainedTo(p, k), front, d, []);
    RemovedOneMore(p, Backwards(ids), d.id);
    BackwardsMembers(ids);
    MembersCons(d.id, ids);
    assert front + [] == front;
  }

  lemma {:induction false} BackwardsMembers(ids: seq<nat>)
    ensures Members(Backwards(ids)) == Members(ids)
  {
    if ids != [] {
      var n := |ids| - 1;
      BackwardsMembers(ids[..n]);
      assert ids == ids[..n] + [ids[n]];
      assert Members(Backwards(ids)) == {ids[n]} + Members(Backwards(ids[..n]));
    }
  }

  lemma DrainedAll(p: Page)
    requires p.engine == {}
    ensures DrainedTo(p, 0).(hooks := Hooks(false, false, false)) == Drained(p)
  {
    assert p.disposers[0..] == p.disposers;
  }

  lemma ReachesSplit(tree: Tree, roots: seq<nat>, i: nat, target: nat)
    requires i < |roots|
    ensures Reaches(tree, roots[..i + 1], target)
       <==> Reaches(tree, roots[..i], target) || Reaches(tree, [roots[i]], target)
    ensures Reaches(tree, [roots[i]], target) ==> Reaches(tree, roots, target)
  {
    assert roots[..i + 1] == roots[..i] + [roots[i]];
    if Reaches(tree, roots[..i + 1], target) {
      var path :| Walk(tree, roots[..i + 1], path, target);
      assert Walk(tree, roots[..i], path, target) || Walk(tree, [roots[i]], path, target);
    }
    if Reaches(tree, roots[..i], target) {
      var path :| Walk(tree, roots[..i], path, target);
      assert Walk(tree, roots[..i + 1], path, target);
    }
    if Reaches(tree, [roots[i]], target) {
      var path :| Walk(tree, [roots[i]], path, target);
      assert path[0] == roots[i];
      assert Walk(tree, roots[..i + 1], path, target) && Walk(tree, roots, path, target);
    }
  }

  lemma ReachesDown(tree: Tree, root: nat, target: nat)
    ensures Reaches(tree, [root], target) <==> root == target || Reaches(tree, Kids(tree, root), target)
  {
    if Reaches(tree, [root], target) && root != target {
      var path :| Walk(tree, [root], path, target);
      assert Walk(tree, Kids(tree, root), path[1..], target);
    }
    if root == target { assert Walk(tree, [root], [root], target); }
    if Reaches(tree, Kids(tree, root), target) {
      var path :| Walk(tree, Kids(tree, root), path, target);
      assert Walk(tree, [root], [root] + path, target);
    }
  }

  ghost function Above(height: nat -> nat, nodes: seq<nat>): (bound: nat)
    ensures forall n | n in nodes :: height(n) < bound
  {
    if nodes == [] then 0
    else
      var rest := Above(height, nodes[1..]);
      if height(nodes[0]) < rest then rest else height(nodes[0]) + 1
  }
}
