/** The runtime's own code: an object whose methods change its fields in place, each tied to the state machine. */
module PageRuntime {
  import opened Text
  import opened PageModel
  import opened PageSafety

  class DefinePage {
    var hooks: Hooks
    var rendered: bool
    var destroyed: bool
    var disposers: seq<Disposer>
    var engine: set<EngineEvent>
    var live: set<nat>
    var tree: Tree
    var next: nat
    var log: seq<Effect>

    function State(): Page
      reads this
    {
      Page(rendered, destroyed, hooks, engine, disposers, live, tree, next, log)
    }

    constructor (hooks: Hooks)
      ensures State() == Initial(hooks)
    {
      this.hooks, rendered, destroyed, disposers := hooks, false, false, [];
      engine, live, tree, next, log := ALL_EVENTS, {}, map[], 0, [];
    }

    method Dispose(id: nat)
      modifies this
      ensures State() == Disposed(old(State()), id)
    {
      var index := IndexOfId(disposers, id);
      if index < 0 { return; }
      disposers := disposers[..index] + disposers[index + 1..];
      live := live - {id};
      log := log + [Removed(id)];
    }

    method Track(node: Option<nat>) returns (id: nat)
      modifies this
      ensures id == old(next) && State() == Tracked(old(State()), node)
    {
      id := next;
      next := next + 1;
      live := live + {id};
      log := log + [Added(id)];
      disposers := disposers + [Disposer(id, node)];
    }

    method Subscribe(node: Option<nat>)
      modifies this
      ensures State() == Subscribed(old(State()), node)
    {
      if destroyed { return; }
      var _ := Track(node);
    }

    method FlushTree()
      modifies this
      ensures State() == FlushedUnlessDestroyed(old(State()))
    {
      if !destroyed { log := log + [Flushed]; }
    }

    /** The recursive search, which terminates because the tree is ranked. */
    method ContainsNode(roots: seq<nat>, target: nat, ghost height: nat -> nat, ghost bound: nat) returns (found: bool)
      requires Ranked(tree, height)
      requires forall r | r in roots :: height(r) < bound
      ensures found <==> Reaches(tree, roots, target)
      decreases bound
    {
      var i := 0;
      while i < |roots|
        invariant 0 <= i <= |roots|
        invariant !Reaches(tree, roots[..i], target)
      {
        var root := roots[i];
        ReachesSplit(tree, roots, i, target);
        if root == target {
          assert Walk(tree, [root], [root], target);
          return true;
        }
        var children := Kids(tree, root);
        ReachesDown(tree, root, target);
        var inside := ContainsNode(children, target, height, height(root));
        if inside { return true; }
        i := i + 1;
      }
      assert roots[..i] == roots;
      return false;
    }

    method Contains(roots: seq<nat>, target: nat) returns (found: bool)
      requires Acyclic(tree)
      ensures found <==> Reaches(tree, roots, target)
    {
      ghost var height: nat -> nat :| Ranked(tree, height);
      ghost var bound := Above(height, roots);
      found := ContainsNode(roots, target, height, bound);
    }

    /** The descending loop: it splices the list it walks over, always at the index it looks at. */
    method DisposeRemovedListeners(previous: seq<nat>, next: seq<nat>)
      requires Acyclic(tree) && Distinct(IdsOf(disposers))
      modifies this
      ensures State() == Replaced(old(State()), previous, next)
    {
      ghost var was := State();
      var index := |disposers| - 1;
      assert disposers[..index + 1] == disposers && disposers[index + 1..] == [];
      while index >= 0
        invariant -1 <= index < |was.disposers|
        invariant State() == Swept(was, previous, next, index + 1)
      {
        SweptStep(was, previous, next, index);
        var d := disposers[index];
        if d.node.Some? {
          var before := Contains(previous, d.node.value);
          if before {
            var after := Contains(next, d.node.value);
            if !after { Dispose(d.id); }
          }
        }
        index := index - 1;
      }
    }

    method ReplaceChildren(parent: nat, children: seq<nat>, after: Tree)
      requires Acyclic(tree) && Distinct(IdsOf(disposers))
      modifies this
      ensures (State(), false) == Act(old(State()), Action.ReplaceChildren(parent, children, after))
    {
      var previous := Kids(tree, parent);
      DisposeRemovedListeners(previous, children);
      tree := after;
    }

    /** `while (disposers.length) disposers[disposers.length - 1]()`, after taking the engine listeners back. */
    method Drain()
      requires Distinct(IdsOf(disposers))
      modifies this
      ensures State() == Drained(old(State()))
    {
      engine := engine - {RenderPage};
      engine := engine - {UpdatePage};
      engine := engine - {DestroyLifetime};
      OnlyEngineEvents(old(engine));
      ghost var was := State();
      assert was.disposers[..|was.disposers|] == was.disposers;
      while |disposers| > 0
        invariant |disposers| <= |was.disposers|
        invariant State() == DrainedTo(was, |disposers|)
        decreases |disposers|
      {
        DrainedStep(was, |disposers|);
        Dispose(disposers[|disposers| - 1].id);
      }
      hooks := Hooks(false, false, false);
      DrainedAll(was);
    }

    method RunAction(a: Action) returns (thrown: bool)
      requires Inv(State()) && AcyclicAction(a)
      modifies this
      ensures (State(), thrown) == Act(old(State()), a) && Inv(State())
      decreases a, 2
    {
      ActKeeps(State(), a);
      thrown := false;
      match a
      case On(node) => Subscribe(Some(node));
      case Listen => Subscribe(None);
      case Unsubscribe(id) => Dispose(id);
      case ReplaceChildren(parent, children, after) => ReplaceChildren(parent, children, after);
      case Mutate(after) => tree := after;
      case Flush => FlushTree();
      case Emit(deliveries) => if !destroyed { thrown := DispatchAll(deliveries); }
      case Signal(event) => thrown := Dispatch(event);
      case Attempt(body) => var _ := RunBody(body);
      case Throw => thrown := true;
    }

    method RunBody(body: seq<Action>) returns (thrown: bool)
      requires Inv(State()) && AcyclicBody(body)
      modifies this
      ensures (State(), thrown) == Perform(old(State()), body) && Inv(State())
      decreases body, 1
    {
      if body == [] { return false; }
      thrown := RunAction(body[0]);
      if !thrown { thrown := RunBody(body[1..]); }
    }

    method DispatchAll(events: seq<Event>) returns (thrown: bool)
      requires Inv(State()) && forall e | e in events :: AcyclicBody(e.body)
      modifies this
      ensures (State(), thrown) == Deliver(old(State()), events) && Inv(State())
      decreases events, 1
    {
      if events == [] { return false; }
      thrown := Dispatch(events[0]);
      if !thrown { thrown := DispatchAll(events[1..]); }
    }

    method Dispatch(e: Event) returns (thrown: bool)
      requires Inv(State()) && AcyclicBody(e.body)
      modifies this
      ensures (State(), thrown) == Handle(old(State()), e) && Inv(State())
      decreases e, 2
    {
      match e
      case Render(body) => thrown := OnRender(body);
      case Update(body) => thrown := OnUpdate(body);
      case Destroy(body) => thrown := OnDestroy(body);
      case NodeEvent(body) =>
        if destroyed { return false; }
        thrown := OnListener(body);
      case AppEvent(body) =>
        if !rendered || destroyed { return false; }
        thrown := OnListener(body);
    }

    method OnRender(body: seq<Action>) returns (thrown: bool)
      requires Inv(State()) && AcyclicBody(body)
      modifies this
      ensures (State(), thrown) == Handle(old(State()), Render(body)) && Inv(State())
      decreases body, 2
    {
      HandleKeeps(State(), Render(body));
      thrown := false;
      if rendered || destroyed { return; }
      StartedKeeps(State());
      rendered := true;
      log := log + [PageCreated];
      if hooks.render {
        LoggedKeeps(State(), RenderHook);
        log := log + [RenderHook];
        thrown := RunBody(body);
      }
    }

    method OnUpdate(body: seq<Action>) returns (thrown: bool)
      requires Inv(State()) && AcyclicBody(body)
      modifies this
      ensures (State(), thrown) == Handle(old(State()), Update(body)) && Inv(State())
      decreases body, 2
    {
      HandleKeeps(State(), Update(body));
      thrown := false;
      if !rendered || destroyed { return; }
      if hooks.update {
        LoggedKeeps(State(), UpdateHook);
        log := log + [UpdateHook];
        thrown := RunBody(body);
        if thrown { return; }
      }
      FlushTree();
    }

    /** The hook may throw; draining happens all the same, and only then does the exception go on. */
    method OnDestroy(body: seq<Action>) returns (thrown: bool)
      requires Inv(State()) && AcyclicBody(body)
      modifies this
      ensures (State(), thrown) == Handle(old(State()), Destroy(body)) && Inv(State())
      decreases body, 2
    {
      HandleKeeps(State(), Destroy(body));
      thrown := false;
      if destroyed { return; }
      DoomedKeeps(State());
      destroyed := true;
      log := log + [Destroyed];
      if hooks.destroy {
        LoggedKeeps(State(), DestroyHook);
        log := log + [DestroyHook];
        thrown := RunBody(body);
      }
      Drain();
    }

    /** The wrapper around a listener's handler, past its guard. */
    method OnListener(body: seq<Action>) returns (thrown: bool)
      requires Inv(State()) && AcyclicBody(body)
      modifies this
      ensures var (q, t) := Perform(old(State()), body);
              (State(), thrown) == if t then (q, true) else (FlushedUnlessDestroyed(q), false)
      ensures Inv(State())
      decreases body, 2
    {
      thrown := RunBody(body);
      if thrown { return; }
      FlushKeeps(State());
      FlushTree();
    }
  }
}
