/** What must happen on a page: a delivery that passes its guard runs its hook or handler and is flushed. */
module PageLiveness {
  import opened Text
  import opened PageModel
  import opened PageSafety

  /** The delivery passes the guard of the function it goes to. */
  predicate Passes(p: Page, e: Event) {
    match e
    case Render(_) => !p.rendered && !p.destroyed
    case Update(_) => p.rendered && !p.destroyed
    case Destroy(_) => !p.destroyed
    case NodeEvent(_) => !p.destroyed
    case AppEvent(_) => p.rendered && !p.destroyed
  }

  /** The delivery is one whose changes are flushed. */
  predicate Flushes(e: Event) {
    e.Update? || e.NodeEvent? || e.AppEvent?
  }

  predicate EndsFlushed(log: seq<Effect>) {
    log != [] && log[|log| - 1] == Flushed
  }

  /** The log with more behind it. */
  function With(p: Page, effects: seq<Effect>): Page {
    p.(log := p.log + effects)
  }

  // ----- One delivery -----

  /** What does not pass its guard has no effect at all. */
  lemma GuardHolds(p: Page, e: Event)
    requires !Passes(p, e)
    ensures Handle(p, e) == (p, false)
  {
  }

  /** An update, or an event of a listener, is flushed at its end, unless it throws or destroys the page. */
  lemma DeliveryFlushes(p: Page, e: Event)
    requires Passes(p, e) && Flushes(e)
    ensures var (q, thrown) := Handle(p, e);
            !thrown && !q.destroyed ==> EndsFlushed(q.log)
  {
    hide Perform;
  }

  /** The state in which the hook or handler of a passed delivery runs. */
  function Entered(p: Page, e: Event): Page {
    match e
    case Render(_) => With(p.(rendered := true), if p.hooks.render then [PageCreated, RenderHook] else [PageCreated])
    case Update(_) => With(p, if p.hooks.update then [UpdateHook] else [])
    case Destroy(_) => With(p.(destroyed := true), if p.hooks.destroy then [Destroyed, DestroyHook] else [Destroyed])
    case NodeEvent(_) => p
    case AppEvent(_) => p
  }

  /** Whether there is a hook or handler to be run. */
  predicate Answered(p: Page, e: Event) {
    match e
    case Render(_) => p.hooks.render
    case Update(_) => p.hooks.update
    case Destroy(_) => p.hooks.destroy
    case NodeEvent(_) => true
    case AppEvent(_) => true
  }

  /**
   * A passed delivery enters its state and performs the whole body of its hook or handler there, exceptions included.
   * What comes behind touches neither the tree nor the flags, and only a destruction takes listeners back.
   */
  lemma BodyRuns(p: Page, e: Event)
    requires Passes(p, e)
    ensures var (q, thrown) := if Answered(p, e) then Perform(Entered(p, e), e.body) else (Entered(p, e), false);
            var (r, passed) := Handle(p, e);
            && passed == thrown
            && r.tree == q.tree && r.rendered == q.rendered && r.destroyed == q.destroyed && r.next == q.next
            && q.log <= r.log
            && (!e.Destroy? ==> r.disposers == q.disposers && r.live == q.live && r.engine == q.engine)
            && (Flushes(e) ==> r.log == if thrown || q.destroyed then q.log else q.log + [Flushed])
            && (e.Render? ==> r == q)
  {
    EnteredSteps(p, e);
    hide Perform;
  }

  lemma EnteredSteps(p: Page, e: Event)
    ensures e.Render? ==>
              Entered(p, e) == if p.hooks.render then Logged(Started(p), RenderHook) else Started(p)
    ensures e.Update? ==> Entered(p, e) == if p.hooks.update then Logged(p, UpdateHook) else p
    ensures e.Destroy? ==>
              var d := Logged(p.(destroyed := true), Destroyed);
              Entered(p, e) == if p.hooks.destroy then Logged(d, DestroyHook) else d
  {
    assert p.log + [] == p.log;
    assert p.log + [PageCreated] + [RenderHook] == p.log + [PageCreated, RenderHook];
    assert p.log + [Destroyed] + [DestroyHook] == p.log + [Destroyed, DestroyHook];
  }

  lemma EnteredInv(p: Page, e: Event)
    requires Inv(p) && Passes(p, e)
    ensures Inv(Entered(p, e))
  {
    EnteredSteps(p, e);
    match e
    case Render(_) =>
      StartedKeeps(p);
      if p.hooks.render { LoggedKeeps(Started(p), RenderHook); }
    case Update(_) => if p.hooks.update { LoggedKeeps(p, UpdateHook); }
    case Destroy(_) =>
      DoomedKeeps(p);
      if p.hooks.destroy { LoggedKeeps(Logged(p.(destroyed := true), Destroyed), DestroyHook); }
    case _ =>
  }

  /** The hook is in the log, right behind what was there before. */
  lemma HookLogged(p: Page, e: Event)
    requires Inv(p) && AcyclicBody(e.body) && Passes(p, e)
    ensures Entered(p, e).log <= Handle(p, e).0.log
  {
    EnteredInv(p, e);
    PerformKeeps(Entered(p, e), e.body);
    BodyRuns(p, e);
    hide Inv, Perform, Handle, AcyclicBody, Entered, Answered;
  }

  // ----- One action -----

  /** Before destruction, listening leaves exactly one new live listener, on that node; afterwards it does nothing. */
  lemma Listens(p: Page, a: Action)
    requires Inv(p) && (a.On? || a.Listen?)
    ensures Act(p, a).1 == false
    ensures p.destroyed ==> Act(p, a).0 == p
    ensures !p.destroyed ==>
              var q, id := Act(p, a).0, p.next;
              && id !in p.live && q.live == p.live + {id}
              && q.disposers == p.disposers + [Disposer(id, if a.On? then Some(a.node) else None)]
              && q.log == p.log + [Added(id)]
              && q == p.(live := q.live, disposers := q.disposers, log := q.log, next := q.next)
  {
  }

  /** Disposing a live listener takes it back, and it alone. */
  lemma Unsubscribes(p: Page, id: nat)
    requires Inv(p)
    ensures var q := Act(p, Unsubscribe(id)).0;
            && q.live == p.live - {id}
            && (forall d :: d in q.disposers <==> d in p.disposers && d.id != id)
            && q.log == p.log + (if id in p.live then [Removed(id)] else [])
  {
    hide Acyclic, Truthful;
    var i := IndexOfId(p.disposers, id);
    var ids := IdsOf(p.disposers);
    if i >= 0 {
      assert ids[i] == id && id in ids;
      forall d | d in p.disposers && d.id == id ensures d == p.disposers[i] {
        SameIdSame(p.disposers, d, p.disposers[i]);
      }
      Spliced(p.disposers, i);
    } else {
      assert p.log + [] == p.log;
      forall k | 0 <= k < |ids| ensures ids[k] != id { assert p.disposers[k] in p.disposers; }
    }
  }

  lemma Spliced(ds: seq<Disposer>, i: nat)
    requires i < |ds| && Distinct(IdsOf(ds))
    ensures forall d :: d in ds[..i] + ds[i + 1..] <==> d in ds && d.id != ds[i].id
  {
    var rest := ds[..i] + ds[i + 1..];
    forall d ensures d in rest <==> d in ds && d.id != ds[i].id {
      if d in rest {
        var k :| 0 <= k < |rest| && rest[k] == d;
        var j := if k < i then k else k + 1;
        assert ds[j] == d && IdsOf(ds)[j] != IdsOf(ds)[i];
      }
      if d in ds && d.id != ds[i].id {
        var j :| 0 <= j < |ds| && ds[j] == d;
        assert rest[if j < i then j else j - 1] == d;
      }
    }
  }

  /** An explicit flush reaches the platform exactly while the page lives. */
  lemma FlushReaches(p: Page)
    ensures Act(p, Flush) == (if p.destroyed then p else With(p, [Flushed]), false)
  {
  }

  /** An emitted event is delivered to its listeners in order, until one throws, exactly while the page lives. */
  lemma EmitReaches(p: Page, e: Event, more: seq<Event>)
    ensures Act(p, Emit([])) == (p, false)
    ensures p.destroyed ==> Act(p, Emit([e] + more)) == (p, false)
    ensures !p.destroyed ==>
              var (q, thrown) := Handle(p, e);
              Act(p, Emit([e] + more)) == if thrown then (q, true) else Deliver(q, more)
  {
    assert ([e] + more)[1..] == more;
  }

  // ----- Bodies, step by step -----

  /**
   * From each state to the next by one action of the body, without an exception but perhaps from the last one; without
   * one the body is done to its end.
   */
  ghost predicate Traces(states: seq<Page>, p: Page, body: seq<Action>, thrown: bool) {
    && 1 <= |states| <= |body| + 1 && states[0] == p
    && (if thrown then |states| >= 2 else |states| == |body| + 1)
    && forall k | 0 <= k < |states| - 1 :: Act(states[k], body[k]) == (states[k + 1], thrown && k == |states| - 2)
  }

  lemma {:induction false} BodyTraces(p: Page, body: seq<Action>) returns (states: seq<Page>)
    ensures var (q, thrown) := Perform(p, body); Traces(states, p, body, thrown) && states[|states| - 1] == q
    decreases body
  {
    hide Act;
    if body == [] {
      states := [p];
    } else {
      var (q, thrown) := Act(p, body[0]);
      if thrown {
        states := [p, q];
      } else {
        var more := BodyTraces(q, body[1..]);
        states := [p] + more;
        TraceCons(more, p, q, body);
      }
    }
  }

  lemma TraceCons(more: seq<Page>, p: Page, q: Page, body: seq<Action>)
    requires body != [] && Act(p, body[0]) == (q, false)
    requires Traces(more, q, body[1..], Perform(q, body[1..]).1)
    ensures Traces([p] + more, p, body, Perform(q, body[1..]).1)
  {
    hide Act, Perform;
    var states, thrown := [p] + more, Perform(q, body[1..]).1;
    forall k | 0 <= k < |states| - 1
      ensures Act(states[k], body[k]) == (states[k + 1], thrown && k == |states| - 2)
    {
      if k > 0 { assert states[k] == more[k - 1] && states[k + 1] == more[k] && body[k] == body[1..][k - 1]; }
    }
  }

  /** Reached are the roots, and the children of what is reached. */
  lemma ReachesExact(tree: Tree, roots: seq<nat>, target: nat)
    ensures Reaches(tree, roots, target)
       <==> target in roots || exists n :: n in tree && target in tree[n] && Reaches(tree, roots, n)
  {
    if target in roots { assert Walk(tree, roots, [target], target); }
    if Reaches(tree, roots, target) && target !in roots {
      var path :| Walk(tree, roots, path, target);
      var n := path[|path| - 2];
      assert Walk(tree, roots, path[..|path| - 1], n);
    }
    if n :| n in tree && target in tree[n] && Reaches(tree, roots, n) {
      var path :| Walk(tree, roots, path, n);
      assert Walk(tree, roots, path + [target], target);
    }
  }

  /** Replacing children changes the tree, and besides only takes listeners back. */
  lemma TreeReplaced(p: Page, parent: nat, children: seq<nat>, after: Tree)
    ensures var (q, thrown) := Act(p, ReplaceChildren(parent, children, after));
            && !thrown && q.tree == after
            && q.disposers == Kept(p.tree, if parent in p.tree then p.tree[parent] else [], children, p.disposers)
            && q == p.(tree := after, disposers := q.disposers, live := q.live, log := q.log)
  {
    hide Kept, DroppedIds;
    assert p.disposers[0..] == p.disposers;
    assert p.disposers[..0] == [];
  }

  // ----- The end -----

  lemma {:induction false} BackwardsAt(ids: seq<nat>)
    ensures |Backwards(ids)| == |ids| && forall k | 0 <= k < |ids| :: Backwards(ids)[k] == ids[|ids| - 1 - k]
  {
    if ids != [] {
      var rest := ids[..|ids| - 1];
      BackwardsAt(rest);
      forall k | 0 < k < |ids| ensures Backwards(ids)[k] == ids[|ids| - 1 - k] {
        assert Backwards(ids)[k] == Backwards(rest)[k - 1] == rest[|rest| - 1 - (k - 1)];
      }
    }
  }

  /** `r` is `q` with every listener taken back, from the last one on. */
  ghost predicate Emptied(q: Page, r: Page) {
    var n := |q.disposers|;
    && r.engine == {} && r.disposers == [] && |r.log| == |q.log| + n
    && (forall k | 0 <= k < |q.log| :: r.log[k] == q.log[k])
    && (forall k | 0 <= k < n :: r.log[|r.log| - 1 - k] == Removed(q.disposers[k].id))
    && (forall id :: id in r.live <==> id in q.live && forall d | d in q.disposers :: d.id != id)
  }

  lemma DrainedLog(log: seq<Effect>, ids: seq<nat>)
    ensures var all := log + Removals(Backwards(ids));
            && |all| == |log| + |ids|
            && (forall k | 0 <= k < |log| :: all[k] == log[k])
            && (forall k | 0 <= k < |ids| :: all[|all| - 1 - k] == Removed(ids[k]))
  {
    hide Backwards;
    BackwardsAt(ids);
    var all := log + Removals(Backwards(ids));
    forall k | 0 <= k < |ids| ensures all[|all| - 1 - k] == Removed(ids[k]) {
      assert Backwards(ids)[|ids| - 1 - k] == ids[k];
    }
  }

  lemma DrainedEmpties(q: Page)
    ensures Emptied(q, Drained(q))
  {
    hide Backwards, Members, Removals;
    DrainedLog(q.log, IdsOf(q.disposers));
    DrainedLive(q);
  }

  /** Destroying takes back every listener there is once the hook is done. */
  lemma DestroyDrains(p: Page, body: seq<Action>)
    requires !p.destroyed
    ensures var e := Destroy(body);
            Emptied(if p.hooks.destroy then Perform(Entered(p, e), body).0 else Entered(p, e), Handle(p, e).0)
  {
    hide Perform, Emptied, Drained;
    var e := Destroy(body);
    EnteredSteps(p, e);
    DrainedEmpties(if p.hooks.destroy then Perform(Entered(p, e), body).0 else Entered(p, e));
  }

  lemma DrainedLive(q: Page)
    ensures forall id :: id in Drained(q).live <==> id in q.live && forall d | d in q.disposers :: d.id != id
  {
    var ids := IdsOf(q.disposers);
    forall id ensures id in ids <==> exists d | d in q.disposers :: d.id == id {
      if id in ids {
        var k :| 0 <= k < |ids| && ids[k] == id;
        assert q.disposers[k] in q.disposers;
      }
      if exists d | d in q.disposers :: d.id == id {
        var k :| 0 <= k < |q.disposers| && q.disposers[k].id == id;
        assert ids[k] == id;
      }
    }
  }

  // ----- Whole runs -----

  lemma {:induction false} RunSplits(p: Page, events: seq<Event>, e: Event)
    ensures Run(p, events + [e]) == Handle(Run(p, events), e).0
    decreases events
  {
    if events == [] {
      assert [] + [e] == [e] && [e][1..] == [];
    } else {
      assert (events + [e])[0] == events[0] && (events + [e])[1..] == events[1..] + [e];
      RunSplits(Handle(p, events[0]).0, events[1..], e);
    }
  }

  /**
   * In every run of a page: a delivery that passes its guard logs its hook, and if it is an update or an event of a
   * listener, is flushed before anything else is delivered, unless it throws or destroys the page.
   */
  lemma EveryDeliveryAnswers(hooks: Hooks, events: seq<Event>, e: Event)
    requires forall d | d in events + [e] :: AcyclicBody(d.body)
    ensures var p, q := Run(Initial(hooks), events), Run(Initial(hooks), events + [e]);
            if !Passes(p, e) then q == p
            else
              && Entered(p, e).log <= q.log
              && (Flushes(e) && !Handle(p, e).1 && !q.destroyed ==> EndsFlushed(q.log))
  {
    var p := Run(Initial(hooks), events);
    RunSplits(Initial(hooks), events, e);
    forall d | d in events ensures AcyclicBody(d.body) { assert d in events + [e]; }
    assert e in events + [e];
    EveryRunIsSafe(hooks, events);
    if Passes(p, e) {
      HookLogged(p, e);
      if Flushes(e) { DeliveryFlushes(p, e); }
    } else {
      GuardHolds(p, e);
    }
  }
}
