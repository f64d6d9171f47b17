/** What holds over whole runs of the page runtime, whatever engine, listeners and hooks do and in whatever order. */
module PageSafety {
  import opened Text
  import opened PageModel

  /** Effects that happen at most once. */
  predicate OnceOnly(e: Effect) {
    !e.UpdateHook? && !e.Flushed?
  }

  /** Effects that never follow the setting of the `destroyed` flag. */
  predicate Mortal(e: Effect) {
    e.PageCreated? || e.RenderHook? || e.UpdateHook? || e.Flushed? || e.Added?
  }

  /** What must have happened before. */
  function Needs(e: Effect): Option<Effect> {
    match e
    case RenderHook => Some(PageCreated)
    case UpdateHook => Some(PageCreated)
    case DestroyHook => Some(Destroyed)
    case Removed(id) => Some(Added(id))
    case _ => None
  }

  predicate Allowed(past: seq<Effect>, e: Effect) {
    && (OnceOnly(e) ==> e !in past)
    && (Mortal(e) ==> Destroyed !in past)
    && (Needs(e).Some? ==> Needs(e).value in past)
  }

  predicate SafeLog(log: seq<Effect>) {
    forall j | 0 <= j < |log| :: Allowed(log[..j], log[j])
  }

  lemma SafeLogAppend(log: seq<Effect>, e: Effect)
    requires SafeLog(log) && Allowed(log, e)
    ensures SafeLog(log + [e])
  {
    var all := log + [e];
    forall j | 0 <= j < |all| ensures Allowed(all[..j], all[j]) {
      if j < |log| { assert all[..j] == log[..j]; } else { assert all[..j] == log; }
    }
  }

  /** Registrations and dispose closures correspond one to one. */
  ghost predicate Matched(p: Page) {
    && Distinct(IdsOf(p.disposers))
    && p.live == Members(IdsOf(p.disposers))
    && (forall id | id in p.live :: id < p.next)
  }

  /** What the log says has happened to the page. */
  ghost predicate FlagsTruthful(log: seq<Effect>, rendered: bool, destroyed: bool) {
    && (PageCreated in log <==> rendered)
    && (RenderHook in log ==> rendered)
    && (Destroyed in log <==> destroyed)
    && (DestroyHook in log ==> destroyed)
  }

  /** What the log says about the listeners. */
  ghost predicate ListenersTruthful(log: seq<Effect>, next: nat, live: set<nat>) {
    && (forall id: nat :: Added(id) in log <==> id < next)
    && (forall id: nat :: Removed(id) in log <==> id < next && id !in live)
  }

  /** The log tells the truth about the state. */
  ghost predicate Truthful(p: Page) {
    SafeLog(p.log) && FlagsTruthful(p.log, p.rendered, p.destroyed) && ListenersTruthful(p.log, p.next, p.live)
  }

  ghost predicate Inv(p: Page) {
    && Acyclic(p.tree)
    && Matched(p)
    && Truthful(p)
    && (!p.destroyed ==> p.engine == ALL_EVENTS)
  }

  /** Once destruction is over nothing is registered any more. */
  ghost predicate Clean(p: Page) {
    p.destroyed ==> p.engine == {} && p.disposers == [] && p.live == {}
  }

  ghost predicate Grows(p: Page, q: Page) {
    && Inv(q)
    && p.log <= q.log
    && (p.destroyed ==> q.destroyed)
    && (p.rendered ==> q.rendered)
    && (Clean(p) ==> Clean(q))
  }

  lemma TrackedMatched(p: Page, node: Option<nat>)
    requires Matched(p)
    ensures Matched(Tracked(p, node))
  {
    var q := Tracked(p, node);
    var ids := IdsOf(p.disposers);
    assert IdsOf(q.disposers) == ids + [p.next];
    assert forall id | id in ids :: id in Members(ids);
    DistinctAppend(ids, [p.next]);
    assert Members(ids + [p.next]) == Members(ids) + {p.next};
  }

  lemma AdditionListeners(log: seq<Effect>, next: nat, live: set<nat>)
    requires ListenersTruthful(log, next, live)
    ensures ListenersTruthful(log + [Added(next)], next + 1, live + {next})
  {
    forall i: nat ensures Added(i) in log + [Added(next)] <==> Added(i) in log || i == next {}
    forall i: nat ensures Removed(i) in log + [Added(next)] <==> Removed(i) in log {}
  }

  lemma AdditionFlags(log: seq<Effect>, id: nat, rendered: bool, destroyed: bool)
    requires FlagsTruthful(log, rendered, destroyed)
    ensures FlagsTruthful(log + [Added(id)], rendered, destroyed)
  {
  }

  lemma AdditionAllowed(p: Page)
    requires Truthful(p) && !p.destroyed
    ensures Allowed(p.log, Added(p.next))
  {
    hide SafeLog;
  }

  lemma TrackedTruthful(p: Page, node: Option<nat>)
    requires Truthful(p) && !p.destroyed
    ensures Truthful(Tracked(p, node))
  {
    AdditionAllowed(p);
    SafeLogAppend(p.log, Added(p.next));
    AdditionListeners(p.log, p.next, p.live);
    AdditionFlags(p.log, p.next, p.rendered, p.destroyed);
    hide SafeLog, Allowed, ListenersTruthful, FlagsTruthful;
  }

  lemma TrackedKeeps(p: Page, node: Option<nat>)
    requires Inv(p) && !p.destroyed
    ensures Grows(p, Tracked(p, node))
  {
    TrackedMatched(p, node);
    TrackedTruthful(p, node);
    hide Matched, Truthful, Acyclic;
  }

  lemma SplitIds(front: seq<Disposer>, d: Disposer, rest: seq<Disposer>)
    requires Distinct(IdsOf(front + [d] + rest))
    ensures Distinct(IdsOf(front + rest))
    ensures Members(IdsOf(front + rest)) == Members(IdsOf(front + [d] + rest)) - {d.id}
    ensures d.id in Members(IdsOf(front + [d] + rest))
  {
    hide IdsOf;
    var a, b := IdsOf(front), IdsOf(rest);
    assert IdsOf(front + [d] + rest) == a + [d.id] + b && IdsOf(front + rest) == a + b;
    DistinctAppend(a + [d.id], b);
    DistinctAppend(a, [d.id]);
    DistinctAppend(a, b);
    assert forall x | x in a :: x in a + [d.id];
    assert d.id in [d.id] && d.id in a + [d.id];
    forall x ensures x in a + b <==> x in a + [d.id] + b && x != d.id {}
  }

  lemma RemovalAllowed(p: Page, id: nat)
    requires Truthful(p) && id in p.live && id < p.next
    ensures Allowed(p.log, Removed(id))
  {
    hide SafeLog;
  }

  lemma RemovalTruthful(p: Page, q: Page, id: nat)
    requires Truthful(p) && id in p.live && (forall i | i in p.live :: i < p.next)
    requires q == p.(disposers := q.disposers, live := p.live - {id}, log := p.log + [Removed(id)])
    ensures Truthful(q)
  {
    RemovalAllowed(p, id);
    SafeLogAppend(p.log, Removed(id));
    RemovalListeners(p.log, p.next, p.live, id);
    hide SafeLog, Allowed, ListenersTruthful;
    assert FlagsTruthful(q.log, q.rendered, q.destroyed);
  }

  lemma RemovalListeners(log: seq<Effect>, next: nat, live: set<nat>, id: nat)
    requires ListenersTruthful(log, next, live) && id in live && id < next
    ensures ListenersTruthful(log + [Removed(id)], next, live - {id})
  {
    forall i: nat ensures Added(i) in log + [Removed(id)] <==> Added(i) in log {}
    forall i: nat ensures Removed(i) in log + [Removed(id)] <==> Removed(i) in log || i == id {}
  }

  lemma RemovalMatched(p: Page, q: Page, i: nat)
    requires Matched(p) && i < |p.disposers| && q == DisposedAt(p, i)
    ensures Matched(q) && p.disposers[i].id in p.live
  {
    var front, d, rest := p.disposers[..i], p.disposers[i], p.disposers[i + 1..];
    assert p.disposers == front + [d] + rest;
    SplitIds(front, d, rest);
    hide Distinct, Members, IdsOf;
  }

  lemma RemovalGrows(p: Page, i: nat)
    requires Inv(p) && i < |p.disposers| && Matched(DisposedAt(p, i)) && Truthful(DisposedAt(p, i))
    ensures Grows(p, DisposedAt(p, i))
  {
    hide Matched, Truthful, Acyclic;
  }

  lemma GrowsAlone(p: Page)
    requires Inv(p)
    ensures Grows(p, p)
  {
  }

  /** A disposal of one known listener keeps the invariant. */
  lemma DisposedKeeps(p: Page, id: nat)
    requires Inv(p)
    ensures Grows(p, Disposed(p, id))
  {
    hide Matched, Truthful, Acyclic, Grows, IndexOfId;
    var i := IndexOfId(p.disposers, id);
    if i >= 0 {
      RemovalMatched(p, DisposedAt(p, i), i);
      LiveBelow(p);
      RemovalTruthful(p, DisposedAt(p, i), id);
      RemovalGrows(p, i);
    } else {
      GrowsAlone(p);
    }
  }

  lemma LiveBelow(p: Page)
    requires Matched(p)
    ensures forall i | i in p.live :: i < p.next
  {
  }

  lemma {:induction false} SweptKeeps(p: Page, previous: seq<nat>, next: seq<nat>, k: nat)
    requires Inv(p) && k <= |p.disposers|
    ensures Grows(p, Swept(p, previous, next, k))
    decreases |p.disposers| - k
  {
    if k == |p.disposers| {
      assert p.disposers[k..] == [] && p.disposers[..k] == p.disposers;
      assert p.log + Removals([]) == p.log;
      assert p.live - Members([]) == p.live;
      assert p.disposers[..k] + [] == p.disposers;
      assert Swept(p, previous, next, k) == p;
    } else {
      SweptKeeps(p, previous, next, k + 1);
      SweptStep(p, previous, next, k);
      if Dropped(p.tree, previous, next, p.disposers[k]) {
        DisposedKeeps(Swept(p, previous, next, k + 1), p.disposers[k].id);
      }
    }
  }

  lemma DrainedNone(p: Page)
    ensures DrainedTo(p, |p.disposers|) == p
  {
    var k := |p.disposers|;
    assert p.disposers[k..] == [] && p.disposers[..k] == p.disposers;
    assert IdsOf([]) == [] && Backwards([]) == [] && Members([]) == {};
    assert p.log + Removals([]) == p.log;
  }

  lemma {:induction false} DrainedToKeeps(p: Page, k: nat)
    requires Inv(p) && k <= |p.disposers|
    ensures Grows(p, DrainedTo(p, k))
    decreases |p.disposers| - k
  {
    hide Inv, Grows, DrainedTo;
    if k == |p.disposers| {
      DrainedNone(p);
      GrowsAlone(p);
    } else {
      DrainedToKeeps(p, k + 1);
      NamedApart(p);
      DrainedStep(p, k + 1);
      GrowsKeeps(p, DrainedTo(p, k + 1));
      DisposedKeeps(DrainedTo(p, k + 1), p.disposers[k].id);
      GrowsThen(p, DrainedTo(p, k + 1), DrainedTo(p, k));
    }
  }

  lemma NamedApart(p: Page)
    requires Inv(p)
    ensures Distinct(IdsOf(p.disposers))
  {
  }

  lemma GrowsKeeps(p: Page, q: Page)
    requires Grows(p, q)
    ensures Inv(q)
  {
  }

  lemma DrainedKeeps(p: Page)
    requires Inv(p) && p.destroyed
    ensures Grows(p, Drained(p)) && Clean(Drained(p))
  {
    var q := p.(engine := {});
    DrainedToKeeps(q, 0);
    DrainedAll(q);
    assert Drained(q) == Drained(p);
  }

  lemma LoggedKeeps(p: Page, e: Effect)
    requires Inv(p) && Allowed(p.log, e)
    requires e.Flushed? || e.UpdateHook? || (e.RenderHook? && p.rendered) || (e.DestroyHook? && p.destroyed)
    ensures Grows(p, Logged(p, e))
  {
    SafeLogAppend(p.log, e);
  }

  lemma FlushKeeps(p: Page)
    requires Inv(p)
    ensures Grows(p, FlushedUnlessDestroyed(p))
  {
    if !p.destroyed { LoggedKeeps(p, Flushed); }
  }

  lemma GrowsThen(p: Page, q: Page, r: Page)
    requires Grows(p, q) && Grows(q, r)
    ensures Grows(p, r)
  {
  }

  /** Every action of a hook keeps the invariant, whatever is nested in it. */
  lemma {:induction false} ActKeeps(p: Page, a: Action)
    requires Inv(p) && AcyclicAction(a)
    ensures Grows(p, Act(p, a).0)
    decreases a, 2
  {
    match a
    case On(node) => if !p.destroyed { TrackedKeeps(p, Some(node)); }
    case Listen => if !p.destroyed { TrackedKeeps(p, None); }
    case Unsubscribe(id) => DisposedKeeps(p, id);
    case ReplaceChildren(parent, children, after) => SweptKeeps(p, Kids(p.tree, parent), children, 0);
    case Mutate(_) =>
    case Flush => FlushKeeps(p);
    case Emit(deliveries) => if !p.destroyed { DeliverKeeps(p, deliveries); }
    case Signal(event) => HandleKeeps(p, event);
    case Attempt(body) => PerformKeeps(p, body);
    case Throw =>
  }

  lemma {:induction false} PerformKeeps(p: Page, body: seq<Action>)
    requires Inv(p) && AcyclicBody(body)
    ensures Grows(p, Perform(p, body).0)
    decreases body, 1
  {
    if body != [] {
      ActKeeps(p, body[0]);
      var (q, thrown) := Act(p, body[0]);
      if !thrown {
        PerformKeeps(q, body[1..]);
        GrowsThen(p, q, Perform(q, body[1..]).0);
      }
    }
  }

  lemma {:induction false} DeliverKeeps(p: Page, events: seq<Event>)
    requires Inv(p) && forall e | e in events :: AcyclicBody(e.body)
    ensures Grows(p, Deliver(p, events).0)
    decreases events, 1
  {
    if events != [] {
      HandleKeeps(p, events[0]);
      var (q, thrown) := Handle(p, events[0]);
      if !thrown {
        DeliverKeeps(q, events[1..]);
        GrowsThen(p, q, Deliver(q, events[1..]).0);
      }
    }
  }

  lemma {:induction false} HandleKeeps(p: Page, e: Event)
    requires Inv(p) && AcyclicBody(e.body)
    ensures Grows(p, Handle(p, e).0)
    ensures e.Destroy? && !p.destroyed ==> Clean(Handle(p, e).0) && Handle(p, e).0.destroyed
    decreases e, 2
  {
    hide Inv, Clean;
    match e
    case Render(body) =>
      if !p.rendered && !p.destroyed {
        StartedKeeps(p);
        if p.hooks.render { HookKeeps(Started(p), RenderHook, body); }
      }
    case Update(body) =>
      if p.rendered && !p.destroyed {
        if p.hooks.update { HookKeeps(p, UpdateHook, body); }
        FlushKeeps(if p.hooks.update then Perform(Logged(p, UpdateHook), body).0 else p);
      }
    case Destroy(body) =>
      if !p.destroyed {
        var d := Logged(p.(destroyed := true), Destroyed);
        DoomedKeeps(p);
        if p.hooks.destroy { HookKeeps(d, DestroyHook, body); }
        DrainedKeeps(if p.hooks.destroy then Perform(Logged(d, DestroyHook), body).0 else d);
      }
    case NodeEvent(body) =>
      if !p.destroyed {
        PerformKeeps(p, body);
        FlushKeeps(Perform(p, body).0);
      }
    case AppEvent(body) =>
      if p.rendered && !p.destroyed {
        PerformKeeps(p, body);
        FlushKeeps(Perform(p, body).0);
      }
  }

  lemma StartedKeeps(p: Page)
    requires Inv(p) && !p.rendered && !p.destroyed
    ensures Grows(p, Started(p)) && RenderHook !in Started(p).log
  {
    SafeLogAppend(p.log, PageCreated);
  }

  lemma DoomedKeeps(p: Page)
    requires Inv(p) && !p.destroyed
    ensures var d := Logged(p.(destroyed := true), Destroyed);
            Inv(d) && p.log <= d.log && DestroyHook !in d.log
  {
    SafeLogAppend(p.log, Destroyed);
  }

  /** A hook that is entered and run. */
  lemma {:induction false} HookKeeps(p: Page, hook: Effect, body: seq<Action>)
    requires Inv(p) && AcyclicBody(body)
    requires (hook.UpdateHook? && p.rendered && !p.destroyed)
          || (hook.RenderHook? && p.rendered && !p.destroyed && hook !in p.log)
          || (hook.DestroyHook? && p.destroyed && hook !in p.log)
    ensures Grows(p, Perform(Logged(p, hook), body).0)
    decreases body, 2
  {
    LoggedKeeps(p, hook);
    PerformKeeps(Logged(p, hook), body);
    GrowsThen(p, Logged(p, hook), Perform(Logged(p, hook), body).0);
  }

  lemma {:induction false} RunKeeps(p: Page, events: seq<Event>)
    requires Inv(p) && forall e | e in events :: AcyclicBody(e.body)
    ensures Grows(p, Run(p, events))
    decreases events
  {
    if events != [] {
      HandleKeeps(p, events[0]);
      RunKeeps(Handle(p, events[0]).0, events[1..]);
    }
  }

  lemma InitialInv(hooks: Hooks)
    ensures Inv(Initial(hooks)) && Clean(Initial(hooks))
  {
    assert Ranked(map[], n => 0);
  }

  // ----- The main results -----

  /** In every state any run reaches, the invariant holds; and if the page was destroyed, nothing is left registered. */
  lemma EveryRunIsSafe(hooks: Hooks, events: seq<Event>)
    requires forall e | e in events :: AcyclicBody(e.body)
    ensures Inv(Run(Initial(hooks), events)) && Clean(Run(Initial(hooks), events))
  {
    InitialInv(hooks);
    RunKeeps(Initial(hooks), events);
  }

  /** What a safe log says, effect by effect. */
  lemma SafeLogMeaning(log: seq<Effect>)
    requires SafeLog(log)
    ensures forall i, j | 0 <= i < j < |log| :: log[i] == log[j] ==> log[i].UpdateHook? || log[i].Flushed?
    ensures forall i, j | 0 <= i < j < |log| :: log[i].Destroyed? ==>
              !log[j].Flushed? && !log[j].UpdateHook? && !log[j].RenderHook? && !log[j].PageCreated? && !log[j].Added?
    ensures forall j | 0 <= j < |log| && log[j].UpdateHook? :: PageCreated in log[..j]
    ensures forall j | 0 <= j < |log| && log[j].Removed? :: Added(log[j].id) in log[..j]
  {
    forall i, j | 0 <= i < j < |log|
      ensures log[i] == log[j] ==> log[i].UpdateHook? || log[i].Flushed?
      ensures log[i].Destroyed? ==> !Mortal(log[j])
    {
      assert Allowed(log[..j], log[j]);
      assert log[..j][i] == log[i];
    }
    forall j | 0 <= j < |log| && Needs(log[j]).Some? ensures Needs(log[j]).value in log[..j] {
      assert Allowed(log[..j], log[j]);
    }
  }

  // ----- The render hook comes first -----

  ghost predicate HookedFirst(log: seq<Effect>) {
    forall j | 0 <= j < |log| && log[j].UpdateHook? :: RenderHook in log[..j]
  }

  /** The hooks are those given until destruction, and with a render hook no update hook has run before it. */
  ghost predicate RenderFirst(p: Page, hooks: Hooks) {
    && (!p.destroyed ==> p.hooks == hooks)
    && (hooks.render && p.rendered ==> RenderHook in p.log)
    && (hooks.render ==> HookedFirst(p.log))
  }

  lemma HookedAppend(log: seq<Effect>, more: seq<Effect>)
    requires HookedFirst(log) && (RenderHook in log || forall e | e in more :: !e.UpdateHook?)
    ensures HookedFirst(log + more)
  {
    var all := log + more;
    forall j | 0 <= j < |all| && all[j].UpdateHook? ensures RenderHook in all[..j] {
      if j < |log| {
        assert all[..j] == log[..j];
      } else {
        assert all[j] == more[j - |log|] && more[j - |log|] in more;
        assert all[..j] == log + more[..j - |log|];
      }
    }
  }

  /** A step that runs neither render nor update hook. */
  lemma QuietStep(p: Page, q: Page, more: seq<Effect>, hooks: Hooks)
    requires RenderFirst(p, hooks) && q.log == p.log + more && forall e | e in more :: !e.UpdateHook?
    requires q.rendered == p.rendered && (p.destroyed ==> q.destroyed) && (!q.destroyed ==> q.hooks == p.hooks)
    ensures RenderFirst(q, hooks)
  {
    if hooks.render { HookedAppend(p.log, more); }
    hide HookedFirst;
    assert RenderHook in p.log ==> RenderHook in q.log;
  }

  lemma DisposedQuiet(p: Page, id: nat, hooks: Hooks)
    requires RenderFirst(p, hooks)
    ensures RenderFirst(Disposed(p, id), hooks)
  {
    hide RenderFirst;
    if IndexOfId(p.disposers, id) >= 0 {
      QuietStep(p, Disposed(p, id), [Removed(p.disposers[IndexOfId(p.disposers, id)].id)], hooks);
    }
  }

  lemma FlushQuiet(p: Page, hooks: Hooks)
    requires RenderFirst(p, hooks)
    ensures RenderFirst(FlushedUnlessDestroyed(p), hooks)
  {
    hide RenderFirst;
    if !p.destroyed { QuietStep(p, FlushedUnlessDestroyed(p), [Flushed], hooks); }
  }

  lemma StartedWithHook(p: Page, hooks: Hooks)
    requires RenderFirst(p, hooks) && !p.destroyed
    ensures RenderFirst(if hooks.render then Logged(Started(p), RenderHook) else Started(p), hooks)
  {
    if hooks.render {
      HookedAppend(p.log, [PageCreated, RenderHook]);
      assert p.log + [PageCreated] + [RenderHook] == p.log + [PageCreated, RenderHook];
    }
  }

  lemma UpdateLogged(p: Page, hooks: Hooks)
    requires RenderFirst(p, hooks) && p.rendered
    ensures RenderFirst(Logged(p, UpdateHook), hooks)
  {
    if hooks.render { HookedAppend(p.log, [UpdateHook]); }
  }

  lemma {:induction false} ActRendersFirst(p: Page, a: Action, hooks: Hooks)
    requires RenderFirst(p, hooks)
    ensures RenderFirst(Act(p, a).0, hooks) && (p.destroyed ==> Act(p, a).0.destroyed)
    decreases a, 2
  {
    hide RenderFirst;
    match a
    case On(node) => if !p.destroyed { QuietStep(p, Tracked(p, Some(node)), [Added(p.next)], hooks); }
    case Listen => if !p.destroyed { QuietStep(p, Tracked(p, None), [Added(p.next)], hooks); }
    case Unsubscribe(id) => DisposedQuiet(p, id, hooks);
    case ReplaceChildren(parent, children, after) =>
      var ids := DroppedIds(p.tree, Kids(p.tree, parent), children, p.disposers[0..]);
      QuietStep(p, Act(p, a).0, Removals(ids), hooks);
    case Mutate(after) =>
      assert p.log + [] == p.log;
      QuietStep(p, p.(tree := after), [], hooks);
    case Flush => FlushQuiet(p, hooks);
    case Emit(deliveries) => if !p.destroyed { DeliverRendersFirst(p, deliveries, hooks); }
    case Signal(event) => HandleRendersFirst(p, event, hooks);
    case Attempt(body) => PerformRendersFirst(p, body, hooks);
    case Throw =>
  }

  lemma {:induction false} PerformRendersFirst(p: Page, body: seq<Action>, hooks: Hooks)
    requires RenderFirst(p, hooks)
    ensures RenderFirst(Perform(p, body).0, hooks) && (p.destroyed ==> Perform(p, body).0.destroyed)
    decreases body, 1
  {
    hide RenderFirst;
    if body != [] {
      ActRendersFirst(p, body[0], hooks);
      var (q, thrown) := Act(p, body[0]);
      if !thrown { PerformRendersFirst(q, body[1..], hooks); }
    }
  }

  lemma {:induction false} DeliverRendersFirst(p: Page, events: seq<Event>, hooks: Hooks)
    requires RenderFirst(p, hooks)
    ensures RenderFirst(Deliver(p, events).0, hooks) && (p.destroyed ==> Deliver(p, events).0.destroyed)
    decreases events, 1
  {
    hide RenderFirst;
    if events != [] {
      HandleRendersFirst(p, events[0], hooks);
      var (q, thrown) := Handle(p, events[0]);
      if !thrown { DeliverRendersFirst(q, events[1..], hooks); }
    }
  }

  lemma {:induction false} HandleRendersFirst(p: Page, e: Event, hooks: Hooks)
    requires RenderFirst(p, hooks)
    ensures RenderFirst(Handle(p, e).0, hooks) && (p.destroyed ==> Handle(p, e).0.destroyed)
    decreases e, 2
  {
    assert !p.destroyed ==> p.hooks == hooks;
    hide RenderFirst, Drained;
    match e
    case Render(body) =>
      if !p.rendered && !p.destroyed {
        StartedWithHook(p, hooks);
        if p.hooks.render { PerformRendersFirst(Logged(Started(p), RenderHook), body, hooks); }
      }
    case Update(body) =>
      if p.rendered && !p.destroyed {
        if p.hooks.update {
          UpdateLogged(p, hooks);
          PerformRendersFirst(Logged(p, UpdateHook), body, hooks);
        }
        FlushQuiet(if p.hooks.update then Perform(Logged(p, UpdateHook), body).0 else p, hooks);
      }
    case Destroy(body) =>
      if !p.destroyed {
        var d := Logged(p.(destroyed := true), Destroyed);
        QuietStep(p, d, [Destroyed], hooks);
        QuietStep(d, Logged(d, DestroyHook), [DestroyHook], hooks);
        PerformRendersFirst(Logged(d, DestroyHook), body, hooks);
        var q := if p.hooks.destroy then Perform(Logged(d, DestroyHook), body).0 else d;
        DrainedQuiet(q, hooks);
      }
    case NodeEvent(body) =>
      if !p.destroyed {
        PerformRendersFirst(p, body, hooks);
        FlushQuiet(Perform(p, body).0, hooks);
      }
    case AppEvent(body) =>
      if p.rendered && !p.destroyed {
        PerformRendersFirst(p, body, hooks);
        FlushQuiet(Perform(p, body).0, hooks);
      }
  }

  lemma DrainedQuiet(p: Page, hooks: Hooks)
    requires RenderFirst(p, hooks) && p.destroyed
    ensures RenderFirst(Drained(p), hooks)
  {
    hide RenderFirst;
    QuietStep(p, Drained(p), Removals(Backwards(IdsOf(p.disposers))), hooks);
  }

  lemma {:induction false} RunRendersFirst(p: Page, events: seq<Event>, hooks: Hooks)
    requires RenderFirst(p, hooks)
    ensures RenderFirst(Run(p, events), hooks)
    decreases events
  {
    hide RenderFirst;
    if events != [] {
      HandleRendersFirst(p, events[0], hooks);
      RunRendersFirst(Handle(p, events[0]).0, events[1..], hooks);
    }
  }

  /** In every run of a page with a render hook, the render hook has run before any update hook does. */
  lemma UpdatesAfterRender(hooks: Hooks, events: seq<Event>)
    requires hooks.render
    ensures HookedFirst(Run(Initial(hooks), events).log)
  {
    RunRendersFirst(Initial(hooks), events, hooks);
  }

  /** Destroying always finishes the page off, even when the hook throws, whatever the hook does. */
  lemma DestroyFinishes(p: Page, body: seq<Action>)
    requires Inv(p) && !p.destroyed && AcyclicBody(body)
    ensures var q := Handle(p, Destroy(body)).0;
            && q.destroyed && q.engine == {} && q.disposers == [] && q.live == {}
            && forall id: nat | id < q.next :: Removed(id) in q.log
  {
    HandleKeeps(p, Destroy(body));
  }

  /** Positions in `s` of the elements of `r`, in order. */
  ghost predicate Embeds(f: seq<nat>, r: seq<Disposer>, s: seq<Disposer>) {
    && |f| == |r|
    && (forall i | 0 <= i < |f| :: f[i] < |s| && s[f[i]] == r[i])
    && (forall i, j | 0 <= i < j < |f| :: f[i] < f[j])
  }

  lemma EmbedsCons(g: seq<nat>, kept: seq<Disposer>, d: Disposer, ds: seq<Disposer>) returns (shifted: seq<nat>)
    requires Embeds(g, kept, ds)
    ensures Embeds(shifted, kept, [d] + ds)
    ensures Embeds([0] + shifted, [d] + kept, [d] + ds)
  {
    shifted := seq(|g|, i requires 0 <= i < |g| => g[i] + 1);
    var all, dds, dkept := [0] + shifted, [d] + ds, [d] + kept;
    forall i | 0 <= i < |g| ensures shifted[i] < |dds| && dds[shifted[i]] == kept[i] {
      assert ds[g[i]] == kept[i] && dds[g[i] + 1] == ds[g[i]];
    }
    forall i | 0 < i <= |g| ensures all[i] == shifted[i - 1] && dkept[i] == kept[i - 1] {}
  }

  lemma {:induction false} KeptInOrder(tree: Tree, previous: seq<nat>, next: seq<nat>, ds: seq<Disposer>)
    returns (f: seq<nat>)
    ensures Embeds(f, Kept(tree, previous, next, ds), ds)
  {
    if ds == [] {
      f := [];
    } else {
      var kept := Kept(tree, previous, next, ds[1..]);
      var g := KeptInOrder(tree, previous, next, ds[1..]);
      var shifted := EmbedsCons(g, kept, ds[0], ds[1..]);
      assert ds == [ds[0]] + ds[1..] && [] + kept == kept;
      f := if Dropped(tree, previous, next, ds[0]) then shifted else [0] + shifted;
    }
  }

  lemma {:induction false} KeptIsFilter(tree: Tree, previous: seq<nat>, next: seq<nat>, ds: seq<Disposer>, d: Disposer)
    ensures d in Kept(tree, previous, next, ds) <==> d in ds && !Dropped(tree, previous, next, d)
  {
    if ds != [] {
      KeptIsFilter(tree, previous, next, ds[1..], d);
      assert ds == [ds[0]] + ds[1..];
    }
  }

  lemma {:induction false} DroppedIdsExact(tree: Tree, previous: seq<nat>, next: seq<nat>, ds: seq<Disposer>, id: nat)
    ensures id in DroppedIds(tree, previous, next, ds)
       <==> exists d | d in ds :: d.id == id && Dropped(tree, previous, next, d)
  {
    if ds != [] {
      DroppedIdsExact(tree, previous, next, ds[1..], id);
      assert ds == [ds[0]] + ds[1..];
    }
  }

  /**
   * Replacing children takes away exactly the listeners on elements that were below the parent and are not below
   * the new children, keeps all others in their order, and removes each of the former from the platform once.
   */
  lemma ReplaceChildrenExact(p: Page, parent: nat, children: seq<nat>, after: Tree) returns (f: seq<nat>)
    requires Inv(p) && Acyclic(after)
    ensures var q := Act(p, ReplaceChildren(parent, children, after)).0;
            var previous := Kids(p.tree, parent);
            && Inv(q)
            && Embeds(f, q.disposers, p.disposers)
            && (forall d :: d in q.disposers <==> d in p.disposers && !Dropped(p.tree, previous, children, d))
            && (forall d | d in p.disposers ::
                  Dropped(p.tree, previous, children, d) <==> Removed(d.id) in q.log[|p.log|..])
            && q.live == Members(IdsOf(q.disposers))
  {
    var previous := Kids(p.tree, parent);
    var a := Action.ReplaceChildren(parent, children, after);
    var q := Act(p, a).0;
    assert p.disposers[0..] == p.disposers && p.disposers[..0] == [];
    f := KeptInOrder(p.tree, previous, children, p.disposers);
    assert q.disposers == Kept(p.tree, previous, children, p.disposers);
    forall d ensures d in q.disposers <==> d in p.disposers && !Dropped(p.tree, previous, children, d) {
      KeptIsFilter(p.tree, previous, children, p.disposers, d);
    }
    ActKeeps(p, a);
    var ids := DroppedIds(p.tree, previous, children, p.disposers);
    assert q.log[|p.log|..] == Removals(ids);
    forall d | d in p.disposers
      ensures Dropped(p.tree, previous, children, d) <==> Removed(d.id) in Removals(ids)
    {
      DroppedIdsExact(p.tree, previous, children, p.disposers, d.id);
      RemovalsExact(ids, d.id);
      forall e | e in p.disposers && e.id == d.id ensures e == d { SameIdSame(p.disposers, d, e); }
    }
  }

  lemma RemovalsExact(ids: seq<nat>, id: nat)
    ensures Removed(id) in Removals(ids) <==> id in ids
  {
    if id in ids {
      var i :| 0 <= i < |ids| && ids[i] == id;
      assert Removals(ids)[i] == Removed(id);
    }
  }

  lemma SameIdSame(ds: seq<Disposer>, d: Disposer, e: Disposer)
    requires Distinct(IdsOf(ds)) && d in ds && e in ds && d.id == e.id
    ensures d == e
  {
    var i :| 0 <= i < |ds| && ds[i] == d;
    var j :| 0 <= j < |ds| && ds[j] == e;
    assert IdsOf(ds)[i] == IdsOf(ds)[j];
  }

  // ----- Listeners and the tree that results -----

  /**
   * The tree behind the replacement: the parent has the new children, and every other element keeps its own, except
   * that it may have lost some of the new children to the parent.
   */
  ghost predicate Regrafted(tree: Tree, parent: nat, children: seq<nat>, after: Tree) {
    && Kids(after, parent) == children
    && (forall x, c | x != parent && c in Kids(after, x) :: c in Kids(tree, x))
    && (forall x, c | x != parent && c in Kids(tree, x) && c !in children :: c in Kids(after, x))
  }

  lemma BelowKids(tree: Tree, height: nat -> nat, n: nat, c: nat)
    requires Ranked(tree, height) && c in Kids(tree, n)
    ensures height(c) < height(n)
  {
  }

  /** A walk below the new children never comes to the parent, so it was a walk before. */
  lemma {:induction false} WalkBefore(tree: Tree, parent: nat, children: seq<nat>, after: Tree, height: nat -> nat,
                                      path: seq<nat>, k: nat)
    requires Regrafted(tree, parent, children, after) && Ranked(after, height)
    requires k < |path| && path[0] in children && forall i | 0 < i < |path| :: path[i] in Kids(after, path[i - 1])
    ensures height(path[k]) < height(parent) && (k > 0 ==> path[k] in Kids(tree, path[k - 1]))
  {
    if k == 0 {
      BelowKids(after, height, parent, path[0]);
    } else {
      WalkBefore(tree, parent, children, after, height, path, k - 1);
      assert path[k - 1] != parent && path[k] in Kids(after, path[k - 1]);
      BelowKids(after, height, path[k - 1], path[k]);
    }
  }

  /** A former walk from a new child that meets no other one is still there. */
  lemma {:induction false} WalkAfter(tree: Tree, parent: nat, children: seq<nat>, after: Tree, height: nat -> nat,
                                     path: seq<nat>, k: nat)
    requires Regrafted(tree, parent, children, after) && Ranked(after, height)
    requires k < |path| && path[0] in children && forall i | 0 < i < |path| :: path[i] in Kids(tree, path[i - 1])
    requires forall i | 0 < i < |path| :: path[i] !in children
    ensures height(path[k]) < height(parent) && (k > 0 ==> path[k] in Kids(after, path[k - 1]))
  {
    if k == 0 {
      BelowKids(after, height, parent, path[0]);
    } else {
      WalkAfter(tree, parent, children, after, height, path, k - 1);
      assert path[k] in Kids(after, path[k - 1]);
      BelowKids(after, height, path[k - 1], path[k]);
    }
  }

  lemma {:induction false} WalkKept(tree: Tree, parent: nat, children: seq<nat>, after: Tree, path: seq<nat>,
                                    target: nat)
    requires Regrafted(tree, parent, children, after) && Acyclic(after) && Walk(tree, children, path, target)
    ensures Reaches(after, children, target)
    decreases |path|
  {
    if i :| 0 < i < |path| && path[i] in children {
      var rest := path[i..];
      forall j | 0 < j < |rest| ensures rest[j] in Kids(tree, rest[j - 1]) { assert rest[j] == path[i + j]; }
      WalkKept(tree, parent, children, after, rest, target);
    } else {
      var height: nat -> nat :| Ranked(after, height);
      forall k | 0 < k < |path| ensures path[k] in Kids(after, path[k - 1]) {
        WalkAfter(tree, parent, children, after, height, path, k);
      }
      assert Walk(after, children, path, target);
    }
  }

  /** The new children lead to the same elements before and after. */
  lemma SameBelow(tree: Tree, parent: nat, children: seq<nat>, after: Tree, target: nat)
    requires Regrafted(tree, parent, children, after) && Acyclic(after)
    ensures Reaches(after, children, target) <==> Reaches(tree, children, target)
  {
    if Reaches(tree, children, target) {
      var path :| Walk(tree, children, path, target);
      WalkKept(tree, parent, children, after, path, target);
    }
    if Reaches(after, children, target) {
      var path :| Walk(after, children, path, target);
      var height: nat -> nat :| Ranked(after, height);
      forall k | 0 < k < |path| ensures path[k] in Kids(tree, path[k - 1]) {
        WalkBefore(tree, parent, children, after, height, path, k);
      }
      assert Walk(tree, children, path, target);
    }
  }

  /** Of the listeners on elements that were below the parent, exactly those stay whose element still is below it. */
  lemma ListenersFollowTree(p: Page, parent: nat, children: seq<nat>, after: Tree)
    requires Inv(p) && Acyclic(after) && Regrafted(p.tree, parent, children, after)
    ensures var q := Act(p, ReplaceChildren(parent, children, after)).0;
            && q.tree == after
            && forall d | d in p.disposers && d.node.Some? && Reaches(p.tree, Kids(p.tree, parent), d.node.value) ::
                 d in q.disposers <==> Reaches(q.tree, Kids(q.tree, parent), d.node.value)
  {
    var f := ReplaceChildrenExact(p, parent, children, after);
    var q := Act(p, ReplaceChildren(parent, children, after)).0;
    assert q.tree == after;
    hide Act, Inv, Walk, Acyclic, Regrafted;
    forall d | d in p.disposers && d.node.Some? && Reaches(p.tree, Kids(p.tree, parent), d.node.value)
      ensures d in q.disposers <==> Reaches(after, children, d.node.value)
    {
      SameBelow(p.tree, parent, children, after, d.node.value);
    }
    KidsAfter(p.tree, parent, children, after);
  }

  lemma KidsAfter(tree: Tree, parent: nat, children: seq<nat>, after: Tree)
    requires Regrafted(tree, parent, children, after)
    ensures Kids(after, parent) == children
  {
  }
}
