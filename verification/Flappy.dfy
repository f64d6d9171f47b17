/** The physics loop over the reals: gravity, stacked impulses, and a timer that is pending exactly in the air. */
module Flappy {

  datatype Options = Options(gravity: real, jumpForce: real, stackFactor: real)

  predicate Sane(o: Options) {
    o.gravity > 0.0 && o.jumpForce <= 0.0 && o.stackFactor >= 0.0
  }

  datatype State = State(y: real, velocity: real, timer: bool)

  const GROUND := State(0.0, 0.0, false)

  function Frame(s: State, o: Options): State {
    var velocity := s.velocity + o.gravity;
    var y := s.y + velocity;
    if y >= 0.0 then GROUND else State(y, velocity, true)
  }

  function Max(a: real, b: real): real {
    if a >= b then a else b
  }

  /** What one tap adds. */
  function Impulse(o: Options): real {
    o.jumpForce * o.stackFactor
  }

  function Tapped(s: State, o: Options): State {
    var pushed := s.(velocity := Max(s.velocity + Impulse(o), o.jumpForce));
    if s.timer then pushed else Frame(pushed, o)
  }

  class Engine {
    const options: Options
    var y: real
    var velocity: real
    var timer: bool
    var updates: seq<real>

    ghost function Abstract(): State
      reads this
    {
      State(y, velocity, timer)
    }

    constructor (options: Options)
      ensures this.options == options && Abstract() == GROUND && updates == []
    {
      this.options := options;
      y, velocity, timer, updates := 0.0, 0.0, false, [];
    }

    /** The timer's callback; `updates` is what was reported to `onUpdate`. */
    method Loop()
      modifies this
      ensures Abstract() == Frame(old(Abstract()), options)
      ensures updates == old(updates) + [y]
    {
      velocity := velocity + options.gravity;
      y := y + velocity;
      if y >= 0.0 {
        y := 0.0;
        velocity := 0.0;
        timer := false;
        updates := updates + [y];
        return;
      }
      updates := updates + [y];
      timer := true;
    }

    method Jump()
      modifies this
      ensures Abstract() == Tapped(old(Abstract()), options)
      ensures updates == old(updates) + (if old(timer) then [] else [y])
    {
      velocity := Max(velocity + options.jumpForce * options.stackFactor, options.jumpForce);
      if !timer { Loop(); }
    }

    method Destroy()
      modifies this
      ensures Abstract() == old(Abstract()).(timer := false)
      ensures updates == old(updates)
    {
      if timer { timer := false; }
    }
  }

  // ----- Every reachable state -----

  /** A tap, the pending callback coming due, or the end. */
  datatype Event = Tap | Tick | Destroy

  function After(s: State, e: Event, o: Options): State {
    match e
    case Tap => Tapped(s, o)
    case Tick => if s.timer then Frame(s, o) else s
    case Destroy => s.(timer := false)
  }

  function Run(s: State, events: seq<Event>, o: Options): State
    decreases events
  {
    if events == [] then s else Run(After(s, events[0], o), events[1..], o)
  }

  /** On the ground at rest with no timer, or in the air with one; never faster upwards than one full impulse. */
  predicate Sound(s: State, o: Options) {
    s.y <= 0.0 && s.velocity >= o.jumpForce && (s.timer <==> s.y < 0.0)
  }

  /** A timer is pending in the air only, and never on the ground. */
  predicate Weak(s: State, o: Options) {
    s.y <= 0.0 && s.velocity >= o.jumpForce && (s.timer ==> s.y < 0.0)
  }

  lemma {:induction false} EveryRun(s: State, events: seq<Event>, o: Options)
    requires Sane(o) && Weak(s, o)
    ensures Weak(Run(s, events, o), o)
    ensures Sound(s, o) && Destroy !in events ==> Sound(Run(s, events, o), o)
    decreases events
  {
    if events != [] {
      assert events[0] in events;
      EveryRun(After(s, events[0], o), events[1..], o);
    }
  }

  // ----- Rapid taps -----

  function Taps(s: State, n: nat, o: Options): State {
    if n == 0 then s else After(Taps(s, n - 1, o), Tap, o)
  }

  /** One more push on a clamped sum of pushes. */
  lemma PushOnce(v: real, sum: real, push: real, force: real)
    requires push <= 0.0
    ensures Max(Max(v + sum, force) + push, force) == Max(v + (sum + push), force)
  {
  }

  function Times(n: nat, r: real): real {
    n as real * r
  }

  lemma TimesNext(n: nat, r: real)
    ensures Times(0, r) == 0.0 && (n > 0 ==> Times(n, r) == Times(n - 1, r) + r)
  {
    if n > 0 {
      var x := (n - 1) as real;
      assert n as real == x + 1.0;
    }
  }

  lemma ImpulseIsUpwards(o: Options)
    requires Sane(o)
    ensures Impulse(o) <= 0.0
  {
  }

  /** Taps between two frames stack up to one full impulse, and move nothing. */
  lemma {:induction false} TapsStack(s: State, n: nat, o: Options)
    requires Sane(o) && s.timer && s.velocity >= o.jumpForce
    ensures Taps(s, n, o) == s.(velocity := Max(s.velocity + Times(n, Impulse(o)), o.jumpForce))
  {
    hide Impulse, Times;
    TimesNext(n, Impulse(o));
    if n > 0 {
      TapsStack(s, n - 1, o);
      ImpulseIsUpwards(o);
      PushOnce(s.velocity, Times(n - 1, Impulse(o)), Impulse(o), o.jumpForce);
    }
  }

  // ----- Uninterrupted flight -----

  function Frames(s: State, n: nat, o: Options): State {
    if n == 0 then s else After(Frames(s, n - 1, o), Tick, o)
  }

  /** Where `n` frames lead when the ground does not get in the way. */
  function Height(s: State, n: nat, o: Options): real {
    s.y + n as real * s.velocity + o.gravity * (n as real * (n as real + 1.0)) / 2.0
  }

  lemma HeightStep(s: State, n: nat, o: Options)
    ensures Height(s, n + 1, o) == Height(s, n, o) + (s.velocity + (n as real + 1.0) * o.gravity)
  {
    var x := n as real;
    assert (n + 1) as real == x + 1.0;
    assert (x + 1.0) * (x + 2.0) == x * (x + 1.0) + 2.0 * (x + 1.0);
    assert o.gravity * ((x + 1.0) * (x + 2.0)) == o.gravity * (x * (x + 1.0)) + o.gravity * (2.0 * (x + 1.0));
    assert (x + 1.0) * s.velocity == x * s.velocity + s.velocity;
  }

  /** Until the first landing the frames follow the parabola; at the landing everything is at rest. */
  lemma {:induction false} FlightExact(s: State, n: nat, o: Options)
    requires Sane(o) && s.timer && forall k: nat | 0 < k < n :: Height(s, k, o) < 0.0
    ensures Frames(s, n, o)
         == if n == 0 || Height(s, n, o) < 0.0
            then State(Height(s, n, o), s.velocity + n as real * o.gravity, true) else GROUND
  {
    if n > 0 {
      FlightExact(s, n - 1, o);
      HeightStep(s, n - 1, o);
      assert n as real * o.gravity == (n - 1) as real * o.gravity + o.gravity;
    }
  }

  lemma {:induction false} Landed(s: State, n: nat, m: nat, o: Options)
    requires Frames(s, n, o) == GROUND && n <= m
    ensures Frames(s, m, o) == GROUND
  {
    if n < m { Landed(s, n, m - 1, o); }
  }

  /** The first frame whose parabola reaches the ground, if there is one up to `n`. */
  lemma {:induction false} FirstLanding(s: State, n: nat, o: Options) returns (k: nat)
    ensures k <= n && forall i: nat | 0 < i < k :: Height(s, i, o) < 0.0
    ensures k == n || (k > 0 && Height(s, k, o) >= 0.0)
  {
    if n == 0 {
      k := 0;
    } else {
      k := FirstLanding(s, n - 1, o);
      if k == n - 1 && (k == 0 || Height(s, k, o) < 0.0) { k := n; }
    }
  }

  lemma Square(x: real)
    ensures x * x >= 0.0
  {
  }

  /** The parabola stays within `v * v / (2 * g)` above its start. */
  lemma ParabolaBound(s: State, n: nat, o: Options)
    requires Sane(o)
    ensures Height(s, n, o) >= s.y - s.velocity * s.velocity / (2.0 * o.gravity)
  {
    var x, v, g := n as real, s.velocity, o.gravity;
    var q := v / g;
    assert q * g == v;
    Square(x + q);
    assert (x + q) * (x + q) == x * x + 2.0 * (x * q) + q * q;
    assert g * ((x + q) * (x + q)) >= 0.0;
    assert g * (x * q) == x * v by { assert g * (x * q) == x * (q * g); }
    assert g * (q * q) == q * v by { assert g * (q * q) == q * (q * g); }
    assert g * (x * x + 2.0 * (x * q) + q * q) == g * (x * x) + 2.0 * (x * v) + q * v;
    assert g * (x * (x + 1.0)) == g * (x * x) + g * x;
    assert g * x >= 0.0;
    assert v * v / (2.0 * g) == q * v / 2.0 by {
      assert q * v / 2.0 * (2.0 * g) == v * v by { assert q * v * g == v * (q * g); }
    }
  }

  /** No uninterrupted flight rises by more than `v * v / (2 * g)`. */
  lemma HeightBound(s: State, n: nat, o: Options)
    requires Sane(o) && Sound(s, o)
    ensures Frames(s, n, o).y >= s.y - s.velocity * s.velocity / (2.0 * o.gravity)
  {
    var k := FirstLanding(s, n, o);
    ParabolaBound(s, n, o);
    Square(s.velocity);
    BoundNotNegative(s.velocity, o.gravity);
    if s.timer {
      FlightExact(s, k, o);
      if k > 0 && Height(s, k, o) >= 0.0 { Landed(s, k, n, o); }
    } else {
      Grounded(s, n, o);
    }
  }

  lemma BoundNotNegative(v: real, g: real)
    requires g > 0.0
    ensures v * v / (2.0 * g) >= 0.0
  {
    Square(v);
  }

  lemma {:induction false} Grounded(s: State, n: nat, o: Options)
    requires !s.timer
    ensures Frames(s, n, o) == s
  {
    if n > 0 { Grounded(s, n - 1, o); }
  }

  /** A number of frames after which any flight is over. */
  function Enough(s: State, o: Options): nat
    requires Sane(o)
  {
    var bound := 2.0 * (0.0 - s.y - s.velocity) / o.gravity;
    if bound < 1.0 then 1 else bound.Floor + 1
  }

  lemma BoundReached(x: real, drop: real, g: real)
    requires g > 0.0 && x >= 2.0 * drop / g
    ensures x * g >= 2.0 * drop
  {
    var bound := 2.0 * drop / g;
    assert bound * g == 2.0 * drop;
    assert (x - bound) * g >= 0.0;
    assert (x - bound) * g == x * g - bound * g;
  }

  lemma AtLeastOnce(x: real, slope: real)
    requires x >= 1.0 && slope >= 0.0
    ensures x * slope >= slope
  {
    assert (x - 1.0) * slope >= 0.0;
  }

  /** The parabola as its start plus `x` times its mean slope. */
  lemma HeightBySlope(s: State, n: nat, o: Options)
    ensures var x := n as real;
            Height(s, n, o) == s.y + x * (s.velocity + (x * o.gravity + o.gravity) / 2.0)
  {
    var x, g := n as real, o.gravity;
    var area := x * g + g;
    assert area == (x + 1.0) * g;
    assert x * area == g * (x * (x + 1.0));
    assert x * (s.velocity + area / 2.0) == x * s.velocity + x * area / 2.0;
  }

  lemma EnoughFalls(s: State, o: Options)
    requires Sane(o) && s.y <= 0.0
    ensures Height(s, Enough(s, o), o) >= 0.0
  {
    var n, g := Enough(s, o), o.gravity;
    var x, drop := n as real, 0.0 - s.y - s.velocity;
    assert x >= 1.0 && x >= 2.0 * drop / g;
    BoundReached(x, drop, g);
    HeightBySlope(s, n, o);
    hide Height, Enough;
    var slope := s.velocity + (x * g + g) / 2.0;
    assert slope >= 0.0 - s.y;
    AtLeastOnce(x, slope);
    assert Height(s, n, o) == s.y + x * slope;
  }

  /** Without further taps every flight lands, at rest and with no timer pending. */
  lemma AlwaysLands(s: State, o: Options)
    requires Sane(o) && Sound(s, o) && s.timer
    ensures Frames(s, Enough(s, o), o) == GROUND
  {
    var n := Enough(s, o);
    EnoughFalls(s, o);
    var k := FirstLanding(s, n, o);
    FlightExact(s, k, o);
    Landed(s, k, n, o);
  }

  /** At rest a tap lifts off exactly when one impulse, cut to one full jump, is stronger than gravity. */
  lemma TapAtRest(o: Options)
    requires Sane(o)
    ensures var v := Max(Impulse(o), o.jumpForce) + o.gravity;
            After(GROUND, Tap, o) == if v < 0.0 then State(v, v, true) else GROUND
  {
  }

  /** Once destroyed, everything stays where it is until the next tap. */
  lemma DestroyStops(s: State, n: nat, o: Options)
    ensures Frames(After(s, Destroy, o), n, o) == s.(timer := false)
  {
    Grounded(s.(timer := false), n, o);
  }
}
