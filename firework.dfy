/**
 * A firework: a shell that rises for a fixed number of frames and then
 * detonates, exactly once, into a burst of particles: 350 at the detonation
 * point, or one per emission point of the drawing when shape mode is on.
 *
 * `Shell` and `Tick` give the firework's state and one frame of it as values;
 * the class `Firework` is the object the page updates in place, and its
 * methods are proved to follow `Detonation` and `Tick`.
 */
module Fireworks {
  import opened Raster
  import opened Sampler
  import opened Particles
  import opened Geometry

  /** Frames a shell rises before it detonates. */
  const Lifespan := 90

  /** Particles of a burst when shape mode is off. */
  const BurstSize := 350

  /**
   * What a detonation reads besides the firework itself: the page's shape-mode
   * flag, the paint canvas, and the velocity draw for the i-th new particle.
   */
  datatype DetonationInputs = DetonationInputs(hasImage: bool, paint: Paint, draws: nat -> Velocity)

  /** A firework's changing state. Its x position and colour never change. */
  datatype Shell = Shell(y: real, vy: real, lifespan: int, hasExploded: bool, particles: seq<ParticleState>)

  /** Where the particles of a detonation at (x, y) start. */
  function Sites(x: real, y: real, inputs: DetonationInputs): seq<Point>
  {
    if !inputs.hasImage then seq(BurstSize, _ => Point(x, y)) else EmissionPoints(inputs.paint, x, y)
  }

  /** One fresh particle per site, the i-th with draw i. */
  function SpawnEach(sites: seq<Point>, draws: nat -> Velocity): seq<ParticleState>
  {
    seq(|sites|, i requires 0 <= i < |sites| => Spawn(sites[i], draws(i)))
  }

  /** The particles a detonation at (x, y) adds, in the order they are pushed. */
  function Burst(x: real, y: real, inputs: DetonationInputs): seq<ParticleState>
  {
    SpawnEach(Sites(x, y, inputs), inputs.draws)
  }

  /** The detonation: a no-op once `hasExploded` is set. */
  function Detonation(s: Shell, x: real, inputs: DetonationInputs): Shell
  {
    if s.hasExploded then s
    else s.(particles := s.particles + Burst(x, s.y, inputs), hasExploded := true)
  }

  function DecayAll(ps: seq<ParticleState>): seq<ParticleState>
  {
    seq(|ps|, i requires 0 <= i < |ps| => Decay(ps[i]))
  }

  /**
   * The shell's part of a frame: count the lifespan down; detonate and stop
   * when it reaches zero for the first time; otherwise rise while it is
   * positive.
   */
  function Flight(s: Shell, x: real, inputs: DetonationInputs): Shell
  {
    var t := s.(lifespan := s.lifespan - 1);
    if t.lifespan <= 0 && !t.hasExploded then Detonation(t, x, inputs).(vy := 0.0, hasExploded := true)
    else if t.lifespan > 0 then t.(y := t.y + t.vy)
    else t
  }

  /** One frame of the firework: the shell's part, then every particle updated once. */
  function Tick(s: Shell, x: real, inputs: DetonationInputs): Shell
  {
    var u := Flight(s, x, inputs);
    u.(particles := DecayAll(u.particles))
  }

  /** The removal test of the frame loop: the countdown is over and every particle has faded. */
  predicate Spent(s: Shell)
  {
    s.lifespan <= 0 && forall i :: 0 <= i < |s.particles| ==> s.particles[i].alpha <= 0
  }

  /**
   * What holds of every firework between frames: before detonation it is
   * still counting down and owns no particle; after it, it has stopped.
   */
  ghost predicate Consistent(s: Shell)
  {
    if s.hasExploded then s.vy == 0.0 && s.lifespan <= 0
    else s.lifespan >= 1 && s.particles == []
  }

  /** A new shell at height y whose upward speed comes from the draw `launch` in [0, 1). */
  function Launch(y: real, launch: real): Shell
  {
    Shell(y, launch * -6.0 - 2.0, Lifespan, false, [])
  }

  /** n frames in a row under the same inputs. */
  function Run(s: Shell, x: real, inputs: DetonationInputs, n: nat): Shell
    decreases n
  {
    if n == 0 then s else Run(Tick(s, x, inputs), x, inputs, n - 1)
  }

  // ---------------------------------------------------------------------
  // Properties of one frame

  /**
   * One frame lowers the lifespan by exactly one and keeps the firework
   * consistent; it detonates exactly on the frame where the lifespan reaches
   * zero, adding the burst and stopping the shell; before that the shell rises
   * by its velocity and owns no particle; the height changes only on frames
   * that end with a positive lifespan.
   */
  lemma TickSteps(s: Shell, x: real, inputs: DetonationInputs)
    requires Consistent(s)
    ensures var t := Tick(s, x, inputs);
      && Consistent(t)
      && t.lifespan == s.lifespan - 1
      && (t.hasExploded <==> t.lifespan <= 0)
      && (!s.hasExploded && t.hasExploded ==>
            t.particles == DecayAll(Burst(x, s.y, inputs)) && t.y == s.y && t.vy == 0.0)
      && (!t.hasExploded ==> t.particles == [] && t.y == s.y + s.vy && t.vy == s.vy)
      && (s.hasExploded ==> t.particles == DecayAll(s.particles) && t.y == s.y)
      && (t.y != s.y ==> t.lifespan > 0)
  {
  }

  /** Detonating twice adds nothing: the second call finds `hasExploded` set. */
  lemma ExplodeOnce(s: Shell, x: real, inputs: DetonationInputs)
    ensures Detonation(s, x, inputs).hasExploded
    ensures Detonation(Detonation(s, x, inputs), x, inputs) == Detonation(s, x, inputs)
    ensures s.hasExploded ==> Detonation(s, x, inputs) == s
  {
  }

  /** The i-th particle of a burst is spawned at the i-th site with the i-th draw. */
  lemma BurstAt(x: real, y: real, inputs: DetonationInputs, i: int)
    requires 0 <= i < |Burst(x, y, inputs)|
    ensures Burst(x, y, inputs)[i] == Spawn(Sites(x, y, inputs)[i], inputs.draws(i))
  {
  }

  /**
   * A burst has 350 fresh particles when shape mode is off, and otherwise one
   * fresh particle per occupied stride-2 sample of the drawing's box.
   */
  lemma BurstCount(x: real, y: real, inputs: DetonationInputs)
    ensures !inputs.hasImage ==> |Burst(x, y, inputs)| == BurstSize
    ensures inputs.hasImage ==>
      |Burst(x, y, inputs)| == |OccupiedSamples(inputs.paint, BoxOf(inputs.paint))|
    ensures forall i :: 0 <= i < |Burst(x, y, inputs)| ==> Burst(x, y, inputs)[i].alpha == FullAlpha
    ensures !inputs.hasImage ==> forall i :: 0 <= i < BurstSize ==>
      Burst(x, y, inputs)[i].x == x && Burst(x, y, inputs)[i].y == y
  {
    if inputs.hasImage {
      BoxWithinImage(inputs.paint);
      SampleCount(inputs.paint, BoxOf(inputs.paint));
    }
    forall i | 0 <= i < |Burst(x, y, inputs)|
      ensures Burst(x, y, inputs)[i].alpha == FullAlpha
      ensures !inputs.hasImage ==> Burst(x, y, inputs)[i].x == x && Burst(x, y, inputs)[i].y == y
    {
      BurstAt(x, y, inputs, i);
    }
  }

  // ---------------------------------------------------------------------
  // Properties of many frames

  /** While it rises, a shell only counts down and climbs. */
  lemma {:induction false} RunRising(s: Shell, x: real, inputs: DetonationInputs, n: nat)
    requires Consistent(s) && !s.hasExploded && n < s.lifespan
    ensures Run(s, x, inputs, n) == Shell(s.y + n as real * s.vy, s.vy, s.lifespan - n, false, [])
    decreases n
  {
    if n > 0 {
      RunRising(Tick(s, x, inputs), x, inputs, n - 1);
    }
  }

  /** After detonation only the lifespan and the particles change: each particle is updated once per frame. */
  lemma {:induction false} RunExploded(s: Shell, x: real, inputs: DetonationInputs, n: nat)
    requires Consistent(s) && s.hasExploded
    ensures var r := Run(s, x, inputs, n);
      && r.hasExploded && r.y == s.y && r.vy == 0.0 && r.lifespan == s.lifespan - n
      && |r.particles| == |s.particles|
      && forall i :: 0 <= i < |s.particles| ==> r.particles[i] == DecayN(s.particles[i], n)
    decreases n
  {
    if n > 0 {
      var t := Tick(s, x, inputs);
      RunExploded(t, x, inputs, n - 1);
    }
  }

  /** The height a launched shell has reached when it detonates: 89 frames of climbing. */
  function Summit(y0: real, launch: real): real
  {
    y0 + (Lifespan - 1) as real * Launch(y0, launch).vy
  }

  /**
   * Frame 90 of a launched firework is its detonation: after it the shell
   * stands at its summit, stopped, with its whole burst updated once.
   */
  lemma DetonationFrame(y0: real, launch: real, x: real, inputs: DetonationInputs)
    ensures Run(Launch(y0, launch), x, inputs, Lifespan) ==
      Shell(Summit(y0, launch), 0.0, 0, true, DecayAll(Burst(x, Summit(y0, launch), inputs)))
  {
    var s0 := Launch(y0, launch);
    RunRising(s0, x, inputs, Lifespan - 1);
    var s89 := Run(s0, x, inputs, Lifespan - 1);
    assert s89 == Shell(Summit(y0, launch), s0.vy, 1, false, []);
    RunSplit(s0, x, inputs, Lifespan - 1, 1);
    assert Run(s89, x, inputs, 1) == Run(Tick(s89, x, inputs), x, inputs, 0);
  }

  /**
   * The life of a firework from launch: it rises for 89 frames without
   * particles, detonates on frame 90 at its summit, and from then on each
   * particle of its burst has `189 - n` hundredths of opacity after n frames.
   */
  lemma LaunchLifecycle(y0: real, launch: real, x: real, inputs: DetonationInputs, n: nat)
    ensures var r := Run(Launch(y0, launch), x, inputs, n);
      && r.lifespan == Lifespan - n
      && (n < Lifespan ==> !r.hasExploded && r.particles == [])
      && (n >= Lifespan ==>
            && r.hasExploded && r.y == Summit(y0, launch)
            && |r.particles| == |Burst(x, Summit(y0, launch), inputs)|
            && forall i :: 0 <= i < |r.particles| ==> r.particles[i].alpha == 189 - n)
  {
    var s0 := Launch(y0, launch);
    if n < Lifespan {
      RunRising(s0, x, inputs, n);
    } else {
      DetonationFrame(y0, launch, x, inputs);
      var s90 := Run(s0, x, inputs, Lifespan);
      RunSplit(s0, x, inputs, Lifespan, n - Lifespan);
      RunExploded(s90, x, inputs, n - Lifespan);
      var r := Run(s90, x, inputs, n - Lifespan);
      BurstCount(x, Summit(y0, launch), inputs);
      forall i | 0 <= i < |r.particles|
        ensures r.particles[i].alpha == 189 - n
      {
        DecayNClosedForm(s90.particles[i], n - Lifespan);
      }
    }
  }

  lemma {:induction false} RunSplit(s: Shell, x: real, inputs: DetonationInputs, m: nat, n: nat)
    ensures Run(s, x, inputs, m + n) == Run(Run(s, x, inputs, m), x, inputs, n)
    decreases m
  {
    if m > 0 {
      RunSplit(Tick(s, x, inputs), x, inputs, m - 1, n);
    }
  }

  /**
   * When a launched firework becomes removable: from frame 189 on if its burst
   * has particles (the last hundredth fades on frame 189), and right at
   * detonation (frame 90) if the burst is empty.
   */
  lemma SpentFrom(y0: real, launch: real, x: real, inputs: DetonationInputs, n: nat)
    ensures Spent(Run(Launch(y0, launch), x, inputs, n)) <==>
      n >= Lifespan && (|Burst(x, Summit(y0, launch), inputs)| == 0 || n >= 189)
  {
    LaunchLifecycle(y0, launch, x, inputs, n);
    var r := Run(Launch(y0, launch), x, inputs, n);
    if n >= Lifespan && |r.particles| > 0 {
      assert r.particles[0].alpha == 189 - n;
    }
  }

  /** A spent firework stays spent: a frame only lowers the lifespan and the opacities further. */
  lemma SpentStaysSpent(s: Shell, x: real, inputs: DetonationInputs)
    requires Consistent(s) && Spent(s)
    ensures Spent(Tick(s, x, inputs))
  {
  }

  // ---------------------------------------------------------------------
  // The object

  ghost function StatesOf(ps: seq<Particle>): (r: seq<ParticleState>)
    reads set p | p in ps
    ensures |r| == |ps| && forall i :: 0 <= i < |ps| ==> r[i] == ps[i].State()
  {
    if ps == [] then [] else StatesOf(ps[..|ps| - 1]) + [ps[|ps| - 1].State()]
  }

  class Firework {
    const x: real
    const color: Color
    var y: real
    var vy: real  // the horizontal velocity is always 0
    var particles: seq<Particle>
    var lifespan: int
    var hasExploded: bool
    /** The firework object and its particles. */
    ghost var Repr: set<object>

    ghost function State(): Shell
      reads this, set p | p in particles
    {
      Shell(y, vy, lifespan, hasExploded, StatesOf(particles))
    }

    /** The firework's own particles: distinct objects, all of its colour. */
    ghost predicate Owns()
      reads this
    {
      && Distinct(particles)
      && (forall i :: 0 <= i < |particles| ==> particles[i].color == color)
      && (!hasExploded ==> particles == [])
    }

    /** The footprint holds the firework and each of its particles. */
    ghost predicate Covered()
      reads this
    {
      this in Repr && forall i :: 0 <= i < |particles| ==> particles[i] in Repr
    }

    ghost predicate Valid()
      reads this, Repr
    {
      Covered() && Owns() && Consistent(State())
    }

    constructor (x: real, y: real, color: Color, launch: real)
      requires 0.0 <= launch < 1.0
      ensures Valid() && fresh(Repr) && State() == Launch(y, launch)
      ensures this.x == x && this.color == color && particles == []
    {
      this.x := x;
      this.y := y;
      this.color := color;
      vy := launch * -6.0 - 2.0;
      particles := [];
      lifespan := Lifespan;
      hasExploded := false;
      Repr := {this};
    }

    method Explode(inputs: DetonationInputs)
      requires Owns() && Covered()
      modifies this`particles, this`hasExploded, this`Repr
      ensures Owns() && Covered() && State() == Detonation(old(State()), x, inputs)
      ensures fresh(Repr - old(Repr))
    {
      if !hasExploded {
        Ignite(inputs);
      }
    }

    /** The first detonation: the burst becomes the firework's particles. */
    method Ignite(inputs: DetonationInputs)
      requires Owns() && Covered() && !hasExploded
      modifies this`particles, this`hasExploded, this`Repr
      ensures Owns() && Covered() && fresh(Repr - old(Repr))
      ensures State() == old(State()).(particles := Burst(x, y, inputs), hasExploded := true)
    {
      ghost var s0 := State();
      var sites := FindSites(inputs);
      AddParticles(sites, inputs.draws);
      hasExploded := true;
      assert State() == Shell(s0.y, s0.vy, s0.lifespan, true, SpawnEach(sites, inputs.draws));
    }

    /** The starting points of a detonation here: the default burst, or the drawing's emission points. */
    method FindSites(inputs: DetonationInputs) returns (sites: seq<Point>)
      ensures sites == Sites(x, y, inputs)
    {
      if !inputs.hasImage {
        var here := Point(x, y);
        sites := seq(BurstSize, _ => here);
      } else {
        var box := ScanBounds(inputs.paint);
        BoxWithinImage(inputs.paint);
        sites := SamplePoints(inputs.paint, box, x, y);
      }
    }

    /** Pushes one new particle of the firework's colour per site, the i-th with draw i. */
    method AddParticles(sites: seq<Point>, draws: nat -> Velocity)
      requires particles == []
      modifies this`particles, this`Repr
      ensures old(Repr) <= Repr && fresh(Repr - old(Repr))
      ensures forall i :: 0 <= i < |particles| ==> particles[i] in Repr
      ensures Distinct(particles) && |particles| == |sites|
      ensures forall i :: 0 <= i < |particles| ==> fresh(particles[i]) && particles[i].color == color
      ensures StatesOf(particles) == SpawnEach(sites, draws)
    {
      var i := 0;
      while i < |sites|
        invariant 0 <= i <= |sites| && |particles| == i
        invariant Distinct(particles)
        invariant forall j :: 0 <= j < i ==> fresh(particles[j]) && particles[j].color == color
        invariant forall j :: 0 <= j < i ==> particles[j].State() == Spawn(sites[j], draws(j))
        invariant old(Repr) <= Repr && fresh(Repr - old(Repr))
        invariant forall j :: 0 <= j < i ==> particles[j] in Repr
      {
        var p := new Particle(sites[i], color, draws(i));
        particles := particles + [p];
        Repr := Repr + {p};
        i := i + 1;
      }
      assert StatesOf(particles) == SpawnEach(sites, draws);
    }

    method Update(inputs: DetonationInputs)
      requires Valid()
      modifies Repr
      ensures Valid() && State() == Tick(old(State()), x, inputs)
      ensures fresh(Repr - old(Repr))
    {
      TickSteps(State(), x, inputs);
      Fly(inputs);
      ghost var mid := State();
      UpdateParticles();
      assert State() == mid.(particles := DecayAll(mid.particles));
    }

    /** The shell's part of a frame: the countdown, then the detonation or the climb. */
    method Fly(inputs: DetonationInputs)
      requires Valid()
      modifies this`lifespan, this`y, this`vy, this`particles, this`hasExploded, this`Repr
      ensures Owns() && Covered() && State() == Flight(old(State()), x, inputs)
      ensures fresh(Repr - old(Repr))
    {
      lifespan := lifespan - 1;
      if lifespan <= 0 && !hasExploded {
        Explode(inputs);
        vy := 0.0;
        hasExploded := true;
      } else if lifespan > 0 {
        y := y + vy;
      }
    }

    /** Updates every particle once, in order. */
    method UpdateParticles()
      requires Distinct(particles)
      modifies set p | p in particles
      ensures StatesOf(particles) == DecayAll(old(StatesOf(particles)))
    {
      ghost var before := StatesOf(particles);
      var i := 0;
      while i < |particles|
        invariant 0 <= i <= |particles| == |before|
        invariant forall j :: 0 <= j < i ==> particles[j].State() == Decay(before[j])
        invariant forall j :: i <= j < |particles| ==> particles[j].State() == before[j]
      {
        particles[i].Update();
        i := i + 1;
      }
      assert StatesOf(particles) == DecayAll(before);
    }

    /** The frame loop's removal test, read off the object. */
    predicate Removable()
      reads this, set p | p in particles
      ensures Removable() <==> Spent(State())
    {
      lifespan <= 0 && forall i :: 0 <= i < |particles| ==> particles[i].alpha <= 0
    }
  }
}
