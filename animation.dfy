/**
 * The page: the list of live fireworks, the shape-mode flag and the paint
 * canvas, with the frame loop (update every firework, splice out the spent
 * ones, sometimes launch a new one), the Save button and the Clear button.
 *
 * The removal pass is the page's `forEach` with a `splice` inside: the length
 * is fixed when the pass starts, a position past the end of the shrunken list
 * is not visited, and the firework that slides into a removed one's place is
 * skipped for the frame. `SweepFrom` follows that loop position by position;
 * `Fates` says the same firework by firework, and `SweepByFates` proves the
 * two equal. Both are stated for any callback; `Callback` is the page's.
 */
module Animation {
  import opened Raster
  import opened Sampler
  import opened Particles
  import opened Fireworks

  /** Height of the paint canvas in pixels. */
  const PaintHeight := 400

  /** Probability of a launch per frame. */
  const LaunchChance: real := 0.015

  /** A firework as a value: its fixed x and colour, and its changing state. */
  datatype Rocket = Rocket(x: real, color: Color, shell: Shell)

  /**
   * What one frame reads besides the fireworks: the shape-mode flag, the paint
   * canvas, and `draws(k)(i)`, the velocity draw for the i-th particle created
   * by the k-th firework callback of the frame.
   */
  datatype FrameInputs = FrameInputs(hasImage: bool, paint: Paint, draws: nat -> nat -> Velocity)

  /** The random draws that decide a launch: the roll against `LaunchChance`, then x, hue and speed, each in [0, 1). */
  datatype Roll = Roll(chance: real, at: real, hue: real, launch: real)

  /** What a callback decides for the firework it is given: keep it, updated, or splice it out. */
  datatype Step = Keep(after: Rocket) | Drop

  function InputsAt(frame: FrameInputs, k: nat): DetonationInputs
  {
    DetonationInputs(frame.hasImage, frame.paint, frame.draws(k))
  }

  /** The firework's own update, run by the k-th callback of the frame. */
  function Advance(r: Rocket, frame: FrameInputs, k: nat): Rocket
  {
    r.(shell := Tick(r.shell, r.x, InputsAt(frame, k)))
  }

  /** The page's callback: update the firework, then drop it if it is spent. */
  function Callback(frame: FrameInputs): (Rocket, nat) -> Step
  {
    (r: Rocket, k: nat) => var a := Advance(r, frame, k); if Spent(a.shell) then Drop else Keep(a)
  }

  /** The callback at position k, with a splice when it drops the firework. */
  function Visit(list: seq<Rocket>, k: nat, cb: (Rocket, nat) -> Step): seq<Rocket>
    requires k < |list|
  {
    match cb(list[k], k)
    case Keep(a) => list[k := a]
    case Drop => list[..k] + list[k + 1..]
  }

  /** The removal pass from position k on, when it was started on a list of length len. */
  function SweepFrom(list: seq<Rocket>, k: nat, len: nat, cb: (Rocket, nat) -> Step): seq<Rocket>
    decreases len - k
  {
    if k >= len then list
    else SweepFrom(if k < |list| then Visit(list, k, cb) else list, k + 1, len, cb)
  }

  /** The whole removal pass of one frame. */
  function Sweep(list: seq<Rocket>, cb: (Rocket, nat) -> Step): seq<Rocket>
  {
    SweepFrom(list, 0, |list|, cb)
  }

  /** A new firework at the bottom edge, if the roll comes up. */
  function Launched(roll: Roll, width: nat, height: int): seq<Rocket>
  {
    if roll.chance < LaunchChance then
      [Rocket(roll.at * width as real, Hsl(roll.hue * 360.0), Launch(height as real, roll.launch))]
    else []
  }

  // ---------------------------------------------------------------------
  // The same pass, firework by firework

  /** What one frame does to a firework of the list. */
  datatype Fate = Skipped | Kept(after: Rocket) | Removed

  /**
   * The fate of each firework of `rest`: `pos` is the position the first of
   * them is visited at, `skip` says it slid into a removed firework's place.
   */
  function Fates(rest: seq<Rocket>, pos: nat, skip: bool, cb: (Rocket, nat) -> Step): (fs: seq<Fate>)
    ensures |fs| == |rest|
    decreases |rest|
  {
    if rest == [] then []
    else if skip then [Skipped] + Fates(rest[1..], pos, false, cb)
    else
      match cb(rest[0], pos)
      case Keep(a) => [Kept(a)] + Fates(rest[1..], pos + 1, false, cb)
      case Drop => [Removed] + Fates(rest[1..], pos + 1, true, cb)
  }

  /** The list a sequence of fates leaves: skipped fireworks as they were, kept ones updated, removed ones gone. */
  function Survivors(rs: seq<Rocket>, fs: seq<Fate>): seq<Rocket>
    requires |fs| == |rs|
  {
    if rs == [] then []
    else
      (match fs[0]
         case Skipped => [rs[0]]
         case Kept(a) => [a]
         case Removed => []) + Survivors(rs[1..], fs[1..])
  }

  /** The survivors of a list whose first fate is given apart from the others. */
  lemma SurvivorsCons(rs: seq<Rocket>, f: Fate, fs: seq<Fate>)
    requires rs != [] && |fs| == |rs| - 1
    ensures Survivors(rs, [f] + fs) ==
      (match f case Skipped => [rs[0]] case Kept(a) => [a] case Removed => []) + Survivors(rs[1..], fs)
  {
    assert ([f] + fs)[1..] == fs;
  }

  /** The number of callbacks that ran: the fireworks that were not skipped. */
  function Visits(fs: seq<Fate>): nat
  {
    if fs == [] then 0 else (if fs[0].Skipped? then 0 else 1) + Visits(fs[1..])
  }

  /** The number of fireworks spliced out. */
  function Removals(fs: seq<Fate>): nat
  {
    if fs == [] then 0 else (if fs[0].Removed? then 1 else 0) + Removals(fs[1..])
  }

  // ---------------------------------------------------------------------
  // Properties of the pass

  lemma {:induction false} SweepPastEnd(list: seq<Rocket>, k: nat, len: nat, cb: (Rocket, nat) -> Step)
    requires k >= |list|
    ensures SweepFrom(list, k, len, cb) == list
    decreases len - k
  {
    if k < len {
      SweepPastEnd(list, k + 1, len, cb);
    }
  }

  lemma {:induction false} SweepFromByFates(done: seq<Rocket>, rest: seq<Rocket>, len: nat, cb: (Rocket, nat) -> Step)
    requires len >= |done| + |rest|
    ensures SweepFrom(done + rest, |done|, len, cb) == done + Survivors(rest, Fates(rest, |done|, false, cb))
    decreases |rest|, 3
  {
    if rest == [] {
      assert done + rest == done;
      SweepPastEnd(done, |done|, len, cb);
    } else if cb(rest[0], |done|).Keep? {
      KeptStep(done, rest, len, cb);
    } else {
      RemovedStep(done, rest, len, cb);
    }
  }

  /** One callback of the pass, then the rest of it. */
  lemma SweepFromStep(list: seq<Rocket>, k: nat, len: nat, cb: (Rocket, nat) -> Step)
    requires k < len && k < |list|
    ensures SweepFrom(list, k, len, cb) == SweepFrom(Visit(list, k, cb), k + 1, len, cb)
  {
  }

  /** Keeping the firework at the current position puts its updated value between the visited and the rest. */
  lemma VisitKept(done: seq<Rocket>, rest: seq<Rocket>, cb: (Rocket, nat) -> Step)
    requires rest != [] && cb(rest[0], |done|).Keep?
    ensures Visit(done + rest, |done|, cb) == done + [cb(rest[0], |done|).after] + rest[1..]
  {
    assert (done + rest)[|done|] == rest[0];
  }

  /** The callback keeps the firework at the current position: the pass moves on to the next one. */
  lemma {:induction false} KeptStep(done: seq<Rocket>, rest: seq<Rocket>, len: nat, cb: (Rocket, nat) -> Step)
    requires len >= |done| + |rest| && rest != [] && cb(rest[0], |done|).Keep?
    ensures SweepFrom(done + rest, |done|, len, cb) == done + Survivors(rest, Fates(rest, |done|, false, cb))
    decreases |rest|, 0
  {
    var k := |done|;
    var a := cb(rest[0], k).after;
    var done' := done + [a];
    VisitKept(done, rest, cb);
    SweepFromStep(done + rest, k, len, cb);
    SweepFromByFates(done', rest[1..], len, cb);
    var later := Fates(rest[1..], k + 1, false, cb);
    assert Fates(rest, k, false, cb) == [Kept(a)] + later;
    SurvivorsCons(rest, Kept(a), later);
    assert done' + Survivors(rest[1..], later) == done + ([a] + Survivors(rest[1..], later));
  }

  /** The callback drops the firework at the current position: the next one takes its place and is skipped. */
  lemma {:induction false} RemovedStep(done: seq<Rocket>, rest: seq<Rocket>, len: nat, cb: (Rocket, nat) -> Step)
    requires len >= |done| + |rest| && rest != [] && cb(rest[0], |done|) == Drop
    ensures SweepFrom(done + rest, |done|, len, cb) == done + Survivors(rest, Fates(rest, |done|, false, cb))
    decreases |rest|, 0
  {
    var k := |done|;
    assert (done + rest)[k] == rest[0];
    assert (done + rest)[..k] + (done + rest)[k + 1..] == done + rest[1..];
    assert SweepFrom(done + rest, k, len, cb) == SweepFrom(done + rest[1..], k + 1, len, cb);
    var after := Fates(rest[1..], k + 1, true, cb);
    assert Survivors(rest, Fates(rest, k, false, cb)) == Survivors(rest[1..], after);
    if |rest| == 1 {
      assert done + rest[1..] == done;
      SweepPastEnd(done, k + 1, len, cb);
    } else {
      SkippedStep(done, rest[1..], len, cb);
    }
  }

  /** The firework that slid into a removed one's place is passed over, as it was. */
  lemma {:induction false} SkippedStep(done: seq<Rocket>, rest: seq<Rocket>, len: nat, cb: (Rocket, nat) -> Step)
    requires len > |done| + |rest| && rest != []
    ensures SweepFrom(done + rest, |done| + 1, len, cb) == done + Survivors(rest, Fates(rest, |done| + 1, true, cb))
    decreases |rest|, 2
  {
    var done' := done + [rest[0]];
    assert done + rest == done' + rest[1..];
    SweepFromByFates(done', rest[1..], len, cb);
    var later := Fates(rest[1..], |done| + 1, false, cb);
    assert Fates(rest, |done| + 1, true, cb) == [Skipped] + later;
    SurvivorsCons(rest, Skipped, later);
    assert done' + Survivors(rest[1..], later) == done + ([rest[0]] + Survivors(rest[1..], later));
  }

  /**
   * The removal pass leaves exactly the survivors of the per-firework fates,
   * in their original order.
   */
  lemma SweepByFates(rs: seq<Rocket>, cb: (Rocket, nat) -> Step)
    ensures Sweep(rs, cb) == Survivors(rs, Fates(rs, 0, false, cb))
  {
    SweepFromByFates([], rs, |rs|, cb);
    assert [] + rs == rs;
  }

  /**
   * The fate of the j-th firework: skipped exactly when the firework before it
   * was removed (or, for the first, when `skip` is set); otherwise its callback
   * runs at position `pos` plus the number of callbacks before it, and it is
   * kept, updated, or removed as that callback decides.
   */
  lemma {:induction false} FateOf(rest: seq<Rocket>, pos: nat, skip: bool, cb: (Rocket, nat) -> Step, j: nat)
    requires j < |rest|
    ensures var fs := Fates(rest, pos, skip, cb);
      fs[j] == (if (j == 0 && skip) || (j > 0 && fs[j - 1] == Removed) then Skipped
                else match cb(rest[j], pos + Visits(fs[..j]))
                     case Keep(a) => Kept(a)
                     case Drop => Removed)
    decreases j
  {
    var fs := Fates(rest, pos, skip, cb);
    if j == 0 {
      assert fs[..0] == [];
    } else {
      var head := fs[0];
      var pos' := if head.Skipped? then pos else pos + 1;
      var fs' := Fates(rest[1..], pos', head.Removed?, cb);
      assert fs == [head] + fs';
      FateOf(rest[1..], pos', head.Removed?, cb, j - 1);
      assert fs[..j] == [head] + fs'[..j - 1];
      assert fs[..j][1..] == fs'[..j - 1];
      assert pos + Visits(fs[..j]) == pos' + Visits(fs'[..j - 1]);
      assert rest[1..][j - 1] == rest[j];
      assert fs[j] == fs'[j - 1];
      assert fs[j - 1] == if j == 1 then head else fs'[j - 2];
    }
  }

  /** Each removed firework takes exactly one firework off the list. */
  lemma {:induction false} SurvivorCount(rs: seq<Rocket>, fs: seq<Fate>)
    requires |fs| == |rs|
    ensures |Survivors(rs, fs)| == |rs| - Removals(fs)
    decreases |rs|
  {
    if rs != [] {
      SurvivorCount(rs[1..], fs[1..]);
    }
  }

  /**
   * Two fireworks, the first dropped by its callback: the second slides into
   * its place and is skipped, so it stays on the list unchanged for another
   * frame, whatever its own callback would have decided.
   */
  lemma SkipAfterRemoval(a: Rocket, b: Rocket, cb: (Rocket, nat) -> Step)
    requires cb(a, 0) == Drop
    ensures Sweep([a, b], cb) == [b]
  {
    assert Visit([a, b], 0, cb) == [b];
    SweepPastEnd([b], 2, 2, cb);
  }

  /** When no callback drops its firework, each runs at its own index and the list keeps every firework, updated. */
  lemma {:induction false} NothingDroppedAllUpdated(rest: seq<Rocket>, pos: nat, cb: (Rocket, nat) -> Step)
    requires forall j :: 0 <= j < |rest| ==> cb(rest[j], pos + j).Keep?
    ensures Survivors(rest, Fates(rest, pos, false, cb)) ==
      seq(|rest|, j requires 0 <= j < |rest| => cb(rest[j], pos + j).after)
    decreases |rest|
  {
    if rest != [] {
      assert cb(rest[0], pos + 0).Keep?;
      forall j | 0 <= j < |rest[1..]|
        ensures cb(rest[1..][j], pos + 1 + j).Keep?
      {
        assert rest[1..][j] == rest[j + 1];
      }
      NothingDroppedAllUpdated(rest[1..], pos + 1, cb);
    }
  }

  /** The page's callback drops a firework exactly when its update leaves it spent, and keeps it updated otherwise. */
  lemma CallbackDecides(r: Rocket, frame: FrameInputs, k: nat)
    ensures Callback(frame)(r, k) == Drop <==> Spent(Advance(r, frame, k).shell)
    ensures Callback(frame)(r, k).Keep? ==> Callback(frame)(r, k).after == Advance(r, frame, k)
    ensures Advance(r, frame, k).x == r.x && Advance(r, frame, k).color == r.color
  {
  }

  /**
   * The removal promise of the page's pass: the j-th firework is spliced out
   * exactly when it was not skipped and its own update, run by the callback at
   * its position, left it spent (countdown over, every particle faded). No
   * firework with time left or with a visible particle is ever removed.
   */
  lemma RemovedExactlyWhenSpent(rs: seq<Rocket>, frame: FrameInputs, j: nat)
    requires j < |rs|
    ensures var fs := Fates(rs, 0, false, Callback(frame));
      fs[j] == Removed <==>
        !(j > 0 && fs[j - 1] == Removed) && Spent(Advance(rs[j], frame, Visits(fs[..j])).shell)
  {
    var fs := Fates(rs, 0, false, Callback(frame));
    FateOf(rs, 0, false, Callback(frame), j);
    CallbackDecides(rs[j], frame, Visits(fs[..j]));
  }

  /** The page's pass keeps every surviving firework consistent. */
  lemma {:induction false} SurvivorsConsistent(rs: seq<Rocket>, pos: nat, skip: bool, frame: FrameInputs)
    requires forall j :: 0 <= j < |rs| ==> Consistent(rs[j].shell)
    ensures var out := Survivors(rs, Fates(rs, pos, skip, Callback(frame)));
      forall i :: 0 <= i < |out| ==> Consistent(out[i].shell)
    decreases |rs|
  {
    if rs != [] {
      var cb := Callback(frame);
      var fs := Fates(rs, pos, skip, cb);
      var pos' := if fs[0].Skipped? then pos else pos + 1;
      assert fs[1..] == Fates(rs[1..], pos', fs[0].Removed?, cb);
      assert Consistent(rs[0].shell);
      TickSteps(rs[0].shell, rs[0].x, InputsAt(frame, pos));
      var front: seq<Rocket> := match fs[0] case Skipped => [rs[0]] case Kept(a) => [a] case Removed => [];
      assert forall i :: 0 <= i < |front| ==> Consistent(front[i].shell);
      forall j | 0 <= j < |rs[1..]|
        ensures Consistent(rs[1..][j].shell)
      {
        assert rs[1..][j] == rs[j + 1];
      }
      SurvivorsConsistent(rs[1..], pos', fs[0].Removed?, frame);
      var tail := Survivors(rs[1..], fs[1..]);
      assert tail == Survivors(rs[1..], Fates(rs[1..], pos', fs[0].Removed?, Callback(frame)));
      assert forall i :: 0 <= i < |tail| ==> Consistent(tail[i].shell);
      assert Survivors(rs, fs) == front + tail;
      forall i | 0 <= i < |front + tail|
        ensures Consistent((front + tail)[i].shell)
      {
        if i < |front| {
          assert (front + tail)[i] == front[i];
          assert Consistent(front[i].shell);
        } else {
          assert (front + tail)[i] == tail[i - |front|];
          assert Consistent(tail[i - |front|].shell);
        }
      }
    }
  }

  // ---------------------------------------------------------------------
  // The paint canvas

  /** A cleared canvas: every byte zero (transparent black). */
  function Blank(width: nat, height: nat): Paint
  {
    Image(width, height, seq(4 * width * height, _ => 0))
  }

  /** Nothing is drawn on a cleared canvas, so it has an empty box and emits no particle. */
  lemma BlankIsEmpty(width: nat, height: nat, fx: real, fy: real)
    ensures !AnyOccupied(Blank(width, height))
    ensures BoxOf(Blank(width, height)) == Initial(Blank(width, height))
    ensures EmissionPoints(Blank(width, height), fx, fy) == []
  {
    var img := Blank(width, height);
    if x, y :| Occupied(img, x, y) {
      AlphaInBuffer(img, x, y);
      assert false;
    }
    BoxEmptyIff(img);
    NothingDrawnEmitsNothing(img, fx, fy);
  }
}
