/**
 * The page's objects: the display with its list of firework objects, the
 * shape-mode flag and the paint canvas, and the handlers that change them.
 * Each method is proved to follow the value-level model in `Animation`.
 */
module Page {
  import opened Raster
  import opened Particles
  import opened Fireworks
  import opened Animation

  /** A firework object as a value. */
  ghost function RocketOf(f: Firework): Rocket
    requires f.Covered()
    reads f, f.Repr
  {
    Rocket(f.x, f.color, f.State())
  }

  /** A firework none of whose objects changed is the same firework, still valid. */
  twostate lemma Untouched(g: Firework)
    requires old(g.Valid()) && unchanged(g) && unchanged(g.Repr)
    ensures g.Valid() && RocketOf(g) == old(RocketOf(g))
  {
  }

  /** The page's state: the live fireworks, the shape-mode flag and the paint canvas. */
  class Display {
    /** Width of both canvases: the window's inner width. */
    const width: nat
    /** Height of the firework canvas: the window's inner height less a quarter of the paint canvas. */
    const height: int
    var fireworks: seq<Firework>
    var hasImage: bool
    var paint: Paint
    /** The fireworks as values, in list order. */
    ghost var rockets: seq<Rocket>
    ghost var Repr: set<object>

    ghost predicate Valid()
      reads this, Repr
    {
      && paint.width == width && paint.height == PaintHeight
      && this !in Repr
      && |rockets| == |fireworks|
      && (forall i :: 0 <= i < |fireworks| ==>
            && fireworks[i] in Repr && fireworks[i].Repr <= Repr && fireworks[i].Valid()
            && RocketOf(fireworks[i]) == rockets[i])
      && (forall i, j :: 0 <= i < j < |fireworks| ==> fireworks[i].Repr !! fireworks[j].Repr)
    }

    /** The page as loaded: no fireworks, and the paint canvas cleared, which also turns shape mode off. */
    constructor (innerWidth: nat, innerHeight: int)
      ensures Valid() && rockets == [] && !hasImage && paint == Blank(innerWidth, PaintHeight)
      ensures width == innerWidth && height == innerHeight - PaintHeight / 4
    {
      width := innerWidth;
      height := innerHeight - PaintHeight / 4;
      fireworks := [];
      rockets := [];
      paint := Blank(innerWidth, PaintHeight);
      hasImage := false;
      Repr := {};
    }

    /** The Save button: shape mode is on exactly when some pixel of the paint canvas has been drawn on. */
    method Save()
      requires Valid()
      modifies this`hasImage
      ensures Valid() && (hasImage <==> AnyOccupied(paint))
    {
      var found := HasDrawnPixels(paint.data);
      DrawnIffOccupied(paint);
      if found {
        hasImage := true;
      } else {
        hasImage := false;
      }
    }

    /** A stroke on the paint canvas: the canvas becomes any image of its size; shape mode waits for Save. */
    method Draw(p: Paint)
      requires Valid() && p.width == width && p.height == PaintHeight
      modifies this`paint
      ensures Valid() && paint == p && hasImage == old(hasImage)
    {
      paint := p;
    }

    /** The Clear button: shape mode off and the paint canvas wiped. */
    method ClearPaint()
      requires Valid()
      modifies this`hasImage, this`paint
      ensures Valid() && !hasImage && paint == Blank(width, PaintHeight)
    {
      hasImage := false;
      paint := Blank(paint.width, paint.height);
    }

    /**
     * One animation frame: the removal pass over the fireworks, then perhaps a
     * launch from the bottom edge at a random x, in a random hue.
     */
    method Animate(draws: nat -> nat -> Velocity, roll: Roll)
      requires Valid() && 0.0 <= roll.launch < 1.0
      modifies this`fireworks, this`rockets, this`Repr, Repr
      ensures Valid() && fresh(Repr - old(Repr))
      ensures rockets == Sweep(old(rockets), Callback(FrameInputs(hasImage, paint, draws))) + Launched(roll, width, height)
    {
      SweepFireworks(draws);
      MaybeLaunch(roll);
    }

    /** The launch step of a frame: a new firework joins the end of the list when the roll is under the chance. */
    method MaybeLaunch(roll: Roll)
      requires Valid() && 0.0 <= roll.launch < 1.0
      modifies this`fireworks, this`rockets, this`Repr
      ensures Valid() && fresh(Repr - old(Repr))
      ensures rockets == old(rockets) + Launched(roll, width, height)
    {
      if roll.chance < LaunchChance {
        var f := new Firework(roll.at * width as real, height as real, Hsl(roll.hue * 360.0), roll.launch);
        forall i | 0 <= i < |fireworks|
          ensures fireworks[i].Valid() && RocketOf(fireworks[i]) == rockets[i]
        {
          Untouched(fireworks[i]);
        }
        Push(f);
        assert RocketOf(f) == Launched(roll, width, height)[0];
      } else {
        assert rockets + Launched(roll, width, height) == rockets;
      }
    }

    /** Appends a valid firework that shares no object with the page. */
    method Push(f: Firework)
      requires Valid() && f.Valid() && f.Repr !! Repr && this !in f.Repr
      modifies this`fireworks, this`rockets, this`Repr
      ensures Valid() && Repr == old(Repr) + f.Repr
      ensures rockets == old(rockets) + [RocketOf(f)]
    {
      fireworks := fireworks + [f];
      rockets := rockets + [RocketOf(f)];
      Repr := Repr + f.Repr;
    }

    /**
     * The frame's `forEach` with its splice: the length is fixed when the pass
     * starts, and the callback at position k sees whatever the list holds there
     * by then.
     */
    method SweepFireworks(draws: nat -> nat -> Velocity)
      requires Valid()
      modifies this`fireworks, this`rockets, this`Repr, Repr
      ensures Valid() && fresh(Repr - old(Repr))
      ensures rockets == Sweep(old(rockets), Callback(FrameInputs(hasImage, paint, draws)))
    {
      ghost var frame := FrameInputs(hasImage, paint, draws);
      var len := |fireworks|;
      var k := 0;
      while k < len
        invariant k <= len && Valid() && fresh(Repr - old(Repr))
        invariant SweepFrom(rockets, k, len, Callback(frame)) == Sweep(old(rockets), Callback(frame))
      {
        if k < |fireworks| {
          VisitAt(k, draws);
        }
        k := k + 1;
      }
    }

    /** The callback at position k: update the firework there, then splice it out if it is spent. */
    method VisitAt(k: nat, draws: nat -> nat -> Velocity)
      requires Valid() && k < |fireworks|
      modifies this`fireworks, this`rockets, this`Repr, Repr
      ensures Valid() && fresh(Repr - old(Repr))
      ensures rockets == Visit(old(rockets), k, Callback(FrameInputs(hasImage, paint, draws)))
    {
      ghost var frame := FrameInputs(hasImage, paint, draws);
      CallbackDecides(rockets[k], frame, k);
      UpdateAt(k, draws);
      if fireworks[k].Removable() {
        RemoveAt(k);
      }
    }

    /** The frame's callback at position k, without the splice: the firework there runs one update. */
    method UpdateAt(k: nat, draws: nat -> nat -> Velocity)
      requires Valid() && k < |fireworks|
      modifies this`rockets, this`Repr, Repr
      ensures Valid() && fresh(Repr - old(Repr))
      ensures rockets == old(rockets)[k := Advance(old(rockets)[k], FrameInputs(hasImage, paint, draws), k)]
    {
      Fire(k, draws);
      forall i, j | 0 <= i < j < |fireworks| && i != k && j != k
        ensures fireworks[i].Repr !! fireworks[j].Repr
      {
        assert old(fireworks[i].Repr !! fireworks[j].Repr);
      }
    }

    /** The update of the firework at position k, which shares no object with the others. */
    method Fire(k: nat, draws: nat -> nat -> Velocity)
      requires Valid() && k < |fireworks|
      modifies this`rockets, this`Repr, fireworks[k].Repr
      ensures old(Repr) <= Repr && fresh(Repr - old(Repr)) && this !in Repr
      ensures rockets == old(rockets)[k := Advance(old(rockets)[k], FrameInputs(hasImage, paint, draws), k)]
      ensures forall i :: 0 <= i < |fireworks| ==>
        && fireworks[i] in Repr && fireworks[i].Repr <= Repr && fireworks[i].Valid()
        && RocketOf(fireworks[i]) == rockets[i]
      ensures forall i :: 0 <= i < |fireworks| && i != k ==>
        fireworks[i].Repr == old(fireworks[i].Repr) && fireworks[i].Repr !! fireworks[k].Repr
    {
      var f := fireworks[k];
      f.Update(InputsAt(FrameInputs(hasImage, paint, draws), k));
      Repr := Repr + f.Repr;
      rockets := rockets[k := RocketOf(f)];
      forall i | 0 <= i < |fireworks| && i != k
        ensures fireworks[i].Repr == old(fireworks[i].Repr) && fireworks[i].Valid()
        ensures RocketOf(fireworks[i]) == rockets[i]
        ensures fireworks[i].Repr !! f.Repr
      {
        Untouched(fireworks[i]);
        assert old(fireworks[i].Repr !! f.Repr);
      }
    }

    /** The splice: the firework at position k leaves the list. */
    method RemoveAt(k: nat)
      requires Valid() && k < |fireworks|
      modifies this`fireworks, this`rockets
      ensures Valid() && rockets == old(rockets[..k] + rockets[k + 1..])
    {
      fireworks := fireworks[..k] + fireworks[k + 1..];
      rockets := rockets[..k] + rockets[k + 1..];
    }
  }
}
