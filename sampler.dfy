/**
 * The shape branch of a firework's detonation: the tight bounding box of the
 * drawn pixels of the paint canvas, and the stride-2 walk over that box that
 * turns every occupied sample into one emission point, translated so that the
 * box is centred on the detonation point.
 */
module Sampler {
  import opened Raster
  import opened Geometry

  /** A bounding box as the scan keeps it: inclusive corners (minX, minY) and (maxX, maxY). */
  datatype Bounds = Bounds(minX: int, maxX: int, minY: int, maxY: int)

  /** The distance between two samples of the walk, in both axes. */
  const Stride := 2

  /** Bounds before any pixel is seen: `minX = width, maxX = 0, minY = height, maxY = 0`. */
  function Initial(img: Image): Bounds
  {
    Bounds(img.width, 0, img.height, 0)
  }

  /** The four guarded updates the scan makes for an occupied pixel (x, y). */
  function Widen(b: Bounds, x: int, y: int): Bounds
  {
    Bounds(if x < b.minX then x else b.minX,
           if x > b.maxX then x else b.maxX,
           if y < b.minY then y else b.minY,
           if y > b.maxY then y else b.maxY)
  }

  /** The scan of the pixels from (x, y) on, in row-major order, starting from bounds b. */
  function ScanFrom(img: Image, x: nat, y: nat, b: Bounds): Bounds
    requires img.WellFormed() && x <= img.width
    decreases img.height - y, img.width - x
  {
    if y >= img.height then b
    else if x == img.width then ScanFrom(img, 0, y + 1, b)
    else ScanFrom(img, x + 1, y, if AlphaAt(img, x, y) > 0 then Widen(b, x, y) else b)
  }

  /** The bounds the scan of the whole image ends with. */
  function BoxOf(img: Image): Bounds
    requires img.WellFormed()
  {
    ScanFrom(img, 0, 0, Initial(img))
  }

  /** The nested scan over every pixel, row by row. */
  method ScanBounds(img: Image) returns (b: Bounds)
    requires img.WellFormed()
    ensures b == BoxOf(img)
  {
    var minX, maxX, minY, maxY := img.width as int, 0, img.height as int, 0;
    var y := 0;
    while y < img.height
      invariant 0 <= y <= img.height
      invariant ScanFrom(img, 0, y, Bounds(minX, maxX, minY, maxY)) == BoxOf(img)
    {
      var x := 0;
      while x < img.width
        invariant 0 <= x <= img.width
        invariant ScanFrom(img, x, y, Bounds(minX, maxX, minY, maxY)) == BoxOf(img)
      {
        var alpha := AlphaAt(img, x, y);
        if alpha > 0 {
          if x < minX { minX := x; }
          if x > maxX { maxX := x; }
          if y < minY { minY := y; }
          if y > maxY { maxY := y; }
        }
        x := x + 1;
      }
      y := y + 1;
    }
    b := Bounds(minX, maxX, minY, maxY);
  }

  // ---------------------------------------------------------------------
  // What the scan computes

  /** Every occupied pixel before (x, y) in row-major order lies inside b. */
  ghost predicate Covers(img: Image, b: Bounds, x: int, y: int)
    requires img.WellFormed()
  {
    forall px, py :: Occupied(img, px, py) && (py < y || (py == y && px < x)) ==>
      b.minX <= px <= b.maxX && b.minY <= py <= b.maxY
  }

  /** Each of the four bounds is reached by some occupied pixel. */
  ghost predicate Attained(img: Image, b: Bounds)
    requires img.WellFormed()
  {
    && (exists py :: Occupied(img, b.minX, py))
    && (exists py :: Occupied(img, b.maxX, py))
    && (exists px :: Occupied(img, px, b.minY))
    && (exists px :: Occupied(img, px, b.maxY))
  }

  /** b is the tight box of the occupied pixels before (x, y), or the initial bounds when there are none. */
  ghost predicate TightBefore(img: Image, b: Bounds, x: int, y: int)
    requires img.WellFormed()
  {
    Covers(img, b, x, y) && (b == Initial(img) || Attained(img, b))
  }

  lemma {:induction false} ScanStaysTight(img: Image, x: nat, y: nat, b: Bounds)
    requires img.WellFormed() && x <= img.width && y <= img.height
    requires TightBefore(img, b, x, y)
    ensures TightBefore(img, ScanFrom(img, x, y, b), 0, img.height)
    decreases img.height - y, img.width - x
  {
    if y >= img.height {
    } else if x == img.width {
      ScanStaysTight(img, 0, y + 1, b);
    } else if AlphaAt(img, x, y) > 0 {
      var b' := Widen(b, x, y);
      assert Occupied(img, x, y);
      if b == Initial(img) {
        assert b' == Bounds(x, x, y, y);
      }
      assert Attained(img, b');
      ScanStaysTight(img, x + 1, y, b');
    } else {
      ScanStaysTight(img, x + 1, y, b);
    }
  }

  lemma BoxIsTight(img: Image)
    requires img.WellFormed()
    ensures TightBefore(img, BoxOf(img), 0, img.height)
  {
    assert Covers(img, Initial(img), 0, 0);
    ScanStaysTight(img, 0, 0, Initial(img));
  }

  /** After the scan, every drawn pixel lies inside the box. */
  lemma BoxContainsOccupied(img: Image, px: int, py: int)
    requires img.WellFormed() && Occupied(img, px, py)
    ensures BoxOf(img).minX <= px <= BoxOf(img).maxX
    ensures BoxOf(img).minY <= py <= BoxOf(img).maxY
  {
    BoxIsTight(img);
  }

  /** When something is drawn, each of the four bounds is reached by a drawn pixel. */
  lemma BoxAttained(img: Image)
    requires img.WellFormed() && AnyOccupied(img)
    ensures Attained(img, BoxOf(img))
  {
    BoxIsTight(img);
    var px, py :| Occupied(img, px, py);
    if BoxOf(img) == Initial(img) {
      assert false;
    }
  }

  /** Nothing drawn if and only if the bounds keep their initial values. */
  lemma BoxEmptyIff(img: Image)
    requires img.WellFormed()
    ensures !AnyOccupied(img) <==> BoxOf(img) == Initial(img)
  {
    BoxIsTight(img);
    if AnyOccupied(img) {
      BoxAttained(img);
      var py :| Occupied(img, BoxOf(img).minX, py);
    }
  }

  /** The box never leaves the image: the stride walk only reads pixels of the buffer. */
  lemma BoxWithinImage(img: Image)
    requires img.WellFormed()
    ensures var b := BoxOf(img);
      0 <= b.minX && b.maxX <= img.width && 0 <= b.minY && b.maxY <= img.height
  {
    BoxIsTight(img);
    if AnyOccupied(img) {
      BoxAttained(img);
    }
  }

  // ---------------------------------------------------------------------
  // The stride-2 walk

  ghost predicate InImage(img: Image, b: Bounds)
  {
    0 <= b.minX && b.maxX <= img.width && 0 <= b.minY && b.maxY <= img.height
  }

  /** Occupied samples of row y at x, x + 2, ... below maxX, left to right. */
  function RowCells(img: Image, y: int, x: int, maxX: int): seq<(int, int)>
    requires img.WellFormed() && 0 <= y < img.height && 0 <= x && maxX <= img.width
    decreases maxX - x
  {
    if x >= maxX then []
    else (if AlphaAt(img, x, y) > 0 then [(x, y)] else []) + RowCells(img, y, x + Stride, maxX)
  }

  /** Occupied samples of rows y, y + 2, ... below b.maxY, row by row. */
  function RowsFrom(img: Image, b: Bounds, y: int): seq<(int, int)>
    requires img.WellFormed() && InImage(img, b) && 0 <= y
    decreases b.maxY - y
  {
    if y >= b.maxY then []
    else RowCells(img, y, b.minX, b.maxX) + RowsFrom(img, b, y + Stride)
  }

  /** The occupied samples of the half-open box [minX, maxX) x [minY, maxY), in visiting order. */
  function Samples(img: Image, b: Bounds): seq<(int, int)>
    requires img.WellFormed() && InImage(img, b)
  {
    RowsFrom(img, b, b.minY)
  }

  /** `offsetX = fx - (maxX - minX) / 2`, `offsetY = fy - (maxY - minY) / 2`. */
  function Offset(b: Bounds, fx: real, fy: real): Point
  {
    Point(fx - (b.maxX - b.minX) as real / 2.0, fy - (b.maxY - b.minY) as real / 2.0)
  }

  /** Where sample c is emitted: the offset plus c's position relative to the box corner. */
  function Place(b: Bounds, off: Point, c: (int, int)): Point
  {
    Point(off.x + (c.0 - b.minX) as real, off.y + (c.1 - b.minY) as real)
  }

  function Places(b: Bounds, off: Point, cs: seq<(int, int)>): seq<Point>
  {
    seq(|cs|, i requires 0 <= i < |cs| => Place(b, off, cs[i]))
  }

  lemma AppendPlaces(b: Bounds, off: Point, cs: seq<(int, int)>, ds: seq<(int, int)>)
    ensures Places(b, off, cs + ds) == Places(b, off, cs) + Places(b, off, ds)
  {
  }

  /** The emission points of box b for a detonation at (fx, fy). */
  function Emission(img: Image, b: Bounds, fx: real, fy: real): seq<Point>
    requires img.WellFormed() && InImage(img, b)
  {
    Places(b, Offset(b, fx, fy), Samples(img, b))
  }

  /** The emission points of the whole drawing for a detonation at (fx, fy). */
  function EmissionPoints(img: Image, fx: real, fy: real): seq<Point>
    requires img.WellFormed()
  {
    BoxWithinImage(img);
    Emission(img, BoxOf(img), fx, fy)
  }

  /** The two nested stride-2 loops over the box, emitting one point per occupied sample. */
  method SamplePoints(img: Image, b: Bounds, fx: real, fy: real) returns (pts: seq<Point>)
    requires img.WellFormed() && InImage(img, b)
    ensures pts == Emission(img, b, fx, fy)
  {
    var offsetX := fx - (b.maxX - b.minX) as real / 2.0;
    var offsetY := fy - (b.maxY - b.minY) as real / 2.0;
    ghost var off := Point(offsetX, offsetY);
    ghost var cells: seq<(int, int)> := [];
    pts := [];
    var y := b.minY;
    while y < b.maxY
      invariant b.minY <= y
      invariant cells + RowsFrom(img, b, y) == Samples(img, b)
      invariant pts == Places(b, off, cells)
      decreases b.maxY - y
    {
      ghost var row := RowCells(img, y, b.minX, b.maxX);
      var rowPts := SampleRow(img, b, y, offsetX, offsetY);
      assert cells + RowsFrom(img, b, y) == (cells + row) + RowsFrom(img, b, y + Stride);
      AppendPlaces(b, off, cells, row);
      cells := cells + row;
      pts := pts + rowPts;
      y := y + Stride;
    }
    assert off == Offset(b, fx, fy);
  }

  /** The inner loop: the samples minX, minX + 2, ... below maxX of row y. */
  method SampleRow(img: Image, b: Bounds, y: int, offsetX: real, offsetY: real) returns (pts: seq<Point>)
    requires img.WellFormed() && InImage(img, b) && b.minY <= y < b.maxY
    ensures pts == Places(b, Point(offsetX, offsetY), RowCells(img, y, b.minX, b.maxX))
  {
    ghost var off := Point(offsetX, offsetY);
    ghost var cells: seq<(int, int)> := [];
    pts := [];
    var x := b.minX;
    while x < b.maxX
      invariant b.minX <= x
      invariant cells + RowCells(img, y, x, b.maxX) == RowCells(img, y, b.minX, b.maxX)
      invariant pts == Places(b, off, cells)
      decreases b.maxX - x
    {
      var alpha := AlphaAt(img, x, y);
      if alpha > 0 {
        var adjustedX := offsetX + (x - b.minX) as real;
        var adjustedY := offsetY + (y - b.minY) as real;
        AppendPlaces(b, off, cells, [(x, y)]);
        cells := cells + [(x, y)];
        pts := pts + [Point(adjustedX, adjustedY)];
      }
      x := x + Stride;
    }
  }

  // ---------------------------------------------------------------------
  // What the walk emits

  /** (x, y) is one of the samples (minX + 2i, minY + 2j) of the half-open box. */
  ghost predicate OnGrid(b: Bounds, x: int, y: int)
  {
    b.minX <= x < b.maxX && b.minY <= y < b.maxY && (x - b.minX) % Stride == 0 && (y - b.minY) % Stride == 0
  }

  ghost predicate Distinct<T>(s: seq<T>)
  {
    forall i, j :: 0 <= i < j < |s| ==> s[i] != s[j]
  }

  lemma {:induction false} RowCellsMember(img: Image, y: int, x: int, maxX: int, c: (int, int))
    requires img.WellFormed() && 0 <= y < img.height && 0 <= x && maxX <= img.width
    ensures c in RowCells(img, y, x, maxX) <==>
      c.1 == y && x <= c.0 < maxX && (c.0 - x) % Stride == 0 && Occupied(img, c.0, c.1)
    decreases maxX - x
  {
    if x < maxX {
      RowCellsMember(img, y, x + Stride, maxX, c);
      assert (c.0 - x) % Stride == (c.0 - (x + Stride)) % Stride;
    }
  }

  lemma {:induction false} RowCellsDistinct(img: Image, y: int, x: int, maxX: int)
    requires img.WellFormed() && 0 <= y < img.height && 0 <= x && maxX <= img.width
    ensures Distinct(RowCells(img, y, x, maxX))
    decreases maxX - x
  {
    if x < maxX {
      RowCellsDistinct(img, y, x + Stride, maxX);
      var head := if AlphaAt(img, x, y) > 0 then [(x, y)] else [];
      var tail := RowCells(img, y, x + Stride, maxX);
      assert RowCells(img, y, x, maxX) == head + tail;
      forall i, j | 0 <= i < j < |head + tail| ensures (head + tail)[i] != (head + tail)[j] {
        if i < |head| {
          RowCellsMember(img, y, x + Stride, maxX, (head + tail)[j]);
        }
      }
    }
  }

  lemma {:induction false} RowsFromMember(img: Image, b: Bounds, y: int, c: (int, int))
    requires img.WellFormed() && InImage(img, b) && 0 <= y
    ensures c in RowsFrom(img, b, y) <==>
      b.minX <= c.0 < b.maxX && (c.0 - b.minX) % Stride == 0 &&
      y <= c.1 < b.maxY && (c.1 - y) % Stride == 0 && Occupied(img, c.0, c.1)
    decreases b.maxY - y
  {
    if y < b.maxY {
      RowsFromMember(img, b, y + Stride, c);
      RowCellsMember(img, y, b.minX, b.maxX, c);
      assert (c.1 - y) % Stride == (c.1 - (y + Stride)) % Stride;
    }
  }

  lemma {:induction false} RowsFromDistinct(img: Image, b: Bounds, y: int)
    requires img.WellFormed() && InImage(img, b) && 0 <= y
    ensures Distinct(RowsFrom(img, b, y))
    decreases b.maxY - y
  {
    if y < b.maxY {
      RowsFromDistinct(img, b, y + Stride);
      RowCellsDistinct(img, y, b.minX, b.maxX);
      var row := RowCells(img, y, b.minX, b.maxX);
      var rest := RowsFrom(img, b, y + Stride);
      assert RowsFrom(img, b, y) == row + rest;
      forall i, j | 0 <= i < j < |row + rest| ensures (row + rest)[i] != (row + rest)[j] {
        if i < |row| && j >= |row| {
          RowCellsMember(img, y, b.minX, b.maxX, (row + rest)[i]);
          RowsFromMember(img, b, y + Stride, (row + rest)[j]);
        }
      }
    }
  }

  /** A cell is emitted if and only if it is an occupied sample of the half-open box. */
  lemma SamplesExactly(img: Image, b: Bounds)
    requires img.WellFormed() && InImage(img, b)
    ensures forall c :: c in Samples(img, b) <==> OnGrid(b, c.0, c.1) && Occupied(img, c.0, c.1)
    ensures Distinct(Samples(img, b))
  {
    forall c: (int, int) ensures c in Samples(img, b) <==> OnGrid(b, c.0, c.1) && Occupied(img, c.0, c.1) {
      RowsFromMember(img, b, b.minY, c);
    }
    RowsFromDistinct(img, b, b.minY);
  }

  /** The occupied samples of the half-open box, as a set. */
  ghost function OccupiedSamples(img: Image, b: Bounds): set<(int, int)>
    requires img.WellFormed()
  {
    set x: int, y: int | b.minX <= x < b.maxX && b.minY <= y < b.maxY && OnGrid(b, x, y) && Occupied(img, x, y) :: (x, y)
  }

  lemma {:induction false} DistinctCardinality<T>(s: seq<T>)
    requires Distinct(s)
    ensures |set x | x in s| == |s|
  {
    if s != [] {
      var t := s[1..];
      assert Distinct(t) by {
        forall i, j | 0 <= i < j < |t| ensures t[i] != t[j] {
          assert t[i] == s[i + 1] && t[j] == s[j + 1];
        }
      }
      DistinctCardinality(t);
      assert s[0] !in t by {
        forall k | 0 <= k < |t| ensures t[k] != s[0] {
          assert t[k] == s[k + 1];
        }
      }
      assert (set x | x in s) == {s[0]} + (set x | x in t) by {
        assert s == [s[0]] + t;
      }
    }
  }

  /** The walk emits one point per occupied sample of the box, each exactly once. */
  lemma SampleCount(img: Image, b: Bounds)
    requires img.WellFormed() && InImage(img, b)
    ensures |Samples(img, b)| == |OccupiedSamples(img, b)|
  {
    SamplesExactly(img, b);
    DistinctCardinality(Samples(img, b));
    assert (set c | c in Samples(img, b)) == OccupiedSamples(img, b);
  }

  /** A box of zero width or zero height, after the strict loop bounds, has no samples. */
  lemma DegenerateBoxSamplesNothing(img: Image, b: Bounds)
    requires img.WellFormed() && InImage(img, b)
    requires b.maxX <= b.minX || b.maxY <= b.minY
    ensures Samples(img, b) == []
  {
    SampleCount(img, b);
    assert OccupiedSamples(img, b) == {};
  }

  /** Nothing drawn: the box keeps its initial values and the shape branch emits nothing. */
  lemma NothingDrawnEmitsNothing(img: Image, fx: real, fy: real)
    requires img.WellFormed() && !AnyOccupied(img)
    ensures BoxOf(img) == Bounds(img.width, 0, img.height, 0)
    ensures EmissionPoints(img, fx, fy) == []
  {
    BoxEmptyIff(img);
    BoxWithinImage(img);
    DegenerateBoxSamplesNothing(img, BoxOf(img));
  }

  /** A drawing that fits in one row or one column emits nothing, although something is drawn. */
  lemma SingleLineEmitsNothing(img: Image, fx: real, fy: real)
    requires img.WellFormed()
    requires BoxOf(img).minX == BoxOf(img).maxX || BoxOf(img).minY == BoxOf(img).maxY
    ensures EmissionPoints(img, fx, fy) == []
  {
    BoxWithinImage(img);
    DegenerateBoxSamplesNothing(img, BoxOf(img));
  }

  /** One drawn pixel on a 1 x 1 canvas: shape mode is on, yet no point is emitted. */
  lemma OneDotEmitsNothing(fx: real, fy: real)
    ensures Image(1, 1, [0, 0, 0, 255]).WellFormed()
    ensures AnyOccupied(Image(1, 1, [0, 0, 0, 255]))
    ensures EmissionPoints(Image(1, 1, [0, 0, 0, 255]), fx, fy) == []
  {
    var img := Image(1, 1, [0, 0, 0, 255]);
    assert Occupied(img, 0, 0);
    BoxIsTight(img);
    BoxAttained(img);
    var py :| Occupied(img, BoxOf(img).minX, py);
    var qy :| Occupied(img, BoxOf(img).maxX, qy);
    SingleLineEmitsNothing(img, fx, fy);
  }

  /**
   * Every emitted point lies in the box of width `maxX - minX` and height
   * `maxY - minY` centred on the detonation point (half-open on the far side),
   * at an even distance from the box's left and top edges.
   */
  lemma EmissionCentred(img: Image, b: Bounds, fx: real, fy: real, p: Point)
    requires img.WellFormed() && InImage(img, b)
    requires p in Emission(img, b, fx, fy)
    ensures fx - (b.maxX - b.minX) as real / 2.0 <= p.x < fx + (b.maxX - b.minX) as real / 2.0
    ensures fy - (b.maxY - b.minY) as real / 2.0 <= p.y < fy + (b.maxY - b.minY) as real / 2.0
    ensures exists c :: c in Samples(img, b) && p == Place(b, Offset(b, fx, fy), c) && OnGrid(b, c.0, c.1)
  {
    SamplesExactly(img, b);
    var ps := Emission(img, b, fx, fy);
    var i :| 0 <= i < |ps| && ps[i] == p;
    var c := Samples(img, b)[i];
    assert c in Samples(img, b);
  }
}
