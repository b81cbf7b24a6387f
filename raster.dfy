/**
 * The paint canvas as the page reads it back: a row-major RGBA byte buffer
 * of `width * height` pixels, four bytes per pixel, alpha last; and the Save
 * button's scan of that buffer for drawn pixels.
 */
module Raster {

  /** One element of the image buffer (a clamped unsigned byte). */
  type Byte = b: int | 0 <= b < 256

  datatype Image = Image(width: nat, height: nat, data: seq<Byte>) {
    /** The buffer holds exactly four bytes for every pixel. */
    predicate WellFormed() { |data| == 4 * width * height }
  }

  /** An image whose buffer matches its size, as the canvas always returns. */
  type Paint = img: Image | img.WellFormed() witness Image(0, 0, [])

  /** Offset of the first byte of pixel (x, y): `(y * width + x) * 4`. */
  function PixelIndex(width: nat, x: nat, y: nat): nat
  {
    (y * width + x) * 4
  }

  lemma MulMonotone(a: nat, b: nat, c: nat)
    requires a <= b
    ensures a * c <= b * c
  {
  }

  /** The alpha byte of every pixel of the image lies inside the buffer. */
  lemma AlphaInBuffer(img: Image, x: nat, y: nat)
    requires img.WellFormed() && x < img.width && y < img.height
    ensures PixelIndex(img.width, x, y) + 3 < |img.data|
  {
    MulMonotone(y + 1, img.height, img.width);
  }

  /** The alpha byte of pixel (x, y). */
  function AlphaAt(img: Image, x: int, y: int): Byte
    requires img.WellFormed() && 0 <= x < img.width && 0 <= y < img.height
  {
    AlphaInBuffer(img, x, y);
    img.data[PixelIndex(img.width, x, y) + 3]
  }

  /** Pixel (x, y) exists and something has been drawn on it. */
  predicate Occupied(img: Image, x: int, y: int)
    requires img.WellFormed()
  {
    0 <= x < img.width && 0 <= y < img.height && AlphaAt(img, x, y) > 0
  }

  ghost predicate AnyOccupied(img: Image)
    requires img.WellFormed()
  {
    exists x, y :: Occupied(img, x, y)
  }

  /** Byte i of the buffer is an alpha byte (index 3 modulo 4) and is positive. */
  predicate DrawnAt(data: seq<Byte>, i: int)
  {
    0 <= i < |data| && i % 4 == 3 && data[i] > 0
  }

  /**
   * The Save button's scan: walk the alpha bytes 3, 7, 11, ... and stop at the
   * first positive one.
   */
  method HasDrawnPixels(data: seq<Byte>) returns (found: bool)
    ensures found <==> exists i :: DrawnAt(data, i)
  {
    found := false;
    var i := 3;
    while i < |data|
      invariant 3 <= i && i % 4 == 3
      invariant forall j :: 0 <= j < i ==> !DrawnAt(data, j)
    {
      if data[i] > 0 {
        assert DrawnAt(data, i);
        found := true;
        break;
      }
      i := i + 4;
    }
    assert !found ==> forall j :: !DrawnAt(data, j);
  }

  /** A positive alpha byte at index i belongs to pixel i / 4, counted row by row. */
  lemma DrawnIsOccupied(img: Image, i: int)
    requires img.WellFormed() && DrawnAt(img.data, i)
    ensures img.width > 0 && Occupied(img, (i / 4) % img.width, (i / 4) / img.width)
  {
    var w := img.width;
    var p := i / 4;
    assert i == 4 * p + 3;
    assert w > 0;
    var x, y := p % w, p / w;
    assert p == y * w + x;
    if y >= img.height {
      MulMonotone(img.height, y, w);
      assert false;
    }
    assert PixelIndex(w, x, y) + 3 == i;
  }

  /**
   * On a well-formed image, the bytes the Save scan looks at are exactly the
   * alpha channels of the pixels: the scan finds a positive byte if and only
   * if some pixel is occupied.
   */
  lemma DrawnIffOccupied(img: Image)
    requires img.WellFormed()
    ensures (exists i :: DrawnAt(img.data, i)) <==> AnyOccupied(img)
  {
    if i :| DrawnAt(img.data, i) {
      DrawnIsOccupied(img, i);
    }
    if x, y :| Occupied(img, x, y) {
      var i := PixelIndex(img.width, x, y) + 3;
      AlphaInBuffer(img, x, y);
      assert DrawnAt(img.data, i);
    }
  }
}
