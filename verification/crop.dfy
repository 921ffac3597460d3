/** `crop`: cut a sub-rectangle out of an image.

    The resolved placement of the crop rectangle is pulled back to the origin
    when negative, the bottom-right corner is truncated to the image, a blank
    image of the clamped size is allocated and every pixel is copied into it
    from the corresponding source pixel; finally the image's width, height
    and pixels are replaced together. Placement resolution is not part of this
    model: the resolved placement (or its failure) is a parameter.
 */
module Crop {
  import opened Raster

  /** The clamped rectangle actually copied: its top-left corner in the
      source and its size. */
  datatype CropBox = CropBox(left: int, top: int, width: int, height: int)

  /** The box lies inside `src` and has a non-negative size. */
  predicate Fits(src: Image, b: CropBox) {
    0 <= b.left && 0 <= b.top && 0 <= b.width && 0 <= b.height &&
    b.left + b.width <= src.width && b.top + b.height <= src.height
  }

  /** What the library demands of a crop request: non-negative crop sizes and a
      clamped corner that does not start past the image. */
  predicate CropRequestOk(src: Image, cropWidth: int, cropHeight: int, p: Point) {
    0 <= cropWidth && 0 <= cropHeight &&
    Max(0, p.x) <= src.width && Max(0, p.y) <= src.height
  }

  /** Clamps the requested rectangle at `p` against the image, for any request.
      The box is only ever shortened where it meets the image's right or
      bottom edge, and for a request `Crop` accepts it never leaves the image. */
  function ClampBox(src: Image, cropWidth: int, cropHeight: int, p: Point): (b: CropBox)
    ensures CropRequestOk(src, cropWidth, cropHeight, p) && 0 <= src.width && 0 <= src.height ==> Fits(src, b)
    ensures b.left == Max(0, p.x) && b.top == Max(0, p.y)
    ensures b.width == Min(b.left + cropWidth, src.width) - b.left
    ensures b.height == Min(b.top + cropHeight, src.height) - b.top
    ensures b.width <= cropWidth && (b.width == cropWidth || b.left + b.width == src.width)
    ensures b.height <= cropHeight && (b.height == cropHeight || b.top + b.height == src.height)
  {
    var left := if p.x < 0 then 0 else p.x;
    var top := if p.y < 0 then 0 else p.y;
    var bottom := if top + cropHeight > src.height then src.height else top + cropHeight;
    var right := if left + cropWidth > src.width then src.width else left + cropWidth;
    CropBox(left, top, right - left, bottom - top)
  }

  /** `dst` is the part of `src` under box `b`, pixel for pixel. */
  predicate IsCropOf(dst: Image, src: Image, b: CropBox)
    requires src.Valid() && Fits(src, b)
  {
    dst.Valid() && dst.width == b.width && dst.height == b.height &&
    forall i, j :: 0 <= i < dst.width && 0 <= j < dst.height ==>
      PixelAt(dst, i, j) == PixelAt(src, b.left + i, b.top + j)
  }

  lemma RowSliceInRange(src: Image, b: CropBox, row: int)
    requires src.Valid() && Fits(src, b) && 0 <= row < b.height
    ensures 0 <= (b.top + row) * src.width + b.left
    ensures (b.top + row) * src.width + b.left + b.width <= |src.pixels|
  {
    MulMonotone(0, b.top + row, src.width);
    MulMonotone(b.top + row + 1, src.height, src.width);
  }

  /** The first `rows` rows of the box, each row one contiguous slice of the
      source buffer. */
  function CropRows(src: Image, b: CropBox, rows: int): (dst: Image)
    requires src.Valid() && Fits(src, b) && 0 <= rows <= b.height
    ensures IsCropOf(dst, src, b.(height := rows))
    decreases rows
  {
    if rows == 0 then
      Image(b.width, 0, [])
    else
      var prev := CropRows(src, b, rows - 1);
      RowSliceInRange(src, b, rows - 1);
      var start := (b.top + rows - 1) * src.width + b.left;
      var dst := Image(b.width, rows, prev.pixels + src.pixels[start..start + b.width]);
      AppendRow(src, b, rows, prev, dst);
      dst
  }

  lemma AppendRow(src: Image, b: CropBox, rows: int, prev: Image, dst: Image)
    requires src.Valid() && Fits(src, b) && 0 < rows <= b.height
    requires IsCropOf(prev, src, b.(height := rows - 1))
    requires 0 <= (b.top + rows - 1) * src.width + b.left
    requires (b.top + rows - 1) * src.width + b.left + b.width <= |src.pixels|
    requires var start := (b.top + rows - 1) * src.width + b.left;
             dst == Image(b.width, rows, prev.pixels + src.pixels[start..start + b.width])
    ensures IsCropOf(dst, src, b.(height := rows))
  {
    var w := b.width;
    assert |dst.pixels| == (rows - 1) * w + w == rows * w;
    forall i, j | 0 <= i < dst.width && 0 <= j < dst.height
      ensures PixelAt(dst, i, j) == PixelAt(src, b.left + i, b.top + j)
    {
      if j < rows - 1 {
        EarlierRow(src, b, rows, prev, dst, i, j);
      } else {
        LastRow(src, b, rows, prev, dst, i);
      }
    }
  }

  /** A pixel of an earlier row is the one already copied. */
  lemma EarlierRow(src: Image, b: CropBox, rows: int, prev: Image, dst: Image, i: int, j: int)
    requires src.Valid() && Fits(src, b) && 0 < rows <= b.height
    requires IsCropOf(prev, src, b.(height := rows - 1))
    requires dst.Valid() && dst.width == b.width && dst.height == rows
    requires dst.pixels[..|prev.pixels|] == prev.pixels
    requires 0 <= i < b.width && 0 <= j < rows - 1
    ensures PixelAt(dst, i, j) == PixelAt(src, b.left + i, b.top + j)
  {
    assert PixelIndex(dst, i, j) == PixelIndex(prev, i, j);
    assert PixelAt(dst, i, j) == PixelAt(prev, i, j);
  }

  /** A pixel of the last row comes from the appended source slice. */
  lemma LastRow(src: Image, b: CropBox, rows: int, prev: Image, dst: Image, i: int)
    requires src.Valid() && Fits(src, b) && 0 < rows <= b.height
    requires |prev.pixels| == (rows - 1) * b.width
    requires 0 <= (b.top + rows - 1) * src.width + b.left
    requires (b.top + rows - 1) * src.width + b.left + b.width <= |src.pixels|
    requires var start := (b.top + rows - 1) * src.width + b.left;
             dst == Image(b.width, rows, prev.pixels + src.pixels[start..start + b.width])
    requires dst.Valid() && 0 <= i < b.width
    ensures PixelAt(dst, i, rows - 1) == PixelAt(src, b.left + i, b.top + rows - 1)
  {
  }

  /** Crops `src` to the rectangle of the given size at the resolved placement.
      A failed placement is returned unchanged; otherwise the result is exactly
      the clamped box's part of `src`, so that every read stays inside `src`. */
  function Crop(src: Image, cropWidth: int, cropHeight: int, placement: Result<Point>): (r: Result<Image>)
    requires src.Valid()
    requires placement.Ok? ==> CropRequestOk(src, cropWidth, cropHeight, placement.value)
    ensures placement.Err? ==> r == Err(placement.error)
    ensures placement.Ok? ==> r.Ok? && IsCropOf(r.value, src, ClampBox(src, cropWidth, cropHeight, placement.value))
  {
    var p :- placement;
    var b := ClampBox(src, cropWidth, cropHeight, p);
    Ok(CropRows(src, b, b.height))
  }

  /** The library's copy loop: fill a blank image of the box's size by reading
      each source pixel with `get_pixel` and writing it with `set_pixel`.
      Neither call can fail, and the outcome is the functional crop. */
  method CropLoop(src: Image, cropWidth: int, cropHeight: int, placement: Result<Point>)
    returns (r: Result<Image>)
    requires src.Valid()
    requires placement.Ok? ==> CropRequestOk(src, cropWidth, cropHeight, placement.value)
    ensures placement.Err? ==> r == Err(placement.error)
    ensures placement.Ok? ==> r.Ok? && IsCropOf(r.value, src, ClampBox(src, cropWidth, cropHeight, placement.value))
    ensures r == Crop(src, cropWidth, cropHeight, placement)
  {
    if placement.Err? {
      return Err(placement.error);
    }
    var b := ClampBox(src, cropWidth, cropHeight, placement.value);
    var dest := Blank(b.width, b.height);
    var y := 0;
    while y < dest.height
      invariant 0 <= y <= b.height
      invariant dest.Valid() && dest.width == b.width && dest.height == b.height
      invariant forall i, j :: 0 <= i < b.width && 0 <= j < y ==>
                  PixelAt(dest, i, j) == PixelAt(src, b.left + i, b.top + j)
    {
      var x := 0;
      while x < dest.width
        invariant 0 <= x <= b.width
        invariant dest.Valid() && dest.width == b.width && dest.height == b.height
        invariant forall i, j :: 0 <= i < b.width && 0 <= j < y ==>
                    PixelAt(dest, i, j) == PixelAt(src, b.left + i, b.top + j)
        invariant forall i :: 0 <= i < x ==> PixelAt(dest, i, y) == PixelAt(src, b.left + i, b.top + y)
      {
        var pixel := GetPixel(src, b.left + x, b.top + y);
        var written := SetPixel(dest, x, y, Color(pixel.value.r, pixel.value.g, pixel.value.b, pixel.value.a));
        dest := written.value;
        x := x + 1;
      }
      y := y + 1;
    }
    r := Ok(dest);
    CropAgrees(src, b, dest);
  }

  /** Any image that is the crop of `src` under `b` is the functional crop. */
  lemma CropAgrees(src: Image, b: CropBox, dst: Image)
    requires src.Valid() && Fits(src, b) && IsCropOf(dst, src, b)
    ensures dst == CropRows(src, b, b.height)
  {
    var f := CropRows(src, b, b.height);
    Extensionality(dst, f);
  }

  /** Cropping at the origin to a rectangle at least as large as the image
      leaves it unchanged; in particular cropping to the image's own size. */
  lemma CropCoveringIsIdentity(src: Image, cropWidth: int, cropHeight: int)
    requires src.Valid() && src.width <= cropWidth && src.height <= cropHeight
    ensures Crop(src, cropWidth, cropHeight, Ok(Point(0, 0))) == Ok(src)
  {
    var b := ClampBox(src, cropWidth, cropHeight, Point(0, 0));
    assert b == CropBox(0, 0, src.width, src.height);
    var dst := CropRows(src, b, b.height);
    forall i, j | dst.InBounds(i, j)
      ensures PixelAt(dst, i, j) == PixelAt(src, i, j)
    {
      assert PixelAt(dst, i, j) == PixelAt(src, b.left + i, b.top + j);
    }
    Extensionality(dst, src);
  }

  /** Re-cropping a crop, taken at any accepted placement, to the same size at
      the origin changes nothing. */
  lemma CropIdempotent(src: Image, cropWidth: int, cropHeight: int, p: Point)
    requires src.Valid() && CropRequestOk(src, cropWidth, cropHeight, p)
    ensures var once := Crop(src, cropWidth, cropHeight, Ok(p));
            once.Ok? && Crop(once.value, cropWidth, cropHeight, Ok(Point(0, 0))) == once
  {
    var once := Crop(src, cropWidth, cropHeight, Ok(p));
    CropCoveringIsIdentity(once.value, cropWidth, cropHeight);
  }

  /** Composing two crops at non-negative placements is one crop of the
      original at the summed placement, when the second fits in the first. */
  lemma CropTwice(src: Image, w1: int, h1: int, p1: Point, w2: int, h2: int, p2: Point)
    requires src.Valid() && 0 <= p1.x && 0 <= p1.y && 0 <= p2.x && 0 <= p2.y
    requires 0 <= w2 && 0 <= h2 && p2.x + w2 <= w1 && p2.y + h2 <= h1
    requires p1.x + w1 <= src.width && p1.y + h1 <= src.height
    ensures var once := Crop(src, w1, h1, Ok(p1));
            once.Ok? && Crop(once.value, w2, h2, Ok(p2)) == Crop(src, w2, h2, Ok(Point(p1.x + p2.x, p1.y + p2.y)))
  {
    var once := Crop(src, w1, h1, Ok(p1)).value;
    var twice := Crop(once, w2, h2, Ok(p2)).value;
    var direct := Crop(src, w2, h2, Ok(Point(p1.x + p2.x, p1.y + p2.y))).value;
    Extensionality(twice, direct);
  }
}
