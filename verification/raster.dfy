/** Pixel buffers, colours and the error type shared by the editing operations.

    An image is `width` x `height` RGBA pixels stored row-major: pixel (x, y)
    lives at index `y * width + x`. The library's `get_pixel` / `set_pixel`
    are not part of this model; here they are specified to succeed exactly
    for coordinates inside the image and to report `PixelOutOfBounds`
    otherwise.
 */
module Raster {

  /** One 8-bit colour channel. */
  newtype Channel = x: int | 0 <= x < 256

  /** An RGBA colour: four channels, freely copied. */
  datatype Color = Color(r: Channel, g: Channel, b: Channel, a: Channel)

  /** The colour a freshly allocated blank image holds. */
  const BlankColor := Color(0, 0, 0, 0)

  /** The errors the editing operations can report. The resize error keeps
      the library's own spelling, `InvalidResiveMode`. */
  datatype RasterError =
    | BlendingImageFallsOutsideCanvas
    | InvalidBlendMode(blendMode: string)
    | InvalidResiveMode(resizeMode: string)
    | PixelOutOfBounds(px: int, py: int)

  /** The library's result type: a value, or an error that is propagated. */
  datatype Result<+T> = Ok(value: T) | Err(error: RasterError) {
    predicate IsFailure() { Err? }

    function PropagateFailure<U>(): Result<U>
      requires Err?
    {
      Err(error)
    }

    function Extract(): T
      requires Ok?
    {
      value
    }
  }

  /** A resolved placement: the top-left corner of one rectangle in the
      coordinate system of another. */
  datatype Point = Point(x: int, y: int)

  function Max(a: int, b: int): int { if a < b then b else a }

  function Min(a: int, b: int): int { if a < b then a else b }

  /** An image: its dimensions and its row-major pixels. */
  datatype Image = Image(width: int, height: int, pixels: seq<Color>) {

    /** The buffer holds exactly one pixel per coordinate. */
    predicate Valid() {
      0 <= width && 0 <= height && |pixels| == width * height
    }

    predicate InBounds(x: int, y: int) {
      0 <= x < width && 0 <= y < height
    }
  }

  lemma MulMonotone(a: int, b: int, c: int)
    requires a <= b && 0 <= c
    ensures a * c <= b * c
  {
  }

  /** Row-major indices of in-range coordinates stay inside the buffer. */
  lemma IndexInRange(w: int, h: int, x: int, y: int)
    requires 0 <= x < w && 0 <= y < h
    ensures 0 <= y * w + x < w * h
  {
    MulMonotone(0, y, w);
    MulMonotone(y + 1, h, w);
  }

  /** Distinct coordinates have distinct row-major indices. */
  lemma IndexInjective(w: int, x: int, y: int, x': int, y': int)
    requires 0 <= x < w && 0 <= x' < w && 0 <= y && 0 <= y'
    requires y * w + x == y' * w + x'
    ensures x == x' && y == y'
  {
    if y < y' {
      MulMonotone(y + 1, y', w);
      assert false;
    } else if y' < y {
      MulMonotone(y' + 1, y, w);
      assert false;
    }
  }

  /** The buffer index of pixel (x, y). */
  function PixelIndex(img: Image, x: int, y: int): (k: nat)
    requires img.Valid() && img.InBounds(x, y)
    ensures k < |img.pixels|
  {
    IndexInRange(img.width, img.height, x, y);
    y * img.width + x
  }

  /** The colour at (x, y) of a valid image, for in-range coordinates. */
  function PixelAt(img: Image, x: int, y: int): Color
    requires img.Valid() && img.InBounds(x, y)
  {
    img.pixels[PixelIndex(img, x, y)]
  }

  /** Reads one pixel; specified to fail exactly outside the image. */
  function GetPixel(img: Image, x: int, y: int): (r: Result<Color>)
    requires img.Valid()
    ensures r.Ok? <==> img.InBounds(x, y)
    ensures r.Ok? ==> r.value == PixelAt(img, x, y)
    ensures r.Err? ==> r.error == PixelOutOfBounds(x, y)
  {
    if img.InBounds(x, y) then Ok(PixelAt(img, x, y)) else Err(PixelOutOfBounds(x, y))
  }

  /** Overwrites one pixel; specified to fail exactly outside the image. On
      success the dimensions are kept, (x, y) holds `c` and every other pixel
      is as before. */
  function SetPixel(img: Image, x: int, y: int, c: Color): (r: Result<Image>)
    requires img.Valid()
    ensures r.Ok? <==> img.InBounds(x, y)
    ensures r.Err? ==> r.error == PixelOutOfBounds(x, y)
    ensures r.Ok? ==> r.value.Valid() && r.value.width == img.width && r.value.height == img.height
    ensures r.Ok? ==> PixelAt(r.value, x, y) == c
    ensures r.Ok? ==> forall i, j :: img.InBounds(i, j) && (i != x || j != y) ==>
                        PixelAt(r.value, i, j) == PixelAt(img, i, j)
  {
    if img.InBounds(x, y) then
      var img' := img.(pixels := img.pixels[PixelIndex(img, x, y) := c]);
      WriteFrame(img, x, y, c, img');
      Ok(img')
    else
      Err(PixelOutOfBounds(x, y))
  }

  lemma WriteFrame(img: Image, x: int, y: int, c: Color, img': Image)
    requires img.Valid() && img.InBounds(x, y)
    requires img' == img.(pixels := img.pixels[PixelIndex(img, x, y) := c])
    ensures img'.Valid() && PixelAt(img', x, y) == c
    ensures forall i, j :: img.InBounds(i, j) && (i != x || j != y) ==>
              PixelAt(img', i, j) == PixelAt(img, i, j)
  {
    forall i, j | img.InBounds(i, j) && (i != x || j != y)
      ensures PixelAt(img', i, j) == PixelAt(img, i, j)
    {
      if PixelIndex(img, i, j) == PixelIndex(img, x, y) {
        IndexInjective(img.width, i, j, x, y);
      }
    }
  }

  /** A freshly allocated image of the given size. */
  function Blank(w: int, h: int): (r: Image)
    requires 0 <= w && 0 <= h
    ensures r.Valid() && r.width == w && r.height == h
  {
    MulMonotone(0, h, w);
    Image(w, h, seq(w * h, _ => BlankColor))
  }

  /** Two valid images of the same size that agree on every pixel are equal. */
  lemma {:induction false} Extensionality(a: Image, b: Image)
    requires a.Valid() && b.Valid()
    requires a.width == b.width && a.height == b.height
    requires forall x, y :: a.InBounds(x, y) ==> PixelAt(a, x, y) == PixelAt(b, x, y)
    ensures a == b
  {
    var w, h := a.width, a.height;
    forall k | 0 <= k < |a.pixels|
      ensures a.pixels[k] == b.pixels[k]
    {
      assert 0 < w;
      var x, y := k % w, k / w;
      assert k == y * w + x;
      if h <= y {
        MulMonotone(h, y, w);
        assert false;
      }
      assert PixelIndex(a, x, y) == k;
      assert PixelAt(a, x, y) == PixelAt(b, x, y);
    }
    assert a.pixels == b.pixels;
  }
}
