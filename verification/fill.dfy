/** `fill`: paint every pixel of an image with one colour, row by row. */
module Fill {
  import opened Raster

  /** The image with every pixel set to `c` and its size kept. */
  function Fill(img: Image, c: Color): (r: Image)
    requires img.Valid()
    ensures r.Valid() && r.width == img.width && r.height == img.height
    ensures forall x, y :: 0 <= x < r.width && 0 <= y < r.height ==> PixelAt(r, x, y) == c
  {
    img.(pixels := seq(|img.pixels|, _ => c))
  }

  /** The library's nested loop of `set_pixel` calls over rows, then columns.
      No write can fail, and the outcome is `Fill`. */
  method FillLoop(img: Image, c: Color) returns (r: Result<Image>)
    requires img.Valid()
    ensures r.Ok? && r.value.Valid() && r.value.width == img.width && r.value.height == img.height
    ensures forall x, y :: 0 <= x < img.width && 0 <= y < img.height ==> PixelAt(r.value, x, y) == c
    ensures r == Ok(Fill(img, c))
  {
    var src := img;
    var y := 0;
    while y < src.height
      invariant 0 <= y <= img.height
      invariant src.Valid() && src.width == img.width && src.height == img.height
      invariant forall i, j :: 0 <= i < img.width && 0 <= j < y ==> PixelAt(src, i, j) == c
    {
      var x := 0;
      while x < src.width
        invariant 0 <= x <= img.width
        invariant src.Valid() && src.width == img.width && src.height == img.height
        invariant forall i, j :: 0 <= i < img.width && 0 <= j < y ==> PixelAt(src, i, j) == c
        invariant forall i :: 0 <= i < x ==> PixelAt(src, i, y) == c
      {
        var written := SetPixel(src, x, y, c);
        src := written.value;
        x := x + 1;
      }
      y := y + 1;
    }
    Extensionality(src, Fill(img, c));
    r := Ok(src);
  }

  /** Filling twice is filling once with the second colour. */
  lemma FillOverwrites(img: Image, c: Color, d: Color)
    requires img.Valid()
    ensures Fill(Fill(img, c), d) == Fill(img, d)
  {
  }

  /** After a fill, `get_pixel` reads the fill colour, all four channels
      included, at every coordinate inside the image and fails elsewhere. */
  lemma FillThenGet(img: Image, c: Color, x: int, y: int)
    requires img.Valid()
    ensures img.InBounds(x, y) ==> GetPixel(Fill(img, c), x, y) == Ok(c)
    ensures !img.InBounds(x, y) ==> GetPixel(Fill(img, c), x, y) == Err(PixelOutOfBounds(x, y))
  {
  }
}
