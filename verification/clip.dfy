/** The geometry at the heart of `blend`: does an overlay placed at (x, y)
    touch a w1 x h1 canvas, and which overlay-local columns and rows land on it.

    The four loop bounds are derived one axis at a time, exactly as the
    library does: start at 0 and move right by the part hanging off the left
    edge; end at the overlay size and move left by the part hanging off the
    right edge.
 */
module Clip {
  import opened Raster

  /** Overlay-local iteration bounds: columns [startX, endX), rows [startY, endY). */
  datatype Region = Region(startX: int, endX: int, startY: int, endY: int)

  /** Overlay-local coordinate `i` lies inside an overlay of size `inner` placed
      at `offset`, and lands on a canvas of size `outer`. */
  predicate Visible(i: int, offset: int, inner: int, outer: int) {
    0 <= i < inner && 0 <= offset + i < outer
  }

  /** The library's rejection test: the overlay misses the canvas on some side. */
  predicate OffCanvas(w1: int, h1: int, w2: int, h2: int, x: int, y: int) {
    x >= w1 || x + w2 <= 0 || y >= h1 || y + h2 <= 0
  }

  /** First visible overlay-local coordinate on one axis. */
  function LoopStart(offset: int): int {
    var canvasStart := offset;
    if canvasStart < 0 then 0 + (0 - canvasStart) else 0
  }

  /** One past the last visible overlay-local coordinate on one axis. */
  function LoopEnd(offset: int, inner: int, outer: int): int {
    var canvasEnd := offset + inner;
    if canvasEnd > outer then inner - (canvasEnd - outer) else inner
  }

  /** On one axis, the bounds enclose exactly the visible coordinates. */
  lemma AxisBounds(offset: int, inner: int, outer: int)
    ensures LoopStart(offset) == Max(0, -offset)
    ensures LoopEnd(offset, inner, outer) == inner - Max(0, offset + inner - outer)
    ensures 0 <= inner && 0 <= outer && offset < outer && offset + inner > 0 ==>
              0 <= LoopStart(offset) <= LoopEnd(offset, inner, outer) <= inner &&
              forall i :: LoopStart(offset) <= i < LoopEnd(offset, inner, outer) <==> Visible(i, offset, inner, outer)
  {
  }

  /** Clips an overlay of size w2 x h2 placed at (x, y) against a w1 x h1 canvas.
      Fails with `BlendingImageFallsOutsideCanvas` exactly when the library's
      test rejects the placement; otherwise returns the loop bounds, which for
      non-negative sizes enclose exactly the overlay pixels that land on the canvas. */
  function ClipOverlay(w1: int, h1: int, w2: int, h2: int, x: int, y: int): (r: Result<Region>)
    ensures r.Err? <==> (x >= w1 || x + w2 <= 0 || y >= h1 || y + h2 <= 0)
    ensures r.Err? ==> r.error == BlendingImageFallsOutsideCanvas
    ensures r.Ok? ==> r.value.startX == Max(0, -x) && r.value.endX == w2 - Max(0, x + w2 - w1)
    ensures r.Ok? ==> r.value.startY == Max(0, -y) && r.value.endY == h2 - Max(0, y + h2 - h1)
    ensures r.Ok? && 0 <= w1 && 0 <= h1 && 0 <= w2 && 0 <= h2 ==>
              0 <= r.value.startX <= r.value.endX <= w2 && 0 <= r.value.startY <= r.value.endY <= h2
    ensures r.Ok? && 0 <= w1 && 0 <= h1 && 0 <= w2 && 0 <= h2 ==>
              (forall i :: r.value.startX <= i < r.value.endX <==> Visible(i, x, w2, w1)) &&
              (forall j :: r.value.startY <= j < r.value.endY <==> Visible(j, y, h2, h1))
  {
    if OffCanvas(w1, h1, w2, h2, x, y) then
      Err(BlendingImageFallsOutsideCanvas)
    else
      AxisBounds(x, w2, w1);
      AxisBounds(y, h2, h1);
      Ok(Region(LoopStart(x), LoopEnd(x, w2, w1), LoopStart(y), LoopEnd(y, h2, h1)))
  }

  /** For non-empty images the rejection test is exact: clipping fails if and
      only if no overlay pixel lands on the canvas. (An empty overlay or canvas
      can pass the test with nothing visible; see `ClipEmptyOverlay`.) */
  lemma ClipFailsIffNothingVisible(w1: int, h1: int, w2: int, h2: int, x: int, y: int)
    requires 0 < w1 && 0 < h1 && 0 < w2 && 0 < h2
    ensures ClipOverlay(w1, h1, w2, h2, x, y).Err? <==>
              !exists i, j :: Visible(i, x, w2, w1) && Visible(j, y, h2, h1)
  {
    if !OffCanvas(w1, h1, w2, h2, x, y) {
      var i, j := Max(0, -x), Max(0, -y);
      assert Visible(i, x, w2, w1) && Visible(j, y, h2, h1);
    }
  }

  /** Every position the bounds let a consumer visit lies on the canvas and
      inside the overlay. */
  lemma ClipSafe(w1: int, h1: int, w2: int, h2: int, x: int, y: int, i: int, j: int)
    requires 0 <= w1 && 0 <= h1 && 0 <= w2 && 0 <= h2
    requires ClipOverlay(w1, h1, w2, h2, x, y).Ok?
    requires var g := ClipOverlay(w1, h1, w2, h2, x, y).value;
             g.startX <= i < g.endX && g.startY <= j < g.endY
    ensures 0 <= i < w2 && 0 <= j < h2
    ensures 0 <= x + i < w1 && 0 <= y + j < h1
  {
  }

  /** An overlay placed entirely inside the canvas is visited in full. */
  lemma ClipInside(w1: int, h1: int, w2: int, h2: int, x: int, y: int)
    requires 0 < w2 && 0 < h2
    requires 0 <= x && x + w2 <= w1 && 0 <= y && y + h2 <= h1
    ensures ClipOverlay(w1, h1, w2, h2, x, y) == Ok(Region(0, w2, 0, h2))
  {
  }

  /** Worked placements on a 100 x 100 canvas with a 20 x 20 overlay, and an
      overlay pushed past the right edge of a 50 x 50 canvas. */
  lemma ClipExamples()
    ensures ClipOverlay(100, 100, 20, 20, 40, 40) == Ok(Region(0, 20, 0, 20))
    ensures ClipOverlay(100, 100, 20, 20, -5, -5) == Ok(Region(5, 20, 5, 20))
    ensures ClipOverlay(100, 100, 20, 20, 90, 95) == Ok(Region(0, 10, 0, 5))
    ensures ClipOverlay(50, 50, 20, 20, 60, 0) == Err(BlendingImageFallsOutsideCanvas)
  {
  }

  /** A zero-width overlay to the right of the canvas origin passes the
      rejection test although none of its pixels lands on the canvas; the
      bounds it gets describe an empty column range. */
  lemma ClipEmptyOverlay()
    ensures ClipOverlay(10, 10, 0, 5, 3, 3) == Ok(Region(0, 0, 0, 5))
    ensures !exists i :: Visible(i, 3, 0, 10)
  {
  }
}
