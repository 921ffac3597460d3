/** `blend`: composite an overlay onto a canvas.

    The steps come in this order: saturate the opacity into [0, 1], resolve
    the overlay's placement, reject an overlay that misses the canvas, derive
    the loop bounds, then match the blend-mode name case-insensitively and hand
    everything to the per-mode blend operation. Placement resolution and the
    per-mode operations are not part of this model: the resolved placement
    (or its failure) and the operation are parameters.
 */
module Blend {
  import opened Raster
  import opened Clip

  datatype BlendMode = Normal | Difference | Multiply | Overlay | Screen

  /** The lower-case name each mode is selected by. */
  function ModeName(m: BlendMode): string {
    match m
    case Normal => "normal"
    case Difference => "difference"
    case Multiply => "multiply"
    case Overlay => "overlay"
    case Screen => "screen"
  }

  predicate IsUpper(c: char) { 'A' <= c <= 'Z' }

  /** Lower-cases one ASCII letter; every other character is kept. */
  function LowerChar(c: char): (d: char)
    ensures !IsUpper(d)
    ensures IsUpper(c) ==> d as int == c as int + 32
    ensures !IsUpper(c) ==> d == c
  {
    if IsUpper(c) then (c as int + 32) as char else c
  }

  /** Lower-cases a name character by character. */
  function ToLower(s: string): (t: string)
    ensures |t| == |s|
    ensures forall k :: 0 <= k < |s| ==> t[k] == LowerChar(s[k])
  {
    if s == [] then [] else [LowerChar(s[0])] + ToLower(s[1..])
  }

  /** Lower-casing twice is lower-casing once. */
  lemma ToLowerIdempotent(s: string)
    ensures ToLower(ToLower(s)) == ToLower(s)
  {
  }

  /** Names are matched after lower-casing; an unknown name is reported in
      its lower-cased form. */
  function ParseBlendMode(name: string): (r: Result<BlendMode>)
    ensures r.Ok? ==> ModeName(r.value) == ToLower(name)
    ensures r.Err? ==> r.error == InvalidBlendMode(ToLower(name))
    ensures r.Err? ==> forall m :: ModeName(m) != ToLower(name)
  {
    var lower := ToLower(name);
    if lower == "normal" then Ok(Normal)
    else if lower == "difference" then Ok(Difference)
    else if lower == "multiply" then Ok(Multiply)
    else if lower == "overlay" then Ok(Overlay)
    else if lower == "screen" then Ok(Screen)
    else Err(InvalidBlendMode(lower))
  }

  /** Every mode is selected by its own name, in any letter case. */
  lemma ParseModeName(name: string)
    ensures forall m :: ModeName(m) == ToLower(name) ==> ParseBlendMode(name) == Ok(m)
  {
  }

  /** Matching ignores letter case: a name and its lower-cased form select
      the same mode or report the same error. */
  lemma ParseIgnoresCase(name: string)
    ensures ParseBlendMode(name) == ParseBlendMode(ToLower(name))
  {
  }

  /** Opacity is saturated into [0, 1]; values already in range pass unchanged. */
  function ClampOpacity(opacity: real): (o: real)
    ensures 0.0 <= o <= 1.0
    ensures 0.0 <= opacity <= 1.0 ==> o == opacity
    ensures opacity > 1.0 ==> o == 1.0
    ensures opacity < 0.0 ==> o == 0.0
  {
    if opacity > 1.0 then 1.0
    else if opacity < 0.0 then 0.0
    else opacity
  }

  /** Everything a per-mode operation receives besides the two images. */
  datatype BlendCall = BlendCall(mode: BlendMode, region: Region, x: int, y: int, opacity: real)

  /** A per-mode blend operation, supplied by the caller. */
  type BlendOp = (Image, Image, BlendCall) -> Result<Image>

  /** The call `blend` hands to the per-mode operation, or the error it stops
      at: the placement error, then an off-canvas overlay, then an unknown
      mode name. */
  function PlanCall(canvas: Image, overlay: Image, modeName: string, opacity: real,
                    placement: Result<Point>): (r: Result<BlendCall>)
    ensures placement.Err? ==> r == Err(placement.error)
    ensures placement.Ok? && OffCanvas(canvas.width, canvas.height, overlay.width, overlay.height,
                                       placement.value.x, placement.value.y) ==>
              r == Err(BlendingImageFallsOutsideCanvas)
    ensures placement.Ok? && !OffCanvas(canvas.width, canvas.height, overlay.width, overlay.height,
                                        placement.value.x, placement.value.y) &&
            (forall m :: ModeName(m) != ToLower(modeName)) ==>
              r == Err(InvalidBlendMode(ToLower(modeName)))
    ensures forall m :: placement.Ok? && ModeName(m) == ToLower(modeName) &&
                        !OffCanvas(canvas.width, canvas.height, overlay.width, overlay.height,
                                   placement.value.x, placement.value.y) ==>
              var p := placement.value;
              var bounds := Region(Max(0, -p.x), overlay.width - Max(0, p.x + overlay.width - canvas.width),
                                   Max(0, -p.y), overlay.height - Max(0, p.y + overlay.height - canvas.height));
              r == Ok(BlendCall(m, bounds, p.x, p.y, ClampOpacity(opacity)))
  {
    var o := ClampOpacity(opacity);
    var p :- placement;
    var region :- ClipOverlay(canvas.width, canvas.height, overlay.width, overlay.height, p.x, p.y);
    ParseModeName(modeName);
    var mode :- ParseBlendMode(modeName);
    Ok(BlendCall(mode, region, p.x, p.y, o))
  }

  /** Blends `overlay` onto `canvas`. A failed placement is reported first,
      then an overlay that misses the canvas (whatever the mode name), then an
      unknown mode name; otherwise the per-mode operation receives both
      images unchanged, the exact loop bounds, the placement and the
      saturated opacity, and its result is returned as is. */
  function Blend(canvas: Image, overlay: Image, modeName: string, opacity: real,
                 placement: Result<Point>, op: BlendOp): (r: Result<Image>)
    ensures placement.Err? ==> r == Err(placement.error)
    ensures placement.Ok? && OffCanvas(canvas.width, canvas.height, overlay.width, overlay.height,
                                       placement.value.x, placement.value.y) ==>
              r == Err(BlendingImageFallsOutsideCanvas)
    ensures placement.Ok? && !OffCanvas(canvas.width, canvas.height, overlay.width, overlay.height,
                                        placement.value.x, placement.value.y) &&
            (forall m :: ModeName(m) != ToLower(modeName)) ==>
              r == Err(InvalidBlendMode(ToLower(modeName)))
    ensures forall m :: placement.Ok? && ModeName(m) == ToLower(modeName) &&
                        !OffCanvas(canvas.width, canvas.height, overlay.width, overlay.height,
                                   placement.value.x, placement.value.y) ==>
              var p := placement.value;
              var bounds := Region(Max(0, -p.x), overlay.width - Max(0, p.x + overlay.width - canvas.width),
                                   Max(0, -p.y), overlay.height - Max(0, p.y + overlay.height - canvas.height));
              r == op(canvas, overlay, BlendCall(m, bounds, p.x, p.y, ClampOpacity(opacity)))
  {
    var call :- PlanCall(canvas, overlay, modeName, opacity, placement);
    op(canvas, overlay, call)
  }

  /** An off-canvas overlay is reported as such even when the mode name is
      also invalid. */
  lemma OffCanvasBeforeModeName(canvas: Image, overlay: Image, modeName: string, opacity: real,
                                p: Point, op: BlendOp)
    requires OffCanvas(canvas.width, canvas.height, overlay.width, overlay.height, p.x, p.y)
    ensures Blend(canvas, overlay, modeName, opacity, Ok(p), op) == Err(BlendingImageFallsOutsideCanvas)
  {
  }

  /** When `Blend` reaches the per-mode operation, the call it passes is
      safe: every coordinate the operation is told to visit lies in the
      overlay and lands on the canvas, and the opacity is in [0, 1]. */
  lemma BlendCallSafe(canvas: Image, overlay: Image, modeName: string, opacity: real,
                      p: Point, op: BlendOp, i: int, j: int)
    requires canvas.Valid() && overlay.Valid()
    requires PlanCall(canvas, overlay, modeName, opacity, Ok(p)).Ok?
    requires var call := PlanCall(canvas, overlay, modeName, opacity, Ok(p)).value;
             call.region.startX <= i < call.region.endX && call.region.startY <= j < call.region.endY
    ensures var call := PlanCall(canvas, overlay, modeName, opacity, Ok(p)).value;
            Blend(canvas, overlay, modeName, opacity, Ok(p), op) == op(canvas, overlay, call) &&
            call.x == p.x && call.y == p.y && 0.0 <= call.opacity <= 1.0 &&
            overlay.InBounds(i, j) && canvas.InBounds(call.x + i, call.y + j)
  {
  }
}
