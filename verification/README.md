# Raster editor core, modelled in Dafny

This project models the editing layer of the `raster` image library (`src/editor.rs`):

- `blend` composites an overlay onto a canvas. It saturates the opacity, takes the overlay's resolved placement, rejects an overlay that misses the canvas, derives the four overlay-local loop bounds, matches the blend-mode name case-insensitively and hands everything to a per-mode blend operation.
- `crop` clamps the resolved crop rectangle against the image. It copies that region pixel by pixel into a fresh buffer and then replaces the image's width, height and pixels together.
- `fill` writes one colour to every pixel.
- `resize` routes a case-sensitive mode name to one of five resampling operations.

An image is a `width` x `height` grid of RGBA colours stored row-major. Pixel (x, y) sits at index `y * width + x`. The library mutates images in place. The model instead returns the new image value, and the source's `RasterResult<()>` becomes `Result<Image>`.

Files, one module each:

- `raster.dfy` (`Raster`): colours, images, the error type and the result type, plus `get_pixel`/`set_pixel`/`Image::blank`. Those three live outside `editor.rs`, so the model specifies them abstractly. A read or write succeeds exactly inside the image and otherwise fails with `PixelOutOfBounds`.
- `clip.dfy` (`Clip`): the overlap test and the derivation of the loop bounds.
- `blend.dfy` (`Blend`): opacity saturation, mode-name matching and the dispatch order of `blend`.
- `crop.dfy` (`Crop`): the clamping arithmetic. It has a functional crop built row by row from slices of the source buffer and the library's nested copy loop. The loop is proved to equal the functional crop.
- `fill.dfy` (`Fill`): a functional fill and the library's nested `set_pixel` loop, proved equal.
- `resize.dfy` (`Resize`): the routing table.

Two pieces of code are not shown: placement resolution (`Position::new` / `get_x_y`) and the per-mode blend and resize operations. The model takes them as parameters:

- The resolved placement, or the error it produced, is a `Result<Point>` argument.
- The blend operation is a function `(canvas, overlay, call) -> Result<Image>`.
- The resize operation is a function `(image, request) -> (image after, result)`.

The model proves what is handed to these operations and how their results are passed on.

Behaviour of `src/editor.rs` worth noting:

- The overlap test is checked before the blend-mode name. An overlay that misses the canvas is reported as `BlendingImageFallsOutsideCanvas` even when its mode name is also invalid.
- The overlap test is not exact for empty images. An overlay of width 0 placed at x = 3 on a 10-wide canvas passes the test and gets an empty column range (`Clip.ClipEmptyOverlay`). For non-empty images, `Clip.ClipFailsIffNothingVisible` shows that the test fails exactly when no overlay pixel lands on the canvas.
- The resize error keeps the code's spelling `InvalidResiveMode`. It carries the mode name exactly as given. The blend error instead carries the lower-cased name.

## Model

| member | source | states |
|---|---|---|
| `Raster.GetPixel` | src/editor.rs:301 | a read succeeds exactly for 0 <= x < width and 0 <= y < height and returns that pixel; otherwise it fails with `PixelOutOfBounds(x, y)` |
| `Raster.SetPixel` | src/editor.rs:302 | a write succeeds exactly inside the image; it keeps the size, puts `c` at (x, y) and leaves every other pixel unchanged |
| `Raster.Blank` | src/editor.rs:297 | a fresh image has the requested size and a buffer of exactly width * height pixels |
| `Clip.ClipOverlay` | src/editor.rs:126-165 | fails with `BlendingImageFallsOutsideCanvas` iff x >= w1, x + w2 <= 0, y >= h1 or y + h2 <= 0; otherwise startX = max(0, -x), endX = w2 - max(0, x + w2 - w1) (same for y); for non-negative sizes 0 <= start <= end <= overlay size, and a column i lies in [startX, endX) iff it is in the overlay and x + i is on the canvas (same for rows) |
| `Clip.AxisBounds` | src/editor.rs:135-149 | on one axis the step-by-step bound derivation equals the max formula and, when the overlay overlaps, encloses exactly the visible coordinates |
| `Clip.ClipFailsIffNothingVisible` | src/editor.rs:126-133 | for non-empty images the rejection test fails iff no overlay pixel lands on the canvas |
| `Clip.ClipSafe` | src/editor.rs:135-165 | every (i, j) inside the bounds is an overlay pixel whose canvas position (x + i, y + j) is on the canvas |
| `Clip.ClipInside` | src/editor.rs:135-165 | an overlay placed entirely inside the canvas gets the full bounds (0, w2, 0, h2) |
| `Clip.ClipExamples` | src/editor.rs:126-165 | worked cases: (40, 40) and (-5, -5) on 100 x 100 with a 20 x 20 overlay give (0, 20, 0, 20) and (5, 20, 5, 20); (60, 0) on 50 x 50 is rejected |
| `Clip.ClipEmptyOverlay` | src/editor.rs:126-133 | a zero-width overlay at x = 3 passes the rejection test though no pixel of it is visible |
| `Blend.LowerChar` | src/editor.rs:167 | lower-casing maps each ASCII capital to its small letter and keeps every other character; no capital remains |
| `Blend.ToLower` | src/editor.rs:167 | the lower-cased name has the same length and is lower-cased character by character |
| `Blend.ToLowerIdempotent` | src/editor.rs:167 | lower-casing twice equals lower-casing once |
| `Blend.ParseBlendMode` | src/editor.rs:167-191 | a name selects mode m iff its lower-cased form is m's name; otherwise the error is `InvalidBlendMode` carrying the lower-cased name, and no mode has that name |
| `Blend.ParseModeName` | src/editor.rs:168-188 | any name whose lower-cased form is a mode's name selects that mode |
| `Blend.ParseIgnoresCase` | src/editor.rs:167-191 | a name and its lower-cased form give the same outcome |
| `Blend.ClampOpacity` | src/editor.rs:110-115 | opacity is saturated into [0, 1]: above 1 becomes 1, below 0 becomes 0, in range is kept |
| `Blend.Blend` | src/editor.rs:108-192 | errors come in order: the placement error, then `BlendingImageFallsOutsideCanvas` (whatever the mode name), then `InvalidBlendMode(lowercase name)`; otherwise the operation of the matched mode receives both images, the bounds max(0, -x), w2 - max(0, x + w2 - w1), max(0, -y), h2 - max(0, y + h2 - h1), the placement and the saturated opacity, and its result is returned |
| `Blend.OffCanvasBeforeModeName` | src/editor.rs:121-191 | an off-canvas overlay yields `BlendingImageFallsOutsideCanvas` for every mode name, valid or not |
| `Blend.PlanCall` | src/editor.rs:110-188 | the call handed to the per-mode operation, or the first error met: the placement error, then `BlendingImageFallsOutsideCanvas` whatever the mode name, then `InvalidBlendMode(lowercase name)`; the call carries the matched mode, the bounds max(0, -x), w2 - max(0, x + w2 - w1), max(0, -y), h2 - max(0, y + h2 - h1), the placement and the saturated opacity |
| `Blend.BlendCallSafe` | src/editor.rs:135-188 | when `Blend` reaches the per-mode operation, it passes the planned call, whose placement is the resolved one, whose opacity is in [0, 1], and every coordinate of whose bounds is inside the overlay and lands inside the canvas |
| `Crop.ClampBox` | src/editor.rs:283-295 | for any request, the clamped box starts at (max(0, x), max(0, y)), has width min(left + crop_width, width) - left and the matching height, and is never longer than requested and shorter only where it meets the right or bottom edge; for a request `Crop` accepts it lies inside the image |
| `Crop.CropRows` | src/editor.rs:297-304 | the rows built so far are a valid image in which pixel (i, j) equals source pixel (left + i, top + j) |
| `Crop.Crop` | src/editor.rs:277-310 | a placement error is propagated; otherwise the result has exactly the clamped size and pixel (i, j) equals source pixel (left + i, top + j) in all four channels |
| `Crop.CropLoop` | src/editor.rs:297-309 | the nested get_pixel/set_pixel copy loop never fails, yields the same image as the functional crop, and replaces width, height and pixels together |
| `Crop.CropCoveringIsIdentity` | src/editor.rs:282-307 | cropping at (0, 0) to a rectangle at least the image's size, including its own size, leaves the image unchanged |
| `Crop.CropIdempotent` | src/editor.rs:277-310 | a crop taken at any accepted placement, cropped again to the same size at (0, 0), is unchanged |
| `Crop.CropTwice` | src/editor.rs:277-310 | a crop of a crop equals one crop of the original at the summed placement, when the second rectangle fits in the first |
| `Fill.Fill` | src/editor.rs:331-340 | filling keeps width and height and makes every pixel equal to the colour |
| `Fill.FillLoop` | src/editor.rs:333-339 | the nested set_pixel loop never fails, keeps the size, leaves every pixel equal to the colour, and equals the functional fill |
| `Fill.FillOverwrites` | src/editor.rs:331-340 | filling with c and then with d is the same as filling with d |
| `Fill.FillThenGet` | src/editor.rs:331-340 | after a fill, get_pixel returns the colour, alpha included, at every in-range coordinate and fails elsewhere |
| `Resize.Route` | src/editor.rs:472-478 | a name routes to mode m only if it is exactly m's name; `exact_width` forwards only w, `exact_height` only h, the others both; any other name fails with `InvalidResiveMode` carrying the name as given |
| `Resize.RouteByName` | src/editor.rs:472-478 | a name routes to mode m iff it equals m's name, case included |
| `Resize.RouteIsCaseSensitive` | src/editor.rs:472-478 | "Exact" and "FIT" are rejected |
| `Resize.Resize` | src/editor.rs:471-480 | an unknown mode leaves the image untouched and reports `InvalidResiveMode(mode)`; otherwise the routed operation's image is kept and its result is passed on with the success value replaced by `()` |

## Left out

- Placement resolution (`Position::new` / `get_x_y`): its code is not part of this model. Its result, a point or an error, is a parameter of `Blend` and `Crop`, and its anchor arithmetic is not modelled.
- Per-mode blend formulas (`blend::normal`, `difference`, `multiply`, `overlay`, `screen`): external code, taken as a parameter. The per-channel colour maths is not modelled, so neither is what opacity 0 or 1 does to the result.
- Resize kernels (`transform::resize_*`): external resampling, taken as a parameter. Their effect on the image's size is not modelled.
- Image decoding and saving, and the doc examples that use them: file I/O.
- `Blend.ClampOpacity`: opacity is a `real`, not an `f32`. A NaN opacity, which passes the source's two comparisons unchanged, is not modelled.
- `Blend.LowerChar`: only ASCII capitals are lower-cased; Rust's `to_lowercase` also lower-cases non-ASCII letters, which this character map keeps unchanged.
- `Blend.ToLower`: inherits the ASCII-only lower-casing of `LowerChar`. Which names are accepted is still right: the only non-ASCII characters Rust lower-cases into ASCII letters are U+212A KELVIN SIGN, which becomes `k`, a letter no mode name contains, and U+0130, which becomes `i` followed by a combining dot, which no mode name contains. Only the lower-cased name carried by `InvalidBlendMode` can differ.
- Integer width: coordinates and sizes are unbounded integers. The `i32` overflow of sums such as `offset_x + w2` is not modelled.
- `Crop.Crop`: requires non-negative crop sizes and a clamped corner no further than the image's width and height. Otherwise `Image::blank` would receive a negative size, and its code is not part of this model.
- `Crop.CropLoop`: carries the same requirement as `Crop.Crop`, for the same reason.
- `Raster.Blank`: the colour of a blank image is taken as all-zero. The code of `Image::blank` is not part of this model. Crop overwrites every pixel of the blank image, so the choice does not matter.
- The image buffer is modelled as a sequence of RGBA colours, not as a flat sequence of bytes four times as long.
- The defensive `get_pixel` / `set_pixel` failures inside the crop and fill loops are proved unreachable, so the model's loops have no error exit.
