/** `resize`: a case-sensitive routing table from a mode name to one of five
    resampling operations. The resampling itself is not part of this model:
    the operation is a parameter, which receives the image and a request
    carrying only the dimensions that mode uses, and reports the image it
    leaves behind together with its own result, whose success value is
    discarded.
 */
module Resize {
  import opened Raster

  datatype ResizeMode = Exact | ExactWidth | ExactHeight | Fit | FillBox

  /** The exact name each mode is selected by. */
  function ResizeModeName(m: ResizeMode): string {
    match m
    case Exact => "exact"
    case ExactWidth => "exact_width"
    case ExactHeight => "exact_height"
    case Fit => "fit"
    case FillBox => "fill"
  }

  /** A forwarded call: the mode and the target dimensions it receives. */
  datatype ResizeRequest =
    | ResizeExact(w: int, h: int)
    | ResizeExactWidth(w: int)
    | ResizeExactHeight(h: int)
    | ResizeFit(w: int, h: int)
    | ResizeFill(w: int, h: int)

  function RequestMode(q: ResizeRequest): ResizeMode {
    match q
    case ResizeExact(_, _) => Exact
    case ResizeExactWidth(_) => ExactWidth
    case ResizeExactHeight(_) => ExactHeight
    case ResizeFit(_, _) => Fit
    case ResizeFill(_, _) => FillBox
  }

  /** Picks the operation for `mode`, matched with letter case significant.
      `exact_width` forwards only the width and `exact_height` only the
      height; any other name is rejected with the name as given. */
  function Route(w: int, h: int, mode: string): (r: Result<ResizeRequest>)
    ensures r.Ok? ==> ResizeModeName(RequestMode(r.value)) == mode
    ensures r.Err? ==> r.error == InvalidResiveMode(mode) && forall m :: ResizeModeName(m) != mode
    ensures r.Ok? && r.value.ResizeExactWidth? ==> r.value.w == w
    ensures r.Ok? && r.value.ResizeExactHeight? ==> r.value.h == h
    ensures r.Ok? && (r.value.ResizeExact? || r.value.ResizeFit? || r.value.ResizeFill?) ==>
              r.value.w == w && r.value.h == h
  {
    match mode
    case "exact" => Ok(ResizeExact(w, h))
    case "exact_width" => Ok(ResizeExactWidth(w))
    case "exact_height" => Ok(ResizeExactHeight(h))
    case "fit" => Ok(ResizeFit(w, h))
    case "fill" => Ok(ResizeFill(w, h))
    case _ => Err(InvalidResiveMode(mode))
  }

  /** Every mode is selected by its own name and by no other spelling. */
  lemma RouteByName(w: int, h: int, m: ResizeMode, mode: string)
    ensures Route(w, h, mode).Ok? && RequestMode(Route(w, h, mode).value) == m <==> mode == ResizeModeName(m)
  {
  }

  /** Names differing only in letter case are rejected. */
  lemma RouteIsCaseSensitive(w: int, h: int)
    ensures Route(w, h, "Exact") == Err(InvalidResiveMode("Exact"))
    ensures Route(w, h, "FIT") == Err(InvalidResiveMode("FIT"))
  {
  }

  /** A resampling operation: the image it leaves behind and its result. */
  type ResizeOp<T> = (Image, ResizeRequest) -> (Image, Result<T>)

  /** Resizes `src`, returning the image left behind and the call's result.
      An unknown mode leaves the image untouched; otherwise the routed
      operation's image is kept and its result is passed on with the
      success value replaced by `()`. */
  function Resize<T>(src: Image, w: int, h: int, mode: string, op: ResizeOp<T>): (r: (Image, Result<()>))
    ensures Route(w, h, mode).Err? ==> r == (src, Err(InvalidResiveMode(mode)))
    ensures Route(w, h, mode).Ok? ==>
              var (after, status) := op(src, Route(w, h, mode).value);
              r.0 == after &&
              (status.Ok? ==> r.1 == Ok(())) &&
              (status.Err? ==> r.1 == Err(status.error))
  {
    match Route(w, h, mode)
    case Err(e) => (src, Err(e))
    case Ok(q) =>
      var (after, status) := op(src, q);
      (after, match status case Ok(_) => Ok(()) case Err(e) => Err(e))
  }
}
