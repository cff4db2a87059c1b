/** `Resize` of `src/modifier/collection/resize.rs`: the requested size, either
    absolute or a percentage of the input, and the resampling filter. */
module Resizing {
  import opened Wrappers
  import opened Images
  import opened Positions
  import opened Primitives

  datatype Size = Absolute(size: Position) | Relative(percent: Position)

  datatype Resize = Resize(size: Size, filter: FilterType)

  const HUNDRED: Position := Position(100.0, 100.0)

  /** `Resize::default`: 100% in both directions, Gaussian filter. */
  function Default(): (r: Resize)
    ensures r.size == Relative(HUNDRED) && r.filter == Gaussian
  {
    Resize(Relative(HUNDRED), Gaussian)
  }

  /** The size handed to the resampler for an image of `pixels`: an absolute
      size as given; a relative one scales each dimension by its percentage
      and never asks for less than one pixel. */
  function TargetSize(s: Size, pixels: UVec2): (r: Position)
    ensures s.Absolute? ==> r == s.size
    ensures s.Relative? ==> r.x >= 1.0 && r.y >= 1.0
    ensures s.Relative? ==> r.x >= pixels.x as real * s.percent.x / 100.0 && r.y >= pixels.y as real * s.percent.y / 100.0
    ensures s.Relative? ==> (r.x == 1.0 || r.x == pixels.x as real * s.percent.x / 100.0)
    ensures s.Relative? ==> (r.y == 1.0 || r.y == pixels.y as real * s.percent.y / 100.0)
  {
    match s
    case Absolute(size) => size
    case Relative(percent) => Max(Mul(FromU32(pixels.x, pixels.y), DivScalar(percent, 100.0)), ONE)
  }

  /** At 100% a non-empty image asks for its own size. */
  lemma HundredPercentKeepsSize(pixels: UVec2)
    requires pixels.x >= 1 && pixels.y >= 1
    ensures TargetSize(Relative(HUNDRED), pixels) == FromU32(pixels.x, pixels.y)
  {
  }

  /** `Resize::apply`: the input image resampled to the target size; a
      resampling failure is ignored and leaves the image as it was; no image,
      nothing to do. */
  function Apply(lib: Library, r: Resize, image: Option<Image>): (out: Option<Image>)
    ensures out.Some? <==> image.Some?
    ensures image.Some? ==>
      var requested := lib.resize(image.value, TargetSize(r.size, Images.Size(image.value)), r.filter);
      out.value == if requested.Some? then requested.value else image.value
  {
    match image
    case None => None
    case Some(img) =>
      match lib.resize(img, TargetSize(r.size, Images.Size(img)), r.filter)
      case Some(resized) => Some(resized)
      case None => Some(img)
  }

  /** The "relative" checkbox in `view`: switching mode resets the size to
      100 in both directions and keeps the filter. */
  function Toggle(r: Resize): (t: Resize)
    ensures t.size.Absolute? <==> r.size.Relative?
    ensures t.size == Absolute(HUNDRED) || t.size == Relative(HUNDRED)
    ensures t.filter == r.filter
  {
    match r.size
    case Absolute(_) => r.(size := Relative(HUNDRED))
    case Relative(_) => r.(size := Absolute(HUNDRED))
  }

  /** Toggling twice comes back to the mode it started in, at 100. */
  lemma ToggleTwice(r: Resize)
    ensures Toggle(Toggle(r)).size.Relative? == r.size.Relative?
    ensures Toggle(Toggle(Default())) == Default()
  {
  }

  /** `display_filter`: the label shown for each filter. */
  function DisplayFilter(f: FilterType): string
  {
    match f
    case Nearest => "Nearest Neighbor"
    case Triangle => "Linear"
    case CatmullRom => "Cubic"
    case Gaussian => "Gaussian"
    case Lanczos3 => "Lanczos"
  }

  /** No two filters share a label. */
  lemma DisplayFilterInjective(f: FilterType, g: FilterType)
    requires DisplayFilter(f) == DisplayFilter(g)
    ensures f == g
  {
  }
}
