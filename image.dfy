/** The pixel grid of `src/image.rs`: a width × height raster of RGBA float
    colours with bounds-checked reads and writes, plus the colour helpers the
    threshold algorithms use. */
module Images {
  import opened Wrappers

  newtype byte = x: int | 0 <= x < 256

  /** An RGBA colour with float channels (reals here). */
  datatype Color = Color(r: real, g: real, b: real, a: real)

  /** `sum_rgb`: the cheap brightness measure of the magic wand and the pixel sorter. */
  function SumRgb(c: Color): real
  {
    c.r + c.g + c.b
  }

  function Abs(v: real): real
  {
    if v < 0.0 then -v else v
  }

  /** The threshold test of the magic wand and the pixel sorter: the
      brightness difference is strictly below the threshold. */
  predicate Similar(a: Color, b: Color, threshold: real)
  {
    Abs(SumRgb(a) - SumRgb(b)) < threshold
  }

  /** egui's 8-bit colour, the type Fill and SimplePencil store. */
  datatype Color32 = Color32(r: byte, g: byte, b: byte, a: byte)

  const BLACK: Color32 := Color32(0, 0, 0, 255)
  const WHITE: Color32 := Color32(255, 255, 255, 255)

  /** `Color::from(Color32)`: each channel scaled from 0..255 to 0.0..1.0. */
  function FromColor32(c: Color32): (r: Color)
    ensures 0.0 <= r.r <= 1.0 && 0.0 <= r.g <= 1.0 && 0.0 <= r.b <= 1.0 && 0.0 <= r.a <= 1.0
    ensures 0.0 <= SumRgb(r) <= 3.0
    ensures c == WHITE ==> SumRgb(r) == 3.0
    ensures c == BLACK ==> SumRgb(r) == 0.0
  {
    Color(c.r as int as real / 255.0, c.g as int as real / 255.0,
          c.b as int as real / 255.0, c.a as int as real / 255.0)
  }

  /** The brightness of white, the upper end of every threshold slider. */
  const WHITE_SUM: real := SumRgb(FromColor32(WHITE))

  /** glam's `UVec2`: pixel coordinates and image sizes. */
  datatype UVec2 = UVec2(x: nat, y: nat)

  /** The raw raster; `Image` below is the well-formed one. */
  datatype Grid = Grid(width: nat, height: nat, rows: seq<seq<Color>>)
  {
    predicate Valid()
    {
      |rows| == height && forall y :: 0 <= y < |rows| ==> |rows[y]| == width
    }
  }

  /** A zero pixel, as a freshly allocated `Rgba32FImage` holds. */
  const TRANSPARENT: Color := Color(0.0, 0.0, 0.0, 0.0)

  type Image = g: Grid | g.Valid() witness Grid(1, 1, [[TRANSPARENT]])

  const OUTSIDE: string := "pixel outside image"

  function Size(img: Image): UVec2
  {
    UVec2(img.width, img.height)
  }

  /** `contains_pixel`: both coordinates below the image's dimensions. */
  predicate ContainsPixel(img: Image, p: UVec2)
  {
    p.x < img.width && p.y < img.height
  }

  /** The colour stored at an in-range pixel. */
  function At(img: Image, p: UVec2): Color
    requires ContainsPixel(img, p)
  {
    img.rows[p.y][p.x]
  }

  /** `get_pixel`: the colour, or an error exactly for out-of-range pixels. */
  function GetPixel(img: Image, p: UVec2): (r: Result<Color, string>)
    ensures r.Ok? <==> ContainsPixel(img, p)
    ensures r.Ok? ==> r.value == At(img, p)
    ensures r.Err? ==> r.error == OUTSIDE
  {
    if ContainsPixel(img, p) then Ok(At(img, p)) else Err(OUTSIDE)
  }

  /** `set_pixel`: in range, the image with only pixel `p` replaced;
      out of range, an error (the caller's image stays as it was). */
  function SetPixel(img: Image, p: UVec2, c: Color): (r: Result<Image, string>)
    ensures r.Ok? <==> ContainsPixel(img, p)
    ensures r.Err? ==> r.error == OUTSIDE
    ensures r.Ok? ==> Size(r.value) == Size(img) && At(r.value, p) == c
    ensures r.Ok? ==> forall q :: ContainsPixel(img, q) && q != p ==> At(r.value, q) == At(img, q)
  {
    if ContainsPixel(img, p) then
      Ok(Grid(img.width, img.height, img.rows[p.y := img.rows[p.y][p.x := c]]))
    else
      Err(OUTSIDE)
  }

  /** `set_pixel(..).ok()`: the write with its error discarded, as every
      caller in the modifiers does. */
  function WritePixel(img: Image, p: UVec2, c: Color): (r: Image)
    ensures Size(r) == Size(img)
    ensures forall q :: ContainsPixel(img, q) ==> At(r, q) == if q == p then c else At(img, q)
    ensures !ContainsPixel(img, p) ==> r == img
  {
    match SetPixel(img, p, c)
    case Ok(written) => written
    case Err(_) => img
  }

  /** `Image::default`: a 1×1 image. */
  function DefaultImage(): (r: Image)
    ensures Size(r) == UVec2(1, 1)
  {
    Grid(1, 1, [[TRANSPARENT]])
  }

  /** The image of the given size whose pixel `p` is `f(p)`. */
  function MakeImage(w: nat, h: nat, f: UVec2 -> Color): (r: Image)
    ensures Size(r) == UVec2(w, h)
    ensures forall p :: ContainsPixel(r, p) ==> At(r, p) == f(p)
  {
    Grid(w, h, seq(h, y requires 0 <= y < h => seq(w, x requires 0 <= x < w => f(UVec2(x, y)))))
  }

  /** Two images are equal when they have the same size and the same pixels. */
  lemma Ext(a: Image, b: Image)
    requires Size(a) == Size(b)
    requires forall p :: ContainsPixel(a, p) ==> At(a, p) == At(b, p)
    ensures a == b
  {
    forall y | 0 <= y < a.height
      ensures a.rows[y] == b.rows[y]
    {
      forall x | 0 <= x < a.width
        ensures a.rows[y][x] == b.rows[y][x]
      {
        assert ContainsPixel(a, UVec2(x, y));
      }
    }
  }

  /** Reading a pixel just written yields the written colour. */
  lemma GetAfterSet(img: Image, p: UVec2, c: Color)
    requires ContainsPixel(img, p)
    ensures SetPixel(img, p, c).Ok?
    ensures GetPixel(SetPixel(img, p, c).value, p) == Ok(c)
  {
  }
}
