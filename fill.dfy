/** `Fill` of `src/modifier/collection/fill.rs`: paints every pixel one colour. */
module Fills {
  import opened Wrappers
  import opened Images
  import opened Canvas

  datatype Fill = Fill(color: Color32)

  /** `Fill::default`: opaque black. */
  function Default(): (r: Fill)
    ensures r.color == BLACK
  {
    Fill(BLACK)
  }

  /** An image of the same size whose every pixel is `c`. */
  function Filled(img: Image, c: Color32): (r: Image)
    ensures Size(r) == Size(img)
    ensures forall p :: ContainsPixel(r, p) ==> At(r, p) == FromColor32(c)
  {
    MakeImage(img.width, img.height, _ => FromColor32(c))
  }

  /** `Fill::apply`: with no image there is nothing to do. */
  function Apply(f: Fill, image: Option<Image>): (r: Option<Image>)
    ensures r.Some? <==> image.Some?
    ensures image.Some? ==> Size(r.value) == Size(image.value)
    ensures image.Some? ==> forall p :: ContainsPixel(r.value, p) ==> At(r.value, p) == FromColor32(f.color)
  {
    match image
    case None => None
    case Some(img) => Some(Filled(img, f.color))
  }

  /** The loop of `Fill::apply`: each coordinate in turn through
      `set_pixel(..).ok()`. */
  method ApplyLoop(f: Fill, image: Option<Image>) returns (r: Option<Image>)
    ensures r == Apply(f, image)
  {
    if image.None? {
      return None;
    }
    var img := image.value;
    var coords := Coords(img.width, img.height);
    var c := FromColor32(f.color);
    var out := img;
    var i := 0;
    while i < |coords|
      invariant 0 <= i <= |coords|
      invariant Size(out) == Size(img)
      invariant forall p :: ContainsPixel(img, p) ==>
        At(out, p) == if Rank(p, img.width) < i then c else At(img, p)
    {
      out := WritePixel(out, coords[i], c);
      i := i + 1;
    }
    Ext(out, Filled(img, f.color));
    return Some(out);
  }

  /** Filling twice is filling once. */
  lemma ApplyIdempotent(f: Fill, image: Option<Image>)
    ensures Apply(f, Apply(f, image)) == Apply(f, image)
  {
    if image.Some? {
      var once := Apply(f, image).value;
      Ext(Filled(once, f.color), once);
    }
  }

  /** The result depends on the input's size only, never on its pixels. */
  lemma ApplyIgnoresPixels(f: Fill, a: Image, b: Image)
    requires Size(a) == Size(b)
    ensures Apply(f, Some(a)) == Apply(f, Some(b))
  {
    Ext(Filled(a, f.color), Filled(b, f.color));
  }
}
