/** `MagicWand` of `src/modifier/collection/magic_wand.rs`: a global threshold
    selection around a target pixel, recoloured from the output of a child
    node evaluated on the same input. Its child is always a `Fill` node here,
    the only instantiation the program makes (through `Bucket`). */
module MagicWands {
  import opened Wrappers
  import opened Images
  import opened Positions
  import opened Canvas
  import opened Fills
  import opened Cations

  datatype MagicWand = MagicWand(target: Option<UVec2>, threshold: real, child: Option<Cation<Fill>>)

  /** The selected coordinates among `coords`, in their order. */
  function SelectFrom(img: Image, coords: seq<UVec2>, t: Color, threshold: real): (r: seq<UVec2>)
    requires forall i :: 0 <= i < |coords| ==> ContainsPixel(img, coords[i])
    ensures forall p :: p in r <==> p in coords && Similar(t, At(img, p), threshold)
    decreases |coords|
  {
    if coords == [] then []
    else
      var n := |coords| - 1;
      var rest := SelectFrom(img, coords[..n], t, threshold);
      assert forall p :: p in coords <==> p in coords[..n] || p == coords[n];
      rest + if Similar(t, At(img, coords[n]), threshold) then [coords[n]] else []
  }

  /** The first loop of `apply`: every pixel whose brightness is close to the
      target's, measured on the input before any write; nothing when the
      target lies outside the image. */
  function Selection(img: Image, target: UVec2, threshold: real): (r: seq<UVec2>)
    ensures forall p :: p in r <==>
      ContainsPixel(img, target) && ContainsPixel(img, p) && Similar(At(img, target), At(img, p), threshold)
  {
    if ContainsPixel(img, target) then
      var coords := Coords(img.width, img.height);
      assert forall p :: ContainsPixel(img, p) ==> coords[Rank(p, img.width)] == p;
      SelectFrom(img, coords, At(img, target), threshold)
    else []
  }

  /** The second loop of `apply`: every selected pixel takes the child's
      colour at the same coordinate. Where the child image is smaller the
      program would panic on `unwrap`; the pixel is left as it was here. */
  function Recolor(input: Image, child: Image, selected: seq<UVec2>): (r: Image)
    ensures Size(r) == Size(input)
    ensures forall p :: ContainsPixel(input, p) ==>
      At(r, p) == if p in selected && ContainsPixel(child, p) then At(child, p) else At(input, p)
  {
    MakeImage(input.width, input.height,
      p => if ContainsPixel(input, p) && p in selected && ContainsPixel(child, p) then At(child, p)
           else if ContainsPixel(input, p) then At(input, p) else TRANSPARENT)
  }

  /** The first loop of `MagicWand::apply`, over `iter_coords`. */
  method SelectLoop(input: Image, target: UVec2, threshold: real) returns (pixels: seq<UVec2>)
    ensures pixels == Selection(input, target, threshold)
  {
    pixels := [];
    if ContainsPixel(input, target) {
      var coords := Coords(input.width, input.height);
      var t := At(input, target);
      var i := 0;
      while i < |coords|
        invariant 0 <= i <= |coords|
        invariant pixels == SelectFrom(input, coords[..i], t, threshold)
      {
        assert coords[..i + 1][..i] == coords[..i];
        if Similar(t, At(input, coords[i]), threshold) {
          pixels := pixels + [coords[i]];
        }
        i := i + 1;
      }
      assert coords[..i] == coords;
    }
  }

  /** The second loop of `MagicWand::apply`: each selected pixel is read from
      the child image and written into the output. */
  method RecolorLoop(input: Image, child: Image, pixels: seq<UVec2>) returns (r: Image)
    ensures r == Recolor(input, child, pixels)
  {
    r := input;
    var j := 0;
    while j < |pixels|
      invariant 0 <= j <= |pixels|
      invariant Size(r) == Size(input)
      invariant forall p :: ContainsPixel(input, p) ==>
        At(r, p) == if p in pixels[..j] && ContainsPixel(child, p) then At(child, p) else At(input, p)
    {
      var p := pixels[j];
      assert forall q :: q in pixels[..j + 1] <==> q in pixels[..j] || q == p;
      var c := GetPixel(child, p);
      if c.Ok? {
        r := WritePixel(r, p, c.value);
      }
      j := j + 1;
    }
    assert pixels[..j] == pixels;
    Ext(r, Recolor(input, child, pixels));
  }

  /** Both loops of `MagicWand::apply`, once target, child image and input
      image are all present. */
  method SelectAndRecolor(input: Image, child: Image, target: UVec2, threshold: real) returns (r: Image)
    ensures r == Recolor(input, child, Selection(input, target, threshold))
  {
    var pixels := SelectLoop(input, target, threshold);
    r := RecolorLoop(input, child, pixels);
  }

  /** Equality of the child's modifier type, `Fill`, which derives it. */
  predicate FillEq(a: Fill, b: Fill)
  {
    a == b
  }

  /** Derived equality of `MagicWand`: the child node compares by identity
      and fill (`Cation`'s equality), never by its cache. */
  predicate Eq(a: MagicWand, b: MagicWand)
  {
    a.target == b.target && a.threshold == b.threshold &&
    a.child.Some? == b.child.Some? &&
    (a.child.Some? ==> NodeEq(a.child.value, b.child.value, FillEq))
  }

  /** `Cation::output` on the child node: the cached output when the cache
      answers this input, otherwise a fill of the input under a fresh
      identity, stored in the cache. */
  function ChildOutput(c: Cation<Fill>, input: Output, last: Uuid): (r: (Cation<Fill>, Output, Uuid))
    ensures CheckCache(c, input, FillEq) ==> r == (c, c.cache.value.output, last)
    ensures !CheckCache(c, input, FillEq) ==>
      r.1.image == Fills.Apply(c.modifier, input.image) && r.1.id > last && r.2 == r.1.id
    ensures r.0.id == c.id && r.0.modifier == c.modifier && r.2 >= last
    ensures CheckCache(r.0, input, FillEq)
  {
    if CheckCache(c, input, FillEq) then (c, c.cache.value.output, last)
    else Store(c, c.modifier, input, Fills.Apply(c.modifier, input.image), last)
  }

  /** `MagicWand::apply` (with the unified signature): the input image,
      recoloured where all of target, child, child image and input image are
      present. The child is evaluated on the wand's own input, and only once
      a target is set. */
  function Apply(w: MagicWand, input: Output, last: Uuid): (r: (MagicWand, Option<Image>, Uuid))
    ensures r.0.target == w.target && r.0.threshold == w.threshold && r.0.child.Some? == w.child.Some?
    ensures r.2 >= last
    ensures w.target.None? || w.child.None? ==> r == (w, input.image, last)
    ensures input.image.None? ==> r.1.None?
    ensures w.target.Some? && w.child.Some? ==>
      var (c, out, _) := ChildOutput(w.child.value, input, last);
      r.0.child == Some(c) &&
      r.1 == if out.image.Some? && input.image.Some? then
               Some(Recolor(input.image.value, out.image.value, Selection(input.image.value, w.target.value, w.threshold)))
             else input.image
  {
    match (w.target, w.child)
    case (Some(target), Some(child)) =>
      var (c, out, next) := ChildOutput(child, input, last);
      var w' := w.(child := Some(c));
      if out.image.Some? && input.image.Some? then
        (w', Some(Recolor(input.image.value, out.image.value, Selection(input.image.value, target, w.threshold))), next)
      else (w', input.image, next)
    case _ => (w, input.image, last)
  }

  /** Pixel `p` of the input changes only if it is selected, that is close in
      brightness to the target; a zero (or negative) threshold selects
      nothing, not even the target, since the comparison is strict. */
  lemma OnlySelectedChange(input: Image, child: Image, target: UVec2, threshold: real, p: UVec2)
    requires ContainsPixel(input, p)
    requires At(Recolor(input, child, Selection(input, target, threshold)), p) != At(input, p)
    ensures ContainsPixel(input, target) && Similar(At(input, target), At(input, p), threshold)
    ensures threshold > 0.0
  {
  }

  /** `MagicWand::update`: on a primary click the interface did not consume,
      the target becomes the hovered position rounded to a pixel; otherwise
      nothing changes. */
  function Update(w: MagicWand, primaryClicked: bool, wantsPointer: bool, hovered: Position): (r: MagicWand)
    ensures primaryClicked && !wantsPointer ==> r.target == Some(RoundToPixel(hovered))
    ensures !(primaryClicked && !wantsPointer) ==> r == w
    ensures r.threshold == w.threshold && r.child == w.child
  {
    if primaryClicked && !wantsPointer then w.(target := Some(RoundToPixel(hovered))) else w
  }
}
