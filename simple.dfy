/** `SimplePencil` of `src/modifier/collection/pencil/simple.rs`: paints one
    fixed colour. */
module SimplePencils {
  import opened Wrappers
  import opened Images

  datatype SimplePencil = SimplePencil(color: Color32)

  /** `SimplePencil::default`: black. */
  function Default(): (r: SimplePencil)
    ensures r.color == BLACK
  {
    SimplePencil(BLACK)
  }

  /** `SimplePencil::pixel`: the pencil's colour, whatever the position and
      the image; neither the pencil nor the image changes. */
  function Pixel(p: SimplePencil, pixel: UVec2, img: Image): (r: Option<Color>)
    ensures r.Some? && r.value == FromColor32(p.color)
  {
    Some(FromColor32(p.color))
  }

  /** `SimplePencil::view`, one frame: the colour button leaves the colour
      the user picked, if any. */
  function View(p: SimplePencil, picked: Option<Color32>): (r: SimplePencil)
    ensures picked.None? ==> r == p
    ensures picked.Some? ==> r.color == picked.value
  {
    if picked.Some? then SimplePencil(picked.value) else p
  }
}
