/** `RainbowPencil` of `src/modifier/collection/pencil/rainbow.rs`: a pencil
    whose hue advances by a fixed rotation each time it moves to a new
    position. */
module RainbowPencils {
  import opened Wrappers
  import opened Images
  import opened Positions
  import opened Primitives

  datatype Hsv = Hsv(h: real, s: real, v: real)

  datatype RainbowPencil = RainbowPencil(colorHsv: Hsv, rotationPerPixel: real, lastPixel: Option<Position>)

  /** `RainbowPencil::default`: hue 0, full saturation and value, a rotation
      of 0.01 per pixel, no previous position. */
  function Default(): (r: RainbowPencil)
    ensures r.colorHsv == Hsv(0.0, 1.0, 1.0) && r.rotationPerPixel == 0.01 && r.lastPixel.None?
  {
    RainbowPencil(Hsv(0.0, 1.0, 1.0), 0.01, None)
  }

  /** The pencil has a previous position and `pixel` is not it. */
  predicate Moved(last: Option<Position>, pixel: UVec2)
  {
    last.Some? && last.value != FromU32(pixel.x, pixel.y)
  }

  /** `RainbowPencil::pixel`: advance the hue if the pencil moved, remember
      the position, and paint the colour of the (new) hue. The colour is
      built from the hue and the value twice, as the program does. */
  function Pixel(lib: Library, r: RainbowPencil, pixel: UVec2): (out: (RainbowPencil, Color))
    ensures out.0.lastPixel == Some(FromU32(pixel.x, pixel.y))
    ensures Moved(r.lastPixel, pixel) ==> out.0.colorHsv.h == r.colorHsv.h + r.rotationPerPixel
    ensures !Moved(r.lastPixel, pixel) ==> out.0.colorHsv.h == r.colorHsv.h
    ensures out.0.colorHsv.s == r.colorHsv.s && out.0.colorHsv.v == r.colorHsv.v
    ensures out.0.rotationPerPixel == r.rotationPerPixel
    ensures out.1 == lib.fromHsv(out.0.colorHsv.h, r.colorHsv.v, r.colorHsv.v)
  {
    var hue := if Moved(r.lastPixel, pixel) then r.colorHsv.h + r.rotationPerPixel else r.colorHsv.h;
    var next := r.(colorHsv := r.colorHsv.(h := hue), lastPixel := Some(FromU32(pixel.x, pixel.y)));
    (next, lib.fromHsv(hue, next.colorHsv.v, next.colorHsv.v))
  }

  /** The pencil after painting `ps` in order. */
  function Run(lib: Library, r: RainbowPencil, ps: seq<UVec2>): (out: RainbowPencil)
    ensures out.rotationPerPixel == r.rotationPerPixel
    ensures ps != [] ==> out.lastPixel == Some(FromU32(ps[|ps| - 1].x, ps[|ps| - 1].y))
    ensures ps == [] ==> out == r
    decreases |ps|
  {
    if ps == [] then r
    else Pixel(lib, Run(lib, r, ps[..|ps| - 1]), ps[|ps| - 1]).0
  }

  /** The number of positions that differ from the one before them. */
  function Changes(ps: seq<UVec2>): (n: nat)
    ensures n < |ps| || n == 0
    decreases |ps|
  {
    if |ps| <= 1 then 0
    else
      var k := |ps| - 1;
      Changes(ps[..k]) + if ps[k] != ps[k - 1] then 1 else 0
  }

  lemma FromU32Injective(p: UVec2, q: UVec2)
    ensures FromU32(p.x, p.y) == FromU32(q.x, q.y) <==> p == q
  {
  }

  /** From a fresh stroke, the hue has advanced once per change of position,
      and is not reduced modulo 1 during the replay. */
  lemma RunHue(lib: Library, r: RainbowPencil, ps: seq<UVec2>)
    requires r.lastPixel.None?
    ensures Run(lib, r, ps).colorHsv.h == r.colorHsv.h + r.rotationPerPixel * Changes(ps) as real
  {
    RunHueSteps(lib, r, ps);
    Rotated(r.colorHsv.h, r.rotationPerPixel, Changes(ps));
  }

  /** The hue `start` rotated `n` times by `rot`. */
  function Rotate(start: real, rot: real, n: nat): real
  {
    if n == 0 then start else Rotate(start, rot, n - 1) + rot
  }

  lemma {:induction false} Rotated(start: real, rot: real, n: nat)
    ensures Rotate(start, rot, n) == start + rot * n as real
  {
    if n > 0 {
      Rotated(start, rot, n - 1);
    }
  }

  lemma {:induction false} RunHueSteps(lib: Library, r: RainbowPencil, ps: seq<UVec2>)
    requires r.lastPixel.None?
    ensures Run(lib, r, ps).colorHsv.h == Rotate(r.colorHsv.h, r.rotationPerPixel, Changes(ps))
    decreases |ps|
  {
    if ps != [] {
      RunHueSteps(lib, r, ps[..|ps| - 1]);
      RunHueStep(lib, r, ps);
    }
  }

  /** One more position advances the hue by the rotation exactly when it
      adds a change. */
  lemma RunHueStep(lib: Library, r: RainbowPencil, ps: seq<UVec2>)
    requires r.lastPixel.None? && ps != []
    ensures var k := |ps| - 1;
      var h := Run(lib, r, ps[..k]).colorHsv.h;
      (Changes(ps) == Changes(ps[..k]) && Run(lib, r, ps).colorHsv.h == h) ||
      (Changes(ps) == Changes(ps[..k]) + 1 && Run(lib, r, ps).colorHsv.h == h + r.rotationPerPixel)
  {
    var k := |ps| - 1;
    var prev := Run(lib, r, ps[..k]);
    assert Run(lib, r, ps) == Pixel(lib, prev, ps[k]).0;
    if k > 0 {
      assert ps[..k][k - 1] == ps[k - 1];
      FromU32Injective(ps[k], ps[k - 1]);
    }
  }

  /** Painting the same position again does not advance the hue. */
  lemma RepeatKeepsHue(lib: Library, r: RainbowPencil, ps: seq<UVec2>)
    requires ps != []
    ensures Run(lib, r, ps + [ps[|ps| - 1]]).colorHsv == Run(lib, r, ps).colorHsv
  {
    assert (ps + [ps[|ps| - 1]])[..|ps|] == ps;
  }

  /** `h % 1.0` on `f32`: the remainder of truncating division, which keeps
      the sign of `h` and differs from it by a whole number. */
  function RemOne(h: real): (f: real)
    ensures -1.0 < f < 1.0
    ensures 0.0 <= h ==> 0.0 <= f
    ensures h <= 0.0 ==> f <= 0.0
    ensures -1.0 < h < 1.0 ==> f == h
    ensures (h - f).Floor as real == h - f
  {
    h - Trunc(h) as real
  }

  /** `RainbowPencil::view`, one frame. The hue widget shows the hue reduced
      mod 1, in degrees, and the hue is set back from what it shows; the
      rotation widget shows the rotation in degrees and sets it back.
      `hueEdit` and `rotationEdit` are the degrees the user dragged or typed
      to, if any. */
  function View(r: RainbowPencil, hueEdit: Option<real>, rotationEdit: Option<real>): (out: RainbowPencil)
    ensures out.colorHsv.s == r.colorHsv.s && out.colorHsv.v == r.colorHsv.v
    ensures out.lastPixel == r.lastPixel
    ensures hueEdit.None? ==> out.colorHsv.h == RemOne(r.colorHsv.h)
    ensures hueEdit.Some? ==> out.colorHsv.h * 360.0 == hueEdit.value
    ensures rotationEdit.None? ==> out.rotationPerPixel == r.rotationPerPixel
    ensures rotationEdit.Some? ==> out.rotationPerPixel * 360.0 == rotationEdit.value
  {
    var degrees := if hueEdit.Some? then hueEdit.value else RemOne(r.colorHsv.h) * 360.0;
    var rotationDegrees := if rotationEdit.Some? then rotationEdit.value else r.rotationPerPixel * 360.0;
    r.(colorHsv := r.colorHsv.(h := degrees / 360.0), rotationPerPixel := rotationDegrees / 360.0)
  }

  /** Untouched, the widgets change the pencil on the first frame at most:
      afterwards the stored hue is already reduced, and a hue strictly
      between -1 and 1 is left alone from the start. */
  lemma ViewSettles(r: RainbowPencil)
    ensures View(View(r, None, None), None, None) == View(r, None, None)
    ensures -1.0 < r.colorHsv.h < 1.0 ==> View(r, None, None) == r
  {
  }

  /** A stroke replayed from the pencil as a frame leaves it starts from the
      reduced hue: with no previous position, the hue after painting `ps` is
      the reduced hue plus one rotation per change of position. */
  lemma RunAfterView(lib: Library, r: RainbowPencil, ps: seq<UVec2>)
    requires r.lastPixel.None?
    ensures Run(lib, View(r, None, None), ps).colorHsv.h ==
      RemOne(r.colorHsv.h) + Changes(ps) as real * r.rotationPerPixel
  {
    RunHue(lib, View(r, None, None), ps);
  }
}
