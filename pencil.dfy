/** `PencilMod` of `src/modifier/collection/pencil/mod.rs`: a recorded
    stroke (the pixels the pointer went over) replayed through a pencil each
    time the modifier is applied. */
module Pencils {
  import opened Wrappers
  import opened Images
  import opened Positions
  import opened Primitives
  import opened Cations
  import Applied
  import SimplePencils
  import RainbowPencils
  import PixelSorters

  /** The three pencils the registry instantiates `PencilMod` with. */
  datatype Pencil =
    | Simple(simple: SimplePencils.SimplePencil)
    | Rainbow(rainbow: RainbowPencils.RainbowPencil)
    | Sorter(sorter: PixelSorters.PixelSorter)

  datatype PencilMod = PencilMod(pixels: seq<UVec2>, pencil: Pencil, lastPixel: Option<Position>)

  /** `PencilMod::default`: no stroke, the pencil's default, no previous
      position. */
  function Default(pencil: Pencil): (r: PencilMod)
    ensures r.pixels == [] && r.pencil == pencil && r.lastPixel.None?
  {
    PencilMod([], pencil, None)
  }

  /** Equality of the pencil (derived on each pencil type; the sorter's
      settings compare their applied values only). */
  predicate PencilEq(a: Pencil, b: Pencil)
  {
    match (a, b)
    case (Simple(x), Simple(y)) => x == y
    case (Rainbow(x), Rainbow(y)) => x == y
    case (Sorter(x), Sorter(y)) => PixelSorters.Eq(x, y)
    case _ => false
  }

  /** Derived equality of `PencilMod`. */
  predicate Eq(a: PencilMod, b: PencilMod)
  {
    a.pixels == b.pixels && PencilEq(a.pencil, b.pencil) && a.lastPixel == b.lastPixel
  }

  /** `Pencil::pixel` on the pencil in hand: the pencil afterwards, the image
      afterwards, and the colour to paint, if any. */
  function PencilPixel(lib: Library, pen: Pencil, p: UVec2, img: Image): (r: (Pencil, Image, Option<Color>))
    ensures Size(r.1) == Size(img)
    ensures pen.Simple? ==> r == (pen, img, Some(FromColor32(pen.simple.color)))
    ensures pen.Rainbow? ==> r.0.Rainbow? && r.1 == img && r.2.Some?
    ensures pen.Sorter? ==> r.0 == pen && r.2.None?
  {
    match pen
    case Simple(s) => (pen, img, SimplePencils.Pixel(s, p, img))
    case Rainbow(rb) =>
      var (next, c) := RainbowPencils.Pixel(lib, rb, p);
      (Rainbow(next), img, Some(c))
    case Sorter(s) =>
      var (out, c) := PixelSorters.Pixel(s, p, img);
      (pen, out, c)
  }

  /** One turn of the replay loop: ask the pencil, then write its colour, if
      any, with `set_pixel(..).ok()`. */
  function Paint(lib: Library, state: (Pencil, Image), p: UVec2): (r: (Pencil, Image))
    ensures Size(r.1) == Size(state.1)
  {
    var (pen, img, c) := PencilPixel(lib, state.0, p, state.1);
    (pen, if c.Some? then WritePixel(img, p, c.value) else img)
  }

  /** The replay of `ps` in recording order. */
  function Replay(lib: Library, pen: Pencil, img: Image, ps: seq<UVec2>): (r: (Pencil, Image))
    ensures Size(r.1) == Size(img)
    decreases |ps|
  {
    if ps == [] then (pen, img)
    else Paint(lib, Replay(lib, pen, img, ps[..|ps| - 1]), ps[|ps| - 1])
  }

  /** `PencilMod::apply`: the input image with the stroke replayed through a
      copy of the pencil; the modifier itself is left as it was. */
  function Apply(lib: Library, m: PencilMod, input: Output): (r: Option<Image>)
    ensures r.Some? <==> input.image.Some?
    ensures r.Some? ==> Size(r.value) == Size(input.image.value)
  {
    match input.image
    case None => None
    case Some(img) => Some(Replay(lib, m.pencil, img, m.pixels).1)
  }

  /** The replay loop of `PencilMod::apply`. */
  method ApplyLoop(lib: Library, m: PencilMod, input: Output) returns (r: Option<Image>)
    ensures r == Apply(lib, m, input)
  {
    if input.image.None? {
      return None;
    }
    var image := input.image.value;
    var pencil := m.pencil;
    for i := 0 to |m.pixels|
      invariant (pencil, image) == Replay(lib, m.pencil, input.image.value, m.pixels[..i])
    {
      assert m.pixels[..i + 1][..i] == m.pixels[..i];
      var p := m.pixels[i];
      var asked := PencilPixel(lib, pencil, p, image);
      pencil := asked.0;
      image := asked.1;
      var color := asked.2;
      if color.Some? {
        image := WritePixel(image, p, color.value);
      }
    }
    assert m.pixels[..|m.pixels|] == m.pixels;
    return Some(image);
  }

  /** With a simple pencil every recorded pixel of the image ends up in the
      pencil's colour and every other pixel keeps its own. */
  lemma {:induction false} SimpleReplay(lib: Library, pen: SimplePencils.SimplePencil, img: Image, ps: seq<UVec2>)
    ensures var out := Replay(lib, Simple(pen), img, ps);
      out.0 == Simple(pen) &&
      forall q :: ContainsPixel(img, q) ==>
        At(out.1, q) == if q in ps then FromColor32(pen.color) else At(img, q)
    decreases |ps|
  {
    if ps != [] {
      var n := |ps| - 1;
      SimpleReplay(lib, pen, img, ps[..n]);
      assert forall q :: q in ps <==> q in ps[..n] || q == ps[n];
    }
  }

  /** With a rainbow pencil the replay leaves the image's pencil state where
      painting the stroke leaves the pencil. */
  lemma {:induction false} RainbowReplay(lib: Library, pen: RainbowPencils.RainbowPencil, img: Image, ps: seq<UVec2>)
    ensures Replay(lib, Rainbow(pen), img, ps).0 == Rainbow(RainbowPencils.Run(lib, pen, ps))
    decreases |ps|
  {
    if ps != [] {
      RainbowReplay(lib, pen, img, ps[..|ps| - 1]);
    }
  }

  /** With a pixel sorter nothing is painted: each recorded pixel only
      permutes the run through it, and the sorter is unchanged. */
  lemma {:induction false} SorterReplay(lib: Library, pen: PixelSorters.PixelSorter, img: Image, ps: seq<UVec2>)
    ensures Replay(lib, Sorter(pen), img, ps).0 == Sorter(pen)
    ensures ps != [] ==>
      var before := Replay(lib, Sorter(pen), img, ps[..|ps| - 1]).1;
      Replay(lib, Sorter(pen), img, ps).1 == PixelSorters.Pixel(pen, ps[|ps| - 1], before).0
    decreases |ps|
  {
    if ps != [] {
      SorterReplay(lib, pen, img, ps[..|ps| - 1]);
    }
  }

  /** `ceil(sqrt(d2))`: the least `n` whose square reaches `d2`. */
  function CeilSqrt(d2: real): (n: nat)
    ensures (n * n) as real >= d2
    ensures n == 0 || ((n - 1) * (n - 1)) as real < d2
  {
    CeilSqrtFrom(d2, 0)
  }

  function CeilSqrtFrom(d2: real, k: nat): (n: nat)
    requires k == 0 || ((k - 1) * (k - 1)) as real < d2
    ensures n >= k
    ensures (n * n) as real >= d2
    ensures n == 0 || ((n - 1) * (n - 1)) as real < d2
    decreases d2.Floor + 1 - k
  {
    if (k * k) as real >= d2 then k
    else
      assert k <= k * k;
      CeilSqrtFrom(d2, k + 1)
  }

  /** The points `view` fills in between the previous and the current
      pointer position when the pointer jumped more than one pixel: the
      fractions `i / ceil(length)` of the way, for `i` from 1 below
      `ceil(length)`. */
  function Between(last: Position, pixel: Position): (r: seq<UVec2>)
    ensures var delta := Sub(pixel, last);
      |r| == if Dot(delta, delta) > 1.0 then CeilSqrt(Dot(delta, delta)) - 1 else 0
  {
    var delta := Sub(pixel, last);
    var d2 := Dot(delta, delta);
    if d2 > 1.0 then
      var n := CeilSqrt(d2);
      seq(n - 1, i requires 0 <= i < n - 1 => FilledPoint(last, pixel, n, i + 1))
    else []
  }

  /** Point `i` of `n` on the way from `last` to `pixel`, as a pixel. */
  function FilledPoint(last: Position, pixel: Position, n: nat, i: nat): UVec2
    requires n > 0
  {
    AsUVec2(Lerp(last, pixel, 1.0 / n as real * i as real))
  }

  /** What the pencils' own widgets report in one frame; each pencil reads
      only its own fields. */
  datatype PencilWidgets = PencilWidgets(
    color: Option<Color32>,
    hueDegrees: Option<real>,
    rotationDegrees: Option<real>,
    threshold: Applied.Response<real>,
    angle: Applied.Response<PixelSorters.Dir>,
    direction: Option<PixelSorters.SortDirection>)

  /** No widget was touched, dragged or left. */
  predicate Untouched(w: PencilWidgets)
  {
    w.color.None? && w.hueDegrees.None? && w.rotationDegrees.None? &&
    w.threshold == Applied.Response(None, false, false) && w.angle == Applied.Response(None, false, false) &&
    w.direction.None?
  }

  /** `Pencil::view` on the pencil in hand. */
  function PencilView(pen: Pencil, w: PencilWidgets): (r: Pencil)
    ensures pen.Simple? <==> r.Simple?
    ensures pen.Rainbow? <==> r.Rainbow?
    ensures pen.Sorter? <==> r.Sorter?
  {
    match pen
    case Simple(s) => Simple(SimplePencils.View(s, w.color))
    case Rainbow(rb) => Rainbow(RainbowPencils.View(rb, w.hueDegrees, w.rotationDegrees))
    case Sorter(s) => Sorter(PixelSorters.View(s, w.threshold, w.angle, w.direction))
  }

  /** Untouched widgets leave the pencil equal to what it was, except that
      the rainbow pencil's hue is reduced mod 1. */
  lemma UntouchedView(pen: Pencil, w: PencilWidgets)
    requires Untouched(w)
    ensures !pen.Rainbow? ==> PencilEq(PencilView(pen, w), pen)
    ensures pen.Rainbow? ==>
      var hue := RainbowPencils.RemOne(pen.rainbow.colorHsv.h);
      PencilView(pen, w) == Rainbow(pen.rainbow.(colorHsv := pen.rainbow.colorHsv.(h := hue)))
  {
  }

  /** One frame of `PencilMod::view`: first the pencil's own widgets, then
      the stroke recording. While this modifier is selected and the primary
      button is down outside any widget, the hovered position (when over
      the image) is appended, preceded by the filled-in points; releasing
      the button forgets the previous position. */
  function View(m: PencilMod, w: PencilWidgets, selected: bool, primaryDown: bool, wantsPointer: bool, hovered: Option<Position>): (r: PencilMod)
    ensures m.pixels <= r.pixels
    ensures r.pencil == PencilView(m.pencil, w)
    ensures !selected ==> r == m.(pencil := r.pencil)
    ensures selected && primaryDown && !wantsPointer && hovered.Some? ==>
      r.lastPixel == hovered &&
      |r.pixels| == |m.pixels| + 1 + (if m.lastPixel.Some? then |Between(m.lastPixel.value, hovered.value)| else 0) &&
      r.pixels[|r.pixels| - 1] == AsUVec2(hovered.value)
    ensures selected && primaryDown && !wantsPointer && hovered.None? ==> r == m.(pencil := r.pencil)
    ensures selected && !(primaryDown && !wantsPointer) ==> r.lastPixel.None? && r.pixels == m.pixels
  {
    var m := m.(pencil := PencilView(m.pencil, w));
    if !selected then m
    else if primaryDown && !wantsPointer then
      match hovered
      case None => m
      case Some(pos) =>
        var filled := if m.lastPixel.Some? then Between(m.lastPixel.value, pos) else [];
        m.(pixels := m.pixels + filled + [AsUVec2(pos)], lastPixel := Some(pos))
    else m.(lastPixel := None)
  }

  /** The `for` loop of `view` that pushes the filled-in points. */
  method BetweenLoop(last: Position, pixel: Position) returns (pushed: seq<UVec2>)
    ensures pushed == Between(last, pixel)
  {
    pushed := [];
    var delta := Sub(pixel, last);
    if Dot(delta, delta) > 1.0 {
      var n := CeilSqrt(Dot(delta, delta));
      ghost var all := Between(last, pixel);
      for i := 1 to n
        invariant pushed == all[..i - 1]
      {
        assert all[..i] == all[..i - 1] + [all[i - 1]];
        pushed := pushed + [FilledPoint(last, pixel, n, i)];
      }
      assert all[..n - 1] == all;
    }
  }

  /** The same frame step by step. */
  method ViewSteps(m: PencilMod, w: PencilWidgets, selected: bool, primaryDown: bool, wantsPointer: bool, hovered: Option<Position>) returns (r: PencilMod)
    ensures r == View(m, w, selected, primaryDown, wantsPointer, hovered)
  {
    var pencil := PencilView(m.pencil, w);
    r := m.(pencil := pencil);
    if !selected {
      return;
    }
    if primaryDown && !wantsPointer {
      if hovered.Some? {
        var pixel := hovered.value;
        var pixels := m.pixels;
        if m.lastPixel.Some? {
          var filled := BetweenLoop(m.lastPixel.value, pixel);
          pixels := pixels + filled;
        }
        r := m.(pixels := pixels + [AsUVec2(pixel)], pencil := pencil, lastPixel := Some(pixel));
      }
    } else {
      r := m.(pencil := pencil, lastPixel := None);
    }
  }
}
