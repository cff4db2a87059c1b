/** `CanvasSelection::get_pixels` of `src/selectors/collection/canvas.rs`: every
    pixel coordinate of an image in row-major order. The same enumeration is
    what `Image::iter_coords` yields to Fill and the magic wand. */
module Canvas {
  import opened Wrappers
  import opened Images

  /** The position of pixel `p` in row-major order. */
  function Rank(p: UVec2, w: nat): nat
  {
    p.y * w + p.x
  }

  function RowMajorSeq(w: nat, h: nat): seq<UVec2>
  {
    if w == 0 then [] else seq(w * h, i requires 0 <= i < w * h => UVec2(i % w, i / w))
  }

  lemma RowMajorElement(w: nat, h: nat, i: nat)
    requires 0 < w && i < w * h
    ensures |RowMajorSeq(w, h)| == w * h
    ensures RowMajorSeq(w, h)[i] == UVec2(i % w, i / w)
  {
  }

  /** The coordinates of a `w` × `h` raster, row by row: element `i` is
      `(i % w, i / w)`, so pixel `p` sits at `Rank(p, w)`. A zero width gives
      the empty range, so there is no division by zero. */
  function Coords(w: nat, h: nat): (r: seq<UVec2>)
    ensures |r| == w * h
    ensures forall i :: 0 <= i < |r| ==> r[i].x < w && r[i].y < h && Rank(r[i], w) == i
    ensures forall p: UVec2 :: p.x < w && p.y < h ==> Rank(p, w) < |r| && r[Rank(p, w)] == p
  {
    var r := RowMajorSeq(w, h);
    forall i | 0 <= i < |r|
      ensures r[i].x < w && r[i].y < h && Rank(r[i], w) == i
    {
      RowMajorElement(w, h, i);
      DivBound(i, w, h);
      DivMod(i, w);
    }
    forall p: UVec2 | p.x < w && p.y < h
      ensures Rank(p, w) < |r| && r[Rank(p, w)] == p
    {
      RowMajor(p, w, h);
      RowMajorElement(w, h, Rank(p, w));
    }
    r
  }

  lemma DivMod(i: nat, w: nat)
    requires 0 < w
    ensures i == (i / w) * w + i % w && 0 <= i % w < w
  {
  }

  lemma MulCancel(q: nat, h: nat, w: nat)
    requires q * w < h * w
    ensures q < h
  {
  }

  lemma DivBound(i: nat, w: nat, h: nat)
    requires 0 < w && i < w * h
    ensures i / w < h
  {
    DivMod(i, w);
    MulCancel(i / w, h, w);
  }

  lemma MulSign(k: int, w: int)
    requires w > 0
    ensures k >= 1 ==> k * w >= w
    ensures k <= -1 ==> k * w <= 0 - w
  {
    if k >= 1 {
      assert k * w == w + (k - 1) * w;
    } else if k <= -1 {
      assert k * w == (k + 1) * w - w;
    }
  }

  /** Quotient and remainder by `w` are unique. */
  lemma Unique(q: int, r: int, y: int, x: int, w: int)
    requires 0 <= r < w && 0 <= x < w && q * w + r == y * w + x
    ensures q == y && r == x
  {
    assert (q - y) * w == x - r;
    MulSign(q - y, w);
  }

  lemma RowMajor(p: UVec2, w: nat, h: nat)
    requires p.x < w && p.y < h
    ensures Rank(p, w) < w * h
    ensures Rank(p, w) % w == p.x && Rank(p, w) / w == p.y
  {
    var i := Rank(p, w);
    assert (p.y + 1) * w == p.y * w + w;
    assert (p.y + 1) * w <= h * w;
    DivMod(i, w);
    Unique(i / w, i % w, p.y, p.x, w);
  }

  /** `get_pixels`: no pixels without an image. */
  function GetPixels(image: Option<Image>): (r: seq<UVec2>)
    ensures image.None? ==> r == []
    ensures image.Some? ==> |r| == image.value.width * image.value.height
    ensures image.Some? ==> forall i :: 0 <= i < |r| ==> ContainsPixel(image.value, r[i])
  {
    match image
    case None => []
    case Some(img) => Coords(img.width, img.height)
  }

  /** Every pixel of the image appears, and no coordinate appears twice. */
  lemma EveryPixelOnce(img: Image)
    ensures var r := GetPixels(Some(img));
      (forall p :: ContainsPixel(img, p) ==> p in r) &&
      (forall i, j :: 0 <= i < |r| && 0 <= j < |r| && r[i] == r[j] ==> i == j)
  {
    var r := GetPixels(Some(img));
    var w := img.width;
    forall p | ContainsPixel(img, p)
      ensures p in r
    {
      assert r[Rank(p, w)] == p;
    }
    forall i, j | 0 <= i < |r| && 0 <= j < |r| && r[i] == r[j]
      ensures i == j
    {
      RowMajorElement(w, img.height, i);
      RowMajorElement(w, img.height, j);
      DivMod(i, w);
      DivMod(j, w);
    }
  }

  /** The enumeration as compiled: `size.x * size.y` is a `u32` product, which
      wraps modulo 2^32 in a release build. */
  const U32_MODULUS: nat := 0x1_0000_0000

  function CoordsAsWritten(w: nat, h: nat): (r: seq<UVec2>)
    ensures |r| == (w * h) % U32_MODULUS
  {
    if w == 0 then []
    else seq((w * h) % U32_MODULUS, i requires 0 <= i < (w * h) % U32_MODULUS => UVec2(i % w, i / w))
  }

  /** Below 2^32 pixels the compiled enumeration is the intended one. */
  lemma AsWrittenAgrees(w: nat, h: nat)
    requires w * h < U32_MODULUS
    ensures CoordsAsWritten(w, h) == Coords(w, h)
  {
  }

  /** A 65536 × 65536 image has 2^32 pixels, and the wrapped count is zero:
      no pixel is enumerated. */
  lemma AsWrittenDropsEveryPixel()
    ensures CoordsAsWritten(0x1_0000, 0x1_0000) == []
    ensures |Coords(0x1_0000, 0x1_0000)| == U32_MODULUS
  {
    assert 0x1_0000 * 0x1_0000 == U32_MODULUS;
  }
}
