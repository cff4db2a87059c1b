/** `PixelSorter` of `src/modifier/collection/pencil/sort.rs`: from the pixel
    under the pencil, collect the run of similar-brightness pixels along a
    direction, then write the run's colours back sorted by brightness, in
    the order of the positions sorted along the direction. */
module PixelSorters {
  import opened Wrappers
  import opened Images
  import opened Applied
  import opened Sorting

  datatype SortDirection = Forward | Backward | Both

  /** A vector with integer components. */
  datatype IVec2 = IVec2(x: int, y: int)

  /** The walking direction. The program uses `(cos angle, sin angle)`; here it
      is a non-zero integer step, so every position on a walk is a pixel. */
  type Dir = v: IVec2 | v != IVec2(0, 0) witness IVec2(0, 1)

  function Neg(d: Dir): Dir
  {
    IVec2(-d.x, -d.y)
  }

  datatype PixelSorter = PixelSorter(threshold: AppliedValue<real>, angle: AppliedValue<Dir>, direction: SortDirection)

  /** `PixelSorter::default`: straight down (an angle of π/2), threshold 0.1,
      both directions, all committed. */
  function Default(): (r: PixelSorter)
    ensures r.angle.Get() == IVec2(0, 1) && r.angle.temp == r.angle.Get()
    ensures r.threshold.Get() == 0.1 && r.threshold.temp == r.threshold.Get()
    ensures r.direction == Both
  {
    PixelSorter(Applied.New(0.1), Applied.New(IVec2(0, 1)), Both)
  }

  /** Eq for `PixelSorter` (derived, through `AppliedValue`'s equality). */
  predicate Eq(a: PixelSorter, b: PixelSorter)
  {
    Applied.Eq(a.threshold, b.threshold) && Applied.Eq(a.angle, b.angle) && a.direction == b.direction
  }

  /** The reading taken for `pixel_at_vec2`: a position is a pixel only when
      both components are non-negative and inside the image. */
  predicate Inside(img: Image, v: IVec2)
  {
    0 <= v.x < img.width && 0 <= v.y < img.height
  }

  function Advance(p: UVec2, d: Dir): IVec2
  {
    IVec2(p.x + d.x, p.y + d.y)
  }

  function ToUVec2(v: IVec2): UVec2
    requires v.x >= 0 && v.y >= 0
  {
    UVec2(v.x, v.y)
  }

  /** One turn of a walk's `loop` goes on: the current and the next position
      are both pixels of the image and their brightness is close. */
  predicate CanStep(img: Image, cur: UVec2, d: Dir, t: real)
  {
    ContainsPixel(img, cur) && Inside(img, Advance(cur, d)) &&
    Similar(At(img, cur), At(img, ToUVec2(Advance(cur, d))), t)
  }

  /** How far a walk can still go: the distance to the image's edge along a
      component in which `d` moves. */
  function Remaining(img: Image, cur: UVec2, d: Dir): nat
  {
    if d.x > 0 then (if cur.x < img.width then img.width - cur.x else 0)
    else if d.x < 0 then cur.x + 1
    else if d.y > 0 then (if cur.y < img.height then img.height - cur.y else 0)
    else cur.y + 1
  }

  /** The coordinate that a walk along `d` strictly increases. */
  function Along(d: Dir, p: UVec2): int
  {
    if d.x > 0 then p.x else if d.x < 0 then -(p.x as int) else if d.y > 0 then p.y else -(p.y as int)
  }

  lemma AlongNeg(d: Dir, p: UVec2)
    ensures Along(Neg(d), p) == -Along(d, p)
  {
  }

  /** The positions one walk pushes, starting after `cur`. */
  function Walk(img: Image, cur: UVec2, d: Dir, t: real): (r: seq<UVec2>)
    ensures forall i :: 0 <= i < |r| ==> ContainsPixel(img, r[i])
    ensures forall i :: 0 <= i < |r| ==> Along(d, r[i]) > Along(d, cur)
    ensures forall i, j :: 0 <= i < j < |r| ==> Along(d, r[i]) < Along(d, r[j])
    decreases Remaining(img, cur, d)
  {
    if CanStep(img, cur, d, t) then
      var next := ToUVec2(Advance(cur, d));
      [next] + Walk(img, next, d, t)
    else []
  }

  /** A walk is the chain of steps from `cur`, each allowed, and it stops at
      the first step that is not. */
  lemma {:induction false} WalkShape(img: Image, cur: UVec2, d: Dir, t: real)
    ensures var r := Walk(img, cur, d, t);
      r != [] ==> CanStep(img, cur, d, t) && r[0] == ToUVec2(Advance(cur, d))
    ensures var r := Walk(img, cur, d, t);
      forall i :: 0 <= i < |r| - 1 ==> CanStep(img, r[i], d, t) && r[i + 1] == ToUVec2(Advance(r[i], d))
    ensures var r := Walk(img, cur, d, t);
      !CanStep(img, if r == [] then cur else r[|r| - 1], d, t)
    decreases Remaining(img, cur, d)
  {
    if CanStep(img, cur, d, t) {
      var next := ToUVec2(Advance(cur, d));
      WalkShape(img, next, d, t);
      var rest := Walk(img, next, d, t);
      var r := Walk(img, cur, d, t);
      assert r == [next] + rest;
      forall i | 0 <= i < |r| - 1
        ensures CanStep(img, r[i], d, t) && r[i + 1] == ToUVec2(Advance(r[i], d))
      {
        assert r[i + 1] == rest[i];
        if i > 0 {
          assert r[i] == rest[i - 1];
        }
      }
      if rest != [] {
        assert r[|r| - 1] == rest[|rest| - 1];
      }
    }
  }

  /** A walk from a position outside the image pushes nothing. */
  lemma WalkFromOutside(img: Image, cur: UVec2, d: Dir, t: real)
    requires !ContainsPixel(img, cur)
    ensures Walk(img, cur, d, t) == []
  {
  }

  predicate Distinct<T(==)>(s: seq<T>)
  {
    forall i, j :: 0 <= i < j < |s| ==> s[i] != s[j]
  }

  /** The positions the two walks and the seed contribute: the seed if it is
      a pixel, then the walk along `-direction` (`Forward`, `Both`), then the
      walk along `+direction` (`Backward`, `Both`). */
  function Run(img: Image, seed: UVec2, s: PixelSorter): (r: seq<UVec2>)
    ensures forall i :: 0 <= i < |r| ==> ContainsPixel(img, r[i])
    ensures seed in r <==> ContainsPixel(img, seed)
    ensures Distinct(r)
  {
    var d := s.angle.Get();
    var t := s.threshold.Get();
    var head := if ContainsPixel(img, seed) then [seed] else [];
    var forward := if s.direction != Backward then Walk(img, seed, Neg(d), t) else [];
    var backward := if s.direction != Forward then Walk(img, seed, d, t) else [];
    RunDistinct(d, seed, head, forward, backward);
    head + forward + backward
  }

  lemma RunDistinct(d: Dir, seed: UVec2, head: seq<UVec2>, forward: seq<UVec2>, backward: seq<UVec2>)
    requires head == [] || head == [seed]
    requires forall i :: 0 <= i < |forward| ==> Along(Neg(d), forward[i]) > Along(Neg(d), seed)
    requires forall i, j :: 0 <= i < j < |forward| ==> Along(Neg(d), forward[i]) < Along(Neg(d), forward[j])
    requires forall i :: 0 <= i < |backward| ==> Along(d, backward[i]) > Along(d, seed)
    requires forall i, j :: 0 <= i < j < |backward| ==> Along(d, backward[i]) < Along(d, backward[j])
    ensures Distinct(head + forward + backward) && seed !in forward + backward
  {
    var r := head + forward + backward;
    var h, f := |head|, |forward|;
    forall i | 0 <= i < |forward|
      ensures Along(d, forward[i]) < Along(d, seed)
    {
      AlongNeg(d, forward[i]);
      AlongNeg(d, seed);
    }
    forall i, j | 0 <= i < j < |r|
      ensures r[i] != r[j]
    {
      if h <= i && j < h + f {
        assert r[i] == forward[i - h] && r[j] == forward[j - h];
      } else if h + f <= i {
        assert r[i] == backward[i - h - f] && r[j] == backward[j - h - f];
      } else if h <= i {
        assert r[i] == forward[i - h] && r[j] == backward[j - h - f];
      } else if j < h + f {
        assert r[j] == forward[j - h];
      } else {
        assert r[j] == backward[j - h - f];
      }
    }
  }

  /** The sort key of the program, `dot(direction, p) * length(p)`, without
      the square root: `v * |v|` is increasing in `v`, and `dot² * length²`
      is the square of the program's key, so the order is the same. */
  function Key(d: Dir, p: UVec2): int
  {
    var dot := d.x * p.x + d.y * p.y;
    var mag := if dot < 0 then -dot else dot;
    dot * mag * (p.x * p.x + p.y * p.y)
  }

  /** The position order: descending key (the comparator is reversed). */
  function PositionOrder(d: Dir): (UVec2, UVec2) -> bool
  {
    (a, b) => Key(d, a) >= Key(d, b)
  }

  /** The colour order: ascending brightness. */
  function BrightnessOrder(): (Color, Color) -> bool
  {
    (a, b) => SumRgb(a) <= SumRgb(b)
  }

  lemma PositionOrderTotal(d: Dir)
    ensures TotalPreorder(PositionOrder(d))
  {
  }

  lemma BrightnessOrderTotal()
    ensures TotalPreorder(BrightnessOrder())
  {
  }

  lemma SameElements<T>(a: seq<T>, b: seq<T>)
    requires multiset(a) == multiset(b)
    ensures forall x :: x in a <==> x in b
  {
    forall x
      ensures x in a <==> x in b
    {
      assert x in a <==> x in multiset(a);
      assert x in b <==> x in multiset(b);
    }
  }

  /** The run, sorted along the direction. */
  function SortedPositions(img: Image, seed: UVec2, s: PixelSorter): (r: seq<UVec2>)
    ensures multiset(r) == multiset(Run(img, seed, s))
    ensures forall p :: p in r <==> p in Run(img, seed, s)
    ensures forall i :: 0 <= i < |r| ==> ContainsPixel(img, r[i])
    ensures SortedBy(r, PositionOrder(s.angle.Get()))
  {
    var run := Run(img, seed, s);
    var r := SortBy(run, PositionOrder(s.angle.Get()));
    PositionOrderTotal(s.angle.Get());
    SortBySorted(run, PositionOrder(s.angle.Get()));
    SameElements(r, run);
    PermutedInBounds(img, r, run);
    r
  }

  lemma PermutedInBounds(img: Image, a: seq<UVec2>, b: seq<UVec2>)
    requires forall x :: x in a ==> x in b
    requires forall i :: 0 <= i < |b| ==> ContainsPixel(img, b[i])
    ensures forall i :: 0 <= i < |a| ==> ContainsPixel(img, a[i])
  {
    forall i | 0 <= i < |a|
      ensures ContainsPixel(img, a[i])
    {
      assert a[i] in b;
    }
  }

  /** The colours at `ps`, in order (`pixel_at_vec2(..).unwrap()`). */
  function Read(img: Image, ps: seq<UVec2>): (r: seq<Color>)
    requires forall i :: 0 <= i < |ps| ==> ContainsPixel(img, ps[i])
    ensures |r| == |ps|
    ensures forall i :: 0 <= i < |ps| ==> r[i] == At(img, ps[i])
  {
    seq(|ps|, i requires 0 <= i < |ps| => At(img, ps[i]))
  }

  /** The run's colours, sorted by brightness. */
  function SortedColors(img: Image, seed: UVec2, s: PixelSorter): (r: seq<Color>)
    ensures |r| == |SortedPositions(img, seed, s)|
    ensures multiset(r) == multiset(Read(img, SortedPositions(img, seed, s)))
  {
    SortBy(Read(img, SortedPositions(img, seed, s)), BrightnessOrder())
  }

  /** The zip loop: colour `cs[i]` written at `ps[i]`, in order. */
  function WriteBack(img: Image, ps: seq<UVec2>, cs: seq<Color>): (r: Image)
    requires |ps| == |cs|
    ensures Size(r) == Size(img)
    ensures forall q :: ContainsPixel(img, q) && q !in ps ==> At(r, q) == At(img, q)
    decreases |ps|
  {
    if ps == [] then img
    else
      var n := |ps| - 1;
      WritePixel(WriteBack(img, ps[..n], cs[..n]), ps[n], cs[n])
  }

  /** With distinct in-range positions, each position ends up holding its
      own colour. */
  lemma WriteBackLands(img: Image, ps: seq<UVec2>, cs: seq<Color>)
    requires |ps| == |cs| && Distinct(ps)
    requires forall i :: 0 <= i < |ps| ==> ContainsPixel(img, ps[i])
    ensures Read(WriteBack(img, ps, cs), ps) == cs
  {
    var r := WriteBack(img, ps, cs);
    forall i | 0 <= i < |ps|
      ensures At(r, ps[i]) == cs[i]
    {
      WriteBackAt(img, ps, cs, i);
    }
  }

  /** The `i`-th position holds the `i`-th colour: later writes go to other
      positions. */
  lemma {:induction false} WriteBackAt(img: Image, ps: seq<UVec2>, cs: seq<Color>, i: nat)
    requires |ps| == |cs| && Distinct(ps) && i < |ps|
    requires forall j :: 0 <= j < |ps| ==> ContainsPixel(img, ps[j])
    ensures ContainsPixel(WriteBack(img, ps, cs), ps[i])
    ensures At(WriteBack(img, ps, cs), ps[i]) == cs[i]
    decreases |ps|
  {
    var n := |ps| - 1;
    var before := WriteBack(img, ps[..n], cs[..n]);
    assert WriteBack(img, ps, cs) == WritePixel(before, ps[n], cs[n]);
    if i < n {
      assert ps[..n][i] == ps[i] && cs[..n][i] == cs[i];
      WriteBackAt(img, ps[..n], cs[..n], i);
      assert ps[i] != ps[n];
    }
  }

  /** `PixelSorter::pixel`: the image with the run's colours permuted; no
      colour for the pencil to paint. */
  function Pixel(s: PixelSorter, seed: UVec2, img: Image): (r: (Image, Option<Color>))
    ensures r.1.None?
    ensures Size(r.0) == Size(img)
    ensures forall q :: ContainsPixel(img, q) && q !in Run(img, seed, s) ==> At(r.0, q) == At(img, q)
  {
    (WriteBack(img, SortedPositions(img, seed, s), SortedColors(img, seed, s)), None)
  }

  /** `PixelSorter::view`, one frame: the threshold and angle widgets go
      through `AppliedValue::view` (the angle's round trip through degrees
      is exact on directions), and a click on a direction button selects
      that direction. */
  function View(s: PixelSorter, threshold: Response<real>, angle: Response<Dir>, direction: Option<SortDirection>): (r: PixelSorter)
    ensures r.threshold == ViewWidget(s.threshold, threshold)
    ensures r.angle == ViewWidget(s.angle, angle)
    ensures direction.Some? ==> r.direction == direction.value
    ensures direction.None? ==> r.direction == s.direction
  {
    PixelSorter(ViewWidget(s.threshold, threshold), ViewWidget(s.angle, angle),
      if direction.Some? then direction.value else s.direction)
  }

  /** Settings that compare equal sort alike: only the committed threshold
      and angle, and the direction, decide the run and the result. */
  lemma EqSortsAlike(a: PixelSorter, b: PixelSorter, seed: UVec2, img: Image)
    requires Eq(a, b)
    ensures Run(img, seed, a) == Run(img, seed, b)
    ensures Pixel(a, seed, img) == Pixel(b, seed, img)
  {
    assert a.threshold.Get() == b.threshold.Get() && a.angle.Get() == b.angle.Get();
  }

  /** Dragging the threshold or the angle without releasing it leaves the
      sorter equal to what it was, so it sorts exactly as before. */
  lemma UncommittedEditSortsAlike(s: PixelSorter, threshold: Response<real>, angle: Response<Dir>, seed: UVec2, img: Image)
    requires !threshold.dragReleased && !threshold.lostFocus
    requires !angle.dragReleased && !angle.lostFocus
    ensures Eq(View(s, threshold, angle, None), s)
    ensures Pixel(View(s, threshold, angle, None), seed, img) == Pixel(s, seed, img)
  {
    EqSortsAlike(View(s, threshold, angle, None), s, seed, img);
  }

  /** The sorted positions are distinct, because the run is. */
  lemma PositionsDistinct(img: Image, seed: UVec2, s: PixelSorter)
    ensures Distinct(SortedPositions(img, seed, s))
  {
    PermutationDistinct(SortedPositions(img, seed, s), Run(img, seed, s));
  }

  /** A rearrangement of a sequence without repetition has none either. */
  lemma PermutationDistinct<T>(a: seq<T>, b: seq<T>)
    requires multiset(a) == multiset(b) && Distinct(b)
    ensures Distinct(a)
  {
    forall i, j | 0 <= i < j < |a|
      ensures a[i] != a[j]
    {
      if a[i] == a[j] {
        TwoOccurrences(a, i, j);
        var x := a[i];
        assert x in multiset(b);
        var k :| 0 <= k < |b| && b[k] == x;
        DistinctCount(b, k);
      }
    }
  }

  lemma TwoOccurrences<T>(a: seq<T>, i: nat, j: nat)
    requires i < j < |a| && a[i] == a[j]
    ensures multiset(a)[a[i]] >= 2
  {
    assert a == a[..j] + a[j..];
    assert a[..j][i] == a[i] && a[j..][0] == a[i];
    assert multiset(a) == multiset(a[..j]) + multiset(a[j..]);
  }

  /** In a sequence without repetition an element occurs once. */
  lemma {:induction false} DistinctCount<T>(s: seq<T>, k: nat)
    requires Distinct(s) && k < |s|
    ensures multiset(s)[s[k]] == 1
    decreases |s|
  {
    var n := |s| - 1;
    assert s == s[..n] + [s[n]];
    if k == n {
      assert s[n] !in s[..n];
    } else {
      DistinctCount(s[..n], k);
      assert s[..n][k] == s[k];
    }
  }

  /** After the call the run holds exactly the colours it held before, and,
      read in position order, their brightness never decreases. */
  lemma SortsRun(s: PixelSorter, seed: UVec2, img: Image)
    ensures var ps := SortedPositions(img, seed, s);
      var out := Pixel(s, seed, img).0;
      multiset(Read(out, ps)) == multiset(Read(img, ps)) &&
      SortedBy(Read(out, ps), BrightnessOrder())
  {
    var ps := SortedPositions(img, seed, s);
    PositionsDistinct(img, seed, s);
    WriteBackLands(img, ps, SortedColors(img, seed, s));
    BrightnessOrderTotal();
    SortBySorted(Read(img, ps), BrightnessOrder());
  }

  /** Each walk's `loop`: step while allowed, pushing each new position. */
  method WalkLoop(img: Image, start: UVec2, d: Dir, t: real) returns (pushed: seq<UVec2>)
    ensures pushed == Walk(img, start, d, t)
  {
    pushed := [];
    var cur := start;
    while true
      invariant pushed + Walk(img, cur, d, t) == Walk(img, start, d, t)
      decreases Remaining(img, cur, d)
    {
      WalkUnfold(img, cur, d, t);
      var next := Advance(cur, d);
      if !ContainsPixel(img, cur) || !Inside(img, next) {
        break;
      }
      var nextPixel := ToUVec2(next);
      if !Similar(At(img, cur), At(img, nextPixel), t) {
        break;
      }
      assert (pushed + [nextPixel]) + Walk(img, nextPixel, d, t) == pushed + Walk(img, cur, d, t);
      pushed := pushed + [nextPixel];
      cur := nextPixel;
    }
  }

  /** One turn of the walk: a step that is allowed is taken and brings the
      edge closer; otherwise the walk ends. */
  lemma WalkUnfold(img: Image, cur: UVec2, d: Dir, t: real)
    ensures CanStep(img, cur, d, t) ==>
      Walk(img, cur, d, t) == [ToUVec2(Advance(cur, d))] + Walk(img, ToUVec2(Advance(cur, d)), d, t) &&
      Remaining(img, ToUVec2(Advance(cur, d)), d) < Remaining(img, cur, d)
    ensures !CanStep(img, cur, d, t) ==> Walk(img, cur, d, t) == []
  {
  }

  /** The `for` loop that reads the colours. */
  method ReadLoop(img: Image, ps: seq<UVec2>) returns (colors: seq<Color>)
    requires forall i :: 0 <= i < |ps| ==> ContainsPixel(img, ps[i])
    ensures colors == Read(img, ps)
  {
    colors := [];
    for i := 0 to |ps|
      invariant colors == Read(img, ps[..i])
    {
      colors := colors + [At(img, ps[i])];
    }
    assert ps[..|ps|] == ps;
  }

  /** The zip loop that writes them back. */
  method WriteBackLoop(img: Image, ps: seq<UVec2>, cs: seq<Color>) returns (r: Image)
    requires |ps| == |cs|
    ensures r == WriteBack(img, ps, cs)
  {
    r := img;
    for i := 0 to |ps|
      invariant r == WriteBack(img, ps[..i], cs[..i])
    {
      assert ps[..i + 1][..i] == ps[..i] && cs[..i + 1][..i] == cs[..i];
      r := WritePixel(r, ps[i], cs[i]);
    }
    assert ps[..|ps|] == ps && cs[..|cs|] == cs;
  }

  /** The first half of `PixelSorter::pixel`: the seed, then the walks. */
  method CollectRun(s: PixelSorter, seed: UVec2, img: Image) returns (positions: seq<UVec2>)
    ensures positions == Run(img, seed, s)
  {
    var d := s.angle.Get();
    var t := s.threshold.Get();
    positions := [];
    if ContainsPixel(img, seed) {
      positions := positions + [seed];
    }
    var forward: seq<UVec2> := [];
    if s.direction == Forward || s.direction == Both {
      forward := WalkLoop(img, seed, Neg(d), t);
    }
    positions := positions + forward;
    var backward: seq<UVec2> := [];
    if s.direction == Backward || s.direction == Both {
      backward := WalkLoop(img, seed, d, t);
    }
    positions := positions + backward;
  }

  /** `PixelSorter::pixel` step by step. */
  method PixelSteps(s: PixelSorter, seed: UVec2, img: Image) returns (out: Image, color: Option<Color>)
    ensures (out, color) == Pixel(s, seed, img)
  {
    var run := CollectRun(s, seed, img);
    var positions := SortBy(run, PositionOrder(s.angle.Get()));
    assert positions == SortedPositions(img, seed, s);
    var colors := ReadLoop(img, positions);
    colors := SortBy(colors, BrightnessOrder());
    assert colors == SortedColors(img, seed, s);
    out := WriteBackLoop(img, positions, colors);
    color := None;
  }
}
