/** `Position`, the two-component float vector of `src/position.rs`, over reals. */
module Positions {
  import opened Wrappers
  import Images

  datatype Position = Position(x: real, y: real)

  const I32_MIN: int := -0x8000_0000
  const I32_MAX: int := 0x7fff_ffff

  /** `from_u32`: an unsigned pixel coordinate as a position. */
  function FromU32(x: nat, y: nat): (r: Position)
    ensures r.x.Floor == x && r.y.Floor == y && r.x >= 0.0 && r.y >= 0.0
  {
    Position(x as real, y as real)
  }

  /** `from_i32`: a signed coordinate as a position. */
  function FromI32(x: int, y: int): (r: Position)
    ensures r.x.Floor == x && r.y.Floor == y
  {
    Position(x as real, y as real)
  }

  const ZERO: Position := FromU32(0, 0)
  const ONE: Position := FromU32(1, 1)

  /** Rounding toward zero, the integer part Rust's float-to-int `as` keeps. */
  function Trunc(v: real): (t: int)
    ensures 0.0 <= v ==> 0 <= t && t as real <= v < t as real + 1.0
    ensures v < 0.0 ==> t <= 0 && t as real - 1.0 < v <= t as real
  {
    if v >= 0.0 then v.Floor else -((-v).Floor)
  }

  /** `f32 as i32`: truncation toward zero, saturating at the bounds of `i32`. */
  function ToI32(v: real): (t: int)
    ensures I32_MIN <= t <= I32_MAX
    ensures I32_MIN <= Trunc(v) <= I32_MAX ==> t == Trunc(v)
    ensures t < 0 <==> v <= -1.0
  {
    var t := Trunc(v);
    if t < I32_MIN then I32_MIN else if t > I32_MAX then I32_MAX else t
  }

  /** `into_i32`: both components through `as i32`. */
  function IntoI32(p: Position): (r: (int, int))
    ensures I32_MIN <= r.0 <= I32_MAX && I32_MIN <= r.1 <= I32_MAX
    ensures r.0 < 0 <==> p.x <= -1.0
    ensures r.1 < 0 <==> p.y <= -1.0
  {
    (ToI32(p.x), ToI32(p.y))
  }

  /** `try_into_u32`: the truncated components, or an error when one of them
      is negative. Values in (-1, 0) truncate to 0 and succeed. */
  function TryIntoU32(p: Position): (r: Result<(nat, nat), string>)
    ensures r.Err? <==> p.x <= -1.0 || p.y <= -1.0
    ensures r.Err? ==> r.error == "negative value"
    ensures r.Ok? ==> r.value.0 <= I32_MAX && r.value.1 <= I32_MAX
    ensures r.Ok? ==> r.value.0 as real <= p.x + 1.0 && r.value.1 as real <= p.y + 1.0
  {
    var (x, y) := IntoI32(p);
    if x < 0 || y < 0 then Err("negative value") else Ok((x, y))
  }

  const U32_MAX: int := 0xffff_ffff

  /** The saturation of Rust's float-to-`u32` cast: below zero gives 0,
      above the range gives `u32::MAX`. */
  function SaturateU32(n: int): (r: nat)
    ensures r <= U32_MAX
    ensures 0 <= n <= U32_MAX ==> r == n
    ensures n < 0 ==> r == 0
    ensures n > U32_MAX ==> r == U32_MAX
  {
    if n < 0 then 0 else if n > U32_MAX then U32_MAX else n
  }

  /** `f32::round`: the nearest integer, halves away from zero. */
  function Round(v: real): (n: int)
    ensures v - 0.5 <= n as real <= v + 0.5
    ensures v >= 0.0 ==> n >= 0
    ensures v <= 0.0 ==> n <= 0
  {
    if v >= 0.0 then (v + 0.5).Floor else -((-v + 0.5).Floor)
  }

  /** glam's `as_uvec2`: both components through `as u32`. */
  function AsUVec2(p: Position): (r: Images.UVec2)
    ensures r.x <= U32_MAX && r.y <= U32_MAX
    ensures p.x >= 0.0 && Trunc(p.x) <= U32_MAX ==> r.x as real <= p.x < r.x as real + 1.0
    ensures p.y >= 0.0 && Trunc(p.y) <= U32_MAX ==> r.y as real <= p.y < r.y as real + 1.0
    ensures p.x < 0.0 ==> r.x == 0
    ensures p.y < 0.0 ==> r.y == 0
  {
    Images.UVec2(SaturateU32(Trunc(p.x)), SaturateU32(Trunc(p.y)))
  }

  /** A position rounded to the nearest pixel, each component saturated into
      the range of `u32`. */
  function RoundToPixel(p: Position): (r: Images.UVec2)
    ensures r.x <= U32_MAX && r.y <= U32_MAX
    ensures 0.0 <= p.x <= U32_MAX as real ==> p.x - 0.5 <= r.x as real <= p.x + 0.5
    ensures 0.0 <= p.y <= U32_MAX as real ==> p.y - 0.5 <= r.y as real <= p.y + 0.5
  {
    Images.UVec2(SaturateU32(Round(p.x)), SaturateU32(Round(p.y)))
  }

  /** Component-wise minimum. */
  function Min(a: Position, b: Position): (r: Position)
    ensures r.x <= a.x && r.x <= b.x && (r.x == a.x || r.x == b.x)
    ensures r.y <= a.y && r.y <= b.y && (r.y == a.y || r.y == b.y)
  {
    Position(if a.x <= b.x then a.x else b.x, if a.y <= b.y then a.y else b.y)
  }

  /** Component-wise maximum. */
  function Max(a: Position, b: Position): (r: Position)
    ensures r.x >= a.x && r.x >= b.x && (r.x == a.x || r.x == b.x)
    ensures r.y >= a.y && r.y >= b.y && (r.y == a.y || r.y == b.y)
  {
    Position(if a.x >= b.x then a.x else b.x, if a.y >= b.y then a.y else b.y)
  }

  function Dot(a: Position, b: Position): real
  {
    a.x * b.x + a.y * b.y
  }

  function Add(a: Position, b: Position): Position
  {
    Position(a.x + b.x, a.y + b.y)
  }

  function Sub(a: Position, b: Position): Position
  {
    Position(a.x - b.x, a.y - b.y)
  }

  /** Component-wise product. */
  function Mul(a: Position, b: Position): Position
  {
    Position(a.x * b.x, a.y * b.y)
  }

  function Scale(a: Position, s: real): Position
  {
    Position(a.x * s, a.y * s)
  }

  function DivScalar(a: Position, s: real): Position
    requires s != 0.0
  {
    Position(a.x / s, a.y / s)
  }

  /** `lerp`: `a + (b - a) * s`, the point a fraction `s` of the way to `b`. */
  function Lerp(a: Position, b: Position, s: real): (r: Position)
    ensures s == 0.0 ==> r == a
    ensures s == 1.0 ==> r == b
  {
    Add(a, Scale(Sub(b, a), s))
  }

  /** Converting an `i32` pair to a position and back is the identity. */
  lemma IntoI32FromI32(x: int, y: int)
    requires I32_MIN <= x <= I32_MAX && I32_MIN <= y <= I32_MAX
    ensures IntoI32(FromI32(x, y)) == (x, y)
  {
    assert Trunc(x as real) == x;
    assert Trunc(y as real) == y;
  }

  /** Converting a `u32` pair below `2^31` to a position and back succeeds and
      is the identity. */
  lemma TryIntoU32FromU32(x: nat, y: nat)
    requires x <= I32_MAX && y <= I32_MAX
    ensures TryIntoU32(FromU32(x, y)) == Ok((x, y))
  {
    IntoI32FromI32(x, y);
  }

  /** Subtraction undoes addition; addition commutes. */
  lemma AddSub(a: Position, b: Position)
    ensures Sub(Add(a, b), b) == a
    ensures Add(Sub(a, b), b) == a
    ensures Add(a, b) == Add(b, a)
  {
  }

  /** The dot product is symmetric, a square is non-negative, and scaling one
      side scales the product. */
  lemma DotProperties(a: Position, b: Position, s: real)
    ensures Dot(a, b) == Dot(b, a)
    ensures Dot(a, a) >= 0.0
    ensures Dot(Scale(a, s), b) == s * Dot(a, b)
  {
  }

  /** Division by a non-zero scalar undoes scaling by it. */
  lemma DivScale(a: Position, s: real)
    requires s != 0.0
    ensures DivScalar(Scale(a, s), s) == a
  {
  }

  /** `min` and `max` bracket both arguments and together return them. */
  lemma MinMaxPartition(a: Position, b: Position)
    ensures Add(Min(a, b), Max(a, b)) == Add(a, b)
  {
  }
}
