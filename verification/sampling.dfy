/** The per-pixel resampling policies of the rotations and the swirl: what
    value a destination pixel receives once its source point is known.
    The source point itself comes from trigonometry that stays outside the
    model; here it is an input. */
module Sampling {
  import opened Wrappers
  import opened Pictures

  datatype IntPoint = IntPoint(x: int, y: int)
  datatype RealPoint = RealPoint(x: real, y: real)

  /** What the rotations write where they read no cell. */
  const Background: real := 1.0

  /** What `bilinear_interpolation` returns where it reads no cell. */
  const InterpolationBackground: real := 0.0

  /** `floor`, as an integer. */
  function Floor(v: real): (f: int)
    ensures f as real <= v < f as real + 1.0
  {
    v.Floor
  }

  /** `ceil`, as an integer. */
  function Ceil(v: real): (c: int)
    ensures c as real - 1.0 < v <= c as real
    ensures c == Floor(v) <==> IsIntegral(v)
    ensures c != Floor(v) ==> c == Floor(v) + 1
  {
    -((-v).Floor)
  }

  /** The C++ `(int)` conversion: truncation toward zero, so the floor of a
      non-negative value and the ceiling of a negative one. */
  function Trunc(v: real): (t: int)
    ensures 0.0 <= v ==> t == Floor(v)
    ensures v < 0.0 ==> t == Ceil(v)
  {
    if v < 0.0 then -((-v).Floor) else v.Floor
  }

  predicate IsIntegral(v: real)
  {
    v == v.Floor as real
  }

  /** The pixel `q` as a real point. */
  function Lattice(q: IntPoint): RealPoint
  {
    RealPoint(q.x as real, q.y as real)
  }

  /** An integer source pixel lies in the picture. */
  predicate OnGrid(p: Picture, q: IntPoint)
  {
    InGrid(p, q.y, q.x)
  }

  /** The bounds test the code applies to a real source point:
      `x >= 0 && x < x_length && y >= 0 && y < y_length`. */
  predicate SourceGuard(p: Picture, q: RealPoint)
  {
    0.0 <= q.x < p.xLength as real && 0.0 <= q.y < p.yLength as real
  }

  /** The point lies between the first and the last pixel on each axis, so
      all four lattice corners around it exist. */
  predicate Inside(p: Picture, q: RealPoint)
  {
    0.0 <= q.x <= p.xLength as real - 1.0 && 0.0 <= q.y <= p.yLength as real - 1.0
  }

  /** The corrected bounds test of the nearest-corner policy: the point is
      no further right or down than half a pixel past the last pixel, so its
      nearest corner exists. */
  predicate NearestInRange(p: Picture, q: RealPoint)
  {
    0.0 <= q.x <= p.xLength as real - 0.5 && 0.0 <= q.y <= p.yLength as real - 0.5
  }

  /** The corrected bounds test of the bilinear policy: the code's test, and
      in addition, when the point is to be blended (neither coordinate
      integral), all four of its corners exist. */
  predicate BlendSafe(p: Picture, q: RealPoint)
  {
    SourceGuard(p, q) && (IsIntegral(q.x) || IsIntegral(q.y) || Inside(p, q))
  }

  // ---------------------------------------------------------------------
  // Cast policy
  // ---------------------------------------------------------------------

  /** `cast_rotation_polar` for one pixel whose source pixel is `q`: the
      intensity at `q` if `q` is in the picture, the white background
      otherwise. */
  function CastSample(p: Picture, q: IntPoint): (v: real)
    requires Valid(p)
    ensures OnGrid(p, q) ==> v == GetIntensity(p, q.y, q.x)
    ensures !OnGrid(p, q) ==> v == Background
    ensures WellFormed(p) ==> InUnitRange(v)
  {
    if OnGrid(p, q) then p.cells[q.y][q.x] else Background
  }

  // ---------------------------------------------------------------------
  // Nearest of four corners
  // ---------------------------------------------------------------------

  /** The four lattice corners around `q`, in the order the code compares
      them: (xf,yf), (xf,yc), (xc,yf), (xc,yc). */
  function Corners(q: RealPoint): seq<IntPoint>
  {
    var xf, xc, yf, yc := Floor(q.x), Ceil(q.x), Floor(q.y), Ceil(q.y);
    [IntPoint(xf, yf), IntPoint(xf, yc), IntPoint(xc, yf), IntPoint(xc, yc)]
  }

  /** Squared distance along one axis. */
  function AxisSq(v: real, a: int): real
  {
    (v - a as real) * (v - a as real)
  }

  /** Squared Euclidean distance from `q` to the pixel `c`. The code
      compares `norm` values, the square roots of these; the square root is
      strictly increasing, so the comparisons and equalities agree. */
  function SqDist(q: RealPoint, c: IntPoint): real
  {
    AxisSq(q.x, c.x) + AxisSq(q.y, c.y)
  }

  /** The corner `nn_rotation_polar` reads: the smallest distance is taken,
      then the corners are compared in order against it and the first equal
      one wins. So the result is a corner at least as close as every other,
      and strictly closer than every corner before it. */
  function NearestCorner(q: RealPoint): (c: IntPoint)
    ensures forall m :: 0 <= m < 4 ==> SqDist(q, c) <= SqDist(q, Corners(q)[m])
    ensures exists k ::
              0 <= k < 4 && c == Corners(q)[k] &&
              forall m :: 0 <= m < k ==> SqDist(q, c) < SqDist(q, Corners(q)[m])
  {
    var cs := Corners(q);
    var d1, d2, d3, d4 := SqDist(q, cs[0]), SqDist(q, cs[1]), SqDist(q, cs[2]), SqDist(q, cs[3]);
    var least := Min(Min(Min(d1, d2), d3), d4);
    if least == d1 then cs[0]
    else if least == d2 then cs[1]
    else if least == d3 then cs[2]
    else cs[3]
  }

  /** Rounding to the nearer integer with halves going down. */
  function RoundHalfDown(v: real): int
  {
    if v - Floor(v) as real <= 0.5 then Floor(v) else Floor(v) + 1
  }

  /** On one axis the floor is at least as close as the ceiling up to the
      half, and the ceiling (then floor + 1) is strictly closer beyond it. */
  lemma AxisChoice(v: real)
    ensures v - Floor(v) as real <= 0.5 ==> AxisSq(v, Floor(v)) <= AxisSq(v, Ceil(v))
    ensures v - Floor(v) as real > 0.5 ==> Ceil(v) == Floor(v) + 1 && AxisSq(v, Ceil(v)) < AxisSq(v, Floor(v))
  {
    var f := v - Floor(v) as real;
    if Ceil(v) == Floor(v) + 1 {
      assert AxisSq(v, Floor(v)) == f * f;
      assert AxisSq(v, Ceil(v)) == (1.0 - f) * (1.0 - f);
      assert (1.0 - f) * (1.0 - f) - f * f == 1.0 - 2.0 * f;
    }
  }

  /** The tie-break order makes the nearest-corner choice the per-axis
      rounding with halves going down: an independent description of the
      same pixel. */
  lemma NearestCornerRoundsHalfDown(q: RealPoint)
    ensures NearestCorner(q) == IntPoint(RoundHalfDown(q.x), RoundHalfDown(q.y))
  {
    var c := NearestCorner(q);
    var cs := Corners(q);
    var xf, xc, yf, yc := Floor(q.x), Ceil(q.x), Floor(q.y), Ceil(q.y);
    AxisChoice(q.x);
    AxisChoice(q.y);
    var k :| 0 <= k < 4 && c == cs[k] && forall m :: 0 <= m < k ==> SqDist(q, c) < SqDist(q, cs[m]);
    var lowX := q.x - xf as real <= 0.5;
    var lowY := q.y - yf as real <= 0.5;
    if lowX && lowY {
      assert SqDist(q, cs[0]) <= SqDist(q, cs[k]);
      assert k == 0;
    } else if lowX {
      assert SqDist(q, cs[1]) < SqDist(q, cs[0]);
      assert SqDist(q, cs[1]) <= SqDist(q, cs[k]);
      assert k == 1;
    } else if lowY {
      assert SqDist(q, cs[2]) < SqDist(q, cs[0]);
      assert SqDist(q, cs[2]) < SqDist(q, cs[1]);
      assert SqDist(q, cs[2]) <= SqDist(q, cs[k]);
      assert k == 2;
    } else {
      assert SqDist(q, cs[3]) < SqDist(q, cs[0]);
      assert SqDist(q, cs[3]) < SqDist(q, cs[1]);
      assert SqDist(q, cs[3]) < SqDist(q, cs[2]);
      assert k == 3;
    }
  }

  /** Every corner of a point inside the picture is a pixel of it. */
  lemma CornersOnGrid(p: Picture, q: RealPoint)
    requires Inside(p, q)
    ensures forall k :: 0 <= k < 4 ==> OnGrid(p, Corners(q)[k])
  {
    assert Ceil(q.x) <= p.xLength - 1;
    assert Ceil(q.y) <= p.yLength - 1;
  }

  /** Rounding half down a value at most half a unit past `n - 1` stays at
      or below `n - 1`. */
  lemma RoundHalfDownBelow(v: real, n: int)
    requires 0.0 <= v <= n as real - 0.5
    ensures 0 <= RoundHalfDown(v) <= n - 1
  {
    var f := Floor(v);
    if v - f as real > 0.5 {
      assert (f + 1) as real < v + 0.5 <= n as real;
    }
  }

  /** The nearest corner of a point that passes the corrected test is a pixel
      of the picture. */
  lemma NearestOnGrid(p: Picture, q: RealPoint)
    requires NearestInRange(p, q)
    ensures OnGrid(p, NearestCorner(q))
  {
    NearestCornerRoundsHalfDown(q);
    RoundHalfDownBelow(q.x, p.xLength);
    RoundHalfDownBelow(q.y, p.yLength);
  }

  /** `nn_rotation_polar` for one pixel whose source point is `q`, with the
      corrected bounds test: the pixel nearest to `q`, halves rounding down,
      and white when that pixel does not exist. */
  function NearestSample(p: Picture, q: RealPoint): (v: real)
    requires Valid(p)
    ensures !NearestInRange(p, q) ==> v == Background
    ensures NearestInRange(p, q) ==> v == p.cells[RoundHalfDown(q.y)][RoundHalfDown(q.x)]
    ensures WellFormed(p) ==> InUnitRange(v)
  {
    if NearestInRange(p, q) then
      NearestOnGrid(p, q);
      NearestCornerRoundsHalfDown(q);
      var c := NearestCorner(q);
      p.cells[c.y][c.x]
    else Background
  }

  // ---------------------------------------------------------------------
  // Bilinear blending
  // ---------------------------------------------------------------------

  /** Linear interpolation `(1-t)*a + t*b` stays between its ends. */
  lemma LerpBetween(a: real, b: real, t: real)
    requires 0.0 <= t <= 1.0
    ensures Min(a, b) <= (1.0 - t) * a + t * b <= Max(a, b)
  {
    if a <= b {
      assert (1.0 - t) * a + t * b - a == t * (b - a);
      assert b - ((1.0 - t) * a + t * b) == (1.0 - t) * (b - a);
      ProductNonNegative(t, b - a);
      ProductNonNegative(1.0 - t, b - a);
    } else {
      assert (1.0 - t) * a + t * b - b == (1.0 - t) * (a - b);
      assert a - ((1.0 - t) * a + t * b) == t * (a - b);
      ProductNonNegative(t, a - b);
      ProductNonNegative(1.0 - t, a - b);
    }
  }

  /** The intensities of the four corners of `q`, in the order the code reads them. */
  function CornerValues(p: Picture, q: RealPoint): seq<real>
    requires Valid(p) && Inside(p, q)
  {
    CornersOnGrid(p, q);
    var cs := Corners(q);
    [p.cells[cs[0].y][cs[0].x], p.cells[cs[1].y][cs[1].x], p.cells[cs[2].y][cs[2].x], p.cells[cs[3].y][cs[3].x]]
  }

  /** The code's blend of the four corner values `ll` (xf,yf), `lr`
      (xc,yf), `ul` (xf,yc) and `ur` (xc,yc): first along x on each of the
      two rows, then along y. */
  function Blend(q: RealPoint, ll: real, lr: real, ul: real, ur: real): real
  {
    var xf, xc, yf, yc := Floor(q.x), Ceil(q.x), Floor(q.y), Ceil(q.y);
    var i1 := (xc as real - q.x) * ll + (q.x - xf as real) * lr;
    var i2 := (xc as real - q.x) * ul + (q.x - xf as real) * ur;
    (yc as real - q.y) * i1 + (q.y - yf as real) * i2
  }

  /** The bilinear value for a point that passes the corrected test, as both
      `bilinear_rotation_polar` and `bilinear_interpolation` compute it. When
      either coordinate is integral the lattice value at the truncated
      coordinates is returned without blending; otherwise the two rows are
      blended along x and the results along y. */
  function BilinearCore(p: Picture, q: RealPoint): (v: real)
    requires Valid(p) && BlendSafe(p, q)
    ensures IsIntegral(q.x) || IsIntegral(q.y) ==> v == p.cells[Floor(q.y)][Floor(q.x)]
  {
    var xf, xc, yf, yc := Floor(q.x), Ceil(q.x), Floor(q.y), Ceil(q.y);
    if xf == xc || yf == yc then
      p.cells[Trunc(q.y)][Trunc(q.x)]
    else
      CornersOnGrid(p, q);
      Blend(q, p.cells[yf][xf], p.cells[yf][xc], p.cells[yc][xf], p.cells[yc][xc])
  }

  /** Off the lattice the blend is the textbook bilinear average: with
      fractional parts `tx`, `ty` in (0,1), the four corners weigh
      `(1-tx)(1-ty)`, `tx(1-ty)`, `(1-tx)ty` and `tx ty`, which are positive
      and sum to 1. */
  lemma BilinearIsWeightedAverage(p: Picture, q: RealPoint)
    requires Valid(p) && Inside(p, q)
    requires !IsIntegral(q.x) && !IsIntegral(q.y)
    ensures var xf, yf := Floor(q.x), Floor(q.y);
      var tx, ty := q.x - xf as real, q.y - yf as real;
      && 0.0 < tx < 1.0 && 0.0 < ty < 1.0
      && BilinearCore(p, q) ==
           (1.0 - tx) * (1.0 - ty) * p.cells[yf][xf] + tx * (1.0 - ty) * p.cells[yf][xf + 1]
           + (1.0 - tx) * ty * p.cells[yf + 1][xf] + tx * ty * p.cells[yf + 1][xf + 1]
  {
    CornersOnGrid(p, q);
    var xf, yf := Floor(q.x), Floor(q.y);
    var tx, ty := q.x - xf as real, q.y - yf as real;
    var a, b, c, d := p.cells[yf][xf], p.cells[yf][xf + 1], p.cells[yf + 1][xf], p.cells[yf + 1][xf + 1];
    var i1 := (1.0 - tx) * a + tx * b;
    var i2 := (1.0 - tx) * c + tx * d;
    assert BilinearCore(p, q) == (1.0 - ty) * i1 + ty * i2;
    assert (1.0 - ty) * i1 == (1.0 - tx) * (1.0 - ty) * a + tx * (1.0 - ty) * b;
    assert ty * i2 == (1.0 - tx) * ty * c + tx * ty * d;
  }

  /** The bilinear value never leaves the range spanned by the four corners. */
  lemma BilinearWithinCorners(p: Picture, q: RealPoint)
    requires Valid(p) && Inside(p, q)
    ensures var cv := CornerValues(p, q);
      Min(Min(cv[0], cv[1]), Min(cv[2], cv[3])) <= BilinearCore(p, q) <= Max(Max(cv[0], cv[1]), Max(cv[2], cv[3]))
  {
    CornersOnGrid(p, q);
    var xf, xc, yf, yc := Floor(q.x), Ceil(q.x), Floor(q.y), Ceil(q.y);
    if xf != xc && yf != yc {
      var tx, ty := q.x - xf as real, q.y - yf as real;
      var a, b, c, d := p.cells[yf][xf], p.cells[yf][xc], p.cells[yc][xf], p.cells[yc][xc];
      var i1 := (1.0 - tx) * a + tx * b;
      var i2 := (1.0 - tx) * c + tx * d;
      assert xc as real - q.x == 1.0 - tx;
      assert yc as real - q.y == 1.0 - ty;
      assert BilinearCore(p, q) == (1.0 - ty) * i1 + ty * i2;
      LerpBetween(a, b, tx);
      LerpBetween(c, d, tx);
      LerpBetween(i1, i2, ty);
    }
  }

  /** Blending normalised intensities gives a normalised intensity, and so
      does reading one of them unblended. */
  lemma BilinearStaysInRange(p: Picture, q: RealPoint)
    requires Valid(p) && BlendSafe(p, q)
    ensures WellFormed(p) ==> InUnitRange(BilinearCore(p, q))
  {
    if !WellFormed(p) {
    } else if IsIntegral(q.x) || IsIntegral(q.y) {
      assert 0 <= Floor(q.y) < p.yLength && 0 <= Floor(q.x) < p.xLength;
    } else {
      CornersOnGrid(p, q);
      BilinearWithinCorners(p, q);
      var cs := Corners(q);
      assert forall k :: 0 <= k < 4 ==> InUnitRange(p.cells[cs[k].y][cs[k].x]);
    }
  }

  /** `bilinear_interpolation`, with the corrected bounds test: 0 for a point
      the code's test rejects or whose blend would need a missing corner, the
      lattice value when a coordinate is integral, and otherwise a blend; a
      normalised picture gives a normalised value. */
  function BilinearInterpolation(p: Picture, q: RealPoint): (v: real)
    requires Valid(p)
    ensures !BlendSafe(p, q) ==> v == InterpolationBackground
    ensures SourceGuard(p, q) && (IsIntegral(q.x) || IsIntegral(q.y)) ==> v == p.cells[Floor(q.y)][Floor(q.x)]
    ensures WellFormed(p) ==> InUnitRange(v)
  {
    if BlendSafe(p, q) then
      BilinearStaysInRange(p, q);
      BilinearCore(p, q)
    else InterpolationBackground
  }

  /** `bilinear_rotation_polar` for one pixel, with the corrected bounds
      test: like `BilinearInterpolation` but white where no value is read. */
  function BilinearSample(p: Picture, q: RealPoint): (v: real)
    requires Valid(p)
    ensures !BlendSafe(p, q) ==> v == Background
    ensures SourceGuard(p, q) && (IsIntegral(q.x) || IsIntegral(q.y)) ==> v == p.cells[Floor(q.y)][Floor(q.x)]
    ensures WellFormed(p) ==> InUnitRange(v)
  {
    if BlendSafe(p, q) then
      BilinearStaysInRange(p, q);
      BilinearCore(p, q)
    else Background
  }

  // ---------------------------------------------------------------------
  // The code's bounds test, as written
  // ---------------------------------------------------------------------

  /** `get_intensity(row, col)` on a `Mat`: `None` when the cell does not
      exist, which is undefined behaviour in the code. */
  function ReadAt(p: Picture, row: int, col: int): (r: Option<real>)
    requires Valid(p)
  {
    if 0 <= row < p.yLength && 0 <= col < p.xLength then Some(p.cells[row][col]) else None
  }

  /** The blend as the code performs it behind its own bounds test, every
      corner read going through `ReadAt`. */
  function BilinearCoreAsWritten(p: Picture, q: RealPoint): Option<real>
    requires Valid(p) && SourceGuard(p, q)
  {
    var xf, xc, yf, yc := Floor(q.x), Ceil(q.x), Floor(q.y), Ceil(q.y);
    if xf == xc || yf == yc then
      ReadAt(p, Trunc(q.y), Trunc(q.x))
    else
      var ll, lr, ul, ur := ReadAt(p, yf, xf), ReadAt(p, yf, xc), ReadAt(p, yc, xf), ReadAt(p, yc, xc);
      if ll.Some? && lr.Some? && ul.Some? && ur.Some? then
        Some(Blend(q, ll.value, lr.value, ul.value, ur.value))
      else None
  }

  /** `bilinear_interpolation` exactly as written. */
  function BilinearInterpolationAsWritten(p: Picture, q: RealPoint): Option<real>
    requires Valid(p)
  {
    if SourceGuard(p, q) then BilinearCoreAsWritten(p, q) else Some(InterpolationBackground)
  }

  /** `bilinear_rotation_polar` for one pixel, exactly as written. */
  function BilinearSampleAsWritten(p: Picture, q: RealPoint): Option<real>
    requires Valid(p)
  {
    if SourceGuard(p, q) then BilinearCoreAsWritten(p, q) else Some(Background)
  }

  /** `nn_rotation_polar` for one pixel, exactly as written. */
  function NearestSampleAsWritten(p: Picture, q: RealPoint): Option<real>
    requires Valid(p)
  {
    if SourceGuard(p, q) then
      var c := NearestCorner(q);
      ReadAt(p, c.y, c.x)
    else Some(Background)
  }

  /** The corrected tests are narrower than the code's, and the code's test
      lets through beyond `Inside` exactly the points past the last column or
      row. */
  lemma SourceGuardWidens(p: Picture, q: RealPoint)
    ensures Inside(p, q) ==> NearestInRange(p, q) && BlendSafe(p, q)
    ensures NearestInRange(p, q) ==> SourceGuard(p, q)
    ensures BlendSafe(p, q) ==> SourceGuard(p, q)
    ensures SourceGuard(p, q) && !Inside(p, q) <==>
      SourceGuard(p, q) && (q.x > p.xLength as real - 1.0 || q.y > p.yLength as real - 1.0)
  {
  }

  /** As written, the bilinear blend reads a missing cell exactly when the
      guard passed, neither coordinate is integral, and the point lies past
      the last column or row: then `ceil` is `x_length` or `y_length`. */
  lemma BilinearAsWrittenFailsExactly(p: Picture, q: RealPoint)
    requires Valid(p) && SourceGuard(p, q)
    ensures BilinearCoreAsWritten(p, q).None? <==> !IsIntegral(q.x) && !IsIntegral(q.y) && !Inside(p, q)
  {
    var xf, xc, yf, yc := Floor(q.x), Ceil(q.x), Floor(q.y), Ceil(q.y);
    assert 0 <= xf && 0 <= yf;
    assert xc <= p.xLength && yc <= p.yLength;
    assert xc == p.xLength && xf != xc <==> !IsIntegral(q.x) && q.x > p.xLength as real - 1.0;
    assert yc == p.yLength && yf != yc <==> !IsIntegral(q.y) && q.y > p.yLength as real - 1.0;
  }

  /** As written, the nearest-corner policy reads a missing cell exactly when
      the guard passed and the point lies within half a pixel of the far
      edge, past the last pixel centre: the nearest corner is then column
      `x_length` or row `y_length`. */
  lemma NearestAsWrittenFailsExactly(p: Picture, q: RealPoint)
    requires Valid(p) && SourceGuard(p, q)
    ensures NearestSampleAsWritten(p, q).None? <==>
      q.x > p.xLength as real - 0.5 || q.y > p.yLength as real - 0.5
  {
    NearestCornerRoundsHalfDown(q);
    var rx, ry := RoundHalfDown(q.x), RoundHalfDown(q.y);
    assert 0 <= rx <= p.xLength && 0 <= ry <= p.yLength;
    assert rx == p.xLength <==> q.x > p.xLength as real - 0.5;
    assert ry == p.yLength <==> q.y > p.yLength as real - 0.5;
  }

  /** A one-pixel picture and the point (0.5, 0.5): the code's test
      accepts it, and the blend reads column 1 and row 1, which do not
      exist. */
  lemma BilinearReadsPastTheEdge()
    ensures var p, q := Picture(1, 1, [[0.5]]), RealPoint(0.5, 0.5);
      SourceGuard(p, q) && !BlendSafe(p, q) && BilinearInterpolationAsWritten(p, q) == None
  {
    var p, q := Picture(1, 1, [[0.5]]), RealPoint(0.5, 0.5);
    assert Floor(0.5) == 0 && Ceil(0.5) == 1;
  }

  /** A one-pixel picture and the point (0.75, 0): the code's test accepts
      it, and the nearest corner is column 1, which does not exist. */
  lemma NearestReadsPastTheEdge()
    ensures var p, q := Picture(1, 1, [[0.5]]), RealPoint(0.75, 0.0);
      SourceGuard(p, q) && !NearestInRange(p, q) && NearestSampleAsWritten(p, q) == None
  {
    var p, q := Picture(1, 1, [[0.5]]), RealPoint(0.75, 0.0);
    NearestAsWrittenFailsExactly(p, q);
  }

  /** Where the corrected bilinear test passes, the blend as written reads
      only existing cells. */
  lemma CoreAsWrittenAgrees(p: Picture, q: RealPoint)
    requires Valid(p) && BlendSafe(p, q)
    ensures BilinearCoreAsWritten(p, q) == Some(BilinearCore(p, q))
  {
    var xf, xc, yf, yc := Floor(q.x), Ceil(q.x), Floor(q.y), Ceil(q.y);
    if xf == xc || yf == yc {
      assert ReadAt(p, Trunc(q.y), Trunc(q.x)) == Some(p.cells[yf][xf]);
    } else {
      CornersOnGrid(p, q);
      assert ReadAt(p, yf, xf) == Some(p.cells[yf][xf]);
      assert ReadAt(p, yf, xc) == Some(p.cells[yf][xc]);
      assert ReadAt(p, yc, xf) == Some(p.cells[yc][xf]);
      assert ReadAt(p, yc, xc) == Some(p.cells[yc][xc]);
    }
  }

  /** The corrected samplers change the code only where it reads a missing
      cell: wherever the code reads existing cells it computes the corrected
      value, and where it reads a missing cell the corrected sampler gives
      its sentinel. */
  lemma AsWrittenAgreesWithCorrected(p: Picture, q: RealPoint)
    requires Valid(p)
    ensures BilinearInterpolationAsWritten(p, q).Some? ==>
      BilinearInterpolationAsWritten(p, q) == Some(BilinearInterpolation(p, q))
    ensures BilinearInterpolationAsWritten(p, q).None? ==> BilinearInterpolation(p, q) == InterpolationBackground
    ensures BilinearSampleAsWritten(p, q).Some? ==>
      BilinearSampleAsWritten(p, q) == Some(BilinearSample(p, q))
    ensures BilinearSampleAsWritten(p, q).None? ==> BilinearSample(p, q) == Background
    ensures NearestSampleAsWritten(p, q).Some? ==>
      NearestSampleAsWritten(p, q) == Some(NearestSample(p, q))
    ensures NearestSampleAsWritten(p, q).None? ==> NearestSample(p, q) == Background
  {
    if SourceGuard(p, q) {
      BilinearAsWrittenFailsExactly(p, q);
      if BlendSafe(p, q) {
        CoreAsWrittenAgrees(p, q);
      }
      NearestAsWrittenFailsExactly(p, q);
      NearestCornerRoundsHalfDown(q);
    }
  }
}
