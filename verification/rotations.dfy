/** The whole-picture rotations and the swirl. Each visits every destination
    pixel `(i, j)` (column `i`, row `j`), computes where it came from, and
    writes the sampled intensity at row `j`, column `i`.

    The angle enters only through `turn`: for an integer offset `(x, y)`
    from the centre (y pointing up) it is the rotated real offset
    `(r cos(θ + rad), r sin(θ + rad))`, with `r`, `θ` the polar coordinates
    of `(x, y)` and `rad` the negated angle in radians. */
module Rotations {
  import opened Pictures
  import opened Sampling
  import Symmetry

  type Turn = (int, int) -> RealPoint

  /** C `round`: to the nearest integer, halves away from zero. So `v` is
      within half a unit of the result, a half below the result only for a
      positive `v` and a half above it only for a negative one. */
  function Round(v: real): (n: int)
    ensures n as real - 0.5 <= v <= n as real + 0.5
    ensures v == n as real - 0.5 ==> 0.0 < v
    ensures v == n as real + 0.5 ==> v < 0.0
  {
    if v < 0.0 then -Floor(-v + 0.5) else Floor(v + 0.5)
  }

  /** Rounding leaves an integer as it is. */
  lemma RoundOfInteger(k: int)
    ensures Round(k as real) == k
  {
    if k < 0 {
      assert Floor(-k as real + 0.5) == -k;
    } else {
      assert Floor(k as real + 0.5) == k;
    }
  }

  /** Destination pixel `(i, j)` as an offset from the centre, y pointing up. */
  function Offset(centre: IntPoint, i: int, j: int): IntPoint
  {
    IntPoint(i - centre.x, centre.y - j)
  }

  /** The source pixel of `cast_rotation_polar`: the rotated offset rounded
      on each axis and moved back to picture coordinates. */
  function CastSource(centre: IntPoint, turn: Turn, i: int, j: int): IntPoint
  {
    var o := Offset(centre, i, j);
    var t := turn(o.x, o.y);
    IntPoint(Round(t.x) + centre.x, centre.y - Round(t.y))
  }

  /** The real source point of `nn_rotation_polar` and
      `bilinear_rotation_polar`: the rotated offset moved back to picture
      coordinates. */
  function RealSource(centre: IntPoint, turn: Turn, i: int, j: int): RealPoint
  {
    var o := Offset(centre, i, j);
    var t := turn(o.x, o.y);
    RealPoint(t.x + centre.x as real, centre.y as real - t.y)
  }

  /** The cast policy's source pixel lies within half a pixel of the real
      source point the other two policies sample, on each axis. */
  lemma CastSourceNearRealSource(centre: IntPoint, turn: Turn, i: int, j: int)
    ensures var s, t := CastSource(centre, turn, i, j), RealSource(centre, turn, i, j);
      && -0.5 <= s.x as real - t.x <= 0.5
      && -0.5 <= s.y as real - t.y <= 0.5
  {
    var o := Offset(centre, i, j);
    var t := turn(o.x, o.y);
    assert Round(t.x) as real - 0.5 <= t.x <= Round(t.x) as real + 0.5;
    assert Round(t.y) as real - 0.5 <= t.y <= Round(t.y) as real + 0.5;
  }

  /** Moving back to picture coordinates is one-to-one: the real source point
      is the destination pixel itself exactly when the turn leaves the
      pixel's offset in place. */
  lemma RealSourceFixedIffTurnFixed(centre: IntPoint, turn: Turn, i: int, j: int)
    ensures var o := Offset(centre, i, j);
      RealSource(centre, turn, i, j) == Lattice(IntPoint(i, j)) <==> turn(o.x, o.y) == Lattice(o)
  {
  }

  /** The loop every operation shares: starting from a freshly allocated
      picture of the right size whose contents are arbitrary, visit columns
      `i`, then rows `j`, writing `f(i, j)` at row `j`, column `i`. Every cell
      is written, so nothing of the canvas survives. */
  method Render(canvas: Picture, f: (int, int) --> real) returns (r: Picture)
    requires Valid(canvas)
    requires forall i, j :: 0 <= i < canvas.xLength && 0 <= j < canvas.yLength ==> f.requires(i, j)
    ensures r == Tabulate(canvas.xLength, canvas.yLength, f)
  {
    r := canvas;
    var i := 0;
    while i < canvas.xLength
      invariant 0 <= i <= canvas.xLength
      invariant Valid(r) && r.xLength == canvas.xLength && r.yLength == canvas.yLength
      invariant forall jj, ii :: 0 <= jj < r.yLength && 0 <= ii < i ==> r.cells[jj][ii] == f(ii, jj)
    {
      var j := 0;
      while j < canvas.yLength
        invariant 0 <= j <= canvas.yLength
        invariant Valid(r) && r.xLength == canvas.xLength && r.yLength == canvas.yLength
        invariant forall jj, ii :: 0 <= jj < r.yLength && 0 <= ii < i ==> r.cells[jj][ii] == f(ii, jj)
        invariant forall jj :: 0 <= jj < j ==> r.cells[jj][i] == f(i, jj)
      {
        r := SetIntensity(r, j, i, f(i, j)).picture;
        j := j + 1;
      }
      i := i + 1;
    }
    SameCells(r, Tabulate(canvas.xLength, canvas.yLength, f));
  }

  // ---------------------------------------------------------------------
  // The three rotations
  // ---------------------------------------------------------------------

  function CastPixel(p: Picture, centre: IntPoint, turn: Turn): (int, int) --> real
  {
    (i: int, j: int) requires Valid(p) => CastSample(p, CastSource(centre, turn, i, j))
  }

  function NearestPixel(p: Picture, centre: IntPoint, turn: Turn): (int, int) --> real
  {
    (i: int, j: int) requires Valid(p) => NearestSample(p, RealSource(centre, turn, i, j))
  }

  function BilinearPixel(p: Picture, centre: IntPoint, turn: Turn): (int, int) --> real
  {
    (i: int, j: int) requires Valid(p) => BilinearSample(p, RealSource(centre, turn, i, j))
  }

  /** `cast_rotation_polar` as a value: each pixel takes the intensity of its
      rounded source pixel, or white when that pixel is not in the picture. */
  function CastRotated(p: Picture, centre: IntPoint, turn: Turn): (r: Picture)
    requires Valid(p)
    ensures Valid(r) && r.xLength == p.xLength && r.yLength == p.yLength
    ensures forall j, i :: 0 <= j < p.yLength && 0 <= i < p.xLength ==>
      var s := CastSource(centre, turn, i, j);
      r.cells[j][i] == if OnGrid(p, s) then p.cells[s.y][s.x] else Background
    ensures WellFormed(p) ==> WellFormed(r)
  {
    Tabulate(p.xLength, p.yLength, CastPixel(p, centre, turn))
  }

  /** `nn_rotation_polar` as a value, with the corrected bounds test: each
      pixel takes the intensity of the pixel its source point rounds to
      (halves down), or white when that pixel does not exist. */
  function NearestRotated(p: Picture, centre: IntPoint, turn: Turn): (r: Picture)
    requires Valid(p)
    ensures Valid(r) && r.xLength == p.xLength && r.yLength == p.yLength
    ensures forall j, i :: 0 <= j < p.yLength && 0 <= i < p.xLength ==>
      var s := RealSource(centre, turn, i, j);
      r.cells[j][i] == if NearestInRange(p, s) then p.cells[RoundHalfDown(s.y)][RoundHalfDown(s.x)] else Background
    ensures WellFormed(p) ==> WellFormed(r)
  {
    Tabulate(p.xLength, p.yLength, NearestPixel(p, centre, turn))
  }

  /** `bilinear_rotation_polar` as a value, with the corrected bounds test. */
  function BilinearRotated(p: Picture, centre: IntPoint, turn: Turn): (r: Picture)
    requires Valid(p)
    ensures Valid(r) && r.xLength == p.xLength && r.yLength == p.yLength
    ensures forall j, i :: 0 <= j < p.yLength && 0 <= i < p.xLength ==>
      r.cells[j][i] == BilinearSample(p, RealSource(centre, turn, i, j))
    ensures WellFormed(p) ==> WellFormed(r)
  {
    Tabulate(p.xLength, p.yLength, BilinearPixel(p, centre, turn))
  }

  /** `cast_rotation_polar`: the loop over a fresh canvas computes `CastRotated`. */
  method CastRotationPolar(p: Picture, canvas: Picture, centre: IntPoint, turn: Turn) returns (r: Picture)
    requires Valid(p) && Valid(canvas) && canvas.xLength == p.xLength && canvas.yLength == p.yLength
    ensures r == CastRotated(p, centre, turn)
  {
    r := Render(canvas, CastPixel(p, centre, turn));
  }

  /** `nn_rotation_polar`: the loop over a fresh canvas computes `NearestRotated`. */
  method NnRotationPolar(p: Picture, canvas: Picture, centre: IntPoint, turn: Turn) returns (r: Picture)
    requires Valid(p) && Valid(canvas) && canvas.xLength == p.xLength && canvas.yLength == p.yLength
    ensures r == NearestRotated(p, centre, turn)
  {
    r := Render(canvas, NearestPixel(p, centre, turn));
  }

  /** `bilinear_rotation_polar`: the loop over a fresh canvas computes `BilinearRotated`. */
  method BilinearRotationPolar(p: Picture, canvas: Picture, centre: IntPoint, turn: Turn) returns (r: Picture)
    requires Valid(p) && Valid(canvas) && canvas.xLength == p.xLength && canvas.yLength == p.yLength
    ensures r == BilinearRotated(p, centre, turn)
  {
    r := Render(canvas, BilinearPixel(p, centre, turn));
  }

  /** At a lattice point the three policies read the same pixel: all agree
      with the cast policy, on the picture and off it. */
  lemma PoliciesAgreeAtLattice(p: Picture, c: IntPoint)
    requires Valid(p)
    ensures NearestSample(p, Lattice(c)) == CastSample(p, c)
    ensures BilinearSample(p, Lattice(c)) == CastSample(p, c)
  {
    assert Floor(c.x as real) == c.x && Floor(c.y as real) == c.y;
    assert RoundHalfDown(c.x as real) == c.x && RoundHalfDown(c.y as real) == c.y;
    assert NearestInRange(p, Lattice(c)) <==> OnGrid(p, c);
    assert BlendSafe(p, Lattice(c)) <==> OnGrid(p, c);
  }

  /** When the turn takes integer offsets to integer offsets (a multiple of
      a quarter turn, say), rounding does nothing and the three rotations
      give the same picture. */
  lemma RotationsAgreeOnLatticeTurns(p: Picture, centre: IntPoint, turn: Turn)
    requires Valid(p)
    requires forall x, y :: IsIntegral(turn(x, y).x) && IsIntegral(turn(x, y).y)
    ensures NearestRotated(p, centre, turn) == CastRotated(p, centre, turn)
    ensures BilinearRotated(p, centre, turn) == CastRotated(p, centre, turn)
  {
    var c, n, b := CastRotated(p, centre, turn), NearestRotated(p, centre, turn), BilinearRotated(p, centre, turn);
    forall j, i | 0 <= j < p.yLength && 0 <= i < p.xLength
      ensures n.cells[j][i] == c.cells[j][i] && b.cells[j][i] == c.cells[j][i]
    {
      var o := Offset(centre, i, j);
      var t := turn(o.x, o.y);
      var s := CastSource(centre, turn, i, j);
      RoundOfInteger(Floor(t.x));
      RoundOfInteger(Floor(t.y));
      assert Round(t.x) as real == t.x && Round(t.y) as real == t.y;
      assert RealSource(centre, turn, i, j) == Lattice(s);
      PoliciesAgreeAtLattice(p, s);
    }
    SameCells(n, c);
    SameCells(b, c);
  }

  /** Turning by nothing gives the picture back, for every policy. */
  lemma NoTurnIsIdentity(p: Picture, centre: IntPoint, turn: Turn)
    requires Valid(p)
    requires forall x, y :: turn(x, y) == RealPoint(x as real, y as real)
    ensures CastRotated(p, centre, turn) == p
    ensures NearestRotated(p, centre, turn) == p
    ensures BilinearRotated(p, centre, turn) == p
  {
    var c := CastRotated(p, centre, turn);
    forall j, i | 0 <= j < p.yLength && 0 <= i < p.xLength
      ensures c.cells[j][i] == p.cells[j][i]
    {
      var o := Offset(centre, i, j);
      RoundOfInteger(o.x);
      RoundOfInteger(o.y);
      assert CastSource(centre, turn, i, j) == IntPoint(i, j);
    }
    SameCells(c, p);
    RotationsAgreeOnLatticeTurns(p, centre, turn);
  }

  /** A half turn about the middle pixel of a picture with odd sides is the
      two axis mirrors together. */
  lemma HalfTurnIsDoubleMirror(p: Picture, centre: IntPoint, turn: Turn)
    requires Valid(p)
    requires 2 * centre.x == p.xLength - 1 && 2 * centre.y == p.yLength - 1
    requires forall x, y :: turn(x, y) == RealPoint((-x) as real, (-y) as real)
    ensures CastRotated(p, centre, turn) == Symmetry.MirrorX(Symmetry.MirrorY(p))
  {
    var c, m := CastRotated(p, centre, turn), Symmetry.MirrorX(Symmetry.MirrorY(p));
    forall j, i | 0 <= j < p.yLength && 0 <= i < p.xLength
      ensures c.cells[j][i] == m.cells[j][i]
    {
      HalfTurnSource(centre, turn, i, j);
      HalfTurnPixel(p, centre, turn, i, j);
    }
    SameCells(c, m);
  }

  /** One pixel of `HalfTurnIsDoubleMirror`, once its source pixel is known
      to be its reflection through the middle pixel. */
  lemma HalfTurnPixel(p: Picture, centre: IntPoint, turn: Turn, i: int, j: int)
    requires Valid(p)
    requires 0 <= j < p.yLength && 0 <= i < p.xLength
    requires CastSource(centre, turn, i, j) == IntPoint(p.xLength - 1 - i, p.yLength - 1 - j)
    ensures CastRotated(p, centre, turn).cells[j][i] == Symmetry.MirrorX(Symmetry.MirrorY(p)).cells[j][i]
  {
    var my := Symmetry.MirrorY(p);
    var sj := p.yLength - 1 - j;
    assert my.cells[sj][i] == p.cells[sj][p.xLength - 1 - i];
    assert Symmetry.MirrorX(my).cells[j][i] == my.cells[sj][i];
  }

  /** Under a half turn pixel `(i, j)` comes from its reflection through
      the centre, `(2 cx - i, 2 cy - j)`. */
  lemma HalfTurnSource(centre: IntPoint, turn: Turn, i: int, j: int)
    requires forall x, y :: turn(x, y) == RealPoint((-x) as real, (-y) as real)
    ensures CastSource(centre, turn, i, j) == IntPoint(2 * centre.x - i, 2 * centre.y - j)
  {
    var o := Offset(centre, i, j);
    assert turn(o.x, o.y) == RealPoint((-o.x) as real, (-o.y) as real);
    RoundOfInteger(-o.x);
    RoundOfInteger(-o.y);
  }

  /** A quarter turn (90 degrees) about the middle pixel of a square
      picture with odd side is the transpose followed by the mirror about
      the horizontal axis. */
  lemma QuarterTurnIsTransposeMirror(p: Picture, centre: IntPoint, turn: Turn)
    requires Valid(p) && p.xLength == p.yLength
    requires 2 * centre.x == p.xLength - 1 && centre.y == centre.x
    requires forall x, y :: turn(x, y) == RealPoint(y as real, (-x) as real)
    ensures CastRotated(p, centre, turn) == Symmetry.MirrorX(Symmetry.Transpose(p))
  {
    var c, m := CastRotated(p, centre, turn), Symmetry.MirrorX(Symmetry.Transpose(p));
    forall j, i | 0 <= j < p.yLength && 0 <= i < p.xLength
      ensures c.cells[j][i] == m.cells[j][i]
    {
      QuarterTurnSource(centre, turn, i, j);
      QuarterTurnPixel(p, centre, turn, i, j);
    }
    SameCells(c, m);
  }

  /** One pixel of `QuarterTurnIsTransposeMirror`, once its source pixel is
      known. */
  lemma QuarterTurnPixel(p: Picture, centre: IntPoint, turn: Turn, i: int, j: int)
    requires Valid(p) && p.xLength == p.yLength
    requires 0 <= j < p.yLength && 0 <= i < p.xLength
    requires CastSource(centre, turn, i, j) == IntPoint(p.xLength - 1 - j, i)
    ensures CastRotated(p, centre, turn).cells[j][i] == Symmetry.MirrorX(Symmetry.Transpose(p)).cells[j][i]
  {
    var t := Symmetry.Transpose(p);
    var a := p.xLength - 1 - j;
    assert t.cells[a][i] == p.cells[i][a];
    assert Symmetry.MirrorX(t).cells[j][i] == t.cells[a][i];
  }

  /** Under a quarter turn about a centre on the diagonal, pixel `(i, j)`
      comes from pixel `(2 cx - j, i)`. */
  lemma QuarterTurnSource(centre: IntPoint, turn: Turn, i: int, j: int)
    requires centre.y == centre.x
    requires forall x, y :: turn(x, y) == RealPoint(y as real, (-x) as real)
    ensures CastSource(centre, turn, i, j) == IntPoint(2 * centre.x - j, i)
  {
    var o := Offset(centre, i, j);
    assert turn(o.x, o.y) == RealPoint(o.y as real, (-o.x) as real);
    RoundOfInteger(o.y);
    RoundOfInteger(-o.x);
  }

  // ---------------------------------------------------------------------
  // Swirl
  // ---------------------------------------------------------------------

  /** How strongly a pixel at distance `dist` inside the disc of `radius` is
      twisted: 1 at the centre, falling linearly towards 0 at the rim. */
  function SwirlAmount(dist: real, radius: int): (amt: real)
    requires 0.0 <= dist < radius as real
    ensures 0.0 < amt <= 1.0
    ensures amt == 1.0 <==> dist == 0.0
  {
    1.0 - dist / radius as real
  }

  /** `norm` is the Euclidean length of an integer vector. */
  ghost predicate EuclideanNorm(norm: (int, int) -> real)
  {
    forall x, y :: 0.0 <= norm(x, y) && norm(x, y) * norm(x, y) == (x * x + y * y) as real
  }

  /** The distance of pixel `(i, j)` from the centre, as the swirl measures it. */
  function CentreDistance(norm: (int, int) -> real, centre: IntPoint, i: int, j: int): real
  {
    norm(centre.x - i, centre.y - j)
  }

  function SwirlPixel(p: Picture, centre: IntPoint, radius: int, norm: (int, int) -> real,
                      rotate: (IntPoint, real) -> RealPoint): (int, int) --> real
  {
    (i: int, j: int)
      requires Valid(p) && 0 <= i < p.xLength && 0 <= j < p.yLength
      requires 0.0 <= CentreDistance(norm, centre, i, j)
    =>
      var d := CentreDistance(norm, centre, i, j);
      if d < radius as real then BilinearInterpolation(p, rotate(IntPoint(i, j), SwirlAmount(d, radius)))
      else p.cells[j][i]
  }

  /** `swirl` as a value. `rotate(q, amt)` is the point `q` turned about the
      centre by `-2 * twist * pi * amt`. Pixels inside the disc take the
      bilinear value at their turned position (black where that falls off
      the picture); the rest keep their intensity. */
  function Swirled(p: Picture, centre: IntPoint, radius: int, norm: (int, int) -> real,
                   rotate: (IntPoint, real) -> RealPoint): (r: Picture)
    requires Valid(p)
    requires forall x, y :: 0.0 <= norm(x, y)
    ensures Valid(r) && r.xLength == p.xLength && r.yLength == p.yLength
    ensures forall j, i :: 0 <= j < p.yLength && 0 <= i < p.xLength && radius as real <= CentreDistance(norm, centre, i, j) ==>
      r.cells[j][i] == p.cells[j][i]
    ensures forall j, i :: 0 <= j < p.yLength && 0 <= i < p.xLength && CentreDistance(norm, centre, i, j) < radius as real ==>
      r.cells[j][i] == BilinearInterpolation(p, rotate(IntPoint(i, j), SwirlAmount(CentreDistance(norm, centre, i, j), radius)))
    ensures WellFormed(p) ==> WellFormed(r)
  {
    Tabulate(p.xLength, p.yLength, SwirlPixel(p, centre, radius, norm, rotate))
  }

  /** `swirl`: the loop over a fresh canvas computes `Swirled`. */
  method Swirl(p: Picture, canvas: Picture, centre: IntPoint, radius: int, norm: (int, int) -> real,
               rotate: (IntPoint, real) -> RealPoint) returns (r: Picture)
    requires Valid(p) && Valid(canvas) && canvas.xLength == p.xLength && canvas.yLength == p.yLength
    requires forall x, y :: 0.0 <= norm(x, y)
    ensures r == Swirled(p, centre, radius, norm, rotate)
  {
    r := Render(canvas, SwirlPixel(p, centre, radius, norm, rotate));
  }

  lemma SquareGrows(a: real, b: real)
    requires 0.0 <= a < b
    ensures a * a < b * b
  {
    assert b * b - a * a == (b - a) * (b + a);
    ScaleSign(b - a, b + a);
  }

  /** With the Euclidean norm, the swirled pixels are exactly the integer
      points strictly inside the disc of the radius; a radius of 0 or less
      swirls nothing. */
  lemma SwirlDiscIsIntegerDisc(norm: (int, int) -> real, centre: IntPoint, radius: int, i: int, j: int)
    requires EuclideanNorm(norm)
    ensures var dx, dy := centre.x - i, centre.y - j;
      CentreDistance(norm, centre, i, j) < radius as real <==> 0 < radius && dx * dx + dy * dy < radius * radius
  {
    var dx, dy := centre.x - i, centre.y - j;
    var d := norm(dx, dy);
    var r := radius as real;
    assert 0.0 <= d && d * d == (dx * dx + dy * dy) as real;
    if 0 < radius {
      if d < r {
        SquareGrows(d, r);
      } else {
        assert r * r <= d * d by {
          assert d * d - r * r == (d - r) * (d + r);
          ProductNonNegative(d - r, d + r);
        }
      }
    }
  }

  /** A swirl with no disc leaves the picture as it is. */
  lemma SwirlEmptyDiscIsIdentity(p: Picture, centre: IntPoint, radius: int, norm: (int, int) -> real,
                                 rotate: (IntPoint, real) -> RealPoint)
    requires Valid(p) && radius <= 0
    requires forall x, y :: 0.0 <= norm(x, y)
    ensures Swirled(p, centre, radius, norm, rotate) == p
  {
    SameCells(Swirled(p, centre, radius, norm, rotate), p);
  }

  /** A swirl with no twist (every pixel turned onto itself) leaves the
      picture as it is: the bilinear value at a pixel is that pixel. */
  lemma SwirlWithoutTwistIsIdentity(p: Picture, centre: IntPoint, radius: int, norm: (int, int) -> real,
                                    rotate: (IntPoint, real) -> RealPoint)
    requires Valid(p)
    requires forall x, y :: 0.0 <= norm(x, y)
    requires forall q, a :: rotate(q, a) == Lattice(q)
    ensures Swirled(p, centre, radius, norm, rotate) == p
  {
    var s := Swirled(p, centre, radius, norm, rotate);
    forall j, i | 0 <= j < p.yLength && 0 <= i < p.xLength
      ensures s.cells[j][i] == p.cells[j][i]
    {
      var q := Lattice(IntPoint(i, j));
      assert BlendSafe(p, q) && IsIntegral(q.x);
      assert Floor(q.x) == i && Floor(q.y) == j;
    }
    SameCells(s, p);
  }
}
