/** The grid folds `maximum_intensity` / `minimum_intensity` and the
    min-max normalisation `rescale_color`, over real intensities. */
module Intensity {
  import opened Wrappers
  import opened Pictures

  /** Both fold loops, and the rescale loop, run `i` up to `x_length` and
      `j` up to `y_length` but read `get_intensity(i, j)` with `i` as the
      ROW. This holds when every cell `(i, j)` the loop touches is a cell of
      the picture. */
  predicate LoopReadsInBounds(p: Picture)
  {
    forall i, j :: 0 <= i < p.xLength && 0 <= j < p.yLength ==> InGrid(p, i, j)
  }

  /** The loops stay in bounds exactly for square pictures, and for
      pictures with no cell at all (where they read nothing). */
  lemma LoopReadsInBoundsIffSquare(p: Picture)
    ensures LoopReadsInBounds(p) <==> (p.xLength == p.yLength || p.xLength == 0 || p.yLength == 0)
  {
    if p.xLength > p.yLength > 0 {
      assert !InGrid(p, p.yLength, 0);
    } else if p.yLength > p.xLength > 0 {
      assert !InGrid(p, 0, p.xLength);
    }
  }

  /** The inner loop of `maximum_intensity`: fold `max` over one row,
      starting from `acc`. The result bounds the row and `acc`, and is
      one of them. */
  function RowMax(row: seq<real>, acc: real): (m: real)
    ensures acc <= m
    ensures forall k :: 0 <= k < |row| ==> row[k] <= m
    ensures m == acc || m in row
    decreases |row|
  {
    if |row| == 0 then acc
    else
      var m := RowMax(row[1..], Max(row[0], acc));
      assert forall k :: 1 <= k < |row| ==> row[k] == row[1..][k - 1];
      m
  }

  /** Both loops of `maximum_intensity`: fold `max` over the rows in order. */
  function GridMax(rows: seq<seq<real>>, acc: real): (m: real)
    ensures acc <= m
    ensures forall r, k :: 0 <= r < |rows| && 0 <= k < |rows[r]| ==> rows[r][k] <= m
    ensures m == acc || exists r :: 0 <= r < |rows| && m in rows[r]
    decreases |rows|
  {
    if |rows| == 0 then acc
    else
      var m := GridMax(rows[1..], RowMax(rows[0], acc));
      assert forall r :: 1 <= r < |rows| ==> rows[r] == rows[1..][r - 1];
      m
  }

  /** The inner loop of `minimum_intensity`. */
  function RowMin(row: seq<real>, acc: real): (m: real)
    ensures m <= acc
    ensures forall k :: 0 <= k < |row| ==> m <= row[k]
    ensures m == acc || m in row
    decreases |row|
  {
    if |row| == 0 then acc
    else
      var m := RowMin(row[1..], Min(row[0], acc));
      assert forall k :: 1 <= k < |row| ==> row[k] == row[1..][k - 1];
      m
  }

  /** Both loops of `minimum_intensity`. */
  function GridMin(rows: seq<seq<real>>, acc: real): (m: real)
    ensures m <= acc
    ensures forall r, k :: 0 <= r < |rows| && 0 <= k < |rows[r]| ==> m <= rows[r][k]
    ensures m == acc || exists r :: 0 <= r < |rows| && m in rows[r]
    decreases |rows|
  {
    if |rows| == 0 then acc
    else
      var m := GridMin(rows[1..], RowMin(rows[0], acc));
      assert forall r :: 1 <= r < |rows| ==> rows[r] == rows[1..][r - 1];
      m
  }

  /** `maximum_intensity`: starts from 0 and keeps the larger value. The
      result is the maximum of 0 and every cell. */
  function MaximumIntensity(p: Picture): (m: real)
    requires Valid(p) && LoopReadsInBounds(p)
    ensures 0.0 <= m
    ensures forall i, j :: 0 <= i < p.yLength && 0 <= j < p.xLength ==> p.cells[i][j] <= m
    ensures m == 0.0 || exists i, j :: 0 <= i < p.yLength && 0 <= j < p.xLength && p.cells[i][j] == m
  {
    GridMax(p.cells, 0.0)
  }

  /** `minimum_intensity`: starts from 1 and keeps the smaller value. The
      result is the minimum of 1 and every cell. */
  function MinimumIntensity(p: Picture): (m: real)
    requires Valid(p) && LoopReadsInBounds(p)
    ensures m <= 1.0
    ensures forall i, j :: 0 <= i < p.yLength && 0 <= j < p.xLength ==> m <= p.cells[i][j]
    ensures m == 1.0 || exists i, j :: 0 <= i < p.yLength && 0 <= j < p.xLength && p.cells[i][j] == m
  {
    GridMin(p.cells, 1.0)
  }

  /** The affine map of `rescale_color` for one intensity. */
  function Normalise(v: real, lo: real, hi: real): real
    requires lo != hi
  {
    (v - lo) / (hi - lo)
  }

  /** The inverse of `Normalise`: scale back by the range and shift by `lo`. */
  function Denormalise(v: real, lo: real, hi: real): real
  {
    v * (hi - lo) + lo
  }

  /** A value between `lo` and `hi` normalises into [0,1], the map is undone
      by scaling back, and the two ends go to 0 and 1. */
  lemma NormaliseFacts(v: real, lo: real, hi: real)
    requires lo <= v <= hi && lo < hi
    ensures InUnitRange(Normalise(v, lo, hi))
    ensures Denormalise(Normalise(v, lo, hi), lo, hi) == v
    ensures v == lo ==> Normalise(v, lo, hi) == 0.0
    ensures v == hi ==> Normalise(v, lo, hi) == 1.0
  {
    var d := hi - lo;
    var q := Normalise(v, lo, hi);
    assert q * d == v - lo;
    ScaleSign(q, d);
    assert (q - 1.0) * d == v - hi;
    ScaleSign(q - 1.0, d);
  }

  /** The picture `rescale_color` leaves behind once its assertion passed:
      every cell mapped through `Normalise`. */
  function RescaleCells(p: Picture, lo: real, hi: real): (q: Picture)
    requires Valid(p) && lo != hi
    requires forall i, j :: 0 <= i < p.yLength && 0 <= j < p.xLength ==> lo <= p.cells[i][j] <= hi
    ensures Valid(q) && q.xLength == p.xLength && q.yLength == p.yLength
    ensures forall i, j :: 0 <= i < p.yLength && 0 <= j < p.xLength ==>
      && InUnitRange(q.cells[i][j])
      && (p.cells[i][j] == lo ==> q.cells[i][j] == 0.0)
      && (p.cells[i][j] == hi ==> q.cells[i][j] == 1.0)
      && Denormalise(q.cells[i][j], lo, hi) == p.cells[i][j]
  {
    var q := Picture(p.xLength, p.yLength,
      seq(p.yLength, i requires 0 <= i < p.yLength =>
        seq(p.xLength, j requires 0 <= j < p.xLength => Normalise(p.cells[i][j], lo, hi))));
    assert forall i, j :: 0 <= i < p.yLength && 0 <= j < p.xLength ==>
      && InUnitRange(Normalise(p.cells[i][j], lo, hi))
      && (p.cells[i][j] == lo ==> Normalise(p.cells[i][j], lo, hi) == 0.0)
      && (p.cells[i][j] == hi ==> Normalise(p.cells[i][j], lo, hi) == 1.0)
      && Denormalise(Normalise(p.cells[i][j], lo, hi), lo, hi) == p.cells[i][j]
    by {
      forall i, j | 0 <= i < p.yLength && 0 <= j < p.xLength
        ensures InUnitRange(Normalise(p.cells[i][j], lo, hi))
        ensures p.cells[i][j] == lo ==> Normalise(p.cells[i][j], lo, hi) == 0.0
        ensures p.cells[i][j] == hi ==> Normalise(p.cells[i][j], lo, hi) == 1.0
        ensures Denormalise(Normalise(p.cells[i][j], lo, hi), lo, hi) == p.cells[i][j]
      {
        NormaliseFacts(p.cells[i][j], lo, hi);
      }
    }
    q
  }

  /** `rescale_color`: `None` models the failing `assert(size != 0)` when the
      maximum equals the minimum; otherwise every cell `v` becomes
      `(v - min) / (max - min)`. The result has the same size, every cell is
      normalised, a cell holding the minimum becomes 0 and one holding the
      maximum becomes 1, and the affine map is undone by
      `v' * (max - min) + min`. */
  function RescaleColor(p: Picture): (r: Option<Picture>)
    requires Valid(p) && LoopReadsInBounds(p)
    ensures r.None? <==> MaximumIntensity(p) == MinimumIntensity(p)
    ensures r.Some? ==> Valid(r.value) && r.value.xLength == p.xLength && r.value.yLength == p.yLength
    ensures r.Some? ==> forall i, j :: 0 <= i < p.yLength && 0 <= j < p.xLength ==>
      && InUnitRange(r.value.cells[i][j])
      && (p.cells[i][j] == MinimumIntensity(p) ==> r.value.cells[i][j] == 0.0)
      && (p.cells[i][j] == MaximumIntensity(p) ==> r.value.cells[i][j] == 1.0)
      && Denormalise(r.value.cells[i][j], MinimumIntensity(p), MaximumIntensity(p)) == p.cells[i][j]
    ensures r.Some? ==> r.value == RescaleCells(p, MinimumIntensity(p), MaximumIntensity(p))
  {
    var lo := MinimumIntensity(p);
    var hi := MaximumIntensity(p);
    if hi - lo == 0.0 then None
    else
      assert forall i, j :: 0 <= i < p.yLength && 0 <= j < p.xLength ==> lo <= p.cells[i][j] <= hi;
      Some(RescaleCells(p, lo, hi))
  }

  /** Rescaling keeps the order of intensities, in both directions. */
  lemma RescalePreservesOrder(p: Picture, i1: nat, j1: nat, i2: nat, j2: nat)
    requires Valid(p) && LoopReadsInBounds(p) && MaximumIntensity(p) != MinimumIntensity(p)
    requires i1 < p.yLength && j1 < p.xLength && i2 < p.yLength && j2 < p.xLength
    ensures p.cells[i1][j1] <= p.cells[i2][j2] <==>
            RescaleColor(p).value.cells[i1][j1] <= RescaleColor(p).value.cells[i2][j2]
  {
    var lo, hi := MinimumIntensity(p), MaximumIntensity(p);
    var q := RescaleColor(p).value;
    assert lo <= p.cells[i1][j1] <= hi;
    assert q.cells[i1][j1] == Normalise(p.cells[i1][j1], lo, hi);
    assert q.cells[i2][j2] == Normalise(p.cells[i2][j2], lo, hi);
    NormaliseMonotone(p.cells[i1][j1], p.cells[i2][j2], lo, hi);
  }

  /** The normalising map is strictly increasing. */
  lemma NormaliseMonotone(v: real, w: real, lo: real, hi: real)
    requires lo < hi
    ensures v <= w <==> Normalise(v, lo, hi) <= Normalise(w, lo, hi)
  {
    var a, b := Normalise(v, lo, hi), Normalise(w, lo, hi);
    assert a * (hi - lo) == v - lo;
    assert b * (hi - lo) == w - lo;
    assert v - w == (a - b) * (hi - lo);
    ScaleSign(a - b, hi - lo);
  }

  /** On a normalised picture with at least one cell, rescaling stretches
      the intensities to the whole of [0,1]: some cell becomes 0 and some
      cell becomes 1. */
  lemma RescaleReachesBothEnds(p: Picture)
    requires WellFormed(p) && LoopReadsInBounds(p) && MaximumIntensity(p) != MinimumIntensity(p)
    requires p.xLength > 0 && p.yLength > 0
    ensures exists i, j :: 0 <= i < p.yLength && 0 <= j < p.xLength && RescaleColor(p).value.cells[i][j] == 0.0
    ensures exists i, j :: 0 <= i < p.yLength && 0 <= j < p.xLength && RescaleColor(p).value.cells[i][j] == 1.0
  {
    var lo, hi := MinimumIntensity(p), MaximumIntensity(p);
    var q := RescaleColor(p).value;
    var c := p.cells[0][0];
    assert InUnitRange(c);
    assert lo == 1.0 ==> c == lo;
    assert hi == 0.0 ==> c == hi;
    var il, jl :| 0 <= il < p.yLength && 0 <= jl < p.xLength && p.cells[il][jl] == lo;
    var ih, jh :| 0 <= ih < p.yLength && 0 <= jh < p.xLength && p.cells[ih][jh] == hi;
    assert q.cells[il][jl] == 0.0;
    assert q.cells[ih][jh] == 1.0;
  }

  /** A normalised picture in which 0 and 1 both occur has minimum 0 and
      maximum 1. */
  lemma ExtremesOfStretched(q: Picture, i0: nat, j0: nat, i1: nat, j1: nat)
    requires WellFormed(q) && LoopReadsInBounds(q)
    requires i0 < q.yLength && j0 < q.xLength && q.cells[i0][j0] == 0.0
    requires i1 < q.yLength && j1 < q.xLength && q.cells[i1][j1] == 1.0
    ensures MinimumIntensity(q) == 0.0 && MaximumIntensity(q) == 1.0
  {
    var lo, hi := MinimumIntensity(q), MaximumIntensity(q);
    assert lo <= 0.0 && 1.0 <= hi;
    assert lo != 1.0;
    var il, jl :| 0 <= il < q.yLength && 0 <= jl < q.xLength && q.cells[il][jl] == lo;
    assert InUnitRange(q.cells[il][jl]);
    assert hi != 0.0;
    var ih, jh :| 0 <= ih < q.yLength && 0 <= jh < q.xLength && q.cells[ih][jh] == hi;
    assert InUnitRange(q.cells[ih][jh]);
  }

  /** A picture already stretched over exactly [0,1] is left as it is. */
  lemma RescaleStretchedIsIdentity(q: Picture)
    requires WellFormed(q) && LoopReadsInBounds(q)
    requires MinimumIntensity(q) == 0.0 && MaximumIntensity(q) == 1.0
    ensures RescaleColor(q) == Some(q)
  {
    var r := RescaleCells(q, 0.0, 1.0);
    forall i, j | 0 <= i < q.yLength && 0 <= j < q.xLength
      ensures r.cells[i][j] == q.cells[i][j]
    {
      assert r.cells[i][j] == Normalise(q.cells[i][j], 0.0, 1.0);
    }
    SameCells(r, q);
  }

  /** Rescaling a normalised picture a second time changes nothing. */
  lemma RescaleIdempotent(p: Picture)
    requires WellFormed(p) && LoopReadsInBounds(p) && MaximumIntensity(p) != MinimumIntensity(p)
    ensures LoopReadsInBounds(RescaleColor(p).value)
    ensures RescaleColor(RescaleColor(p).value) == RescaleColor(p)
  {
    var q := RescaleColor(p).value;
    LoopReadsInBoundsIffSquare(p);
    LoopReadsInBoundsIffSquare(q);
    if p.xLength == 0 || p.yLength == 0 {
      EmptyRescaleIsIdentity(q);
    } else {
      StretchedRescaleIsIdentity(p);
    }
  }

  /** With at least one cell, the rescaled picture holds both 0 and 1, so
      it is already stretched and rescales to itself. */
  lemma StretchedRescaleIsIdentity(p: Picture)
    requires WellFormed(p) && LoopReadsInBounds(p) && MaximumIntensity(p) != MinimumIntensity(p)
    requires p.xLength > 0 && p.yLength > 0
    ensures LoopReadsInBounds(RescaleColor(p).value)
    ensures RescaleColor(RescaleColor(p).value) == RescaleColor(p)
  {
    var q := RescaleColor(p).value;
    RescaledIsNormalised(p);
    RescaleReachesBothEnds(p);
    ContainsBothEndsIsStretched(q);
    RescaleStretchedIsIdentity(q);
  }

  /** The rescaled picture is normalised, and its loops read in bounds since
      it has the shape of the original. */
  lemma RescaledIsNormalised(p: Picture)
    requires Valid(p) && LoopReadsInBounds(p) && MaximumIntensity(p) != MinimumIntensity(p)
    ensures WellFormed(RescaleColor(p).value) && LoopReadsInBounds(RescaleColor(p).value)
  {
    var q := RescaleColor(p).value;
    LoopReadsInBoundsIffSquare(p);
    LoopReadsInBoundsIffSquare(q);
  }

  /** A normalised picture in which some cell is 0 and some cell is 1 has
      minimum 0 and maximum 1. */
  lemma ContainsBothEndsIsStretched(q: Picture)
    requires WellFormed(q) && LoopReadsInBounds(q)
    requires exists i, j :: 0 <= i < q.yLength && 0 <= j < q.xLength && q.cells[i][j] == 0.0
    requires exists i, j :: 0 <= i < q.yLength && 0 <= j < q.xLength && q.cells[i][j] == 1.0
    ensures MinimumIntensity(q) == 0.0 && MaximumIntensity(q) == 1.0
  {
    var i0, j0 :| 0 <= i0 < q.yLength && 0 <= j0 < q.xLength && q.cells[i0][j0] == 0.0;
    var i1, j1 :| 0 <= i1 < q.yLength && 0 <= j1 < q.xLength && q.cells[i1][j1] == 1.0;
    ExtremesOfStretched(q, i0, j0, i1, j1);
  }

  /** A picture without cells has extremes 1 (minimum) and 0 (maximum), the
      initial values of the folds, so it rescales to itself. */
  lemma EmptyRescaleIsIdentity(q: Picture)
    requires Valid(q) && (q.xLength == 0 || q.yLength == 0)
    ensures LoopReadsInBounds(q)
    ensures MinimumIntensity(q) == 1.0 && MaximumIntensity(q) == 0.0
    ensures RescaleColor(q) == Some(q)
  {
    var r := RescaleCells(q, 1.0, 0.0);
    SameCells(r, q);
  }
}
