/** Optional values: `None` where the code aborts or reads a missing cell. */
module Wrappers {

  datatype Option<+T> = None | Some(value: T)
}

/** The single-channel `Picture`: `yLength` rows of `xLength` intensities.
    `cells[i][j]` is what `get_intensity(i, j)` returns, so the first index
    is the row (the OpenCV `Mat` row) and the second the column. */
module Pictures {

  datatype Picture = Picture(xLength: nat, yLength: nat, cells: seq<seq<real>>)

  /** The grid really has `yLength` rows of `xLength` cells each. */
  predicate Valid(p: Picture)
  {
    && |p.cells| == p.yLength
    && forall i :: 0 <= i < |p.cells| ==> |p.cells[i]| == p.xLength
  }

  /** Intensities are normalised: 0 is black, 1 is white. */
  predicate InUnitRange(v: real)
  {
    0.0 <= v <= 1.0
  }

  /** Row `i`, column `j` is a cell of the picture. */
  predicate InGrid(p: Picture, i: int, j: int)
  {
    0 <= i < p.yLength && 0 <= j < p.xLength
  }

  /** A valid picture whose every intensity is normalised. */
  predicate WellFormed(p: Picture)
  {
    && Valid(p)
    && forall i, j :: 0 <= i < p.yLength && 0 <= j < p.xLength ==> InUnitRange(p.cells[i][j])
  }

  /** The intensity at row `i`, column `j`; a normalised picture yields a
      normalised intensity. */
  function GetIntensity(p: Picture, i: nat, j: nat): (v: real)
    requires Valid(p) && i < p.yLength && j < p.xLength
    ensures WellFormed(p) ==> InUnitRange(v)
  {
    p.cells[i][j]
  }

  /** The outcome of a write: the new picture, and whether the
      "Wrong intensity value" diagnostic was printed. */
  datatype Write = Write(picture: Picture, warned: bool)

  /** Writes `v` at row `i`, column `j`. An intensity outside [0,1] is only
      reported; the write happens all the same. */
  function SetIntensity(p: Picture, i: nat, j: nat, v: real): (w: Write)
    requires Valid(p) && i < p.yLength && j < p.xLength
    ensures w.warned <==> (v < 0.0 || v > 1.0)
    ensures Valid(w.picture)
    ensures w.picture.xLength == p.xLength && w.picture.yLength == p.yLength
    ensures w.picture.cells[i][j] == v
    ensures forall a, b :: 0 <= a < p.yLength && 0 <= b < p.xLength && (a != i || b != j) ==>
      w.picture.cells[a][b] == p.cells[a][b]
  {
    Write(p.(cells := p.cells[i := p.cells[i][j := v]]), !InUnitRange(v))
  }

  /** A read after a write sees the written value at the written cell and
      the old value everywhere else. */
  lemma ReadAfterWrite(p: Picture, i: nat, j: nat, v: real, a: nat, b: nat)
    requires Valid(p) && i < p.yLength && j < p.xLength
    requires a < p.yLength && b < p.xLength
    ensures GetIntensity(SetIntensity(p, i, j, v).picture, a, b) ==
      if a == i && b == j then v else GetIntensity(p, a, b)
  {
  }

  /** `std::max(a, b)`: the larger of the two, `a` on a tie. */
  function Max(a: real, b: real): (m: real)
    ensures a <= m && b <= m
    ensures m == a || m == b
  {
    if a < b then b else a
  }

  /** `std::min(a, b)`: the smaller of the two, `a` on a tie. */
  function Min(a: real, b: real): (m: real)
    ensures m <= a && m <= b
    ensures m == a || m == b
  {
    if b < a then b else a
  }

  /** A positive factor keeps the sign. */
  lemma ScaleSign(x: real, k: real)
    requires k > 0.0
    ensures x < 0.0 <==> x * k < 0.0
    ensures x == 0.0 <==> x * k == 0.0
    ensures x > 0.0 <==> x * k > 0.0
  {
    if x > 0.0 {
      assert x * k > 0.0;
    } else if x < 0.0 {
      assert (-x) * k > 0.0;
    }
  }

  /** The product of two non-negative reals is non-negative. */
  lemma ProductNonNegative(x: real, y: real)
    requires 0.0 <= x && 0.0 <= y
    ensures 0.0 <= x * y
  {
  }

  /** The `w` by `h` picture whose cell at row `j`, column `i` is `f(i, j)`. */
  function Tabulate(w: nat, h: nat, f: (int, int) --> real): (p: Picture)
    requires forall i, j :: 0 <= i < w && 0 <= j < h ==> f.requires(i, j)
    ensures Valid(p) && p.xLength == w && p.yLength == h
    ensures forall j, i :: 0 <= j < h && 0 <= i < w ==> p.cells[j][i] == f(i, j)
  {
    Picture(w, h, seq(h, j requires 0 <= j < h => seq(w, i requires 0 <= i < w => f(i, j))))
  }

  /** Two valid pictures with the same dimensions and the same cells are equal. */
  lemma SameCells(a: Picture, b: Picture)
    requires Valid(a) && Valid(b)
    requires a.xLength == b.xLength && a.yLength == b.yLength
    requires forall i, j :: 0 <= i < a.yLength && 0 <= j < a.xLength ==> a.cells[i][j] == b.cells[i][j]
    ensures a == b
  {
    forall i | 0 <= i < a.yLength
      ensures a.cells[i] == b.cells[i]
    {
      assert |a.cells[i]| == |b.cells[i]|;
    }
  }
}
