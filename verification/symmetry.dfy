/** The index-permutation transforms of `Picture`: the two axis mirrors and
    the two diagonal reflections. Each is first defined as a pure function by
    where every input cell lands; the methods then follow the code's loops,
    which start from a clone and overwrite it cell by cell. */
module Symmetry {
  import opened Pictures

  /** Mirror about the vertical axis: column `i` moves to column `W-1-i`. */
  function MirrorY(p: Picture): (r: Picture)
    requires Valid(p)
    ensures Valid(r) && r.xLength == p.xLength && r.yLength == p.yLength
    ensures forall j, i :: 0 <= j < p.yLength && 0 <= i < p.xLength ==>
      r.cells[j][p.xLength - 1 - i] == p.cells[j][i]
  {
    Picture(p.xLength, p.yLength,
      seq(p.yLength, j requires 0 <= j < p.yLength =>
        seq(p.xLength, i requires 0 <= i < p.xLength => p.cells[j][p.xLength - 1 - i])))
  }

  /** Mirror about the horizontal axis: row `j` moves to row `H-1-j`. */
  function MirrorX(p: Picture): (r: Picture)
    requires Valid(p)
    ensures Valid(r) && r.xLength == p.xLength && r.yLength == p.yLength
    ensures forall j, i :: 0 <= j < p.yLength && 0 <= i < p.xLength ==>
      r.cells[p.yLength - 1 - j][i] == p.cells[j][i]
  {
    Picture(p.xLength, p.yLength,
      seq(p.yLength, j requires 0 <= j < p.yLength =>
        seq(p.xLength, i requires 0 <= i < p.xLength => p.cells[p.yLength - 1 - j][i])))
  }

  /** The matrix transpose `picture.t()`, wrapped as a new picture whose
      `x_length` is the transposed matrix's column count: the dimensions swap
      and the cell at row `r`, column `c` moves to row `c`, column `r`. */
  function Transpose(p: Picture): (t: Picture)
    requires Valid(p)
    ensures Valid(t) && t.xLength == p.yLength && t.yLength == p.xLength
    ensures forall r, c :: 0 <= r < p.yLength && 0 <= c < p.xLength ==> t.cells[c][r] == p.cells[r][c]
  {
    Picture(p.yLength, p.xLength,
      seq(p.xLength, c requires 0 <= c < p.xLength =>
        seq(p.yLength, r requires 0 <= r < p.yLength => p.cells[r][c])))
  }

  /** Reflection across the anti-diagonal, stated directly: the dimensions
      swap and the cell at row `r`, column `c` moves to row `W-1-c`,
      column `H-1-r`. */
  function AntiTranspose(p: Picture): (a: Picture)
    requires Valid(p)
    ensures Valid(a) && a.xLength == p.yLength && a.yLength == p.xLength
    ensures forall r, c :: 0 <= r < p.yLength && 0 <= c < p.xLength ==>
      a.cells[p.xLength - 1 - c][p.yLength - 1 - r] == p.cells[r][c]
  {
    Picture(p.yLength, p.xLength,
      seq(p.xLength, a requires 0 <= a < p.xLength =>
        seq(p.yLength, b requires 0 <= b < p.yLength => p.cells[p.yLength - 1 - b][p.xLength - 1 - a])))
  }

  /** `symmetry_wrt_y`: clone the picture, then for every row `j` and column
      `i` write the input's cell `(j, i)` at `(j, W-1-i)`. Every cell of the
      clone is overwritten, and the result is the mirror image. */
  method SymmetryWrtY(p: Picture) returns (r: Picture)
    requires Valid(p)
    ensures r == MirrorY(p)
  {
    r := p;
    var j := 0;
    while j < p.yLength
      invariant 0 <= j <= p.yLength
      invariant Valid(r) && r.xLength == p.xLength && r.yLength == p.yLength
      invariant forall jj, ii :: 0 <= jj < j && 0 <= ii < p.xLength ==>
        r.cells[jj][p.xLength - 1 - ii] == p.cells[jj][ii]
      invariant forall jj, ii :: j <= jj < p.yLength && 0 <= ii < p.xLength ==> r.cells[jj][ii] == p.cells[jj][ii]
    {
      var i := 0;
      while i < p.xLength
        invariant 0 <= i <= p.xLength
        invariant Valid(r) && r.xLength == p.xLength && r.yLength == p.yLength
        invariant forall jj, ii :: 0 <= jj < j && 0 <= ii < p.xLength ==>
          r.cells[jj][p.xLength - 1 - ii] == p.cells[jj][ii]
        invariant forall jj, ii :: j < jj < p.yLength && 0 <= ii < p.xLength ==> r.cells[jj][ii] == p.cells[jj][ii]
        invariant forall ii :: 0 <= ii < i ==> r.cells[j][p.xLength - 1 - ii] == p.cells[j][ii]
        invariant forall ii :: 0 <= ii < p.xLength - i ==> r.cells[j][ii] == p.cells[j][ii]
      {
        r := SetIntensity(r, j, p.xLength - 1 - i, GetIntensity(p, j, i)).picture;
        i := i + 1;
      }
      j := j + 1;
    }
    forall jj, ii | 0 <= jj < p.yLength && 0 <= ii < p.xLength
      ensures r.cells[jj][ii] == MirrorY(p).cells[jj][ii]
    {
      var k := p.xLength - 1 - ii;
      assert r.cells[jj][p.xLength - 1 - k] == p.cells[jj][k];
    }
    SameCells(r, MirrorY(p));
  }

  /** `symmetry_wrt_x`: clone the picture, then write the input's cell
      `(j, i)` at `(H-1-j, i)` for every row and column. */
  method SymmetryWrtX(p: Picture) returns (r: Picture)
    requires Valid(p)
    ensures r == MirrorX(p)
  {
    r := p;
    var j := 0;
    while j < p.yLength
      invariant 0 <= j <= p.yLength
      invariant Valid(r) && r.xLength == p.xLength && r.yLength == p.yLength
      invariant forall jj, ii :: 0 <= jj < j && 0 <= ii < p.xLength ==>
        r.cells[p.yLength - 1 - jj][ii] == p.cells[jj][ii]
      invariant forall jj, ii :: 0 <= jj < p.yLength - j && 0 <= ii < p.xLength ==> r.cells[jj][ii] == p.cells[jj][ii]
    {
      var target := p.yLength - 1 - j;
      var i := 0;
      while i < p.xLength
        invariant 0 <= i <= p.xLength
        invariant Valid(r) && r.xLength == p.xLength && r.yLength == p.yLength
        invariant forall jj, ii :: 0 <= jj < j && 0 <= ii < p.xLength ==>
          r.cells[p.yLength - 1 - jj][ii] == p.cells[jj][ii]
        invariant forall jj, ii :: 0 <= jj < p.yLength - 1 - j && 0 <= ii < p.xLength ==> r.cells[jj][ii] == p.cells[jj][ii]
        invariant forall ii :: 0 <= ii < i ==> r.cells[target][ii] == p.cells[j][ii]
        invariant forall ii :: i <= ii < p.xLength ==> r.cells[target][ii] == p.cells[target][ii]
      {
        r := SetIntensity(r, target, i, GetIntensity(p, j, i)).picture;
        i := i + 1;
      }
      j := j + 1;
    }
    forall jj, ii | 0 <= jj < p.yLength && 0 <= ii < p.xLength
      ensures r.cells[jj][ii] == MirrorX(p).cells[jj][ii]
    {
      var k := p.yLength - 1 - jj;
      assert r.cells[p.yLength - 1 - k][ii] == p.cells[k][ii];
    }
    SameCells(r, MirrorX(p));
  }

  /** `diagonal_symmetry_bottom_to_top`: transpose, then mirror about the
      vertical axis, then about the horizontal axis. The composite is the
      anti-diagonal reflection. */
  method DiagonalSymmetryBottomToTop(p: Picture) returns (r: Picture)
    requires Valid(p)
    ensures r == AntiTranspose(p)
  {
    var t := Transpose(p);
    var m := SymmetryWrtY(t);
    r := SymmetryWrtX(m);
    AntiTransposeIsComposite(p);
  }

  /** Mirroring about the vertical axis twice gives the picture back. */
  lemma MirrorYInvolution(p: Picture)
    requires Valid(p)
    ensures MirrorY(MirrorY(p)) == p
  {
    SameCells(MirrorY(MirrorY(p)), p);
  }

  /** Mirroring about the horizontal axis twice gives the picture back. */
  lemma MirrorXInvolution(p: Picture)
    requires Valid(p)
    ensures MirrorX(MirrorX(p)) == p
  {
    SameCells(MirrorX(MirrorX(p)), p);
  }

  /** Transposing twice gives the picture back. */
  lemma TransposeInvolution(p: Picture)
    requires Valid(p)
    ensures Transpose(Transpose(p)) == p
  {
    SameCells(Transpose(Transpose(p)), p);
  }

  /** The anti-diagonal reflection is its own inverse. */
  lemma AntiTransposeInvolution(p: Picture)
    requires Valid(p)
    ensures AntiTranspose(AntiTranspose(p)) == p
  {
    SameCells(AntiTranspose(AntiTranspose(p)), p);
  }

  /** The code's composite (transpose, mirror-y, mirror-x) is exactly the
      anti-diagonal reflection. */
  lemma AntiTransposeIsComposite(p: Picture)
    requires Valid(p)
    ensures MirrorX(MirrorY(Transpose(p))) == AntiTranspose(p)
  {
    SameCells(MirrorX(MirrorY(Transpose(p))), AntiTranspose(p));
  }

  /** The two axis mirrors commute; either order is the half-turn. */
  lemma MirrorsCommute(p: Picture)
    requires Valid(p)
    ensures MirrorX(MirrorY(p)) == MirrorY(MirrorX(p))
  {
    SameCells(MirrorX(MirrorY(p)), MirrorY(MirrorX(p)));
  }
}
