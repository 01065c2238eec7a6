/** Integer matrices as values (rows of cells) and their link to two-dimensional arrays.
    The board and every piece shape of the game are such matrices. */
module Grids {

  /** A matrix as a sequence of rows. */
  type Grid = seq<seq<int>>

  /** `g` has `h` rows and every row has `w` cells. */
  predicate IsRect(g: Grid, h: int, w: int) {
    |g| == h && forall i :: 0 <= i < |g| ==> |g[i]| == w
  }

  /** `g` is an n-by-n matrix. */
  predicate IsSquare(g: Grid) {
    IsRect(g, |g|, |g|)
  }

  /** The cell at row `i`, column `j`, reading 0 outside the matrix. */
  function At(g: Grid, i: int, j: int): int {
    if 0 <= i < |g| && 0 <= j < |g[i]| then g[i][j] else 0
  }

  /** Some cell of `g` is nonzero. */
  predicate HasBlock(g: Grid) {
    exists i, j :: 0 <= i < |g| && 0 <= j < |g[i]| && g[i][j] != 0
  }

  /** Every cell of `g` lies in `lo..hi`. */
  predicate CellsWithin(g: Grid, lo: int, hi: int) {
    forall i, j :: 0 <= i < |g| && 0 <= j < |g[i]| ==> lo <= g[i][j] <= hi
  }

  /** A row of `w` empty cells. */
  function ZeroRow(w: nat): seq<int> {
    seq(w, _ => 0)
  }

  /** `k` empty rows of width `w`. */
  function ZeroRows(k: nat, w: nat): Grid {
    seq(k, _ => ZeroRow(w))
  }

  /** Array `a` holds matrix `g`: the same number of rows and columns, and the same cell everywhere. */
  ghost predicate Mirrors(a: array2<int>, g: Grid)
    reads a
  {
    IsRect(g, a.Length0, a.Length1) &&
    forall i, j :: 0 <= i < a.Length0 && 0 <= j < a.Length1 ==> a[i, j] == g[i][j]
  }

  /** Two rectangular matrices of the same size with the same cells are equal. */
  lemma {:induction false} GridExt(g: Grid, h: Grid, n: nat, w: nat)
    requires IsRect(g, n, w) && IsRect(h, n, w)
    requires forall i, j :: 0 <= i < n && 0 <= j < w ==> g[i][j] == h[i][j]
    ensures g == h
  {
    forall i | 0 <= i < n
      ensures g[i] == h[i]
    {
      assert forall j :: 0 <= j < w ==> g[i][j] == h[i][j];
    }
  }

  /** createMatrix: a fresh `height`-by-`width` matrix of zeros. */
  method CreateMatrix(width: nat, height: nat) returns (a: array2<int>)
    ensures fresh(a)
    ensures a.Length0 == height && a.Length1 == width
    ensures Mirrors(a, ZeroRows(height, width))
  {
    a := new int[height, width]((_, _) => 0);
  }

  /** A fresh array holding the given rectangular matrix. */
  method FromGrid(g: Grid, h: nat, w: nat) returns (a: array2<int>)
    requires IsRect(g, h, w)
    ensures fresh(a)
    ensures a.Length0 == h && a.Length1 == w
    ensures Mirrors(a, g)
  {
    a := new int[h, w]((i, j) => if 0 <= i < h && 0 <= j < w then g[i][j] else 0);
  }
}
