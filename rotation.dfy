/** Rotation of a square piece matrix: transpose, then reverse each row (clockwise, dir > 0)
    or reverse the order of the rows (counter-clockwise, otherwise). */
module Rotation {
  import opened Grids
  import opened Pieces

  /** A row read backwards. */
  function Reverse(row: seq<int>): seq<int> {
    seq(|row|, j requires 0 <= j < |row| => row[|row| - 1 - j])
  }

  /** The transpose of an n-by-n matrix (n = number of rows). */
  function Transposed(m: Grid): Grid {
    seq(|m|, i => seq(|m|, j => At(m, j, i)))
  }

  /** rotate(matrix, dir) as a value: the transpose with each row reversed when dir > 0,
      the transpose with its rows in reverse order otherwise. */
  function Rotated(m: Grid, dir: int): Grid {
    var t := Transposed(m);
    if dir > 0 then seq(|t|, i requires 0 <= i < |t| => Reverse(t[i]))
    else seq(|t|, i requires 0 <= i < |t| => t[|t| - 1 - i])
  }

  /** Rotation is a quarter turn: clockwise for dir > 0, counter-clockwise otherwise. Each cell of the
      result is the cell of `m` at the turned position, so rotation only permutes cells. */
  lemma RotatedCells(m: Grid, dir: int)
    requires IsSquare(m)
    ensures IsSquare(Rotated(m, dir)) && |Rotated(m, dir)| == |m|
    ensures forall i, j :: 0 <= i < |m| && 0 <= j < |m| ==>
      Rotated(m, dir)[i][j] == if dir > 0 then m[|m| - 1 - j][i] else m[j][|m| - 1 - i]
  {
  }

  /** Rotating one way and then the opposite way restores the matrix, for any nonzero direction. */
  lemma {:induction false} RotateBack(m: Grid, dir: int)
    requires IsSquare(m) && dir != 0
    ensures Rotated(Rotated(m, dir), -dir) == m
  {
    var n := |m|;
    var r := Rotated(m, dir);
    RotatedCells(m, dir);
    RotatedCells(r, -dir);
    forall i, j | 0 <= i < n && 0 <= j < n
      ensures Rotated(r, -dir)[i][j] == m[i][j]
    {
      if dir > 0 {
        assert Rotated(r, -dir)[i][j] == r[j][n - 1 - i];
      } else {
        assert Rotated(r, -dir)[i][j] == r[n - 1 - j][i];
      }
    }
    GridExt(Rotated(r, -dir), m, n, n);
  }

  /** Two quarter turns in the same direction give the half turn. */
  lemma {:induction false} RotateTwice(m: Grid, dir: int)
    requires IsSquare(m)
    ensures IsSquare(Rotated(Rotated(m, dir), dir)) && |Rotated(Rotated(m, dir), dir)| == |m|
    ensures forall i, j :: 0 <= i < |m| && 0 <= j < |m| ==>
      Rotated(Rotated(m, dir), dir)[i][j] == m[|m| - 1 - i][|m| - 1 - j]
  {
    var n := |m|;
    var r := Rotated(m, dir);
    RotatedCells(m, dir);
    RotatedCells(r, dir);
    forall i, j | 0 <= i < n && 0 <= j < n
      ensures Rotated(r, dir)[i][j] == m[n - 1 - i][n - 1 - j]
    {
      if dir > 0 {
        assert Rotated(r, dir)[i][j] == r[n - 1 - j][i];
      } else {
        assert Rotated(r, dir)[i][j] == r[j][n - 1 - i];
      }
    }
  }

  /** Four quarter turns in the same direction restore the matrix. */
  lemma {:induction false} RotateFour(m: Grid, dir: int)
    requires IsSquare(m)
    ensures Rotated(Rotated(Rotated(Rotated(m, dir), dir), dir), dir) == m
  {
    var n := |m|;
    var h := Rotated(Rotated(m, dir), dir);
    RotateTwice(m, dir);
    RotateTwice(h, dir);
    GridExt(Rotated(Rotated(h, dir), dir), m, n, n);
  }

  /** Rotation keeps a catalog shape well formed: same size, same id, still some filled cell. */
  lemma {:induction false} RotatedShape(g: Grid, k: nat, dir: int)
    requires k < Kinds && ValidShape(g, k)
    ensures ValidShape(Rotated(g, dir), k)
  {
    var n := |g|;
    var r := Rotated(g, dir);
    RotatedCells(g, dir);
    assert |r| == Size(k);
    forall i', j' | 0 <= i' < n && 0 <= j' < n
      ensures r[i'][j'] == 0 || r[i'][j'] == k + 1
    {
      if dir > 0 {
        assert r[i'][j'] == g[n - 1 - j'][i'];
      } else {
        assert r[i'][j'] == g[j'][n - 1 - i'];
      }
    }
    var i, j :| 0 <= i < n && 0 <= j < n && g[i][j] != 0;
    if dir > 0 {
      assert r[j][n - 1 - i] == g[i][j];
    } else {
      assert r[n - 1 - j][i] == g[i][j];
    }
  }

  /** The transposing half of rotate: swaps m[x, y] and m[y, x] for every x < y. */
  method Transpose(m: array2<int>)
    requires m.Length0 == m.Length1
    modifies m
    ensures forall i, j :: 0 <= i < m.Length0 && 0 <= j < m.Length1 ==> m[i, j] == old(m[j, i])
  {
    var n := m.Length0;
    var y := 0;
    while y < n
      invariant 0 <= y <= n
      invariant forall i, j :: 0 <= i < n && 0 <= j < n ==>
        m[i, j] == if i < y && j < y then old(m[j, i]) else old(m[i, j])
    {
      var x := 0;
      while x < y
        invariant 0 <= x <= y
        invariant forall i, j :: 0 <= i < n && 0 <= j < n ==>
          m[i, j] == if (i < y && j < y) || (i == y && j < x) || (j == y && i < x) then old(m[j, i]) else old(m[i, j])
      {
        m[x, y], m[y, x] := m[y, x], m[x, y];
        x := x + 1;
      }
      y := y + 1;
    }
  }

  /** matrix.forEach(row => row.reverse()): reverses every row in place. */
  method ReverseEachRow(m: array2<int>)
    modifies m
    ensures forall i, j :: 0 <= i < m.Length0 && 0 <= j < m.Length1 ==> m[i, j] == old(m[i, m.Length1 - 1 - j])
  {
    var w := m.Length1;
    var i := 0;
    while i < m.Length0
      invariant 0 <= i <= m.Length0
      invariant forall i', j :: 0 <= i' < m.Length0 && 0 <= j < w ==>
        m[i', j] == if i' < i then old(m[i', w - 1 - j]) else old(m[i', j])
    {
      var j := 0;
      while j < w / 2
        invariant 0 <= j <= w / 2
        invariant forall i', j' :: 0 <= i' < m.Length0 && 0 <= j' < w ==>
          m[i', j'] == if i' < i || (i' == i && (j' < j || j' >= w - j)) then old(m[i', w - 1 - j']) else old(m[i', j'])
      {
        m[i, j], m[i, w - 1 - j] := m[i, w - 1 - j], m[i, j];
        j := j + 1;
      }
      i := i + 1;
    }
  }

  /** matrix.reverse(): puts the rows in reverse order, exchanging row i with row n - 1 - i. */
  method ReverseRowOrder(m: array2<int>)
    modifies m
    ensures forall i, j :: 0 <= i < m.Length0 && 0 <= j < m.Length1 ==> m[i, j] == old(m[m.Length0 - 1 - i, j])
  {
    var n := m.Length0;
    var i := 0;
    while i < n / 2
      invariant 0 <= i <= n / 2
      invariant forall i', j :: 0 <= i' < n && 0 <= j < m.Length1 ==>
        m[i', j] == if i' < i || i' >= n - i then old(m[n - 1 - i', j]) else old(m[i', j])
    {
      var j := 0;
      while j < m.Length1
        invariant 0 <= j <= m.Length1
        invariant forall i', j' :: 0 <= i' < n && 0 <= j' < m.Length1 ==>
          m[i', j'] == if i' < i || i' >= n - i || ((i' == i || i' == n - 1 - i) && j' < j)
                       then old(m[n - 1 - i', j']) else old(m[i', j'])
      {
        m[i, j], m[n - 1 - i, j] := m[n - 1 - i, j], m[i, j];
        j := j + 1;
      }
      i := i + 1;
    }
  }

  /** rotate(matrix, dir): rotates a square matrix in place; an array holding `g` then holds `Rotated(g, dir)`. */
  method Rotate(m: array2<int>, dir: int, ghost g: Grid)
    requires m.Length0 == m.Length1 && Mirrors(m, g)
    modifies m
    ensures Mirrors(m, Rotated(g, dir))
  {
    Transpose(m);
    if dir > 0 {
      ReverseEachRow(m);
    } else {
      ReverseRowOrder(m);
    }
    RotatedCells(g, dir);
  }
}
