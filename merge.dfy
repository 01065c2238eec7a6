/** merge: copying the player's filled cells into the arena, as a value and in place. */
module Merging {
  import opened Grids
  import opened Collision

  /** merge as a value: each filled cell of the piece at (x, y) overwrites the board cell under it. */
  function Merged(b: Grid, m: Grid, x: int, y: int): Grid {
    seq(|b|, r requires 0 <= r < |b| =>
      seq(|b[r]|, c requires 0 <= c < |b[r]| =>
        if At(m, r - y, c - x) != 0 then At(m, r - y, c - x) else b[r][c]))
  }

  /** Merging writes the piece's value at every filled piece cell and leaves every other cell alone;
      board shape and the range of cell values are kept. */
  lemma {:induction false} MergedBoard(b: Grid, m: Grid, x: int, y: int)
    requires IsBoard(b)
    ensures IsBoard(Merged(b, m, x, y))
    ensures forall i, j ::
      (0 <= i < |m| && 0 <= j < |m[i]| && m[i][j] != 0 && 0 <= y + i < Height && 0 <= x + j < Width) ==>
      Merged(b, m, x, y)[y + i][x + j] == m[i][j]
    ensures forall r, c :: 0 <= r < Height && 0 <= c < Width && At(m, r - y, c - x) == 0 ==>
      Merged(b, m, x, y)[r][c] == b[r][c]
    ensures CellsWithin(b, 0, 7) && CellsWithin(m, 0, 7) ==> CellsWithin(Merged(b, m, x, y), 0, 7)
  {
    var g := Merged(b, m, x, y);
    forall i, j | 0 <= i < |m| && 0 <= j < |m[i]| && m[i][j] != 0 && 0 <= y + i < Height && 0 <= x + j < Width
      ensures g[y + i][x + j] == m[i][j]
    {
      assert At(m, y + i - y, x + j - x) == m[i][j];
    }
    if CellsWithin(b, 0, 7) && CellsWithin(m, 0, 7) {
      forall r, c | 0 <= r < |g| && 0 <= c < |g[r]|
        ensures 0 <= g[r][c] <= 7
      {
        var v := At(m, r - y, c - x);
        assert 0 <= v <= 7;
      }
    }
  }

  /** Once merged, a piece with a filled cell that sat inside the board collides with the board where it stands. */
  lemma {:induction false} MergedCollides(b: Grid, m: Grid, x: int, y: int)
    requires IsBoard(b) && HasBlock(m) && WithinWalls(m, x, y) && !ReachesAbove(m, y)
    ensures Collides(Merged(b, m, x, y), m, x, y)
  {
    MergedBoard(b, m, x, y);
    var i, j :| 0 <= i < |m| && 0 <= j < |m[i]| && m[i][j] != 0;
    assert Merged(b, m, x, y)[y + i][x + j] == m[i][j];
    assert Blocked(Merged(b, m, x, y), m, x, y, i, j);
  }

  /** merge(arena, player): copies the filled cells of `m` into `arena` at (x, y), row by row. A filled
      cell above the top row makes the assignment throw; since those rows come first, nothing has been
      written then, and `ok` is false. */
  method Merge(arena: array2<int>, m: array2<int>, ghost b: Grid, ghost s: Grid, x: int, y: int) returns (ok: bool)
    requires Mirrors(arena, b) && Mirrors(m, s) && IsBoard(b) && arena != m
    requires WithinWalls(s, x, y)
    modifies arena
    ensures ok == !ReachesAbove(s, y)
    ensures Mirrors(arena, if ok then Merged(b, s, x, y) else b)
  {
    assert |b[0]| == arena.Length1 == Width;
    var i := 0;
    while i < m.Length0
      invariant 0 <= i <= m.Length0
      invariant forall i', j :: 0 <= i' < i && 0 <= j < |s[i']| && s[i'][j] != 0 ==> y + i' >= 0
      invariant forall r, c :: 0 <= r < Height && 0 <= c < Width ==>
        arena[r, c] == if r - y < i && At(s, r - y, c - x) != 0 then At(s, r - y, c - x) else b[r][c]
    {
      var j := 0;
      while j < m.Length1
        invariant 0 <= j <= m.Length1
        invariant forall i', j' :: 0 <= i' < i && 0 <= j' < |s[i']| && s[i'][j'] != 0 ==> y + i' >= 0
        invariant forall j' :: 0 <= j' < j && s[i][j'] != 0 ==> y + i >= 0
        invariant forall r, c :: 0 <= r < Height && 0 <= c < Width ==>
          arena[r, c] == if (r - y < i || (r - y == i && c - x < j)) && At(s, r - y, c - x) != 0
                         then At(s, r - y, c - x) else b[r][c]
      {
        if m[i, j] != 0 {
          if y + i < 0 {
            assert s[i][j] != 0;
            return false;
          }
          arena[y + i, x + j] := m[i, j];
        }
        j := j + 1;
      }
      i := i + 1;
    }
    MergedBoard(b, s, x, y);
    return true;
  }
}
