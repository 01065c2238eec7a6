/** Collision detection between the arena and a piece placed at an arbitrary offset,
    and the ghost-piece landing row derived from it. */
module Collision {
  import opened Grids

  const Width := 12
  const Height := 20

  /** A game board: `Height` rows of `Width` cells. */
  predicate IsBoard(b: Grid) {
    IsRect(b, Height, Width)
  }

  /** Board cell (r, c) exists and is empty; a row or column outside the board does not exist. */
  predicate Free(b: Grid, r: int, c: int) {
    0 <= r < |b| && 0 <= c < |b[r]| && b[r][c] == 0
  }

  /** Piece cell (i, j) is filled and lands on a missing or occupied board cell when the piece is at (x, y). */
  predicate Blocked(b: Grid, s: Grid, x: int, y: int, i: int, j: int) {
    At(s, i, j) != 0 && !Free(b, y + i, x + j)
  }

  /** The piece `s` at (x, y) collides with the board `b`: some filled cell of `s` lands outside the
      rows or columns of `b` (rows above 0 included) or on an occupied cell. */
  predicate Collides(b: Grid, s: Grid, x: int, y: int) {
    exists i, j :: 0 <= i < |s| && 0 <= j < |s[i]| && Blocked(b, s, x, y, i, j)
  }

  /** Every filled cell of `s` at (x, y) lies within the side walls and above the floor. */
  predicate WithinWalls(s: Grid, x: int, y: int) {
    forall i, j :: 0 <= i < |s| && 0 <= j < |s[i]| && s[i][j] != 0 ==> 0 <= x + j < Width && y + i < Height
  }

  /** Some filled cell of `s` at row offset `y` lies above the top row. */
  predicate ReachesAbove(s: Grid, y: int) {
    exists i, j :: 0 <= i < |s| && 0 <= j < |s[i]| && s[i][j] != 0 && y + i < 0
  }

  /** collide: scans the piece row by row and stops at the first blocked cell. With `arena` holding
      board `b` and `m` holding shape `s`, it answers exactly whether the piece collides, for any offset whatever. */
  method Collide(arena: array2<int>, m: array2<int>, ghost b: Grid, ghost s: Grid, ox: int, oy: int)
    returns (hit: bool)
    requires Mirrors(arena, b) && Mirrors(m, s)
    ensures hit == Collides(b, s, ox, oy)
  {
    var i := 0;
    while i < m.Length0
      invariant 0 <= i <= m.Length0
      invariant forall i', j' :: 0 <= i' < i && 0 <= j' < m.Length1 ==> !Blocked(b, s, ox, oy, i', j')
    {
      var j := 0;
      while j < m.Length1
        invariant 0 <= j <= m.Length1
        invariant forall i', j' :: 0 <= i' < i && 0 <= j' < m.Length1 ==> !Blocked(b, s, ox, oy, i', j')
        invariant forall j' :: 0 <= j' < j ==> !Blocked(b, s, ox, oy, i, j')
      {
        var r, c := oy + i, ox + j;
        if m[i, j] != 0 && (r < 0 || r >= arena.Length0 || c < 0 || c >= arena.Length1 || arena[r, c] != 0) {
          assert Blocked(b, s, ox, oy, i, j);
          return true;
        }
        assert !Blocked(b, s, ox, oy, i, j);
        j := j + 1;
      }
      i := i + 1;
    }
    return false;
  }

  /** A piece that does not collide with a board lies within the walls and reaches no row above the top. */
  lemma {:induction false} FreePlacement(b: Grid, s: Grid, x: int, y: int)
    requires IsBoard(b)
    requires !Collides(b, s, x, y)
    ensures WithinWalls(s, x, y) && !ReachesAbove(s, y)
  {
    forall i, j | 0 <= i < |s| && 0 <= j < |s[i]| && s[i][j] != 0
      ensures 0 <= x + j < Width && 0 <= y + i < Height
    {
      assert !Blocked(b, s, x, y, i, j);
    }
  }

  /** On an empty board, a piece within the walls that reaches no row above the top does not collide. */
  lemma {:induction false} EmptyBoardIsFree(s: Grid, x: int, y: int)
    requires WithinWalls(s, x, y) && !ReachesAbove(s, y)
    ensures !Collides(ZeroRows(Height, Width), s, x, y)
  {
    var b := ZeroRows(Height, Width);
    forall i, j | 0 <= i < |s| && 0 <= j < |s[i]|
      ensures !Blocked(b, s, x, y, i, j)
    {
      if s[i][j] != 0 {
        assert 0 <= y + i < Height && 0 <= x + j < Width;
        assert b[y + i][x + j] == 0;
      }
    }
  }

  /** Moving a piece up keeps it within the walls. */
  lemma {:induction false} WithinWallsUp(s: Grid, x: int, y: int, y': int)
    requires WithinWalls(s, x, y) && y' <= y
    ensures WithinWalls(s, x, y')
  {
  }

  /** A piece with a filled cell that does not collide has its top above the last board row. */
  lemma {:induction false} FreeIsAboveBottom(b: Grid, s: Grid, x: int, y: int)
    requires HasBlock(s) && !Collides(b, s, x, y)
    ensures y < |b|
  {
    var i, j :| 0 <= i < |s| && 0 <= j < |s[i]| && s[i][j] != 0;
    assert !Blocked(b, s, x, y, i, j);
  }

  /** drawGhostPiece: the row reached by moving the piece down from row `y` while it does not collide,
      then stepping back one row. Starting from a free row it is the lowest free row of the run below `y`. */
  function GhostY(b: Grid, s: Grid, x: int, y: int): (r: int)
    requires HasBlock(s)
    decreases |b| - y
    ensures r >= y - 1
    ensures Collides(b, s, x, r + 1)
    ensures forall k :: y <= k <= r ==> !Collides(b, s, x, k)
  {
    if Collides(b, s, x, y) then y - 1
    else
      FreeIsAboveBottom(b, s, x, y);
      GhostY(b, s, x, y + 1)
  }
}
