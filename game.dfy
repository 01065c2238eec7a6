/** The game as the script runs it: the arena and the seven catalog matrices are arrays updated in
    place, and the script's global variables are the fields of one object. Every operation is proved
    to leave behind exactly the state the matching Engine function describes, and to keep `Valid`. */
module Game {
  import opened Grids
  import opened Pieces
  import opened Collision
  import opened Rotation
  import opened Sweep
  import opened Merging
  import Engine

  /** The kick loop of playerRotate, on the column alone: from `pos`, try pos + 1, pos - 1, pos + 2, ...
      while matrix `m` collides, and give up once the next offset exceeds the width of `m`. It finds a
      column exactly when one of the Probes(width) tested columns is free, and then the first one. */
  method KickSearch(arena: array2<int>, m: array2<int>, ghost b: Grid, ghost r: Grid, pos: int, y: int)
    returns (x: int, found: bool)
    requires Mirrors(arena, b) && Mirrors(m, r)
    ensures var n := Engine.Probes(m.Length1);
      found == (Engine.FirstFree(b, r, pos, y, 0, n) < n) &&
      (found ==> x == pos + Engine.Shift(Engine.FirstFree(b, r, pos, y, 0, n)))
  {
    ghost var n := Engine.Probes(m.Length1);
    ghost var k: nat := 0;
    x := pos;
    var offset := 1;
    var hit := Collide(arena, m, b, r, x, y);
    while hit
      invariant 0 <= k < n
      invariant x == pos + Engine.Shift(k) && offset == Engine.Offset(k)
      invariant hit == Engine.KickBlocked(b, r, pos, y, k)
      invariant Engine.FirstFree(b, r, pos, y, 0, n) == Engine.FirstFree(b, r, pos, y, k, n)
      decreases n - k
    {
      Engine.KickStep(k, m.Length1);
      x := x + offset;
      offset := -(offset + (if offset > 0 then 1 else -1));
      k := k + 1;
      if offset > m.Length1 {
        return x, false;
      }
      hit := Collide(arena, m, b, r, x, y);
    }
    return x, true;
  }

  /** The row loop of the hard drop, on the row alone: lower the piece from `y` while it does not
      collide, then step back one row. The result is the ghost row of the piece. */
  method LandingRow(arena: array2<int>, m: array2<int>, ghost b: Grid, ghost s: Grid, x: int, y: int)
    returns (row: int)
    requires Mirrors(arena, b) && Mirrors(m, s) && HasBlock(s)
    ensures row == GhostY(b, s, x, y)
  {
    row := y;
    var hit := Collide(arena, m, b, s, x, row);
    while !hit
      invariant hit == Collides(b, s, x, row)
      invariant GhostY(b, s, x, row) == GhostY(b, s, x, y)
      decreases |b| - row
    {
      FreeIsAboveBottom(b, s, x, row);
      row := row + 1;
      hit := Collide(arena, m, b, s, x, row);
    }
    return row - 1;
  }

  /** The placement playerReset tries for matrix `m`: the centre column of row 0, and whether the
      piece collides there. */
  method SpawnTest(arena: array2<int>, m: array2<int>, ghost b: Grid, ghost s: Grid) returns (nx: int, hit: bool)
    requires Mirrors(arena, b) && Mirrors(m, s) && arena.Length1 == Width
    ensures nx == Engine.SpawnX(m.Length1)
    ensures hit == Collides(b, s, nx, 0)
  {
    nx := (arena.Length1 - m.Length1) / 2;
    hit := Collide(arena, m, b, s, nx, 0);
  }

  /** The PIECES table as the script builds it: one new square matrix holding each catalog entry. */
  method CatalogMatrices() returns (ps: seq<array2<int>>)
    ensures |ps| == Kinds
    ensures forall j :: 0 <= j < Kinds ==> fresh(ps[j]) && ps[j].Length0 == ps[j].Length1 > 0
    ensures forall j :: 0 <= j < Kinds ==> Mirrors(ps[j], Catalog[j])
    ensures forall j, k :: 0 <= j < k < Kinds ==> ps[j] != ps[k]
  {
    CatalogValid();
    ps := [];
    var i := 0;
    while i < Kinds
      invariant 0 <= i <= Kinds && |ps| == i
      invariant forall j :: 0 <= j < i ==> fresh(ps[j]) && Mirrors(ps[j], Catalog[j])
      invariant forall j :: 0 <= j < i ==> ps[j].Length0 == ps[j].Length1 > 0
      invariant forall j, k :: 0 <= j < k < i ==> ps[j] != ps[k]
    {
      var n := |Catalog[i]|;
      var a := FromGrid(Catalog[i], n, n);
      ps := ps + [a];
      i := i + 1;
    }
  }

  class Game {
    /** The board, GRID_HEIGHT rows of GRID_WIDTH cells. */
    var arena: array2<int>
    /** PIECES: one matrix per catalog key, in key order. */
    const pieces: seq<array2<int>>
    /** player.matrix: always one of the catalog matrices itself. */
    var matrix: array2<int>
    /** player.pos. */
    var x: int
    var y: int
    var score: int
    var level: int
    var dropCounter: int
    var gameOver: bool
    var isPaused: bool
    var gameStarted: bool

    /** The contents of `arena`. */
    ghost var board: Grid
    /** The contents of the catalog matrices. */
    ghost var shapes: seq<Grid>
    /** Which catalog entry `matrix` is. */
    ghost var kind: nat

    /** The state these fields represent. */
    ghost function Abs(): Engine.State
      reads this
    {
      Engine.State(board, shapes, kind, x, y, score, level, dropCounter, gameOver, isPaused, gameStarted)
    }

    /** The arrays are laid out as the script lays them out: seven distinct square catalog matrices
        and a separate arena of the board's size. */
    ghost predicate Layout()
      reads this`arena
    {
      |pieces| == Kinds &&
      (forall i, j :: 0 <= i < j < |pieces| ==> pieces[i] != pieces[j]) &&
      (forall i :: 0 <= i < |pieces| ==> pieces[i].Length0 == pieces[i].Length1 > 0) &&
      arena !in pieces && arena.Length0 == Height && arena.Length1 == Width
    }

    /** The player holds catalog matrix `kind` itself. */
    ghost predicate Holding()
      reads this`matrix, this`kind
    {
      kind < |pieces| && matrix == pieces[kind]
    }

    /** `shapes` is what the catalog matrices hold. */
    ghost predicate Holds()
      reads this`shapes, pieces
    {
      |shapes| == |pieces| && forall i :: 0 <= i < |pieces| ==> Mirrors(pieces[i], shapes[i])
    }

    /** `board` is what the arena holds. */
    ghost predicate Linked()
      reads this`arena, this`board, arena
    {
      Mirrors(arena, board)
    }

    ghost predicate Valid()
      reads this, arena, pieces
    {
      Layout() && Holding() && Linked() && Holds() && Engine.Inv(Abs())
    }

    /** What Valid tells about the player's matrix. */
    lemma HeldPiece()
      requires Valid()
      ensures Abs().Piece() == shapes[kind] && Mirrors(matrix, shapes[kind])
      ensures ValidShape(shapes[kind], kind) && HasBlock(shapes[kind])
    {
      assert ValidShape(Abs().pieces[kind], kind);
    }

    /** Loading the script and running init(): an empty arena, the catalog as declared, and the first
        piece, entry `next`, spawned, with the game not started. */
    constructor (next: Choice)
      ensures Abs() == Engine.Initial(next)
      ensures Valid()
    {
      var ps := CatalogMatrices();
      var a := CreateMatrix(Width, Height);
      arena := a;
      pieces := ps;
      matrix := ps[0];
      x, y := 0, 0;
      score, level, dropCounter := 0, 1, 0;
      gameOver, isPaused, gameStarted := false, false, false;
      board := ZeroRows(Height, Width);
      shapes := Catalog;
      kind := 0;
      new;
      PlayerReset(next);
      Engine.InitialInv(next);
    }

    /** playerReset, with the random index given: take the catalog matrix for key Keys[r], put it at
        the centre of row 0, and end the game if it collides there. The collision is tested before the
        fields are assigned, which the script does after; nothing it reads changes in between. */
    method PlayerReset(r: Choice)
      requires Layout() && Linked() && Holds()
      modifies this`matrix, this`kind, this`x, this`y, this`gameOver, this`gameStarted
      ensures Layout() && Holding() && Linked() && Holds()
      ensures Abs() == Engine.Spawn(old(Abs()), r)
    {
      var m := pieces[r];
      var nx, hit := SpawnTest(arena, m, board, shapes[r]);
      assert Engine.Width0(shapes[r]) == m.Length1;
      Engine.SpawnResult(old(Abs()), r, nx, hit);
      matrix, kind, x, y := m, r, nx, 0;
      gameOver, gameStarted := gameOver || hit, gameStarted && !hit;
    }

    /** arenaSweep: clear the full rows and score them. */
    method ArenaSweep()
      requires Valid()
      modifies this, arena
      ensures arena == old(arena)
      ensures Abs() == Engine.SweepStep(old(Abs()))
      ensures Valid()
    {
      var lines := SweepRows(arena, board);
      board := Swept(board);
      if lines > 0 {
        score := score + lines * ScorePerLine * level;
        var newLevel := score / LevelStep + 1;
        if newLevel > level {
          level := newLevel;
        }
      }
      Engine.SweepKeepsInv(old(Abs()));
    }

    /** playerDrop. `thrown` reports the TypeError raised by merge, after which nothing more of the
        drop happens. The one-row step down is tested at y + 1 and kept only when it is free, which
        leaves y where the script's increment and decrement leave it. */
    method PlayerDrop(next: Choice) returns (thrown: bool)
      requires Valid()
      modifies this, arena
      ensures Abs() == Engine.Drop(old(Abs()), next)
      ensures thrown == Engine.DropThrows(old(Abs()))
      ensures Valid()
    {
      if gameOver || isPaused || !gameStarted {
        return false;
      }
      HeldPiece();
      var hit := Collide(arena, matrix, board, shapes[kind], x, y + 1);
      if hit {
        Engine.DropLands(old(Abs()), next);
        thrown := Lock(next);
      } else {
        FreePlacement(board, shapes[kind], x, y + 1);
        y, dropCounter := y + 1, 0;
        thrown := false;
      }
    }

    /** The landing half of playerDrop: merge the player where it stands, then spawn the next piece,
        sweep the full rows and reset the drop counter; or stop at once when merge throws. */
    method Lock(next: Choice) returns (thrown: bool)
      requires Valid() && !isPaused
      modifies this, arena
      ensures Abs() == Engine.Land(old(Abs()), next)
      ensures thrown == ReachesAbove(old(shapes[kind]), old(y))
      ensures Valid()
    {
      ghost var s0 := Abs();
      HeldPiece();
      var ok := Merge(arena, matrix, board, shapes[kind], x, y);
      if !ok {
        return true;
      }
      board := Merged(board, shapes[kind], x, y);
      Engine.MergeKeepsInv(s0);
      Settle(next);
      return false;
    }

    /** What playerDrop does after a merge that threw nothing: spawn the next piece, sweep the full
        rows and reset the drop counter. */
    method Settle(next: Choice)
      requires Valid() && !isPaused
      modifies this, arena
      ensures Abs() == Engine.SweepStep(Engine.Spawn(old(Abs()), next)).(dropCounter := 0)
      ensures Valid()
    {
      PlayerReset(next);
      Engine.SpawnInv(old(Abs()), next);
      ArenaSweep();
      dropCounter := 0;
    }

    /** playerMove: shift by `dir` columns, undone on collision. */
    method PlayerMove(dir: int)
      requires Valid()
      modifies this
      ensures Abs() == Engine.Move(old(Abs()), dir)
      ensures Valid()
    {
      if gameOver || isPaused || !gameStarted {
        return;
      }
      HeldPiece();
      x := x + dir;
      var hit := Collide(arena, matrix, board, shapes[kind], x, y);
      if hit {
        x := x - dir;
      }
      Engine.MoveFacts(old(Abs()), dir);
    }

    /** rotate(player.matrix, dir): the catalog entry the player holds is the one rotated. */
    method RotateHeld(dir: int)
      requires Layout() && Holding() && Holds()
      modifies this, matrix
      ensures Layout() && Holding() && Holds()
      ensures unchanged(`arena) && unchanged(`x) && unchanged(`y) && unchanged(`kind)
      ensures shapes == old(shapes)[kind := Rotated(old(shapes[kind]), dir)]
      ensures Abs() == old(Abs()).WithPiece(Rotated(old(shapes[kind]), dir))
    {
      Rotate(matrix, dir, shapes[kind]);
      shapes := shapes[kind := Rotated(shapes[kind], dir)];
      forall i | 0 <= i < |pieces|
        ensures Mirrors(pieces[i], shapes[i])
      {
        if i != kind {
          assert pieces[i] != matrix;
        }
      }
    }

    /** playerRotate: rotate, then kick the piece to x + 1, x - 1, x + 2, ... while it collides; give up
        when the next offset would exceed the matrix width, rotating back and restoring x. */
    method PlayerRotate(dir: int)
      requires Valid() && dir != 0
      modifies this, matrix
      ensures Abs() == Engine.RotateStep(old(Abs()), dir)
      ensures Valid()
    {
      if gameOver || isPaused || !gameStarted {
        return;
      }
      ghost var s0 := Abs();
      HeldPiece();
      Engine.RotateFacts(s0, dir);
      var pos := x;
      RotateHeld(dir);
      ghost var r := shapes[kind];
      assert r == Rotated(s0.Piece(), dir);
      assert Engine.Width0(r) == matrix.Length1;
      var nx, found := KickSearch(arena, matrix, board, r, pos, y);
      if found {
        x := nx;
      } else {
        RotateHeld(-dir);
        Engine.WithPieceTwice(s0, r, Rotated(r, -dir));
      }
    }

    /** The space-bar case: lower the player while it does not collide, step back one row, drop. */
    method HardDrop(next: Choice) returns (thrown: bool)
      requires Valid()
      modifies this, arena
      ensures HasBlock(old(Abs()).Piece())
      ensures Abs() == Engine.HardDrop(old(Abs()), next)
      ensures thrown == Engine.DropThrows(old(Abs()).(y := GhostY(old(board), old(shapes[kind]), old(x), old(y))))
      ensures Valid()
    {
      HeldPiece();
      y := LandingRow(arena, matrix, board, shapes[kind], x, y);
      Engine.GhostKeepsInv(old(Abs()));
      thrown := PlayerDrop(next);
    }

    /** resetGame. */
    method ResetGame(next: Choice)
      requires Valid() && !isPaused
      modifies this
      ensures fresh(arena)
      ensures Abs() == Engine.ResetGame(old(Abs()), next)
      ensures Valid()
    {
      arena := CreateMatrix(Width, Height);
      board := ZeroRows(Height, Width);
      score := 0;
      level := 1;
      gameOver := false;
      assert Abs() == old(Abs()).(arena := ZeroRows(Height, Width), score := 0, level := 1, gameOver := false);
      PlayerReset(next);
      Engine.ResetInv(old(Abs()), next);
    }

    /** startGame, without the screen and the animation loop it starts. */
    method StartGame()
      requires Valid()
      modifies this
      ensures Abs() == Engine.StartGame(old(Abs()))
      ensures Valid()
    {
      if gameStarted {
        return;
      }
      gameStarted := true;
      gameOver := false;
      Engine.FlagsKeepInv(old(Abs()));
    }

    /** togglePause, without restarting the animation loop. */
    method TogglePause()
      requires Valid()
      modifies this
      ensures Abs() == Engine.TogglePause(old(Abs()))
      ensures Valid()
    {
      if !gameStarted {
        return;
      }
      isPaused := !isPaused;
      Engine.FlagsKeepInv(old(Abs()));
    }

    /** The keydown listener. `thrown` reports a TypeError from merge escaping the handler. */
    method KeyDown(key: string, next: Choice) returns (thrown: bool)
      requires Valid()
      modifies this, arena, matrix
      ensures HasBlock(old(Abs()).Piece())
      ensures Abs() == Engine.KeyDown(old(Abs()), key, next)
      ensures thrown == Engine.KeyDownThrows(old(Abs()), key)
      ensures Valid()
    {
      HeldPiece();
      thrown := false;
      if key == "Enter" {
        if !gameStarted || gameOver {
          ResetGame(next);
          StartGame();
        }
        return;
      }
      if !gameStarted || gameOver {
        return;
      }
      if key == "ArrowLeft" {
        PlayerMove(-1);
      } else if key == "ArrowRight" {
        PlayerMove(1);
      } else if key == "ArrowDown" {
        thrown := PlayerDrop(next);
      } else if key == "q" {
        PlayerRotate(-1);
      } else if key == "w" {
        PlayerRotate(1);
      } else if key == "p" {
        TogglePause();
      } else if key == " " {
        thrown := HardDrop(next);
      }
    }

    /** update, given the elapsed time and the drop interval. `rearmed` says whether the next
        animation frame is requested: the guard let the tick through and its drop did not throw. */
    method Update(delta: int, interval: int, next: Choice) returns (rearmed: bool)
      requires Valid()
      modifies this, arena
      ensures Abs() == Engine.Update(old(Abs()), delta, interval, next)
      ensures rearmed == Engine.UpdateRearms(old(Abs()), delta, interval)
      ensures Valid()
    {
      if isPaused || gameOver || !gameStarted {
        return false;
      }
      dropCounter := dropCounter + delta;
      var thrown := false;
      if dropCounter > interval {
        thrown := PlayerDrop(next);
      }
      return !thrown;
    }
  }
}
