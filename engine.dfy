/** The game engine as a state machine over values: one function per operation of the game,
    each giving the state the operation leaves behind, and the properties those operations keep. */
module Engine {
  import opened Grids
  import opened Pieces
  import opened Collision
  import opened Rotation
  import opened Sweep
  import opened Merging

  /** Everything the engine reads and writes. `pieces` is the contents of the shared catalog:
      the player holds catalog entry `kind` itself, not a copy, so rotating the player rotates the entry. */
  datatype State = State(
    arena: Grid,
    pieces: seq<Grid>,
    kind: nat,
    x: int,
    y: int,
    score: int,
    level: int,
    dropCounter: int,
    gameOver: bool,
    isPaused: bool,
    gameStarted: bool)
  {
    /** player.matrix. */
    function Piece(): Grid {
      if kind < |pieces| then pieces[kind] else []
    }

    /** The state with the player's catalog entry replaced by `g`. */
    function WithPiece(g: Grid): State {
      if kind < |pieces| then this.(pieces := pieces[kind := g]) else this
    }

    /** The guard of playerDrop, playerMove and playerRotate: they act only in this case. */
    predicate Active() {
      gameStarted && !gameOver && !isPaused
    }
  }

  /** Replacing the player's entry twice is replacing it once with the second value. */
  lemma WithPieceTwice(s: State, g: Grid, h: Grid)
    ensures s.WithPiece(g).WithPiece(h) == s.WithPiece(h)
  {
    if s.kind < |s.pieces| {
      assert s.pieces[s.kind := g][s.kind := h] == s.pieces[s.kind := h];
    }
  }

  /** The four situations the three flags are meant to encode. */
  datatype Status = NotStarted | Running | Paused | GameOver

  function StatusOf(s: State): Status {
    if s.gameOver then GameOver
    else if !s.gameStarted then NotStarted
    else if s.isPaused then Paused
    else Running
  }

  /** A board of the game's size whose cells are 0 (empty) or a piece id 1..7. */
  predicate BoardOk(b: Grid) {
    IsBoard(b) && CellsWithin(b, 0, 7)
  }

  /** One well-formed shape per catalog entry. */
  predicate PiecesOk(ps: seq<Grid>) {
    |ps| == Kinds && forall k :: 0 <= k < Kinds ==> ValidShape(ps[k], k)
  }

  /** What holds of every state the game can reach. */
  predicate Inv(s: State) {
    BoardOk(s.arena) && PiecesOk(s.pieces) && s.kind < Kinds &&
    WithinWalls(s.Piece(), s.x, s.y) &&
    s.score >= 0 && s.level == s.score / LevelStep + 1 &&
    (s.gameOver ==> !s.gameStarted) &&
    (!s.gameStarted ==> !s.isPaused)
  }

  // ---------------------------------------------------------------- merge

  /** Merging the player where it stands, when that throws nothing, keeps the invariant. */
  lemma {:induction false} MergeKeepsInv(s: State)
    requires Inv(s) && !ReachesAbove(s.Piece(), s.y)
    ensures Inv(s.(arena := Merged(s.arena, s.Piece(), s.x, s.y)))
  {
    assert ValidShape(s.pieces[s.kind], s.kind);
    MergedBoard(s.arena, s.Piece(), s.x, s.y);
  }

  // ---------------------------------------------------------------- spawn

  /** matrix[0].length; 0 for a matrix without rows. */
  function Width0(m: Grid): nat {
    if |m| > 0 then |m[0]| else 0
  }

  /** The spawn column Math.floor(width / 2 - w / 2), in exact integer arithmetic. */
  function SpawnX(w: int): (x: int)
    ensures 2 * x <= Width - w < 2 * x + 2
  {
    (Width - w) / 2
  }

  /** playerReset, with the random index `r` given: the player takes the catalog entry for key
      Keys[r] (which is entry r, by PieceIndexOfKey), at row 0, centred; if it collides there the game
      is over and no longer started. It is only reached while the game is not paused. */
  function Spawn(s: State, r: Choice): State {
    var t := s.(kind := r, y := 0);
    var t := t.(x := SpawnX(Width0(t.Piece())));
    if Collides(t.arena, t.Piece(), t.x, t.y) then t.(gameOver := true, gameStarted := false) else t
  }

  /** The state a spawn leaves, given the column `x` it tries and whether the piece collides there. */
  lemma SpawnResult(s: State, r: Choice, x: int, hit: bool)
    requires r < |s.pieces| && x == SpawnX(Width0(s.pieces[r]))
    requires hit == Collides(s.arena, s.pieces[r], x, 0)
    ensures Spawn(s, r) ==
      s.(kind := r, y := 0, x := x, gameOver := s.gameOver || hit, gameStarted := s.gameStarted && !hit)
  {
  }

  /** A catalog shape placed where it spawns lies within the walls, on rows 0 and below. */
  lemma {:induction false} SpawnPlacement(m: Grid, k: nat)
    requires k < Kinds && ValidShape(m, k)
    ensures WithinWalls(m, SpawnX(Width0(m)), 0) && !ReachesAbove(m, 0)
  {
    CatalogValid();
    assert Width0(m) == |m| == Size(k);
  }

  /** Spawning takes the entry for `next` at the centre of row 0 and ends the game exactly when that
      placement collides; it keeps the invariant. */
  lemma {:induction false} SpawnInv(s: State, r: Choice)
    requires Inv(s) && !s.isPaused
    ensures var t := Spawn(s, r);
      Inv(t) && t.kind == r && t.Piece() == s.pieces[r] && t.y == 0 &&
      t.arena == s.arena && t.pieces == s.pieces && t.score == s.score && t.level == s.level &&
      t.gameOver == (s.gameOver || Collides(s.arena, t.Piece(), t.x, 0))
  {
    var m := s.pieces[r];
    assert ValidShape(m, r);
    SpawnPlacement(m, r);
    var t := s.(kind := r, y := 0, x := SpawnX(Width0(m)));
    assert t.Piece() == m;
    assert Inv(t);
    var u := t.(gameOver := true, gameStarted := false);
    assert Inv(u);
    assert Spawn(s, r) == if Collides(s.arena, m, t.x, 0) then u else t;
  }

  /** A spawn on an empty board never collides, so it never ends the game. */
  lemma {:induction false} SpawnOnEmpty(s: State, r: Choice)
    requires Inv(s) && s.arena == ZeroRows(Height, Width)
    ensures Spawn(s, r).gameOver == s.gameOver
    ensures Spawn(s, r).gameStarted == s.gameStarted
  {
    var m := s.pieces[r];
    SpawnPlacement(m, r);
    EmptyBoardIsFree(m, SpawnX(Width0(m)), 0);
  }

  // ---------------------------------------------------------------- initial state, reset, start, pause

  /** The state after the script has loaded and init() has spawned the first piece. */
  function Initial(next: Choice): State {
    Spawn(State(ZeroRows(Height, Width), Catalog, 0, 0, 0, 0, 1, 0, false, false, false), next)
  }

  /** The game has not started when the script has loaded, and the invariant holds. */
  lemma InitialInv(next: Choice)
    ensures Inv(Initial(next)) && StatusOf(Initial(next)) == NotStarted
    ensures Initial(next).arena == ZeroRows(Height, Width) && Initial(next).score == 0
  {
    var s := State(ZeroRows(Height, Width), Catalog, 0, 0, 0, 0, 1, 0, false, false, false);
    CatalogValid();
    assert Inv(s) by {
      SpawnPlacement(Catalog[0], 0);
    }
    SpawnInv(s, next);
    SpawnOnEmpty(s, next);
  }

  /** resetGame: a new empty arena, score 0, level 1, game not over, and a new piece. The catalog,
      the pause flag, the started flag and the drop counter are left as they were. */
  function ResetGame(s: State, next: Choice): State {
    Spawn(s.(arena := ZeroRows(Height, Width), score := 0, level := 1, gameOver := false), next)
  }

  /** startGame, its flag logic: when not started, start and clear the game-over flag. */
  function StartGame(s: State): State {
    if s.gameStarted then s else s.(gameStarted := true, gameOver := false)
  }

  /** togglePause, its flag logic: flips the pause flag of a started game. */
  function TogglePause(s: State): State {
    if !s.gameStarted then s else s.(isPaused := !s.isPaused)
  }

  /** Starting and pausing keep the invariant; starting a game that is not started gives a running game,
      and pausing toggles a started game between running and paused. */
  lemma FlagsKeepInv(s: State)
    requires Inv(s)
    ensures Inv(StartGame(s)) && Inv(TogglePause(s))
    ensures !s.gameStarted ==> StatusOf(StartGame(s)) == Running
    ensures StatusOf(s) == Running ==> StatusOf(TogglePause(s)) == Paused
    ensures StatusOf(s) == Paused ==> StatusOf(TogglePause(s)) == Running
    ensures StatusOf(s) == NotStarted ==> TogglePause(s) == s
  {
  }

  /** A reset of a game that is not paused (the only kind Enter resets) empties the board, its piece
      never collides, and the invariant is kept. */
  lemma {:induction false} ResetInv(s: State, next: Choice)
    requires Inv(s) && !s.isPaused
    ensures Inv(ResetGame(s, next))
    ensures ResetGame(s, next).arena == ZeroRows(Height, Width)
    ensures ResetGame(s, next).score == 0 && ResetGame(s, next).level == 1
    ensures !ResetGame(s, next).gameOver && ResetGame(s, next).gameStarted == s.gameStarted
  {
    var t := s.(arena := ZeroRows(Height, Width), score := 0, level := 1, gameOver := false);
    assert Inv(t);
    SpawnInv(t, next);
    SpawnOnEmpty(t, next);
  }

  // ---------------------------------------------------------------- move

  /** playerMove: shift by `dir` columns, undone if the piece then collides. */
  function Move(s: State, dir: int): State {
    if !s.Active() then s
    else if Collides(s.arena, s.Piece(), s.x + dir, s.y) then s
    else s.(x := s.x + dir)
  }

  /** A move shifts x by `dir` or not at all, changes nothing else, and keeps a free piece free. */
  lemma {:induction false} MoveFacts(s: State, dir: int)
    requires Inv(s)
    ensures Inv(Move(s, dir))
    ensures Move(s, dir) == s || Move(s, dir) == s.(x := s.x + dir)
    ensures !Collides(s.arena, s.Piece(), s.x, s.y) ==>
      !Collides(Move(s, dir).arena, Move(s, dir).Piece(), Move(s, dir).x, Move(s, dir).y)
  {
    if s.Active() && !Collides(s.arena, s.Piece(), s.x + dir, s.y) {
      FreePlacement(s.arena, s.Piece(), s.x + dir, s.y);
    }
  }

  // ---------------------------------------------------------------- sweep

  /** arenaSweep: clears the full rows; k > 0 cleared rows add k * 10 * level to the score, and the level
      rises to floor(score / 100) + 1 when that is higher. */
  function SweepStep(s: State): State {
    var k := FullCount(s.arena);
    s.(arena := Swept(s.arena),
       score := ScoreAfter(s.score, s.level, k),
       level := LevelAfter(s.score, s.level, k))
  }

  /** A sweep keeps the invariant, and score and level do not decrease. */
  lemma {:induction false} SweepKeepsInv(s: State)
    requires Inv(s)
    ensures Inv(SweepStep(s))
    ensures SweepStep(s).score >= s.score && SweepStep(s).level >= s.level
  {
    SweptBoard(s.arena);
    LevelTracksScore(s.score, s.level, FullCount(s.arena));
    ScoringGrows(s.score, s.level, FullCount(s.arena));
  }

  // ---------------------------------------------------------------- drop

  /** The drop that locks the piece hits `merge` with a filled cell above row 0: arena[row] is undefined
      there and the assignment throws, leaving every variable as it was before the drop. */
  predicate DropThrows(s: State) {
    s.Active() && Collides(s.arena, s.Piece(), s.x, s.y + 1) && ReachesAbove(s.Piece(), s.y)
  }

  /** playerDrop: move down one row; if that collides, move back, merge, spawn the next piece
      (deciding game over against the unswept board), sweep; then reset the drop counter. */
  function Drop(s: State, next: Choice): State {
    if !s.Active() then s
    else if !Collides(s.arena, s.Piece(), s.x, s.y + 1) then s.(y := s.y + 1, dropCounter := 0)
    else Land(s, next)
  }

  /** The landing half of playerDrop: merge the player where it stands, spawn the next piece, sweep,
      reset the drop counter; or nothing at all when merge throws. */
  function Land(s: State, next: Choice): State {
    if ReachesAbove(s.Piece(), s.y) then s
    else SweepStep(Spawn(s.(arena := Merged(s.arena, s.Piece(), s.x, s.y)), next)).(dropCounter := 0)
  }

  /** A drop whose step down collides is a landing. */
  lemma DropLands(s: State, next: Choice)
    requires s.Active() && Collides(s.arena, s.Piece(), s.x, s.y + 1)
    ensures Drop(s, next) == Land(s, next)
  {
  }

  /** The piece was merged into the board rather than moved down. */
  predicate Locks(s: State) {
    s.Active() && Collides(s.arena, s.Piece(), s.x, s.y + 1) && !ReachesAbove(s.Piece(), s.y)
  }

  /** A drop keeps the invariant and never lowers score or level. When it locks, the new score adds
      10 * level for each full row of the merged board, and the game is over exactly when the next
      piece collides with the merged board before it is swept. */
  lemma {:induction false} DropFacts(s: State, next: Choice)
    requires Inv(s)
    ensures Inv(Drop(s, next))
    ensures Drop(s, next).score >= s.score && Drop(s, next).level >= s.level
    ensures Locks(s) ==>
      var merged := Merged(s.arena, s.Piece(), s.x, s.y);
      var t := Drop(s, next);
      t.arena == Swept(merged) &&
      t.score == ScoreAfter(s.score, s.level, FullCount(merged)) &&
      t.gameOver == Collides(merged, s.pieces[next], t.x, 0) &&
      t.y == 0 && t.kind == next && t.dropCounter == 0
  {
    if s.Active() {
      if !Collides(s.arena, s.Piece(), s.x, s.y + 1) {
        FreePlacement(s.arena, s.Piece(), s.x, s.y + 1);
      } else if !ReachesAbove(s.Piece(), s.y) {
        var m := s.(arena := Merged(s.arena, s.Piece(), s.x, s.y));
        MergeKeepsInv(s);
        SpawnInv(m, next);
        SweepKeepsInv(Spawn(m, next));
      }
    }
  }

  /** A drop keeps the status, except that a running game whose next piece collides is over. */
  lemma {:induction false} DropStatus(s: State, next: Choice)
    ensures StatusOf(Drop(s, next)) == StatusOf(s) ||
      (StatusOf(s) == Running && StatusOf(Drop(s, next)) == GameOver)
  {
    if Locks(s) {
      var m := s.(arena := Merged(s.arena, s.Piece(), s.x, s.y));
      var t := Spawn(m, next);
      assert t.isPaused == s.isPaused;
      assert t.gameOver ==> !t.gameStarted;
      assert !t.gameOver ==> t.gameStarted;
    }
  }

  /** A drop that throws changes nothing, not even the drop counter. */
  lemma DropThrowsKeeps(s: State, next: Choice)
    requires DropThrows(s)
    ensures Drop(s, next) == s
  {
  }

  /** The drop counter has no say in what a drop does unless the drop throws. */
  lemma DropIgnoresCounter(s: State, next: Choice, c: int)
    requires !DropThrows(s) && s.Active()
    ensures Drop(s.(dropCounter := c), next) == Drop(s, next)
  {
  }

  /** `n` gravity steps in a row. */
  function SoftDrops(s: State, n: nat, next: Choice): State
    decreases n
  {
    if n == 0 then s else SoftDrops(Drop(s, next), n - 1, next)
  }

  /** Dropping through free rows only moves the piece down. */
  lemma {:induction false} SoftDropsDescend(s: State, n: nat, next: Choice)
    decreases n
    requires s.Active()
    requires forall k :: s.y <= k <= s.y + n ==> !Collides(s.arena, s.Piece(), s.x, k)
    ensures SoftDrops(s, n, next) == if n == 0 then s else s.(y := s.y + n, dropCounter := 0)
  {
    if n > 0 {
      var t := Drop(s, next);
      assert !Collides(s.arena, s.Piece(), s.x, s.y + 1);
      assert t == s.(y := s.y + 1, dropCounter := 0);
      SoftDropsDescend(t, n - 1, next);
    }
  }

  // ---------------------------------------------------------------- hard drop and the ghost piece

  /** The space-bar case of the keydown handler: the ghost-piece loop run on the player itself,
      then one playerDrop. It does not look at the pause flag. */
  function HardDrop(s: State, next: Choice): State
    requires HasBlock(s.Piece())
  {
    Drop(s.(y := GhostY(s.arena, s.Piece(), s.x, s.y)), next)
  }

  /** From a free position, the ghost row is at or below the player, the piece locks there, and the
      hard drop leaves the swept board with the piece merged at the ghost row. */
  lemma {:induction false} HardDropLands(s: State, next: Choice)
    requires IsBoard(s.arena) && s.Active() && HasBlock(s.Piece())
    requires !Collides(s.arena, s.Piece(), s.x, s.y)
    ensures GhostY(s.arena, s.Piece(), s.x, s.y) >= s.y
    ensures Locks(s.(y := GhostY(s.arena, s.Piece(), s.x, s.y)))
    ensures HardDrop(s, next).arena == Swept(Merged(s.arena, s.Piece(), s.x, GhostY(s.arena, s.Piece(), s.x, s.y)))
  {
    var g := GhostY(s.arena, s.Piece(), s.x, s.y);
    FreePlacement(s.arena, s.Piece(), s.x, s.y);
    assert !ReachesAbove(s.Piece(), g);
    var h := s.(y := g);
    assert Locks(h);
    assert HardDrop(s, next) == Land(h, next);
  }

  /** From a free position, a hard drop is the same as dropping row by row down to the ghost row and
      then dropping once more. */
  lemma {:induction false} HardDropIsSoftDrops(s: State, next: Choice)
    requires IsBoard(s.arena) && s.Active() && HasBlock(s.Piece())
    requires !Collides(s.arena, s.Piece(), s.x, s.y)
    ensures GhostY(s.arena, s.Piece(), s.x, s.y) >= s.y
    ensures HardDrop(s, next) == Drop(SoftDrops(s, GhostY(s.arena, s.Piece(), s.x, s.y) - s.y, next), next)
  {
    var g := GhostY(s.arena, s.Piece(), s.x, s.y);
    SoftDropsDescend(s, g - s.y, next);
    var h := s.(y := g);
    var d := SoftDrops(s, g - s.y, next);
    assert d == h.(dropCounter := if g > s.y then 0 else s.dropCounter);
    FreePlacement(s.arena, s.Piece(), s.x, s.y);
    assert !ReachesAbove(s.Piece(), g);
    DropIgnoresCounter(h, next, d.dropCounter);
  }

  /** A hard drop from an overlap need not throw: a T turned twice (its top row empty) that spawned at
      (4, 0) over a settled cell at (1, 5) is moved up to row -1, locks there, and its merge overwrites
      the settled cell. */
  lemma OverlapLocksSilently(next: Choice)
    ensures var p := [[0, 0, 0], [1, 1, 1], [0, 1, 0]];
      var b := ZeroRows(Height, Width)[1 := ZeroRow(Width)[5 := 3]];
      var s := State(b, Catalog[0 := p], 0, 4, 0, 0, 1, 0, false, false, true);
      p == Rotated(Rotated(Catalog[0], 1), 1) && s.Piece() == p && p[1][1] != 0 && HasBlock(p) &&
      GhostY(b, p, 4, 0) == -1 && !DropThrows(s.(y := -1)) && Locks(s.(y := -1)) &&
      HardDrop(s, next) == Land(s.(y := -1), next) &&
      b[1][5] == 3 && Merged(b, p, 4, -1)[1][5] == 1
  {
    var p := [[0, 0, 0], [1, 1, 1], [0, 1, 0]];
    var b := ZeroRows(Height, Width)[1 := ZeroRow(Width)[5 := 3]];
    var s := State(b, Catalog[0 := p], 0, 4, 0, 0, 1, 0, false, false, true);
    RotateTwice(Catalog[0], 1);
    GridExt(Rotated(Rotated(Catalog[0], 1), 1), p, 3, 3);
    assert s.Piece() == p;
    assert Blocked(b, p, 4, 0, 1, 1);
    assert !ReachesAbove(p, -1);
    assert At(p, 1 - -1, 5 - 4) == 1;
  }

  /** While paused, a hard drop still moves the piece to the ghost row, and merges nothing. */
  lemma PausedHardDrop(s: State, next: Choice)
    requires s.isPaused && HasBlock(s.Piece())
    ensures HardDrop(s, next) == s.(y := GhostY(s.arena, s.Piece(), s.x, s.y))
  {
  }

  /** Moving the player to its ghost row keeps the invariant. */
  lemma {:induction false} GhostKeepsInv(s: State)
    requires Inv(s) && HasBlock(s.Piece())
    ensures Inv(s.(y := GhostY(s.arena, s.Piece(), s.x, s.y)))
  {
    var g := GhostY(s.arena, s.Piece(), s.x, s.y);
    if g >= s.y {
      FreePlacement(s.arena, s.Piece(), s.x, g);
    } else {
      WithinWallsUp(s.Piece(), s.x, s.y, g);
    }
  }

  /** A hard drop keeps the invariant and never lowers score or level. */
  lemma {:induction false} HardDropInv(s: State, next: Choice)
    requires Inv(s) && HasBlock(s.Piece())
    ensures Inv(HardDrop(s, next))
    ensures HardDrop(s, next).score >= s.score && HardDrop(s, next).level >= s.level
  {
    GhostKeepsInv(s);
    DropFacts(s.(y := GhostY(s.arena, s.Piece(), s.x, s.y)), next);
  }

  // ---------------------------------------------------------------- rotation with wall kicks

  /** The x offset from the starting column after `k` wall kicks: 0, +1, -1, +2, -2, ... */
  function Shift(k: nat): int {
    if k % 2 == 1 then (k + 1) / 2 else -(k / 2)
  }

  /** The number of columns the kick search tests for a matrix of width `w`: it gives up when the next
      offset, 1, -2, 3, -4, ..., would exceed `w`, without testing the column already reached. */
  function Probes(w: int): nat {
    if w <= 2 then 2 else if w % 2 == 0 then w else w + 1
  }

  /** The offset the kick loop holds after `k` kicks: 1, -2, 3, -4, ... */
  function Offset(k: nat): int {
    if k % 2 == 0 then k + 1 else -(k + 1)
  }

  /** One pass of the kick loop: adding the offset moves to the next kick column, the update
      -(offset + sign(offset)) yields the next offset, and the loop gives up exactly when the columns
      tested number Probes(w). */
  lemma KickStep(k: nat, w: int)
    requires 0 <= w && k < Probes(w)
    ensures Shift(k) + Offset(k) == Shift(k + 1)
    ensures -(Offset(k) + (if Offset(k) > 0 then 1 else -1)) == Offset(k + 1)
    ensures Offset(k + 1) > w <==> k + 1 == Probes(w)
  {
  }

  /** The piece `m` collides at the kick column x0 + Shift(i). */
  predicate KickBlocked(b: Grid, m: Grid, x0: int, y: int, i: nat) {
    Collides(b, m, x0 + Shift(i), y)
  }

  /** The index of the first of the columns x0 + Shift(k), x0 + Shift(k + 1), ..., x0 + Shift(n - 1)
      at which `m` does not collide, or `n` when it collides at all of them. */
  function FirstFree(b: Grid, m: Grid, x0: int, y: int, k: nat, n: nat): (j: nat)
    requires k <= n
    decreases n - k
    ensures k <= j <= n
    ensures forall i :: k <= i < j ==> KickBlocked(b, m, x0, y, i)
    ensures j < n ==> !KickBlocked(b, m, x0, y, j)
  {
    if k == n || !KickBlocked(b, m, x0, y, k) then k
    else FirstFree(b, m, x0, y, k + 1, n)
  }

  /** playerRotate: rotate the player's catalog entry, then try the kick columns in turn; if none
      fits, rotate back in the opposite direction and restore x. */
  function RotateStep(s: State, dir: int): State {
    if !s.Active() then s
    else
      var r := Rotated(s.Piece(), dir);
      var n := Probes(Width0(r));
      var j := FirstFree(s.arena, r, s.x, s.y, 0, n);
      if j < n then s.WithPiece(r).(x := s.x + Shift(j))
      else s.WithPiece(Rotated(r, -dir))
  }

  /** Replacing the player's catalog entry by another shape of the same kind, placed free at column
      `x`, keeps the invariant. */
  lemma {:induction false} PlacedInv(s: State, g: Grid, x: int)
    requires Inv(s) && ValidShape(g, s.kind) && !Collides(s.arena, g, x, s.y)
    ensures Inv(s.WithPiece(g).(x := x))
  {
    FreePlacement(s.arena, g, x, s.y);
    var t := s.WithPiece(g).(x := x);
    assert t.Piece() == g;
    assert forall k :: 0 <= k < Kinds && k != s.kind ==> t.pieces[k] == s.pieces[k];
  }

  /** What a rotation whose kick search succeeds leaves: the rotated entry, at the first free kick column. */
  lemma KickedStep(s: State, dir: int)
    requires s.Active()
    ensures var r := Rotated(s.Piece(), dir);
      var j := FirstFree(s.arena, r, s.x, s.y, 0, Probes(Width0(r)));
      j < Probes(Width0(r)) ==> RotateStep(s, dir) == s.WithPiece(r).(x := s.x + Shift(j))
  {
  }

  /** A rotation whose kick search finds a free column replaces the player's entry by the rotated
      shape, moves x to that column, and keeps the invariant. */
  lemma {:induction false} RotateKicked(s: State, dir: int)
    requires Inv(s) && s.Active()
    requires FirstFree(s.arena, Rotated(s.Piece(), dir), s.x, s.y, 0, Probes(Width0(Rotated(s.Piece(), dir))))
           < Probes(Width0(Rotated(s.Piece(), dir)))
    ensures var t := RotateStep(s, dir);
      Inv(t) && t == s.WithPiece(t.Piece()).(x := t.x) && t.Piece() == Rotated(s.Piece(), dir) &&
      !Collides(t.arena, t.Piece(), t.x, t.y) &&
      exists k :: 0 <= k < Probes(|s.Piece()|) && t.x == s.x + Shift(k)
  {
    var p := s.Piece();
    assert ValidShape(p, s.kind);
    var r := Rotated(p, dir);
    var n := Probes(Width0(r));
    var j := FirstFree(s.arena, r, s.x, s.y, 0, n);
    KickedStep(s, dir);
    RotatedShape(p, s.kind, dir);
    assert Width0(r) == |p|;
    PlacedInv(s, r, s.x + Shift(j));
    var t := s.WithPiece(r).(x := s.x + Shift(j));
    assert t.Piece() == r;
    assert 0 <= j < Probes(|p|) && t.x == s.x + Shift(j);
  }

  /** A rotation whose kick search finds no free column leaves the state as it was. */
  lemma {:induction false} RotateRestored(s: State, dir: int)
    requires Inv(s) && s.Active() && dir != 0
    requires FirstFree(s.arena, Rotated(s.Piece(), dir), s.x, s.y, 0, Probes(Width0(Rotated(s.Piece(), dir))))
           == Probes(Width0(Rotated(s.Piece(), dir)))
    ensures RotateStep(s, dir) == s
  {
    var p := s.Piece();
    assert ValidShape(p, s.kind);
    RotateBack(p, dir);
    assert s.pieces[s.kind := p] == s.pieces;
  }

  /** A rotation keeps y and the other catalog entries. It either leaves the rotated piece free at one
      of the tested kick columns, or restores both the piece and x; and it keeps the invariant. */
  lemma {:induction false} RotateFacts(s: State, dir: int)
    requires Inv(s) && dir != 0
    ensures var t := RotateStep(s, dir);
      Inv(t) && t == s.(pieces := t.pieces, x := t.x) &&
      (forall k :: 0 <= k < Kinds && k != s.kind ==> t.pieces[k] == s.pieces[k]) &&
      (t == s ||
       (t.Piece() == Rotated(s.Piece(), dir) && !Collides(t.arena, t.Piece(), t.x, t.y) &&
        exists k :: 0 <= k < Probes(|s.Piece()|) && t.x == s.x + Shift(k)))
  {
    if s.Active() {
      var r := Rotated(s.Piece(), dir);
      var n := Probes(Width0(r));
      if FirstFree(s.arena, r, s.x, s.y, 0, n) < n {
        RotateKicked(s, dir);
      } else {
        RotateRestored(s, dir);
      }
    }
  }

  /** The catalog is shared: after a kick succeeds, the next spawn of the same type starts in the
      rotated orientation. */
  lemma {:induction false} RotationIsShared(s: State, dir: int, r: Choice)
    requires Inv(s) && s.Active() && r == s.kind
    requires FirstFree(s.arena, Rotated(s.Piece(), dir), s.x, s.y, 0, Probes(Width0(Rotated(s.Piece(), dir)))) <
      Probes(Width0(Rotated(s.Piece(), dir)))
    ensures Spawn(RotateStep(s, dir), r).Piece() == Rotated(s.Piece(), dir)
  {
  }

  // ---------------------------------------------------------------- the keydown handler and the tick

  /** The keydown handler with the next piece type `next` for any spawn it causes. Enter resets and
      starts a game that is not running; every other key is ignored unless the game is started and not
      over. The pause flag is not looked at here. */
  function KeyDown(s: State, key: string, next: Choice): State
    requires HasBlock(s.Piece())
  {
    if key == "Enter" then (if !s.gameStarted || s.gameOver then StartGame(ResetGame(s, next)) else s)
    else if !s.gameStarted || s.gameOver then s
    else if key == "ArrowLeft" then Move(s, -1)
    else if key == "ArrowRight" then Move(s, 1)
    else if key == "ArrowDown" then Drop(s, next)
    else if key == "q" then RotateStep(s, -1)
    else if key == "w" then RotateStep(s, 1)
    else if key == "p" then TogglePause(s)
    else if key == " " then HardDrop(s, next)
    else s
  }

  /** The key press ends in the TypeError thrown by merge. */
  predicate KeyDownThrows(s: State, key: string)
    requires HasBlock(s.Piece())
  {
    s.gameStarted && !s.gameOver &&
    ((key == "ArrowDown" && DropThrows(s)) ||
     (key == " " && DropThrows(s.(y := GhostY(s.arena, s.Piece(), s.x, s.y)))))
  }

  /** Every key press keeps the invariant. Except for Enter, which starts a new game at score 0,
      no key lowers the score or the level. */
  lemma {:induction false} KeyDownInv(s: State, key: string, next: Choice)
    requires Inv(s)
    ensures HasBlock(s.Piece())
    ensures Inv(KeyDown(s, key, next))
    ensures key != "Enter" ==> KeyDown(s, key, next).score >= s.score && KeyDown(s, key, next).level >= s.level
  {
    assert ValidShape(s.pieces[s.kind], s.kind);
    if key == "Enter" {
      if !s.gameStarted || s.gameOver {
        ResetInv(s, next);
      }
    } else if !s.gameStarted || s.gameOver {
    } else if key == "ArrowLeft" {
      MoveFacts(s, -1);
    } else if key == "ArrowRight" {
      MoveFacts(s, 1);
    } else if key == "ArrowDown" {
      DropFacts(s, next);
    } else if key == "q" {
      RotateFacts(s, -1);
    } else if key == "w" {
      RotateFacts(s, 1);
    } else if key == " " {
      HardDropInv(s, next);
    }
  }

  /** playerMove, playerDrop and playerRotate act only on a running game: a game that is not started,
      paused or over ignores the arrow keys and the rotation keys. */
  lemma InactiveIgnored(s: State, key: string, dir: int, next: Choice)
    requires HasBlock(s.Piece()) && !s.Active()
    requires key in {"ArrowLeft", "ArrowRight", "ArrowDown", "q", "w"}
    ensures Move(s, dir) == s && Drop(s, next) == s && RotateStep(s, dir) == s
    ensures KeyDown(s, key, next) == s
  {
  }

  /** Once the game is over, nothing but Enter changes anything. */
  lemma GameOverFrozen(s: State, key: string, next: Choice)
    requires HasBlock(s.Piece()) && s.gameOver && key != "Enter"
    ensures KeyDown(s, key, next) == s
  {
  }

  /** The flags move only along NotStarted -> Running <-> Paused, Running -> GameOver -> Running,
      and Enter on a game that is not running always yields a running game on an empty board at score 0. */
  lemma {:induction false} KeyDownStatus(s: State, key: string, next: Choice)
    requires Inv(s)
    ensures HasBlock(s.Piece())
    ensures var a, b := StatusOf(s), StatusOf(KeyDown(s, key, next));
      a == b ||
      (a == NotStarted && b == Running) ||
      (a == Running && (b == Paused || b == GameOver)) ||
      (a == Paused && b == Running) ||
      (a == GameOver && b == Running)
    ensures key == "Enter" && StatusOf(s) in {NotStarted, GameOver} ==>
      StatusOf(KeyDown(s, key, next)) == Running &&
      KeyDown(s, key, next).arena == ZeroRows(Height, Width) && KeyDown(s, key, next).score == 0
  {
    assert ValidShape(s.pieces[s.kind], s.kind);
    if key == "Enter" {
      if !s.gameStarted || s.gameOver {
        ResetInv(s, next);
      }
    } else if !s.gameStarted || s.gameOver {
    } else if key == "ArrowLeft" {
      MoveFacts(s, -1);
    } else if key == "ArrowRight" {
      MoveFacts(s, 1);
    } else if key == "ArrowDown" {
      DropStatus(s, next);
    } else if key == "q" {
      RotateFacts(s, -1);
    } else if key == "w" {
      RotateFacts(s, 1);
    } else if key == " " {
      DropStatus(s.(y := GhostY(s.arena, s.Piece(), s.x, s.y)), next);
    }
  }

  /** update, with the elapsed time `delta` and the current drop interval given: a tick of a running
      game adds `delta` to the drop counter and drops the piece once the counter exceeds the interval. */
  function Update(s: State, delta: int, interval: int, next: Choice): State {
    if !s.Active() then s
    else
      var t := s.(dropCounter := s.dropCounter + delta);
      if t.dropCounter > interval then Drop(t, next) else t
  }

  /** The tick schedules the next one: it got past its guard and the drop it made did not throw. */
  predicate UpdateRearms(s: State, delta: int, interval: int) {
    s.Active() &&
    var t := s.(dropCounter := s.dropCounter + delta);
    !(t.dropCounter > interval && DropThrows(t))
  }

  /** A tick keeps the invariant, changes nothing unless the game is running, and never lowers the score. */
  lemma {:induction false} UpdateInv(s: State, delta: int, interval: int, next: Choice)
    requires Inv(s)
    ensures Inv(Update(s, delta, interval, next))
    ensures !s.Active() ==> Update(s, delta, interval, next) == s
    ensures Update(s, delta, interval, next).score >= s.score
  {
    if s.Active() {
      var t := s.(dropCounter := s.dropCounter + delta);
      DropFacts(t, next);
    }
  }
}
