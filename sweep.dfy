/** Line clearing: full rows are removed, empty rows take their place on top,
    and the score and level grow with the number of rows cleared. */
module Sweep {
  import opened Grids
  import opened Collision

  const ScorePerLine := 10
  /** Score needed per level: the level is floor(score / LevelStep) + 1. */
  const LevelStep := 100

  /** Every cell of the row is filled. */
  predicate IsFull(row: seq<int>) {
    forall j :: 0 <= j < |row| ==> row[j] != 0
  }

  /** The rows of `b` that are not full, in their original order. */
  function Kept(b: Grid): Grid {
    if b == [] then []
    else if IsFull(b[0]) then Kept(b[1..])
    else [b[0]] + Kept(b[1..])
  }

  /** The number of full rows of `b`. */
  function FullCount(b: Grid): nat {
    if b == [] then 0
    else (if IsFull(b[0]) then 1 else 0) + FullCount(b[1..])
  }

  /** The board after a sweep: one empty row on top for every full row removed, then the other rows in order. */
  function Swept(b: Grid): Grid {
    ZeroRows(FullCount(b), Width) + Kept(b)
  }

  /** Keeping the non-full rows drops exactly the full ones; every kept row is a row of `b` that is not full. */
  lemma {:induction false} KeptRows(b: Grid)
    ensures |Kept(b)| + FullCount(b) == |b|
    ensures forall i :: 0 <= i < |Kept(b)| ==> Kept(b)[i] in b && !IsFull(Kept(b)[i])
  {
    if b != [] {
      KeptRows(b[1..]);
      assert forall r :: r in b[1..] ==> r in b;
    }
  }

  /** A board without full rows is its own sweep residue. */
  lemma {:induction false} KeptNoFull(b: Grid)
    requires forall i :: 0 <= i < |b| ==> !IsFull(b[i])
    ensures Kept(b) == b && FullCount(b) == 0
  {
    if b != [] {
      KeptNoFull(b[1..]);
    }
  }

  /** The sweep treats rows one at a time: for a board split in two, the kept rows are those kept from
      the upper part followed by those kept from the lower part, and the full rows add up. */
  lemma {:induction false} KeptAppend(a: Grid, b: Grid)
    ensures Kept(a + b) == Kept(a) + Kept(b)
    ensures FullCount(a + b) == FullCount(a) + FullCount(b)
  {
    if a == [] {
      assert a + b == b;
    } else {
      assert (a + b)[0] == a[0];
      assert (a + b)[1..] == a[1..] + b;
      KeptAppend(a[1..], b);
    }
  }

  /** A sweep keeps a board a board, clears every full row, empties exactly as many rows on top
      as it clears, and keeps cell values in range. */
  lemma {:induction false} SweptBoard(b: Grid)
    requires IsBoard(b)
    ensures IsBoard(Swept(b))
    ensures forall i :: 0 <= i < Height ==> !IsFull(Swept(b)[i])
    ensures Swept(b)[..FullCount(b)] == ZeroRows(FullCount(b), Width)
    ensures Swept(b)[FullCount(b)..] == Kept(b)
    ensures CellsWithin(b, 0, 7) ==> CellsWithin(Swept(b), 0, 7)
  {
    KeptRows(b);
    var k := FullCount(b);
    var s := Swept(b);
    forall i | 0 <= i < |s|
      ensures |s[i]| == Width && !IsFull(s[i])
      ensures CellsWithin(b, 0, 7) ==> forall j :: 0 <= j < |s[i]| ==> 0 <= s[i][j] <= 7
    {
      if i < k {
        assert s[i] == ZeroRow(Width) && s[i][0] == 0;
      } else {
        assert s[i] == Kept(b)[i - k];
        assert s[i] in b;
      }
    }
    assert s[k..] == Kept(b);
  }

  /** Sweeping twice clears nothing more. */
  lemma {:induction false} SweptIdempotent(b: Grid)
    requires IsBoard(b)
    ensures Swept(Swept(b)) == Swept(b)
  {
    SweptBoard(b);
    KeptNoFull(Swept(b));
  }

  /** The score after clearing `lines` rows at `level` (arenaSweep): unchanged when nothing is cleared. */
  function ScoreAfter(score: int, level: int, lines: nat): int {
    if lines > 0 then score + lines * ScorePerLine * level else score
  }

  /** The level after clearing `lines` rows from `score` at `level`: raised to floor(newScore / 100) + 1
      when that is higher, otherwise kept. */
  function LevelAfter(score: int, level: int, lines: nat): int {
    var newLevel := ScoreAfter(score, level, lines) / LevelStep + 1;
    if lines > 0 && newLevel > level then newLevel else level
  }

  /** Clearing rows never lowers the score or the level; clearing k > 0 rows adds exactly
      k * 10 * level, at the level in force before the sweep. */
  lemma ScoringGrows(score: int, level: int, lines: nat)
    requires level >= 1
    ensures ScoreAfter(score, level, lines) >= score
    ensures LevelAfter(score, level, lines) >= level
    ensures lines > 0 ==> ScoreAfter(score, level, lines) - score == lines * ScorePerLine * level
  {
    assert lines * ScorePerLine * level >= 0 by {
      assert lines * ScorePerLine >= 0;
    }
  }

  /** When the level is floor(score / 100) + 1 before a sweep, it still is afterwards. */
  lemma {:induction false} LevelTracksScore(score: int, level: int, lines: nat)
    requires score >= 0 && level == score / LevelStep + 1
    ensures ScoreAfter(score, level, lines) >= 0
    ensures LevelAfter(score, level, lines) == ScoreAfter(score, level, lines) / LevelStep + 1
  {
    var s' := ScoreAfter(score, level, lines);
    ScoringGrows(score, level, lines);
    DivMonotone(score, s');
  }

  lemma DivMonotone(a: int, b: int)
    requires 0 <= a <= b
    ensures a / LevelStep <= b / LevelStep
  {
  }

  /** arena.splice(r, 1)[0].fill(0) followed by arena.unshift(row): row r leaves the board,
      the rows above it move down one place and an empty row appears on top. */
  method RemoveRow(a: array2<int>, r: int, ghost g: Grid)
    requires 0 <= r < a.Length0 && Mirrors(a, g)
    modifies a
    ensures Mirrors(a, [ZeroRow(a.Length1)] + g[..r] + g[r + 1..])
  {
    var w := a.Length1;
    var i := r;
    while i > 0
      invariant 0 <= i <= r
      invariant forall p, q :: 0 <= p < a.Length0 && 0 <= q < w ==>
        a[p, q] == if i < p <= r then old(a[p - 1, q]) else old(a[p, q])
    {
      var j := 0;
      while j < w
        invariant 0 <= j <= w
        invariant forall p, q :: 0 <= p < a.Length0 && 0 <= q < w ==>
          a[p, q] == if i < p <= r || (p == i && q < j) then old(a[p - 1, q]) else old(a[p, q])
      {
        a[i, j] := a[i - 1, j];
        j := j + 1;
      }
      i := i - 1;
    }
    var j := 0;
    while j < w
      invariant 0 <= j <= w
      invariant forall p, q :: 0 <= p < a.Length0 && 0 <= q < w ==>
        a[p, q] == if p == 0 && q < j then 0 else if 0 < p <= r then old(a[p - 1, q]) else old(a[p, q])
    {
      a[0, j] := 0;
      j := j + 1;
    }
    var e := [ZeroRow(w)] + g[..r] + g[r + 1..];
    assert IsRect(e, a.Length0, w) by {
      forall p | 0 <= p < |e|
        ensures |e[p]| == w
      {
        if p > 0 && p <= r { assert e[p] == g[p - 1]; }
        if p > r { assert e[p] == g[p]; }
      }
    }
    forall p, q | 0 <= p < a.Length0 && 0 <= q < w
      ensures a[p, q] == e[p][q]
    {
      if p == 0 {
      } else if p <= r {
        assert e[p] == g[p - 1];
      } else {
        assert e[p] == g[p];
      }
    }
  }

  /** The state of the sweep of board `b` when rows r + 1 .. are done: `m` rows of `b` are still to be
      examined and sit below r + 1 - m empty rows; below them lie `zr` empty rows and the kept rows of b[m..]. */
  ghost predicate SweepInv(c: Grid, b: Grid, r: int, m: int, zr: int) {
    -1 <= r < |c| && 0 <= m <= r + 1 && m <= |b| && zr >= 0 && (zr > 0 ==> m == 0) &&
    c[..r + 1] == ZeroRows(r + 1 - m, Width) + b[..m] &&
    c[r + 1..] == ZeroRows(zr, Width) + Kept(b[m..])
  }

  /** Removing a full row r: it is b[m - 1], and the empty row put on top joins the others there. */
  lemma {:induction false} SweepRemove(c: Grid, b: Grid, r: int, m: int, zr: int)
    requires SweepInv(c, b, r, m, zr) && r >= 0 && IsFull(c[r])
    ensures m > 0
    ensures SweepInv([ZeroRow(Width)] + c[..r] + c[r + 1..], b, r, m - 1, zr)
  {
    assert c[r] == c[..r + 1][r];
    EmptyTop(c, b, r, m, zr);
    var c' := [ZeroRow(Width)] + c[..r] + c[r + 1..];
    assert c[..r] == c[..r + 1][..r];
    assert c[..r] == ZeroRows(r + 1 - m, Width) + b[..m - 1];
    assert c'[..r + 1] == [ZeroRow(Width)] + c[..r];
    ZeroRowsCons(r + 1 - m, Width);
    assert c'[r + 1..] == c[r + 1..];
    assert c[r] == b[m - 1];
    assert b[m - 1..] == [b[m - 1]] + b[m..];
  }

  /** While no row of `b` is left to examine, the rows on top are empty, so not full. */
  lemma {:induction false} EmptyTop(c: Grid, b: Grid, r: int, m: int, zr: int)
    requires SweepInv(c, b, r, m, zr) && r >= 0
    ensures m == 0 ==> !IsFull(c[r])
  {
    if m == 0 {
      assert c[..r + 1] == ZeroRows(r + 1, Width);
      assert c[r] == c[..r + 1][r];
      assert c[r][0] == 0;
    }
  }

  /** Passing over a row that is not full: it is either b[m - 1], now kept, or one of the empty rows on top. */
  lemma {:induction false} SweepSkip(c: Grid, b: Grid, r: int, m: int, zr: int)
    requires SweepInv(c, b, r, m, zr) && r >= 0 && !IsFull(c[r])
    ensures m > 0 ==> SweepInv(c, b, r - 1, m - 1, zr)
    ensures m == 0 ==> SweepInv(c, b, r - 1, 0, zr + 1)
  {
    assert c[r] == c[..r + 1][r];
    assert c[..r] == c[..r + 1][..r];
    assert c[r..] == [c[r]] + c[r + 1..];
    if m > 0 {
      assert c[r] == b[m - 1];
      assert b[m - 1..] == [b[m - 1]] + b[m..];
      assert c[..r] == ZeroRows(r + 1 - m, Width) + b[..m - 1];
    } else {
      assert c[r] == ZeroRow(Width);
      assert c[..r] == ZeroRows(r, Width);
      ZeroRowsCons(zr, Width);
    }
  }

  /** The row loop of arenaSweep: scans rows bottom-up, removes each full row and re-examines the same
      index, since the rows above have moved down into it. Returns the number of rows cleared. */
  method SweepRows(a: array2<int>, ghost b: Grid) returns (lines: nat)
    requires a.Length1 == Width && Mirrors(a, b)
    modifies a
    ensures Mirrors(a, Swept(b))
    ensures lines == FullCount(b)
  {
    ghost var c := b;
    ghost var m := a.Length0;
    ghost var zr := 0;
    var r := a.Length0 - 1;
    lines := 0;
    SweepStart(b);
    while r >= 0
      invariant a.Length0 == |b|
      invariant Mirrors(a, c) && SweepInv(c, b, r, m, zr)
      invariant lines == r + 1 - m + zr
      decreases r + 1, m
    {
      var x := 0;
      while x < a.Length1 && a[r, x] != 0
        invariant 0 <= x <= a.Length1
        invariant forall q :: 0 <= q < x ==> c[r][q] != 0
      {
        x := x + 1;
      }
      if x == a.Length1 {
        SweepRemove(c, b, r, m, zr);
        RemoveRow(a, r, c);
        c := [ZeroRow(Width)] + c[..r] + c[r + 1..];
        lines := lines + 1;
        m := m - 1;
      } else {
        assert c[r][x] == 0;
        SweepSkip(c, b, r, m, zr);
        if m > 0 {
          m := m - 1;
        } else {
          zr := zr + 1;
        }
        r := r - 1;
      }
    }
    SweepEnd(c, b, m, zr);
  }

  /** Before the first row is examined, every row of `b` is still to be examined. */
  lemma SweepStart(b: Grid)
    ensures SweepInv(b, b, |b| - 1, |b|, 0)
  {
    assert b[..|b|] == b;
    assert b[|b|..] == [];
  }

  /** When every row has been examined, the board is the sweep of `b` and `zr` rows were cleared. */
  lemma {:induction false} SweepEnd(c: Grid, b: Grid, m: int, zr: int)
    requires |c| == |b| && SweepInv(c, b, -1, m, zr)
    ensures c == Swept(b) && zr == FullCount(b)
  {
    assert c == c[0..];
    assert b[0..] == b;
    KeptRows(b);
  }

  lemma ZeroRowsCons(k: nat, w: nat)
    ensures [ZeroRow(w)] + ZeroRows(k, w) == ZeroRows(k + 1, w)
  {
  }
}
