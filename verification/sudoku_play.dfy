/** The Sudoku page's game logic: the live score, the input handler with
    its penalty and once-per-cell bonus, the end-of-game rules, the
    countdown and the clock display. */
module SudokuPlay {
  import opened Wrappers
  import opened SudokuRules
  import opened Text

  datatype GameState = Playing | Won | LostTime | LostScore | SolvedBot

  /** The page's state: the grid, the cells that have already paid their
      bonus, the chosen level, the countdown and the two point counters. */
  datatype Play = Play(
    grid: Board,
    solved: seq<seq<bool>>,
    level: string,
    timeLeft: int,
    penalty: int,
    bonus: int,
    state: GameState)

  const MaxTime: int := 600
  const MaxScore: int := 1000
  const CellBonus: int := 50
  const RevealPenalty: int := 10000

  predicate IsFlagGrid(g: seq<seq<bool>>) {
    |g| == 9 && forall r :: 0 <= r < 9 ==> |g[r]| == 9
  }

  /** Number of true flags in one row. */
  function RowCount(row: seq<bool>): (n: nat)
    ensures n <= |row|
  {
    if |row| == 0 then 0 else RowCount(row[..|row| - 1]) + (if row[|row| - 1] then 1 else 0)
  }

  /** Number of true flags in the first `k` rows. */
  function FlagCount(g: seq<seq<bool>>, k: nat): nat
    requires k <= |g|
  {
    if k == 0 then 0 else FlagCount(g, k - 1) + RowCount(g[k - 1])
  }

  /** The state invariant: grids are 9x9, cells hold 0..9, the bonus is 50
      per flagged cell, and the counters and the clock are in range. */
  ghost predicate Inv(p: Play) {
    && IsGrid(p.grid) && DigitCells(p.grid)
    && IsFlagGrid(p.solved)
    && p.bonus == CellBonus * FlagCount(p.solved, 9)
    && p.penalty >= 0
    && 0 <= p.timeLeft <= MaxTime
  }

  /** `startNewGame` once the puzzle has arrived: full clock, no points, no
      cell paid yet. */
  function StartNewGame(level: string, puzzle: Board): (p: Play)
    requires IsGrid(puzzle) && DigitCells(puzzle)
    ensures Inv(p) && p.state == Playing && p.bonus == 0 && p.penalty == 0 && p.timeLeft == MaxTime
  {
    var noFlags := seq(9, r => seq(9, c => false));
    ZeroFlags(noFlags, 9);
    Play(puzzle, noFlags, level, MaxTime, 0, 0, Playing)
  }

  lemma {:induction false} ZeroFlags(g: seq<seq<bool>>, k: nat)
    requires k <= |g| && forall r, c :: 0 <= r < |g| && 0 <= c < |g[r]| ==> !g[r][c]
    ensures FlagCount(g, k) == 0
  {
    if k > 0 {
      ZeroFlags(g, k - 1);
      ZeroRow(g[k - 1]);
    }
  }

  lemma {:induction false} ZeroRow(row: seq<bool>)
    requires forall c :: 0 <= c < |row| ==> !row[c]
    ensures RowCount(row) == 0
  {
    if |row| > 0 {
      ZeroRow(row[..|row| - 1]);
    }
  }

  /** `currentScore`, given the time score (the rounded fraction of the
      remaining time times 1000) as an integer. */
  function CurrentScore(timeScore: int, p: Play): (s: int)
    ensures s >= 0
    ensures s >= timeScore - p.penalty + p.bonus
    ensures s == 0 || s == timeScore - p.penalty + p.bonus
  {
    var raw := timeScore - p.penalty + p.bonus;
    if raw > 0 then raw else 0
  }

  /** What `parseInt` and the empty-string test make of the typed text. */
  datatype CellInput = Clear | Number(n: int) | NotANumber

  function PenaltyFor(level: string): (amount: int)
    ensures amount == 200 || amount == 100 || amount == 50
    ensures amount == 200 <==> level == "hard"
    ensures amount == 100 <==> level == "medium"
  {
    if level == "hard" then 200 else if level == "medium" then 100 else 50
  }

  /** Number of filled (non-zero) cells, as the page counts them. */
  function FilledCount(b: Board, k: nat): (n: nat)
    requires IsGrid(b) && k <= 9
    ensures n <= 9 * k
  {
    if k == 0 then 0 else FilledCount(b, k - 1) + FilledInRow(b[k - 1], 9)
  }

  function FilledInRow(row: seq<int>, k: nat): (n: nat)
    requires k <= |row|
    ensures n <= k
  {
    if k == 0 then 0 else FilledInRow(row, k - 1) + (if row[k - 1] != 0 then 1 else 0)
  }

  /** All 81 cells count as filled exactly when no cell is 0. */
  lemma {:induction false} FilledAllIffComplete(b: Board)
    requires IsGrid(b)
    ensures FilledCount(b, 9) == 81 <==> Complete(b)
  {
    FilledRowsFull(b, 9);
  }

  lemma {:induction false} FilledRowsFull(b: Board, k: nat)
    requires IsGrid(b) && k <= 9
    ensures FilledCount(b, k) == 9 * k <==> forall r, c :: 0 <= r < k && 0 <= c < 9 ==> b[r][c] != 0
  {
    if k > 0 {
      FilledRowsFull(b, k - 1);
      FilledRowFull(b[k - 1], 9);
    }
  }

  lemma {:induction false} FilledRowFull(row: seq<int>, k: nat)
    requires k <= |row|
    ensures FilledInRow(row, k) == k <==> forall c :: 0 <= c < k ==> row[c] != 0
  {
    if k > 0 {
      FilledRowFull(row, k - 1);
    }
  }

  function SetCell<T>(g: seq<seq<T>>, r: int, c: int, v: T): (g': seq<seq<T>>)
    requires 0 <= r < |g| && 0 <= c < |g[r]|
    ensures |g'| == |g|
    ensures forall i :: 0 <= i < |g| ==> |g'[i]| == |g[i]|
    ensures g'[r][c] == v
    ensures forall i, j :: 0 <= i < |g| && 0 <= j < |g[i]| && (i != r || j != c) ==> g'[i][j] == g[i][j]
  {
    g[r := g[r][c := v]]
  }

  /** `handleChange`: ignored unless playing; an empty input clears the
      cell; anything but 1..9 is ignored; otherwise a move that clashes with
      a peer costs the level's penalty, a clash-free move pays 50 once per
      cell, the value is written either way, and a full valid board wins. */
  function HandleChange(p: Play, row: int, col: int, input: CellInput): (p': Play)
    requires Inv(p) && InRange(row, col)
    ensures Inv(p')
    ensures p.state != Playing ==> p' == p
    ensures input.NotANumber? || (input.Number? && !(1 <= input.n <= 9)) ==> p' == p
    ensures p.state == Playing && input.Clear? ==>
              p' == p.(grid := SetCell(p.grid, row, col, 0))
    ensures p.state == Playing && input.Number? && 1 <= input.n <= 9 ==>
              && p'.grid == SetCell(p.grid, row, col, input.n)
              && (!ValidMove(p.grid, row, col, input.n) ==>
                    p'.penalty == p.penalty + PenaltyFor(p.level) && p'.bonus == p.bonus)
              && (ValidMove(p.grid, row, col, input.n) ==> p'.penalty == p.penalty)
              && (ValidMove(p.grid, row, col, input.n) && !p.solved[row][col] ==> p'.bonus == p.bonus + CellBonus)
              && (p.solved[row][col] ==> p'.bonus == p.bonus)
    ensures forall r, c :: InRange(r, c) && p.solved[r][c] ==> p'.solved[r][c]
    ensures p'.state == Won ==> p.state == Won || Solved(p'.grid)
    ensures p.state == Playing && input.Number? && 1 <= input.n <= 9 && Solved(SetCell(p.grid, row, col, input.n)) ==>
              p'.state == Won
    ensures p'.state != p.state ==> p.state == Playing && p'.state == Won
    ensures p'.level == p.level && p'.timeLeft == p.timeLeft
  {
    if p.state != Playing then p
    else
      match input
      case Clear => p.(grid := SetCell(p.grid, row, col, 0))
      case NotANumber => p
      case Number(v) =>
        if v < 1 || v > 9 then p
        else
          var isMistake := !ValidMove(p.grid, row, col, v);
          var p1 :=
            if isMistake then p.(penalty := p.penalty + PenaltyFor(p.level))
            else if !p.solved[row][col] then
              FlagSet(p.solved, row, col);
              p.(bonus := p.bonus + CellBonus, solved := SetCell(p.solved, row, col, true))
            else p;
          var grid := SetCell(p.grid, row, col, v);
          FilledAllIffComplete(grid);
          var p2 := p1.(grid := grid);
          if FilledCount(grid, 9) == 81 && Solved(grid) then p2.(state := Won) else p2
  }

  /** Raising one flag adds one to the count. */
  lemma {:induction false} FlagSet(g: seq<seq<bool>>, r: int, c: int)
    requires IsFlagGrid(g) && InRange(r, c) && !g[r][c]
    ensures FlagCount(SetCell(g, r, c, true), 9) == FlagCount(g, 9) + 1
  {
    FlagSetRows(g, r, c, 9);
  }

  lemma {:induction false} FlagSetRows(g: seq<seq<bool>>, r: int, c: int, k: nat)
    requires IsFlagGrid(g) && InRange(r, c) && !g[r][c] && k <= 9
    ensures FlagCount(SetCell(g, r, c, true), k) == FlagCount(g, k) + (if r < k then 1 else 0)
  {
    if k > 0 {
      FlagSetRows(g, r, c, k - 1);
      var g' := SetCell(g, r, c, true);
      if k - 1 == r {
        FlagSetInRow(g[r], c, 9);
        assert g'[r] == g[r][c := true] == g[r][c := true][..9];
        assert g[r] == g[r][..9];
      } else {
        assert g'[k - 1] == g[k - 1];
      }
    }
  }

  lemma {:induction false} FlagSetInRow(row: seq<bool>, c: int, k: nat)
    requires 0 <= c < |row| && !row[c] && k <= |row|
    ensures RowCount(row[c := true][..k]) == RowCount(row[..k]) + (if c < k then 1 else 0)
  {
    if k > 0 {
      FlagSetInRow(row, c, k - 1);
      assert row[c := true][..k][..k - 1] == row[c := true][..k - 1];
      assert row[..k][..k - 1] == row[..k - 1];
    }
    if k == |row| {
      assert row[c := true][..k] == row[c := true];
      assert row[..k] == row;
    }
  }

  /** Flags only count cells of a 9x9 grid, so the bonus never exceeds
      50 * 81. */
  lemma {:induction false} BonusBounded(p: Play)
    requires Inv(p)
    ensures 0 <= p.bonus <= CellBonus * 81
  {
    FlagCountBound(p.solved, 9);
  }

  lemma {:induction false} FlagCountBound(g: seq<seq<bool>>, k: nat)
    requires IsFlagGrid(g) && k <= 9
    ensures FlagCount(g, k) <= 9 * k
  {
    if k > 0 {
      FlagCountBound(g, k - 1);
    }
  }

  /** One second of the countdown: never below 0. */
  function Tick(t: int): (t': int)
    ensures t' >= 0
    ensures t > 0 ==> t' == t - 1
  {
    if t <= 0 then 0 else t - 1
  }

  function Ticks(t: int, n: nat): int {
    if n == 0 then t else Tick(Ticks(t, n - 1))
  }

  /** After n seconds the clock shows max(0, t - n). */
  lemma {:induction false} TicksSaturate(t: int, n: nat)
    requires t >= 0
    ensures Ticks(t, n) == if t - n > 0 then t - n else 0
  {
    if n > 0 {
      TicksSaturate(t, n - 1);
    }
  }

  /** The interval only runs while playing. */
  function TimerTick(p: Play): (p': Play)
    ensures p.state == Playing ==> p'.timeLeft == Tick(p.timeLeft)
    ensures p.state == Playing && p.timeLeft > 0 ==> p'.timeLeft == p.timeLeft - 1
    ensures p.state != Playing ==> p' == p
    ensures p' == p.(timeLeft := p'.timeLeft)
    ensures Inv(p) ==> Inv(p')
  {
    if p.state == Playing then p.(timeLeft := Tick(p.timeLeft)) else p
  }

  /** The end-of-game effect: out of points with time left loses on score;
      out of time loses on time, even with no points either. */
  function Settle(p: Play, timeScore: int): (p': Play)
    requires p.timeLeft >= 0
    ensures p' == p.(state := p'.state)
    ensures p.state != Playing ==> p'.state == p.state
    ensures p.state == Playing && p.timeLeft == 0 ==> p'.state == LostTime
    ensures p'.state == LostScore <==> p.state == LostScore || (p.state == Playing && p.timeLeft > 0 && CurrentScore(timeScore, p) == 0)
    ensures p.state == Playing && p'.state == Playing ==> CurrentScore(timeScore, p) > 0 && p.timeLeft != 0
  {
    if p.state != Playing then p
    else if CurrentScore(timeScore, p) <= 0 && p.timeLeft > 0 then p.(state := LostScore)
    else if p.timeLeft == 0 then p.(state := LostTime)
    else p
  }

  /** `handleSolve` once the server answered with a solution: the grid is
      replaced, the penalty set to 10000 and the game marked as solved by
      the bot, which leaves the live score at 0. */
  function Reveal(p: Play, solution: Option<Board>): (p': Play)
    requires Inv(p)
    ensures solution.None? ==> p' == p
    ensures solution.Some? ==> p'.grid == solution.value && p'.state == SolvedBot && p'.penalty == RevealPenalty
    ensures solution.Some? ==> forall ts :: 0 <= ts <= MaxScore ==> CurrentScore(ts, p') == 0
  {
    match solution
    case None => p
    case Some(s) =>
      BonusBounded(p);
      p.(grid := s, penalty := RevealPenalty, state := SolvedBot)
  }

  /** `formatTime`: minutes, a colon, and the seconds on two digits. */
  function FormatTime(seconds: nat): (s: string)
    ensures |s| >= 4 && s[|s| - 3] == ':'
    ensures AllDigits(s[..|s| - 3]) && AllDigits(s[|s| - 2..])
    ensures ParseDigits(s[|s| - 2..]) < 60
    ensures 60 * ParseDigits(s[..|s| - 3]) + ParseDigits(s[|s| - 2..]) == seconds
  {
    var m := NatToString(seconds / 60);
    var ss := TwoDigits(seconds % 60);
    ColonParts(m, ss);
    m + ":" + ss
  }

  /** The seconds as `formatTime` prints them: a "0" before a single
      digit. */
  function TwoDigits(n: nat): (s: string)
    requires n < 100
    ensures |s| == 2 && AllDigits(s) && ParseDigits(s) == n
  {
    var s := (if n < 10 then "0" else "") + NatToString(n);
    assert n < 10 ==> s[..1] == "0";
    s
  }

  /** The two sides of `m:ss` are `m` and `ss`. */
  lemma {:induction false} ColonParts(m: string, ss: string)
    requires |ss| == 2
    ensures var s := m + ":" + ss;
            |s| == |m| + 3 && s[|s| - 3] == ':' && s[..|s| - 3] == m && s[|s| - 2..] == ss
  {
  }
}
