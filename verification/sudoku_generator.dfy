/** The API Sudoku controller: a fixed solved board made varied by three
    validity-preserving shuffles, a difficulty-dependent number of blanked
    cells, and the validate / solve endpoints over the session files.
    Every `shuffle` call of the controller is an argument here. */
module SudokuGenerator {
  import opened Wrappers
  import opened Seqs
  import opened SudokuRules
  import SessionStore

  // ---------------------------------------------------------------------
  // The base board

  /** The board every generation starts from. */
  const Base: Board := [
    [1, 2, 3, 4, 5, 6, 7, 8, 9],
    [4, 5, 6, 7, 8, 9, 1, 2, 3],
    [7, 8, 9, 1, 2, 3, 4, 5, 6],
    [2, 3, 4, 5, 6, 7, 8, 9, 1],
    [5, 6, 7, 8, 9, 1, 2, 3, 4],
    [8, 9, 1, 2, 3, 4, 5, 6, 7],
    [3, 4, 5, 6, 7, 8, 9, 1, 2],
    [6, 7, 8, 9, 1, 2, 3, 4, 5],
    [9, 1, 2, 3, 4, 5, 6, 7, 8]
  ]

  /** Row r of the base board is 1..9 rotated left by 3*(r%3) + r/3. */
  function Shift(r: int): int {
    3 * (r % 3) + r / 3
  }

  /** The digit at position x of 1..9 repeated twice, for x in 0..16:
      the base board's cells without a modulo. */
  function Rot(x: int): int {
    if x < 9 then x + 1 else x - 8
  }

  lemma BaseCells()
    ensures IsGrid(Base)
    ensures forall r, c :: InRange(r, c) ==> Base[r][c] == Rot(Shift(r) + c)
  {
    forall r | 0 <= r < 9 ensures |Base[r]| == 9 && forall c :: 0 <= c < 9 ==> Base[r][c] == Rot(Shift(r) + c) {
      BaseRow(r);
    }
  }

  /** One row of the base board, cell by cell. */
  lemma {:induction false} BaseRow(r: int)
    requires 0 <= r < 9
    ensures |Base[r]| == 9 && forall c :: 0 <= c < 9 ==> Base[r][c] == Rot(Shift(r) + c)
  {
    if r == 0 { assert Shift(r) == 0; }
    else if r == 1 { assert Shift(r) == 3; }
    else if r == 2 { assert Shift(r) == 6; }
    else if r == 3 { assert Shift(r) == 1; }
    else if r == 4 { assert Shift(r) == 4; }
    else if r == 5 { assert Shift(r) == 7; }
    else if r == 6 { assert Shift(r) == 2; }
    else if r == 7 { assert Shift(r) == 5; }
    else { assert Shift(r) == 8; }
  }

  /** Two positions in 0..16 hold the same digit only when equal or 9 apart. */
  lemma {:induction false} RotEq(x: int, y: int)
    requires 0 <= x <= 16 && 0 <= y <= 16
    ensures Rot(x) == Rot(y) <==> (x == y || x - y == 9 || y - x == 9)
  {
  }

  /** Peers of the base board get different rotations of 1..9. */
  lemma {:induction false} BasePeersDiffer(r1: int, c1: int, r2: int, c2: int)
    requires InRange(r1, c1) && InRange(r2, c2) && Peer(r1, c1, r2, c2)
    ensures Rot(Shift(r1) + c1) != Rot(Shift(r2) + c2)
  {
    var br1, ir1, bc1, ic1 := r1 / 3, r1 % 3, c1 / 3, c1 % 3;
    var br2, ir2, bc2, ic2 := r2 / 3, r2 % 3, c2 / 3, c2 % 3;
    assert r1 == 3 * br1 + ir1 && r2 == 3 * br2 + ir2;
    assert c1 == 3 * bc1 + ic1 && c2 == 3 * bc2 + ic2;
    BaseOffsetsDiffer(br1, ir1, bc1, ic1, br2, ir2, bc2, ic2);
  }

  /** The same, with each coordinate split into its band and its offset:
      cell (3*br+ir, 3*bc+ic) sits at position 3*ir + br + 3*bc + ic. */
  lemma {:induction false} BaseOffsetsDiffer(br1: int, ir1: int, bc1: int, ic1: int, br2: int, ir2: int, bc2: int, ic2: int)
    requires 0 <= br1 < 3 && 0 <= ir1 < 3 && 0 <= bc1 < 3 && 0 <= ic1 < 3
    requires 0 <= br2 < 3 && 0 <= ir2 < 3 && 0 <= bc2 < 3 && 0 <= ic2 < 3
    requires (br1, ir1) != (br2, ir2) || (bc1, ic1) != (bc2, ic2)
    requires (br1 == br2 && ir1 == ir2) || (bc1 == bc2 && ic1 == ic2) || (br1 == br2 && bc1 == bc2)
    ensures Rot(3 * ir1 + br1 + 3 * bc1 + ic1) != Rot(3 * ir2 + br2 + 3 * bc2 + ic2)
  {
    RotEq(3 * ir1 + br1 + 3 * bc1 + ic1, 3 * ir2 + br2 + 3 * bc2 + ic2);
  }

  /** The base board is a solved Sudoku of digits. */
  lemma BaseIsSolved()
    ensures Solved(Base) && DigitCells(Base)
  {
    BaseCells();
    forall r1, c1, r2, c2 | InRange(r1, c1) && InRange(r2, c2) && Peer(r1, c1, r2, c2)
      ensures Base[r1][c1] != Base[r2][c2]
    {
      BasePeersDiffer(r1, c1, r2, c2);
    }
  }

  // ---------------------------------------------------------------------
  // The three shuffles

  /** `lines` is what `shuffle` makes of [3*band, 3*band+1, 3*band+2]. */
  predicate IsBandShuffle(lines: seq<int>, band: int) {
    && |lines| == 3
    && (forall i :: 0 <= i < 3 ==> 3 * band <= lines[i] < 3 * band + 3)
    && lines[0] != lines[1] && lines[0] != lines[2] && lines[1] != lines[2]
  }

  /** One shuffled triple per band (or per block of columns). */
  predicate AreBandShuffles(p: seq<seq<int>>) {
    |p| == 3 && forall band :: 0 <= band < 3 ==> IsBandShuffle(p[band], band)
  }

  /** Where line `i` of the shuffled board comes from. */
  function Source(p: seq<seq<int>>, i: int): (j: int)
    requires AreBandShuffles(p) && 0 <= i < 9
    ensures 0 <= j < 9 && j / 3 == i / 3
  {
    p[i / 3][i % 3]
  }

  /** The band shuffle maps distinct lines to distinct lines. */
  lemma {:induction false} SourceInjective(p: seq<seq<int>>, i: int, j: int)
    requires AreBandShuffles(p) && 0 <= i < 9 && 0 <= j < 9 && i != j
    ensures Source(p, i) != Source(p, j)
  {
    assert i == 3 * (i / 3) + i % 3 && j == 3 * (j / 3) + j % 3;
  }

  /** Rows reordered inside their band: row 3*band+i becomes the old row
      `rows[band][i]`. */
  function ShuffleRows(b: Board, rows: seq<seq<int>>): (r: Board)
    requires IsGrid(b) && AreBandShuffles(rows)
    ensures IsGrid(r)
    ensures forall i :: 0 <= i < 9 ==> r[i] in b[3 * (i / 3)..3 * (i / 3) + 3]
  {
    var r := seq(9, i requires 0 <= i < 9 => b[Source(rows, i)]);
    assert forall i | 0 <= i < 9 :: r[i] == b[3 * (i / 3)..3 * (i / 3) + 3][Source(rows, i) - 3 * (i / 3)];
    r
  }

  /** Columns reordered inside their block, the same way in every row:
      column 3*block+i becomes the old column `cols[block][i]`. */
  function ShuffleCols(b: Board, cols: seq<seq<int>>): (r: Board)
    requires IsGrid(b) && AreBandShuffles(cols)
    ensures IsGrid(r)
    ensures forall i :: 0 <= i < 9 ==> Col(r, i) == Col(b, Source(cols, i))
  {
    var r := seq(9, row requires 0 <= row < 9 => ShuffleRow(b[row], cols));
    assert forall row :: 0 <= row < 9 ==> r[row] == ShuffleRow(b[row], cols);
    assert forall i :: 0 <= i < 9 ==> Col(r, i) == Col(b, Source(cols, i)) by {
      forall i | 0 <= i < 9 ensures Col(r, i) == Col(b, Source(cols, i)) {
        ColOfShuffled(b, cols, r, i);
      }
    }
    r
  }

  /** One row with its cells moved the way `ShuffleCols` moves columns. */
  function ShuffleRow(row: seq<int>, cols: seq<seq<int>>): (r: seq<int>)
    requires |row| == 9 && AreBandShuffles(cols)
    ensures |r| == 9 && forall c :: 0 <= c < 9 ==> r[c] == row[Source(cols, c)]
  {
    seq(9, c requires 0 <= c < 9 => row[Source(cols, c)])
  }

  /** Column i of the column-shuffled board is old column Source(cols, i). */
  lemma {:induction false} ColOfShuffled(b: Board, cols: seq<seq<int>>, r: Board, i: int)
    requires IsGrid(b) && AreBandShuffles(cols) && IsGrid(r) && 0 <= i < 9
    requires forall row, c :: 0 <= row < 9 && 0 <= c < 9 ==> r[row][c] == b[row][Source(cols, c)]
    ensures Col(r, i) == Col(b, Source(cols, i))
  {
    assert forall t | 0 <= t < 9 :: Col(r, i)[t] == Col(b, Source(cols, i))[t];
  }

  /** `numbers` is what `shuffle` makes of range(1, 9). */
  predicate IsDigitShuffle(numbers: seq<int>) {
    |numbers| == 9 && (forall i :: 0 <= i < 9 ==> 1 <= numbers[i] <= 9) && Distinct(numbers)
  }

  /** Every cell holds a digit 1..9. */
  ghost predicate AllDigits(b: Board)
    requires IsGrid(b)
  {
    forall r, c :: InRange(r, c) ==> 1 <= b[r][c] <= 9
  }

  /** Each digit d replaced by numbers[d - 1]. */
  function Relabel(b: Board, numbers: seq<int>): (r: Board)
    requires IsGrid(b) && AllDigits(b) && IsDigitShuffle(numbers)
    ensures IsGrid(r) && AllDigits(r)
    ensures forall r1, c1, r2, c2 :: InRange(r1, c1) && InRange(r2, c2) ==>
              (r[r1][c1] == r[r2][c2] <==> b[r1][c1] == b[r2][c2])
  {
    seq(9, row requires 0 <= row < 9 => seq(9, c requires 0 <= c < 9 => numbers[b[row][c] - 1]))
  }

  /** Reordering rows inside their bands keeps a solved board solved. */
  lemma {:induction false} ShuffleRowsKeepsSolved(b: Board, rows: seq<seq<int>>)
    requires Solved(b) && AreBandShuffles(rows)
    ensures Solved(ShuffleRows(b, rows))
  {
    var r := ShuffleRows(b, rows);
    forall r1, c1, r2, c2 | InRange(r1, c1) && InRange(r2, c2) && Peer(r1, c1, r2, c2)
      ensures r[r1][c1] != r[r2][c2]
    {
      var s1, s2 := Source(rows, r1), Source(rows, r2);
      if r1 != r2 {
        SourceInjective(rows, r1, r2);
      }
      assert Peer(s1, c1, s2, c2);
    }
  }

  /** Reordering columns inside their blocks keeps a solved board solved. */
  lemma {:induction false} ShuffleColsKeepsSolved(b: Board, cols: seq<seq<int>>)
    requires Solved(b) && AreBandShuffles(cols)
    ensures Solved(ShuffleCols(b, cols))
  {
    var r := ShuffleCols(b, cols);
    forall r1, c1, r2, c2 | InRange(r1, c1) && InRange(r2, c2) && Peer(r1, c1, r2, c2)
      ensures r[r1][c1] != r[r2][c2]
    {
      var s1, s2 := Source(cols, c1), Source(cols, c2);
      if c1 != c2 {
        SourceInjective(cols, c1, c2);
      }
      assert Peer(r1, s1, r2, s2);
    }
  }

  /** The board the controller generates from its three rounds of shuffles. */
  function SolvedBoard(rows: seq<seq<int>>, cols: seq<seq<int>>, numbers: seq<int>): (b: Board)
    requires AreBandShuffles(rows) && AreBandShuffles(cols) && IsDigitShuffle(numbers)
    ensures Solved(b) && AllDigits(b)
    ensures IsSolution(b)
  {
    BaseIsSolved();
    var b1 := ShuffleRows(Base, rows);
    ShuffleRowsKeepsSolved(Base, rows);
    var b2 := ShuffleCols(b1, cols);
    ShuffleColsKeepsSolved(b1, cols);
    var b3 := Relabel(b2, numbers);
    SolvedIsSolution(b3);
    b3
  }

  // ---------------------------------------------------------------------
  // Carving the puzzle

  /** Blank cells per level; any label other than the three falls back to 45. */
  function BlankCount(level: string): (n: nat)
    ensures n == 35 <==> level == "easy"
    ensures n == 55 <==> level == "hard"
    ensures n == 45 <==> level != "easy" && level != "hard"
  {
    match level
    case "easy" => 35
    case "medium" => 45
    case "hard" => 55
    case _ => 45
  }

  /** `cells` is what `shuffle` makes of range(0, 80). */
  predicate IsCellShuffle(cells: seq<int>) {
    |cells| == 81 && (forall i :: 0 <= i < 81 ==> 0 <= cells[i] < 81) && Distinct(cells)
  }

  /** The first `count` shuffled positions, one by one, set to 0 in row
      pos/9, column pos%9. */
  function RemoveCells(b: Board, cells: seq<int>, count: nat): (p: Board)
    requires IsGrid(b) && IsCellShuffle(cells) && count <= 81
    ensures IsGrid(p)
    ensures forall r, c :: InRange(r, c) ==>
              p[r][c] == if 9 * r + c in cells[..count] then 0 else b[r][c]
  {
    if count == 0 then b
    else
      var prev := RemoveCells(b, cells, count - 1);
      var pos := cells[count - 1];
      assert cells[..count] == cells[..count - 1] + [pos];
      var p := prev[pos / 9 := prev[pos / 9][pos % 9 := 0]];
      assert forall r, c :: InRange(r, c) ==> (9 * r + c == pos <==> r == pos / 9 && c == pos % 9);
      p
  }

  /** The cells (as flat positions) where the puzzle differs from the board. */
  ghost function Blanked(b: Board, p: Board): set<int>
    requires IsGrid(b) && IsGrid(p)
  {
    set pos | 0 <= pos < 81 && p[pos / 9][pos % 9] != b[pos / 9][pos % 9]
  }

  /** Carving a filled board blanks exactly `count` distinct cells, the first
      `count` of the shuffle, and leaves every other cell as it was. */
  lemma {:induction false} RemoveCellsBlanksCount(b: Board, cells: seq<int>, count: nat)
    requires IsGrid(b) && Complete(b) && IsCellShuffle(cells) && count <= 81
    ensures Blanked(b, RemoveCells(b, cells, count)) == Elems(cells[..count])
    ensures |Blanked(b, RemoveCells(b, cells, count))| == count
  {
    var p := RemoveCells(b, cells, count);
    forall pos ensures pos in Blanked(b, p) <==> pos in Elems(cells[..count]) {
      if 0 <= pos < 81 {
        assert 9 * (pos / 9) + pos % 9 == pos;
      }
    }
    assert Distinct(cells[..count]) by {
      forall i, j | 0 <= i < j < count ensures cells[..count][i] != cells[..count][j] {
        assert cells[..count][i] == cells[i] && cells[..count][j] == cells[j];
      }
    }
    DistinctIffFullCard(cells[..count]);
  }

  // ---------------------------------------------------------------------
  // Comparing grids

  /** `$a[$r][$c] ?? 0`: a cell the submitted grid lacks reads as 0. */
  function CellOrZero(a: Board, r: int, c: int): int {
    if 0 <= r < |a| && 0 <= c < |a[r]| then a[r][c] else 0
  }

  /** `equalGrids`: the 81 cells compared numerically, in row-major order,
      stopping at the first difference. */
  method EqualGrids(a: Board, b: Board) returns (eq: bool)
    requires IsGrid(b)
    ensures eq <==> forall r, c :: InRange(r, c) ==> CellOrZero(a, r, c) == b[r][c]
  {
    var r := 0;
    while r < 9
      invariant 0 <= r <= 9
      invariant forall r1, c1 :: 0 <= r1 < r && 0 <= c1 < 9 ==> CellOrZero(a, r1, c1) == b[r1][c1]
    {
      var c := 0;
      while c < 9
        invariant 0 <= c <= 9
        invariant forall r1, c1 :: 0 <= r1 < r && 0 <= c1 < 9 ==> CellOrZero(a, r1, c1) == b[r1][c1]
        invariant forall c1 :: 0 <= c1 < c ==> CellOrZero(a, r, c1) == b[r][c1]
      {
        if CellOrZero(a, r, c) != b[r][c] {
          return false;
        }
        c := c + 1;
      }
      r := r + 1;
    }
    return true;
  }

  /** The submission agrees with the solution on all 81 cells. */
  predicate Matches(a: Board, b: Board)
    requires IsGrid(b)
  {
    forall r, c :: 0 <= r < 9 && 0 <= c < 9 ==> CellOrZero(a, r, c) == b[r][c]
  }

  /** A board matches itself; a submission matches a solution exactly when
      padding it out with zeros to 9x9 gives the solution. */
  lemma {:induction false} MatchesPadded(a: Board, b: Board)
    requires IsGrid(b)
    ensures Matches(b, b)
    ensures Matches(a, b) <==> Padded(a) == b
  {
    if Matches(a, b) {
      assert forall r :: 0 <= r < 9 ==> Padded(a)[r] == b[r];
    }
  }

  /** The submission read as `equalGrids` reads it: 9x9, missing cells 0. */
  function Padded(a: Board): (p: Board)
    ensures IsGrid(p)
    ensures forall r, c :: InRange(r, c) ==> p[r][c] == CellOrZero(a, r, c)
  {
    seq(9, r requires 0 <= r < 9 => seq(9, c requires 0 <= c < 9 => CellOrZero(a, r, c)))
  }

  /** A puzzle with a blank cell never matches a complete solution. */
  lemma {:induction false} PuzzleDoesNotMatch(b: Board, cells: seq<int>, count: nat)
    requires IsGrid(b) && Complete(b) && IsCellShuffle(cells) && 0 < count <= 81
    ensures !Matches(RemoveCells(b, cells, count), b)
  {
    var pos := cells[0];
    assert pos in cells[..count];
    assert 9 * (pos / 9) + pos % 9 == pos;
    assert InRange(pos / 9, pos % 9);
    assert RemoveCells(b, cells, count)[pos / 9][pos % 9] == 0;
    assert b[pos / 9][pos % 9] != 0;
  }

  // ---------------------------------------------------------------------
  // The endpoints over the session files

  /** A `sudoku/{id}.json` file. `solution` is absent when the decoded
      file lacks one. */
  datatype GameFile = GameFile(id: string, puzzle: Board, solution: Option<Board>, created: int)

  datatype Error = NotFound

  /** Every stored solution is a 9x9 board. */
  ghost predicate WellFormed(store: SessionStore.Store<GameFile>) {
    forall t :: t in store && store[t].solution.Some? ==> IsGrid(store[t].solution.value)
  }

  datatype NewResponse = NewResponse(id: string, puzzle: Board)

  /** `new`: the level defaults to "easy" when absent; the generated
      solution and its carved puzzle are stored under the fresh token, and
      only the puzzle is returned. */
  function New(store: SessionStore.Store<GameFile>, level: Option<string>, token: string, now: int,
               rows: seq<seq<int>>, cols: seq<seq<int>>, numbers: seq<int>, cells: seq<int>)
    : (res: (SessionStore.Store<GameFile>, NewResponse))
    requires SessionStore.IsToken(token)
    requires AreBandShuffles(rows) && AreBandShuffles(cols) && IsDigitShuffle(numbers) && IsCellShuffle(cells)
    ensures var (store', resp) := res;
            && resp.id == token
            && token in store' && store'[token].solution.Some?
            && var solution := store'[token].solution.value;
            && IsSolution(solution)
            && IsGrid(resp.puzzle)
            && store'[token].puzzle == resp.puzzle
            && Blanked(solution, resp.puzzle) == Elems(cells[..BlankCount(level.OrElse("easy"))])
            && |Blanked(solution, resp.puzzle)| == BlankCount(level.OrElse("easy"))
            && (forall r, c :: InRange(r, c) && resp.puzzle[r][c] != 0 ==> resp.puzzle[r][c] == solution[r][c])
    ensures res.0 == SessionStore.Put(store, token, res.0[token])
    ensures WellFormed(store) ==> WellFormed(res.0)
  {
    var solution := SolvedBoard(rows, cols, numbers);
    var count := BlankCount(level.OrElse("easy"));
    var puzzle := RemoveCells(solution, cells, count);
    RemoveCellsBlanksCount(solution, cells, count);
    var store' := SessionStore.Put(store, token, GameFile(token, puzzle, Some(solution), now));
    (store', NewResponse(token, puzzle))
  }

  /** `validateGrid`, with `equalGrids` as its specification: not found
      when no file or no solution is stored under the id. */
  function ValidateGrid(store: SessionStore.Store<GameFile>, id: string, grid: Board): (r: Result<bool, Error>)
    requires WellFormed(store)
    ensures r.Err? <==> (id !in store || store[id].solution.None?)
    ensures r.Ok? ==> (r.value <==> Matches(grid, store[id].solution.value))
  {
    match SessionStore.Get(store, id)
    case None => Err(NotFound)
    case Some(file) =>
      if file.solution.None? then Err(NotFound)
      else Ok(Matches(grid, file.solution.value))
  }

  /** `solve`: the stored solution, verbatim, or not found. */
  function Solve(store: SessionStore.Store<GameFile>, id: string): (r: Result<Option<Board>, Error>)
    ensures r.Err? <==> id !in store
    ensures r.Ok? ==> r.value == store[id].solution
  {
    match SessionStore.Get(store, id)
    case None => Err(NotFound)
    case Some(file) => Ok(file.solution)
  }

  /** A new game is found by its token; submitting the revealed solution is
      correct and submitting the untouched puzzle is not. */
  lemma {:induction false} NewThenValidate(store: SessionStore.Store<GameFile>, level: Option<string>, token: string, now: int,
                        rows: seq<seq<int>>, cols: seq<seq<int>>, numbers: seq<int>, cells: seq<int>)
    requires WellFormed(store) && SessionStore.IsToken(token)
    requires AreBandShuffles(rows) && AreBandShuffles(cols) && IsDigitShuffle(numbers) && IsCellShuffle(cells)
    ensures var (store', resp) := New(store, level, token, now, rows, cols, numbers, cells);
            && Solve(store', token).Ok?
            && Solve(store', token).value.Some?
            && ValidateGrid(store', token, Solve(store', token).value.value) == Ok(true)
            && ValidateGrid(store', token, resp.puzzle) == Ok(false)
  {
    var (store', resp) := New(store, level, token, now, rows, cols, numbers, cells);
    var solution := store'[token].solution.value;
    MatchesPadded(solution, solution);
    SolutionIsSolved(solution);
    var count := BlankCount(level.OrElse("easy"));
    PuzzleDoesNotMatch(solution, cells, count);
  }
}
