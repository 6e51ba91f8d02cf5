/** The rules of Sudoku as the client page checks them (`isValidMove`,
    `isBoardValid`), and an independent statement of what a solved board is:
    every row, column and 3x3 box holds the digits 1..9. */
module SudokuRules {
  import opened Seqs

  /** A board as the controllers and the page hold it: nine rows of nine
      integers, 0 standing for an empty cell. */
  type Board = seq<seq<int>>

  predicate IsGrid(b: Board) {
    |b| == 9 && forall r :: 0 <= r < 9 ==> |b[r]| == 9
  }

  predicate InRange(r: int, c: int) {
    0 <= r < 9 && 0 <= c < 9
  }

  /** Two distinct cells that share a row, a column or a 3x3 box. */
  predicate Peer(r1: int, c1: int, r2: int, c2: int) {
    (r1 != r2 || c1 != c2) && (r1 == r2 || c1 == c2 || (r1 / 3 == r2 / 3 && c1 / 3 == c2 / 3))
  }

  /** `v` occurs at no peer of (r, c). */
  predicate ValidMove(b: Board, r: int, c: int, v: int)
    requires IsGrid(b) && InRange(r, c)
  {
    forall r2, c2 :: 0 <= r2 < 9 && 0 <= c2 < 9 && Peer(r, c, r2, c2) ==> b[r2][c2] != v
  }

  /** No two peers hold the same value. */
  predicate ConflictFree(b: Board)
    requires IsGrid(b)
  {
    forall r1, c1, r2, c2 ::
      0 <= r1 < 9 && 0 <= c1 < 9 && 0 <= r2 < 9 && 0 <= c2 < 9 && Peer(r1, c1, r2, c2) ==> b[r1][c1] != b[r2][c2]
  }

  /** Every cell is filled. */
  predicate Complete(b: Board)
    requires IsGrid(b)
  {
    forall r, c :: 0 <= r < 9 && 0 <= c < 9 ==> b[r][c] != 0
  }

  /** What `isBoardValid` accepts: every cell filled and valid for its peers. */
  predicate Solved(b: Board) {
    IsGrid(b) && Complete(b) && ConflictFree(b)
  }

  /** Every cell holds 0 (empty) or a digit, which is all the page's input
      handler ever writes. */
  predicate DigitCells(b: Board)
    requires IsGrid(b)
  {
    forall r, c :: 0 <= r < 9 && 0 <= c < 9 ==> 0 <= b[r][c] <= 9
  }

  /** Checks the row, then the column, then the box of (row, col) for `value`
      at any cell other than (row, col) itself. */
  method IsValidMove(b: Board, row: int, col: int, value: int) returns (ok: bool)
    requires IsGrid(b) && InRange(row, col)
    ensures ok <==> ValidMove(b, row, col, value)
  {
    var x := 0;
    while x < 9
      invariant 0 <= x <= 9
      invariant forall c2 :: 0 <= c2 < x && c2 != col ==> b[row][c2] != value
    {
      if x != col && b[row][x] == value {
        return false;
      }
      x := x + 1;
    }
    x := 0;
    while x < 9
      invariant 0 <= x <= 9
      invariant forall r2 :: 0 <= r2 < x && r2 != row ==> b[r2][col] != value
    {
      if x != row && b[x][col] == value {
        return false;
      }
      x := x + 1;
    }
    var startRow := (row / 3) * 3;
    var startCol := (col / 3) * 3;
    var i := 0;
    while i < 3
      invariant 0 <= i <= 3
      invariant forall r2, c2 :: startRow <= r2 < startRow + i && startCol <= c2 < startCol + 3 && (r2 != row || c2 != col)
                  ==> b[r2][c2] != value
    {
      var currentRow := startRow + i;
      var j := 0;
      while j < 3
        invariant 0 <= j <= 3
        invariant forall r2, c2 :: startRow <= r2 < startRow + i && startCol <= c2 < startCol + 3 && (r2 != row || c2 != col)
                    ==> b[r2][c2] != value
        invariant forall c2 :: startCol <= c2 < startCol + j && (currentRow != row || c2 != col)
                    ==> b[currentRow][c2] != value
      {
        var currentCol := startCol + j;
        if (currentRow != row || currentCol != col) && b[currentRow][currentCol] == value {
          return false;
        }
        j := j + 1;
      }
      i := i + 1;
    }
    return true;
  }

  /** `isBoardValid`: visits every cell in row-major order and rejects the
      board at the first empty cell or the first cell that conflicts with a
      peer. */
  method IsBoardValid(b: Board) returns (ok: bool)
    requires IsGrid(b)
    ensures ok <==> Solved(b)
  {
    var r := 0;
    while r < 9
      invariant 0 <= r <= 9
      invariant forall r1, c1 :: 0 <= r1 < r && 0 <= c1 < 9 ==> b[r1][c1] != 0 && ValidMove(b, r1, c1, b[r1][c1])
    {
      var c := 0;
      while c < 9
        invariant 0 <= c <= 9
        invariant forall r1, c1 :: 0 <= r1 < r && 0 <= c1 < 9 ==> b[r1][c1] != 0 && ValidMove(b, r1, c1, b[r1][c1])
        invariant forall c1 :: 0 <= c1 < c ==> b[r][c1] != 0 && ValidMove(b, r, c1, b[r][c1])
      {
        var val := b[r][c];
        if val == 0 {
          return false;
        }
        var valid := IsValidMove(b, r, c, val);
        if !valid {
          assert !ConflictFree(b) by {
            var r2, c2 :| InRange(r2, c2) && Peer(r, c, r2, c2) && b[r2][c2] == val;
          }
          return false;
        }
        c := c + 1;
      }
      r := r + 1;
    }
    return true;
  }

  // ---------------------------------------------------------------------
  // The reference definition: units holding the digits 1..9

  const DigitSet: set<int> := {1, 2, 3, 4, 5, 6, 7, 8, 9}

  function Row(b: Board, r: int): seq<int>
    requires IsGrid(b) && 0 <= r < 9
  {
    b[r]
  }

  function Col(b: Board, c: int): seq<int>
    requires IsGrid(b) && 0 <= c < 9
  {
    seq(9, i requires 0 <= i < 9 => b[i][c])
  }

  /** Box `k` (0..8, row-major over boxes), its cells in row-major order. */
  function Box(b: Board, k: int): seq<int>
    requires IsGrid(b) && 0 <= k < 9
  {
    seq(9, i requires 0 <= i < 9 => b[3 * (k / 3) + i / 3][3 * (k % 3) + i % 3])
  }

  /** The textbook definition of a solved Sudoku. */
  ghost predicate IsSolution(b: Board) {
    && IsGrid(b)
    && (forall k :: 0 <= k < 9 ==> Elems(Row(b, k)) == DigitSet)
    && (forall k :: 0 <= k < 9 ==> Elems(Col(b, k)) == DigitSet)
    && (forall k :: 0 <= k < 9 ==> Elems(Box(b, k)) == DigitSet)
  }

  /** The quotient and remainder by 3 of 3q + m, for m in 0..2. */
  lemma {:induction false} DivMod3(x: int, q: int, m: int)
    requires x == 3 * q + m && 0 <= m < 3
    ensures x / 3 == q && x % 3 == m
  {
  }

  /** Nine values drawn from 1..9 are all of them exactly when none repeats. */
  lemma {:induction false} NineDigits(s: seq<int>)
    requires |s| == 9 && forall i :: 0 <= i < 9 ==> 1 <= s[i] <= 9
    ensures Distinct(s) <==> Elems(s) == DigitSet
  {
    DistinctIffFullCard(s);
    assert Elems(s) <= DigitSet;
    assert |DigitSet| == 9;
    if |Elems(s)| == 9 {
      SubsetOfEqualCard(Elems(s), DigitSet);
    }
  }

  /** Position `i` of box `k` is the cell (3*(k/3) + i/3, 3*(k%3) + i%3);
      distinct positions are distinct peers. */
  lemma {:induction false} BoxCells(k: int, i: int, j: int)
    requires 0 <= k < 9 && 0 <= i < 9 && 0 <= j < 9 && i != j
    ensures var r1, c1, r2, c2 := 3 * (k / 3) + i / 3, 3 * (k % 3) + i % 3, 3 * (k / 3) + j / 3, 3 * (k % 3) + j % 3;
            InRange(r1, c1) && InRange(r2, c2) && Peer(r1, c1, r2, c2)
  {
    var r1, c1, r2, c2 := 3 * (k / 3) + i / 3, 3 * (k % 3) + i % 3, 3 * (k / 3) + j / 3, 3 * (k % 3) + j % 3;
    assert r1 / 3 == k / 3 && r2 / 3 == k / 3;
    assert c1 / 3 == k % 3 && c2 / 3 == k % 3;
    assert i == 3 * (i / 3) + i % 3 && j == 3 * (j / 3) + j % 3;
  }

  /** In a board that passes `isBoardValid`, no row, column or box repeats a value. */
  lemma {:induction false} SolvedUnitsDistinct(b: Board, k: int)
    requires Solved(b) && 0 <= k < 9
    ensures Distinct(Row(b, k)) && Distinct(Col(b, k)) && Distinct(Box(b, k))
  {
    var row, col, box := Row(b, k), Col(b, k), Box(b, k);
    forall i, j | 0 <= i < j < 9 ensures row[i] != row[j] {
      assert Peer(k, i, k, j);
    }
    forall i, j | 0 <= i < j < 9 ensures col[i] != col[j] {
      assert Peer(i, k, j, k);
    }
    forall i, j | 0 <= i < j < 9 ensures box[i] != box[j] {
      BoxCells(k, i, j);
    }
  }

  /** A board of empty cells and digits that passes `isBoardValid` has the
      digits 1..9 in every row, column and box. */
  lemma {:induction false} SolvedIsSolution(b: Board)
    requires Solved(b) && DigitCells(b)
    ensures IsSolution(b)
  {
    forall k | 0 <= k < 9
      ensures Elems(Row(b, k)) == DigitSet
      ensures Elems(Col(b, k)) == DigitSet
      ensures Elems(Box(b, k)) == DigitSet
    {
      SolvedUnitsDistinct(b, k);
      NineDigits(Row(b, k));
      NineDigits(Col(b, k));
      BoxDigits(b, k);
      NineDigits(Box(b, k));
    }
  }

  /** A box of a complete board of digits holds digits only. */
  lemma {:induction false} BoxDigits(b: Board, k: int)
    requires IsGrid(b) && Complete(b) && DigitCells(b) && 0 <= k < 9
    ensures forall i :: 0 <= i < 9 ==> 1 <= Box(b, k)[i] <= 9
  {
    var box := Box(b, k);
    forall i | 0 <= i < 9 ensures 1 <= box[i] <= 9 {
      var r, c := 3 * (k / 3) + i / 3, 3 * (k % 3) + i % 3;
      assert InRange(r, c);
      assert box[i] == b[r][c];
    }
  }

  /** Two different cells of one box hold different values when the box
      repeats none. Box (br, bc) has its cells at rows 3 br + 0..2 and
      columns 3 bc + 0..2. */
  lemma {:induction false} BoxPeersDiffer(b: Board, br: int, bc: int, ir1: int, ic1: int, ir2: int, ic2: int)
    requires IsGrid(b) && 0 <= br < 3 && 0 <= bc < 3
    requires 0 <= ir1 < 3 && 0 <= ic1 < 3 && 0 <= ir2 < 3 && 0 <= ic2 < 3 && (ir1 != ir2 || ic1 != ic2)
    requires Distinct(Box(b, 3 * br + bc))
    ensures b[3 * br + ir1][3 * bc + ic1] != b[3 * br + ir2][3 * bc + ic2]
  {
    var k, i1, i2 := 3 * br + bc, 3 * ir1 + ic1, 3 * ir2 + ic2;
    DivMod3(k, br, bc);
    DivMod3(i1, ir1, ic1);
    DivMod3(i2, ir2, ic2);
    BoxSlotsDiffer(b, k, i1, i2);
  }

  /** Two positions of a repetition-free box hold different values. */
  lemma {:induction false} BoxSlotsDiffer(b: Board, k: int, i1: int, i2: int)
    requires IsGrid(b) && 0 <= k < 9 && 0 <= i1 < 9 && 0 <= i2 < 9 && i1 != i2
    requires Distinct(Box(b, k))
    ensures b[3 * (k / 3) + i1 / 3][3 * (k % 3) + i1 % 3] != b[3 * (k / 3) + i2 / 3][3 * (k % 3) + i2 % 3]
  {
    DistinctAt(Box(b, k), i1, i2);
  }

  /** In a board with the digits 1..9 in every row, column and box, two
      peers never share a value. */
  lemma {:induction false} SolutionPeersDiffer(b: Board, r1: int, c1: int, r2: int, c2: int)
    requires IsSolution(b) && InRange(r1, c1) && InRange(r2, c2) && Peer(r1, c1, r2, c2)
    ensures b[r1][c1] != b[r2][c2]
  {
    if r1 == r2 {
      RowPeersDiffer(b, r1, c1, c2);
    } else if c1 == c2 {
      ColPeersDiffer(b, c1, r1, r2);
    } else {
      SolutionBoxPeersDiffer(b, r1, c1, r2, c2);
    }
  }

  lemma {:induction false} RowPeersDiffer(b: Board, r: int, c1: int, c2: int)
    requires IsSolution(b) && InRange(r, c1) && InRange(r, c2) && c1 != c2
    ensures b[r][c1] != b[r][c2]
  {
    var row := Row(b, r);
    assert Elems(row) == DigitSet;
    NineDigitsBack(row);
    DistinctAt(row, c1, c2);
  }

  lemma {:induction false} ColPeersDiffer(b: Board, c: int, r1: int, r2: int)
    requires IsSolution(b) && InRange(r1, c) && InRange(r2, c) && r1 != r2
    ensures b[r1][c] != b[r2][c]
  {
    var col := Col(b, c);
    assert Elems(col) == DigitSet;
    NineDigitsBack(col);
    DistinctAt(col, r1, r2);
  }

  lemma {:induction false} SolutionBoxPeersDiffer(b: Board, r1: int, c1: int, r2: int, c2: int)
    requires IsSolution(b) && InRange(r1, c1) && InRange(r2, c2) && (r1 != r2 || c1 != c2)
    requires r1 / 3 == r2 / 3 && c1 / 3 == c2 / 3
    ensures b[r1][c1] != b[r2][c2]
  {
    var br, bc := r1 / 3, c1 / 3;
    assert 0 <= br < 3 && 0 <= bc < 3;
    var k := 3 * br + bc;
    assert Elems(Box(b, k)) == DigitSet;
    NineDigitsBack(Box(b, k));
    SameBoxDiffer(b, r1, c1, r2, c2);
  }

  /** The same, for a box known to repeat nothing, in cell coordinates. */
  lemma {:induction false} SameBoxDiffer(b: Board, r1: int, c1: int, r2: int, c2: int)
    requires IsGrid(b) && InRange(r1, c1) && InRange(r2, c2) && (r1 != r2 || c1 != c2)
    requires r1 / 3 == r2 / 3 && c1 / 3 == c2 / 3
    requires Distinct(Box(b, 3 * (r1 / 3) + c1 / 3))
    ensures b[r1][c1] != b[r2][c2]
  {
    var br, bc := r1 / 3, c1 / 3;
    var ir1, ic1, ir2, ic2 := r1 % 3, c1 % 3, r2 % 3, c2 % 3;
    assert r1 == 3 * br + ir1 && c1 == 3 * bc + ic1;
    assert r2 == 3 * br + ir2 && c2 == 3 * bc + ic2;
    BoxPeersDiffer(b, br, bc, ir1, ic1, ir2, ic2);
  }


  /** A board with the digits 1..9 in every row, column and box passes
      `isBoardValid`. */
  lemma {:induction false} SolutionIsSolved(b: Board)
    requires IsSolution(b)
    ensures Solved(b)
  {
    forall r, c | InRange(r, c) ensures b[r][c] != 0 {
      var row := Row(b, r);
      assert Elems(row) == DigitSet;
      assert row[c] == b[r][c];
      assert b[r][c] in Elems(row);
    }
    forall r1, c1, r2, c2 | InRange(r1, c1) && InRange(r2, c2) && Peer(r1, c1, r2, c2)
      ensures b[r1][c1] != b[r2][c2]
    {
      SolutionPeersDiffer(b, r1, c1, r2, c2);
    }
  }

  /** A board of empty cells and digits passes `isBoardValid` exactly when
      every row, column and box holds the digits 1..9. */
  lemma {:induction false} SolvedIffSolution(b: Board)
    requires IsGrid(b) && DigitCells(b)
    ensures Solved(b) <==> IsSolution(b)
  {
    if Solved(b) {
      SolvedIsSolution(b);
    }
    if IsSolution(b) {
      SolutionIsSolved(b);
    }
  }

  /** A unit that holds the digits 1..9 repeats none of them. */
  lemma {:induction false} NineDigitsBack(s: seq<int>)
    requires |s| == 9 && Elems(s) == DigitSet
    ensures Distinct(s)
  {
    assert |DigitSet| == 9;
    DistinctIffFullCard(s);
  }
}
