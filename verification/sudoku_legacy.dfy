/** The older web Sudoku controller. It shares the level map, the carving
    and the comparison with the API controller (the code is the same), but
    generates its solution by shuffling all nine rows of the base board
    freely, which keeps rows and columns valid and can break the boxes. */
module LegacySudoku {
  import opened Wrappers
  import opened Seqs
  import opened SudokuRules
  import opened SudokuGenerator
  import SessionStore

  /** `perm` is what `shuffle` makes of the nine row indices. */
  predicate IsRowShuffle(perm: seq<int>) {
    |perm| == 9 && (forall i :: 0 <= i < 9 ==> 0 <= perm[i] < 9) && Distinct(perm)
  }

  /** `shuffle($base)`: row i of the result is base row perm[i]. */
  function LegacySolvedBoard(perm: seq<int>): (b: Board)
    requires IsRowShuffle(perm)
    ensures IsGrid(b)
    ensures forall i :: 0 <= i < 9 ==> b[i] in Base
    ensures Distinct(b)
  {
    BaseCells();
    var b := seq(9, i requires 0 <= i < 9 => Base[perm[i]]);
    assert Distinct(b) by {
      forall i, j | 0 <= i < j < 9 ensures b[i] != b[j] {
        assert b[i][0] == Base[perm[i]][0] && b[j][0] == Base[perm[j]][0];
        BasePeersDiffer(perm[i], 0, perm[j], 0);
      }
    }
    b
  }

  /** Whatever the row shuffle, every row and every column of the legacy
      board holds the digits 1..9. */
  lemma {:induction false} LegacyRowsAndColumns(perm: seq<int>)
    requires IsRowShuffle(perm)
    ensures var b := LegacySolvedBoard(perm);
            forall k :: 0 <= k < 9 ==> Elems(Row(b, k)) == DigitSet && Elems(Col(b, k)) == DigitSet
  {
    var b := LegacySolvedBoard(perm);
    BaseIsSolved();
    forall k | 0 <= k < 9 ensures Elems(Row(b, k)) == DigitSet && Elems(Col(b, k)) == DigitSet {
      var row, col := Row(b, k), Col(b, k);
      assert row == Base[perm[k]];
      forall i | 0 <= i < 9 ensures 1 <= row[i] <= 9 && 1 <= col[i] <= 9 {
        assert col[i] == Base[perm[i]][k];
      }
      forall i, j | 0 <= i < j < 9 ensures row[i] != row[j] && col[i] != col[j] {
        assert Peer(perm[k], i, perm[k], j);
        assert Peer(perm[i], k, perm[j], k);
        assert col[i] == Base[perm[i]][k] && col[j] == Base[perm[j]][k];
      }
      NineDigits(row);
      NineDigits(col);
    }
  }

  /** Swapping rows 0 and 3 puts two 4s in the top-left box: the legacy
      generator can return a board that `isBoardValid` rejects. */
  lemma LegacyBoxesCanRepeat()
    ensures IsRowShuffle([3, 1, 2, 0, 4, 5, 6, 7, 8])
    ensures var b := LegacySolvedBoard([3, 1, 2, 0, 4, 5, 6, 7, 8]);
            !Solved(b) && !IsSolution(b)
  {
    var perm := [3, 1, 2, 0, 4, 5, 6, 7, 8];
    var b := LegacySolvedBoard(perm);
    assert b[0] == Base[3] && b[1] == Base[1];
    assert b[0][2] == 4 && b[1][0] == 4;
    assert Peer(0, 2, 1, 0);
    assert Box(b, 0)[2] == 4 && Box(b, 0)[3] == 4;
    assert !Distinct(Box(b, 0));
    if IsSolution(b) {
      NineDigitsBack(Box(b, 0));
    }
  }

  /** The legacy `new`: the level map and the carving are the API
      controller's; only the solution differs. */
  function LegacyNew(store: SessionStore.Store<GameFile>, level: Option<string>, token: string, now: int,
                     perm: seq<int>, cells: seq<int>)
    : (res: (SessionStore.Store<GameFile>, NewResponse))
    requires SessionStore.IsToken(token) && IsRowShuffle(perm) && IsCellShuffle(cells)
    ensures var (store', resp) := res;
            && resp.id == token
            && token in store' && store'[token].solution.Some?
            && var solution := store'[token].solution.value;
            && solution == LegacySolvedBoard(perm)
            && IsGrid(resp.puzzle)
            && store'[token].puzzle == resp.puzzle
            && Blanked(solution, resp.puzzle) == Elems(cells[..BlankCount(level.OrElse("easy"))])
            && |Blanked(solution, resp.puzzle)| == BlankCount(level.OrElse("easy"))
            && (forall r, c :: InRange(r, c) && resp.puzzle[r][c] != 0 ==> resp.puzzle[r][c] == solution[r][c])
    ensures res.0 == SessionStore.Put(store, token, res.0[token])
    ensures WellFormed(store) ==> WellFormed(res.0)
  {
    var solution := LegacySolvedBoard(perm);
    assert Complete(solution) by {
      BaseIsSolved();
      forall r, c | InRange(r, c) ensures solution[r][c] != 0 {
        assert solution[r][c] == Base[perm[r]][c];
      }
    }
    var count := BlankCount(level.OrElse("easy"));
    var puzzle := RemoveCells(solution, cells, count);
    RemoveCellsBlanksCount(solution, cells, count);
    var store' := SessionStore.Put(store, token, GameFile(token, puzzle, Some(solution), now));
    (store', NewResponse(token, puzzle))
  }
}
