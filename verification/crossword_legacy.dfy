/** The older web crossword controller: a fixed blank 5x5 grid, no clues,
    and a strict cell-by-cell comparison against the stored grid. */
module LegacyCrossword {
  import opened Wrappers
  import opened Text
  import opened Crossword
  import SessionStore

  /** A stored legacy session: the generated grid and its (empty) clues. */
  datatype LegacyGame = LegacyGame(id: string, grid: Grid, clues: seq<string>, created: int)

  const Size: nat := 5

  /** `generateGrid`: five rows of five empty cells. */
  function GenerateGrid(): (g: Grid)
    ensures |g| == Size && forall r :: 0 <= r < Size ==> |g[r]| == Size
    ensures forall r, c :: 0 <= r < Size && 0 <= c < Size ==> g[r][c] == ""
    ensures IsBlank(g)
  {
    seq(Size, r => seq(Size, c => ""))
  }

  /** `generateClues`: no clue, whatever the grid. */
  function GenerateClues(g: Grid): (clues: seq<string>)
    ensures |clues| == 0
  {
    []
  }

  /** `checkGrid`: every cell within the stored grid's dimensions must be
      identical, case included; a missing submitted cell reads as "". */
  predicate CheckGrid(submitted: Grid, solution: Grid) {
    forall r, c :: 0 <= r < |solution| && 0 <= c < |solution[r]| ==> CellAt(submitted, r, c) == solution[r][c]
  }

  /** The strict comparison accepts only what the API comparison accepts,
      as long as the solution has no lower-case letter cell. */
  lemma {:induction false} StrictImpliesLenient(submitted: Grid, solution: Grid)
    requires forall r, c, k :: 0 <= r < |solution| && 0 <= c < |solution[r]| && 0 <= k < |solution[r][c]| ==>
               !IsLowerAscii(solution[r][c][k])
    requires CheckGrid(submitted, solution)
    ensures Matches(submitted, solution)
  {
    forall r, c | 0 <= r < |solution| && 0 <= c < |solution[r]|
      ensures CellMatches(CellAt(submitted, r, c), solution[r][c])
    {
      ToUpperIdempotent(solution[r][c]);
    }
  }

  /** Unlike the API comparison, the strict one is case-sensitive: "a"
      against "A" fails here and passes there. */
  lemma StrictIsCaseSensitive()
    ensures !CheckGrid([["a"]], [["A"]])
    ensures Matches([["a"]], [["A"]])
  {
    assert CellAt([["a"]], 0, 0) == "a";
    assert ToUpper("a") == "A" by {
      assert ToUpper("a")[0] == 'A';
    }
  }

  datatype LegacyResponse = LegacyResponse(id: string, grid: Grid, clues: seq<string>)

  /** The legacy `new`: stores and returns the blank grid and no clue. */
  function LegacyNew(store: SessionStore.Store<LegacyGame>, token: string, now: int)
    : (res: (SessionStore.Store<LegacyGame>, LegacyResponse))
    ensures res.1.id == token && res.1.grid == GenerateGrid() && res.1.clues == []
    ensures res.0 == SessionStore.Put(store, token, LegacyGame(token, GenerateGrid(), [], now))
  {
    var grid := GenerateGrid();
    var clues := GenerateClues(grid);
    (SessionStore.Put(store, token, LegacyGame(token, grid, clues, now)), LegacyResponse(token, grid, clues))
  }

  /** The legacy `validateGrid`: not-found for an unknown id, otherwise the
      strict comparison against the stored grid. A missing grid reads as
      having no cells. */
  function LegacyValidate(store: SessionStore.Store<LegacyGame>, id: string, grid: Option<Grid>): (res: Option<bool>)
    ensures res.None? <==> id !in store
    ensures res.Some? ==> (res.value <==> CheckGrid(grid.OrElse([]), store[id].grid))
  {
    if id !in store then None else Some(CheckGrid(grid.OrElse([]), store[id].grid))
  }

  /** Since the stored "solution" is the blank grid itself, an all-blank
      5x5 submission, or no grid at all, is reported correct, and any
      letter in it is reported wrong. */
  lemma {:induction false} BlankSubmissionCorrect(store: SessionStore.Store<LegacyGame>, token: string, now: int, grid: Grid)
    requires |grid| == Size && forall r :: 0 <= r < Size ==> |grid[r]| == Size
    ensures var store' := LegacyNew(store, token, now).0;
            && LegacyValidate(store', token, None) == Some(true)
            && (LegacyValidate(store', token, Some(grid)) == Some(true) <==>
                  forall r, c :: 0 <= r < Size && 0 <= c < Size ==> grid[r][c] == "")
  {
    var store' := LegacyNew(store, token, now).0;
    var g := GenerateGrid();
    assert store'[token].grid == g;
    if CheckGrid(grid, g) {
      forall r, c | 0 <= r < Size && 0 <= c < Size ensures grid[r][c] == "" {
        assert CellAt(grid, r, c) == g[r][c];
      }
    }
  }
}
