/** The crossword API controller: the grid bank filtered by level, the
    blank player grid, the lenient comparison and the session endpoints. */
module Crossword {
  import opened Wrappers
  import opened Text
  import SessionStore

  type Grid = seq<seq<string>>

  /** One direction of a clue: where the arrow points and the definition. */
  datatype Direction = Direction(dir: string, text: string)

  /** A clue cell's entry: its number and, when present, its directions. */
  datatype ClueEntry = ClueEntry(number: int, directions: Option<seq<Direction>>)

  /** Clue entries keyed by the flat index of their cell. */
  type ClueMap = map<int, ClueEntry>

  /** A black cell `$` or a clue cell `#`: both are kept in the player grid
      and must be submitted unchanged. */
  predicate IsStructural(cell: string) {
    cell == "$" || cell == "#"
  }

  // ---------------------------------------------------------------------
  // The player grid

  function EmptyCell(cell: string): (r: string)
    ensures IsStructural(cell) ==> r == cell
    ensures !IsStructural(cell) ==> r == ""
  {
    if cell == "$" then "$" else if cell == "#" then "#" else ""
  }

  /** `emptyGrid`: same shape, `$` and `#` in place, every other cell "". */
  function EmptyGrid(g: Grid): (r: Grid)
    ensures |r| == |g|
    ensures forall i :: 0 <= i < |g| ==> |r[i]| == |g[i]|
    ensures forall i, j :: 0 <= i < |g| && 0 <= j < |g[i]| ==>
              (IsStructural(g[i][j]) ==> r[i][j] == g[i][j]) && (!IsStructural(g[i][j]) ==> r[i][j] == "")
  {
    seq(|g|, i requires 0 <= i < |g| => seq(|g[i]|, j requires 0 <= j < |g[i]| => EmptyCell(g[i][j])))
  }

  /** A grid that shows no letter: every cell is `$`, `#` or "". */
  predicate IsBlank(g: Grid) {
    forall i, j :: 0 <= i < |g| && 0 <= j < |g[i]| ==> IsStructural(g[i][j]) || g[i][j] == ""
  }

  /** The player grid shows no letter, and blanking it again changes
      nothing. */
  lemma {:induction false} EmptyGridIsBlank(g: Grid)
    ensures IsBlank(EmptyGrid(g))
    ensures EmptyGrid(EmptyGrid(g)) == EmptyGrid(g)
    ensures IsBlank(g) <==> EmptyGrid(g) == g
  {
    var e := EmptyGrid(g);
    assert forall i :: 0 <= i < |g| ==> EmptyGrid(e)[i] == e[i];
    if IsBlank(g) {
      assert forall i :: 0 <= i < |g| ==> e[i] == g[i];
    }
  }

  // ---------------------------------------------------------------------
  // Comparison

  /** `$grid[$r][$c] ?? ''`: a missing row or cell reads as "". */
  function CellAt(g: Grid, r: nat, c: nat): string {
    if r < |g| && c < |g[r]| then g[r][c] else ""
  }

  /** One cell of `equalGrids`: structural cells exactly, letters after
      upper-casing the submitted text. */
  predicate CellMatches(submitted: string, solution: string) {
    if IsStructural(solution) then submitted == solution else ToUpper(submitted) == solution
  }

  /** Every cell within the solution's dimensions matches. */
  predicate Matches(user: Grid, solution: Grid) {
    forall r, c :: 0 <= r < |solution| && 0 <= c < |solution[r]| ==> CellMatches(CellAt(user, r, c), solution[r][c])
  }

  /** `equalGrids`: walks the solution row by row and stops at the first
      cell that does not match. */
  method EqualGrids(user: Grid, solution: Grid) returns (eq: bool)
    ensures eq <==> Matches(user, solution)
  {
    var r := 0;
    while r < |solution|
      invariant 0 <= r <= |solution|
      invariant forall r', c :: 0 <= r' < r && 0 <= c < |solution[r']| ==> CellMatches(CellAt(user, r', c), solution[r'][c])
    {
      var c := 0;
      while c < |solution[r]|
        invariant 0 <= c <= |solution[r]|
        invariant forall c' :: 0 <= c' < c ==> CellMatches(CellAt(user, r, c'), solution[r][c'])
      {
        var sol := solution[r][c];
        var usr := CellAt(user, r, c);
        if sol == "$" || sol == "#" {
          if usr != sol {
            return false;
          }
        } else if ToUpper(usr) != sol {
          return false;
        }
        c := c + 1;
      }
      r := r + 1;
    }
    return true;
  }

  function UpperGrid(g: Grid): (r: Grid)
    ensures |r| == |g| && forall i :: 0 <= i < |g| ==> |r[i]| == |g[i]|
    ensures forall i, j :: 0 <= i < |g| && 0 <= j < |g[i]| ==> r[i][j] == ToUpper(g[i][j])
  {
    seq(|g|, i requires 0 <= i < |g| => seq(|g[i]|, j requires 0 <= j < |g[i]| => ToUpper(g[i][j])))
  }

  /** Case does not matter: upper-casing the whole submission never changes
      the verdict. */
  lemma {:induction false} CaseInsensitive(user: Grid, solution: Grid)
    ensures Matches(UpperGrid(user), solution) <==> Matches(user, solution)
  {
    var up := UpperGrid(user);
    forall r, c | 0 <= r < |solution| && 0 <= c < |solution[r]|
      ensures CellMatches(CellAt(up, r, c), solution[r][c]) <==> CellMatches(CellAt(user, r, c), solution[r][c])
    {
      var u := CellAt(user, r, c);
      assert CellAt(up, r, c) == ToUpper(u);
      ToUpperIdempotent(u);
      StructuralUpper(u);
    }
  }

  /** Upper-casing neither creates nor removes a `$` or a `#`. */
  lemma {:induction false} StructuralUpper(s: string)
    ensures ToUpper(s) == "$" <==> s == "$"
    ensures ToUpper(s) == "#" <==> s == "#"
  {
    if ToUpper(s) == "$" || ToUpper(s) == "#" {
      assert |s| == 1;
      assert s[0] == ToUpper(s)[0];
    }
  }

  /** A solution letter cell holding a lower-case ASCII letter can never be
      matched, since upper-casing leaves none. */
  lemma {:induction false} LowercaseSolutionUnmatchable(user: Grid, solution: Grid, r: nat, c: nat, k: nat)
    requires r < |solution| && c < |solution[r]| && k < |solution[r][c]|
    requires IsLowerAscii(solution[r][c][k])
    ensures !Matches(user, solution)
  {
    var s := solution[r][c];
    var u := ToUpper(CellAt(user, r, c));
    if |u| == |s| {
      assert !IsLowerAscii(u[k]);
    }
  }

  /** Only the solution's rows and columns are read: appending rows to the
      submission or cells to its rows never changes the verdict. */
  lemma {:induction false} ExtraCellsIgnored(user: Grid, longer: Grid, solution: Grid)
    requires |user| <= |longer|
    requires forall r :: 0 <= r < |user| ==> |user[r]| <= |longer[r]| && longer[r][..|user[r]|] == user[r]
    requires |longer| > |user| ==> |user| >= |solution|
    requires forall r :: 0 <= r < |user| && r < |solution| ==> |user[r]| >= |solution[r]|
    ensures Matches(longer, solution) <==> Matches(user, solution)
  {
    forall r, c | 0 <= r < |solution| && 0 <= c < |solution[r]|
      ensures CellAt(longer, r, c) == CellAt(user, r, c)
    {
      if r < |user| {
        assert longer[r][..|user[r]|][c] == longer[r][c];
      }
    }
  }

  /** The blank player grid is accepted exactly when every letter cell of
      the solution is itself blank. */
  lemma {:induction false} EmptyGridMatches(solution: Grid)
    ensures Matches(EmptyGrid(solution), solution) <==> IsBlank(solution)
  {
    var e := EmptyGrid(solution);
    if Matches(e, solution) {
      forall i, j | 0 <= i < |solution| && 0 <= j < |solution[i]|
        ensures IsStructural(solution[i][j]) || solution[i][j] == ""
      {
        assert CellMatches(CellAt(e, i, j), solution[i][j]);
        assert CellAt(e, i, j) == EmptyCell(solution[i][j]);
      }
    }
    if IsBlank(solution) {
      forall i, j | 0 <= i < |solution| && 0 <= j < |solution[i]|
        ensures CellMatches(CellAt(e, i, j), solution[i][j])
      {
        assert CellAt(e, i, j) == EmptyCell(solution[i][j]);
        assert ToUpper("") == "";
      }
    }
  }

  // ---------------------------------------------------------------------
  // The grid bank

  /** One entry of the grids file; each field may be absent. */
  datatype BankEntry = BankEntry(
    level: Option<string>,
    grid: Option<Grid>,
    solution: Option<Grid>,
    clueMap: Option<ClueMap>)

  /** What reading the grids file gives: no file, something that is not a
      JSON array, or the list of entries. */
  datatype BankFile = NoFile | InvalidJson | Entries(entries: seq<BankEntry>)

  /** The level filter: entries whose `Level` is set and equal to `level`,
      in bank order. */
  function ByLevel(bank: seq<BankEntry>, level: string): (r: seq<BankEntry>)
    ensures |r| <= |bank|
    ensures forall e :: e in r <==> e in bank && e.level == Some(level)
  {
    if |bank| == 0 then []
    else
      var rest := ByLevel(bank[1..], level);
      if bank[0].level == Some(level) then [bank[0]] + rest else rest
  }

  /** The filter keeps bank order: filtering a concatenation concatenates
      the filtered parts. */
  lemma {:induction false} ByLevelAppend(a: seq<BankEntry>, b: seq<BankEntry>, level: string)
    ensures ByLevel(a + b, level) == ByLevel(a, level) + ByLevel(b, level)
  {
    if |a| > 0 {
      ByLevelAppend(a[1..], b, level);
      assert (a + b)[1..] == a[1..] + b;
    } else {
      assert a + b == b;
    }
  }

  /** A stored crossword session. */
  datatype Game = Game(id: string, grid: Grid, solution: Option<Grid>, clueMap: ClueMap, level: string, created: int)

  datatype NewResponse = NewResponse(id: string, grid: Grid, clueMap: ClueMap, solution: Grid, level: string)

  datatype Error =
    | GridsNotFound      // 404: no grids file
    | InvalidBank        // 500: the grids file is not a JSON array
    | NoGridForLevel     // 404: no entry has the level
    | GridDataMissing    // 500: the chosen entry lacks `grid` or `solution`
    | InvalidRequest     // 400: `id` or `grid` missing or falsy
    | GameNotFound       // 404: no session under the id
    | InvalidGameData    // 500: the session has no solution

  /** `new`: the level defaults to "simple" when missing or falsy; one of
      the matching entries is chosen (`choice` stands for `array_rand`);
      an entry without `grid` or `solution` is an error; otherwise the
      session keeps the blank grid, the solution and the clue map (empty
      when absent), and the response carries all three. */
  function New(store: SessionStore.Store<Game>, bank: BankFile, level: Option<string>, choice: nat,
               token: string, now: int)
    : (res: Result<(SessionStore.Store<Game>, NewResponse), Error>)
    ensures bank.NoFile? <==> res == Err(GridsNotFound)
    ensures bank.InvalidJson? <==> res == Err(InvalidBank)
    ensures res == Err(NoGridForLevel) <==>
              bank.Entries? && forall e :: e in bank.entries ==> e.level != Some(PhpElvis(level, "simple"))
    ensures bank.Entries? && |ByLevel(bank.entries, PhpElvis(level, "simple"))| > 0 ==>
              var c := ByLevel(bank.entries, PhpElvis(level, "simple"));
              var e := c[choice % |c|];
              && e in bank.entries && e.level == Some(PhpElvis(level, "simple"))
              && (res == Err(GridDataMissing) <==> e.grid.None? || e.solution.None?)
              && (res.Ok? ==> && res.value.1.grid == EmptyGrid(e.grid.value)
                              && res.value.1.solution == e.solution.value
                              && res.value.1.clueMap == e.clueMap.OrElse(map[]))
    ensures res.Err? ==> res.error in {GridsNotFound, InvalidBank, NoGridForLevel, GridDataMissing}
    ensures res.Ok? ==>
              var (store', resp) := res.value;
              && bank.Entries?
              && resp.level == PhpElvis(level, "simple")
              && resp.id == token
              && store' == SessionStore.Put(store, token, Game(token, resp.grid, Some(resp.solution), resp.clueMap, resp.level, now))
  {
    var lvl := PhpElvis(level, "simple");
    match bank
    case NoFile => Err(GridsNotFound)
    case InvalidJson => Err(InvalidBank)
    case Entries(entries) =>
      var candidates := ByLevel(entries, lvl);
      if |candidates| == 0 then
        Err(NoGridForLevel)
      else
        var entry := candidates[choice % |candidates|];
        assert entry in candidates;
        if entry.grid.None? || entry.solution.None? then Err(GridDataMissing)
        else
          var blank := EmptyGrid(entry.grid.value);
          var clues := entry.clueMap.OrElse(map[]);
          var store' := SessionStore.Put(store, token, Game(token, blank, entry.solution, clues, lvl, now));
          Ok((store', NewResponse(token, blank, clues, entry.solution.value, lvl)))
  }

  /** `validateGrid`: a missing or falsy id or grid is an invalid request,
      then the session must exist and hold a solution. */
  function ValidateGrid(store: SessionStore.Store<Game>, id: Option<string>, grid: Option<Grid>): (res: Result<bool, Error>)
    ensures res == Err(InvalidRequest) <==> id.None? || !PhpTruthy(id.value) || grid.None? || grid.value == []
    ensures res == Err(GameNotFound) <==>
              id.Some? && PhpTruthy(id.value) && grid.Some? && grid.value != [] && id.value !in store
    ensures res.Ok? ==> id.Some? && id.value in store && store[id.value].solution.Some?
                        && (res.value <==> Matches(grid.value, store[id.value].solution.value))
    ensures res.Err? ==> res.error in {InvalidRequest, GameNotFound, InvalidGameData}
  {
    if id.None? || !PhpTruthy(id.value) || grid.None? || grid.value == [] then Err(InvalidRequest)
    else if id.value !in store then Err(GameNotFound)
    else
      match store[id.value].solution
      case None => Err(InvalidGameData)
      case Some(solution) => Ok(Matches(grid.value, solution))
  }

  /** `solve`: the stored solution as it is (null when the session has
      none), or not-found. */
  function Solve(store: SessionStore.Store<Game>, id: string): (res: Result<Option<Grid>, Error>)
    ensures res.Err? <==> id !in store
    ensures res.Err? ==> res.error == GameNotFound
    ensures res.Ok? ==> res.value == store[id].solution
  {
    if id !in store then Err(GameNotFound) else Ok(store[id].solution)
  }

  /** A fresh game accepts every submission whose upper-cased cells spell
      its solution, so letters may be typed in either case; when the bank's
      solution is written in upper case that includes the solution itself.
      The solution with its letters blanked out is accepted only when the
      solution has no letter, and `solve` returns the solution. */
  lemma {:induction false} NewThenValidate(store: SessionStore.Store<Game>, bank: BankFile, level: Option<string>, choice: nat,
                        token: string, now: int)
    requires PhpTruthy(token)
    requires var res := New(store, bank, level, choice, token, now);
             res.Ok? && res.value.1.solution != []
    ensures var (store', resp) := New(store, bank, level, choice, token, now).value;
            && (forall user :: UpperGrid(user) == resp.solution ==> ValidateGrid(store', Some(token), Some(user)) == Ok(true))
            && (UpperOnly(resp.solution) ==> ValidateGrid(store', Some(token), Some(resp.solution)) == Ok(true))
            && ValidateGrid(store', Some(token), Some(EmptyGrid(resp.solution))) == Ok(IsBlank(resp.solution))
            && Solve(store', token) == Ok(Some(resp.solution))
  {
    var (store', resp) := New(store, bank, level, choice, token, now).value;
    forall user | UpperGrid(user) == resp.solution
      ensures ValidateGrid(store', Some(token), Some(user)) == Ok(true)
    {
      UpperCasedMatches(user, resp.solution);
    }
    if UpperOnly(resp.solution) {
      SolutionMatchesItself(resp.solution);
    }
    assert EmptyGrid(resp.solution) != [];
    EmptyGridMatches(resp.solution);
  }

  /** No cell of the grid holds a lower-case ASCII letter. */
  predicate UpperOnly(g: Grid) {
    forall i, j, k :: 0 <= i < |g| && 0 <= j < |g[i]| && 0 <= k < |g[i][j]| ==> !IsLowerAscii(g[i][j][k])
  }

  /** A submission whose upper-cased cells are exactly the solution's is
      accepted. */
  lemma {:induction false} UpperCasedMatches(user: Grid, solution: Grid)
    requires UpperGrid(user) == solution
    ensures Matches(user, solution)
  {
    forall r, c | 0 <= r < |solution| && 0 <= c < |solution[r]|
      ensures CellMatches(CellAt(user, r, c), solution[r][c])
    {
      assert CellAt(user, r, c) == user[r][c];
      assert ToUpper(user[r][c]) == solution[r][c];
      StructuralUpper(user[r][c]);
    }
  }

  /** A solution without lower-case letters accepts itself. */
  lemma {:induction false} SolutionMatchesItself(solution: Grid)
    requires UpperOnly(solution)
    ensures Matches(solution, solution)
  {
    forall r, c | 0 <= r < |solution| && 0 <= c < |solution[r]|
      ensures CellMatches(CellAt(solution, r, c), solution[r][c])
    {
      ToUpperIdempotent(solution[r][c]);
    }
  }
}
