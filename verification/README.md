# Sudoku, crossword and score ledger: a verified model

This project models the game core of a small puzzle site with a Laravel back
end and a React front end. The core has three parts.

- **Sudoku.** The API controller builds a solved board from a fixed base
  board with three validity-preserving shuffles. It then blanks a
  difficulty-dependent number of cells, and serves validate and solve over
  session files. The older web controller shuffles the nine rows freely
  instead. The Sudoku page checks moves and boards, and runs the score,
  penalty, bonus and clock state machine.
- **Crosswords.** The API controller picks a grid of the requested level
  from the grid bank. It hands the player a blank grid that keeps black
  (`$`) and clue (`#`) cells, and compares submissions leniently: letters
  are upper-cased, structural cells must match exactly. The older
  controller serves a blank 5x5 grid and compares strictly. The arrow-word
  page lays out a fixed 10x10 board and builds its definitions panel from
  the clue map.
- **Scores.** `saveScore` appends a row to the score table and keeps one
  flagged highscore per (user, game, difficulty) bucket. The leaderboard
  lists the flagged rows in order, `myRank` counts the rows ahead of a
  player, and the profile endpoint and page show best scores and history.

Randomness is passed in explicitly:
- `shuffle` becomes a permutation argument with an "is a permutation"
  precondition;
- `array_rand` becomes a choice index;
- `Str::random` becomes a token argument.

The session disk becomes a map from token to record (module `SessionStore`).
The score table becomes a sequence of rows with auto-increment ids.

Modules, one per file:

| module | file |
|---|---|
| `SudokuRules` | `sudoku_rules.dfy` |
| `SudokuGenerator` | `sudoku_generator.dfy` |
| `LegacySudoku` | `sudoku_legacy.dfy` |
| `SudokuPlay` | `sudoku_play.dfy` |
| `Crossword` | `crossword.dfy` |
| `LegacyCrossword` | `crossword_legacy.dfy` |
| `MotsFleches` | `mots_fleches.dfy` |
| `ScoreLedger` | `score_ledger.dfy` |
| `Leaderboard` | `leaderboard.dfy` |
| `Profile` | `profile.dfy` |
| `ProfilePage` | `profile_page.dfy` |

`Text`, `Seqs` and `Wrappers` are shared helpers.

Main results:
- `SudokuGenerator.SolvedBoard`: every board the API generator can produce
  passes the page's `isBoardValid`.
- `SudokuRules.SolvedIffSolution`: passing `isBoardValid` is the textbook
  definition of a solved Sudoku.
- `LegacySudoku.LegacyBoxesCanRepeat`: the legacy generator can produce a
  board that `isBoardValid` rejects.
- `ScoreLedger.SaveKeepsBucketsSound`: every submission preserves the
  one-flag-per-bucket invariant, and the flagged row holds the bucket's
  best score.
- `Leaderboard.MyRankAgreesWithTop`: `myRank` reports the rank the Top-N
  shows.

A few behaviours of the code worth knowing when reading the model:
- Storing a session under a token that already exists overwrites the old
  session. Nothing retries.
- The crossword API's `new` returns the solution alongside the blank grid.
- A submitted grid of the wrong shape is not an error. Missing cells read
  as 0 (Sudoku) or "" (crossword), and extra cells are ignored.
- `saveScore` runs without a transaction.

The older Sudoku controller's `removeCells`, `equalGrids`, `validateGrid`
and `solve` (back/app/Http/Controllers/Sudoku/SudokuController.php:39-58
and 79-100) are the same code as the API controller's. They are modelled
once, by `SudokuGenerator.RemoveCells`, `SudokuGenerator.EqualGrids`,
`SudokuGenerator.ValidateGrid` and `SudokuGenerator.Solve`, and
`LegacySudoku.LegacyNew` reuses the carving.

## Model

| member | source | states |
|---|---|---|
| SudokuRules.IsValidMove | front/src/pages/Sudoku.jsx:42-55 | true exactly when the value occurs at no other cell of the row, the column or the 3x3 box of (row, col) |
| SudokuRules.IsBoardValid | front/src/pages/Sudoku.jsx:57-66 | true exactly when every cell is filled and no two peers (same row, column or box) hold the same value |
| SudokuRules.SolvedUnitsDistinct | front/src/pages/Sudoku.jsx:57-66 | on a board `isBoardValid` accepts, no row, column or box repeats a value |
| SudokuRules.SolvedIsSolution | front/src/pages/Sudoku.jsx:57-66 | a board of digits that `isBoardValid` accepts holds 1..9 in every row, column and box |
| SudokuRules.SolutionIsSolved | front/src/pages/Sudoku.jsx:57-66 | a board with 1..9 in every row, column and box is accepted by `isBoardValid` |
| SudokuRules.SolutionPeersDiffer | front/src/pages/Sudoku.jsx:42-55 | in a textbook solution no cell's value occurs at one of its peers, so every move of it is valid |
| SudokuRules.SolvedIffSolution | front/src/pages/Sudoku.jsx:57-66 | for boards of 0..9, `isBoardValid` accepts exactly the textbook solved Sudokus |
| SudokuGenerator.BaseCells | back/app/Http/Controllers/api/SudokuController.php:65-75 | the base board is 9x9 and its row r is 1..9 rotated left by 3(r mod 3) + r div 3 |
| SudokuGenerator.BasePeersDiffer | back/app/Http/Controllers/api/SudokuController.php:65-75 | two peers of the base board get different digits |
| SudokuGenerator.BaseIsSolved | back/app/Http/Controllers/api/SudokuController.php:65-75 | the base board passes `isBoardValid` and holds digits only |
| SudokuGenerator.Source | back/app/Http/Controllers/api/SudokuController.php:78-84 | a shuffled row (or column) comes from the same band (or block) it lands in |
| SudokuGenerator.SourceInjective | back/app/Http/Controllers/api/SudokuController.php:78-84 | the in-band shuffle sends distinct lines to distinct lines |
| SudokuGenerator.ShuffleRows | back/app/Http/Controllers/api/SudokuController.php:78-84 | the row shuffle keeps a 9x9 board and moves each row only within its own band |
| SudokuGenerator.ShuffleCols | back/app/Http/Controllers/api/SudokuController.php:87-95 | column i of the result is the old column from the same block, moved identically in every row |
| SudokuGenerator.ShuffleRow | back/app/Http/Controllers/api/SudokuController.php:87-95 | one row after the column shuffle: cell c comes from the chosen column of c's block |
| SudokuGenerator.ColOfShuffled | back/app/Http/Controllers/api/SudokuController.php:87-95 | a board built cell by cell from the column shuffle has the old columns in shuffled places |
| SudokuGenerator.Relabel | back/app/Http/Controllers/api/SudokuController.php:98-104 | relabelling by a permutation of 1..9 keeps every cell a digit, and two cells are equal after it exactly when they were equal before |
| SudokuGenerator.ShuffleRowsKeepsSolved | back/app/Http/Controllers/api/SudokuController.php:78-84 | reordering rows within bands keeps a board that passes `isBoardValid` passing |
| SudokuGenerator.ShuffleColsKeepsSolved | back/app/Http/Controllers/api/SudokuController.php:87-95 | reordering columns within blocks keeps a board that passes `isBoardValid` passing |
| SudokuGenerator.SolvedBoard | back/app/Http/Controllers/api/SudokuController.php:63-107 | for every choice of the three shuffles, the generated board passes `isBoardValid` and holds 1..9 in every row, column and box |
| SudokuGenerator.BlankCount | back/app/Http/Controllers/api/SudokuController.php:19-24 | easy 35, medium 45, hard 55, and 45 for any other label |
| SudokuGenerator.RemoveCells | back/app/Http/Controllers/api/SudokuController.php:110-122 | the cells at the first `count` shuffled positions are 0; every other cell is the solution's |
| SudokuGenerator.RemoveCellsBlanksCount | back/app/Http/Controllers/api/SudokuController.php:110-122 | on a filled board exactly `count` distinct cells are blanked, namely the first `count` shuffled positions |
| SudokuGenerator.EqualGrids | back/app/Http/Controllers/api/SudokuController.php:125-132 | true exactly when all 81 cells agree, a cell missing from the submission reading as 0 |
| SudokuGenerator.Padded | back/app/Http/Controllers/api/SudokuController.php:125-132 | the submission as the comparison reads it: 9x9 with missing cells 0 |
| SudokuGenerator.MatchesPadded | back/app/Http/Controllers/api/SudokuController.php:125-132 | a board matches itself, and a submission matches exactly when its zero-padded 9x9 reading equals the solution |
| SudokuGenerator.PuzzleDoesNotMatch | back/app/Http/Controllers/api/SudokuController.php:110-132 | a puzzle with at least one blank never compares equal to its solution |
| SudokuGenerator.New | back/app/Http/Controllers/api/SudokuController.php:13-36 | the stored solution is a valid Sudoku; the returned puzzle is stored with it, agrees with it on every non-blank cell and has exactly the level's number of blanks (level "easy" when absent), namely the first cells of the shuffled positions; the sessions under other tokens are left as they were |
| SudokuGenerator.ValidateGrid | back/app/Http/Controllers/api/SudokuController.php:39-52 | not found when no file or no solution is stored under the id; otherwise whether the submission matches the solution |
| SudokuGenerator.Solve | back/app/Http/Controllers/api/SudokuController.php:54-60 | not found for an unknown id; otherwise the stored solution verbatim |
| SudokuGenerator.NewThenValidate | back/app/Http/Controllers/api/SudokuController.php:13-60 | after `new`, `solve` finds the game, its solution validates as correct and the untouched puzzle as incorrect |
| LegacySudoku.LegacySolvedBoard | back/app/Http/Controllers/Sudoku/SudokuController.php:61-76 | the legacy board is a rearrangement of the nine base rows, each used once |
| LegacySudoku.LegacyRowsAndColumns | back/app/Http/Controllers/Sudoku/SudokuController.php:61-76 | whatever the row shuffle, every row and column of the legacy board holds 1..9 |
| LegacySudoku.LegacyBoxesCanRepeat | back/app/Http/Controllers/Sudoku/SudokuController.php:74 | the shuffle that swaps rows 0 and 3 gives a board that `isBoardValid` rejects and whose boxes are not all 1..9 |
| LegacySudoku.LegacyNew | back/app/Http/Controllers/Sudoku/SudokuController.php:13-36 | the legacy `new` stores the row-shuffled base board and a puzzle agreeing with it on non-blank cells, blanking exactly the first cells of the shuffled positions, as many as the API's level map gives; the sessions under other tokens are left as they were |
| SudokuPlay.StartNewGame | front/src/pages/Sudoku.jsx:68-79 | a new game is playing with 600 seconds, no penalty, no bonus and no cell paid yet, and meets the state invariant |
| SudokuPlay.CurrentScore | front/src/pages/Sudoku.jsx:27-28 | the live score is never negative, and it is time score minus penalty plus bonus unless that is negative, in which case it is 0 |
| SudokuPlay.PenaltyFor | front/src/pages/Sudoku.jsx:129 | a mistake costs 200 on hard, 100 on medium and 50 on any other level |
| SudokuPlay.FilledAllIffComplete | front/src/pages/Sudoku.jsx:146-147 | the page's count of non-zero cells reaches 81 exactly when no cell is empty |
| SudokuPlay.SetCell | front/src/pages/Sudoku.jsx:120 | writing a cell changes that cell and nothing else |
| SudokuPlay.HandleChange | front/src/pages/Sudoku.jsx:116-150 | ignored unless playing and for input outside "" and 1..9; clearing writes 0 only; a clash adds the level's penalty, a clash-free move pays 50 only for a cell not yet paid; the value is written either way; paid flags never drop; the game becomes won exactly when a number in 1..9 completes a valid board; the invariant holds |
| SudokuPlay.FlagSet | front/src/pages/Sudoku.jsx:134-141 | paying a new cell raises the paid-cell count by exactly one |
| SudokuPlay.BonusBounded | front/src/pages/Sudoku.jsx:134-141 | the bonus is never more than 50 x 81 |
| SudokuPlay.Tick | front/src/pages/Sudoku.jsx:108-111 | one second of countdown: one less, never below 0 |
| SudokuPlay.TicksSaturate | front/src/pages/Sudoku.jsx:105-114 | after n seconds the clock shows max(0, t - n) |
| SudokuPlay.TimerTick | front/src/pages/Sudoku.jsx:105-114 | while playing the clock drops by one second and stops at 0; otherwise nothing changes; nothing but the clock changes, and the invariant holds |
| SudokuPlay.Settle | front/src/pages/Sudoku.jsx:30-40 | a finished game stays finished; at time 0 a playing game is lost on time, even with no points left; it is lost on score exactly when the score is 0 with time left |
| SudokuPlay.Reveal | front/src/pages/Sudoku.jsx:152-164 | revealing installs the solution, marks the game solved by the bot and sets the penalty to 10000, which drives the score to 0; no answer leaves the state alone |
| SudokuPlay.FormatTime | front/src/pages/Sudoku.jsx:166-170 | `m:ss` with a two-digit seconds part below 60, where 60 m + ss is the input |
| SudokuPlay.TwoDigits | front/src/pages/Sudoku.jsx:169 | the seconds are printed as exactly two digits that read back as the number |
| Text.NatToString | front/src/pages/Sudoku.jsx:169 | the decimal numeral of a number, read back as that number, one digit below 10 and two below 100 |
| Crossword.EmptyCell | back/app/Http/Controllers/api/CrosswordController.php:158-161 | `$` and `#` are kept; any other cell becomes "" |
| Crossword.EmptyGrid | back/app/Http/Controllers/api/CrosswordController.php:155-164 | same shape; every `$` and `#` kept in place; every other cell "" |
| Crossword.EmptyGridIsBlank | back/app/Http/Controllers/api/CrosswordController.php:155-164 | the player grid shows no letter, blanking is idempotent, and a grid is left unchanged exactly when it is already blank |
| Crossword.EqualGrids | back/app/Http/Controllers/api/CrosswordController.php:171-192 | true exactly when every solution cell is matched: `$` and `#` identically, letters after upper-casing the submitted text, missing cells reading "" |
| Crossword.UpperGrid | back/app/Http/Controllers/api/CrosswordController.php:186 | the whole submission upper-cased cell by cell, shape kept |
| Crossword.CaseInsensitive | back/app/Http/Controllers/api/CrosswordController.php:186 | upper-casing the submission first never changes the verdict, so lower-case input matches |
| Crossword.StructuralUpper | back/app/Http/Controllers/api/CrosswordController.php:180-186 | upper-casing neither creates nor removes a `$` or a `#` |
| Crossword.LowercaseSolutionUnmatchable | back/app/Http/Controllers/api/CrosswordController.php:186-188 | a solution letter cell with a lower-case ASCII letter can never be matched |
| Crossword.ExtraCellsIgnored | back/app/Http/Controllers/api/CrosswordController.php:173-177 | rows or cells beyond the solution's dimensions never change the verdict |
| Crossword.EmptyGridMatches | back/app/Http/Controllers/api/CrosswordController.php:155-192 | the blank player grid is accepted exactly when the solution has no letter |
| Crossword.ByLevel | back/app/Http/Controllers/api/CrosswordController.php:36-38 | the entries kept are exactly those whose `Level` is set and equal to the level |
| Crossword.ByLevelAppend | back/app/Http/Controllers/api/CrosswordController.php:36-38 | the filter keeps bank order |
| Crossword.New | back/app/Http/Controllers/api/CrosswordController.php:17-81 | no file gives 404 and a non-array file 500; no entry of the level (default "simple" when missing or falsy) gives 404; otherwise the chosen entry of that level decides: it lacks `grid` or `solution` exactly when the answer is a 500, and on success the response carries its blank grid, its solution and its clue map (empty when absent), and the same game is stored under the token; no other error occurs |
| Crossword.ValidateGrid | back/app/Http/Controllers/api/CrosswordController.php:86-113 | a missing or falsy id or grid is an invalid request; an unknown id is not found; otherwise the verdict is the comparison with the stored solution |
| Crossword.Solve | back/app/Http/Controllers/api/CrosswordController.php:118-132 | not found for an unknown id; otherwise the stored solution as it is |
| Crossword.NewThenValidate | back/app/Http/Controllers/api/CrosswordController.php:17-132 | after `new`, every submission whose upper-cased cells spell the solution is correct, so is the solution itself when written in upper case, the solution with its letters blanked is correct exactly when it has no letter, and `solve` returns the echoed solution |
| Crossword.UpperCasedMatches | back/app/Http/Controllers/api/CrosswordController.php:171-192 | a submission whose upper-cased cells are exactly the solution's is accepted, whatever case it was typed in |
| Crossword.SolutionMatchesItself | back/app/Http/Controllers/api/CrosswordController.php:171-192 | a solution without lower-case letters accepts itself |
| Text.PhpElvis | back/app/Http/Controllers/api/CrosswordController.php:19 | a given truthy string is kept; an absent, "" or "0" one gives the default |
| Text.ToUpper | back/app/Http/Controllers/api/CrosswordController.php:186 | same length, no lower-case ASCII letter left, each character kept or its ASCII upper case |
| Text.ToUpperIdempotent | back/app/Http/Controllers/api/CrosswordController.php:186 | upper-casing twice is upper-casing once; text without lower-case letters is unchanged |
| LegacyCrossword.GenerateGrid | back/app/Http/Controllers/CrosswordController.php:46-50 | five rows of five "" cells |
| LegacyCrossword.GenerateClues | back/app/Http/Controllers/CrosswordController.php:52-56 | no clue for any grid |
| LegacyCrossword.StrictImpliesLenient | back/app/Http/Controllers/CrosswordController.php:58-66 | what the strict comparison accepts the API comparison accepts too, when the solution has no lower-case letter |
| LegacyCrossword.StrictIsCaseSensitive | back/app/Http/Controllers/CrosswordController.php:58-66 | "a" against "A" fails the strict comparison and passes the API one |
| LegacyCrossword.LegacyNew | back/app/Http/Controllers/CrosswordController.php:12-31 | the blank 5x5 grid and no clue are stored under the token and returned |
| LegacyCrossword.LegacyValidate | back/app/Http/Controllers/CrosswordController.php:34-44 | not found for an unknown id; otherwise the strict comparison with the stored grid, a missing grid having no cells |
| LegacyCrossword.BlankSubmissionCorrect | back/app/Http/Controllers/CrosswordController.php:14-43 | after `new`, no grid or an all-blank 5x5 grid is reported correct, and a 5x5 grid with any non-blank cell incorrect |
| SessionStore.Put | back/app/Http/Controllers/api/SudokuController.php:27-32 | the record is stored under the token, every other token keeps its record, and an existing one is overwritten |
| SessionStore.Get | back/app/Http/Controllers/api/SudokuController.php:44-45 | the record under the token, or nothing when none is stored |
| MotsFleches.GetOrientation | front/src/pages/Mots-fleches.jsx:93 | horizontal exactly for "right" and "left" |
| MotsFleches.UniqByKey | front/src/pages/Mots-fleches.jsx:95-103 | keeps only elements of the input, with pairwise distinct keys, and every key of the input is kept |
| MotsFleches.FirstPositions | front/src/pages/Mots-fleches.jsx:95-103 | the positions whose key does not occur earlier, exactly and in increasing order |
| MotsFleches.UniqPreservesOrder | front/src/pages/Mots-fleches.jsx:95-103 | the k-th kept element is the input's element at the k-th first-occurrence position, so input order is kept |
| MotsFleches.UniqKeepsFirst | front/src/pages/Mots-fleches.jsx:95-103 | an element with no earlier element of the same key is kept |
| MotsFleches.UniqOfDistinct | front/src/pages/Mots-fleches.jsx:95-103 | a list whose keys are already distinct passes through unchanged |
| MotsFleches.UniqIdempotent | front/src/pages/Mots-fleches.jsx:95-103 | de-duplicating twice is de-duplicating once |
| MotsFleches.UniqSameKeys | front/src/pages/Mots-fleches.jsx:95-103 | de-duplicating keeps exactly the keys of the input |
| MotsFleches.LinesOf | front/src/pages/Mots-fleches.jsx:106-113 | one line per direction of the clue, carrying the clue's number, the direction, its orientation and its text; none without directions |
| MotsFleches.FlatLinesContents | front/src/pages/Mots-fleches.jsx:105-113 | the flattened list holds exactly one line for each direction of each clue |
| MotsFleches.FlatLinesOrdered | front/src/pages/Mots-fleches.jsx:105-113 | clues sorted by number give lines in non-decreasing number order |
| MotsFleches.ByOrientation | front/src/pages/Mots-fleches.jsx:115-116 | the lines kept are exactly those of the orientation |
| MotsFleches.ColumnsPartition | front/src/pages/Mots-fleches.jsx:114-116 | the two columns together hold each line exactly as often as the list |
| MotsFleches.SplitKeysDistinct | front/src/pages/Mots-fleches.jsx:114-116 | splitting a de-duplicated list keeps its keys distinct across both columns |
| MotsFleches.BuildPanel | front/src/pages/Mots-fleches.jsx:105-116 | each column holds only its orientation and lists clue numbers in non-decreasing order; no (number, orientation, text) appears twice; every direction of every clue appears, and every line is one direction of one clue |
| MotsFleches.PanelSound | front/src/pages/Mots-fleches.jsx:105-116 | every line of either column is one direction of one clue |
| MotsFleches.PanelOrdered | front/src/pages/Mots-fleches.jsx:105-116 | each column is in non-decreasing clue number, as the sort makes the flattened list |
| MotsFleches.ColumnAscends | front/src/pages/Mots-fleches.jsx:114-116 | keeping the lines of one orientation keeps number order |
| MotsFleches.PanelCovers | front/src/pages/Mots-fleches.jsx:105-116 | every direction of every clue has its (number, orientation, text) in the panel |
| MotsFleches.CharCells | front/src/pages/Mots-fleches.jsx:6-17 | the layout grid has one one-character cell per character of each row |
| MotsFleches.FlatIndex | front/src/pages/Mots-fleches.jsx:19 | in a grid of rows of width w, flat index r w + c holds cell (r, c) |
| MotsFleches.LayoutFlat | front/src/pages/Mots-fleches.jsx:19 | the flat layout has 100 cells, cell (r, c) at index 10 r + c |
| MotsFleches.ClueMapKeys | front/src/pages/Mots-fleches.jsx:22-90 | the clue map is keyed by the ten clue cells 0, 7, 16, 20, 27, 42, 49, 58, 62 and 80 |
| MotsFleches.ClueKeysAreClueCells | front/src/pages/Mots-fleches.jsx:6-90 | the clue map has an entry on exactly the `#` cells of the layout |
| MotsFleches.Only | front/src/pages/Mots-fleches.jsx:183-184 | the elements kept are exactly those equal to one of the two directions |
| MotsFleches.OnlyDistinct | front/src/pages/Mots-fleches.jsx:183-184 | filtering a repetition-free list keeps it repetition-free |
| MotsFleches.ArrowsOf | front/src/pages/Mots-fleches.jsx:179-184 | horizontal arrows are right/left and vertical ones down/up, without repetition; together they are exactly the clue's directions among the four; a clue without directions gets one right arrow |
| MotsFleches.Classify | front/src/pages/Mots-fleches.jsx:171-237 | `$` is a block, `#` a clue cell with its number and arrows when the map has the index and an empty clue otherwise, anything else a letter showing the cell |
| MotsFleches.Board | front/src/pages/Mots-fleches.jsx:171-237 | 100 views, and flat cell 10 r + c shows layout cell (r, c) |
| MotsFleches.NoEmptyClue | front/src/pages/Mots-fleches.jsx:171-176 | every `#` of the layout has a clue, so no empty clue cell is drawn |
| ScoreLedger.GameName | back/app/Http/Controllers/api/UserGameScoreController.php:40 | same length, every `-` turned into a space, first character upper-cased |
| ScoreLedger.FindGame | back/app/Http/Controllers/api/UserGameScoreController.php:37-38 | the position of a game with the slug, or none exactly when no game has it |
| ScoreLedger.FirstOrCreate | back/app/Http/Controllers/api/UserGameScoreController.php:37-44 | an existing game with the slug leaves the games unchanged; otherwise one new game is appended, named after the slug, with the next id |
| ScoreLedger.BucketMax | back/app/Http/Controllers/api/UserGameScoreController.php:47-50 | none exactly for an empty bucket; otherwise a score of the bucket that no row of the bucket exceeds |
| ScoreLedger.Demote | back/app/Http/Controllers/api/UserGameScoreController.php:67-73 | rows of the bucket lose their flag; every other row is unchanged |
| ScoreLedger.SaveScore | back/app/Http/Controllers/api/UserGameScoreController.php:16-81 | invalid input (no slug, a slug that trims to "", a negative score or time left) is refused; a guest changes nothing; otherwise one row is appended in the bucket (difficulty "unknown" when absent), flagged exactly when the bucket was empty or the score strictly beats its best; a flagged row demotes the rest of its bucket and no other row changes |
| ScoreLedger.BlankSlugRefused | back/app/Http/Controllers/api/UserGameScoreController.php:18-24 | a slug that `trim` empties is refused like a missing one, and any other slug with a valid score passes validation |
| Text.TrimEmptyIff | back/app/Http/Controllers/api/UserGameScoreController.php:19 | `trim` gives "" exactly when every character is one it strips (space, tab, line feed, carriage return, NUL, vertical tab) |
| ScoreLedger.SaveKeepsWellFormed | back/app/Http/Controllers/api/UserGameScoreController.php:37-64 | auto-increment ids and unique game slugs survive a submission |
| ScoreLedger.SaveKeepsBucketsSound | back/app/Http/Controllers/api/UserGameScoreController.php:47-73 | if every bucket has at most one flagged row, that row holds the bucket's best and no earlier row reached it, and every non-empty bucket has one, all of this holds after any submission |
| ScoreLedger.SaveAppends | back/app/Http/Controllers/api/UserGameScoreController.php:55-73 | a signed-in submission appends its row and demotes, when flagged, exactly its own bucket |
| ScoreLedger.AtMostOneFlag | back/app/Http/Controllers/api/UserGameScoreController.php:55-73 | an append with demotion keeps at most one flagged row per bucket |
| ScoreLedger.FlagStaysBest | back/app/Http/Controllers/api/UserGameScoreController.php:47-73 | an append with demotion keeps every flagged row at its bucket's best |
| ScoreLedger.FlagStaysPresent | back/app/Http/Controllers/api/UserGameScoreController.php:47-73 | an append with demotion leaves every non-empty bucket with a flagged row |
| Leaderboard.OutranksIsKeyBefore | back/app/Http/Controllers/api/UserGameScoreController.php:175-184 | the `myRank` comparison (more points, or as many and earlier) is exactly "strictly before" in the Top ordering |
| Leaderboard.Flagged | back/app/Http/Controllers/api/UserGameScoreController.php:108-111 | exactly the flagged rows of the game and difficulty |
| Leaderboard.ClampLimit | back/app/Http/Controllers/api/UserGameScoreController.php:114 | the limit clamped into 1..50 |
| Leaderboard.Ordered | back/app/Http/Controllers/api/UserGameScoreController.php:108-113 | a rearrangement of the flagged rows, sorted by score descending then time ascending |
| Leaderboard.Ranked | back/app/Http/Controllers/api/UserGameScoreController.php:114-125 | the first n rows, numbered from 1 |
| Leaderboard.Top | back/app/Http/Controllers/api/UserGameScoreController.php:87-132 | a missing or falsy slug or difficulty gives 422; an unknown game an empty list; otherwise the first clamp(limit, 1, 50) rows of the ordering (limit 5 when not given), ranked 1..n |
| Leaderboard.TopIsOrdered | back/app/Http/Controllers/api/UserGameScoreController.php:108-125 | at most 50 entries, ranks 1..n, only flagged rows of the game and difficulty, and no entry outranks one listed before it |
| Leaderboard.OrderedRows | back/app/Http/Controllers/api/UserGameScoreController.php:108-113 | every row of the ordering is flagged, and none outranks a row placed before it |
| Leaderboard.CountAheadPermutation | back/app/Http/Controllers/api/UserGameScoreController.php:175-185 | the count of rows ahead does not depend on the order of the rows |
| ScoreLedger.OfUser | back/app/Http/Controllers/api/UserGameScoreController.php:159-161 | exactly the rows of the player, the filter shared by the rank query and the profile query |
| Leaderboard.BestOf | back/app/Http/Controllers/api/UserGameScoreController.php:159-165 | none exactly when the player has no row; otherwise one of the player's rows that comes first in the ordering among them |
| Leaderboard.RankIn | back/app/Http/Controllers/api/UserGameScoreController.php:159-187 | null exactly when the player has no flagged row; otherwise the best row's score and time with rank 1 + the rows ahead of it |
| Leaderboard.MyRank | back/app/Http/Controllers/api/UserGameScoreController.php:138-200 | a missing or falsy slug or difficulty gives 422; an unknown game gives null; otherwise the rank over the game's flagged rows of that difficulty |
| Leaderboard.RankInSorted | back/app/Http/Controllers/api/UserGameScoreController.php:175-187 | in a sorted list at most p rows are ahead of position p, and exactly p when no two keys coincide |
| Leaderboard.RankMatchesPosition | back/app/Http/Controllers/api/UserGameScoreController.php:175-187 | the rank computed for the row at position p of the ordering is at most p + 1, and exactly p + 1 when no two flagged rows tie on score and time |
| Leaderboard.FlaggedUnique | back/app/Http/Controllers/api/UserGameScoreController.php:159-165 | with one flagged row per bucket, two flagged rows of the same bucket are the same row |
| Leaderboard.OnlyFlaggedRow | back/app/Http/Controllers/api/UserGameScoreController.php:159-165 | a player's flagged row in a game and difficulty is their only one |
| Leaderboard.BestOfOnlyRow | back/app/Http/Controllers/api/UserGameScoreController.php:159-165 | a player's single row is their best |
| Leaderboard.RankOfOnlyRow | back/app/Http/Controllers/api/UserGameScoreController.php:175-187 | a player with a single row is ranked one past the rows ahead of it |
| Leaderboard.RankOfSortedPosition | back/app/Http/Controllers/api/UserGameScoreController.php:175-187 | a player whose only row sits at position p of a tie-free sorted copy is ranked p + 1 |
| Leaderboard.RankOfPosition | back/app/Http/Controllers/api/UserGameScoreController.php:175-187 | with one flagged row per bucket and no ties, the player at position p of the ordering is ranked p + 1 |
| Leaderboard.MyRankAgreesWithTop | back/app/Http/Controllers/api/UserGameScoreController.php:108-187 | with one flagged row per bucket and no ties, `myRank` reports for a listed player exactly the rank, score and time of their Top-N entry |
| Profile.GameById | back/app/Http/Controllers/api/ProfileController.php:24 | the game with the id, or none exactly when no game has it |
| Profile.Recent | back/app/Http/Controllers/api/ProfileController.php:16-19 | a rearrangement of the player's rows, most recent first |
| Profile.Best | back/app/Http/Controllers/api/ProfileController.php:22-31 | every row reaches its (slug, difficulty) entry, and every entry is the score of some row of that group, "unknown" standing in for a missing slug or difficulty |
| Profile.BestUnique | back/app/Http/Controllers/api/ProfileController.php:22-31 | the map is the only one meeting that description: each entry is its group's maximum |
| Profile.BestOrderIndependent | back/app/Http/Controllers/api/ProfileController.php:22-31 | the map does not depend on the order the rows are visited in |
| Profile.History | back/app/Http/Controllers/api/ProfileController.php:34-46 | at most thirty lines, line i copying row i with its game's slug and name and the flag as a boolean |
| Profile.Show | back/app/Http/Controllers/api/ProfileController.php:11-57 | the best map over all the player's rows, and the first thirty of them by recency as history |
| Profile.HistoryIsLatest | back/app/Http/Controllers/api/ProfileController.php:16-34 | every history line is one of the player's rows, and none of their rows left out is newer than a line shown |
| ProfilePage.ResultLabel | front/src/pages/Profile.jsx:13-20 | "partie" for an absent or empty result; an unknown tag is shown as is |
| ProfilePage.KnownResultsLabelled | front/src/pages/Profile.jsx:13-20 | the four tags won, lost_time, lost_score and solved_bot get their French labels |
| ProfilePage.NormalizeDifficulty | front/src/pages/Profile.jsx:22-37 | "—" for an absent or empty label; simple and facile give easy; moyen and intermediaire (with or without accent) give medium; difficile gives hard; anything else is lower-cased |
| ProfilePage.NormalizeIdempotent | front/src/pages/Profile.jsx:22-37 | normalising a normalised difficulty changes nothing |
| ProfilePage.DifficultyLabel | front/src/pages/Profile.jsx:39-45 | Facile, Moyen and Difficile exactly for easy, medium and hard; any other normalised value as is |
| Text.ToLower | front/src/pages/Profile.jsx:24 | same length, no upper-case letter left, each character kept or its lower case |
| Text.ToLowerIdempotent | front/src/pages/Profile.jsx:24 | lower-casing twice is lower-casing once; text without upper-case letters is unchanged |
| ProfilePage.Lookup | front/src/pages/Profile.jsx:96-103 | the score of the (slug, difficulty) entry, or null without one |
| ProfilePage.Coalesce | front/src/pages/Profile.jsx:100 | the first value when present, else the second |
| ProfilePage.PerDiffOf | front/src/pages/Profile.jsx:99-103 | easy from the easy entry or, without one, the older simple entry; medium and hard from their entries |
| ProfilePage.BestOverall | front/src/pages/Profile.jsx:105-106 | null exactly when no column has a value; otherwise one of the present values, at least each of them |
| ProfilePage.Cards | front/src/pages/Profile.jsx:91-117 | one card per known game in fixed order, with its title, columns and overall best |
| ProfilePage.CardCoversScore | front/src/pages/Profile.jsx:91-117 | a recorded easy, medium or hard score of a known game is at most that game's card's overall best |
| ProfilePage.FilterHistory | front/src/pages/Profile.jsx:119-123 | "all" keeps everything; any other filter keeps exactly the lines of that game |
| ProfilePage.OfGame | front/src/pages/Profile.jsx:122 | exactly the lines of the game |
| ProfilePage.OfGameAppend | front/src/pages/Profile.jsx:122 | the filter keeps the order of the lines |
| ProfilePage.RowOf | front/src/pages/Profile.jsx:125-147 | the known title, else the game name, else the slug ("unknown" when empty); the difficulty and result labels; id, score and flag copied |
| ProfilePage.SelectFilter | front/src/pages/Profile.jsx:213-215 | choosing a filter starts again at 20 lines |
| ProfilePage.LoadMore | front/src/pages/Profile.jsx:264 | one press asks for 20 more lines, filter kept |
| ProfilePage.Rows | front/src/pages/Profile.jsx:125-148 | min(filtered length, lines asked for) rows, row i showing filtered line i |
| ProfilePage.LoadMoreIffHidden | front/src/pages/Profile.jsx:150 | the button shows exactly when some filtered line is off screen, and pressing it shows more |
| ProfilePage.PressesToShowAll | front/src/pages/Profile.jsx:150 | after n presses 20 (n + 1) lines are asked for, and the button is gone once they cover the filtered list |

## Left out

- Randomness: `shuffle`, `array_rand` and `Str::random` are arguments (permutations, a choice index, a token).
- The disks: `Storage` is a map from token to record. File paths, `resolveGridsPath` and JSON encoding and decoding are not modelled. A grids file that is not a JSON array is an input variant.
- `time()`, `now()` and the page's `setInterval`: timestamps are integer inputs, and the countdown is one `Tick` per second.
- The time score `Math.floor((timeLeft / maxTime) * maxScore)` is a floating-point expression. It is taken as an integer input to `CurrentScore` and `Settle`.
- `parseInt` on the typed text: the input is already classified as cleared, a number, or not a number.
- The React pages' rendering, CSS, `fetch`, `localStorage` and authentication. Leaderboard.jsx only displays fetched data.
- ISO and locale date formatting, the user's name and e-mail in the profile, and the `user_name` of leaderboard rows.
- The Eloquent models, migrations, seeders and routes. The seeders' rows without a difficulty are allowed by `Option<string>` and belong to no bucket.
- The older `UserGameScoreController`, which only inserts a row, and `GameController`, which only renders views.
- Concurrent submissions: `saveScore` runs without a transaction, and submissions are modelled one after another.
- Leaderboard.Top: `(int)` of a non-numeric `limit` (which gives 0, then 1 after clamping) is not modelled; the limit is an optional integer.
- Profile.Show: `best` is a flat map keyed by (slug, difficulty) rather than the nested `best[slug][diff]` arrays.
- Text.ToLower: lower-cases ASCII and Latin-1 capitals only, not the full Unicode case mapping of `toLowerCase`.
- Text.ToUpper: follows `strtoupper`, which only changes ASCII letters.
- SudokuGenerator.ValidateGrid: a stored solution that PHP reads as false (an empty array) is not distinguished from an absent one. Stored solutions are assumed to be 9x9 boards.
- SudokuGenerator.New: the level is compared as a string, and a non-string level is not modelled.
- SudokuGenerator.EqualGrids: submitted cells are integers; PHP's `(int)` cast of strings, floats and booleans ("5" as 5, "x" as 0, 5.9 as 5, true as 1) is not modelled.
- Leaderboard.Ordered: rows tied on both score and `achieved_at` keep table order, because the model sorts stably; the SQL `orderByDesc('score')->orderBy('achieved_at')` leaves their order unspecified. Leaderboard.Top and Leaderboard.BestOf inherit this choice.
- Profile.Recent: rows with the same `achieved_at` keep table order, because the model sorts stably; the SQL `orderByDesc('achieved_at')` leaves their order unspecified.
- ScoreLedger.SaveScore: the request-trimming middleware is not modelled. A slug is stored with its surrounding whitespace, and an empty difficulty string is not turned into null, so it is not filed as "unknown".
- ScoreLedger.SaveScore: a missing or non-integer `score` and a non-string `game_slug` fail validation with a 422; `score: int` and `gameSlug: Option<string>` cannot express them.
- Crossword.New: a `level` that is not a string (a JSON number or boolean) never matches `$grid['Level'] === $level` and gives the 404; the level is an optional string.
- Crossword.ValidateGrid: a truthy `grid` that is not an array fails the `array $userGrid` type hint of `equalGrids` and gives a 500; the submitted grid is a grid of strings.
- Profile.Recent: rows from before the `achieved_at` column was added hold NULL there, sort where the database puts NULLs, and show `created_at` instead; `achievedAt` is an integer.
- Profile.History: a line's `achieved_at` falls back to `created_at` when the row has none; the model always has a time, so the fallback is not modelled.
- MotsFleches.Board: the tooltip, which maps `clue.directions` without a fallback, is not modelled; the board's clues all have directions.
- The grid bank's JSON objects: an entry is modelled with optional `Level`, `grid`, `solution` and `clueMapByIndex` fields only.

## Findings

| source | as written | input that shows it | evidently intended | confidence | as-written member | corrected member |
|---|---|---|---|---|---|---|
| back/app/Http/Controllers/Sudoku/SudokuController.php:74 | `shuffle($base)` reorders all nine rows freely, which keeps rows and columns valid but can break the 3x3 boxes | the row order 3, 1, 2, 0, 4, 5, 6, 7, 8 puts two 4s in the top-left box | a solved board that the page's `isBoardValid` accepts, as the API controller produces by shuffling rows only within their band | not executed | LegacySudoku.LegacyBoxesCanRepeat | SudokuGenerator.SolvedBoard |
