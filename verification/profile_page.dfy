/** The profile page: labels for difficulties and results, the best-score
    cards built from the `best` map, and the filtered, paged history. */
module ProfilePage {
  import opened Wrappers
  import opened Seqs
  import opened Text
  import opened ScoreLedger
  import opened Profile

  /** A JavaScript string is falsy only when empty (or absent). */
  predicate JsTruthy(s: Option<string>) {
    s.Some? && s.value != ""
  }

  // ---------------------------------------------------------------------
  // Labels

  /** `formatResultLabel`: the four result tags get their French label,
      an absent result reads "partie", any other tag is shown as is. */
  function ResultLabel(result: Option<string>): (text: string)
    ensures !JsTruthy(result) ==> text == "partie"
    ensures JsTruthy(result) && result.value !in {"won", "lost_time", "lost_score", "solved_bot"} ==> text == result.value
  {
    if !JsTruthy(result) then "partie"
    else if result.value == "won" then "gagné ✅"
    else if result.value == "lost_time" then "temps écoulé ⏱️"
    else if result.value == "lost_score" then "score à 0 💥"
    else if result.value == "solved_bot" then "solution (bot) 🤖"
    else result.value
  }

  /** The four known tags are the ones recorded by the games. */
  lemma KnownResultsLabelled()
    ensures ResultLabel(Some("won")) == "gagné ✅"
    ensures ResultLabel(Some("lost_time")) == "temps écoulé ⏱️"
    ensures ResultLabel(Some("lost_score")) == "score à 0 💥"
    ensures ResultLabel(Some("solved_bot")) == "solution (bot) 🤖"
  {
  }

  /** `normalizeDifficulty`: "—" when absent; otherwise lower-cased, with
      the older French names mapped onto easy, medium and hard. */
  function NormalizeDifficulty(diff: Option<string>): (d: string)
    ensures !JsTruthy(diff) ==> d == "—"
    ensures JsTruthy(diff) && ToLower(diff.value) in {"simple", "facile"} ==> d == "easy"
    ensures JsTruthy(diff) && ToLower(diff.value) in {"moyen", "intermediaire", "intermédiaire"} ==> d == "medium"
    ensures JsTruthy(diff) && ToLower(diff.value) == "difficile" ==> d == "hard"
    ensures JsTruthy(diff) && ToLower(diff.value) !in Aliases ==> d == ToLower(diff.value)
  {
    if !JsTruthy(diff) then "—"
    else
      var d := ToLower(diff.value);
      if d == "simple" || d == "facile" then "easy"
      else if d == "moyen" || d == "intermediaire" || d == "intermédiaire" then "medium"
      else if d == "difficile" then "hard"
      else d
  }

  /** The older names that are translated. */
  const Aliases: set<string> := {"simple", "facile", "moyen", "intermediaire", "intermédiaire", "difficile"}

  lemma {:induction false} LowerFixed(s: string)
    requires forall i :: 0 <= i < |s| ==> 'a' <= s[i] <= 'z' || s[i] == '—'
    ensures ToLower(s) == s
  {
    ToLowerIdempotent(s);
  }

  /** Normalising a normalised difficulty changes nothing. */
  lemma {:induction false} NormalizeIdempotent(diff: Option<string>)
    ensures NormalizeDifficulty(Some(NormalizeDifficulty(diff))) == NormalizeDifficulty(diff)
  {
    var d := NormalizeDifficulty(diff);
    if d == "easy" {
      LowerFixed("easy");
    } else if d == "medium" {
      LowerFixed("medium");
    } else if d == "hard" {
      LowerFixed("hard");
    } else if d == "—" {
      LowerFixed("—");
    } else {
      ToLowerIdempotent(diff.value);
    }
  }

  /** `difficultyLabel`: French labels for easy, medium and hard; any other
      normalised value is shown as is. */
  function DifficultyLabel(diff: Option<string>): (text: string)
    ensures NormalizeDifficulty(diff) == "easy" <==> text == "Facile"
    ensures NormalizeDifficulty(diff) == "medium" <==> text == "Moyen"
    ensures NormalizeDifficulty(diff) == "hard" <==> text == "Difficile"
    ensures NormalizeDifficulty(diff) !in {"easy", "medium", "hard"} ==> text == NormalizeDifficulty(diff)
  {
    var d := NormalizeDifficulty(diff);
    if d == "easy" then "Facile"
    else if d == "medium" then "Moyen"
    else if d == "hard" then "Difficile"
    else
      assert d !in {"Facile", "Moyen", "Difficile"} by {
        if JsTruthy(diff) {
          LowerCaseFirst(diff.value);
        }
      }
      d
  }

  /** A lower-cased word does not start with an upper-case letter, so it
      never collides with a French label. */
  lemma {:induction false} LowerCaseFirst(s: string)
    requires s != ""
    ensures ToLower(s) !in {"Facile", "Moyen", "Difficile"}
  {
    assert !IsUpperLetter(ToLower(s)[0]);
  }

  // ---------------------------------------------------------------------
  // Best-score cards

  datatype Meta = Meta(title: string, subtitle: string, accent: string)

  /** `GAME_LABELS`, with the fallback used for any other slug. */
  function MetaOf(slug: string): Meta {
    if slug == "sudoku-classique" then Meta("Sudoku", "Grille 9x9", "blue")
    else if slug == "crossword-culture" then Meta("Mots fléchés", "Culture & Nature", "purple")
    else Meta(slug, "", "blue")
  }

  const CardSlugs: seq<string> := ["sudoku-classique", "crossword-culture"]

  datatype PerDiff = PerDiff(easy: Option<int>, medium: Option<int>, hard: Option<int>)

  datatype Card = Card(key: string, title: string, subtitle: string, accent: string, bestOverall: Option<int>, perDiff: PerDiff)

  /** `best?.[slug]?.[diff] ?? null`. */
  function Lookup(best: map<(string, string), int>, slug: string, diff: string): (v: Option<int>)
    ensures v.Some? <==> (slug, diff) in best
    ensures v.Some? ==> v.value == best[(slug, diff)]
  {
    if (slug, diff) in best then Some(best[(slug, diff)]) else None
  }

  /** The three columns of a card; "easy" falls back on the older
      "simple" key when absent. */
  function PerDiffOf(best: map<(string, string), int>, slug: string): (p: PerDiff)
    ensures (slug, "easy") in best ==> p.easy == Some(best[(slug, "easy")])
    ensures (slug, "easy") !in best ==> p.easy == Lookup(best, slug, "simple")
    ensures p.medium == Lookup(best, slug, "medium") && p.hard == Lookup(best, slug, "hard")
  {
    PerDiff(Coalesce(Lookup(best, slug, "easy"), Lookup(best, slug, "simple")), Lookup(best, slug, "medium"), Lookup(best, slug, "hard"))
  }

  /** JavaScript's `a ?? b` on optional values. */
  function Coalesce<T>(a: Option<T>, b: Option<T>): (r: Option<T>)
    ensures a.Some? ==> r == a
    ensures a.None? ==> r == b
  {
    if a.Some? then a else b
  }

  /** The largest of the present values, or none when all are absent. */
  function BestOverall(p: PerDiff): (m: Option<int>)
    ensures m.None? <==> p.easy.None? && p.medium.None? && p.hard.None?
    ensures m.Some? ==> m == p.easy || m == p.medium || m == p.hard
    ensures m.Some? ==> (p.easy.Some? ==> p.easy.value <= m.value) && (p.medium.Some? ==> p.medium.value <= m.value) && (p.hard.Some? ==> p.hard.value <= m.value)
  {
    MaxOpt(MaxOpt(p.easy, p.medium), p.hard)
  }

  function MaxOpt(a: Option<int>, b: Option<int>): (m: Option<int>)
    ensures m.None? <==> a.None? && b.None?
    ensures m.Some? ==> m == a || m == b
    ensures m.Some? ==> (a.Some? ==> a.value <= m.value) && (b.Some? ==> b.value <= m.value)
  {
    if a.None? then b
    else if b.None? then a
    else if a.value >= b.value then a else b
  }

  /** `bestScores`: one card per known game, in a fixed order. */
  function Cards(best: map<(string, string), int>): (cs: seq<Card>)
    ensures |cs| == |CardSlugs|
    ensures forall i :: 0 <= i < |cs| ==> cs[i].key == CardSlugs[i] && cs[i].title == MetaOf(CardSlugs[i]).title
    ensures forall i :: 0 <= i < |cs| ==> cs[i].perDiff == PerDiffOf(best, CardSlugs[i]) && cs[i].bestOverall == BestOverall(cs[i].perDiff)
  {
    seq(|CardSlugs|, i requires 0 <= i < |CardSlugs| =>
      var slug := CardSlugs[i];
      var meta := MetaOf(slug);
      var p := PerDiffOf(best, slug);
      Card(slug, meta.title, meta.subtitle, meta.accent, BestOverall(p), p)
    )
  }

  /** A recorded score of a known game at easy, medium or hard level is
      covered by that game's card: the card's overall best is at least it. */
  lemma {:induction false} CardCoversScore(db: Db, user: nat, k: nat, x: Record)
    requires k < |CardSlugs| && x in db.scores && x.userId == user
    requires SlugOf(db.games, x) == CardSlugs[k]
    requires x.difficulty in {Some("easy"), Some("medium"), Some("hard")}
    ensures var card := Cards(Show(db, user).best)[k];
            card.bestOverall.Some? && x.score <= card.bestOverall.value
  {
    var rows := OfUser(db.scores, user);
    var best := Show(db, user).best;
    assert x in rows;
    var i :| 0 <= i < |rows| && rows[i] == x;
    assert IsBest(db.games, rows, best);
    assert GroupOf(db.games, rows[i]) in best;
  }

  // ---------------------------------------------------------------------
  // History table

  /** `historyFiltered`: everything for "all", otherwise the lines of the
      chosen game, in order. */
  function FilterHistory(history: seq<HistoryRow>, filter: string): (r: seq<HistoryRow>)
    ensures filter == "all" ==> r == history
    ensures filter != "all" ==> forall h :: h in r <==> h in history && h.gameSlug == filter
    ensures |r| <= |history|
  {
    if filter == "all" then history else OfGame(history, filter)
  }

  function OfGame(history: seq<HistoryRow>, slug: string): (r: seq<HistoryRow>)
    ensures forall h :: h in r <==> h in history && h.gameSlug == slug
    ensures |r| <= |history|
  {
    if |history| == 0 then []
    else (if history[0].gameSlug == slug then [history[0]] else []) + OfGame(history[1..], slug)
  }

  /** Filtering keeps the order: filtering a concatenation concatenates
      the filtered parts. */
  lemma {:induction false} OfGameAppend(a: seq<HistoryRow>, b: seq<HistoryRow>, slug: string)
    ensures OfGame(a + b, slug) == OfGame(a, slug) + OfGame(b, slug)
  {
    if |a| == 0 {
      assert a + b == b;
    } else {
      assert (a + b)[1..] == a[1..] + b;
      OfGameAppend(a[1..], b, slug);
    }
  }

  datatype RowView = RowView(id: nat, game: string, detail: string, isHigh: bool, score: int)

  /** `GAME_LABELS[slug]?.title`. */
  function KnownTitle(slug: string): Option<string> {
    if slug == "sudoku-classique" || slug == "crossword-culture" then Some(MetaOf(slug).title) else None
  }

  /** One table row: the known title, else the line's game name, else its
      slug ("unknown" when empty); the difficulty and result labels. */
  function RowOf(h: HistoryRow): (v: RowView)
    ensures v.id == h.id && v.isHigh == h.isHighscore && v.score == h.score
    ensures v.detail == DifficultyLabel(h.difficulty) + " • " + ResultLabel(h.result)
    ensures KnownTitle(h.gameSlug).Some? ==> v.game == KnownTitle(h.gameSlug).value
    ensures KnownTitle(h.gameSlug).None? && h.gameName != "" ==> v.game == h.gameName
    ensures KnownTitle(h.gameSlug).None? && h.gameName == "" ==> v.game == (if h.gameSlug == "" then "unknown" else h.gameSlug)
  {
    var slug := if h.gameSlug == "" then "unknown" else h.gameSlug;
    var game := match KnownTitle(slug) {
      case Some(t) => t
      case None => if h.gameName != "" then h.gameName else slug
    };
    RowView(h.id, game, DifficultyLabel(h.difficulty) + " • " + ResultLabel(h.result), h.isHighscore, h.score)
  }

  const PageSize: nat := 20

  /** The filter and the number of lines asked for. */
  datatype PageState = PageState(filter: string, visible: nat)

  const InitialPage := PageState("all", PageSize)

  /** Choosing a filter starts again from the first page. */
  function SelectFilter(s: PageState, filter: string): (s': PageState)
    ensures s'.filter == filter && s'.visible == PageSize
  {
    PageState(filter, PageSize)
  }

  /** "Afficher plus": one more page. */
  function LoadMore(s: PageState): (s': PageState)
    ensures s'.filter == s.filter && s'.visible == s.visible + PageSize
  {
    s.(visible := s.visible + PageSize)
  }

  /** The rows on screen. */
  function Rows(history: seq<HistoryRow>, s: PageState): (rows: seq<RowView>)
    ensures var f := FilterHistory(history, s.filter);
            && |rows| == (if |f| < s.visible then |f| else s.visible)
            && forall i :: 0 <= i < |rows| ==> rows[i] == RowOf(f[i])
  {
    var shown := Take(FilterHistory(history, s.filter), s.visible);
    seq(|shown|, i requires 0 <= i < |shown| => RowOf(shown[i]))
  }

  /** `canLoadMore`. */
  predicate CanLoadMore(history: seq<HistoryRow>, s: PageState) {
    |FilterHistory(history, s.filter)| > s.visible
  }

  /** The button shows exactly when some filtered line is not on screen,
      and pressing it shows more lines. */
  lemma {:induction false} LoadMoreIffHidden(history: seq<HistoryRow>, s: PageState)
    ensures CanLoadMore(history, s) <==> |Rows(history, s)| < |FilterHistory(history, s.filter)|
    ensures CanLoadMore(history, s) ==> |Rows(history, s)| < |Rows(history, LoadMore(s))|
  {
  }

  /** After n presses from a fresh filter, 20 (n + 1) lines are asked for,
      and the button is gone once they cover the filtered list. */
  lemma {:induction false} PressesToShowAll(history: seq<HistoryRow>, filter: string, n: nat)
    ensures Presses(SelectFilter(InitialPage, filter), n).visible == PageSize * (n + 1)
    ensures Presses(SelectFilter(InitialPage, filter), n).filter == filter
    ensures |FilterHistory(history, filter)| <= PageSize * (n + 1) ==>
              !CanLoadMore(history, Presses(SelectFilter(InitialPage, filter), n))
  {
    if n > 0 {
      PressesToShowAll(history, filter, n - 1);
    }
  }

  function Presses(s: PageState, n: nat): PageState {
    if n == 0 then s else LoadMore(Presses(s, n - 1))
  }
}
