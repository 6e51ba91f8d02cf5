/** The profile endpoint: a player's best score per game and difficulty,
    and their thirty most recent scores. */
module Profile {
  import opened Wrappers
  import opened Seqs
  import opened ScoreLedger

  /** The game a row points at, if it still exists. */
  function GameById(games: seq<Game>, id: nat): (g: Option<Game>)
    ensures g.None? <==> forall i :: 0 <= i < |games| ==> games[i].id != id
    ensures g.Some? ==> g.value in games && g.value.id == id
  {
    if |games| == 0 then None
    else if games[0].id == id then Some(games[0])
    else GameById(games[1..], id)
  }

  /** `$s->game->slug ?? 'unknown'`. */
  function SlugOf(games: seq<Game>, r: Record): string {
    match GameById(games, r.gameId)
    case Some(g) => g.slug
    case None => "unknown"
  }

  /** `$s->game->name ?? 'Unknown'`. */
  function NameOf(games: seq<Game>, r: Record): string {
    match GameById(games, r.gameId)
    case Some(g) => g.name
    case None => "Unknown"
  }

  /** The group a row's score counts towards: its game's slug and its
      difficulty, "unknown" standing in for either when missing. */
  function GroupOf(games: seq<Game>, r: Record): (string, string) {
    (SlugOf(games, r), r.difficulty.OrElse("unknown"))
  }

  /** The player's rows, most recent first. */
  function Recent(rs: seq<Record>, user: nat): (r: seq<Record>)
    ensures multiset(r) == multiset(OfUser(rs, user))
    ensures forall i, j :: 0 <= i < j < |r| ==> r[j].achievedAt <= r[i].achievedAt
  {
    var s := SortBy(OfUser(rs, user), RecencyKey);
    assert forall i, j :: 0 <= i < j < |s| ==> KeyLe(RecencyKey(s[i]), RecencyKey(s[j]));
    s
  }

  function RecencyKey(r: Record): Key {
    Key(-r.achievedAt, 0)
  }

  // ---------------------------------------------------------------------
  // best[slug][difficulty]

  /** One step of the loop: a group's entry is set on its first row and
      raised by any strictly larger score. */
  function Step(best: map<(string, string), int>, games: seq<Game>, r: Record): map<(string, string), int> {
    var k := GroupOf(games, r);
    if k !in best || r.score > best[k] then best[k := r.score] else best
  }

  /** The loop over the rows, in the order given: a group is present
      exactly when some row falls in it, and its value is the largest
      score among its rows. */
  function Best(games: seq<Game>, rows: seq<Record>): (best: map<(string, string), int>)
    ensures IsBest(games, rows, best)
  {
    if |rows| == 0 then map[]
    else
      var init := rows[..|rows| - 1];
      assert forall i :: 0 <= i < |init| ==> rows[i] == init[i];
      Step(Best(games, init), games, rows[|rows| - 1])
  }

  /** Every row reaches its group's entry, and every entry is some row's
      score in that group. */
  ghost predicate IsBest(games: seq<Game>, rows: seq<Record>, m: map<(string, string), int>) {
    && (forall i :: 0 <= i < |rows| ==> GroupOf(games, rows[i]) in m && rows[i].score <= m[GroupOf(games, rows[i])])
    && (forall k :: k in m ==> exists i :: 0 <= i < |rows| && GroupOf(games, rows[i]) == k && rows[i].score == m[k])
  }

  /** Two maps meeting the characterisation have the same entry for a group. */
  lemma {:induction false} BestEntryUnique(games: seq<Game>, rows: seq<Record>, m: map<(string, string), int>, n: map<(string, string), int>, k: (string, string))
    requires IsBest(games, rows, m) && IsBest(games, rows, n) && k in m
    ensures k in n && n[k] == m[k]
  {
    var i :| 0 <= i < |rows| && GroupOf(games, rows[i]) == k && rows[i].score == m[k];
    var j :| 0 <= j < |rows| && GroupOf(games, rows[j]) == k && rows[j].score == n[k];
    assert rows[j].score <= m[k] && rows[i].score <= n[k];
  }

  /** The characterisation fixes the map: any two maps meeting it agree. */
  lemma {:induction false} BestUnique(games: seq<Game>, rows: seq<Record>, m: map<(string, string), int>)
    requires IsBest(games, rows, m)
    ensures m == Best(games, rows)
  {
    var b := Best(games, rows);
    forall k | k in m ensures k in b && b[k] == m[k] {
      BestEntryUnique(games, rows, m, b, k);
    }
    forall k | k in b ensures k in m {
      BestEntryUnique(games, rows, b, m, k);
    }
  }

  /** Hence the order the rows are visited in does not matter. */
  lemma {:induction false} BestOrderIndependent(games: seq<Game>, a: seq<Record>, b: seq<Record>)
    requires multiset(a) == multiset(b)
    ensures Best(games, a) == Best(games, b)
  {
    var m := Best(games, a);
    forall i | 0 <= i < |b| ensures GroupOf(games, b[i]) in m && b[i].score <= m[GroupOf(games, b[i])] {
      assert b[i] in multiset(a);
      var j :| 0 <= j < |a| && a[j] == b[i];
    }
    forall k | k in m ensures exists i :: 0 <= i < |b| && GroupOf(games, b[i]) == k && b[i].score == m[k] {
      var j :| 0 <= j < |a| && GroupOf(games, a[j]) == k && a[j].score == m[k];
      assert a[j] in multiset(b);
      var i :| 0 <= i < |b| && b[i] == a[j];
    }
    BestUnique(games, b, m);
  }

  // ---------------------------------------------------------------------
  // History

  /** One history line: the row's own fields, its game's slug and name,
      and the flag as a boolean. */
  datatype HistoryRow = HistoryRow(
    id: nat,
    gameSlug: string,
    gameName: string,
    difficulty: Option<string>,
    score: int,
    timeLeft: Option<int>,
    result: Option<string>,
    isHighscore: bool,
    achievedAt: int)

  function HistoryOf(games: seq<Game>, r: Record): HistoryRow {
    HistoryRow(r.id, SlugOf(games, r), NameOf(games, r), r.difficulty, r.score, r.timeLeft, r.result, r.isHighscore, r.achievedAt)
  }

  const HistorySize := 30

  datatype ProfileView = ProfileView(userId: nat, best: map<(string, string), int>, history: seq<HistoryRow>)

  /** `show`: the best map over all the player's rows and the first thirty
      of them by recency. The rows are visited most recent first, which
      gives the same map as visiting them in table order. */
  function Show(db: Db, user: nat): (v: ProfileView)
    ensures v.userId == user
    ensures v.best == Best(db.games, OfUser(db.scores, user))
    ensures |v.history| == if |OfUser(db.scores, user)| < HistorySize then |OfUser(db.scores, user)| else HistorySize
    ensures forall i :: 0 <= i < |v.history| ==> v.history[i] == HistoryOf(db.games, Recent(db.scores, user)[i])
  {
    var recent := Recent(db.scores, user);
    BestOrderIndependent(db.games, recent, OfUser(db.scores, user));
    assert |recent| == |multiset(recent)| == |OfUser(db.scores, user)|;
    ProfileView(user, Best(db.games, recent), History(db.games, recent))
  }

  /** `take(30)->map(...)`: the first thirty rows as history lines. */
  function History(games: seq<Game>, rows: seq<Record>): (h: seq<HistoryRow>)
    ensures |h| == if |rows| < HistorySize then |rows| else HistorySize
    ensures forall i :: 0 <= i < |h| ==> h[i] == HistoryOf(games, rows[i])
  {
    var shown := Take(rows, HistorySize);
    seq(|shown|, i requires 0 <= i < |shown| => HistoryOf(games, shown[i]))
  }

  /** The history holds the player's most recent rows: none of their rows
      left out is newer than one shown, and every line is one of theirs. */
  lemma {:induction false} HistoryIsLatest(db: Db, user: nat)
    ensures var v := Show(db, user);
            var recent := Recent(db.scores, user);
            && (forall i :: 0 <= i < |v.history| ==> recent[i] in db.scores && recent[i].userId == user && v.history[i].id == recent[i].id)
            && (forall i, j :: 0 <= i < |v.history| <= j < |recent| ==> recent[j].achievedAt <= v.history[i].achievedAt)
  {
    var recent := Recent(db.scores, user);
    forall i | 0 <= i < |Show(db, user).history| ensures recent[i] in db.scores && recent[i].userId == user {
      assert recent[i] in multiset(OfUser(db.scores, user));
    }
  }
}
