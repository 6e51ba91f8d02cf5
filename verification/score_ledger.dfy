/** The score table and `saveScore`: every submission appends a record; a
    record is flagged as the highscore of its (user, game, difficulty)
    bucket only when it strictly beats the bucket's previous best, and a
    flagged submission demotes the rest of its bucket. */
module ScoreLedger {
  import opened Wrappers
  import opened Text

  datatype Game = Game(id: nat, slug: string, name: string)

  /** One row of the scores table. Rows inserted by the seeders carry no
      difficulty, hence the option. */
  datatype Record = Record(
    id: nat,
    userId: nat,
    gameId: nat,
    score: int,
    difficulty: Option<string>,
    timeLeft: Option<int>,
    result: Option<string>,
    achievedAt: int,
    isHighscore: bool)

  datatype Db = Db(games: seq<Game>, scores: seq<Record>)

  /** Auto-increment ids: the row at position i has id i + 1, and game
      slugs are unique. */
  ghost predicate WellFormed(db: Db) {
    && (forall i :: 0 <= i < |db.games| ==> db.games[i].id == i + 1)
    && (forall i, j :: 0 <= i < j < |db.games| ==> db.games[i].slug != db.games[j].slug)
    && (forall i :: 0 <= i < |db.scores| ==> db.scores[i].id == i + 1)
  }

  /** The rows of one player, in table order. */
  function OfUser(rs: seq<Record>, user: nat): (r: seq<Record>)
    ensures forall x :: x in r <==> x in rs && x.userId == user
  {
    if |rs| == 0 then []
    else (if rs[0].userId == user then [rs[0]] else []) + OfUser(rs[1..], user)
  }

  // ---------------------------------------------------------------------
  // Games

  /** `ucfirst(str_replace('-', ' ', $slug))`. */
  function GameName(slug: string): (name: string)
    ensures |name| == |slug|
    ensures forall i :: 0 < i < |slug| ==> name[i] == (if slug[i] == '-' then ' ' else slug[i])
    ensures |slug| > 0 ==> name[0] == UpperChar(if slug[0] == '-' then ' ' else slug[0])
    ensures forall i :: 0 <= i < |name| ==> name[i] != '-'
  {
    var spaced := seq(|slug|, i requires 0 <= i < |slug| => if slug[i] == '-' then ' ' else slug[i]);
    if |spaced| == 0 then [] else [UpperChar(spaced[0])] + spaced[1..]
  }

  /** The position of the game with this slug, if any. */
  function FindGame(games: seq<Game>, slug: string): (k: Option<nat>)
    ensures k.None? <==> forall i :: 0 <= i < |games| ==> games[i].slug != slug
    ensures k.Some? ==> k.value < |games| && games[k.value].slug == slug
  {
    if |games| == 0 then None
    else if games[|games| - 1].slug == slug then Some(|games| - 1)
    else FindGame(games[..|games| - 1], slug)
  }

  /** `Game::firstOrCreate`: the existing game with the slug, or a new one
      named after it. */
  function FirstOrCreate(games: seq<Game>, slug: string): (res: (seq<Game>, Game))
    ensures var (games', g) := res;
            && g in games' && g.slug == slug
            && (FindGame(games, slug).Some? ==> games' == games)
            && (FindGame(games, slug).None? ==> games' == games + [g] && g.id == |games| + 1 && g.name == GameName(slug))
  {
    match FindGame(games, slug)
    case Some(k) => (games, games[k])
    case None =>
      var g := Game(|games| + 1, slug, GameName(slug));
      (games + [g], g)
  }

  // ---------------------------------------------------------------------
  // Buckets

  /** A bucket: one user, one game, one difficulty label. SQL's `=` never
      matches a NULL difficulty, so seeded rows belong to no bucket. */
  predicate InBucket(r: Record, user: nat, game: nat, diff: string) {
    r.userId == user && r.gameId == game && r.difficulty == Some(diff)
  }

  /** The `max('score')` of a bucket, null when the bucket is empty. */
  function BucketMax(rs: seq<Record>, user: nat, game: nat, diff: string): (m: Option<int>)
    ensures m.None? <==> forall i :: 0 <= i < |rs| ==> !InBucket(rs[i], user, game, diff)
    ensures m.Some? ==> (forall i :: 0 <= i < |rs| && InBucket(rs[i], user, game, diff) ==> rs[i].score <= m.value)
    ensures m.Some? ==> exists i :: 0 <= i < |rs| && InBucket(rs[i], user, game, diff) && rs[i].score == m.value
  {
    if |rs| == 0 then None
    else
      var init := rs[..|rs| - 1];
      var last := rs[|rs| - 1];
      var m0 := BucketMax(init, user, game, diff);
      assert forall i :: 0 <= i < |init| ==> rs[i] == init[i];
      if !InBucket(last, user, game, diff) then m0
      else if m0.None? || last.score > m0.value then Some(last.score)
      else m0
  }

  /** Two rows of the same bucket. */
  predicate SameBucket(a: Record, b: Record) {
    a.difficulty.Some? && a.userId == b.userId && a.gameId == b.gameId && a.difficulty == b.difficulty
  }

  /** At most one flagged row per bucket. */
  ghost predicate OneFlag(rs: seq<Record>) {
    forall i, j :: 0 <= i < j < |rs| && SameBucket(rs[i], rs[j]) ==> !(rs[i].isHighscore && rs[j].isHighscore)
  }

  /** A flagged row holds its bucket's best score, and no earlier row of the
      bucket reached that score. */
  ghost predicate FlagIsBest(rs: seq<Record>) {
    forall i, j :: 0 <= i < |rs| && 0 <= j < |rs| && rs[i].isHighscore && SameBucket(rs[i], rs[j]) ==>
      rs[j].score <= rs[i].score && (j < i ==> rs[j].score < rs[i].score)
  }

  /** A position of the table. Used as the trigger of `FlagPresent`, so
      that the flagged rows it produces do not feed it again. */
  ghost predicate Row(rs: seq<Record>, j: int) {
    0 <= j < |rs|
  }

  /** Every non-empty bucket has a flagged row. */
  ghost predicate FlagPresent(rs: seq<Record>) {
    forall j {:trigger Row(rs, j)} :: Row(rs, j) && rs[j].difficulty.Some? ==>
      exists i :: 0 <= i < |rs| && rs[i].isHighscore && SameBucket(rs[i], rs[j])
  }

  /** The bucket invariant. */
  ghost predicate BucketsSound(rs: seq<Record>) {
    OneFlag(rs) && FlagIsBest(rs) && FlagPresent(rs)
  }

  /** Clears the flag of every row of the bucket. */
  function Demote(rs: seq<Record>, user: nat, game: nat, diff: string): (rs': seq<Record>)
    ensures |rs'| == |rs|
    ensures forall i :: 0 <= i < |rs| ==>
              rs'[i] == if InBucket(rs[i], user, game, diff) then rs[i].(isHighscore := false) else rs[i]
  {
    seq(|rs|, i requires 0 <= i < |rs| =>
      if InBucket(rs[i], user, game, diff) then rs[i].(isHighscore := false) else rs[i])
  }

  // ---------------------------------------------------------------------
  // saveScore

  /** The request body. */
  datatype Submission = Submission(
    gameSlug: Option<string>,
    score: int,
    timeLeft: Option<int>,
    difficulty: Option<string>,
    result: Option<string>)

  /** The request rules: a slug is required, and `required` refuses a
      string that trims to "" (one made only of characters `trim` strips,
      by Text.TrimEmptyIff); the score and a given time left are
      non-negative integers. */
  predicate Valid(s: Submission) {
    s.gameSlug.Some? && !AllTrimChars(s.gameSlug.value) && s.score >= 0 && (s.timeLeft.None? || s.timeLeft.value >= 0)
  }

  /** A slug that `trim` empties is refused, like a missing one; any other
      slug passes this rule. */
  lemma {:induction false} BlankSlugRefused(db: Db, user: Option<nat>, s: Submission, now: int)
    requires s.gameSlug.Some?
    ensures Trim(s.gameSlug.value) == "" ==> SaveScore(db, user, s, now) == Err(ValidationFailed)
    ensures Trim(s.gameSlug.value) != "" && s.score >= 0 && s.timeLeft.None? ==> SaveScore(db, user, s, now).Ok?
  {
    TrimEmptyIff(s.gameSlug.value);
  }

  datatype SaveResponse =
    | Guest
    | Saved(scoreId: nat, isHighscore: bool, bestBefore: Option<int>)

  datatype SaveError = ValidationFailed

  /** `saveScore` for the signed-in `user` (none for a guest) at time
      `now`. */
  function SaveScore(db: Db, user: Option<nat>, s: Submission, now: int): (res: Result<(Db, SaveResponse), SaveError>)
    ensures !Valid(s) <==> res.Err?
    ensures Valid(s) && user.None? ==> res == Ok((db, Guest))
    ensures res.Ok? && user.Some? ==>
              var (db', resp) := res.value;
              var diff := s.difficulty.OrElse("unknown");
              var game := FirstOrCreate(db.games, s.gameSlug.value).1;
              var best := BucketMax(db.scores, user.value, game.id, diff);
              var flagged := best.None? || s.score > best.value;
              && db'.games == FirstOrCreate(db.games, s.gameSlug.value).0
              && resp == Saved(|db.scores| + 1, flagged, best)
              && |db'.scores| == |db.scores| + 1
              && db'.scores[|db.scores|] ==
                   Record(|db.scores| + 1, user.value, game.id, s.score, Some(diff), s.timeLeft, s.result, now, flagged)
              && (forall i :: 0 <= i < |db.scores| && !InBucket(db.scores[i], user.value, game.id, diff) ==>
                    db'.scores[i] == db.scores[i])
              && (forall i :: 0 <= i < |db.scores| && InBucket(db.scores[i], user.value, game.id, diff) ==>
                    db'.scores[i] == db.scores[i].(isHighscore := db.scores[i].isHighscore && !flagged))
  {
    if !Valid(s) then Err(ValidationFailed)
    else if user.None? then Ok((db, Guest))
    else
      var u := user.value;
      var diff := s.difficulty.OrElse("unknown");
      var (games', game) := FirstOrCreate(db.games, s.gameSlug.value);
      var best := BucketMax(db.scores, u, game.id, diff);
      var flagged := best.None? || s.score > best.value;
      var rec := Record(|db.scores| + 1, u, game.id, s.score, Some(diff), s.timeLeft, s.result, now, flagged);
      var kept := if flagged then Demote(db.scores, u, game.id, diff) else db.scores;
      Ok((Db(games', kept + [rec]), Saved(rec.id, flagged, best)))
  }

  /** Auto-increment ids and unique slugs survive a submission. */
  lemma {:induction false} SaveKeepsWellFormed(db: Db, user: Option<nat>, s: Submission, now: int)
    requires WellFormed(db)
    requires SaveScore(db, user, s, now).Ok?
    ensures WellFormed(SaveScore(db, user, s, now).value.0)
  {
    if Valid(s) && user.Some? {
      var slug := s.gameSlug.value;
      if FindGame(db.games, slug).None? {
        var games' := FirstOrCreate(db.games, slug).0;
        assert forall i :: 0 <= i < |db.games| ==> games'[i] == db.games[i];
      }
    }
  }

  /** The bucket invariant holds after every submission that held it
      before. */
  lemma {:induction false} SaveKeepsBucketsSound(db: Db, user: Option<nat>, s: Submission, now: int)
    requires BucketsSound(db.scores)
    requires SaveScore(db, user, s, now).Ok?
    ensures BucketsSound(SaveScore(db, user, s, now).value.0.scores)
  {
    if Valid(s) && user.Some? {
      var u := user.value;
      var diff := s.difficulty.OrElse("unknown");
      var game := FirstOrCreate(db.games, s.gameSlug.value).1;
      var best := BucketMax(db.scores, u, game.id, diff);
      var flagged := best.None? || s.score > best.value;
      var rs := db.scores;
      var rs' := SaveAppends(db, u, s, now);
      AtMostOneFlag(rs, rs', u, game.id, diff, flagged);
      FlagStaysBest(rs, rs', u, game.id, diff, best, flagged);
      FlagStaysPresent(rs, rs', u, game.id, diff, best, flagged);
    }
  }

  /** The rows after a signed-in, valid submission, in the shape
      `Appended` describes. */
  lemma {:induction false} SaveAppends(db: Db, u: nat, s: Submission, now: int) returns (rs': seq<Record>)
    requires Valid(s)
    ensures var diff := s.difficulty.OrElse("unknown");
            var game := FirstOrCreate(db.games, s.gameSlug.value).1;
            var best := BucketMax(db.scores, u, game.id, diff);
            var flagged := best.None? || s.score > best.value;
            && rs' == SaveScore(db, Some(u), s, now).value.0.scores
            && rs'[|db.scores|].score == s.score
            && Appended(db.scores, rs', u, game.id, diff, flagged)
  {
    rs' := SaveScore(db, Some(u), s, now).value.0.scores;
  }

  /** Shape of the table after a submission into bucket (u, g, d): the old
      rows, demoted in the bucket when the new row is flagged, then the new
      row. */
  ghost predicate Appended(rs: seq<Record>, rs': seq<Record>, u: nat, g: nat, d: string, flagged: bool) {
    && |rs'| == |rs| + 1
    && InBucket(rs'[|rs|], u, g, d) && rs'[|rs|].isHighscore == flagged
    && (forall i :: 0 <= i < |rs| && !InBucket(rs[i], u, g, d) ==> rs'[i] == rs[i])
    && (forall i :: 0 <= i < |rs| && InBucket(rs[i], u, g, d) ==>
          rs'[i] == rs[i].(isHighscore := rs[i].isHighscore && !flagged))
  }

  lemma {:induction false} AtMostOneFlag(rs: seq<Record>, rs': seq<Record>, u: nat, g: nat, d: string, flagged: bool)
    requires OneFlag(rs) && Appended(rs, rs', u, g, d, flagged)
    ensures OneFlag(rs')
  {
    forall i, j | 0 <= i < j < |rs'| && SameBucket(rs'[i], rs'[j])
      ensures !(rs'[i].isHighscore && rs'[j].isHighscore)
    {
      if j < |rs| {
        assert SameBucket(rs[i], rs[j]);
      }
    }
  }

  lemma {:induction false} FlagStaysBest(rs: seq<Record>, rs': seq<Record>, u: nat, g: nat, d: string, best: Option<int>, flagged: bool)
    requires FlagIsBest(rs) && Appended(rs, rs', u, g, d, flagged)
    requires best == BucketMax(rs, u, g, d)
    requires flagged == (best.None? || rs'[|rs|].score > best.value)
    ensures FlagIsBest(rs')
  {
    var n := |rs|;
    forall i, j | 0 <= i < |rs'| && 0 <= j < |rs'| && rs'[i].isHighscore && SameBucket(rs'[i], rs'[j])
      ensures rs'[j].score <= rs'[i].score && (j < i ==> rs'[j].score < rs'[i].score)
    {
      if i == n {
        if j < n {
          assert InBucket(rs[j], u, g, d);
        }
      } else if j == n {
        // row i kept its flag, so the new row did not beat the bucket's best
        assert InBucket(rs[i], u, g, d) && rs[i].isHighscore;
        var k :| 0 <= k < n && InBucket(rs[k], u, g, d) && rs[k].score == best.value;
        assert SameBucket(rs[i], rs[k]);
      } else {
        assert rs[i].isHighscore && SameBucket(rs[i], rs[j]);
      }
    }
  }

  lemma {:induction false} FlagStaysPresent(rs: seq<Record>, rs': seq<Record>, u: nat, g: nat, d: string, best: Option<int>, flagged: bool)
    requires FlagPresent(rs) && Appended(rs, rs', u, g, d, flagged)
    requires best == BucketMax(rs, u, g, d)
    requires flagged == (best.None? || rs'[|rs|].score > best.value)
    ensures FlagPresent(rs')
  {
    forall j | Row(rs', j) && rs'[j].difficulty.Some?
      ensures exists i :: 0 <= i < |rs'| && rs'[i].isHighscore && SameBucket(rs'[i], rs'[j])
    {
      var i := FlagOf(rs, rs', u, g, d, best, flagged, j);
    }
  }

  /** The flagged row of row j's bucket after the submission. */
  lemma {:induction false} FlagOf(rs: seq<Record>, rs': seq<Record>, u: nat, g: nat, d: string, best: Option<int>, flagged: bool, j: nat)
    returns (i: nat)
    requires FlagPresent(rs) && Appended(rs, rs', u, g, d, flagged)
    requires best == BucketMax(rs, u, g, d)
    requires flagged == (best.None? || rs'[|rs|].score > best.value)
    requires j < |rs'| && rs'[j].difficulty.Some?
    ensures i < |rs'| && rs'[i].isHighscore && SameBucket(rs'[i], rs'[j])
  {
    var n := |rs|;
    if InBucket(rs'[j], u, g, d) {
      if flagged {
        i := n;
      } else {
        var k :| 0 <= k < n && InBucket(rs[k], u, g, d) && rs[k].score == best.value;
        assert Row(rs, k) && rs[k].difficulty.Some?;
        i :| 0 <= i < n && rs[i].isHighscore && SameBucket(rs[i], rs[k]);
        assert InBucket(rs[i], u, g, d);
      }
    } else {
      assert j < n && rs'[j] == rs[j];
      assert Row(rs, j);
      i :| 0 <= i < n && rs[i].isHighscore && SameBucket(rs[i], rs[j]);
      assert !InBucket(rs[i], u, g, d);
    }
  }
}
