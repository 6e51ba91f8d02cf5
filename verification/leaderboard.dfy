/** The public Top-N of a game and difficulty, and a player's own rank,
    over the flagged rows of the score table. */
module Leaderboard {
  import opened Wrappers
  import opened Seqs
  import opened Text
  import opened ScoreLedger

  /** Higher score first, then the earlier time. */
  function RankKey(r: Record): Key {
    Key(-r.score, r.achievedAt)
  }

  /** The `myRank` comparison: `a` is counted ahead of `b` when it scored
      more, or the same and earlier. */
  predicate Outranks(a: Record, b: Record) {
    a.score > b.score || (a.score == b.score && a.achievedAt < b.achievedAt)
  }

  /** Counting ahead agrees with the Top ordering: `a` outranks `b` exactly
      when its key comes strictly first. */
  lemma {:induction false} OutranksIsKeyBefore(a: Record, b: Record)
    ensures Outranks(a, b) <==> KeyLe(RankKey(a), RankKey(b)) && RankKey(a) != RankKey(b)
  {
  }

  /** The flagged rows of a game and difficulty, in table order. */
  function Flagged(rs: seq<Record>, game: nat, diff: string): (r: seq<Record>)
    ensures forall x :: x in r <==> x in rs && x.isHighscore && x.gameId == game && x.difficulty == Some(diff)
  {
    if |rs| == 0 then []
    else
      var x := rs[0];
      (if x.isHighscore && x.gameId == game && x.difficulty == Some(diff) then [x] else []) + Flagged(rs[1..], game, diff)
  }

  /** `max(1, min($limit, 50))`. */
  function ClampLimit(limit: int): (n: int)
    ensures 1 <= n <= 50
    ensures 1 <= limit <= 50 ==> n == limit
    ensures limit < 1 ==> n == 1
    ensures limit > 50 ==> n == 50
  {
    if limit < 1 then 1 else if limit > 50 then 50 else limit
  }

  datatype Entry = Entry(rank: nat, userId: nat, score: int, achievedAt: int)

  datatype Error = MissingParameters   // 422

  function EntryOf(rank: nat, r: Record): Entry {
    Entry(rank, r.userId, r.score, r.achievedAt)
  }

  /** The whole ordering the Top-N is cut from. */
  function Ordered(rs: seq<Record>, game: nat, diff: string): (r: seq<Record>)
    ensures SortedBy(r, RankKey)
    ensures multiset(r) == multiset(Flagged(rs, game, diff))
  {
    SortBy(Flagged(rs, game, diff), RankKey)
  }

  /** `leaderboard`: a missing or falsy slug or difficulty is refused; an
      unknown game has an empty list; otherwise the flagged rows sorted by
      score descending then time ascending, cut at the clamped limit
      (5 when not given), ranked from 1. */
  function Top(db: Db, slug: Option<string>, difficulty: Option<string>, limit: Option<int>): (res: Result<seq<Entry>, Error>)
    ensures res.Err? <==> slug.None? || !PhpTruthy(slug.value) || difficulty.None? || !PhpTruthy(difficulty.value)
    ensures res.Ok? && FindGame(db.games, slug.value).None? ==> res.value == []
    ensures res.Ok? && FindGame(db.games, slug.value).Some? ==>
              var game := db.games[FindGame(db.games, slug.value).value];
              var all := Ordered(db.scores, game.id, difficulty.value);
              var n := ClampLimit(limit.OrElse(5));
              && |res.value| == (if |all| < n then |all| else n)
              && forall i :: 0 <= i < |res.value| ==> res.value[i] == EntryOf(i + 1, all[i])
  {
    if slug.None? || !PhpTruthy(slug.value) || difficulty.None? || !PhpTruthy(difficulty.value) then
      Err(MissingParameters)
    else
      match FindGame(db.games, slug.value)
      case None => Ok([])
      case Some(k) =>
        Ok(Ranked(Ordered(db.scores, db.games[k].id, difficulty.value), ClampLimit(limit.OrElse(5))))
  }

  /** The first `n` rows, numbered from 1. */
  function Ranked(all: seq<Record>, n: int): (res: seq<Entry>)
    ensures |res| == if n < 0 then 0 else if |all| < n then |all| else n
    ensures forall i :: 0 <= i < |res| ==> res[i] == EntryOf(i + 1, all[i])
  {
    var shown := Take(all, n);
    seq(|shown|, i requires 0 <= i < |shown| => EntryOf(i + 1, shown[i]))
  }

  /** The Top-N lists only flagged rows of the game and difficulty, ranks
      run 1..n, and no row is listed after one it outranks. */
  lemma {:induction false} TopIsOrdered(db: Db, slug: Option<string>, difficulty: Option<string>, limit: Option<int>)
    requires slug.Some? && PhpTruthy(slug.value) && difficulty.Some? && PhpTruthy(difficulty.value)
    requires FindGame(db.games, slug.value).Some?
    ensures var top := Top(db, slug, difficulty, limit).value;
            var game := db.games[FindGame(db.games, slug.value).value];
            var all := Ordered(db.scores, game.id, difficulty.value);
            && |top| <= 50
            && (forall i :: 0 <= i < |top| ==> top[i].rank == i + 1 && all[i] in Flagged(db.scores, game.id, difficulty.value))
            && (forall i, j :: 0 <= i < j < |top| ==> !Outranks(all[j], all[i]))
  {
    var game := db.games[FindGame(db.games, slug.value).value];
    OrderedRows(db.scores, game.id, difficulty.value);
  }

  /** Every row of the ordering is a flagged row, and none outranks a row
      placed before it. */
  lemma {:induction false} OrderedRows(rs: seq<Record>, game: nat, diff: string)
    ensures var all := Ordered(rs, game, diff);
            && (forall i :: 0 <= i < |all| ==> all[i] in Flagged(rs, game, diff))
            && (forall i, j :: 0 <= i < j < |all| ==> !Outranks(all[j], all[i]))
  {
    var all := Ordered(rs, game, diff);
    forall i | 0 <= i < |all| ensures all[i] in Flagged(rs, game, diff) {
      assert all[i] in multiset(all);
    }
    forall i, j | 0 <= i < j < |all| ensures !Outranks(all[j], all[i]) {
      OutranksIsKeyBefore(all[j], all[i]);
    }
  }

  // ---------------------------------------------------------------------
  // myRank

  /** The number of rows in `s` that outrank `b`. */
  function CountAhead(s: seq<Record>, b: Record): (n: nat)
    ensures n <= |s|
  {
    if |s| == 0 then 0 else (if Outranks(s[0], b) then 1 else 0) + CountAhead(s[1..], b)
  }

  lemma {:induction false} CountAheadAppend(s: seq<Record>, t: seq<Record>, b: Record)
    ensures CountAhead(s + t, b) == CountAhead(s, b) + CountAhead(t, b)
  {
    if |s| == 0 {
      assert s + t == t;
    } else {
      CountAheadAppend(s[1..], t, b);
      assert (s + t)[1..] == s[1..] + t;
    }
  }

  /** Removing the row at position k takes its own contribution off the count. */
  lemma {:induction false} CountAheadRemove(t: seq<Record>, k: nat, b: Record)
    requires k < |t|
    ensures CountAhead(t, b) == CountAhead(t[..k] + t[k + 1..], b) + (if Outranks(t[k], b) then 1 else 0)
  {
    assert t == t[..k] + [t[k]] + t[k + 1..];
    CountAheadAppend(t[..k] + [t[k]], t[k + 1..], b);
    CountAheadAppend(t[..k], [t[k]], b);
    CountAheadAppend(t[..k], t[k + 1..], b);
  }

  /** The count depends only on which rows there are, not on their order. */
  lemma {:induction false} CountAheadPermutation(s: seq<Record>, t: seq<Record>, b: Record)
    requires multiset(s) == multiset(t)
    ensures CountAhead(s, b) == CountAhead(t, b)
    decreases |s|
  {
    if |s| == 0 {
      assert |t| == |multiset(t)| == 0;
    } else {
      var x := s[0];
      assert x in multiset(t);
      var k :| 0 <= k < |t| && t[k] == x;
      var t' := t[..k] + t[k + 1..];
      PermutationTail(s, t, k);
      CountAheadPermutation(s[1..], t', b);
      CountAheadRemove(t, k, b);
      assert CountAhead(s, b) == (if Outranks(x, b) then 1 else 0) + CountAhead(s[1..], b);
    }
  }

  /** In a sorted list, nothing at or after a row's position outranks it. */
  lemma {:induction false} NoneAheadAfter(s: seq<Record>, b: Record)
    requires forall i :: 0 <= i < |s| ==> KeyLe(RankKey(b), RankKey(s[i]))
    ensures CountAhead(s, b) == 0
  {
    if |s| > 0 {
      NoneAheadAfter(s[1..], b);
    }
  }

  /** Rows strictly before `b`'s key all outrank it. */
  lemma {:induction false} AllAheadBefore(s: seq<Record>, b: Record)
    requires forall i :: 0 <= i < |s| ==> KeyLe(RankKey(s[i]), RankKey(b)) && RankKey(s[i]) != RankKey(b)
    ensures CountAhead(s, b) == |s|
  {
    if |s| > 0 {
      AllAheadBefore(s[1..], b);
    }
  }

  datatype Me = Me(rank: nat, userId: nat, score: int, achievedAt: int)

  /** A player's best row among `rows`: none when the player has no row,
      otherwise one of theirs whose key is first among theirs. */
  function BestOf(rows: seq<Record>, user: nat): (r: Option<Record>)
    ensures r.None? <==> forall x :: x in rows ==> x.userId != user
    ensures r.Some? ==> r.value in rows && r.value.userId == user
    ensures r.Some? ==> forall x :: x in rows && x.userId == user ==> KeyLe(RankKey(r.value), RankKey(x))
  {
    if |OfUser(rows, user)| == 0 then
      None
    else
      BestIsFirst(rows, user);
      Some(SortBy(OfUser(rows, user), RankKey)[0])
  }

  lemma {:induction false} BestIsFirst(rows: seq<Record>, user: nat)
    requires |SortBy(OfUser(rows, user), RankKey)| > 0
    ensures var mine := SortBy(OfUser(rows, user), RankKey);
            && mine[0] in rows && mine[0].userId == user
            && forall x :: x in rows && x.userId == user ==> KeyLe(RankKey(mine[0]), RankKey(x))
  {
    var mine := SortBy(OfUser(rows, user), RankKey);
    assert mine[0] in multiset(mine);
    forall x | x in rows && x.userId == user ensures KeyLe(RankKey(mine[0]), RankKey(x)) {
      assert x in multiset(mine);
      var j :| 0 <= j < |mine| && mine[j] == x;
      assert j == 0 || KeyLe(RankKey(mine[0]), RankKey(mine[j]));
    }
  }

  /** `myRank` over the flagged rows of one game and difficulty: the
      player's best row (see `BestOf`) ranked one past the rows ahead of it. */
  function RankIn(rows: seq<Record>, user: nat): (me: Option<Me>)
    ensures me.None? <==> forall x :: x in rows ==> x.userId != user
    ensures me.Some? ==>
              (BestOf(rows, user).Some? &&
               var r := BestOf(rows, user).value;
               me.value == Me(1 + CountAhead(rows, r), user, r.score, r.achievedAt))
  {
    match BestOf(rows, user)
    case None => None
    case Some(best) => Some(Me(1 + CountAhead(rows, best), user, best.score, best.achievedAt))
  }

  /** `myRank`: refused without slug and difficulty; null for an unknown
      game or a player with no flagged row there; otherwise the player's
      best flagged row and 1 + the number of flagged rows ahead of it. */
  function MyRank(db: Db, user: nat, slug: Option<string>, difficulty: Option<string>): (res: Result<Option<Me>, Error>)
    ensures res.Err? <==> slug.None? || !PhpTruthy(slug.value) || difficulty.None? || !PhpTruthy(difficulty.value)
    ensures res.Ok? && FindGame(db.games, slug.value).None? ==> res.value.None?
    ensures res.Ok? && FindGame(db.games, slug.value).Some? ==>
              res.value == RankIn(Flagged(db.scores, db.games[FindGame(db.games, slug.value).value].id, difficulty.value), user)
  {
    if slug.None? || !PhpTruthy(slug.value) || difficulty.None? || !PhpTruthy(difficulty.value) then
      Err(MissingParameters)
    else
      match FindGame(db.games, slug.value)
      case None => Ok(None)
      case Some(k) => Ok(RankIn(Flagged(db.scores, db.games[k].id, difficulty.value), user))
  }

  /** In a sorted list, the rows ahead of position p number at most p,
      and exactly p when no two keys coincide. */
  lemma {:induction false} RankInSorted(all: seq<Record>, p: nat)
    requires SortedBy(all, RankKey) && p < |all|
    ensures CountAhead(all, all[p]) <= p
    ensures Distinct(KeysOf(all)) ==> CountAhead(all, all[p]) == p
  {
    var b := all[p];
    assert all == all[..p] + [b] + all[p + 1..];
    CountAheadAppend(all[..p] + [b], all[p + 1..], b);
    CountAheadAppend(all[..p], [b], b);
    NoneAheadAfter(all[p + 1..], b);
    assert CountAhead([b], b) == 0;
    if Distinct(KeysOf(all)) {
      forall i | 0 <= i < p ensures KeyLe(RankKey(all[..p][i]), RankKey(b)) && RankKey(all[..p][i]) != RankKey(b) {
        assert KeysOf(all)[i] != KeysOf(all)[p];
      }
      AllAheadBefore(all[..p], b);
    }
  }

  /** The rank `myRank` reports for a row sitting at position p of the
      Top ordering is at most p + 1, and exactly p + 1 when no two flagged
      rows share both score and time. */
  lemma {:induction false} RankMatchesPosition(rs: seq<Record>, game: nat, diff: string, p: nat)
    requires p < |Ordered(rs, game, diff)|
    ensures var all := Ordered(rs, game, diff);
            var rows := Flagged(rs, game, diff);
            && 1 + CountAhead(rows, all[p]) <= p + 1
            && (Distinct(KeysOf(all)) ==> 1 + CountAhead(rows, all[p]) == p + 1)
  {
    var all := Ordered(rs, game, diff);
    CountAheadPermutation(Flagged(rs, game, diff), all, all[p]);
    RankInSorted(all, p);
  }

  /** With at most one flagged row per bucket, two flagged rows of the
      same bucket are the same row. */
  lemma {:induction false} FlaggedUnique(rs: seq<Record>, a: Record, b: Record)
    requires OneFlag(rs)
    requires a in rs && b in rs && a.isHighscore && b.isHighscore && SameBucket(a, b)
    ensures a == b
  {
    var i :| 0 <= i < |rs| && rs[i] == a;
    var j :| 0 <= j < |rs| && rs[j] == b;
    assert !(i < j);
    assert SameBucket(b, a);
    assert !(j < i);
  }

  /** A player's flagged row in a game and difficulty is their only one. */
  lemma {:induction false} OnlyFlaggedRow(rs: seq<Record>, game: nat, diff: string, b: Record)
    requires OneFlag(rs) && b in Flagged(rs, game, diff)
    ensures forall x :: x in Flagged(rs, game, diff) && x.userId == b.userId ==> x == b
  {
    forall x | x in Flagged(rs, game, diff) && x.userId == b.userId ensures x == b {
      FlaggedUnique(rs, x, b);
    }
  }

  /** A player with a single row is ranked by that row: one past the
      rows ahead of it. */
  lemma {:induction false} RankOfOnlyRow(rows: seq<Record>, user: nat, b: Record, ahead: nat)
    requires b in rows && b.userId == user
    requires forall x :: x in rows && x.userId == user ==> x == b
    requires CountAhead(rows, b) == ahead
    ensures RankIn(rows, user) == Some(Me(ahead + 1, user, b.score, b.achievedAt))
  {
    BestOfOnlyRow(rows, user, b);
    RankInOfBest(rows, user, b);
  }

  /** A player's single row is their best. */
  lemma {:induction false} BestOfOnlyRow(rows: seq<Record>, user: nat, b: Record)
    requires b in rows && b.userId == user
    requires forall x :: x in rows && x.userId == user ==> x == b
    ensures BestOf(rows, user) == Some(b)
  {
  }

  /** The rank is taken at the best row. */
  lemma {:induction false} RankInOfBest(rows: seq<Record>, user: nat, b: Record)
    requires BestOf(rows, user) == Some(b)
    ensures RankIn(rows, user) == Some(Me(1 + CountAhead(rows, b), user, b.score, b.achievedAt))
  {
  }

  /** A player whose only row sits at position p of a sorted copy of the
      rows, with no two keys equal, is ranked p + 1. */
  lemma {:induction false} RankOfSortedPosition(rows: seq<Record>, all: seq<Record>, user: nat, p: nat)
    requires multiset(all) == multiset(rows) && SortedBy(all, RankKey) && Distinct(KeysOf(all))
    requires p < |all| && all[p].userId == user
    requires forall x :: x in rows && x.userId == user ==> x == all[p]
    ensures RankIn(rows, user) == Some(Me(p + 1, user, all[p].score, all[p].achievedAt))
  {
    var b := all[p];
    assert CountAhead(rows, b) == p by {
      CountAheadOfSorted(rows, all, p);
    }
    assert b in rows by {
      assert b in multiset(all);
    }
    RankOfOnlyRow(rows, user, b, p);
  }

  /** The row at position p of a sorted copy, with no two keys equal, has
      exactly p rows ahead of it. */
  lemma {:induction false} CountAheadOfSorted(rows: seq<Record>, all: seq<Record>, p: nat)
    requires multiset(all) == multiset(rows) && SortedBy(all, RankKey) && Distinct(KeysOf(all))
    requires p < |all|
    ensures CountAhead(rows, all[p]) == p
  {
    CountAheadPermutation(rows, all, all[p]);
    RankInSorted(all, p);
  }

  /** On rows with one flagged row per bucket and no two flagged rows
      tied on score and time, the player whose row sits at position p of
      the ordering is ranked p + 1. */
  lemma {:induction false} RankOfPosition(rs: seq<Record>, game: nat, diff: string, user: nat, p: nat)
    requires OneFlag(rs)
    requires Distinct(KeysOf(Ordered(rs, game, diff)))
    requires p < |Ordered(rs, game, diff)| && Ordered(rs, game, diff)[p].userId == user
    ensures var b := Ordered(rs, game, diff)[p];
            RankIn(Flagged(rs, game, diff), user) == Some(Me(p + 1, user, b.score, b.achievedAt))
  {
    var all := Ordered(rs, game, diff);
    assert all[p] in multiset(Flagged(rs, game, diff));
    OnlyFlaggedRow(rs, game, diff, all[p]);
    RankOfSortedPosition(Flagged(rs, game, diff), all, user, p);
  }

  /** So `myRank` reports for a player exactly the rank the Top-N shows
      for that player's entry. */
  lemma {:induction false} MyRankAgreesWithTop(db: Db, user: nat, slug: Option<string>, difficulty: Option<string>, limit: Option<int>, p: nat)
    requires OneFlag(db.scores)
    requires slug.Some? && PhpTruthy(slug.value) && difficulty.Some? && PhpTruthy(difficulty.value)
    requires FindGame(db.games, slug.value).Some?
    requires Distinct(KeysOf(Ordered(db.scores, db.games[FindGame(db.games, slug.value).value].id, difficulty.value)))
    requires p < |Top(db, slug, difficulty, limit).value| && Top(db, slug, difficulty, limit).value[p].userId == user
    ensures var e := Top(db, slug, difficulty, limit).value[p];
            MyRank(db, user, slug, difficulty) == Ok(Some(Me(e.rank, user, e.score, e.achievedAt)))
  {
    var game := db.games[FindGame(db.games, slug.value).value];
    RankOfPosition(db.scores, game.id, difficulty.value, user, p);
  }

  /** The keys of a list of rows, in order. */
  function KeysOf(s: seq<Record>): (ks: seq<Key>)
    ensures |ks| == |s| && forall i :: 0 <= i < |s| ==> ks[i] == RankKey(s[i])
  {
    seq(|s|, i requires 0 <= i < |s| => RankKey(s[i]))
  }
}
