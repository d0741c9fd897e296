/** Answer checking, highscore promotion and the leaderboard query (gameService.js). */
module GameService {
  import opened Common
  import opened Strings
  import opened Db
  import Config
  import Sessions

  /** Feedback after a wrong guess is this text followed by the answer. */
  const IncorrectPrefix := "Incorrect! The correct answer was "

  /**
   * The comparison `checkAnswer` makes: the guess is lower-cased and then
   * trimmed, the answer is only lower-cased.
   */
  predicate GuessMatches(guess: string, answer: string) {
    Trim(Lower(guess)) == Lower(answer)
  }

  /**
   * A guess matches exactly when the answer has no white space at either
   * end and the trimmed guess equals the answer up to letter case.
   */
  lemma MatchCharacterization(guess: string, answer: string)
    ensures GuessMatches(guess, answer) <==> NoOuterSpace(answer) && Lower(Trim(guess)) == Lower(answer)
  {
    LowerTrimCommute(guess);
    LowerKeepsOuterSpace(answer);
  }

  /** An answer with white space at one end cannot be guessed: the answer is never trimmed. */
  lemma UntrimmedAnswerNeverMatches(guess: string, answer: string)
    requires !NoOuterSpace(answer)
    ensures !GuessMatches(guess, answer)
  {
    MatchCharacterization(guess, answer);
  }

  /** The answer in any letter case, padded with white space, is accepted. */
  lemma PaddedCaseVariantMatches(guess: string, answer: string, before: string, after: string)
    requires NoOuterSpace(answer) && AllSpace(before) && AllSpace(after)
    requires Lower(guess) == Lower(answer)
    ensures GuessMatches(before + guess + after, answer)
  {
    LowerAppend(before + guess, after);
    LowerAppend(before, guess);
    LowerOfAllSpace(before);
    LowerOfAllSpace(after);
    LowerKeepsOuterSpace(answer);
    TrimOfPadded(before, Lower(answer), after);
  }

  /** What one answer check reads and writes: the session's score and feedback, and the users table. */
  datatype Game = Game(score: nat, feedback: Option<string>, rows: seq<User>)

  function Max(a: nat, b: nat): nat {
    if a < b then b else a
  }

  /**
   * The highscore step of a correct guess: the first row's highscore is
   * read, and every row of the user is updated when `score` exceeds it.
   * With no row the read throws and nothing is written.
   */
  function Promote(rows: seq<User>, username: string, score: nat): (r: seq<User>)
    ensures |r| == |rows|
    ensures forall i :: 0 <= i < |rows| ==>
      r[i].username == rows[i].username && r[i].passwordHash == rows[i].passwordHash
    ensures forall i :: 0 <= i < |rows| && rows[i].username != username ==> r[i] == rows[i]
  {
    var i := FirstIndex(rows, username);
    if i == |rows| then rows
    else if score > rows[i].highscore then UpdateHighscore(rows, username, score)
    else rows
  }

  /** With distinct usernames, promotion sets the user's highscore to the larger of the two. */
  lemma PromoteIsMax(rows: seq<User>, username: string, score: nat)
    requires UniqueUsernames(rows)
    ensures UniqueUsernames(Promote(rows, username, score))
    ensures forall i :: 0 <= i < |rows| && rows[i].username == username ==>
      Promote(rows, username, score)[i].highscore == Max(rows[i].highscore, score)
  {
    var r := Promote(rows, username, score);
    forall i | 0 <= i < |rows| && rows[i].username == username
      ensures r[i].highscore == Max(rows[i].highscore, score)
    {
      FirstIndexUnique(rows, i);
    }
  }

  /** Promotions commute: the final highscore does not depend on their order. */
  lemma PromoteCommutes(rows: seq<User>, username: string, s1: nat, s2: nat)
    requires UniqueUsernames(rows)
    ensures Promote(Promote(rows, username, s1), username, s2)
         == Promote(Promote(rows, username, s2), username, s1)
  {
    var a1 := Promote(rows, username, s1);
    var b1 := Promote(rows, username, s2);
    PromoteIsMax(rows, username, s1);
    PromoteIsMax(rows, username, s2);
    PromoteIsMax(a1, username, s2);
    PromoteIsMax(b1, username, s1);
    var a, b := Promote(a1, username, s2), Promote(b1, username, s1);
    forall i | 0 <= i < |rows| ensures a[i] == b[i] {
      if rows[i].username == username {
        assert a[i].highscore == Max(Max(rows[i].highscore, s1), s2);
      }
    }
  }

  /**
   * `checkAnswer` on the session state and the table: a match adds one to
   * the score, clears the feedback and promotes the user's highscore; a
   * mismatch resets the score and names the answer in the feedback.
   */
  function Step(g: Game, guess: string, answer: string, username: string): (r: Game)
    ensures r.feedback == None <==> GuessMatches(guess, answer)
    ensures GuessMatches(guess, answer) ==> r.score == g.score + 1
    ensures !GuessMatches(guess, answer) ==>
      r.score == 0 && r.feedback == Some(IncorrectPrefix + answer) && r.rows == g.rows
  {
    if GuessMatches(guess, answer) then
      Game(g.score + 1, None, Promote(g.rows, username, g.score + 1))
    else
      Game(0, Some(IncorrectPrefix + answer), g.rows)
  }

  /** The new table has the same rows with highscores no lower: only highscores change. */
  ghost predicate Raised(before: seq<User>, after: seq<User>) {
    && |after| == |before|
    && forall i :: 0 <= i < |before| ==>
      && after[i].username == before[i].username
      && after[i].passwordHash == before[i].passwordHash
      && after[i].highscore >= before[i].highscore
  }

  lemma RaisedTransitive(a: seq<User>, b: seq<User>, c: seq<User>)
    requires Raised(a, b) && Raised(b, c)
    ensures Raised(a, c)
  {
  }

  /**
   * With distinct usernames an answer check leaves other users' rows alone
   * and sets the user's highscore to the larger of it and the new score.
   */
  lemma StepHighscore(g: Game, guess: string, answer: string, username: string)
    requires UniqueUsernames(g.rows)
    ensures var r := Step(g, guess, answer, username);
      && UniqueUsernames(r.rows)
      && Raised(g.rows, r.rows)
      && (forall i :: 0 <= i < |g.rows| && g.rows[i].username != username ==> r.rows[i] == g.rows[i])
      && (forall i :: 0 <= i < |g.rows| && g.rows[i].username == username ==>
            r.rows[i].highscore == if GuessMatches(guess, answer) then Max(g.rows[i].highscore, r.score)
                                   else g.rows[i].highscore)
  {
    PromoteIsMax(g.rows, username, g.score + 1);
  }

  /** The user's stored highscore is at least the session score. */
  ghost predicate ScoreRecorded(g: Game, username: string) {
    var i := FirstIndex(g.rows, username);
    i < |g.rows| && g.score <= g.rows[i].highscore
  }

  /** An answer check keeps the session score within the user's stored highscore. */
  lemma StepKeepsScoreRecorded(g: Game, guess: string, answer: string, username: string)
    requires UniqueUsernames(g.rows) && ScoreRecorded(g, username)
    ensures ScoreRecorded(Step(g, guess, answer, username), username)
  {
    var r := Step(g, guess, answer, username);
    var i := FirstIndex(g.rows, username);
    StepHighscore(g, guess, answer, username);
    FirstIndexUnique(r.rows, i);
  }

  /** One round of the game: the guess typed and the name of the card shown. */
  datatype Round = Round(guess: string, answer: string)

  /** A sequence of answer checks by the same user. */
  function Play(g: Game, username: string, rounds: seq<Round>): Game
    decreases |rounds|
  {
    if rounds == [] then g
    else Play(Step(g, rounds[0].guess, rounds[0].answer, username), username, rounds[1..])
  }

  /** Over any number of rounds no stored highscore decreases and usernames stay distinct. */
  lemma {:induction false} PlayRaisesHighscores(g: Game, username: string, rounds: seq<Round>)
    requires UniqueUsernames(g.rows)
    ensures UniqueUsernames(Play(g, username, rounds).rows)
    ensures Raised(g.rows, Play(g, username, rounds).rows)
    decreases |rounds|
  {
    if rounds != [] {
      var next := Step(g, rounds[0].guess, rounds[0].answer, username);
      StepHighscore(g, rounds[0].guess, rounds[0].answer, username);
      PlayRaisesHighscores(next, username, rounds[1..]);
      RaisedTransitive(g.rows, next.rows, Play(next, username, rounds[1..]).rows);
    }
  }

  /** Over any number of rounds the session score never exceeds the stored highscore. */
  lemma {:induction false} PlayKeepsScoreRecorded(g: Game, username: string, rounds: seq<Round>)
    requires UniqueUsernames(g.rows) && ScoreRecorded(g, username)
    ensures ScoreRecorded(Play(g, username, rounds), username)
    decreases |rounds|
  {
    if rounds != [] {
      var next := Step(g, rounds[0].guess, rounds[0].answer, username);
      StepKeepsScoreRecorded(g, rounds[0].guess, rounds[0].answer, username);
      StepHighscore(g, rounds[0].guess, rounds[0].answer, username);
      PlayKeepsScoreRecorded(next, username, rounds[1..]);
    }
  }

  /** A run of correct guesses adds one point per round. */
  lemma {:induction false} StreakScore(g: Game, username: string, rounds: seq<Round>)
    requires forall k :: 0 <= k < |rounds| ==> GuessMatches(rounds[k].guess, rounds[k].answer)
    ensures Play(g, username, rounds).score == g.score + |rounds|
    decreases |rounds|
  {
    if rounds != [] {
      var next := Step(g, rounds[0].guess, rounds[0].answer, username);
      StreakScore(next, username, rounds[1..]);
    }
  }

  /** A wrong guess from score 5 against "Knight": the score resets and the feedback names the card. */
  lemma KnightScenario(rows: seq<User>)
    ensures Step(Game(5, None, rows), "Queen", "Knight", "alice")
         == Game(0, Some("Incorrect! The correct answer was Knight"), rows)
  {
    assert |Lower("Queen")| < |Lower("Knight")|;
    assert !GuessMatches("Queen", "Knight");
    assert IncorrectPrefix + "Knight" == "Incorrect! The correct answer was Knight";
  }

  /** A first correct guess, typed in lower case with a trailing blank, lifts a highscore of 0 to 1. */
  lemma FirstCorrectGuessScenario()
    ensures Step(Game(0, None, [User("alice", "digest", 0)]), "knight ", "Knight", "alice")
         == Game(1, None, [User("alice", "digest", 1)])
  {
    assert Lower("knight ") == [] + Lower("Knight") + " ";
    TrimOfPadded([], Lower("Knight"), " ");
  }

  /**
   * `checkAnswer`. The session is updated before the table is read; when
   * the user has no row the read throws and the table is left alone.
   */
  method CheckAnswer(session: Sessions.Session, table: UsersTable, guess: string, answer: string, username: string)
    requires session.score.Some?
    modifies session, table
    ensures var g := Step(Game(old(session.score).value, old(session.feedback), old(table.rows)), guess, answer, username);
      session.score == Some(g.score) && session.feedback == g.feedback && table.rows == g.rows
    ensures session.user == old(session.user) && session.cardName == old(session.cardName)
    ensures session.Valid()
    ensures old(table.Valid()) ==> table.Valid()
  {
    ghost var promoted := Promote(table.rows, username, session.score.value + 1);
    if GuessMatches(guess, answer) {
      session.feedback := None;
      session.score := Some(session.score.value + 1);
      var i := FirstIndex(table.rows, username);
      if i == |table.rows| {
        assert promoted == table.rows;
        return;
      }
      var highscore := table.rows[i].highscore;
      if session.score.value > highscore {
        table.SetHighscore(username, session.score.value);
      }
      assert promoted == table.rows;
    } else {
      session.score := Some(0);
      session.feedback := Some(IncorrectPrefix + answer);
    }
  }

  /**
   * `getUserHighscore`: the stored highscore of the user's first row. `result`
   * is what the `SELECT` returns, `None` when the query throws; that error and
   * the one `rows[0].highscore` throws when there is no row are caught, and
   * give 0.
   */
  function GetUserHighscore(result: Option<seq<User>>, username: string): (h: nat)
    ensures result.None? ==> h == 0
    ensures result.Some? && !Taken(result.value, username) ==> h == 0
    ensures result.Some? && UniqueUsernames(result.value) ==>
      forall i :: 0 <= i < |result.value| && result.value[i].username == username ==>
        h == result.value[i].highscore
  {
    match result
    case None => 0
    case Some(rows) =>
      var i := FirstIndex(rows, username);
      if i < |rows| then
        assert UniqueUsernames(rows) ==>
          forall k :: 0 <= k < |rows| && rows[k].username == username ==> k == i;
        rows[i].highscore
      else 0
  }

  /** The `limit` `getLeaderboard` uses: the argument, or 9 when it is omitted. */
  function LimitOrDefault(limit: Option<int>): int {
    match limit
    case Some(n) => n
    case None => Config.LeaderboardLimit
  }

  /**
   * `getLeaderboard(limit)`: `result.rows.slice(0, limit)` of the users
   * ordered by highscore, highest first. `result` is what the `SELECT`
   * returns, `None` when the query throws, which is caught and gives `[]`.
   */
  function GetLeaderboard(result: Option<seq<User>>, limit: Option<int>): (r: seq<Entry>)
    ensures result.None? ==> r == []
    ensures result.Some? ==> IsTop(result.value, LimitOrDefault(limit), r)
    ensures limit == Some(0) ==> r == []
    ensures limit == None ==> |r| <= Config.LeaderboardLimit
    ensures forall n :: limit == Some(n) && 0 <= n ==> |r| <= n
  {
    match result
    case None => []
    case Some(rows) =>
      var ordered := OrderByHighscoreDesc(rows);
      RankingPrefixIsTop(rows, ordered, LimitOrDefault(limit));
      Slice(ordered, LimitOrDefault(limit))
  }

  /** The ranking the database returns for the three users of `LeaderboardScenario`. */
  lemma ThreeUsersRanking()
    ensures OrderByHighscoreDesc([User("a", "h1", 10), User("b", "h2", 30), User("c", "h3", 20)])
         == [Entry("b", 30), Entry("c", 20), Entry("a", 10)]
  {
    var a, b, c := Entry("a", 10), Entry("b", 30), Entry("c", 20);
    assert Entries([User("a", "h1", 10), User("b", "h2", 30), User("c", "h3", 20)]) == [a, b, c];
    assert SortByScore([b, c]) == [b, c] by {
      assert [b, c][1..] == [c] && [c][1..] == [];
      assert SortByScore([c]) == [c];
    }
    assert InsertByScore(a, [b, c]) == [b, c, a] by {
      assert [b, c][1..] == [c];
      assert InsertByScore(a, [c]) == [c, a] by {
        assert [c][1..] == [];
      }
    }
    assert [a, b, c][1..] == [b, c];
  }

  /** Three users with highscores 10, 30 and 20: the top two are the 30 and the 20. */
  lemma LeaderboardScenario()
    ensures GetLeaderboard(Some([User("a", "h1", 10), User("b", "h2", 30), User("c", "h3", 20)]), Some(2))
         == [Entry("b", 30), Entry("c", 20)]
  {
    var rows := [User("a", "h1", 10), User("b", "h2", 30), User("c", "h3", 20)];
    var ranked := [Entry("b", 30), Entry("c", 20), Entry("a", 10)];
    ThreeUsersRanking();
    assert GetLeaderboard(Some(rows), Some(2)) == Slice(ranked, 2);
    assert Slice(ranked, 2) == ranked[..2];
  }
}
