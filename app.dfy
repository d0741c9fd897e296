/**
 * The request handlers of index.js that hold logic: the login verify
 * callback, registration, the two `/guess` routes and the leaderboard.
 * Rendering, redirects and plain text replies are values of `Response`.
 */
module App {
  import opened Common
  import opened Db
  import Config
  import Sessions
  import AuthService
  import GameService

  /** What a handler answers. */
  datatype Response =
    | GuessPage(card: string, currentScore: nat, highscore: nat, feedback: Option<string>)  // index.ejs
    | LeaderboardPage(leaderboard: seq<Entry>)                                               // leaderboard.ejs
    | Redirect(path: string)
    | Send(body: string)
    | NoResponse  // the handler stopped on an error before answering

  /** The two messages the verify callback gives when it rejects a login. */
  const UserNotFound := "User not found"
  const IncorrectPassword := "Incorrect password"

  /** What the verify callback passes to `cb`. */
  datatype Verdict =
    | Authenticated(user: User)   // cb(null, user)
    | Rejected(message: string)   // cb(null, false, {message})
    | Errored                     // cb(err): bcrypt.compare failed

  /**
   * The passport verify callback. `result` is what the `SELECT` returns,
   * `None` when the query throws, which is caught and passed to `cb`.
   * `compare` is `bcrypt.compare`; `None` means it reported an error. The
   * first row with the username is used.
   */
  function Verify(result: Option<seq<User>>, compare: (string, string) -> Option<bool>,
                  username: string, password: string)
    : (v: Verdict)
    ensures result.None? ==> v == Errored
    ensures v == Rejected(UserNotFound) <==>
      result.Some? && AuthService.FindUserByUsername(result, username).None?
    ensures v == Rejected(IncorrectPassword) <==>
      && AuthService.FindUserByUsername(result, username).Some?
      && compare(password, AuthService.FindUserByUsername(result, username).value.passwordHash) == Some(false)
    ensures v.Errored? <==>
      || result.None?
      || (&& AuthService.FindUserByUsername(result, username).Some?
          && compare(password, AuthService.FindUserByUsername(result, username).value.passwordHash) == None)
    ensures v.Authenticated? <==>
      && AuthService.FindUserByUsername(result, username).Some?
      && AuthService.VerifyPassword(compare, password, AuthService.FindUserByUsername(result, username).value.passwordHash)
    ensures v.Authenticated? ==> AuthService.FindUserByUsername(result, username) == Some(v.user)
  {
    match result
    case None => Errored
    case Some(rows) =>
      var i := FirstIndex(rows, username);
      if i < |rows| then
        var user := rows[i];
        match compare(password, user.passwordHash)
        case None => Errored
        case Some(true) => Authenticated(user)
        case Some(false) => Rejected(IncorrectPassword)
      else
        Rejected(UserNotFound)
  }

  /** A user who registered logs in with any password bcrypt accepts for the stored digest. */
  lemma RegisteredUserLogsIn(rows: seq<User>, compare: (string, string) -> Option<bool>,
                             username: string, password: string, digest: string)
    requires AuthService.Registration(rows, username, Some(digest)).Success?
    requires compare(password, digest) == Some(true)
    ensures Verify(Some(AuthService.Registration(rows, username, Some(digest)).value), compare, username, password)
         == Authenticated(User(username, digest, 0))
  {
    AuthService.FoundAfterRegistration(rows, username, Some(digest));
  }

  /** An unknown username and a wrong password are rejected with different messages. */
  lemma RejectionsAreDistinguished(result: Option<seq<User>>, compare: (string, string) -> Option<bool>,
                                   username: string, password: string)
    requires Verify(result, compare, username, password).Rejected?
    ensures result.Some?
    ensures Verify(result, compare, username, password).message == UserNotFound
        <==> !Taken(result.value, username)
  {
  }

  /**
   * POST `/register`: a taken username gets the reply "Username already
   * registered."; otherwise the password is hashed (`hash`, `None` when
   * bcrypt reports an error, which is only logged) and the row is inserted.
   */
  method Register(table: UsersTable, username: string, password: string, hash: string -> Option<string>)
    returns (resp: Response)
    modifies table
    ensures match AuthService.Registration(old(table.rows), username, hash(password))
      case Success(rows) => table.rows == rows && resp == Redirect("/")
      case Failure(DuplicateUsername) =>
        table.rows == old(table.rows) && resp == Send(AuthService.AlreadyRegistered)
      case Failure(HashFailed) => table.rows == old(table.rows) && resp == NoResponse
    ensures old(table.Valid()) ==> table.Valid()
  {
    if FirstIndex(table.rows, username) < |table.rows| {
      return Send(AuthService.AlreadyRegistered);
    }
    var digest := hash(password);
    if digest.None? {
      return NoResponse;
    }
    table.Insert(username, digest.value);
    return Redirect("/");
  }

  /** `score == undefined` becomes 0; a defined score is kept. */
  function ScoreOrZero(score: Option<nat>): nat {
    match score
    case Some(s) => s
    case None => 0
  }

  /**
   * GET `/guess`. A logged-in user gets the score defaulted to 0, the
   * stored highscore read, and the next card (`card`, the fetched card's
   * name, `None` when the fetch failed) stored as the answer. Reading the
   * highscore of a missing row and reading the name of a missing card both
   * throw, after the score was set and before the card is stored.
   */
  method GetGuess(session: Sessions.Session, table: UsersTable, card: Option<string>)
    returns (resp: Response)
    requires session.Valid()
    modifies session
    ensures session.Valid()
    ensures old(session.user).None? ==> resp == Redirect("/") && unchanged(session)
    ensures old(session.user).Some? ==>
      && session.user == old(session.user)
      && session.score == Some(ScoreOrZero(old(session.score)))
      && session.feedback == old(session.feedback)
    ensures old(session.user).Some? ==>
      var i := FirstIndex(table.rows, old(session.user).value.username);
      if i < |table.rows| && card.Some? then
        && session.cardName == card
        && resp == GuessPage(card.value, session.score.value, table.rows[i].highscore, session.feedback)
      else
        session.cardName == old(session.cardName) && resp == NoResponse
  {
    if session.user.None? {
      return Redirect("/");
    }
    if session.score.None? {
      session.score := Some(0);
    }
    var user := session.user.value;
    var i := FirstIndex(table.rows, user.username);
    if i == |table.rows| {
      return NoResponse;
    }
    var highscore := table.rows[i].highscore;
    if card.None? {
      return NoResponse;
    }
    session.cardName := card;
    return GuessPage(card.value, session.score.value, highscore, session.feedback);
  }

  /**
   * POST `/guess`: checks the guess against the stored card name for the
   * logged-in user and redirects to `/guess`. Without a user the handler
   * throws before anything happens; without a stored card `checkAnswer`
   * throws before changing anything, and the redirect still happens.
   */
  method PostGuess(session: Sessions.Session, table: UsersTable, guess: string)
    returns (resp: Response)
    requires session.Valid()
    modifies session, table
    ensures session.Valid()
    ensures session.user == old(session.user) && session.cardName == old(session.cardName)
    ensures old(session.user).None? ==> resp == NoResponse
    ensures old(session.user).Some? ==> resp == Redirect("/guess")
    ensures old(session.user).None? || old(session.cardName).None? ==>
      && session.score == old(session.score) && session.feedback == old(session.feedback)
      && table.rows == old(table.rows)
    ensures old(session.user).Some? && old(session.cardName).Some? ==>
      var g := GameService.Step(
        GameService.Game(old(session.score).value, old(session.feedback), old(table.rows)),
        guess, old(session.cardName).value, old(session.user).value.username);
      session.score == Some(g.score) && session.feedback == g.feedback && table.rows == g.rows
    ensures old(table.Valid()) ==> table.Valid()
  {
    if session.user.None? {
      return NoResponse;
    }
    if session.cardName.Some? {
      GameService.CheckAnswer(session, table, guess, session.cardName.value, session.user.value.username);
    }
    return Redirect("/guess");
  }

  /**
   * GET `/leaderboard`: the first nine users by highscore, highest first.
   * `result` is what the `SELECT` returns, `None` when the query throws; the
   * error is only logged and nothing is sent.
   */
  function Leaderboard(result: Option<seq<User>>): (resp: Response)
    ensures resp.NoResponse? <==> result.None?
    ensures result.Some? ==>
      && resp.LeaderboardPage?
      && IsTop(result.value, Config.LeaderboardLimit, resp.leaderboard)
      && |resp.leaderboard| <= 9
      && resp.leaderboard == GameService.GetLeaderboard(result, None)
  {
    match result
    case None => NoResponse
    case Some(rows) =>
      var ordered := OrderByHighscoreDesc(rows);
      RankingPrefixIsTop(rows, ordered, 9);
      LeaderboardPage(Slice(ordered, 9))
  }
}
