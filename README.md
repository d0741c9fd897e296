# Card guesser: users, login and the guessing game, in Dafny

This project models the core of a small web game in which a registered user
logs in, is shown a trading card and guesses its name. Each correct guess adds
one to the session score. A wrong guess resets the score to 0 and shows the
right name. When the score passes the user's stored highscore, the stored
highscore is raised. A leaderboard lists the nine best highscores.

The model has one module per part of the program:

- `Db` (db.dfy): the `users` table as a sequence of rows `(username,
  passwordHash, highscore)` in insertion order. `FirstIndex` is the row taken as
  `result.rows[0]` of a `SELECT ... WHERE username = $1`: the first in table order.
  `UpdateHighscore` and `UsersTable.Insert` are the two writing statements.
  `OrderByHighscoreDesc` gives one result `ORDER BY highscore DESC` may return.
  `IsRanking` describes all of them, because SQL fixes no order among equal
  highscores. `Slice` is `Array.prototype.slice(0, end)`, negative ends
  included. The invariant the application keeps is `UniqueUsernames`.
- `Strings` (strings.dfy): `toLowerCase` over ASCII letters and `trim` over
  the ECMAScript white-space and line-terminator characters.
- `Sessions` (sessions.dfy): the class `Session`, holding `req.user` and the
  `score`, `feedback` and `cardName` fields of `req.session`.
- `AuthService` (auth_service.dfy): authService.js. `Registration` is the
  check-then-insert that both `createUser` and POST `/register` perform.
- `GameService` (game_service.dfy): gameService.js. `Step` is `checkAnswer`
  as a function of the session score, feedback and table, and `CheckAnswer`
  is the method that changes the session and the table. `Play` runs any
  number of rounds, so that the invariants can be stated over whole games.
- `App` (app.dfy): the handlers of index.js that hold logic. These are the
  passport verify callback, POST `/register`, GET and POST `/guess`, and GET
  `/leaderboard`. What a handler answers is a `Response` value.
- `Config` (config.dfy): `LEADERBOARD_LIMIT` and `SALT_ROUNDS`.

bcrypt appears only as parameters. `hash: string -> Option<string>` is
`bcrypt.hash` with this call's salt; `None` means it reported an error.
`compare: (string, string) -> Option<bool>` is `bcrypt.compare`; `None` means
it reported an error. The card fetched from the card API is also a parameter
(`card: Option<string>`, its name, or `None` when the fetch failed).
Where the code catches a failing `SELECT`, the query's result is a parameter
too (`result: Option<seq<User>>`, `None` when the query throws).

index.js carries its own copy of `checkAnswer` (index.js:92-106). It is the
same code as gameService.js:4-19, with `==` in place of `===`, which agree on
strings. Both are modelled by `GameService.CheckAnswer`, which POST `/guess`
(`App.PostGuess`) calls.

A JavaScript error thrown inside a function is modelled as "stop here":
nothing after it in that function happens, and session fields assigned before
it keep their new values. When a route handler awaits the code that throws,
the handler stops too and answers nothing (`NoResponse`). In GET `/guess` this
covers `rows[0].highscore` on a missing row and `card.name` on a failed fetch.
POST `/guess` calls `checkAnswer` without `await` (index.js:136). An error
inside `checkAnswer` only rejects its promise, so the handler still redirects
to `/guess` (`App.PostGuess`). Such an error is `answer.toLowerCase()` with no
stored card, or `rows[0].highscore` with no row.

Behaviour of the code worth knowing:

- Only the guess is trimmed, not the answer. An answer with white space at
  either end can never be guessed (`GameService.UntrimmedAnswerNeverMatches`).
- The verify callback gives different messages for an unknown user ("User
  not found") and a wrong password ("Incorrect password")
  (`App.RejectionsAreDistinguished`).
- Equal highscores are not ordered by username. The leaderboard properties
  are proved for every order the database may choose (`Db.RankingPrefixIsTop`).
- The highscore is promoted by a read followed by a conditional write, not
  by one atomic update. Sequentially this still gives the larger of the two
  values (`GameService.PromoteIsMax`, `GameService.PromoteCommutes`).
- `UPDATE ... WHERE username` writes every row with that username, and the
  comparison reads the first. Distinct usernames make these the same row.

## Model

| member | source | states |
|---|---|---|
| `Strings.Lower` | gameService.js:5 | `toLowerCase` keeps the length, leaves no upper-case letter, and changes only upper-case letters |
| `Strings.Trim` | gameService.js:5 | `trim` returns the middle of the input with no white space at either end; everything it removed is white space; it is empty exactly for all-blank input |
| `Strings.TrimOfPadded` | gameService.js:5 | trimming white space + t + white space gives back t when t has no outer white space |
| `Strings.TrimIdempotent` | gameService.js:5 | trimming twice is trimming once |
| `Strings.LowerTrimCommute` | gameService.js:5 | lower-casing then trimming the guess is the same as trimming then lower-casing it |
| `Db.FirstIndex` | authService.js:27-28 | the row `result.rows[0]` denotes is the first with the username; there is none exactly when no row has it |
| `Db.FirstIndexUnique` | authService.js:9-17 | with distinct usernames, the lookup finds the one row with that name |
| `Db.UpdateHighscore` | gameService.js:13 | the UPDATE writes the highscore of every row with the username and changes nothing else |
| `Db.InsertByScore` | gameService.js:33 | inserting into a highscore-descending list keeps it sorted and adds exactly that entry |
| `Db.SortByScore` | gameService.js:33 | the ordering is sorted by highscore, highest first, and is a permutation of its input |
| `Db.OrderByHighscoreDesc` | gameService.js:33 | the ORDER BY result lists every user's `(username, highscore)` once, highest first |
| `Db.Slice` | gameService.js:34 | `slice(0, end)` gives a prefix: `end` elements for `0 <= end <= n`, everything when `end >= n`, all but the last `-end` for a negative `end` down to `-n`, nothing below that |
| `Db.SliceLength` | gameService.js:34 | how many elements `slice(0, end)` keeps depends only on the length, so a ranking and its table give equally long slices |
| `Db.OmittedRanksBelow` | gameService.js:33-34 | a user not among the first k entries of a ranking has a highscore no higher than entry k-1 |
| `Db.RankingPrefix` | gameService.js:33-34 | the first k entries of any ranking are sorted, drawn from the users, and no user left out ranks above the last of them |
| `Db.RankingPrefixIsTop` | gameService.js:33-34 | for any tie order, a prefix of the ranking is sorted, drawn from the users, as long as slice makes it, and no omitted user outranks its last entry |
| `Db.UsersTable.Insert` | authService.js:17 | the INSERT appends `(username, hash, 0)` and keeps usernames distinct when the name was free |
| `Db.UsersTable.SetHighscore` | gameService.js:13 | the UPDATE changes only highscores, so usernames stay distinct |
| `Sessions.Session.constructor` | index.js:113-119 | a new session has no score, feedback or card yet (all `undefined`) |
| `AuthService.Registration` | authService.js:9-17 | a taken username fails as a duplicate; otherwise a failed hash fails; otherwise exactly `(username, digest, 0)` is appended |
| `AuthService.CreateUser` | authService.js:6-23 | `createUser` returns true and inserts the new row, or throws the duplicate or hashing error and leaves the table unchanged; distinct usernames are preserved |
| `AuthService.FindUserByUsername` | authService.js:25-33 | null when the query throws; after a successful query, null exactly when no row has the username, else a row of the table with that username, the only one when usernames are distinct |
| `AuthService.VerifyPassword` | authService.js:35-42 | true exactly when bcrypt reports a match; false when the comparison errors |
| `AuthService.RegistrationKeepsUnique` | authService.js:9-17 | a successful registration keeps all usernames distinct |
| `AuthService.RegistrationKeepsOthers` | authService.js:17 | a registration changes no existing row and no other username's lookup |
| `AuthService.FoundAfterRegistration` | authService.js:17-28 | after registering, looking the username up returns the new row with highscore 0 |
| `AuthService.SecondRegistrationFails` | authService.js:9-13 | registering the same username again fails with "Username already registered." |
| `GameService.MatchCharacterization` | gameService.js:5 | a guess matches exactly when the answer has no outer white space and the trimmed guess equals the answer up to case |
| `GameService.UntrimmedAnswerNeverMatches` | gameService.js:5 | an answer with white space at either end matches no guess |
| `GameService.PaddedCaseVariantMatches` | gameService.js:5 | the answer in any letter case with white space around it matches |
| `GameService.Promote` | gameService.js:9-14 | the highscore step changes only highscores and only the user's rows; with no row it changes nothing |
| `GameService.PromoteIsMax` | gameService.js:9-14 | with distinct usernames the user's highscore becomes the larger of the stored value and the new score |
| `GameService.PromoteCommutes` | gameService.js:9-14 | two promotions give the same table in either order |
| `GameService.Step` | gameService.js:4-19 | a match gives score + 1 and clears the feedback; a mismatch gives 0, feedback "Incorrect! The correct answer was " + answer, and the table unchanged |
| `GameService.RaisedTransitive` | gameService.js:9-14 | "only highscores rose" composes over consecutive changes |
| `GameService.StepHighscore` | gameService.js:5-18 | one check keeps usernames distinct, never lowers a highscore, leaves other users' rows unchanged, and sets the user's to `max(old, new score)` on a match |
| `GameService.StepKeepsScoreRecorded` | gameService.js:5-18 | if the stored highscore is at least the session score before a check, it is after |
| `GameService.PlayRaisesHighscores` | gameService.js:4-19 | over any sequence of guesses no stored highscore decreases and usernames stay distinct |
| `GameService.PlayKeepsScoreRecorded` | gameService.js:4-19 | over any sequence of guesses the session score never exceeds the stored highscore |
| `GameService.StreakScore` | gameService.js:7 | n correct guesses in a row add exactly n to the score |
| `GameService.KnightScenario` | gameService.js:15-17 | a wrong guess from score 5 against "Knight" gives score 0 and "Incorrect! The correct answer was Knight" |
| `GameService.FirstCorrectGuessScenario` | gameService.js:5-14 | "knight " for "Knight" from score 0 gives score 1 and raises a highscore of 0 to 1 |
| `GameService.CheckAnswer` | gameService.js:4-19 | the session score and feedback and the table become those of `Step`; user and card are untouched; distinct usernames are preserved |
| `GameService.GetUserHighscore` | gameService.js:21-29 | 0 when the query throws or there is no row; otherwise the stored highscore of the user |
| `GameService.GetLeaderboard` | gameService.js:31-39 | `[]` when the query throws; otherwise a sorted top list of at most `limit` (default 9) users' `(username, highscore)`; no omitted user outranks the last; `limit` 0 gives the empty list |
| `GameService.ThreeUsersRanking` | gameService.js:33 | highscores a:10, b:30, c:20 are ordered b:30, c:20, a:10 |
| `GameService.LeaderboardScenario` | gameService.js:31-34 | with highscores a:10, b:30, c:20, limit 2 gives b:30 then c:20 |
| `App.Verify` | index.js:186-214 | an error when the query throws; "User not found" exactly when the query succeeds and no row has the username; "Incorrect password" exactly when bcrypt says no; an error when bcrypt fails; else the user's row, exactly when `verifyPassword` would accept |
| `App.RegisteredUserLogsIn` | index.js:193-202 | a user just registered with a digest logs in with a password bcrypt accepts for it, and gets the new row |
| `App.RejectionsAreDistinguished` | index.js:204-209 | a rejection comes from a successful query, and says "User not found" exactly when the username is unknown |
| `App.Register` | index.js:140-166 | a taken username gets "Username already registered." and no insert; a hash error inserts nothing and sends nothing; otherwise `(username, hash, 0)` is inserted and the client goes to `/` |
| `App.GetGuess` | index.js:112-130 | anonymous: redirect to `/`, session unchanged; logged in: an undefined score becomes 0, a defined one is kept, feedback is kept, and the fetched card's name is stored and shown with the stored highscore unless the row or the card is missing |
| `App.PostGuess` | index.js:132-138 | with a user and a stored card, score, feedback and table become those of `Step` against the stored card name; with no card nothing changes; with no user nothing happens and nothing is sent |
| `App.Leaderboard` | index.js:223-231 | nothing is sent exactly when the query throws; otherwise the page lists the same top nine as `getLeaderboard()`, sorted, highest first |

## Left out

- Card fetching (apiService.js and index.js:47-90) is HTTP plus `Math.random`. The fetched card's name is a parameter of `App.GetGuess`.
- bcrypt is not modelled. Hashing and comparison are parameters and no cryptographic property is claimed. `SALT_ROUNDS` is only a constant.
- The Express, passport, session and flash plumbing is left out: POST `/login` (index.js:172-184), logout (index.js:216-221), serialisation of the user (index.js:233-239), rendering and cookie expiry. A session is created by `Sessions.Session.constructor` with the logged-in user.
- Concurrency is left out and everything runs in sequence. This includes the un-awaited `checkAnswer` call, after which the redirect may be answered first. It also includes the race between two registrations of one username, and the race between reading and writing a highscore.
- Database failures are modelled only for the `SELECT`s whose errors the code catches on the spot: `findUserByUsername` (null), `getUserHighscore` (0), `getLeaderboard` (`[]`), the verify callback (`cb(error)`) and GET `/leaderboard` (nothing sent). The queries of `createUser`, POST `/register`, GET `/guess` and `checkAnswer`, and every INSERT and UPDATE, are taken to succeed.
- What a request whose handler throws finally gets depends on the versions of Express, express-session and Node, which the sources do not fix. Under Express 4 the request is never answered, and express-session saves the session only when a response ends, so changes made before the error (the score GET `/guess` sets to 0) are lost. Node 15 and later end the process on the unhandled rejection of an un-awaited `checkAnswer`. Express 5 answers 500. The model keeps the session changes and answers `NoResponse`.
- Row order of a lookup: a `SELECT` without `ORDER BY` fixes no row order, and the database may move an updated row. The model takes the first row in table order. This matters only when a username repeats, which `UniqueUsernames` excludes.
- `null` and `undefined` are the one value `None` in the session fields. The handlers only test `== undefined`, which does not tell them apart, so GET `/guess` turning an undefined feedback into `null` (index.js:114-116) changes nothing in the model.
- Strings.Lower: only the ASCII letters A-Z are lower-cased; Unicode case mapping is not modelled.
- GameService.CheckAnswer: requires a defined score. `undefined + 1` is `NaN` in JavaScript, and a session that holds a card always has a score.
- App.PostGuess: the guess is taken to be a string. A missing form field would make `toLowerCase` throw before anything changes.
- GameService.GetLeaderboard: `limit` is an integer; JavaScript's conversion of a non-integer `limit` is not modelled.
