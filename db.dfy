/**
 * The `users` table and the SQL statements the application runs against it.
 * The table is a sequence of rows in insertion order; a query's `result.rows`
 * is described by the functions below, and the two writing statements
 * (INSERT and UPDATE) are the methods of `UsersTable`.
 */
module Db {

  /** A row of `users`; the `password` column holds the bcrypt digest, never the plain text. */
  datatype User = User(username: string, passwordHash: string, highscore: nat) {
    /** The row as `SELECT username, highscore` returns it. */
    function ToEntry(): Entry {
      Entry(username, highscore)
    }
  }

  /** A row of `SELECT username, highscore FROM users`. */
  datatype Entry = Entry(username: string, highscore: nat)

  /** The application's invariant: no two rows share a username. */
  predicate UniqueUsernames(rows: seq<User>) {
    forall i, j :: 0 <= i < j < |rows| ==> rows[i].username != rows[j].username
  }

  /** Some row has this username. */
  predicate Taken(rows: seq<User>, username: string) {
    exists i :: 0 <= i < |rows| && rows[i].username == username
  }

  /**
   * Position of `result.rows[0]` for `SELECT * FROM users WHERE username = $1`:
   * the first row with that username, or `|rows|` when the result is empty.
   */
  function FirstIndex(rows: seq<User>, username: string): (i: nat)
    ensures i <= |rows|
    ensures forall j :: 0 <= j < i ==> rows[j].username != username
    ensures i < |rows| ==> rows[i].username == username
    ensures i == |rows| <==> !Taken(rows, username)
  {
    if rows == [] then 0
    else if rows[0].username == username then 0
    else 1 + FirstIndex(rows[1..], username)
  }

  /** Under the invariant the row a lookup finds is the only row with that username. */
  lemma FirstIndexUnique(rows: seq<User>, k: nat)
    requires UniqueUsernames(rows) && k < |rows|
    ensures FirstIndex(rows, rows[k].username) == k
  {
  }

  /** `UPDATE users SET highscore = $1 WHERE username = $2`: every matching row takes the value. */
  function UpdateHighscore(rows: seq<User>, username: string, value: nat): (r: seq<User>)
    ensures |r| == |rows|
    ensures forall i :: 0 <= i < |rows| ==>
      r[i].username == rows[i].username && r[i].passwordHash == rows[i].passwordHash
    ensures forall i :: 0 <= i < |rows| && rows[i].username != username ==> r[i] == rows[i]
    ensures forall i :: 0 <= i < |rows| && rows[i].username == username ==> r[i].highscore == value
  {
    seq(|rows|, i requires 0 <= i < |rows| =>
      if rows[i].username == username then rows[i].(highscore := value) else rows[i])
  }

  /** `SELECT username, highscore FROM users`, in table order. */
  function Entries(rows: seq<User>): (r: seq<Entry>)
    ensures |r| == |rows|
    ensures forall i :: 0 <= i < |rows| ==> r[i] == rows[i].ToEntry()
  {
    seq(|rows|, i requires 0 <= i < |rows| => rows[i].ToEntry())
  }

  /** Non-increasing highscores: the order `ORDER BY highscore DESC` promises. */
  predicate Sorted(es: seq<Entry>) {
    forall i, j :: 0 <= i < j < |es| ==> es[i].highscore >= es[j].highscore
  }

  /**
   * A result `SELECT username, highscore FROM users ORDER BY highscore DESC`
   * may return: every row exactly once, highest first. SQL fixes no order
   * among equal highscores, so there may be several.
   */
  ghost predicate IsRanking(rows: seq<User>, ordered: seq<Entry>) {
    Sorted(ordered) && multiset(ordered) == multiset(Entries(rows))
  }

  /** `[x] + es` is sorted when `es` is and `x` ranks at least as high as the head of `es`. */
  lemma ConsSorted(x: Entry, es: seq<Entry>)
    requires Sorted(es)
    requires es != [] ==> x.highscore >= es[0].highscore
    ensures Sorted([x] + es)
  {
    var r := [x] + es;
    forall i, j | 0 <= i < j < |r| ensures r[i].highscore >= r[j].highscore {
      assert r[j] == es[j - 1];
      if 0 < i {
        assert r[i] == es[i - 1];
      }
    }
  }

  lemma TailSorted(es: seq<Entry>)
    requires Sorted(es) && es != []
    ensures Sorted(es[1..])
  {
    forall i, j | 0 <= i < j < |es| - 1 ensures es[1..][i].highscore >= es[1..][j].highscore {
      assert es[1..][i] == es[i + 1] && es[1..][j] == es[j + 1];
    }
  }

  /** Putting the head of `es` back in front of `e` inserted into the tail keeps the order. */
  lemma InsertBehindHead(e: Entry, es: seq<Entry>, rest: seq<Entry>)
    requires Sorted(es) && es != [] && es[0].highscore > e.highscore
    requires Sorted(rest) && multiset(rest) == multiset(es[1..]) + multiset{e}
    requires rest != [] && (rest[0] == e || (|es| > 1 && rest[0] == es[1]))
    ensures Sorted([es[0]] + rest)
    ensures multiset([es[0]] + rest) == multiset(es) + multiset{e}
  {
    ConsSorted(es[0], rest);
    assert es == [es[0]] + es[1..];
  }

  function InsertByScore(e: Entry, es: seq<Entry>): (r: seq<Entry>)
    requires Sorted(es)
    ensures Sorted(r)
    ensures multiset(r) == multiset(es) + multiset{e}
    ensures |r| == |es| + 1 && (r[0] == e || (es != [] && r[0] == es[0]))
  {
    if es == [] then [e]
    else if es[0].highscore > e.highscore then
      TailSorted(es);
      var rest := InsertByScore(e, es[1..]);
      InsertBehindHead(e, es, rest);
      [es[0]] + rest
    else
      ConsSorted(e, es);
      [e] + es
  }

  function SortByScore(es: seq<Entry>): (r: seq<Entry>)
    ensures Sorted(r)
    ensures multiset(r) == multiset(es)
  {
    if es == [] then []
    else
      assert es == [es[0]] + es[1..];
      InsertByScore(es[0], SortByScore(es[1..]))
  }

  /** One ranking the database may return (ties in table order). */
  function OrderByHighscoreDesc(rows: seq<User>): (r: seq<Entry>)
    ensures IsRanking(rows, r)
  {
    SortByScore(Entries(rows))
  }

  /**
   * `a.slice(0, end)`: a prefix of `a`. A non-negative `end` keeps that many
   * elements (all of them when `end` reaches past the end); a negative `end`
   * drops that many from the back (everything when it reaches past the front).
   */
  function Slice<T>(a: seq<T>, end: int): (r: seq<T>)
    ensures |r| <= |a| && r == a[..|r|]
    ensures 0 <= end <= |a| ==> |r| == end
    ensures |a| <= end ==> r == a
    ensures -|a| <= end < 0 ==> |a| - |r| == -end
    ensures end <= -|a| ==> r == []
  {
    if end < 0 then (if |a| + end < 0 then [] else a[..|a| + end])
    else if end < |a| then a[..end]
    else a
  }

  /** How many elements `slice(0, end)` keeps depends only on the length. */
  lemma SliceLength<T, U>(a: seq<T>, b: seq<U>, end: int)
    requires |a| == |b|
    ensures |Slice(a, end)| == |Slice(b, end)|
  {
  }

  /**
   * What a leaderboard `ranking.slice(0, end)` of some ranking is:
   * as long as `slice` makes it, in non-increasing order, each entry some
   * user's `(username, highscore)`, and no user left out has a higher
   * highscore than the last entry shown.
   */
  ghost predicate IsTop(rows: seq<User>, end: int, r: seq<Entry>) {
    && |r| == |Slice(rows, end)|
    && Sorted(r)
    && multiset(r) <= multiset(Entries(rows))
    && (forall u :: u in rows && u.ToEntry() !in r && |r| > 0 ==> u.highscore <= r[|r| - 1].highscore)
  }

  /** A user left out of the first `k` entries of a ranking ranks no higher than entry `k - 1`. */
  lemma OmittedRanksBelow(rows: seq<User>, ordered: seq<Entry>, k: nat, u: User)
    requires IsRanking(rows, ordered)
    requires 0 < k <= |ordered|
    requires u in rows && u.ToEntry() !in ordered[..k]
    ensures u.highscore <= ordered[k - 1].highscore
  {
    var idx :| 0 <= idx < |rows| && rows[idx] == u;
    assert Entries(rows)[idx] == u.ToEntry();
    assert u.ToEntry() in multiset(ordered);
    var j :| 0 <= j < |ordered| && ordered[j] == u.ToEntry();
  }

  /** The first `k` entries of a ranking: sorted, drawn from the users, and no omitted user above the last. */
  lemma RankingPrefix(rows: seq<User>, ordered: seq<Entry>, k: nat)
    requires IsRanking(rows, ordered) && k <= |ordered|
    ensures Sorted(ordered[..k])
    ensures multiset(ordered[..k]) <= multiset(Entries(rows))
    ensures forall u :: u in rows && u.ToEntry() !in ordered[..k] && k > 0 ==>
      u.highscore <= ordered[..k][k - 1].highscore
  {
    var r := ordered[..k];
    assert multiset(r) <= multiset(ordered) by {
      assert ordered == r + ordered[k..];
    }
    forall u | u in rows && u.ToEntry() !in r && k > 0
      ensures u.highscore <= r[k - 1].highscore
    {
      OmittedRanksBelow(rows, ordered, k, u);
    }
  }

  /** Whatever order the database picks among ties, its first entries form a top list. */
  lemma RankingPrefixIsTop(rows: seq<User>, ordered: seq<Entry>, end: int)
    requires IsRanking(rows, ordered)
    ensures IsTop(rows, end, Slice(ordered, end))
  {
    assert |ordered| == |rows| by {
      assert |multiset(ordered)| == |multiset(Entries(rows))|;
    }
    SliceLength(ordered, rows, end);
    var r := Slice(ordered, end);
    RankingPrefix(rows, ordered, |r|);
  }

  /** The users table of the database: `rows` is its content, in insertion order. */
  class UsersTable {
    var rows: seq<User>

    ghost predicate Valid()
      reads this
    {
      UniqueUsernames(rows)
    }

    constructor (initial: seq<User>)
      ensures rows == initial
    {
      rows := initial;
    }

    /** `INSERT INTO users (username, password, highscore) VALUES ($1, $2, 0)`. */
    method Insert(username: string, passwordHash: string)
      modifies this
      ensures rows == old(rows) + [User(username, passwordHash, 0)]
      ensures old(!Taken(rows, username)) && old(Valid()) ==> Valid()
    {
      rows := rows + [User(username, passwordHash, 0)];
    }

    /** `UPDATE users SET highscore = $1 WHERE username = $2`. */
    method SetHighscore(username: string, value: nat)
      modifies this
      ensures rows == UpdateHighscore(old(rows), username, value)
      ensures old(Valid()) ==> Valid()
    {
      rows := UpdateHighscore(rows, username, value);
    }
  }
}
