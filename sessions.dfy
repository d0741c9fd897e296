/**
 * The per-client state the handlers read and write: `req.user`, set by the
 * authentication layer at login, and the `req.session` fields of the game.
 */
module Sessions {
  import opened Common
  import Db

  class Session {
    /** `req.user`: the row passport stored in the session at login; `None` when not logged in. */
    var user: Option<Db.User>
    /** `req.session.score`; `None` while it is still `undefined`. */
    var score: Option<nat>
    /**
     * `req.session.feedback`; `None` stands for both `null` and `undefined`,
     * which the handlers' `== undefined` test does not tell apart.
     */
    var feedback: Option<string>
    /** `req.session.cardName`: the answer to the card shown last; `None` while `undefined`. */
    var cardName: Option<string>

    /** A card is only ever stored after the score has been initialised. */
    ghost predicate Valid()
      reads this
    {
      cardName.Some? ==> score.Some?
    }

    /** A fresh session, just after login (or anonymous when `user` is `None`). */
    constructor (user: Option<Db.User>)
      ensures Valid()
      ensures this.user == user && score == None && feedback == None && cardName == None
    {
      this.user := user;
      score, feedback, cardName := None, None, None;
    }
  }
}
