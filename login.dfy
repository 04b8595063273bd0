/**
 * Logging in. Both the page class (src/pages/LoginPage.cpp) and the legacy
 * CGI program (login.cpp) refuse an empty e-mail or password before touching
 * the database, look for a user row whose address and password hash both
 * match, and on a match open a session whose token becomes the cookie.
 */
module Login {
  import opened Common
  import opened Utils
  import opened Tables
  import opened SessionStore

  const BothRequired := "Email and password are required."
  const BadCredentials := "Invalid email or password."

  /** The users a SELECT ... WHERE user_email = ? AND password_hash = ? finds. */
  function MatchingUsers(users: map<UserId, User>, email: string, passwordHash: string): (r: set<UserId>)
    ensures forall u :: u in r <==> u in users && users[u].email == email && users[u].passwordHash == passwordHash
  {
    set u | u in users && users[u].email == email && users[u].passwordHash == passwordHash
  }

  /** With unique addresses, a user the lookup finds is the only one it finds. */
  lemma AtMostOneMatch(users: map<UserId, User>, email: string, passwordHash: string)
    requires EmailsUnique(users)
    ensures forall u :: u in MatchingUsers(users, email, passwordHash) ==> MatchingUsers(users, email, passwordHash) == {u}
  {
    var m := MatchingUsers(users, email, passwordHash);
    forall u | u in m
      ensures m == {u}
    {
      forall v | v in m
        ensures v == u
      {
        assert users[v].email == users[u].email;
      }
    }
  }

  // ---------------------------------------------------------------------------
  // src/pages/LoginPage.cpp
  // ---------------------------------------------------------------------------

  datatype LoginOutcome =
      /** The form again, with a message and the submitted e-mail (escaped) in its input. */
    | LoginForm(message: string, emailPrefill: string)
      /** A session was opened; `cookieToken` goes into Set-Cookie. */
    | LoggedIn(userId: UserId, cookieToken: string, shownEmail: string)

  /**
   * LoginPage::handlePost. `hash` stands for hashPassword, `token` for the
   * freshly generated session token and `ip` for REMOTE_ADDR (or "unknown").
   * When the database does not answer, the lookup cannot be prepared.
   */
  method LoginPost(db: Database, session: Session, form: map<string, string>,
                   hash: string -> string, token: string, ip: string, now: int)
    returns (outcome: LoginOutcome)
    requires db.Valid() && session.db == db
    modifies db, session
    ensures var email, password := Field(form, "email"), Field(form, "password");
      && (email == "" || password == "" ==>
            outcome == LoginForm(BothRequired, Escaped(email)) && unchanged(db, session))
      && (email != "" && password != "" && !old(db.available) ==>
            outcome == LoginForm("Internal server error.", Escaped(email)) && unchanged(db, session))
      && (email != "" && password != "" && old(db.available)
          && MatchingUsers(old(db.users), email, hash(password)) == {} ==>
            outcome == LoginForm(BadCredentials, Escaped(email)) && unchanged(db, session))
      && (email != "" && password != "" && old(db.available)
          && MatchingUsers(old(db.users), email, hash(password)) != {} ==>
            && outcome.LoggedIn?
            && MatchingUsers(old(db.users), email, hash(password)) == {outcome.userId}
            && outcome.cookieToken == token && outcome.shownEmail == Escaped(email)
            && session.userId == outcome.userId && session.token == token && session.loggedIn
            && db.sessions == (if token in old(db.sessions) then old(db.sessions)
                               else old(db.sessions)[token := SessionRow(outcome.userId, ip, now)])
            && db.users == old(db.users) && db.items == old(db.items) && db.bids == old(db.bids)
            && db.nextUserId == old(db.nextUserId) && db.nextItemId == old(db.nextItemId))
  {
    var email, password := Field(form, "email"), Field(form, "password");
    var shown := HtmlEscape(email);
    if email == "" || password == "" {
      return LoginForm(BothRequired, shown);
    }
    if !db.available {
      return LoginForm("Internal server error.", shown);
    }
    var matches := MatchingUsers(db.users, email, hash(password));
    if !exists u :: u in db.users && db.users[u].email == email && db.users[u].passwordHash == hash(password) {
      assert matches == {};
      return LoginForm(BadCredentials, shown);
    }
    AtMostOneMatch(db.users, email, hash(password));
    var uid :| uid in db.users && db.users[uid].email == email && db.users[uid].passwordHash == hash(password);
    session.Create(uid, token, ip, now);
    outcome := LoggedIn(uid, token, shown);
  }

  // ---------------------------------------------------------------------------
  // login.cpp
  // ---------------------------------------------------------------------------

  datatype LegacyLoginOutcome =
      /** The empty form with a message ("" on a GET). */
    | LegacyLoginForm(message: string)
    | LegacyLoggedIn(userId: UserId, cookieToken: string, shownEmail: string)

  /**
   * login.cpp main. A connection failure has its own message; the session
   * insert's result is not looked at, so the cookie is sent even when no row
   * was written. Every page is rendered through printHead, whose
   * isUserLoggedIn then refreshes or deletes the session row named by the
   * request's own cookie, after the page's own writes.
   */
  method LegacyLogin(db: Database, isPost: bool, form: map<string, string>, httpCookie: Option<string>,
                     hash: string -> string, token: string, ip: string, now: int)
    returns (outcome: LegacyLoginOutcome)
    requires db.Valid()
    modifies db
    ensures db.users == old(db.users) && db.items == old(db.items) && db.bids == old(db.bids)
    ensures db.available == old(db.available) && db.nextUserId == old(db.nextUserId) && db.nextItemId == old(db.nextItemId)
    ensures !isPost ==> outcome == LegacyLoginForm("")
    ensures var email, password := Field(form, "email"), Field(form, "password");
      !isPost || email == "" || password == "" || !old(db.available)
      || MatchingUsers(old(db.users), email, hash(password)) == {} ==>
        db.sessions == HeadSessions(old(db.users), old(db.sessions), httpCookie, old(db.available), now)
    ensures var email, password := Field(form, "email"), Field(form, "password");
      isPost ==>
      && (email == "" || password == "" ==> outcome == LegacyLoginForm(BothRequired))
      && (email != "" && password != "" && !old(db.available) ==>
            outcome == LegacyLoginForm("Database connection failed. Please try again later."))
      && (email != "" && password != "" && old(db.available)
          && MatchingUsers(old(db.users), email, hash(password)) == {} ==>
            outcome == LegacyLoginForm(BadCredentials))
      && (email != "" && password != "" && old(db.available)
          && MatchingUsers(old(db.users), email, hash(password)) != {} ==>
            && outcome.LegacyLoggedIn?
            && MatchingUsers(old(db.users), email, hash(password)) == {outcome.userId}
            && outcome.cookieToken == token && outcome.shownEmail == Escaped(email)
            && var written := if token in old(db.sessions) then old(db.sessions)
                              else old(db.sessions)[token := SessionRow(outcome.userId, ip, now)];
               db.sessions == HeadSessions(db.users, written, httpCookie, true, now))
  {
    outcome := LegacyLoginWrites(db, isPost, form, hash, token, ip, now);
    var _, _ := IsUserLoggedIn(db, httpCookie, now, "");
  }

  /** The statements of login.cpp main up to the rendering of the page chosen. */
  method LegacyLoginWrites(db: Database, isPost: bool, form: map<string, string>,
                           hash: string -> string, token: string, ip: string, now: int)
    returns (outcome: LegacyLoginOutcome)
    requires db.Valid()
    modifies db
    ensures !isPost ==> outcome == LegacyLoginForm("") && unchanged(db)
    ensures var email, password := Field(form, "email"), Field(form, "password");
      isPost ==>
      && (email == "" || password == "" ==> outcome == LegacyLoginForm(BothRequired) && unchanged(db))
      && (email != "" && password != "" && !old(db.available) ==>
            outcome == LegacyLoginForm("Database connection failed. Please try again later.") && unchanged(db))
      && (email != "" && password != "" && old(db.available)
          && MatchingUsers(old(db.users), email, hash(password)) == {} ==>
            outcome == LegacyLoginForm(BadCredentials) && unchanged(db))
      && (email != "" && password != "" && old(db.available)
          && MatchingUsers(old(db.users), email, hash(password)) != {} ==>
            && outcome.LegacyLoggedIn?
            && MatchingUsers(old(db.users), email, hash(password)) == {outcome.userId}
            && outcome.cookieToken == token && outcome.shownEmail == Escaped(email)
            && db.sessions == (if token in old(db.sessions) then old(db.sessions)
                               else old(db.sessions)[token := SessionRow(outcome.userId, ip, now)])
            && db.users == old(db.users) && db.items == old(db.items) && db.bids == old(db.bids)
            && db.available && db.nextUserId == old(db.nextUserId) && db.nextItemId == old(db.nextItemId))
  {
    if !isPost {
      return LegacyLoginForm("");
    }
    var email, password := Field(form, "email"), Field(form, "password");
    if email == "" || password == "" {
      return LegacyLoginForm(BothRequired);
    }
    if !db.available {
      return LegacyLoginForm("Database connection failed. Please try again later.");
    }
    var matches := MatchingUsers(db.users, email, hash(password));
    if !exists u :: u in db.users && db.users[u].email == email && db.users[u].passwordHash == hash(password) {
      assert matches == {};
      return LegacyLoginForm(BadCredentials);
    }
    AtMostOneMatch(db.users, email, hash(password));
    var uid :| uid in db.users && db.users[uid].email == email && db.users[uid].passwordHash == hash(password);
    var _ := db.InsertSession(uid, token, ip, now);
    var shown := HtmlEscape(email);
    outcome := LegacyLoggedIn(uid, token, shown);
  }

  // ---------------------------------------------------------------------------
  // Registration followed by login
  // ---------------------------------------------------------------------------

  /**
   * The row registration writes (a fresh id, an address nobody has, the hash
   * of the password) is exactly what a later login with the same address and
   * password finds.
   */
  lemma RegisteredUserCanLogIn(users: map<UserId, User>, id: UserId, email: string, password: string,
                               hash: string -> string)
    requires id !in users && !EmailTaken(users, email)
    ensures MatchingUsers(users[id := User(email, hash(password))], email, hash(password)) == {id}
  {
    var after := users[id := User(email, hash(password))];
    forall u | u in users
      ensures users[u].email != email
    {
    }
    assert forall u :: u in MatchingUsers(after, email, hash(password)) ==> u == id;
  }
}
