/**
 * Login sessions. A visitor's browser holds a `session_token` cookie; the
 * `sessions` table maps the token to a user and the time the session was last
 * used. A session stays valid while it is used at least every five minutes,
 * and every successful check moves `last_active` to the present.
 *
 * Two implementations exist side by side:
 *  - the legacy one (isUserLoggedIn in utils.cpp, copied inline in index.cpp)
 *    accepts an inactivity of at most 300 seconds, measured by MySQL and read
 *    into an unsigned 64-bit variable (a negative difference fails the fetch
 *    and counts as no session), and deletes a session it finds stale;
 *  - the Session class of src/core/Session.cpp accepts only a `last_active`
 *    strictly later than five minutes ago and never deletes on expiry.
 */
module SessionStore {
  import opened Common
  import opened Utils
  import opened Tables

  /** Five minutes, in seconds. */
  const Window: int := 300
  /** Sizes of the buffers the e-mail address is fetched into. */
  const LegacyEmailBuffer: int := 256
  const SessionEmailBuffer: int := 128

  /** The token the request's Cookie header carries (no header: ""). */
  function CookieToken(httpCookie: Option<string>): string
  {
    match httpCookie
    case None => ""
    case Some(c) => GetCookieValue(c, "session_token")
  }

  /** The session row of `token` and the user it belongs to both exist (the JOIN finds a row). */
  predicate Joined(users: map<UserId, User>, sessions: map<string, SessionRow>, token: string)
  {
    token in sessions && sessions[token].userId in users
  }

  function JoinedEmail(users: map<UserId, User>, sessions: map<string, SessionRow>, token: string): string
    requires Joined(users, sessions, token)
  {
    users[sessions[token].userId].email
  }

  // ---------------------------------------------------------------------------
  // The legacy check: utils.cpp isUserLoggedIn and index.cpp main
  // ---------------------------------------------------------------------------

  datatype LegacyVerdict =
    | NoSession            // no row fetched: nothing changes
    | Fresh(email: string) // logged in; last_active is refreshed
    | Stale                // row found but too old: it is deleted

  /**
   * What the legacy lookup concludes about a token at time `now`.
   * TIMESTAMPDIFF(SECOND, last_active, NOW()) is fetched into an unsigned
   * 64-bit variable; a negative difference (last_active after now) does not
   * fit, the fetch reports truncation, and the check treats that as no row.
   */
  function LegacyLookup(users: map<UserId, User>, sessions: map<string, SessionRow>, token: string, now: int): (v: LegacyVerdict)
    ensures v.NoSession? <==> !Joined(users, sessions, token) || |JoinedEmail(users, sessions, token)| > LegacyEmailBuffer
                              || now < sessions[token].lastActive
    ensures v.Fresh? <==> Joined(users, sessions, token) && |JoinedEmail(users, sessions, token)| <= LegacyEmailBuffer
                          && sessions[token].lastActive <= now <= sessions[token].lastActive + Window
    ensures v.Fresh? ==> v.email == JoinedEmail(users, sessions, token)
    ensures v.Stale? <==> Joined(users, sessions, token) && |JoinedEmail(users, sessions, token)| <= LegacyEmailBuffer
                          && sessions[token].lastActive + Window < now
  {
    if !Joined(users, sessions, token) || |JoinedEmail(users, sessions, token)| > LegacyEmailBuffer then NoSession
    else if now < sessions[token].lastActive then NoSession
    else if now - sessions[token].lastActive <= Window then Fresh(JoinedEmail(users, sessions, token))
    else Stale
  }

  /** The sessions table after the legacy check: refreshed, deleted or untouched. */
  function LegacySessionsAfter(sessions: map<string, SessionRow>, token: string, v: LegacyVerdict, now: int): map<string, SessionRow>
  {
    match v
    case NoSession => sessions
    case Fresh(_) => Refreshed(sessions, token, now)
    case Stale => sessions - {token}
  }

  /**
   * The database part of the legacy check, once a non-empty token is known:
   * look the token up, then refresh or delete its row.
   */
  method CheckLegacySession(db: Database, token: string, now: int) returns (loggedIn: bool, email: Option<string>)
    modifies db
    ensures db.users == old(db.users) && db.items == old(db.items) && db.bids == old(db.bids)
    ensures db.available == old(db.available) && db.nextUserId == old(db.nextUserId) && db.nextItemId == old(db.nextItemId)
    ensures token == "" || !old(db.available) ==> !loggedIn && email.None? && db.sessions == old(db.sessions)
    ensures token != "" && old(db.available) ==>
              var v := LegacyLookup(old(db.users), old(db.sessions), token, now);
              && loggedIn == v.Fresh?
              && email == (if v.Fresh? then Some(v.email) else None)
              && db.sessions == LegacySessionsAfter(old(db.sessions), token, v, now)
  {
    if token == "" || !db.available {
      return false, None;
    }
    var v := LegacyLookup(db.users, db.sessions, token, now);
    match v {
      case NoSession =>
        loggedIn, email := false, None;
      case Fresh(e) =>
        loggedIn, email := true, Some(e);
        db.TouchSession(token, now);
      case Stale =>
        loggedIn, email := false, None;
        db.DeleteSession(token);
    }
  }

  /**
   * The sessions table after isUserLoggedIn has looked at the request's
   * cookie: untouched without a token or without a connection, otherwise
   * refreshed or deleted as the legacy check decides.
   */
  function HeadSessions(users: map<UserId, User>, sessions: map<string, SessionRow>,
                        httpCookie: Option<string>, available: bool, now: int): map<string, SessionRow>
  {
    var token := CookieToken(httpCookie);
    if token == "" || !available then sessions
    else LegacySessionsAfter(sessions, token, LegacyLookup(users, sessions, token, now), now)
  }

  /**
   * isUserLoggedIn(userEmail): `userEmail` is written only when the session
   * is fresh; with no Cookie header or an empty token nothing is looked up.
   */
  method IsUserLoggedIn(db: Database, httpCookie: Option<string>, now: int, userEmail: string)
    returns (loggedIn: bool, userEmailOut: string)
    modifies db
    ensures db.users == old(db.users) && db.items == old(db.items) && db.bids == old(db.bids)
    ensures db.available == old(db.available) && db.nextUserId == old(db.nextUserId) && db.nextItemId == old(db.nextItemId)
    ensures CookieToken(httpCookie) == "" ==> !loggedIn && userEmailOut == userEmail && db.sessions == old(db.sessions)
    ensures CookieToken(httpCookie) != "" && old(db.available) ==>
              var v := LegacyLookup(old(db.users), old(db.sessions), CookieToken(httpCookie), now);
              && loggedIn == v.Fresh?
              && userEmailOut == (if v.Fresh? then v.email else userEmail)
              && db.sessions == LegacySessionsAfter(old(db.sessions), CookieToken(httpCookie), v, now)
    ensures !old(db.available) ==> !loggedIn && userEmailOut == userEmail && db.sessions == old(db.sessions)
    ensures db.sessions == HeadSessions(old(db.users), old(db.sessions), httpCookie, old(db.available), now)
  {
    if httpCookie.None? {
      return false, userEmail;
    }
    var sessionToken := GetCookieValue(httpCookie.value, "session_token");
    if sessionToken == "" {
      return false, userEmail;
    }
    var email;
    loggedIn, email := CheckLegacySession(db, sessionToken, now);
    userEmailOut := if email.Some? then email.value else userEmail;
  }

  /** index.cpp reads the token inline: the text after "session_token=" (14 characters). */
  function InlineSessionToken(httpCookie: Option<string>): string
  {
    match httpCookie
    case None => ""
    case Some(cookies) =>
      match FindSub(cookies, "session_token=", 0)
      case None => ""
      case Some(pos) =>
        var start := pos + 14;
        var end := match Find(cookies, ';', start) case None => |cookies| case Some(e) => e;
        cookies[start..end]
  }

  /** The inline extraction of index.cpp finds the same token as getCookieValue. */
  lemma InlineTokenIsCookieToken(httpCookie: Option<string>)
    ensures InlineSessionToken(httpCookie) == CookieToken(httpCookie)
  {
    assert "session_token" + "=" == "session_token=";
    assert |"session_token"| + 1 == 14;
  }

  /** The session part of index.cpp main: logged out unless the token names a fresh session. */
  method IndexSession(db: Database, httpCookie: Option<string>, now: int) returns (isLoggedIn: bool, userEmail: string)
    modifies db
    ensures db.users == old(db.users) && db.items == old(db.items) && db.bids == old(db.bids)
    ensures db.available == old(db.available) && db.nextUserId == old(db.nextUserId) && db.nextItemId == old(db.nextItemId)
    ensures CookieToken(httpCookie) == "" || !old(db.available) ==>
              !isLoggedIn && userEmail == "" && db.sessions == old(db.sessions)
    ensures CookieToken(httpCookie) != "" && old(db.available) ==>
              var v := LegacyLookup(old(db.users), old(db.sessions), CookieToken(httpCookie), now);
              && isLoggedIn == v.Fresh?
              && userEmail == (if v.Fresh? then v.email else "")
              && db.sessions == LegacySessionsAfter(old(db.sessions), CookieToken(httpCookie), v, now)
  {
    var sessionToken := InlineSessionToken(httpCookie);
    InlineTokenIsCookieToken(httpCookie);
    isLoggedIn, userEmail := false, "";
    if sessionToken != "" {
      var email;
      isLoggedIn, email := CheckLegacySession(db, sessionToken, now);
      if email.Some? {
        userEmail := email.value;
      }
    }
  }

  // ---------------------------------------------------------------------------
  // src/core/Session.cpp
  // ---------------------------------------------------------------------------

  /**
   * The user Session::validate finds for a token: the joined row must have
   * last_active > NOW() - INTERVAL 5 MINUTE, and the e-mail must fit the
   * 128-byte buffer (a longer one makes the fetch report truncation).
   */
  function SessionLookup(users: map<UserId, User>, sessions: map<string, SessionRow>, token: string, now: int): (r: Option<UserId>)
    ensures r.Some? ==> Joined(users, sessions, token) && r.value == sessions[token].userId
    ensures r.Some? <==> Joined(users, sessions, token) && now - Window < sessions[token].lastActive
                          && |JoinedEmail(users, sessions, token)| <= SessionEmailBuffer
  {
    if Joined(users, sessions, token) && sessions[token].lastActive > now - Window
       && |JoinedEmail(users, sessions, token)| <= SessionEmailBuffer
    then Some(sessions[token].userId)
    else None
  }

  class Session {
    const db: Database
    var token: string
    var email: string
    var userId: UserId
    var loggedIn: bool

    /** Reads the cookie token and validates it when it is not empty. */
    constructor (db: Database, httpCookie: Option<string>, now: int)
      modifies db
      ensures this.db == db && token == CookieToken(httpCookie)
      ensures db.users == old(db.users) && db.items == old(db.items) && db.bids == old(db.bids)
      ensures db.available == old(db.available) && db.nextUserId == old(db.nextUserId) && db.nextItemId == old(db.nextItemId)
      ensures token == "" || !old(db.available) ==>
                userId == -1 && email == "" && !loggedIn && db.sessions == old(db.sessions)
      ensures token != "" && old(db.available) ==>
                var found := SessionLookup(old(db.users), old(db.sessions), token, now);
                && loggedIn == found.Some?
                && (found.Some? ==> userId == found.value && email == old(db.users)[found.value].email
                                    && db.sessions == Refreshed(old(db.sessions), token, now))
                && (found.None? ==> userId == -1 && email == "" && db.sessions == old(db.sessions))
    {
      this.db := db;
      userId := -1;
      loggedIn := false;
      email := "";
      token := CookieToken(httpCookie);
      new;
      if token != "" {
        var ok := Validate(now);
        loggedIn := ok;
      }
    }

    /**
     * Session::validate: looks the token up and, when the session is alive,
     * takes over its user and refreshes last_active; otherwise it marks the
     * session logged out and leaves the row where it is.
     */
    method Validate(now: int) returns (ok: bool)
      modifies this, db
      ensures token == old(token)
      ensures db.users == old(db.users) && db.items == old(db.items) && db.bids == old(db.bids)
      ensures db.available == old(db.available) && db.nextUserId == old(db.nextUserId) && db.nextItemId == old(db.nextItemId)
      ensures token == "" || !old(db.available) ==>
                !ok && userId == old(userId) && email == old(email) && loggedIn == old(loggedIn)
                && db.sessions == old(db.sessions)
      ensures token != "" && old(db.available) ==>
                var found := SessionLookup(old(db.users), old(db.sessions), token, now);
                && ok == found.Some? && loggedIn == ok
                && (ok ==> userId == found.value && email == old(db.users)[found.value].email
                           && db.sessions == Refreshed(old(db.sessions), token, now))
                && (!ok ==> userId == old(userId) && email == old(email) && db.sessions == old(db.sessions))
    {
      if token == "" || !db.available {
        return false;
      }
      var found := SessionLookup(db.users, db.sessions, token, now);
      ok := found.Some?;
      if ok {
        userId := found.value;
        email := db.users[found.value].email;
        loggedIn := true;
        db.TouchSession(token, now);
      } else {
        loggedIn := false;
      }
    }

    /**
     * Session::create: the object takes the new user and token and counts as
     * logged in whatever the insert does; the row is added when the insert
     * succeeds.
     */
    method Create(uid: UserId, newToken: string, ip: string, now: int)
      modifies this, db
      ensures userId == uid && token == newToken && loggedIn && email == old(email)
      ensures db.users == old(db.users) && db.items == old(db.items) && db.bids == old(db.bids)
      ensures db.available == old(db.available) && db.nextUserId == old(db.nextUserId) && db.nextItemId == old(db.nextItemId)
      ensures db.sessions == if old(db.available) && newToken !in old(db.sessions)
                             then old(db.sessions)[newToken := SessionRow(uid, ip, now)]
                             else old(db.sessions)
    {
      userId := uid;
      token := newToken;
      loggedIn := true;
      var _ := db.InsertSession(uid, newToken, ip, now);
    }

    /**
     * Session::destroy: with a token, deletes its row (when the statement
     * runs), logs out and forgets the token; the user id and e-mail stay.
     */
    method Destroy()
      modifies this, db
      ensures userId == old(userId) && email == old(email)
      ensures db.users == old(db.users) && db.items == old(db.items) && db.bids == old(db.bids)
      ensures db.available == old(db.available) && db.nextUserId == old(db.nextUserId) && db.nextItemId == old(db.nextItemId)
      ensures old(token) == "" ==> token == "" && loggedIn == old(loggedIn) && db.sessions == old(db.sessions)
      ensures old(token) != "" ==>
                token == "" && !loggedIn
                && db.sessions == if old(db.available) then old(db.sessions) - {old(token)} else old(db.sessions)
    {
      if token == "" {
        return;
      }
      db.DeleteSession(token);
      loggedIn := false;
      token := "";
    }
  }

  // ---------------------------------------------------------------------------
  // Properties of the two checks
  // ---------------------------------------------------------------------------

  /**
   * At exactly five minutes of inactivity the two checks disagree: the legacy
   * one (inactivity <= 300) still accepts, Session::validate (last_active >
   * now - 300) already refuses.
   */
  lemma WindowsDisagreeAtBoundary(users: map<UserId, User>, sessions: map<string, SessionRow>, token: string, now: int)
    requires Joined(users, sessions, token) && |JoinedEmail(users, sessions, token)| <= SessionEmailBuffer
    requires sessions[token].lastActive == now - Window
    ensures LegacyLookup(users, sessions, token, now).Fresh?
    ensures SessionLookup(users, sessions, token, now).None?
  {
  }

  /** Strictly inside the window both checks accept the same user. */
  lemma WindowsAgreeInside(users: map<UserId, User>, sessions: map<string, SessionRow>, token: string, now: int)
    requires Joined(users, sessions, token) && |JoinedEmail(users, sessions, token)| <= SessionEmailBuffer
    requires now - Window < sessions[token].lastActive <= now
    ensures LegacyLookup(users, sessions, token, now) == Fresh(JoinedEmail(users, sessions, token))
    ensures SessionLookup(users, sessions, token, now) == Some(sessions[token].userId)
  {
  }

  /**
   * A last_active in the future (a clock that went backwards) makes the
   * legacy difference negative; the unsigned fetch reports truncation, so the
   * legacy check finds no session and leaves the row alone, while
   * Session::validate accepts it.
   */
  lemma FutureLastActive(users: map<UserId, User>, sessions: map<string, SessionRow>, token: string,
                         httpCookie: Option<string>, now: int)
    requires Joined(users, sessions, token) && |JoinedEmail(users, sessions, token)| <= SessionEmailBuffer
    requires now < sessions[token].lastActive
    requires CookieToken(httpCookie) == token
    ensures LegacyLookup(users, sessions, token, now) == NoSession
    ensures HeadSessions(users, sessions, httpCookie, true, now) == sessions
    ensures SessionLookup(users, sessions, token, now) == Some(sessions[token].userId)
  {
  }

  /**
   * Sliding window of Session::validate: once a session is found at time t,
   * the refreshed row is found again at every moment of the next five minutes.
   */
  lemma {:induction false} ValidateKeepsSessionAlive(users: map<UserId, User>, sessions: map<string, SessionRow>,
                                                      token: string, t: int, later: int)
    requires SessionLookup(users, sessions, token, t).Some?
    requires t <= later < t + Window
    ensures SessionLookup(users, Refreshed(sessions, token, t), token, later) == SessionLookup(users, sessions, token, t)
  {
    var s' := Refreshed(sessions, token, t);
    assert s'[token].userId == sessions[token].userId;
    assert s'[token].lastActive == t;
  }

  /** Sliding window of the legacy check: a fresh session stays fresh for 300 more seconds. */
  lemma {:induction false} LegacyRefreshKeepsSessionAlive(users: map<UserId, User>, sessions: map<string, SessionRow>,
                                                           token: string, t: int, later: int)
    requires LegacyLookup(users, sessions, token, t).Fresh?
    requires t <= later <= t + Window
    ensures LegacyLookup(users, LegacySessionsAfter(sessions, token, LegacyLookup(users, sessions, token, t), t), token, later)
            == LegacyLookup(users, sessions, token, t)
  {
    var s' := Refreshed(sessions, token, t);
    assert s'[token].userId == sessions[token].userId;
    assert s'[token].lastActive == t;
  }

  /** A stale session is gone for good once the legacy check has seen it. */
  lemma {:induction false} LegacyStaleIsDeleted(users: map<UserId, User>, sessions: map<string, SessionRow>,
                                                 token: string, t: int, later: int)
    requires LegacyLookup(users, sessions, token, t) == Stale
    ensures LegacyLookup(users, LegacySessionsAfter(sessions, token, Stale, t), token, later) == NoSession
  {
    assert token !in sessions - {token};
  }

  /**
   * Session::validate leaves an expired row in place, but the row never
   * becomes valid again: a session too old at t is too old at every later time.
   */
  lemma {:induction false} ExpiredStaysExpired(users: map<UserId, User>, sessions: map<string, SessionRow>,
                                               token: string, t: int, later: int)
    requires token in sessions && sessions[token].lastActive <= t - Window
    requires t <= later
    ensures SessionLookup(users, sessions, token, later).None?
  {
  }

  /** A session Session::create has inserted passes Session::validate for the next five minutes. */
  lemma {:induction false} CreatedSessionValidates(users: map<UserId, User>, sessions: map<string, SessionRow>,
                                                   uid: UserId, token: string, ip: string, t: int, later: int)
    requires uid in users && |users[uid].email| <= SessionEmailBuffer
    requires t <= later < t + Window
    ensures SessionLookup(users, sessions[token := SessionRow(uid, ip, t)], token, later) == Some(uid)
  {
    var s' := sessions[token := SessionRow(uid, ip, t)];
    assert Joined(users, s', token);
  }

  /** After Session::destroy has deleted the row, neither check accepts the token. */
  lemma {:induction false} DestroyedSessionRejected(users: map<UserId, User>, sessions: map<string, SessionRow>,
                                                    token: string, later: int)
    ensures SessionLookup(users, sessions - {token}, token, later).None?
    ensures LegacyLookup(users, sessions - {token}, token, later) == NoSession
  {
    assert token !in sessions - {token};
  }
}
