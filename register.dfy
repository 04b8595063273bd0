/**
 * Account registration. Both the page class (src/pages/RegisterPage.cpp) and
 * the legacy CGI program (register.cpp) run the same four input checks in the
 * same order before touching the database, refuse an address that is already
 * registered, store the user with the hash of the password, and open a session
 * for the new user whose token becomes the cookie.
 */
module Register {
  import opened Common
  import opened Utils
  import opened Tables
  import opened SessionStore

  const MinPasswordLength: int := 8

  const AllRequired := "All fields are required."
  const InvalidEmail := "Please enter a valid email address."
  const PasswordTooShort := "Password must be at least 8 characters."
  const PasswordMismatch := "Passwords do not match."

  /** The submitted fields pass all four checks. */
  predicate Acceptable(email: string, password: string, confirm: string)
  {
    email != "" && IsValidEmail(email) && |password| >= MinPasswordLength && password == confirm
  }

  /**
   * The message of the first failing check, in the order both pages apply
   * them; None when the input is acceptable.
   */
  function InputError(email: string, password: string, confirm: string): (r: Option<string>)
    ensures r.None? <==> Acceptable(email, password, confirm)
    ensures r == Some(AllRequired) <==> email == "" || password == "" || confirm == ""
    ensures r == Some(InvalidEmail) <==> email != "" && password != "" && confirm != "" && !IsValidEmail(email)
    ensures r == Some(PasswordTooShort) <==>
              email != "" && password != "" && confirm != "" && IsValidEmail(email) && |password| < MinPasswordLength
    ensures r == Some(PasswordMismatch) <==>
              email != "" && password != "" && confirm != "" && IsValidEmail(email)
              && |password| >= MinPasswordLength && password != confirm
  {
    if email == "" || password == "" || confirm == "" then Some(AllRequired)
    else if !IsValidEmail(email) then Some(InvalidEmail)
    else if |password| < MinPasswordLength then Some(PasswordTooShort)
    else if password != confirm then Some(PasswordMismatch)
    else None
  }

  // ---------------------------------------------------------------------------
  // src/pages/RegisterPage.cpp
  // ---------------------------------------------------------------------------

  datatype RegisterOutcome =
    | RegisterError(message: string)
      /** The account was created; `cookieToken` goes into Set-Cookie and `shownEmail` into the welcome text. */
    | Registered(userId: UserId, cookieToken: string, shownEmail: string)

  /**
   * RegisterPage::handlePost. `hash` stands for hashPassword, `token` for the
   * freshly generated session token and `ip` for REMOTE_ADDR (or "unknown").
   * The database answers every statement or none: when it does not, the
   * duplicate check cannot be prepared and the page reports an internal error.
   */
  method RegisterPost(db: Database, session: Session, form: map<string, string>,
                      hash: string -> string, token: string, ip: string, now: int)
    returns (outcome: RegisterOutcome)
    requires db.Valid() && session.db == db
    modifies db, session
    ensures db.Valid()
    ensures var email, password, confirm := Field(form, "email"), Field(form, "password"), Field(form, "confirm");
      && (InputError(email, password, confirm).Some? ==>
            outcome == RegisterError(InputError(email, password, confirm).value) && unchanged(db, session))
      && (Acceptable(email, password, confirm) && !old(db.available) ==>
            outcome == RegisterError("Internal server error.") && unchanged(db, session))
      && (Acceptable(email, password, confirm) && old(db.available) && EmailTaken(old(db.users), email) ==>
            outcome == RegisterError("This email is already registered. Try logging in instead.")
            && unchanged(db, session))
      && (Acceptable(email, password, confirm) && old(db.available) && !EmailTaken(old(db.users), email) ==>
            var id := old(db.nextUserId);
            && outcome == Registered(id, token, Escaped(email))
            && '<' !in outcome.shownEmail && '\'' !in outcome.shownEmail
            && id !in old(db.users)
            && db.users == old(db.users)[id := User(email, hash(password))]
            && db.sessions == (if token in old(db.sessions) then old(db.sessions)
                               else old(db.sessions)[token := SessionRow(id, ip, now)])
            && db.items == old(db.items) && db.bids == old(db.bids)
            && session.userId == id && session.token == token && session.loggedIn)
  {
    var email, password, confirm := Field(form, "email"), Field(form, "password"), Field(form, "confirm");
    var problem := InputError(email, password, confirm);
    if problem.Some? {
      return RegisterError(problem.value);
    }
    if !db.available {
      return RegisterError("Internal server error.");
    }
    if EmailTaken(db.users, email) {
      return RegisterError("This email is already registered. Try logging in instead.");
    }
    var id := db.InsertUser(email, hash(password));
    session.Create(id.value, token, ip, now);
    var shown := HtmlEscape(email);
    EscapedHasNoRawSpecials(email);
    outcome := Registered(id.value, token, shown);
  }

  // ---------------------------------------------------------------------------
  // register.cpp
  // ---------------------------------------------------------------------------

  const LegacyServerError := "Internal server error. Please try again later."
  const LegacyDuplicate := "This email is already registered. Try a different one or log in."

  datatype LegacyRegisterOutcome =
      /** The form again, with the submitted e-mail written back into it and a message ("" on a GET). */
    | RegisterForm(emailPrefill: string, message: string)
      /** The account and its session exist; the welcome text shows the e-mail as submitted. */
    | LegacyRegistered(userId: UserId, cookieToken: string, shownEmail: string)

  /**
   * register.cpp main. Every database failure, including a failed session
   * insert after the user row was written, re-renders the form with the same
   * message. Neither the prefill nor the welcome text is HTML-escaped. Every
   * page, form or welcome, is rendered through printHead, whose
   * isUserLoggedIn then refreshes or deletes the session row named by the
   * request's own cookie, after the page's own writes.
   */
  method LegacyRegister(db: Database, isPost: bool, form: map<string, string>, httpCookie: Option<string>,
                        hash: string -> string, token: string, ip: string, now: int)
    returns (outcome: LegacyRegisterOutcome)
    requires db.Valid()
    modifies db
    ensures db.Valid()
    ensures db.items == old(db.items) && db.bids == old(db.bids) && db.available == old(db.available)
    ensures !isPost ==> outcome == RegisterForm("", "")
    ensures var email, password, confirm := Field(form, "email"), Field(form, "password"), Field(form, "confirm");
      !isPost || !Acceptable(email, password, confirm) || !old(db.available) || EmailTaken(old(db.users), email) ==>
        && db.users == old(db.users) && db.nextUserId == old(db.nextUserId)
        && db.sessions == HeadSessions(old(db.users), old(db.sessions), httpCookie, old(db.available), now)
    ensures var email, password, confirm := Field(form, "email"), Field(form, "password"), Field(form, "confirm");
      isPost ==>
      && (InputError(email, password, confirm).Some? ==>
            outcome == RegisterForm(email, InputError(email, password, confirm).value))
      && (Acceptable(email, password, confirm) && !old(db.available) ==>
            outcome == RegisterForm(email, LegacyServerError))
      && (Acceptable(email, password, confirm) && old(db.available) && EmailTaken(old(db.users), email) ==>
            outcome == RegisterForm(email, LegacyDuplicate))
      && (Acceptable(email, password, confirm) && old(db.available) && !EmailTaken(old(db.users), email) ==>
            var id := old(db.nextUserId);
            var written := if token in old(db.sessions) then old(db.sessions)
                           else old(db.sessions)[token := SessionRow(id, ip, now)];
            && id !in old(db.users)
            && db.users == old(db.users)[id := User(email, hash(password))]
            && db.sessions == HeadSessions(db.users, written, httpCookie, true, now)
            && (token !in old(db.sessions) ==> outcome == LegacyRegistered(id, token, email))
            && (token in old(db.sessions) ==> outcome == RegisterForm(email, LegacyServerError)))
  {
    outcome := LegacyRegisterWrites(db, isPost, form, hash, token, ip, now);
    var _, _ := IsUserLoggedIn(db, httpCookie, now, "");
  }

  /** The statements of register.cpp main up to the rendering of the page chosen. */
  method LegacyRegisterWrites(db: Database, isPost: bool, form: map<string, string>,
                              hash: string -> string, token: string, ip: string, now: int)
    returns (outcome: LegacyRegisterOutcome)
    requires db.Valid()
    modifies db
    ensures db.Valid()
    ensures !isPost ==> outcome == RegisterForm("", "") && unchanged(db)
    ensures var email, password, confirm := Field(form, "email"), Field(form, "password"), Field(form, "confirm");
      isPost ==>
      && (InputError(email, password, confirm).Some? ==>
            outcome == RegisterForm(email, InputError(email, password, confirm).value) && unchanged(db))
      && (Acceptable(email, password, confirm) && !old(db.available) ==>
            outcome == RegisterForm(email, LegacyServerError) && unchanged(db))
      && (Acceptable(email, password, confirm) && old(db.available) && EmailTaken(old(db.users), email) ==>
            outcome == RegisterForm(email, LegacyDuplicate) && unchanged(db))
      && (Acceptable(email, password, confirm) && old(db.available) && !EmailTaken(old(db.users), email) ==>
            var id := old(db.nextUserId);
            && id !in old(db.users)
            && db.users == old(db.users)[id := User(email, hash(password))]
            && db.items == old(db.items) && db.bids == old(db.bids) && db.available
            && (token !in old(db.sessions) ==>
                  outcome == LegacyRegistered(id, token, email)
                  && db.sessions == old(db.sessions)[token := SessionRow(id, ip, now)])
            && (token in old(db.sessions) ==>
                  outcome == RegisterForm(email, LegacyServerError) && db.sessions == old(db.sessions)))
  {
    if !isPost {
      return RegisterForm("", "");
    }
    var email, password, confirm := Field(form, "email"), Field(form, "password"), Field(form, "confirm");
    var problem := InputError(email, password, confirm);
    if problem.Some? {
      return RegisterForm(email, problem.value);
    }
    if !db.available {
      return RegisterForm(email, LegacyServerError);
    }
    if EmailTaken(db.users, email) {
      return RegisterForm(email, LegacyDuplicate);
    }
    var id := db.InsertUser(email, hash(password));
    var ok := db.InsertSession(id.value, token, ip, now);
    if !ok {
      return RegisterForm(email, LegacyServerError);
    }
    outcome := LegacyRegistered(id.value, token, email);
  }
}
