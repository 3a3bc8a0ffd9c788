/**
 * The `POST /register` and `POST /login` handlers of routes/auth.js as step
 * functions from (store, session, form fields) to (store', session', outcome).
 * An absent form field is the empty string: the handlers only test fields
 * for falsiness.
 */
module Auth {
  import opened Wrappers
  import opened UserModel
  import opened Store

  /**
   * `POST /register`: reject empty fields, reject a taken email, otherwise
   * store a new record holding the digest of the password.
   */
  function Register(h: Hasher, db: Db, session: Session, email: string, password: string): (r: Response)
    ensures r.session == session
    ensures r.outcome == Redirected(LoginPath) <==>
              email != "" && password != "" && email !in db.users && h.hash(password) != ""
    ensures r.outcome != Redirected(LoginPath) ==> r.db == db
    ensures r.outcome == Redirected(LoginPath) ==>
              && r.db.users.Keys == db.users.Keys + {email}
              && r.db.nextId > db.nextId
              && (forall e :: e in db.users ==> r.db.users[e] == db.users[e])
              && r.db.users[email].email == email
              && r.db.users[email].password == h.hash(password)
              && (Wf(db) ==> forall e :: e in db.users ==> r.db.users[email].id != db.users[e].id)
    ensures Wf(db) ==> Wf(r.db)
  {
    if email == "" || password == "" then
      Response(db, session, Rendered(RegisterView, MsgFillAll))
    else if email in db.users then
      Response(db, session, Rendered(RegisterView, MsgUserExists))
    else
      var u := NewUser(db.nextId, email, h.hash(password));
      if !HasRequiredFields(u) then
        // the schema's required validator throws inside save()
        Response(db, session, Rendered(RegisterView, MsgSomethingWrong))
      else
        Response(Db(db.users[email := u], db.nextId + 1), session, Redirected(LoginPath))
  }

  /**
   * `POST /login`: reject empty fields and unknown emails, refuse a locked
   * account before looking at the password, count a wrong password (locking
   * the account at the threshold), and on a match reset the counter and put
   * the user into the session.
   */
  function Login(h: Hasher, db: Db, session: Session, email: string, password: string): (r: Response)
    ensures r.db.users.Keys == db.users.Keys && r.db.nextId == db.nextId
    ensures forall e :: e in db.users && e != email ==> r.db.users[e] == db.users[e]
    ensures email in db.users ==> SameExceptLockout(db.users[email], r.db.users[email])
    ensures email in db.users && db.users[email].isLocked ==> r.db.users[email] == db.users[email]
    ensures r.session != session ==>
              email in db.users && r.outcome == Redirected(ProfilePath) &&
              r.session.user == Some(SessionUser(db.users[email].id, db.users[email].email))
    ensures Wf(db) ==> Wf(r.db)
  {
    if email == "" || password == "" then
      Response(db, session, Rendered(LoginView, MsgFillAll))
    else if email !in db.users then
      Response(db, session, Rendered(LoginView, MsgUserNotFound))
    else
      var u := db.users[email];
      if u.isLocked then
        Response(db, session, Rendered(LoginView, MsgLocked))
      else if !h.verify(password, u.password) then
        var counted := u.(failedLoginAttempts := u.failedLoginAttempts + 1);
        var saved := if counted.failedLoginAttempts >= MaxFailedAttempts then counted.(isLocked := true) else counted;
        Response(db.(users := db.users[email := saved]), session, Rendered(LoginView, MsgInvalidPassword))
      else
        var saved := u.(failedLoginAttempts := 0);
        Response(db.(users := db.users[email := saved]), Session(Some(SessionUser(u.id, u.email))),
                 Redirected(ProfilePath))
  }

  /** Registration with an empty field is rejected and changes nothing. */
  lemma RegisterEmptyFieldsRejected(h: Hasher, db: Db, session: Session, email: string, password: string)
    requires email == "" || password == ""
    ensures Register(h, db, session, email, password) == Response(db, session, Rendered(RegisterView, MsgFillAll))
  {
  }

  /** Registration under an email already in the store is rejected; the existing record is untouched. */
  lemma RegisterDuplicateRejected(h: Hasher, db: Db, session: Session, email: string, password: string)
    requires email != "" && password != ""
    requires email in db.users
    ensures Register(h, db, session, email, password) == Response(db, session, Rendered(RegisterView, MsgUserExists))
  {
  }

  /**
   * A successful registration adds exactly one record, under the email, with
   * the password's digest and the schema defaults; every other key keeps its record.
   */
  lemma RegisterAddsFreshRecord(h: Hasher, db: Db, session: Session, email: string, password: string)
    requires Sound(h)
    requires email != "" && password != "" && email !in db.users
    ensures var r := Register(h, db, session, email, password);
            && r.outcome == Redirected(LoginPath)
            && r.db.users == db.users[email := r.db.users[email]]
            && |r.db.users| == |db.users| + 1
            && r.db.users[email].password == h.hash(password)
            && h.verify(password, r.db.users[email].password)
            && r.db.users[email].failedLoginAttempts == 0
            && !r.db.users[email].isLocked
            && r.db.users[email].profilePicture == DefaultPicture
  {
  }

  /** Empty fields or an unknown email: neither the store nor the session changes. */
  lemma LoginRejectedNoChange(h: Hasher, db: Db, session: Session, email: string, password: string)
    requires email == "" || password == "" || email !in db.users
    ensures var r := Login(h, db, session, email, password);
            r.db == db && r.session == session &&
            r.outcome == Rendered(LoginView, if email == "" || password == "" then MsgFillAll else MsgUserNotFound)
  {
  }

  /**
   * A locked account is refused even with the right password, nothing
   * changes, and the answer does not depend on the password scheme at all:
   * the digest is never compared.
   */
  lemma LoginLockedRefused(h1: Hasher, h2: Hasher, db: Db, session: Session, email: string, password: string)
    requires email != "" && password != ""
    requires email in db.users && db.users[email].isLocked
    ensures Login(h1, db, session, email, password) == Response(db, session, Rendered(LoginView, MsgLocked))
    ensures Login(h1, db, session, email, password) == Login(h2, db, session, email, password)
  {
  }

  /**
   * A wrong password on an unlocked account adds exactly one to the counter,
   * locks the account iff the new count reaches the threshold, and leaves the session alone.
   */
  lemma LoginWrongPassword(h: Hasher, db: Db, session: Session, email: string, password: string)
    requires email != "" && password != ""
    requires email in db.users && !db.users[email].isLocked
    requires !h.verify(password, db.users[email].password)
    ensures var r := Login(h, db, session, email, password);
            && r.session == session
            && r.outcome == Rendered(LoginView, MsgInvalidPassword)
            && r.db.users[email].failedLoginAttempts == db.users[email].failedLoginAttempts + 1
            && (r.db.users[email].isLocked <==> db.users[email].failedLoginAttempts + 1 >= MaxFailedAttempts)
  {
  }

  /**
   * The right password on an unlocked account resets the counter, keeps the
   * account unlocked and puts the user's id and email into the session.
   */
  lemma LoginCorrectPassword(h: Hasher, db: Db, session: Session, email: string, password: string)
    requires email != "" && password != ""
    requires email in db.users && !db.users[email].isLocked
    requires h.verify(password, db.users[email].password)
    ensures var r := Login(h, db, session, email, password);
            && r.outcome == Redirected(ProfilePath)
            && r.session == Session(Some(SessionUser(db.users[email].id, db.users[email].email)))
            && r.db.users[email].failedLoginAttempts == 0
            && !r.db.users[email].isLocked
  {
  }
}
