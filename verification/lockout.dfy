/**
 * Consecutive login attempts against one email: how the failed-attempt
 * counter and the lock flag of routes/auth.js evolve over a sequence of tries.
 */
module Lockout {
  import opened UserModel
  import opened Store
  import opened Auth

  function Min(a: int, b: int): (m: int)
    ensures m <= a && m <= b && (m == a || m == b)
  {
    if a <= b then a else b
  }

  /** The store and session after logging in with each password in turn under one email. */
  function Attempts(h: Hasher, db: Db, session: Session, email: string, passwords: seq<string>): (r: State)
    decreases |passwords|
  {
    if |passwords| == 0 then State(db, session)
    else
      var step := Login(h, db, session, email, passwords[0]);
      Attempts(h, step.db, step.session, email, passwords[1..])
  }

  /** None of the passwords is empty, and none of them matches the stored digest. */
  predicate AllWrong(h: Hasher, digest: string, passwords: seq<string>) {
    forall i :: 0 <= i < |passwords| ==> passwords[i] != "" && !h.verify(passwords[i], digest)
  }

  /**
   * Starting from any well-formed store, k wrong passwords in a row bring the
   * counter from c to min(c + k, 5) and lock the account iff c + k >= 5; the
   * stored digest and the session never change on the way.
   */
  lemma {:induction false} WrongAttemptsAccumulate(h: Hasher, db: Db, session: Session, email: string, passwords: seq<string>)
    requires Wf(db)
    requires email in db.users
    requires AllWrong(h, db.users[email].password, passwords)
    ensures var r := Attempts(h, db, session, email, passwords);
            var c := db.users[email].failedLoginAttempts;
            && Wf(r.db)
            && email in r.db.users
            && r.session == session
            && r.db.users[email].password == db.users[email].password
            && r.db.users[email].failedLoginAttempts == Min(c + |passwords|, MaxFailedAttempts)
            && (r.db.users[email].isLocked <==> c + |passwords| >= MaxFailedAttempts)
    decreases |passwords|
  {
    if |passwords| > 0 {
      var step := Login(h, db, session, email, passwords[0]);
      assert AllWrong(h, step.db.users[email].password, passwords[1..]) by {
        forall i | 0 <= i < |passwords[1..]|
          ensures passwords[1..][i] != "" && !h.verify(passwords[1..][i], step.db.users[email].password)
        {
          assert passwords[1..][i] == passwords[i + 1];
        }
      }
      WrongAttemptsAccumulate(h, step.db, step.session, email, passwords[1..]);
    }
  }

  /**
   * A fresh account locks after five wrong passwords in a row, and from then
   * on the right password is refused with the lock message and changes nothing.
   */
  lemma {:induction false} FiveWrongLockFreshAccount(h: Hasher, db: Db, session: Session, email: string, password: string, wrong: seq<string>)
    requires Sound(h) && Wf(db)
    requires email != "" && password != "" && email !in db.users
    requires |wrong| == MaxFailedAttempts
    requires AllWrong(h, h.hash(password), wrong)
    ensures var registered := Register(h, db, session, email, password);
            var locked := Attempts(h, registered.db, registered.session, email, wrong);
            && registered.outcome == Redirected(LoginPath)
            && email in locked.db.users && locked.db.users[email].isLocked
            && Login(h, locked.db, locked.session, email, password) == Response(locked.db, locked.session, Rendered(LoginView, MsgLocked))
  {
    var registered := Register(h, db, session, email, password);
    RegisterAddsFreshRecord(h, db, session, email, password);
    WrongAttemptsAccumulate(h, registered.db, registered.session, email, wrong);
    var locked := Attempts(h, registered.db, registered.session, email, wrong);
    LoginLockedRefused(h, h, locked.db, locked.session, email, password);
  }

  /**
   * A successful login forgets earlier failures: after it, a single wrong
   * password leaves the counter at 1 whatever it was before.
   */
  lemma SuccessThenFailureCountsOne(h: Hasher, db: Db, session: Session, email: string, good: string, bad: string)
    requires email != "" && email in db.users && !db.users[email].isLocked
    requires good != "" && h.verify(good, db.users[email].password)
    requires bad != "" && !h.verify(bad, db.users[email].password)
    ensures var ok := Login(h, db, session, email, good);
            var failed := Login(h, ok.db, ok.session, email, bad);
            failed.db.users[email].failedLoginAttempts == 1 && !failed.db.users[email].isLocked
  {
  }
}
