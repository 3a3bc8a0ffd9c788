/**
 * The state the request handlers read and write: the users collection, keyed
 * by email because the schema makes `email` unique, and the session of the
 * client making the request. Also the outcome of a request, with the views,
 * paths and messages the handlers use.
 */
module Store {
  import opened Wrappers
  import opened UserModel

  /** The users collection; `nextId` stands for the id the database hands out next. */
  datatype Db = Db(users: map<string, User>, nextId: UserId)

  /** What a successful login stores in `req.session.user`. */
  datatype SessionUser = SessionUser(id: UserId, email: string)

  datatype Session = Session(user: Option<SessionUser>)

  /** A rendered view with an error message, or a redirect. */
  datatype Outcome = Rendered(view: string, error: string) | Redirected(path: string)

  /** The store and the client's session between requests. */
  datatype State = State(db: Db, session: Session)

  /** The store and session after a request, and what the client is sent. */
  datatype Response = Response(db: Db, session: Session, outcome: Outcome)

  const RegisterView := "pages/register"
  const LoginView := "pages/login"
  const LoginPath := "/auth/login"
  const ProfilePath := "/profile"
  const HomePath := "/"
  const UploadsPrefix := "/uploads/"

  const MsgFillAll := "Please fill all fields"
  const MsgUserExists := "User already exists"
  const MsgSomethingWrong := "Something went wrong"
  const MsgUserNotFound := "User not found"
  const MsgLocked := "Account locked. Contact support."
  const MsgInvalidPassword := "Invalid password"

  const EmptyDb := Db(map[], 0)
  const NoSession := Session(None)

  /** True iff some record of the collection carries document id `id`. */
  predicate HasId(users: map<string, User>, id: UserId) {
    exists e :: e in users && users[e].id == id
  }

  /**
   * The store invariant: each record sits under its own email, passed the
   * schema's required check, has a distinct id below `nextId`, and keeps the
   * lockout invariant.
   */
  predicate Wf(db: Db) {
    (forall e :: e in db.users ==> db.users[e].email == e) &&
    (forall e :: e in db.users ==> HasRequiredFields(db.users[e])) &&
    (forall e :: e in db.users ==> db.users[e].id < db.nextId) &&
    (forall e :: e in db.users ==> LockoutInv(db.users[e])) &&
    (forall e1, e2 :: e1 in db.users && e2 in db.users && e1 != e2 ==> db.users[e1].id != db.users[e2].id)
  }

  /** The fields only a login may change: everything except the counter and the lock flag is the same. */
  predicate SameExceptLockout(u: User, v: User) {
    u.id == v.id && u.email == v.email && u.password == v.password && u.profilePicture == v.profilePicture
  }

  /** Everything except the picture is the same. */
  predicate SameExceptPicture(u: User, v: User) {
    u.id == v.id && u.email == v.email && u.password == v.password &&
    u.failedLoginAttempts == v.failedLoginAttempts && u.isLocked == v.isLocked
  }
}
