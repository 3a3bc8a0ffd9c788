/**
 * The account record of models/User.js: five schema fields plus the
 * database-assigned `_id`, the defaults a new document receives, and the
 * `required` validator run when a document is saved.
 */
module UserModel {

  /** The document id the database assigns to every record. */
  type UserId = nat

  /** Failed attempts after which an account is locked. */
  const MaxFailedAttempts: nat := 5

  /** Default value of `profilePicture` for a new record. */
  const DefaultPicture: string := ""

  datatype User = User(
    id: UserId,
    email: string,
    password: string,              // the bcrypt digest, never the raw password
    failedLoginAttempts: nat,
    isLocked: bool,
    profilePicture: string)

  /**
   * The one-way password scheme, left uninterpreted: `hash` produces the
   * stored digest and `verify` compares a raw password with a digest.
   */
  datatype Hasher = Hasher(hash: string -> string, verify: (string, string) -> bool)

  /** What the model relies on from bcrypt: a password verifies against its own digest, and digests are never empty. */
  ghost predicate Sound(h: Hasher) {
    forall p: string {:trigger h.hash(p)} :: h.verify(p, h.hash(p)) && h.hash(p) != ""
  }

  /** Mongoose's `required` validator: a String path fails it when it is empty. */
  predicate HasRequiredFields(u: User) {
    u.email != "" && u.password != ""
  }

  /**
   * The lockout invariant every stored record keeps: the counter never passes
   * the threshold, and it sits exactly at the threshold iff the account is locked.
   */
  predicate LockoutInv(u: User) {
    u.failedLoginAttempts <= MaxFailedAttempts &&
    (u.failedLoginAttempts == MaxFailedAttempts <==> u.isLocked)
  }

  /** `new User({ email, password })`: the given fields plus the schema defaults. */
  function NewUser(id: UserId, email: string, passwordHash: string): (u: User)
    ensures u.id == id && u.email == email && u.password == passwordHash
    ensures u.failedLoginAttempts == 0 && !u.isLocked && u.profilePicture == DefaultPicture
    ensures LockoutInv(u)
    ensures HasRequiredFields(u) <==> email != "" && passwordHash != ""
  {
    User(id, email, passwordHash, 0, false, DefaultPicture)
  }
}
