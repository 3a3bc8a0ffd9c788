/**
 * The `isAuthenticated` guard and the `PUT /profile` handler of
 * routes/index.js. The uploaded file is reduced to the name the upload
 * middleware gave it, or None when the request carries no file.
 */
module Profile {
  import opened Wrappers
  import opened UserModel
  import opened Store

  /** `isAuthenticated`: the request proceeds iff the session holds a user. */
  predicate IsAuthenticated(session: Session) {
    session.user.Some?
  }

  /** The one field the profile update may set: the stored path of the upload, when there is one. */
  function SetPicture(u: User, file: Option<string>): (v: User)
    ensures SameExceptPicture(u, v)
    ensures file.Some? ==> v.profilePicture == UploadsPrefix + file.value
    ensures file.None? ==> v == u
  {
    match file
    case Some(name) => u.(profilePicture := UploadsPrefix + name)
    case None => u
  }

  /**
   * `PUT /profile` behind the guard: look the session's user up by document
   * id, set the picture if a file came with the request, and save. The lookup
   * and save are written as an update of every record carrying that id; in a
   * well-formed store that is exactly one record (`UpdateProfileSingleRecord`).
   */
  function UpdateProfile(db: Db, session: Session, file: Option<string>): (r: Response)
    ensures r.session == session
    ensures r.db.users.Keys == db.users.Keys && r.db.nextId == db.nextId
    ensures forall e :: e in db.users ==> SameExceptPicture(db.users[e], r.db.users[e])
    ensures !IsAuthenticated(session) ==> r == Response(db, session, Redirected(LoginPath))
    ensures IsAuthenticated(session) && !HasId(db.users, session.user.value.id) ==>
              r == Response(db, session, Redirected(HomePath))
    ensures IsAuthenticated(session) ==>
              forall e :: e in db.users && db.users[e].id != session.user.value.id ==> r.db.users[e] == db.users[e]
    ensures Wf(db) ==> Wf(r.db)
  {
    if !IsAuthenticated(session) then
      Response(db, session, Redirected(LoginPath))
    else
      var id := session.user.value.id;
      if !HasId(db.users, id) then
        Response(db, session, Redirected(HomePath))
      else
        var users := map e | e in db.users :: if db.users[e].id == id then SetPicture(db.users[e], file) else db.users[e];
        Response(db.(users := users), session, Redirected(ProfilePath))
  }

  /** The guard in both directions: the handler answers with the login redirect iff the session holds no user. */
  lemma GuardRedirectsIffAnonymous(db: Db, session: Session, file: Option<string>)
    ensures UpdateProfile(db, session, file).outcome == Redirected(LoginPath) <==> !IsAuthenticated(session)
  {
  }

  /**
   * In a well-formed store the update rewrites exactly the session user's
   * record: the picture is the upload's path when a file came, the old one
   * otherwise, and no other record changes.
   */
  lemma UpdateProfileSingleRecord(db: Db, session: Session, file: Option<string>, k: string)
    requires Wf(db)
    requires IsAuthenticated(session)
    requires k in db.users && db.users[k].id == session.user.value.id
    ensures var r := UpdateProfile(db, session, file);
            && r.outcome == Redirected(ProfilePath)
            && r.db.users == db.users[k := r.db.users[k]]
            && r.db.users[k].profilePicture == (if file.Some? then UploadsPrefix + file.value else db.users[k].profilePicture)
  {
  }

  /** Sending the same update with the same file name twice gives the same store, session and answer as sending it once. */
  lemma UpdateProfileIdempotent(db: Db, session: Session, file: Option<string>)
    ensures var once := UpdateProfile(db, session, file);
            UpdateProfile(once.db, once.session, file) == once
  {
  }
}
