/**
 * The three state-changing requests of the application, dispatched on one
 * state, and what holds over any sequence of them: the store stays
 * well formed, records are never removed, and a lock is never lifted.
 */
module App {
  import opened Wrappers
  import opened UserModel
  import opened Store
  import opened Auth
  import opened Profile

  datatype Request =
    | RegisterRequest(email: string, password: string)
    | LoginRequest(email: string, password: string)
    | UpdateProfileRequest(file: Option<string>)

  /** Handle one request. */
  function Step(h: Hasher, s: State, req: Request): (r: Response)
    ensures s.db.users.Keys <= r.db.users.Keys
    ensures forall e :: e in s.db.users && s.db.users[e].isLocked ==> r.db.users[e].isLocked
    ensures forall e :: e in s.db.users ==> r.db.users[e].id == s.db.users[e].id
    ensures r.session != s.session ==>
              req.LoginRequest? && r.session.user.Some? &&
              (Wf(s.db) ==> r.session.user.value.email in r.db.users &&
                            r.db.users[r.session.user.value.email].id == r.session.user.value.id)
    ensures Wf(s.db) ==> Wf(r.db)
  {
    match req
    case RegisterRequest(email, password) => Register(h, s.db, s.session, email, password)
    case LoginRequest(email, password) => Login(h, s.db, s.session, email, password)
    case UpdateProfileRequest(file) => UpdateProfile(s.db, s.session, file)
  }

  /** A client of the server, told apart by its session cookie. */
  type ClientId = nat

  /** A request together with the client that sent it. */
  datatype Message = Message(client: ClientId, req: Request)

  /** The store and the session of every client that has one. */
  datatype Server = Server(db: Db, sessions: map<ClientId, Session>)

  /** The session a client's request arrives with; a client the server has not seen has an empty one. */
  function SessionOf(srv: Server, c: ClientId): (s: Session)
    ensures c !in srv.sessions ==> s == NoSession
  {
    if c in srv.sessions then srv.sessions[c] else NoSession
  }

  /** Every signed-in session names a stored record, by its email and its id. */
  predicate SessionsValid(srv: Server) {
    forall c :: c in srv.sessions && srv.sessions[c].user.Some? ==>
      var u := srv.sessions[c].user.value;
      u.email in srv.db.users && srv.db.users[u.email].id == u.id
  }

  /** The server invariant: a well-formed store and sessions that name stored records. */
  predicate ServerInv(srv: Server) {
    Wf(srv.db) && SessionsValid(srv)
  }

  /** From `db` to `db'` no record disappears and no lock is lifted. */
  predicate KeepsRecordsAndLocks(db: Db, db': Db) {
    db.users.Keys <= db'.users.Keys &&
    forall e :: e in db.users && db.users[e].isLocked ==> db'.users[e].isLocked
  }

  /** Handle the messages in order, each with its sender's session. */
  function Run(h: Hasher, srv: Server, msgs: seq<Message>): (t: Server)
    decreases |msgs|
  {
    if |msgs| == 0 then srv
    else
      var c := msgs[0].client;
      var r := Step(h, State(srv.db, SessionOf(srv, c)), msgs[0].req);
      Run(h, Server(r.db, srv.sessions[c := r.session]), msgs[1..])
  }

  /**
   * One message from any client keeps the store well formed, removes no
   * record, lifts no lock, and leaves every signed-in session naming a
   * stored record.
   */
  lemma DeliverPreservesInvariants(h: Hasher, srv: Server, m: Message)
    requires ServerInv(srv)
    ensures var r := Step(h, State(srv.db, SessionOf(srv, m.client)), m.req);
            var t := Server(r.db, srv.sessions[m.client := r.session]);
            ServerInv(t) && KeepsRecordsAndLocks(srv.db, t.db)
  {
  }

  /**
   * Over any interleaving of registration, login and profile-update requests
   * from any number of clients, the store stays well formed, no key
   * disappears, `isLocked` never goes from true to false, and every
   * signed-in session names a stored record.
   */
  lemma {:induction false} RunPreservesInvariants(h: Hasher, srv: Server, msgs: seq<Message>)
    requires ServerInv(srv)
    ensures ServerInv(Run(h, srv, msgs)) && KeepsRecordsAndLocks(srv.db, Run(h, srv, msgs).db)
    decreases |msgs|
  {
    if |msgs| > 0 {
      var c := msgs[0].client;
      var r := Step(h, State(srv.db, SessionOf(srv, c)), msgs[0].req);
      var next := Server(r.db, srv.sessions[c := r.session]);
      DeliverPreservesInvariants(h, srv, msgs[0]);
      RunPreservesInvariants(h, next, msgs[1..]);
    }
  }

  /**
   * In every state reachable from an empty store with no sessions, whatever
   * clients sent, each account's counter is at most 5, it is exactly 5 iff
   * the account is locked, each record sits under its own email and holds an
   * email and a digest, and each signed-in session names a stored record.
   */
  lemma ReachableStatesKeepLockoutInvariant(h: Hasher, msgs: seq<Message>)
    ensures var t := Run(h, Server(EmptyDb, map[]), msgs);
            && SessionsValid(t)
            && forall e :: e in t.db.users ==>
                 && t.db.users[e].failedLoginAttempts <= MaxFailedAttempts
                 && (t.db.users[e].failedLoginAttempts == MaxFailedAttempts <==> t.db.users[e].isLocked)
                 && t.db.users[e].email == e
                 && HasRequiredFields(t.db.users[e])
  {
    RunPreservesInvariants(h, Server(EmptyDb, map[]), msgs);
  }

  /**
   * Registering and then logging in with the same email and password
   * succeeds and puts the new account into the session.
   */
  lemma RegisterThenLogin(h: Hasher, s: State, email: string, password: string)
    requires Sound(h)
    requires email != "" && password != "" && email !in s.db.users
    ensures var registered := Step(h, s, RegisterRequest(email, password));
            var loggedIn := Step(h, State(registered.db, registered.session), LoginRequest(email, password));
            && registered.outcome == Redirected(LoginPath)
            && email in registered.db.users
            && loggedIn.outcome == Redirected(ProfilePath)
            && loggedIn.session.user == Some(SessionUser(registered.db.users[email].id, email))
            && loggedIn.db.users[email].failedLoginAttempts == 0
  {
  }
}
