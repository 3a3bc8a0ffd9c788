# Account lockout and credentials of a small registration/login web app

A Dafny model of the request handlers at the core of a small Express/Mongoose
application: `POST /register` and `POST /login` (routes/auth.js), the
`isAuthenticated` guard and `PUT /profile` (routes/index.js), and the user
schema (models/User.js).

Each handler is a pure step function from (store, session, form input) to
(store', session', outcome):

- The users collection is a `map<string, User>` keyed by email, because the schema makes `email` unique.
- The session is the value of `req.session.user`.
- The outcome is either a rendered view with its error message or a redirect path.

bcrypt is a `Hasher`, a pair of uninterpreted functions `hash` and `verify`, passed as a parameter.
Wherever a property depends on it, the model assumes `Sound(h)`:
a password verifies against its own digest, and digests are never empty.

Files:

- `user.dfy` (`UserModel`): the `User` record and the schema defaults (`NewUser`).
  It also defines the `required` check and the lockout invariant (counter at most 5, and equal to 5 iff locked).
- `store.dfy` (`Store`): the store, session, outcome, the handlers' constant views, paths and messages, and the store invariant `Wf`.
  `Wf` says: each key is its record's email, required fields are present, ids are distinct, and every record keeps the lockout invariant.
- `auth.dfy` (`Auth`): `Register` and `Login`, with one lemma per branch of each.
- `profile.dfy` (`Profile`): `IsAuthenticated`, `SetPicture` and `UpdateProfile`.
- `lockout.dfy` (`Lockout`): sequences of login attempts against one email.
- `app.dfy` (`App`): the three requests dispatched on one state, and invariants over any interleaving of requests from many clients. Each client keeps its own session, which starts empty.

## Model

| member | source | states |
|---|---|---|
| UserModel.NewUser | models/User.js:4-26 | A new record has counter 0, is unlocked and has an empty picture. It satisfies the lockout invariant, and it passes the required check iff email and digest are non-empty |
| UserModel.HasRequiredFields | models/User.js:5-13 | True iff email and digest are non-empty, which is Mongoose's `required: true` on both string paths |
| Auth.Register | routes/auth.js:13-43 | Succeeds iff both fields are non-empty, the email is new and the digest is non-empty. A failure leaves the store unchanged. A success adds exactly the new key, keeps every old record, and stores the digest under a fresh id. The session is never touched. Store well-formedness is preserved |
| Auth.Login | routes/auth.js:51-94 | Never adds or removes keys and touches only the record under the given email. It changes only that record's counter and lock flag, and a locked record not at all. The session changes only on a redirect to the profile, and then it holds that user's id and email. Store well-formedness is preserved |
| Auth.RegisterEmptyFieldsRejected | routes/auth.js:18-20 | Registering with an empty email or password renders "Please fill all fields". Store and session are unchanged |
| Auth.RegisterDuplicateRejected | routes/auth.js:23-26 | Registering a taken email renders "User already exists". The existing record and the rest of the store are unchanged |
| Auth.RegisterAddsFreshRecord | routes/auth.js:29-38 | A successful registration adds exactly one record and grows the store by one. The record holds `hash(password)`, which verifies against the password. It gets counter 0, unlocked, empty picture, and the handler redirects to the login page |
| Auth.LoginRejectedNoChange | routes/auth.js:54-61 | Empty fields or an unknown email change neither store nor session. Each renders its own message |
| Auth.LoginLockedRefused | routes/auth.js:64-66 | A locked account is refused with the lock message and nothing changes. The result is the same for every hasher, so the digest is never compared |
| Auth.LoginWrongPassword | routes/auth.js:69-80 | On an unlocked account, a wrong password adds exactly 1 to the counter. It locks the account iff the new count is at least 5, and leaves the session unchanged |
| Auth.LoginCorrectPassword | routes/auth.js:83-89 | On an unlocked account in any store, the right password resets the counter to 0 and keeps the account unlocked. It sets the session to the stored user's id and email and redirects to `/profile` |
| Profile.IsAuthenticated | routes/index.js:9-14 | True iff the session holds a user |
| Profile.SetPicture | routes/index.js:50-52 | With a file, the picture becomes `"/uploads/" + filename`. Without one, the record is unchanged. No other field is ever touched |
| Profile.UpdateProfile | routes/index.js:45-62 | Without a session user, the result is a redirect to the login page with nothing changed. If no record has the session's id, the result is a redirect to `/` with nothing changed. Otherwise only records with that id change, and only their picture. Keys, session and well-formedness are preserved |
| Profile.GuardRedirectsIffAnonymous | routes/index.js:9-14 | The handler answers with the login redirect iff the session holds no user |
| Profile.UpdateProfileSingleRecord | routes/index.js:47-55 | In a well-formed store, the update rewrites exactly the record with the session's id. The new picture is the upload path if a file came, and the old picture otherwise |
| Profile.UpdateProfileIdempotent | routes/index.js:50-52 | Sending the same update with the same filename twice gives the same store, session and outcome as sending it once |
| Lockout.WrongAttemptsAccumulate | routes/auth.js:64-80 | k wrong non-empty passwords in a row take the counter from c to min(c + k, 5) and lock the account iff c + k >= 5. The digest and the session stay the same |
| Lockout.FiveWrongLockFreshAccount | routes/auth.js:64-80 | After registering, five wrong passwords lock the account. The right password is then refused with the lock message and changes nothing |
| Lockout.SuccessThenFailureCountsOne | routes/auth.js:70-84 | After a successful login, a single wrong password leaves the counter at 1 whatever it was before |
| App.Step | routes/auth.js:64-85 | Dispatches registration, login and the profile update, from any store and any session. None of the three removes a record, changes a record's id, or unlocks a locked account, and each preserves store well-formedness. Only a login changes the session, and in a well-formed store the new session names the stored record with that id. The cited span is the lock rule; the handlers themselves are the rows for Auth.Register, Auth.Login and Profile.UpdateProfile |
| App.RunPreservesInvariants | routes/auth.js:64-85 | Over any interleaving of registration, login and profile-update requests from any number of clients, each with its own session, the store stays well formed and no key disappears. `isLocked` never goes from true to false, and every signed-in session names a stored record |
| App.ReachableStatesKeepLockoutInvariant | routes/auth.js:72-84 | In every state reachable from an empty store with no sessions, whatever any clients sent, each record has counter <= 5 and counter == 5 iff locked. Each record sits under its own email and holds an email and a digest, and every signed-in session names a stored record |
| App.DeliverPreservesInvariants | routes/auth.js:84-88 | One request from any client keeps the store well formed and removes no record. It lifts no lock, and it leaves every client's signed-in session naming a stored record with that id and email |
| App.RegisterThenLogin | routes/auth.js:29-89 | Registering and then logging in with the same credentials succeeds. It redirects to the profile and puts exactly the new record's id and email into the session (the id is what `PUT /profile` looks up). The counter is 0 |

## Behaviour of the handlers

- Input validation is only a non-emptiness test of the two fields (routes/auth.js:18, routes/auth.js:54). There is no email-format check and no password-strength rule.
- Emails match exactly, as map keys. They are not compared case-insensitively.
- `PUT /profile` can only set the picture. No request clears it.
- A wrong password locks the account when the counter is `>= 5` (routes/auth.js:75).

## Left out

- Express routing, EJS rendering and the GET routes (`/register`, `/login`, `/`, `/profile`): the only outcome modelled is the view with its message, or the redirect path.
- `GET /logout` and `session.destroy`: the session store is external.
- server.js: it is bootstrap and configuration only.
- bcrypt's salt, cost factor and timing: `hash` is a deterministic function here, while real bcrypt salts each call. Only `verify(p, hash(p))` and non-empty digests are relied on.
- Mongo document ids: modelled as a counter `nextId` that registration hands out and bumps.
- Mongoose's `required` validator: checked when registration saves the new record, which is the only place a record is created. Login and profile saves never change `email` or `password`, so the check cannot newly fail there.
- The `catch` branches for database, driver and hashing failures are not modelled.
- The read-then-write race between concurrent logins on one account is not modelled; requests run one after another.
- The upload middleware and its file-name generation use the clock and randomness, so the stored file name is an input, or None when there is no file.
- Form fields: an absent field is the empty string, which matches the handlers' falsiness test.
- Auth.Login and Auth.Register: only string fields are modelled. server.js:22-23 enables JSON bodies and extended URL-encoded bodies, so a field such as `email[$ne]=x` reaches `User.findOne({ email })` (routes/auth.js:23, routes/auth.js:58) as a query operator. Such a login can then count a failure against, or sign in as, a record that is not stored under any email the request names. The promise that a login touches only the record under the given email holds for string fields only.
- Profile.UpdateProfile: findById followed by save is written as an update of every record whose id matches. `Profile.UpdateProfileSingleRecord` shows this is exactly one record when ids are unique, which the database guarantees.
- `email` uniqueness is the map's key structure. Case-insensitive emails, email-format and password-strength checks, unlocking and picture removal do not exist in the handlers, so they are not modelled.

A locked account can never be unlocked: no request clears `isLocked`, and `App.RunPreservesInvariants` proves it.
This is how the handlers behave, not a modelling choice.
