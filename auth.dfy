/** Sign-in and sign-up of `routes/auth.py` over the `users` table, keyed by
    its unique `username` column.

    Password hashing (Argon2) is not modelled: `hash` and `verify` are
    parameters standing for `hash_password` and `verify_password`. */
module Auth {
  import opened Common
  import opened Tokens

  /** A row of `users` (the username is the key of the map). */
  datatype UserRow = UserRow(id: nat, passwordHash: string, role: string)

  /** The fields of a sign-in or sign-up body; an absent key is `None`.
      Sign-in ignores `role`. */
  datatype AuthBody = AuthBody(username: Option<string>, password: Option<string>, role: Option<string>)

  /** What a successful sign-in returns: the stored id and role and the token. */
  datatype SignedIn = SignedIn(userId: nat, role: string, token: Payload)

  /** What a successful sign-up returns. */
  datatype Registered = Registered(username: string, role: string)

  /** The role a sign-up without a `role` field gets. */
  const SignUpDefaultRole: string := "user"

  /** The one reply for an unknown user and for a wrong password alike. */
  const BadCredentials: Response := Reply(401, "Invalid username or password")

  /** Both credentials are supplied and non-empty. */
  predicate HasCredentials(b: AuthBody)
  {
    Present(b.username) && Present(b.password)
  }

  /** `sign_in`: a missing body or credential is answered with 400; an
      unknown username or a password that does not verify, with the same
      401; otherwise the stored id and role come back with a token issued for
      them, valid for two hours. The table is only read. */
  function SignIn(users: map<string, UserRow>, body: Option<AuthBody>,
                  verify: (string, string) -> bool, now: int): (r: Result<SignedIn>)
    ensures body.None? ==> r == Err(Reply(400, "Please provide username and password"))
    ensures body.Some? && !HasCredentials(body.value) ==>
              r == Err(Reply(400, "Username and password are required"))
    ensures body.Some? && HasCredentials(body.value) ==>
              var u, p := body.value.username.value, body.value.password.value;
              && (r.Ok? <==> u in users && verify(users[u].passwordHash, p))
              && (r.Err? ==> r == Err(BadCredentials))
              && (r.Ok? ==> && r.value.userId == users[u].id && r.value.role == users[u].role
                            && r.value.token == GeneratePayload(users[u].id, users[u].role, now, 2))
  {
    if body.None? then Err(Reply(400, "Please provide username and password"))
    else if !HasCredentials(body.value) then Err(Reply(400, "Username and password are required"))
    else
      var u, p := body.value.username.value, body.value.password.value;
      if u !in users then Err(BadCredentials)
      else if !verify(users[u].passwordHash, p) then Err(BadCredentials)
      else
        var row := users[u];
        Ok(SignedIn(row.id, row.role, GeneratePayload(row.id, row.role, now, 2)))
  }

  /** Missing credentials are rejected with 400 before the table is consulted:
      the answer is the same whatever the table and the verifier. */
  lemma SignInRejectsBeforeLookup(users1: map<string, UserRow>, users2: map<string, UserRow>,
                                  body: Option<AuthBody>, verify1: (string, string) -> bool,
                                  verify2: (string, string) -> bool, now: int)
    requires body.None? || !HasCredentials(body.value)
    ensures SignIn(users1, body, verify1, now) == SignIn(users2, body, verify2, now)
    ensures SignIn(users1, body, verify1, now).Err?
    ensures SignIn(users1, body, verify1, now).resp.status == 400
  {
  }

  /** An unknown username and a known one with a wrong password get the very
      same reply, so a caller cannot tell which usernames exist. */
  lemma SignInFailuresIndistinguishable(unknown: map<string, UserRow>, known: map<string, UserRow>,
                                        u: string, p: string, verify: (string, string) -> bool,
                                        role: Option<string>, now: int)
    requires u != "" && p != ""
    requires u !in unknown
    requires u in known && !verify(known[u].passwordHash, p)
    ensures SignIn(unknown, Some(AuthBody(Some(u), Some(p), role)), verify, now)
         == SignIn(known, Some(AuthBody(Some(u), Some(p), role)), verify, now)
         == Err(BadCredentials)
  {
  }

  /** The table after a successful sign-up: one new row, under the new
      username, holding the hash of the password. */
  function AddUser(users: map<string, UserRow>, username: string, id: nat,
                   hash: string -> string, password: string, role: string): (r: map<string, UserRow>)
    requires username !in users
    ensures r.Keys == users.Keys + {username} && |r| == |users| + 1
    ensures r[username] == UserRow(id, hash(password), role)
    ensures forall v :: v in users ==> r[v] == users[v]
  {
    users[username := UserRow(id, hash(password), role)]
  }

  /** Signing up and then signing in with the same credentials succeeds with
      the new id and role, provided the verifier accepts the hash of a
      password together with that password; and it fails with 401 for any
      other password the verifier rejects. */
  lemma SignUpThenSignIn(users: map<string, UserRow>, u: string, p: string, q: string,
                         id: nat, role: string, hash: string -> string,
                         verify: (string, string) -> bool, now: int)
    requires u != "" && p != "" && q != "" && u !in users
    requires verify(hash(p), p) && !verify(hash(p), q)
    ensures SignIn(AddUser(users, u, id, hash, p, role), Some(AuthBody(Some(u), Some(p), None)), verify, now)
         == Ok(SignedIn(id, role, GeneratePayload(id, role, now, 2)))
    ensures SignIn(AddUser(users, u, id, hash, p, role), Some(AuthBody(Some(u), Some(q), None)), verify, now)
         == Err(BadCredentials)
  {
  }

  /** The `users` table with MySQL's AUTO_INCREMENT counter for `id`. */
  class UserStore {
    var users: map<string, UserRow>
    var nextId: nat

    /** Every id was handed out by the counter, and no two users share one. */
    ghost predicate Valid()
      reads this
    {
      && (forall u :: u in users ==> users[u].id < nextId)
      && (forall u, v :: u in users && v in users && u != v ==> users[u].id != users[v].id)
    }

    constructor ()
      ensures Valid() && users == map[] && nextId == 1
    {
      users := map[];
      nextId := 1;
    }

    /** `sign_up`: a missing body or credential is answered with 400 and an
        existing username with 409, both with the table unchanged; otherwise
        exactly one user is added, with the hashed password and the given
        role (`user` when none is given), and 201 is returned. */
    method SignUp(body: Option<AuthBody>, hash: string -> string) returns (r: Result<Registered>)
      requires Valid()
      modifies this
      ensures Valid()
      ensures body.None? ==> r == Err(Reply(400, "No input data provided")) && unchanged(this)
      ensures body.Some? && !HasCredentials(body.value) ==>
                r == Err(Reply(400, "Username and password are required")) && unchanged(this)
      ensures body.Some? && HasCredentials(body.value) && body.value.username.value in old(users) ==>
                r == Err(Reply(409, "User already exists")) && unchanged(this)
      ensures body.Some? && HasCredentials(body.value) && body.value.username.value !in old(users) ==>
                var u, role := body.value.username.value, body.value.role.GetOr(SignUpDefaultRole);
                && r == Ok(Registered(u, role))
                && users == AddUser(old(users), u, old(nextId), hash, body.value.password.value, role)
                && nextId == old(nextId) + 1
    {
      if body.None? {
        return Err(Reply(400, "No input data provided"));
      }
      var b := body.value;
      var role := b.role.GetOr(SignUpDefaultRole);
      if !HasCredentials(b) {
        return Err(Reply(400, "Username and password are required"));
      }
      var u, hashed := b.username.value, hash(b.password.value);
      if u in users {
        return Err(Reply(409, "User already exists"));
      }
      users := users[u := UserRow(nextId, hashed, role)];
      nextId := nextId + 1;
      r := Ok(Registered(u, role));
    }
  }
}
