/**
 The user registry behind the `/signup` and `/login` handlers of the BTC
 prediction API: a table of user records with an auto-assigned integer id and
 unique usernames and emails, where a "hashed" password is the plaintext behind
 the fixed prefix "hashed_".

 The relational table is modelled as a sequence of records in insertion order,
 and its autoincrement primary key as a next-id counter. A query
 `filter(...).first()` is modelled by `First`, which returns the position of
 the earliest matching record.
 */
module UserRegistry {

  datatype Option<T> = None | Some(value: T)

  /** The two failures of the auth handlers (both answered with status 400). */
  datatype Error =
    | Conflict            // "Username or email already registered"
    | InvalidCredentials  // "Invalid username or password"

  datatype Result<T> = Ok(value: T) | Err(error: Error)

  /** A row of the `users` table. */
  datatype User = User(id: int, username: string, email: string, hashedPassword: string)

  /** Request body of `/signup`. */
  datatype UserCreate = UserCreate(username: string, email: string, password: string)

  /** Request body of `/login`. */
  datatype UserLogin = UserLogin(username: string, password: string)

  /** Response of `/signup`: the public fields of a user, without the password. */
  datatype UserOut = UserOut(id: int, username: string, email: string)

  /** Response of a successful `/login`. */
  datatype LoginOk = LoginOk(message: string, userId: int, username: string)

  const HashPrefix: string := "hashed_"
  const LoginMessage: string := "Login successful"

  /** The stored form of a password: the plaintext behind a fixed prefix. */
  function FakeHash(password: string): (h: string)
    ensures |h| == |HashPrefix| + |password|
    ensures h[..|HashPrefix|] == HashPrefix
    ensures h[|HashPrefix|..] == password
  {
    HashPrefix + password
  }

  /** Two passwords are stored alike exactly when they are equal. */
  lemma FakeHashInjective(p: string, q: string)
    ensures FakeHash(p) == FakeHash(q) <==> p == q
  {
  }

  /** The two query filters the handlers use. */
  datatype Filter =
    | ByUsername(username: string)
    | ByUsernameOrEmail(username: string, email: string)

  /** Both filters accept a record with the queried username; the signup filter also
      accepts one with the queried email, and nothing else is accepted. */
  predicate Matches(u: User, f: Filter)
    ensures Matches(u, f) <==> u.username == f.username || (f.ByUsernameOrEmail? && u.email == f.email)
  {
    match f
    case ByUsername(name) => u.username == name
    case ByUsernameOrEmail(name, email) => u.username == name || u.email == email
  }

  /** `query(User).filter(f).first()`: the position of the earliest matching record, if any. */
  function First(users: seq<User>, f: Filter): (r: Option<nat>)
    ensures r.Some? ==> r.value < |users| && Matches(users[r.value], f)
    ensures r.Some? ==> forall j :: 0 <= j < r.value ==> !Matches(users[j], f)
    ensures r.None? <==> forall j :: 0 <= j < |users| ==> !Matches(users[j], f)
  {
    if users == [] then None
    else if Matches(users[0], f) then Some(0)
    else match First(users[1..], f)
      case None => None
      case Some(k) => Some(k + 1)
  }

  predicate UniqueUsernames(users: seq<User>) {
    forall i, j :: 0 <= i < j < |users| ==> users[i].username != users[j].username
  }

  predicate UniqueEmails(users: seq<User>) {
    forall i, j :: 0 <= i < j < |users| ==> users[i].email != users[j].email
  }

  /** Ids are positive, grow in insertion order and stay below the next id to assign,
      which is 1 for an empty table and one more than the last id otherwise. */
  predicate IdsBelow(users: seq<User>, nextId: int) {
    && (forall i :: 0 <= i < |users| ==> 0 < users[i].id < nextId)
    && (forall i, j :: 0 <= i < j < |users| ==> users[i].id < users[j].id)
    && nextId == (if users == [] then 1 else users[|users| - 1].id + 1)
  }

  /** What the table's primary key and unique constraints guarantee. */
  predicate TableInvariant(users: seq<User>, nextId: int) {
    && 1 <= nextId
    && UniqueUsernames(users)
    && UniqueEmails(users)
    && IdsBelow(users, nextId)
  }

  /** Some stored user already has this username, or this email. */
  predicate Registered(users: seq<User>, username: string, email: string) {
    exists i :: 0 <= i < |users| && (users[i].username == username || users[i].email == email)
  }

  /** The signup query finds a record exactly when the username or the email is taken. */
  lemma ConflictQuery(users: seq<User>, username: string, email: string)
    ensures First(users, ByUsernameOrEmail(username, email)).Some? <==> Registered(users, username, email)
  {
  }

  /** The record a successful signup inserts, under the id the table assigns: its public
      fields are the request's, and its stored password is the request's behind the prefix. */
  function NewRecord(id: int, req: UserCreate): (u: User)
    ensures Public(u) == UserOut(id, req.username, req.email)
    ensures |u.hashedPassword| == |HashPrefix| + |req.password|
    ensures u.hashedPassword[..|HashPrefix|] == HashPrefix
    ensures u.hashedPassword[|HashPrefix|..] == req.password
  {
    User(id, req.username, req.email, FakeHash(req.password))
  }

  /** The `UserOut` projection of a record. */
  function Public(u: User): (o: UserOut)
    ensures o.id == u.id && o.username == u.username && o.email == u.email
  {
    UserOut(u.id, u.username, u.email)
  }

  /** Two records look alike in a response exactly when they differ at most in the stored
      password: the projection keeps every public field and nothing else. */
  lemma PublicHidesPassword(u: User, v: User)
    ensures Public(u) == Public(v) <==> u.(hashedPassword := v.hashedPassword) == v
  {
  }

  /** Inserting a record whose username and email are both free keeps the table invariant. */
  lemma SignupPreservesInvariant(users: seq<User>, nextId: int, req: UserCreate)
    requires TableInvariant(users, nextId)
    requires !Registered(users, req.username, req.email)
    ensures TableInvariant(users + [NewRecord(nextId, req)], nextId + 1)
  {
  }

  /** The login check: look the username up, then compare the stored password. */
  function Authenticate(users: seq<User>, req: UserLogin): (r: Result<LoginOk>)
    ensures r.Err? ==> r.error == InvalidCredentials
    ensures r.Ok? ==> exists i :: 0 <= i < |users| && users[i].username == req.username
                                 && users[i].hashedPassword == FakeHash(req.password)
                                 && r.value == LoginOk(LoginMessage, users[i].id, users[i].username)
    ensures (forall i :: 0 <= i < |users| ==> users[i].username != req.username) ==> r.Err?
  {
    match First(users, ByUsername(req.username))
    case None => Err(InvalidCredentials)
    case Some(k) =>
      if users[k].hashedPassword != FakeHash(req.password) then Err(InvalidCredentials)
      else Ok(LoginOk(LoginMessage, users[k].id, users[k].username))
  }

  /** With unique usernames, login succeeds exactly when the user exists and the password
      matches, and then reports that user's id and username. */
  lemma AuthenticateIff(users: seq<User>, req: UserLogin)
    requires UniqueUsernames(users)
    ensures Authenticate(users, req).Ok? <==>
              exists i :: 0 <= i < |users| && users[i].username == req.username
                          && users[i].hashedPassword == FakeHash(req.password)
    ensures forall i :: 0 <= i < |users| && users[i].username == req.username
                        && users[i].hashedPassword == FakeHash(req.password) ==>
              Authenticate(users, req) == Ok(LoginOk(LoginMessage, users[i].id, users[i].username))
  {
  }

  /** After a successful signup of (u, e, p), logging in as u succeeds with the new id
      when given p and fails for every other password. */
  lemma SignupThenLogin(users: seq<User>, nextId: int, req: UserCreate)
    requires TableInvariant(users, nextId)
    requires !Registered(users, req.username, req.email)
    ensures Authenticate(users + [NewRecord(nextId, req)], UserLogin(req.username, req.password))
              == Ok(LoginOk(LoginMessage, nextId, req.username))
    ensures forall q :: q != req.password ==>
              Authenticate(users + [NewRecord(nextId, req)], UserLogin(req.username, q))
                == Err(InvalidCredentials)
  {
    var users' := users + [NewRecord(nextId, req)];
    var n := |users|;
    SignupPreservesInvariant(users, nextId, req);
    assert users'[n] == NewRecord(nextId, req);
    AuthenticateIff(users', UserLogin(req.username, req.password));
    forall q | q != req.password
      ensures Authenticate(users', UserLogin(req.username, q)) == Err(InvalidCredentials)
    {
      FakeHashInjective(req.password, q);
      AuthenticateIff(users', UserLogin(req.username, q));
    }
  }

  /** The `users` table with its autoincrement counter. */
  class UserTable {
    var users: seq<User>
    var nextId: int

    ghost predicate Valid()
      reads this
    {
      TableInvariant(users, nextId)
    }

    /** An empty table; SQLite assigns 1 to the first row. */
    constructor ()
      ensures Valid()
      ensures users == [] && nextId == 1
    {
      users := [];
      nextId := 1;
    }

    /** `/signup`: insert the user unless the username or the email is taken. */
    method Signup(req: UserCreate) returns (r: Result<UserOut>)
      requires Valid()
      modifies this
      ensures Valid()
      ensures r.Err? <==> Registered(old(users), req.username, req.email)
      ensures r.Err? ==> r.error == Conflict && users == old(users) && nextId == old(nextId)
      ensures r.Ok? ==> users == old(users) + [NewRecord(old(nextId), req)]
                        && nextId == old(nextId) + 1
                        && r.value == UserOut(old(nextId), req.username, req.email)
      ensures r.Ok? ==> forall i :: 0 <= i < |old(users)| ==> old(users)[i].id != r.value.id
    {
      var existing := First(users, ByUsernameOrEmail(req.username, req.email));
      ConflictQuery(users, req.username, req.email);
      if existing.Some? {
        return Err(Conflict);
      }
      var u := NewRecord(nextId, req);
      SignupPreservesInvariant(users, nextId, req);
      users := users + [u];
      nextId := nextId + 1;
      r := Ok(Public(u));
    }

    /** `/login`: a read of the table; having no modifies clause, it changes nothing. */
    method Login(req: UserLogin) returns (r: Result<LoginOk>)
      requires Valid()
      ensures r == Authenticate(users, req)
      ensures r.Ok? <==> exists i :: 0 <= i < |users| && users[i].username == req.username
                                     && users[i].hashedPassword == FakeHash(req.password)
      ensures forall i :: 0 <= i < |users| && users[i].username == req.username
                          && users[i].hashedPassword == FakeHash(req.password) ==>
                r == Ok(LoginOk(LoginMessage, users[i].id, users[i].username))
      ensures r.Err? ==> r.error == InvalidCredentials
    {
      AuthenticateIff(users, req);
      r := Authenticate(users, req);
    }
  }

  /** The documented exchange: alice signs up, a second signup reusing her username with
      another email is refused, and she can log in with her password but not with another. */
  method AliceScenario() returns (first: Result<UserOut>, second: Result<UserOut>,
                                  good: Result<LoginOk>, bad: Result<LoginOk>)
    ensures first == Ok(UserOut(1, "alice", "a@x.com"))
    ensures second == Err(Conflict)
    ensures good == Ok(LoginOk(LoginMessage, 1, "alice"))
    ensures bad == Err(InvalidCredentials)
  {
    var table := new UserTable();
    var alice := UserCreate("alice", "a@x.com", "pw1");
    first := table.Signup(alice);
    SignupThenLogin([], 1, alice);
    assert table.users[0].username == "alice";
    second := table.Signup(UserCreate("alice", "b@x.com", "pw2"));
    good := table.Login(UserLogin("alice", "pw1"));
    bad := table.Login(UserLogin("alice", "wrong"));
  }
}
