/** The handlers of `Backend/controllers/authController.js`. `login` is a
    decision chain over one lookup and bcrypt's compare; `register` inserts a
    user, here through the class `UserStore`. JWT signing is the parameter
    `sign`, taking the payload and the lifetime in seconds. */
module AuthController {
  import opened Optional
  import opened UserModel
  import Serial

  /** The token payload `{id, userName}`. */
  datatype Claims = Claims(id: nat, userName: string)

  /** The user object of the login response: no password field exists in it. */
  datatype PublicUser = PublicUser(id: nat, userName: string)

  datatype AuthBody = Message(text: string) | LoggedIn(token: string, user: PublicUser)

  datatype AuthResponse = AuthResponse(status: nat, body: AuthBody)

  /** `expiresIn: '1d'`, in seconds. */
  const OneDay: nat := 86400

  /** `login`. */
  function LoginOutcome(users: seq<User>, userName: string, password: string,
                        matches: (string, string) -> bool, sign: (Claims, nat) -> string): AuthResponse
  {
    if userName == "" || password == "" then
      AuthResponse(400, Message("Please provide username and password"))
    else match FindUser(users, userName)
      case None => AuthResponse(401, Message("Invalid login details"))
      case Some(i) =>
        var u := users[i];
        if !ComparePassword(u, password, matches) then AuthResponse(401, Message("Invalid login details"))
        else AuthResponse(200, LoggedIn(sign(Claims(u.oid, u.userName), OneDay), PublicUser(u.oid, u.userName)))
  }

  /** A request missing either field is refused before the store is consulted:
      the answer is the same whatever the users are. */
  lemma LoginMissingField(users: seq<User>, userName: string, password: string,
                          matches: (string, string) -> bool, sign: (Claims, nat) -> string)
    requires userName == "" || password == ""
    ensures LoginOutcome(users, userName, password, matches, sign) == AuthResponse(400, Message("Please provide username and password"))
    ensures LoginOutcome(users, userName, password, matches, sign) == LoginOutcome([], userName, password, matches, sign)
  {
  }

  /** An unknown name and a wrong password get the same answer, so a caller
      cannot tell which names exist. */
  lemma LoginFailureIsUniform(users: seq<User>, userName: string, password: string,
                              matches: (string, string) -> bool, sign: (Claims, nat) -> string)
    requires userName != "" && password != ""
    ensures LoginOutcome(users, userName, password, matches, sign).status != 200 ==>
      LoginOutcome(users, userName, password, matches, sign) == AuthResponse(401, Message("Invalid login details"))
    ensures LoginOutcome(users, userName, password, matches, sign).status == 200 <==>
      FindUser(users, userName).Some? && matches(password, users[FindUser(users, userName).value].password)
  {
  }

  /** A successful login signs exactly `{id, userName}` of the user found, for
      one day, and returns only those two fields of the user. */
  lemma LoginSucceeds(users: seq<User>, userName: string, password: string,
                      matches: (string, string) -> bool, sign: (Claims, nat) -> string)
    requires LoginOutcome(users, userName, password, matches, sign).status == 200
    ensures FindUser(users, userName).Some?
    ensures var u := users[FindUser(users, userName).value];
      && u.userName == userName && matches(password, u.password)
      && LoginOutcome(users, userName, password, matches, sign).body ==
           LoggedIn(sign(Claims(u.oid, userName), OneDay), PublicUser(u.oid, userName))
  {
  }

  /** `register`: the two 400 answers, then the insertion of a new user with
      the given `_id`. */
  function RegisterOutcome(users: seq<User>, userName: string, password: string, oid: nat,
                           hash: string -> string): (nat, string, seq<User>)
  {
    if userName == "" || password == "" then (400, "Please provide username and password", users)
    else if FindUser(users, userName).Some? then (400, "Username already exists", users)
    else match SaveUser(users, |users|, User(oid, 0, userName, password), true, hash)
      case Some(r) => (201, "User created successfully", r)
      case None => (500, "Server error", users)
  }

  /** No `_id` of the collection. */
  predicate FreshOid(users: seq<User>, oid: nat) {
    forall j :: 0 <= j < |users| ==> users[j].oid != oid
  }

  /** Register refuses a missing field or a taken name with 400 and leaves the users alone. */
  lemma RegisterRejects(users: seq<User>, userName: string, password: string, oid: nat, hash: string -> string)
    ensures var (status, message, after) := RegisterOutcome(users, userName, password, oid, hash);
      && (userName == "" || password == "" ==> status == 400 && message == "Please provide username and password")
      && (userName != "" && password != "" && (exists j :: 0 <= j < |users| && users[j].userName == userName) ==>
            status == 400 && message == "Username already exists")
      && (status == 400 ==> after == users)
  {
  }

  /** Otherwise, with a fresh `_id`, register always succeeds: it appends
      exactly one user, numbered after every other, holding the hash of the
      password; the response carries no token. */
  lemma RegisterSucceeds(users: seq<User>, userName: string, password: string, oid: nat, hash: string -> string)
    requires userName != "" && password != "" && FreshOid(users, oid)
    requires forall j :: 0 <= j < |users| ==> users[j].userName != userName
    ensures RegisterOutcome(users, userName, password, oid, hash) ==
      (201, "User created successfully", users + [User(oid, Serial.Next(Snos(users)), userName, hash(password))])
  {
    SaveNewUser(users, User(oid, 0, userName, password), hash);
  }

  /** Register keeps the invariant of the users. */
  lemma RegisterKeepsOk(users: seq<User>, userName: string, password: string, oid: nat, hash: string -> string)
    requires UsersOk(users)
    ensures UsersOk(RegisterOutcome(users, userName, password, oid, hash).2)
  {
    if userName != "" && password != "" && FindUser(users, userName).None? {
      match SaveUser(users, |users|, User(oid, 0, userName, password), true, hash)
      case Some(r) => SaveUserKeepsOk(users, |users|, User(oid, 0, userName, password), true, hash);
      case None =>
    }
  }

  /** A user just registered can log in with the same password, when bcrypt's
      compare accepts a password against its own hash; the token names the new user. */
  lemma RegisterThenLogin(users: seq<User>, userName: string, password: string, oid: nat,
                          hash: string -> string, matches: (string, string) -> bool, sign: (Claims, nat) -> string)
    requires userName != "" && password != "" && FreshOid(users, oid)
    requires forall j :: 0 <= j < |users| ==> users[j].userName != userName
    requires matches(password, hash(password))
    ensures var after := RegisterOutcome(users, userName, password, oid, hash).2;
      LoginOutcome(after, userName, password, matches, sign) ==
        AuthResponse(200, LoggedIn(sign(Claims(oid, userName), OneDay), PublicUser(oid, userName)))
  {
    RegisterSucceeds(users, userName, password, oid, hash);
    var after := users + [User(oid, Serial.Next(Snos(users)), userName, hash(password))];
    FindAppended(users, after, userName);
  }

  lemma FindAppended(users: seq<User>, after: seq<User>, userName: string)
    requires |after| == |users| + 1 && after[..|users|] == users && after[|users|].userName == userName
    requires forall j :: 0 <= j < |users| ==> users[j].userName != userName
    ensures FindUser(after, userName) == Some(|users|)
  {
    assert forall j :: 0 <= j < |users| ==> after[j] == users[j];
    match FindUser(after, userName)
    case None =>
    case Some(k) =>
  }

  /** The users collection as mutable state. */
  class UserStore {
    var users: seq<User>

    constructor ()
      ensures users == []
    {
      users := [];
    }

    /** `register`; `oid` is the `_id` the driver generates for the new document. */
    method Register(userName: string, password: string, oid: nat, hash: string -> string)
      returns (status: nat, message: string)
      modifies this
      ensures (status, message, users) == RegisterOutcome(old(users), userName, password, oid, hash)
      ensures old(UsersOk(users)) ==> UsersOk(users)
    {
      if UsersOk(users) {
        RegisterKeepsOk(users, userName, password, oid, hash);
      }
      if userName == "" || password == "" {
        return 400, "Please provide username and password";
      }
      var existing := FindUser(users, userName);
      if existing.Some? {
        return 400, "Username already exists";
      }
      var saved := SaveUser(users, |users|, User(oid, 0, userName, password), true, hash);
      if saved.None? {
        return 500, "Server error";
      }
      users := saved.value;
      return 201, "User created successfully";
    }

    /** `login`, which reads the users and changes nothing. */
    method Login(userName: string, password: string, matches: (string, string) -> bool,
                 sign: (Claims, nat) -> string) returns (r: AuthResponse)
      ensures r == LoginOutcome(users, userName, password, matches, sign)
    {
      if userName == "" || password == "" {
        return AuthResponse(400, Message("Please provide username and password"));
      }
      var found := FindUser(users, userName);
      if found.None? {
        return AuthResponse(401, Message("Invalid login details"));
      }
      var u := users[found.value];
      var isMatch := ComparePassword(u, password, matches);
      if !isMatch {
        return AuthResponse(401, Message("Invalid login details"));
      }
      var token := sign(Claims(u.oid, u.userName), OneDay);
      return AuthResponse(200, LoggedIn(token, PublicUser(u.oid, u.userName)));
    }
  }
}
