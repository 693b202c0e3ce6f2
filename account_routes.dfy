/** The user table's routes: sign-up, sign-in, the existence check by email
    and the admin's unconditional insert. Password hashing, password
    comparison and token signing are calls into libraries and are taken as
    function parameters. */
module AccountRoutes {
  import opened JsValues
  import opened Tables

  /** The cost factor passed to the password hash. */
  const SALT_ROUNDS: nat := 10

  // ----- signup --------------------------------------------------------------

  /** The user the sign-up route inserts: the given username and email, and
      the hash of the given password. */
  function SignupUser(body: Body, hash: (string, nat) -> string, newId: string): User
  {
    var username := NullableText(Get(body, "username"));
    User(newId, if username.Some? then username.value else None, StrField(body, "email"),
         Some(hash(StrField(body, "password"), SALT_ROUNDS)), None)
  }

  /** POST /api/signup: refuse an email that is already registered,
      otherwise insert the user with the hashed password. `hash` is the
      password-hashing library and `newId` the id the store would assign. */
  function Signup(t: Tables, body: Body, hash: (string, nat) -> string, newId: string, storeFails: bool)
    : (out: (Tables, Reply<string>))
    ensures out.1.Code() in {201, 400, 500}
    ensures out.1.Code() == 400 <==>
      !storeFails && IsString(Get(body, "email")) && FindUserByEmail(t.users, StrField(body, "email")).Some?
    // a new email, with text fields and a free id, is registered
    ensures out.1.Code() == 201 <==>
      && !storeFails && IsString(Get(body, "email")) && IsString(Get(body, "password"))
      && FindUserByEmail(t.users, StrField(body, "email")).None?
      && NullableText(Get(body, "username")).Some? && newId !in UserIds(t.users)
    ensures out.1.Code() != 201 ==> out.0 == t
    ensures out.1.Code() == 201 ==>
      && IsString(Get(body, "email")) && IsString(Get(body, "password"))
      && (forall u :: u in t.users ==> u.email != StrField(body, "email"))
      && var u := SignupUser(body, hash, newId);
      && out.0.users == t.users + [u]
      && u.email == StrField(body, "email")
      && NullableText(Get(body, "username")) == Some(u.username)
      // what is stored is the hash of the password
      && u.password == Some(hash(StrField(body, "password"), SALT_ROUNDS))
      && out.0.statuses == t.statuses && out.0.submissions == t.submissions
      && out.0.problems == t.problems && out.0.messages == t.messages
  {
    var email, password := Get(body, "email"), Get(body, "password");
    if storeFails || !email.JStr? then (t, Error(500, "Internal Server error"))
    else if FindUserByEmail(t.users, email.s).Some? then (t, Error(400, "Email already registered"))
    else if !password.JStr? || NullableText(Get(body, "username")).None? || newId in UserIds(t.users) then
      (t, Error(500, "Internal Server error"))
    else (t.(users := t.users + [SignupUser(body, hash, newId)]), Json(201, "User registered successfully"))
  }

  /** Sign-up keeps every email (and every id) unique. */
  lemma SignupKeepsConsistent(t: Tables, body: Body, hash: (string, nat) -> string, newId: string, storeFails: bool)
    requires Consistent(t)
    ensures Consistent(Signup(t, body, hash, newId, storeFails).0)
  {
    var (t1, r) := Signup(t, body, hash, newId, storeFails);
    if r.Code() == 201 {
      AppendUserKeepsConsistent(t, SignupUser(body, hash, newId));
    }
  }

  /** Appending a user with a new id and a new email keeps the invariants. */
  lemma AppendUserKeepsConsistent(t: Tables, u: User)
    requires Consistent(t)
    requires u.id !in UserIds(t.users)
    requires forall v :: v in t.users ==> v.email != u.email
    ensures Consistent(t.(users := t.users + [u]))
  {
    var users := t.users + [u];
    UserIdsAppend(t.users, u);
    forall i, j | 0 <= i < j < |users|
      ensures users[i].id != users[j].id && users[i].email != users[j].email
    {
      if j == |t.users| {
        UserIdsSpec(t.users, u.id);
        assert users[i] == t.users[i];
        assert users[i] in t.users;
      }
    }
  }

  // ----- signin --------------------------------------------------------------

  /** POST /api/signin: find the user by email (404 if none), compare the
      password with the stored hash (a missing hash is compared as the empty
      string; 401 on mismatch), and sign a token over the user's id and email.
      `compare` is the hash comparison and `sign` the token signer. */
  function Signin(t: Tables, body: Body, compare: (string, string) -> bool, sign: (string, string) -> string,
                  storeFails: bool): (r: Reply<string>)
    ensures r.Code() in {200, 401, 404, 500}
    ensures r.Code() == 404 <==>
      !storeFails && IsString(Get(body, "email")) && FindUserByEmail(t.users, StrField(body, "email")).None?
    ensures r.Code() == 401 ==>
      var u := FindUserByEmail(t.users, StrField(body, "email"));
      && u.Some?
      && !compare(StrField(body, "password"), if u.value.password.Some? then u.value.password.value else "")
    ensures r.Code() == 500 <==>
      storeFails || !IsString(Get(body, "email")) ||
      (FindUserByEmail(t.users, StrField(body, "email")).Some? && !IsString(Get(body, "password")))
    // once the user is found, the comparison alone decides between 401 and 200
    ensures !storeFails && IsString(Get(body, "email")) && IsString(Get(body, "password"))
            && FindUserByEmail(t.users, StrField(body, "email")).Some? ==>
      var u := FindUserByEmail(t.users, StrField(body, "email")).value;
      var ok := compare(StrField(body, "password"), if u.password.Some? then u.password.value else "");
      && (r.Code() == 401 <==> !ok)
      && (r == Json(200, sign(u.id, u.email)) <==> ok)
    ensures r.Json? ==>
      && r.code == 200
      && exists u :: u in t.users && u.email == StrField(body, "email")
                     && compare(StrField(body, "password"), if u.password.Some? then u.password.value else "")
                     && r.body == sign(u.id, u.email)
  {
    var email, password := Get(body, "email"), Get(body, "password");
    if storeFails || !email.JStr? then Error(500, "Internal Server Error")
    else
      var found := FindUserByEmail(t.users, email.s);
      if found.None? then Error(404, "User not found. Please register.")
      else
        var u := found.value;
        var stored := if u.password.Some? then u.password.value else "";
        if !password.JStr? then Error(500, "Internal Server Error")
        else if !compare(password.s, stored) then Error(401, "Invalid email or password.")
        else Json(200, sign(u.id, u.email))
  }

  /** An unknown email is answered with 404 before any password is compared:
      the answer does not depend on the comparison. */
  lemma SigninNotFoundBeforeCompare(t: Tables, body: Body, c1: (string, string) -> bool, c2: (string, string) -> bool,
                                    sign: (string, string) -> string)
    requires IsString(Get(body, "email")) && FindUserByEmail(t.users, StrField(body, "email")).None?
    ensures Signin(t, body, c1, sign, false) == Signin(t, body, c2, sign, false)
    ensures Signin(t, body, c1, sign, false).Code() == 404
  {
  }

  // ----- check-user ----------------------------------------------------------

  /** The body of a check-user answer: `{exists: true, user: {id, email}}` or
      `{exists: false}`. */
  datatype UserLookup = Found(id: string, email: string) | NotFound

  /** GET /api/check-user?email=...: does a user have the URI-decoded email?
      `email` is the query parameter (`None` when absent) and `decode` is
      `decodeURIComponent` (`None` when it throws). */
  function CheckUser(t: Tables, email: Option<string>, decode: string -> Option<string>, storeFails: bool)
    : (r: Reply<UserLookup>)
    ensures r.Code() == 400 <==> email.None? || email.value == ""
    ensures r.Code() == 500 <==> email.Some? && email.value != "" && (decode(email.value).None? || storeFails)
    ensures r.Json? <==> email.Some? && email.value != "" && decode(email.value).Some? && !storeFails
    ensures r.Json? ==>
      && email.Some? && decode(email.value).Some?
      && var e := decode(email.value).value;
      && (r.code == 404 <==> r.body == NotFound)
      && (r.code == 200 <==> r.body.Found?)
      && (r.body == NotFound <==> forall u :: u in t.users ==> u.email != e)
      && (r.body.Found? ==> r.body.email == e && exists u :: u in t.users && u.id == r.body.id && u.email == e)
  {
    if email.None? || email.value == "" then Error(400, "Email query parameter is required")
    else
      var decoded := decode(email.value);
      if decoded.None? || storeFails then Error(500, "Internal Server Error")
      else
        var found := FindUserByEmail(t.users, decoded.value);
        if found.None? then Json(404, NotFound)
        else Json(200, Found(found.value.id, found.value.email))
  }

  // ----- admin/addUser -------------------------------------------------------

  /** The insert succeeds: the store is up, email is text, the other columns
      are text or absent, and the id and email are not taken. */
  predicate AddUserCreates(t: Tables, body: Body, newId: string, storeFails: bool)
  {
    && !storeFails
    && IsString(Get(body, "email"))
    && NullableText(Get(body, "username")).Some?
    && NullableText(Get(body, "password")).Some?
    && NullableText(Get(body, "image")).Some?
    && newId !in UserIds(t.users)
    && (forall u :: u in t.users ==> u.email != StrField(body, "email"))
  }

  /** POST /api/admin/addUser: insert the user exactly as given, password
      included, with no check of its own; only a failed insert answers 500. */
  function AddUser(t: Tables, body: Body, newId: string, storeFails: bool): (out: (Tables, Reply<User>))
    ensures out.1.Code() in {201, 500}
    ensures out.1.Code() == 500 <==> !AddUserCreates(t, body, newId, storeFails)
    ensures out.1.Code() == 500 ==> out.0 == t
    ensures out.1.Code() == 201 ==>
      && out.1.Json?
      && var u := out.1.body;
      && u.id == newId
      && Get(body, "email") == JStr(u.email)
      // the password is stored as supplied, not hashed
      && NullableText(Get(body, "password")) == Some(u.password)
      && NullableText(Get(body, "username")) == Some(u.username)
      && NullableText(Get(body, "image")) == Some(u.image)
      && out.0.users == t.users + [u]
      && out.0.statuses == t.statuses && out.0.submissions == t.submissions
      && out.0.problems == t.problems && out.0.messages == t.messages
  {
    if !AddUserCreates(t, body, newId, storeFails) then (t, Error(500, "Error adding user"))
    else
      var u := User(newId, NullableText(Get(body, "username")).value, StrField(body, "email"),
                    NullableText(Get(body, "password")).value, NullableText(Get(body, "image")).value);
      (t.(users := t.users + [u]), Json(201, u))
  }

  /** The admin insert keeps the invariants. */
  lemma AddUserKeepsConsistent(t: Tables, body: Body, newId: string, storeFails: bool)
    requires Consistent(t)
    ensures Consistent(AddUser(t, body, newId, storeFails).0)
  {
    var (t1, r) := AddUser(t, body, newId, storeFails);
    if r.Code() == 201 {
      AppendUserKeepsConsistent(t, r.body);
    }
  }
}
