/** The next-auth configuration's callbacks: the credentials provider's
    `authorize`, the `jwt` and `session` callbacks (which fill in the token
    and the session object they are given), and `signIn` (find-or-create of
    the user by email). */
module AuthOptions {
  import opened JsValues
  import opened Text
  import opened Tables
  import AccountRoutes

  /** `name || email?.split("@")[0]`: the name when it is non-empty,
      otherwise the part of the email before its first `@`. */
  function DisplayName(name: Option<string>, email: Option<string>): (r: Option<string>)
    ensures name.Some? && name.value != "" ==> r == name
    ensures !(name.Some? && name.value != "") ==>
      (r.Some? <==> email.Some?) &&
      (r.Some? ==> '@' !in r.value && r.value <= email.value &&
                   (|r.value| == |email.value| || email.value[|r.value|] == '@'))
  {
    if name.Some? && name.value != "" then name
    else if email.Some? then Some(EmailPrefix(email.value))
    else None
  }

  // ----- authorize -----------------------------------------------------------

  /** What the sign-in form submits; a field may be missing. */
  datatype Credentials = Credentials(email: Option<string>, password: Option<string>)

  /** The user record `authorize` hands to next-auth. */
  datatype AuthUser = AuthUser(id: string, name: string, email: string)

  /** Why `authorize` throws. */
  datatype AuthFailure =
    | MissingEmailOrPassword  // "Missing email or password"
    | InvalidEmailOrPassword  // "Invalid email or password"
    | StoreFailure            // the lookup itself failed

  datatype Authorization = Authorized(user: AuthUser) | Rejected(reason: AuthFailure)

  predicate Blank(s: Option<string>)
  {
    s.None? || s.value == ""
  }

  /** `authorize(credentials)`: both fields required, then look the user up
      by email. The password is not compared with anything. */
  function Authorize(users: seq<User>, credentials: Option<Credentials>, storeFails: bool): (r: Authorization)
    ensures r == Rejected(MissingEmailOrPassword) <==>
      credentials.None? || Blank(credentials.value.email) || Blank(credentials.value.password)
    ensures r == Rejected(InvalidEmailOrPassword) <==>
      && !(credentials.None? || Blank(credentials.value.email) || Blank(credentials.value.password))
      && !storeFails
      && forall u :: u in users ==> u.email != credentials.value.email.value
    ensures r == Rejected(StoreFailure) <==>
      !(credentials.None? || Blank(credentials.value.email) || Blank(credentials.value.password)) && storeFails
    // a registered email with both fields filled in is authorized
    ensures r.Authorized? <==>
      && !(credentials.None? || Blank(credentials.value.email) || Blank(credentials.value.password))
      && !storeFails
      && FindUserByEmail(users, credentials.value.email.value).Some?
    ensures r.Authorized? ==>
      && r.user.email == credentials.value.email.value
      && exists u :: u in users && u.id == r.user.id && u.email == r.user.email
                     && Some(r.user.name) == DisplayName(u.username, Some(u.email))
  {
    if credentials.None? || Blank(credentials.value.email) || Blank(credentials.value.password) then
      Rejected(MissingEmailOrPassword)
    else if storeFails then Rejected(StoreFailure)
    else
      var found := FindUserByEmail(users, credentials.value.email.value);
      if found.None? then Rejected(InvalidEmailOrPassword)
      else
        var u := found.value;
        Authorized(AuthUser(u.id, DisplayName(u.username, Some(u.email)).value, u.email))
  }

  /** Any non-empty password is accepted for a registered email. */
  lemma AuthorizeIgnoresPassword(users: seq<User>, email: string, p1: string, p2: string)
    requires p1 != "" && p2 != ""
    ensures Authorize(users, Some(Credentials(Some(email), Some(p1))), false)
         == Authorize(users, Some(Credentials(Some(email), Some(p2))), false)
    ensures (exists u :: u in users && u.email == email) && email != "" ==>
      Authorize(users, Some(Credentials(Some(email), Some(p1))), false).Authorized?
  {
  }

  // ----- jwt and session -----------------------------------------------------

  /** The JWT next-auth keeps for a session; the callback assigns its fields. */
  class Token {
    var id: Option<string>
    var name: Option<string>
    var email: Option<string>

    constructor ()
      ensures id == None && name == None && email == None
    {
      id, name, email := None, None, None;
    }
  }

  /** The user next-auth passes to `jwt` on sign-in. */
  datatype JwtUser = JwtUser(id: string, name: Option<string>, email: Option<string>)

  /** `jwt({token, user})`: on sign-in copy the user's id, display name and
      email into the token; otherwise leave the token as it is. */
  method Jwt(token: Token, user: Option<JwtUser>) returns (result: Token)
    modifies token
    ensures result == token
    ensures user.None? ==> token.id == old(token.id) && token.name == old(token.name) && token.email == old(token.email)
    ensures user.Some? ==>
      && token.id == Some(user.value.id)
      && token.name == DisplayName(user.value.name, user.value.email)
      && token.email == user.value.email
  {
    if user.Some? {
      token.id := Some(user.value.id);
      token.name := DisplayName(user.value.name, user.value.email);
      token.email := user.value.email;
    }
    result := token;
  }

  /** The session object handed to the client. */
  class Session {
    var user: SessionUser

    constructor (name: Option<string>, email: Option<string>)
      ensures user == SessionUser(None, name, email)
    {
      user := SessionUser(None, name, email);
    }
  }

  /** `session({session, token})`: when there is a token, copy its id, name
      and email into the session's user. */
  method SessionCallback(session: Session, token: Token?) returns (result: Session)
    modifies session
    ensures result == session
    ensures token == null ==> session.user == old(session.user)
    ensures token != null ==> session.user == SessionUser(token.id, token.name, token.email)
  {
    if token != null {
      session.user := SessionUser(token.id, token.name, token.email);
    }
    result := session;
  }

  /** A credentials sign-in followed by the two callbacks gives the session
      the user's id, display name and email. */
  method SignInSession(users: seq<User>, credentials: Option<Credentials>, token: Token, session: Session)
    returns (a: Authorization)
    modifies token, session
    ensures a == Authorize(users, credentials, false)
    ensures a.Authorized? ==>
      session.user == SessionUser(Some(a.user.id), Some(a.user.name), Some(a.user.email))
  {
    a := Authorize(users, credentials, false);
    if a.Authorized? {
      var t := Jwt(token, Some(JwtUser(a.user.id, Some(a.user.name), Some(a.user.email))));
      if a.user.name == "" {
        // Authorize never yields an empty name unless the email's prefix is empty,
        // and then the jwt callback recomputes that same prefix.
        ghost var u :| u in users && u.id == a.user.id && u.email == a.user.email
                     && Some(a.user.name) == DisplayName(u.username, Some(u.email));
        assert token.name == Some(EmailPrefix(a.user.email));
      }
      var s := SessionCallback(session, token);
    }
  }

  // ----- signIn --------------------------------------------------------------

  /** The user next-auth passes to `signIn`. */
  datatype SignInUser = SignInUser(email: Option<string>, name: Option<string>)

  /** `signIn({user})`: refuse a user without an email; otherwise create a
      user with that email (and the name, or `""`) unless one exists. Errors
      of the lookup or the insert are logged and the sign-in still allowed. */
  function SignIn(t: Tables, user: SignInUser, newId: string, storeFails: bool): (out: (Tables, bool))
    ensures !out.1 <==> Blank(user.email)
    ensures out.0.statuses == t.statuses && out.0.submissions == t.submissions
            && out.0.problems == t.problems && out.0.messages == t.messages
    ensures out.0 != t ==>
      && !Blank(user.email)
      && (forall u :: u in t.users ==> u.email != user.email.value)
      && out.0.users == t.users + [User(newId, Some(if user.name.Some? then user.name.value else ""),
                                        user.email.value, None, None)]
    ensures !Blank(user.email) && !storeFails && newId !in UserIds(t.users) ==>
      exists u :: u in out.0.users && u.email == user.email.value
    // a lookup or insert that throws is caught and inserts nothing
    ensures out.0 != t <==>
      && !Blank(user.email) && !storeFails
      && FindUserByEmail(t.users, user.email.value).None? && newId !in UserIds(t.users)
  {
    if Blank(user.email) then (t, false)
    else if storeFails then (t, true)
    else if FindUserByEmail(t.users, user.email.value).Some? then (t, true)
    else if newId in UserIds(t.users) then (t, true)
    else
      var u := User(newId, Some(if user.name.Some? then user.name.value else ""), user.email.value, None, None);
      assert u in t.users + [u];
      (t.(users := t.users + [u]), true)
  }

  /** `signIn` creates no second user for an email, so emails stay unique. */
  lemma SignInKeepsConsistent(t: Tables, user: SignInUser, newId: string, storeFails: bool)
    requires Consistent(t)
    ensures Consistent(SignIn(t, user, newId, storeFails).0)
  {
    var (t1, _) := SignIn(t, user, newId, storeFails);
    if t1 != t {
      var u := t1.users[|t1.users| - 1];
      assert t1.users == t.users + [u];
      AccountRoutes.AppendUserKeepsConsistent(t, u);
    }
  }

  /** Signing in twice with the same email creates at most one user. */
  lemma SignInTwiceCreatesOnce(t: Tables, user: SignInUser, id1: string, id2: string)
    ensures var t1 := SignIn(t, user, id1, false).0;
            var t2 := SignIn(t1, user, id2, false).0;
            t1 == t || t2 == t1
  {
  }
}
