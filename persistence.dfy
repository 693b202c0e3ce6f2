/** The database the writing routes change in place. Each method performs its
    route's steps on the tables one at a time and is proved to produce the
    state and reply of the route's specification function, and to keep the
    database's invariants. */
module Persistence {
  import opened JsValues
  import opened Tables
  import SubmissionRoutes
  import CatalogRoutes
  import AccountRoutes
  import AuthOptions

  class Database {
    var statuses: map<StatusKey, StatusRow>
    var submissions: map<string, nat>
    var problems: seq<Problem>
    var users: seq<User>
    var messages: seq<Message>

    /** The tables as one value. */
    function State(): Tables
      reads this
    {
      Tables(statuses, submissions, problems, users, messages)
    }

    ghost predicate Valid()
      reads this
    {
      Consistent(State())
    }

    /** An empty database. */
    constructor ()
      ensures State() == Tables(map[], map[], [], [], [])
      ensures Valid()
    {
      statuses, submissions, problems, users, messages := map[], map[], [], [], [];
      EmptyConsistent();
    }

    /** POST /api/submit: read the prior row, then upsert the row and, when
        the status moves into `"SOLVED"`, increment the problem's counter. */
    method Submit(body: Body, now: Time, storeFails: bool) returns (reply: Reply<string>)
      requires Valid()
      modifies this
      ensures Valid()
      ensures (State(), reply) == SubmissionRoutes.Submit(old(State()), body, now, storeFails)
    {
      ghost var t := State();
      SubmissionRoutes.SubmitKeepsConsistent(t, body, now, storeFails);
      var userId, problemId, status := Get(body, "userId"), Get(body, "problemId"), Get(body, "status");
      if SubmissionRoutes.SubmitMissingFields(body) {
        return Error(400, SubmissionRoutes.SUBMIT_MISSING);
      }
      if SubmissionRoutes.SubmitBadIdTypes(body) {
        return Error(400, SubmissionRoutes.SUBMIT_BAD_TYPE);
      }
      var k := (userId.s, problemId.s);
      // the prior row is read before the writes
      var isNew := k !in statuses || statuses[k].status != SOLVED;
      if !SubmissionRoutes.SubmitCommits(State(), userId.s, problemId.s, status, storeFails) {
        return Error(500, SubmissionRoutes.SUBMIT_FAILED);
      }
      var row := StatusRow(status.s, if status.s == SOLVED then Some(now) else None);
      statuses := statuses[k := row];
      if isNew && status.s == SOLVED {
        submissions := submissions[problemId.s := submissions[problemId.s] + 1];
      }
      reply := Json(200, SubmissionRoutes.SUBMIT_OK);
    }

    /** POST /api/delete-submission: remove the pair's row, if any. */
    method DeleteSubmission(body: Body, storeFails: bool) returns (reply: Reply<string>)
      requires Valid()
      modifies this
      ensures Valid()
      ensures (State(), reply) == SubmissionRoutes.DeleteSubmission(old(State()), body, storeFails)
    {
      SubmissionRoutes.DeleteKeepsConsistent(State(), body, storeFails);
      var userId, problemId := Get(body, "userId"), Get(body, "problemId");
      if SubmissionRoutes.PairMissing(body) {
        return Error(400, SubmissionRoutes.DELETE_MISSING);
      }
      if storeFails || !userId.JStr? || !problemId.JStr? {
        return Error(500, SubmissionRoutes.DELETE_FAILED);
      }
      statuses := statuses - {(userId.s, problemId.s)};
      reply := Json(200, SubmissionRoutes.DELETE_OK);
    }

    /** POST /api/problems: append the problem and start its counter at zero. */
    method PostProblem(body: Body, newId: string, storeFails: bool) returns (reply: Reply<Problem>)
      requires Valid()
      modifies this
      ensures Valid()
      ensures (State(), reply) == CatalogRoutes.PostProblem(old(State()), body, newId, storeFails)
    {
      CatalogRoutes.PostProblemKeepsConsistent(State(), body, newId, storeFails);
      if CatalogRoutes.ProblemFieldsMissing(body) {
        return Error(400, "Missing required fields");
      }
      if !CatalogRoutes.ProblemCreates(State(), body, newId, storeFails) {
        return Error(500, "Internal Server Error");
      }
      var p := CatalogRoutes.NewProblem(body, newId);
      problems := problems + [p];
      submissions := submissions[newId := 0];
      reply := Json(201, p);
    }

    /** POST /api/discuss: append the message stamped with `now`. */
    method PostMessage(body: Body, newId: string, now: Time, storeFails: bool) returns (reply: Reply<Message>)
      requires Valid()
      modifies this
      ensures Valid()
      ensures (State(), reply) == CatalogRoutes.PostMessage(old(State()), body, newId, now, storeFails)
    {
      CatalogRoutes.PostMessageKeepsConsistent(State(), body, newId, now, storeFails);
      var username, text := Get(body, "username"), Get(body, "text");
      if Falsy(username) || Falsy(text) {
        return Error(400, "Missing fields");
      }
      if storeFails || !username.JStr? || !text.JStr? || newId in MessageIds(messages) {
        return Error(500, "Error posting message");
      }
      var m := Message(newId, username.s, text.s, now);
      messages := messages + [m];
      reply := Json(201, m);
    }

    /** POST /api/signup: look the email up, then insert the user with the
        hashed password. */
    method Signup(body: Body, hash: (string, nat) -> string, newId: string, storeFails: bool)
      returns (reply: Reply<string>)
      requires Valid()
      modifies this
      ensures Valid()
      ensures (State(), reply) == AccountRoutes.Signup(old(State()), body, hash, newId, storeFails)
    {
      AccountRoutes.SignupKeepsConsistent(State(), body, hash, newId, storeFails);
      var email, password := Get(body, "email"), Get(body, "password");
      if storeFails || !email.JStr? {
        return Error(500, "Internal Server error");
      }
      var existing := FindUserByEmail(users, email.s);
      if existing.Some? {
        return Error(400, "Email already registered");
      }
      if !password.JStr? || NullableText(Get(body, "username")).None? || newId in UserIds(users) {
        return Error(500, "Internal Server error");
      }
      users := users + [AccountRoutes.SignupUser(body, hash, newId)];
      reply := Json(201, "User registered successfully");
    }

    /** POST /api/admin/addUser: insert the user as given. */
    method AddUser(body: Body, newId: string, storeFails: bool) returns (reply: Reply<User>)
      requires Valid()
      modifies this
      ensures Valid()
      ensures (State(), reply) == AccountRoutes.AddUser(old(State()), body, newId, storeFails)
    {
      AccountRoutes.AddUserKeepsConsistent(State(), body, newId, storeFails);
      if !AccountRoutes.AddUserCreates(State(), body, newId, storeFails) {
        return Error(500, "Error adding user");
      }
      var u := User(newId, NullableText(Get(body, "username")).value, StrField(body, "email"),
                    NullableText(Get(body, "password")).value, NullableText(Get(body, "image")).value);
      users := users + [u];
      reply := Json(201, u);
    }

    /** The `signIn` callback: find the user by email and create one when
        there is none. */
    method SignIn(user: AuthOptions.SignInUser, newId: string, storeFails: bool) returns (allowed: bool)
      requires Valid()
      modifies this
      ensures Valid()
      ensures (State(), allowed) == AuthOptions.SignIn(old(State()), user, newId, storeFails)
    {
      AuthOptions.SignInKeepsConsistent(State(), user, newId, storeFails);
      if AuthOptions.Blank(user.email) {
        return false;
      }
      if storeFails {
        return true;
      }
      var existing := FindUserByEmail(users, user.email.value);
      if existing.Some? {
        return true;
      }
      if newId !in UserIds(users) {
        var name := if user.name.Some? then user.name.value else "";
        users := users + [User(newId, Some(name), user.email.value, None, None)];
      }
      allowed := true;
    }
  }
}
