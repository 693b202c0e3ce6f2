/** The records of the application's database and the invariants the
    database keeps over them. The database schema itself is not part of this
    model; what the route handlers' queries imply about it is stated here:
    a status row is unique per (userId, problemId) pair and refers to an
    existing user and problem, a user's email is unique (users are looked up
    by email with a unique-key query), and ids are unique. */
module Tables {
  import opened JsValues

  /** An opaque point in time, as produced by `new Date()`. */
  type Time = int

  /** The key of a status row: (userId, problemId). */
  type StatusKey = (string, string)

  /** One row of the per-user problem-status table. */
  datatype StatusRow = StatusRow(status: string, solvedAt: Option<Time>)

  /** A problem. Its `submissions` counter lives in `Tables.submissions`.
      The columns the create call passes through unchecked are kept as the
      JSON values the request carried. */
  datatype Problem = Problem(
    id: string,
    title: string,
    difficulty: string,
    platform: string,
    url: string,
    description: JsVal,
    tags: JsVal,
    testCases: JsVal)

  /** An account. `username`, `password` and `image` may be NULL. */
  datatype User = User(
    id: string,
    username: Option<string>,
    email: string,
    password: Option<string>,
    image: Option<string>)

  /** A discussion-board message. */
  /** The user of a session, as next-auth's session callback fills it. */
  datatype SessionUser = SessionUser(id: Option<string>, name: Option<string>, email: Option<string>)

  datatype Message = Message(id: string, username: string, text: string, createdAt: Time)

  /** The whole database. */
  datatype Tables = Tables(
    statuses: map<StatusKey, StatusRow>,
    submissions: map<string, nat>,
    problems: seq<Problem>,
    users: seq<User>,
    messages: seq<Message>)

  /** The status string the submit route treats as solved. */
  const SOLVED := "SOLVED"

  /** The ids of the problems, gathered from the last one back. */
  function ProblemIds(problems: seq<Problem>): set<string>
  {
    if problems == [] then {} else ProblemIds(problems[..|problems| - 1]) + {problems[|problems| - 1].id}
  }

  /** The ids of the users, gathered from the last one back. */
  function UserIds(users: seq<User>): set<string>
  {
    if users == [] then {} else UserIds(users[..|users| - 1]) + {users[|users| - 1].id}
  }

  /** An id is among the problem ids exactly when some problem has it. */
  lemma {:induction false} ProblemIdsSpec(problems: seq<Problem>, x: string)
    ensures x in ProblemIds(problems) <==> exists i :: 0 <= i < |problems| && problems[i].id == x
  {
    if problems != [] {
      var init := problems[..|problems| - 1];
      ProblemIdsSpec(init, x);
      if exists i :: 0 <= i < |init| && init[i].id == x {
        var i :| 0 <= i < |init| && init[i].id == x;
        assert problems[i] == init[i];
      }
      if exists i :: 0 <= i < |problems| && problems[i].id == x {
        var i :| 0 <= i < |problems| && problems[i].id == x;
        if i < |init| {
          assert init[i] == problems[i];
        }
      }
    }
  }

  /** An id is among the user ids exactly when some user has it. */
  lemma {:induction false} UserIdsSpec(users: seq<User>, x: string)
    ensures x in UserIds(users) <==> exists i :: 0 <= i < |users| && users[i].id == x
  {
    if users != [] {
      var init := users[..|users| - 1];
      UserIdsSpec(init, x);
      if exists i :: 0 <= i < |init| && init[i].id == x {
        var i :| 0 <= i < |init| && init[i].id == x;
        assert users[i] == init[i];
      }
      if exists i :: 0 <= i < |users| && users[i].id == x {
        var i :| 0 <= i < |users| && users[i].id == x;
        if i < |init| {
          assert init[i] == users[i];
        }
      }
    }
  }

  /** Appending a problem adds its id. */
  lemma ProblemIdsAppend(problems: seq<Problem>, p: Problem)
    ensures ProblemIds(problems + [p]) == ProblemIds(problems) + {p.id}
  {
    assert (problems + [p])[..|problems|] == problems;
  }

  /** Appending a user adds its id. */
  lemma UserIdsAppend(users: seq<User>, u: User)
    ensures UserIds(users + [u]) == UserIds(users) + {u.id}
  {
    assert (users + [u])[..|users|] == users;
  }

  /** The ids of the messages. */
  function MessageIds(messages: seq<Message>): set<string>
  {
    set m | m in messages :: m.id
  }

  /** The user with this email, if there is one. */
  function FindUserByEmail(users: seq<User>, email: string): (r: Option<User>)
    ensures r.Some? ==> r.value in users && r.value.email == email
    ensures r.None? ==> forall u :: u in users ==> u.email != email
  {
    if users == [] then None
    else if users[0].email == email then Some(users[0])
    else FindUserByEmail(users[1..], email)
  }

  /** A row's `solvedAt` is set exactly when its status is `"SOLVED"`. */
  predicate RowWellFormed(row: StatusRow)
  {
    row.solvedAt.Some? <==> row.status == SOLVED
  }

  /** Problem ids are unique, and every problem, and nothing else, has a
      submission counter. */
  predicate ProblemsKeyed(problems: seq<Problem>, submissions: map<string, nat>)
  {
    && (forall i, j :: 0 <= i < j < |problems| ==> problems[i].id != problems[j].id)
    && submissions.Keys == ProblemIds(problems)
  }

  /** User ids and user emails are unique. */
  predicate UsersUnique(users: seq<User>)
  {
    && (forall i, j :: 0 <= i < j < |users| ==> users[i].id != users[j].id)
    && (forall i, j :: 0 <= i < j < |users| ==> users[i].email != users[j].email)
  }

  /** Message ids are unique. */
  predicate MessagesUnique(messages: seq<Message>)
  {
    forall i, j :: 0 <= i < j < |messages| ==> messages[i].id != messages[j].id
  }

  /** Every status row refers to an existing user and problem and is well formed. */
  predicate StatusesValid(statuses: map<StatusKey, StatusRow>, users: seq<User>, submissions: map<string, nat>)
  {
    && (forall k :: k in statuses ==> k.0 in UserIds(users) && k.1 in submissions)
    && (forall k :: k in statuses ==> RowWellFormed(statuses[k]))
  }

  /** The invariants every operation of the database keeps. */
  predicate Consistent(t: Tables)
  {
    && ProblemsKeyed(t.problems, t.submissions)
    && UsersUnique(t.users)
    && MessagesUnique(t.messages)
    && StatusesValid(t.statuses, t.users, t.submissions)
  }

  /** The empty database is consistent. */
  lemma EmptyConsistent()
    ensures Consistent(Tables(map[], map[], [], [], []))
  {
  }

  /** With unique emails, the user found by email is the only one with it. */
  lemma FoundUserIsUnique(t: Tables, email: string, u: User)
    requires Consistent(t)
    requires FindUserByEmail(t.users, email) == Some(u)
    ensures forall v :: v in t.users && v.email == email ==> v == u
  {
    forall v | v in t.users && v.email == email ensures v == u {
      var i :| 0 <= i < |t.users| && t.users[i] == v;
      var j :| 0 <= j < |t.users| && t.users[j] == u;
      assert i == j;
    }
  }
}
