/** The per-user problem-status table and its submission counter: the submit
    and delete-submission routes (as functions from the database before to
    the database after, with the reply), and the four read-only queries over
    the same table. */
module SubmissionRoutes {
  import opened JsValues
  import opened Text
  import opened Tables

  // ----- submit -----------------------------------------------------------

  const SUBMIT_MISSING := "Missing required fields."
  const SUBMIT_BAD_TYPE := "Invalid data type for userId or problemId."
  const SUBMIT_FAILED := "An error occurred while updating the submission status."
  const SUBMIT_OK := "Status updated successfully."

  /** The submit route rejects the request before touching the database. */
  predicate SubmitMissingFields(body: Body)
  {
    Falsy(Get(body, "userId")) || Falsy(Get(body, "problemId")) || Falsy(Get(body, "status"))
  }

  predicate SubmitBadIdTypes(body: Body)
  {
    !IsString(Get(body, "userId")) || !IsString(Get(body, "problemId"))
  }

  /** No row yet, or a row whose status is not exactly `"SOLVED"`. */
  predicate IsNewSubmission(statuses: map<StatusKey, StatusRow>, k: StatusKey)
  {
    k !in statuses || statuses[k].status != SOLVED
  }

  /** The transaction commits: the store is up, the status is text for the
      status column, and the row's user and problem exist. */
  predicate SubmitCommits(t: Tables, userId: string, problemId: string, status: JsVal, storeFails: bool)
  {
    !storeFails && status.JStr? && userId in UserIds(t.users) && problemId in t.submissions
  }

  /** POST /api/submit: validate, upsert the (userId, problemId) row, and add
      one to the problem's `submissions` when the status moves into
      `"SOLVED"` from no row or from a row that was not `"SOLVED"`. Upsert and
      increment happen together or not at all. */
  function Submit(t: Tables, body: Body, now: Time, storeFails: bool): (out: (Tables, Reply<string>))
    // the two 400 replies, decided before any database access
    ensures out.1.Code() == 400 <==> SubmitMissingFields(body) || SubmitBadIdTypes(body)
    ensures SubmitMissingFields(body) ==> out.1 == Error(400, SUBMIT_MISSING)
    ensures !SubmitMissingFields(body) && SubmitBadIdTypes(body) ==> out.1 == Error(400, SUBMIT_BAD_TYPE)
    // anything but success leaves every table as it was
    ensures out.1.Code() != 200 ==> out.0 == t
    ensures out.1.Code() in {200, 400, 500}
    // past validation, the transaction fails exactly when it cannot commit
    ensures out.1.Code() == 500 <==>
      && !SubmitMissingFields(body) && !SubmitBadIdTypes(body)
      && !SubmitCommits(t, StrField(body, "userId"), StrField(body, "problemId"), Get(body, "status"), storeFails)
    ensures out.1.Code() == 500 ==> out.1 == Error(500, SUBMIT_FAILED)
    ensures out.1.Code() == 200 ==>
      var u, p, s := StrField(body, "userId"), StrField(body, "problemId"), StrField(body, "status");
      var k := (u, p);
      && k in out.0.statuses
      && out.0.statuses[k].status == s
      // a `"SOLVED"` write stamps the row with the current time, any other clears it
      && out.0.statuses[k].solvedAt == (if s == SOLVED then Some(now) else None)
      && p in t.submissions && p in out.0.submissions
      && out.0.submissions[p] == t.submissions[p] + (if s == SOLVED && IsNewSubmission(t.statuses, k) then 1 else 0)
      // nothing else changes
      && (forall k' :: k' != k ==> (k' in out.0.statuses <==> k' in t.statuses))
      && (forall k' :: k' != k && k' in t.statuses ==> out.0.statuses[k'] == t.statuses[k'])
      && out.0.submissions.Keys == t.submissions.Keys
      && (forall q :: q in t.submissions && q != p ==> out.0.submissions[q] == t.submissions[q])
      && out.0.problems == t.problems && out.0.users == t.users && out.0.messages == t.messages
  {
    var userId, problemId, status := Get(body, "userId"), Get(body, "problemId"), Get(body, "status");
    if SubmitMissingFields(body) then (t, Error(400, SUBMIT_MISSING))
    else if SubmitBadIdTypes(body) then (t, Error(400, SUBMIT_BAD_TYPE))
    else if !SubmitCommits(t, userId.s, problemId.s, status, storeFails) then (t, Error(500, SUBMIT_FAILED))
    else
      var k := (userId.s, problemId.s);
      var row := StatusRow(status.s, if status.s == SOLVED then Some(now) else None);
      var counters :=
        if IsNewSubmission(t.statuses, k) && status.s == SOLVED
        then t.submissions[problemId.s := t.submissions[problemId.s] + 1]
        else t.submissions;
      (t.(statuses := t.statuses[k := row], submissions := counters), Json(200, SUBMIT_OK))
  }

  /** A body carrying the three fields as strings. */
  function SubmitBody(userId: string, problemId: string, status: string): Body
  {
    map["userId" := JStr(userId), "problemId" := JStr(problemId), "status" := JStr(status)]
  }

  /** Submitting the same request twice leaves the database as submitting it
      once: one row for the pair and, for `"SOLVED"`, a net counter increase of
      at most one. */
  lemma SubmitIdempotent(t: Tables, body: Body, now: Time)
    ensures Submit(Submit(t, body, now, false).0, body, now, false) == Submit(t, body, now, false)
  {
    var (t1, r1) := Submit(t, body, now, false);
    if r1.Code() == 200 {
      var p := StrField(body, "problemId");
      var k := (StrField(body, "userId"), p);
      var (t2, r2) := Submit(t1, body, now, false);
      assert SubmitCommits(t1, k.0, p, Get(body, "status"), false);
      assert t2.statuses == t1.statuses;
      assert t2.submissions == t1.submissions;
    }
  }

  /** Two `"SOLVED"` submissions for a pair that had no row raise the problem's
      counter by exactly one in all. */
  lemma SubmitSolvedTwiceCountsOnce(t: Tables, userId: string, problemId: string, now1: Time, now2: Time)
    requires userId != "" && problemId != ""
    requires userId in UserIds(t.users) && problemId in t.submissions
    requires (userId, problemId) !in t.statuses
    ensures var t1 := Submit(t, SubmitBody(userId, problemId, SOLVED), now1, false).0;
            var t2 := Submit(t1, SubmitBody(userId, problemId, SOLVED), now2, false).0;
            && problemId in t2.submissions
            && t2.submissions[problemId] == t.submissions[problemId] + 1
            && t2.statuses.Keys == t.statuses.Keys + {(userId, problemId)}
  {
    var body := SubmitBody(userId, problemId, SOLVED);
    assert Get(body, "userId") == JStr(userId) && Get(body, "problemId") == JStr(problemId);
    assert Get(body, "status") == JStr(SOLVED);
  }

  /** `"Unsolved"` then `"SOLVED"` for a fresh pair counts once; the first
      submission alone counts nothing. */
  lemma SubmitUnsolvedThenSolvedCountsOnce(t: Tables, userId: string, problemId: string, now1: Time, now2: Time)
    requires userId != "" && problemId != ""
    requires userId in UserIds(t.users) && problemId in t.submissions
    requires (userId, problemId) !in t.statuses
    ensures var t1 := Submit(t, SubmitBody(userId, problemId, "Unsolved"), now1, false).0;
            var t2 := Submit(t1, SubmitBody(userId, problemId, SOLVED), now2, false).0;
            && t1.submissions == t.submissions
            && problemId in t2.submissions
            && t2.submissions[problemId] == t.submissions[problemId] + 1
            && t1.statuses[(userId, problemId)].solvedAt == None
  {
    var b1 := SubmitBody(userId, problemId, "Unsolved");
    var b2 := SubmitBody(userId, problemId, SOLVED);
    assert Get(b1, "userId") == JStr(userId) && Get(b1, "problemId") == JStr(problemId);
    assert Get(b1, "status") == JStr("Unsolved");
    assert Get(b2, "userId") == JStr(userId) && Get(b2, "problemId") == JStr(problemId);
    assert Get(b2, "status") == JStr(SOLVED);
  }

  /** The submit route keeps the database's invariants. */
  lemma SubmitKeepsConsistent(t: Tables, body: Body, now: Time, storeFails: bool)
    requires Consistent(t)
    ensures Consistent(Submit(t, body, now, storeFails).0)
  {
    var (t1, r) := Submit(t, body, now, storeFails);
    if r.Code() == 200 {
      var k := (StrField(body, "userId"), StrField(body, "problemId"));
      assert k.0 in UserIds(t.users) && k.1 in t.submissions;
      forall k' | k' in t1.statuses
        ensures k'.0 in UserIds(t1.users) && k'.1 in t1.submissions && RowWellFormed(t1.statuses[k'])
      {
        if k' != k {
          assert k' in t.statuses;
        }
      }
    }
  }

  // ----- delete-submission -------------------------------------------------

  const DELETE_MISSING := "User ID and Problem ID are required."
  const DELETE_FAILED := "Failed to delete submission."
  const DELETE_OK := "Previous submission deleted successfully."

  predicate PairMissing(body: Body)
  {
    Falsy(Get(body, "userId")) || Falsy(Get(body, "problemId"))
  }

  /** POST /api/delete-submission: remove the row of a (userId, problemId)
      pair; succeeding when there is none. */
  function DeleteSubmission(t: Tables, body: Body, storeFails: bool): (out: (Tables, Reply<string>))
    ensures out.1.Code() == 400 <==> PairMissing(body)
    ensures out.1.Code() in {200, 400, 500}
    // a pair of strings with the store up is deleted, whether or not it had a row
    ensures out.1.Code() == 200 <==>
      !PairMissing(body) && !storeFails && IsString(Get(body, "userId")) && IsString(Get(body, "problemId"))
    ensures out.1.Code() != 200 ==> out.0 == t
    ensures out.1.Code() == 200 ==>
      var k := (StrField(body, "userId"), StrField(body, "problemId"));
      && k !in out.0.statuses
      && (forall k' :: k' != k ==> (k' in out.0.statuses <==> k' in t.statuses))
      && (forall k' :: k' in out.0.statuses ==> out.0.statuses[k'] == t.statuses[k'])
      // the counters, like every other table, are untouched
      && out.0.submissions == t.submissions
      && out.0.problems == t.problems && out.0.users == t.users && out.0.messages == t.messages
  {
    var userId, problemId := Get(body, "userId"), Get(body, "problemId");
    if PairMissing(body) then (t, Error(400, DELETE_MISSING))
    else if storeFails || !userId.JStr? || !problemId.JStr? then (t, Error(500, DELETE_FAILED))
    else (t.(statuses := t.statuses - {(userId.s, problemId.s)}), Json(200, DELETE_OK))
  }

  /** Deleting twice is deleting once. */
  lemma DeleteIdempotent(t: Tables, body: Body)
    ensures DeleteSubmission(DeleteSubmission(t, body, false).0, body, false)
         == DeleteSubmission(t, body, false)
  {
    var (t1, r1) := DeleteSubmission(t, body, false);
    if r1.Code() == 200 {
      var k := (StrField(body, "userId"), StrField(body, "problemId"));
      assert t1.statuses - {k} == t1.statuses;
    }
  }

  /** Deleting keeps the database's invariants. */
  lemma DeleteKeepsConsistent(t: Tables, body: Body, storeFails: bool)
    requires Consistent(t)
    ensures Consistent(DeleteSubmission(t, body, storeFails).0)
  {
  }

  /** A `"SOLVED"` submission that follows a delete of the pair's row always
      counts, even when the pair was already solved. */
  lemma DeleteThenSubmitSolvedAlwaysCounts(t: Tables, userId: string, problemId: string, now: Time)
    requires userId != "" && problemId != ""
    requires userId in UserIds(t.users) && problemId in t.submissions
    ensures var t1 := DeleteSubmission(t, map["userId" := JStr(userId), "problemId" := JStr(problemId)], false).0;
            var t2 := Submit(t1, SubmitBody(userId, problemId, SOLVED), now, false).0;
            && problemId in t2.submissions
            && t2.submissions[problemId] == t.submissions[problemId] + 1
  {
    var d := map["userId" := JStr(userId), "problemId" := JStr(problemId)];
    assert Get(d, "userId") == JStr(userId) && Get(d, "problemId") == JStr(problemId);
    var b := SubmitBody(userId, problemId, SOLVED);
    assert Get(b, "userId") == JStr(userId) && Get(b, "problemId") == JStr(problemId);
    assert Get(b, "status") == JStr(SOLVED);
  }

  /** The problem page's solve flow deletes the pair's row and then submits
      the status `"Solved"`: the row is stored, but no counter ever moves. */
  lemma ClientSolveFlowNeverCounts(t: Tables, userId: string, problemId: string, now: Time)
    requires userId != "" && problemId != ""
    requires userId in UserIds(t.users) && problemId in t.submissions
    ensures var t1 := DeleteSubmission(t, map["userId" := JStr(userId), "problemId" := JStr(problemId)], false).0;
            var t2 := Submit(t1, SubmitBody(userId, problemId, "Solved"), now, false).0;
            && t2.submissions == t.submissions
            && (userId, problemId) in t2.statuses
            && t2.statuses[(userId, problemId)] == StatusRow("Solved", None)
  {
    var d := map["userId" := JStr(userId), "problemId" := JStr(problemId)];
    assert Get(d, "userId") == JStr(userId) && Get(d, "problemId") == JStr(problemId);
    var b := SubmitBody(userId, problemId, "Solved");
    assert Get(b, "userId") == JStr(userId) && Get(b, "problemId") == JStr(problemId);
    assert Get(b, "status") == JStr("Solved");
    assert "Solved" != SOLVED by {
      assert "Solved"[1] != SOLVED[1];
    }
  }

  /** A status spelled other than exactly `"SOLVED"` (the client sends
      `"Solved"`) never moves any counter. */
  lemma OtherSpellingNeverCounts(t: Tables, body: Body, now: Time, storeFails: bool)
    requires Get(body, "status") != JStr(SOLVED)
    ensures Submit(t, body, now, storeFails).0.submissions == t.submissions
  {
  }

  // ----- check-submission ------------------------------------------------------

  /** POST /api/check-submission: is there a row for the pair whose status is
      exactly `"Solved"`? */
  function CheckSubmission(t: Tables, body: Body, storeFails: bool): (r: Reply<bool>)
    ensures r.Code() == 400 <==> PairMissing(body)
    ensures r.Json? <==>
      !PairMissing(body) && !storeFails && IsString(Get(body, "userId")) && IsString(Get(body, "problemId"))
    ensures r.Error? ==> r.code in {400, 500}
    ensures r.Json? ==>
      r.code == 200 &&
      (r.body <==> exists k :: k in t.statuses && k == (StrField(body, "userId"), StrField(body, "problemId"))
                               && t.statuses[k].status == "Solved")
  {
    var userId, problemId := Get(body, "userId"), Get(body, "problemId");
    if PairMissing(body) then Error(400, "Missing userId or problemId.")
    else if storeFails || !userId.JStr? || !problemId.JStr? then Error(500, "Failed to check submission.")
    else
      var k := (userId.s, problemId.s);
      Json(200, k in t.statuses && t.statuses[k].status == "Solved")
  }

  /** A pair solved through the submit route, whose row says `"SOLVED"`, is
      reported as not submitted. */
  lemma CheckMissesSubmittedSolved(t: Tables, userId: string, problemId: string, now: Time)
    requires userId != "" && problemId != ""
    requires userId in UserIds(t.users) && problemId in t.submissions
    ensures var t1 := Submit(t, SubmitBody(userId, problemId, SOLVED), now, false).0;
            var pair := map["userId" := JStr(userId), "problemId" := JStr(problemId)];
            CheckSubmission(t1, pair, false) == Json(200, false)
  {
    var b := SubmitBody(userId, problemId, SOLVED);
    assert Get(b, "userId") == JStr(userId) && Get(b, "problemId") == JStr(problemId);
    assert Get(b, "status") == JStr(SOLVED);
    var pair := map["userId" := JStr(userId), "problemId" := JStr(problemId)];
    assert Get(pair, "userId") == JStr(userId) && Get(pair, "problemId") == JStr(problemId);
  }

  // ----- solved (count) ------------------------------------------------------

  /** The keys of a user's rows. */
  function RowsOf(statuses: map<StatusKey, StatusRow>, userId: string): set<StatusKey>
  {
    set k | k in statuses && k.0 == userId
  }

  /** The keys of a user's rows whose status is `"SOLVED"` ignoring case. */
  function SolvedRowsIgnoringCase(statuses: map<StatusKey, StatusRow>, userId: string): (rows: set<StatusKey>)
    ensures rows <= RowsOf(statuses, userId)
  {
    set k | k in statuses && k.0 == userId && EqualsIgnoreCase(statuses[k].status, SOLVED)
  }

  /** GET /api/solved?userId=...: how many of the user's rows are solved,
      ignoring the case of the status. */
  function SolvedCount(t: Tables, userId: Option<string>, storeFails: bool): (r: Reply<nat>)
    ensures r.Code() == 400 <==> userId.None? || userId.value == ""
    ensures r.Code() == 500 <==> userId.Some? && userId.value != "" && storeFails
    ensures r.Json? <==> userId.Some? && userId.value != "" && !storeFails
    ensures r.Json? ==> r.code == 200 && r.body == |SolvedRowsIgnoringCase(t.statuses, userId.value)|
    ensures r.Json? ==> r.body <= |RowsOf(t.statuses, userId.value)|
  {
    if userId.None? || userId.value == "" then Error(400, "User ID is required")
    else if storeFails then Error(500, "Failed to fetch solved problems")
    else
      var rows := SolvedRowsIgnoringCase(t.statuses, userId.value);
      SubsetCard(rows, RowsOf(t.statuses, userId.value));
      Json(200, |rows|)
  }

  lemma {:induction false} SubsetCard<T>(a: set<T>, b: set<T>)
    requires a <= b
    ensures |a| <= |b|
  {
    if a != {} {
      var x :| x in a;
      SubsetCard(a - {x}, b - {x});
    }
  }

  /** Rows spelled `"Solved"`, the spelling the check-submission route looks
      for, are counted as solved here. */
  lemma SolvedCountIncludesOtherCase(statuses: map<StatusKey, StatusRow>, k: StatusKey)
    requires k in statuses && statuses[k].status == "Solved"
    ensures k in SolvedRowsIgnoringCase(statuses, k.0)
  {
    assert EqualsIgnoreCase("Solved", SOLVED) by {
      assert forall i :: 0 <= i < 6 ==> AsciiLower("Solved"[i]) == AsciiLower(SOLVED[i]);
    }
  }

  // ----- user/solved-problems ------------------------------------------------

  /** The keys of a user's rows whose status is exactly `"SOLVED"`. */
  function SolvedRows(statuses: map<StatusKey, StatusRow>, userId: string): (rows: set<StatusKey>)
    ensures forall k :: k in rows <==> k in statuses && k.0 == userId && statuses[k].status == SOLVED
  {
    set k | k in statuses && k.0 == userId && statuses[k].status == SOLVED
  }

  /** The problem ids of those rows. */
  function SolvedIds(statuses: map<StatusKey, StatusRow>, userId: string): (ids: set<string>)
    ensures forall p :: p in ids <==> (userId, p) in statuses && statuses[(userId, p)].status == SOLVED
  {
    set k | k in SolvedRows(statuses, userId) :: k.1
  }

  /** GET /api/user/solved-problems: the ids of the problems the session's
      user has solved. `sessionUser` is `None` when there is no session or it
      has no user. */
  function SolvedProblemIds(t: Tables, sessionUser: Option<SessionUser>, storeFails: bool): (r: Reply<set<string>>)
    ensures r.Code() == 401 <==> sessionUser.None?
    ensures r.Code() == 400 <==> sessionUser.Some? && (sessionUser.value.id.None? || sessionUser.value.id.value == "")
    ensures r.Code() == 500 <==> sessionUser.Some? && sessionUser.value.id.Some? && sessionUser.value.id.value != "" && storeFails
    ensures r.Json? <==> sessionUser.Some? && sessionUser.value.id.Some? && sessionUser.value.id.value != "" && !storeFails
    ensures r.Json? ==>
      && sessionUser.Some? && sessionUser.value.id.Some?
      && var u := sessionUser.value.id.value;
      && r.code == 200
      && (forall p :: p in r.body <==> (u, p) in t.statuses && t.statuses[(u, p)].status == SOLVED)
      // one id per solved row: the list has no duplicates
      && |r.body| == |SolvedRows(t.statuses, u)|
  {
    if sessionUser.None? then Error(401, "Unauthorized")
    else if sessionUser.value.id.None? || sessionUser.value.id.value == "" then Error(400, "User ID not found")
    else if storeFails then Error(500, "Failed to fetch solved problems")
    else
      var u := sessionUser.value.id.value;
      SecondComponentsCard(SolvedRows(t.statuses, u), u);
      Json(200, SolvedIds(t.statuses, u))
  }

  /** Every row the solved-problems list reports is counted by the solved
      count, so the list is never longer than the count. */
  lemma SolvedListWithinCount(t: Tables, userId: string, name: Option<string>, email: Option<string>)
    requires userId != ""
    ensures SolvedRows(t.statuses, userId) <= SolvedRowsIgnoringCase(t.statuses, userId)
    ensures |SolvedProblemIds(t, Some(SessionUser(Some(userId), name, email)), false).body|
         <= SolvedCount(t, Some(userId), false).body
  {
    assert EqualsIgnoreCase(SOLVED, SOLVED);
    SubsetCard(SolvedRows(t.statuses, userId), SolvedRowsIgnoringCase(t.statuses, userId));
  }

  /** Keys sharing their first component are told apart by their second, so
      there are as many second components as keys. */
  lemma {:induction false} SecondComponentsCard(keys: set<StatusKey>, u: string)
    requires forall k :: k in keys ==> k.0 == u
    ensures |set k | k in keys :: k.1| == |keys|
  {
    if keys != {} {
      var x :| x in keys;
      var rest := keys - {x};
      SecondComponentsCard(rest, u);
      var ids := set k | k in keys :: k.1;
      var restIds := set k | k in rest :: k.1;
      assert forall y :: y in rest ==> y.1 != x.1;
      assert ids == restIds + {x.1};
    }
  }

  // ----- userProblemStatus ---------------------------------------------------

  /** The problems whose ids are not in `solved`, in their original order. */
  function Unsolved(problems: seq<Problem>, solved: set<string>): (r: seq<Problem>)
    ensures forall p :: p in r <==> p in problems && p.id !in solved
    ensures |r| <= |problems|
  {
    if problems == [] then []
    else (if problems[0].id in solved then [] else [problems[0]]) + Unsolved(problems[1..], solved)
  }

  /** Filtering distributes over concatenation, so it keeps the order. */
  lemma {:induction false} UnsolvedAppend(a: seq<Problem>, b: seq<Problem>, solved: set<string>)
    ensures Unsolved(a + b, solved) == Unsolved(a, solved) + Unsolved(b, solved)
  {
    if a != [] {
      assert (a + b)[0] == a[0];
      assert (a + b)[1..] == a[1..] + b;
      UnsolvedAppend(a[1..], b, solved);
    } else {
      assert a + b == b;
    }
  }

  datatype StatusPartition = StatusPartition(solved: set<Problem>, unsolved: seq<Problem>)

  /** GET /api/userProblemStatus: the session's user's problems, split into
      solved (a row with status exactly `"SOLVED"`) and unsolved (all other
      problems, in the order of the problem table). */
  function UserProblemStatus(t: Tables, sessionEmail: Option<string>, storeFails: bool): (r: Reply<StatusPartition>)
    ensures r.Code() == 401 <==> sessionEmail.None? || sessionEmail.value == ""
    ensures r.Code() == 404 <==> sessionEmail.Some? && sessionEmail.value != "" && !storeFails
                                 && FindUserByEmail(t.users, sessionEmail.value).None?
    ensures r.Code() == 500 <==> sessionEmail.Some? && sessionEmail.value != "" && storeFails
    ensures r.Json? <==> sessionEmail.Some? && sessionEmail.value != "" && !storeFails
                         && FindUserByEmail(t.users, sessionEmail.value).Some?
    ensures r.Json? ==>
      && sessionEmail.Some? && FindUserByEmail(t.users, sessionEmail.value).Some?
      && var ids := SolvedIds(t.statuses, FindUserByEmail(t.users, sessionEmail.value).value.id);
      && r.code == 200
      && r.body.unsolved == Unsolved(t.problems, ids)
      && (forall p :: p in r.body.solved <==> p in t.problems && p.id in ids)
  {
    if sessionEmail.None? || sessionEmail.value == "" then Error(401, "Unauthorized")
    else if storeFails then Error(500, "Internal server error")
    else
      var user := FindUserByEmail(t.users, sessionEmail.value);
      if user.None? then Error(404, "User not found")
      else
        var ids := SolvedIds(t.statuses, user.value.id);
        var solved := set p | p in t.problems && p.id in ids;
        Json(200, StatusPartition(solved, Unsolved(t.problems, ids)))
  }

  /** Every problem is in exactly one of the two lists, and every solved row
      of the user has its problem in the solved list. */
  lemma UserProblemStatusPartitions(t: Tables, sessionEmail: Option<string>)
    requires Consistent(t)
    requires UserProblemStatus(t, sessionEmail, false).Json?
    ensures var r := UserProblemStatus(t, sessionEmail, false).body;
            var u := FindUserByEmail(t.users, sessionEmail.value).value.id;
            && (forall p :: p in t.problems ==> (p in r.solved <==> p !in r.unsolved))
            && (forall k :: k in t.statuses && k.0 == u && t.statuses[k].status == SOLVED ==>
                  exists p :: p in r.solved && p.id == k.1)
  {
    var u := FindUserByEmail(t.users, sessionEmail.value).value.id;
    forall k | k in t.statuses && k.0 == u && t.statuses[k].status == SOLVED
      ensures exists p :: p in t.problems && p.id == k.1 && k.1 in SolvedIds(t.statuses, u)
    {
      assert k.1 in ProblemIds(t.problems);
      ProblemIdsSpec(t.problems, k.1);
      var i :| 0 <= i < |t.problems| && t.problems[i].id == k.1;
      assert t.problems[i] in t.problems;
      assert k == (u, k.1);
    }
  }
}
