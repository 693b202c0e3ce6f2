/** The problem catalogue and the discussion board: GET and POST of
    /api/problems and of /api/discuss. */
module CatalogRoutes {
  import opened JsValues
  import opened Tables

  // ----- problems ----------------------------------------------------------

  /** GET /api/problems: every problem. */
  function GetProblems(t: Tables, storeFails: bool): (r: Reply<seq<Problem>>)
    ensures r.Error? <==> storeFails
    ensures r.Json? ==> r.code == 200 && r.body == t.problems
  {
    if storeFails then Error(500, "Internal Server Error") else Json(200, t.problems)
  }

  predicate ProblemFieldsMissing(body: Body)
  {
    Falsy(Get(body, "title")) || Falsy(Get(body, "difficulty")) || Falsy(Get(body, "platform")) || Falsy(Get(body, "url"))
  }

  /** The create call succeeds: the store is up, the four required columns
      are text, and the id the store assigns is new. */
  predicate ProblemCreates(t: Tables, body: Body, newId: string, storeFails: bool)
  {
    && !storeFails
    && IsString(Get(body, "title")) && IsString(Get(body, "difficulty"))
    && IsString(Get(body, "platform")) && IsString(Get(body, "url"))
    && newId !in ProblemIds(t.problems)
  }

  /** The problem the create call stores: the fields as the request carries
      them, test cases read from the key `testCases`. */
  function NewProblem(body: Body, newId: string): Problem
  {
    Problem(newId, StrField(body, "title"), StrField(body, "difficulty"), StrField(body, "platform"),
            StrField(body, "url"), Get(body, "description"), Get(body, "tags"), Get(body, "testCases"))
  }

  /** POST /api/problems: title, difficulty, platform and url are required
      (description and tags are not); the new problem is appended with a
      `submissions` counter of zero and returned with 201. `newId` is the id
      the store would assign. */
  function PostProblem(t: Tables, body: Body, newId: string, storeFails: bool): (out: (Tables, Reply<Problem>))
    ensures out.1.Code() == 400 <==> ProblemFieldsMissing(body)
    ensures out.1.Code() in {201, 400, 500}
    ensures out.1.Code() == 500 <==> !ProblemFieldsMissing(body) && !ProblemCreates(t, body, newId, storeFails)
    ensures out.1.Code() != 201 ==> out.0 == t
    ensures out.1.Code() == 201 ==>
      && out.1.Json?
      && var p := out.1.body;
      && p.id == newId
      && Get(body, "title") == JStr(p.title) && Get(body, "difficulty") == JStr(p.difficulty)
      && Get(body, "platform") == JStr(p.platform) && Get(body, "url") == JStr(p.url)
      && p.description == Get(body, "description") && p.tags == Get(body, "tags")
      && p.testCases == Get(body, "testCases")
      // exactly one problem is added after the existing ones, which are kept
      && out.0.problems == t.problems + [p]
      && out.0.submissions == t.submissions[newId := 0]
      && out.0.statuses == t.statuses && out.0.users == t.users && out.0.messages == t.messages
  {
    if ProblemFieldsMissing(body) then (t, Error(400, "Missing required fields"))
    else if !ProblemCreates(t, body, newId, storeFails) then (t, Error(500, "Internal Server Error"))
    else
      var p := NewProblem(body, newId);
      (t.(problems := t.problems + [p], submissions := t.submissions[newId := 0]), Json(201, p))
  }

  /** A body that spells the key `testcases`, as the admin form does, stores
      no test cases. */
  lemma TestCasesReadFromCamelCaseKey(t: Tables, body: Body, newId: string)
    requires "testCases" !in body
    requires PostProblem(t, body, newId, false).1.Json?
    ensures PostProblem(t, body, newId, false).1.body.testCases == JUndefined
  {
  }

  /** Posting a problem keeps the database's invariants. */
  lemma PostProblemKeepsConsistent(t: Tables, body: Body, newId: string, storeFails: bool)
    requires Consistent(t)
    ensures Consistent(PostProblem(t, body, newId, storeFails).0)
  {
    var (t1, r) := PostProblem(t, body, newId, storeFails);
    if r.Code() == 201 {
      ProblemIdsAppend(t.problems, r.body);
      forall i, j | 0 <= i < j < |t1.problems| ensures t1.problems[i].id != t1.problems[j].id {
        if j == |t.problems| {
          ProblemIdsSpec(t.problems, newId);
          assert t1.problems[i] == t.problems[i];
        }
      }
    }
  }

  // ----- discuss -----------------------------------------------------------

  /** Messages in non-decreasing `createdAt` order. */
  predicate SortedByTime(ms: seq<Message>)
  {
    forall i, j :: 0 <= i < j < |ms| ==> ms[i].createdAt <= ms[j].createdAt
  }

  /** Places `m` after every message of `sorted` that is not later than it. */
  function InsertByTime(sorted: seq<Message>, m: Message): (r: seq<Message>)
    ensures multiset(r) == multiset(sorted) + multiset{m}
  {
    if sorted == [] || sorted[|sorted| - 1].createdAt <= m.createdAt then sorted + [m]
    else
      var init, last := sorted[..|sorted| - 1], sorted[|sorted| - 1];
      assert sorted == init + [last];
      InsertByTime(init, m) + [last]
  }

  /** Inserting into a time-ordered list keeps it time-ordered. */
  lemma {:induction false} InsertKeepsSorted(sorted: seq<Message>, m: Message)
    requires SortedByTime(sorted)
    ensures SortedByTime(InsertByTime(sorted, m))
  {
    if !(sorted == [] || sorted[|sorted| - 1].createdAt <= m.createdAt) {
      var init, last := sorted[..|sorted| - 1], sorted[|sorted| - 1];
      assert sorted == init + [last];
      SortedInit(sorted);
      InsertKeepsSorted(init, m);
      var s := InsertByTime(init, m);
      assert InsertByTime(sorted, m) == s + [last];
      forall x | x in init ensures x.createdAt <= last.createdAt {
        var k :| 0 <= k < |init| && init[k] == x;
        assert sorted[k] == x;
      }
      InsertBounded(init, m, last.createdAt);
      AppendLatestKeepsSorted(s, last);
    }
  }

  /** Inserting keeps every message at or before a bound that all of them,
      and the inserted one, respect. */
  lemma InsertBounded(ms: seq<Message>, m: Message, bound: Time)
    requires forall x :: x in ms ==> x.createdAt <= bound
    requires m.createdAt <= bound
    ensures forall x :: x in InsertByTime(ms, m) ==> x.createdAt <= bound
  {
    forall x | x in InsertByTime(ms, m) ensures x.createdAt <= bound {
      assert x in multiset(ms) + multiset{m};
    }
  }

  /** Appending a message not earlier than any in a time-ordered list keeps
      it time-ordered. */
  lemma AppendLatestKeepsSorted(ms: seq<Message>, m: Message)
    requires SortedByTime(ms)
    requires forall x :: x in ms ==> x.createdAt <= m.createdAt
    ensures SortedByTime(ms + [m])
  {
    var r := ms + [m];
    forall i, j | 0 <= i < j < |r| ensures r[i].createdAt <= r[j].createdAt {
      assert r[i] == ms[i];
      if j < |ms| {
        assert r[j] == ms[j];
      }
    }
  }

  /** The message list ordered by `createdAt`, earliest first; messages with
      equal times keep the order in which they were stored. */
  function SortByTime(ms: seq<Message>): (r: seq<Message>)
    ensures SortedByTime(r)
    ensures multiset(r) == multiset(ms)
  {
    if ms == [] then []
    else
      var init := ms[..|ms| - 1];
      assert ms == init + [ms[|ms| - 1]];
      var sortedInit := SortByTime(init);
      InsertKeepsSorted(sortedInit, ms[|ms| - 1]);
      InsertByTime(sortedInit, ms[|ms| - 1])
  }

  /** Dropping the last message of a time-ordered list keeps it time-ordered. */
  lemma SortedInit(ms: seq<Message>)
    requires SortedByTime(ms) && ms != []
    ensures SortedByTime(ms[..|ms| - 1])
  {
    var init := ms[..|ms| - 1];
    forall i, j | 0 <= i < j < |init| ensures init[i].createdAt <= init[j].createdAt {
      assert init[i] == ms[i] && init[j] == ms[j];
    }
  }

  /** The last message of a time-ordered list is inserted at the end. */
  lemma InsertLastOfSorted(ms: seq<Message>)
    requires SortedByTime(ms) && ms != []
    ensures InsertByTime(ms[..|ms| - 1], ms[|ms| - 1]) == ms
  {
    var init, last := ms[..|ms| - 1], ms[|ms| - 1];
    if init != [] {
      assert init[|init| - 1] == ms[|ms| - 2];
    }
    assert ms == init + [last];
  }

  /** A list already in time order is returned as it is. */
  lemma {:induction false} SortSortedIsIdentity(ms: seq<Message>)
    requires SortedByTime(ms)
    ensures SortByTime(ms) == ms
  {
    if ms != [] {
      SortedInit(ms);
      SortSortedIsIdentity(ms[..|ms| - 1]);
      InsertLastOfSorted(ms);
    }
  }

  /** A message whose time is not before any stored message's is listed
      last, after the others in their listed order. */
  lemma AppendLatestSortsLast(ms: seq<Message>, m: Message)
    requires forall x :: x in ms ==> x.createdAt <= m.createdAt
    ensures SortByTime(ms + [m]) == SortByTime(ms) + [m]
  {
    var all := ms + [m];
    assert all[..|all| - 1] == ms;
    var s := SortByTime(ms);
    if s != [] {
      assert s[|s| - 1] in multiset(ms);
    }
  }

  /** GET /api/discuss: every message, ordered by `createdAt` ascending. */
  function GetMessages(t: Tables, storeFails: bool): (r: Reply<seq<Message>>)
    ensures r.Error? <==> storeFails
    ensures r.Json? ==> r.code == 200 && SortedByTime(r.body) && multiset(r.body) == multiset(t.messages)
  {
    if storeFails then Error(500, "Error fetching messages") else Json(200, SortByTime(t.messages))
  }

  /** POST /api/discuss: `username` and `text` are required; the message is
      appended with the current time and returned with 201. `newId` is the
      id the store would assign. */
  function PostMessage(t: Tables, body: Body, newId: string, now: Time, storeFails: bool): (out: (Tables, Reply<Message>))
    ensures out.1.Code() == 400 <==> Falsy(Get(body, "username")) || Falsy(Get(body, "text"))
    ensures out.1.Code() in {201, 400, 500}
    ensures out.1.Code() == 500 <==>
      && !(Falsy(Get(body, "username")) || Falsy(Get(body, "text")))
      && (storeFails || !IsString(Get(body, "username")) || !IsString(Get(body, "text")) || newId in MessageIds(t.messages))
    ensures out.1.Code() != 201 ==> out.0 == t
    ensures out.1.Code() == 201 ==>
      && out.1.Json?
      && var m := out.1.body;
      && Get(body, "username") == JStr(m.username) && Get(body, "text") == JStr(m.text)
      && m.createdAt == now && m.id == newId
      // one message appended; the earlier ones are kept
      && out.0.messages == t.messages + [m]
      && out.0.statuses == t.statuses && out.0.submissions == t.submissions
      && out.0.problems == t.problems && out.0.users == t.users
  {
    var username, text := Get(body, "username"), Get(body, "text");
    if Falsy(username) || Falsy(text) then (t, Error(400, "Missing fields"))
    else if storeFails || !username.JStr? || !text.JStr? || newId in MessageIds(t.messages) then
      (t, Error(500, "Error posting message"))
    else
      var m := Message(newId, username.s, text.s, now);
      (t.(messages := t.messages + [m]), Json(201, m))
  }

  /** With a clock that does not run backwards, a posted message is listed
      last by the next GET. */
  lemma PostedMessageListedLast(t: Tables, body: Body, newId: string, now: Time)
    requires forall x :: x in t.messages ==> x.createdAt <= now
    requires PostMessage(t, body, newId, now, false).1.Json?
    ensures var (t1, r) := PostMessage(t, body, newId, now, false);
            GetMessages(t1, false) == Json(200, SortByTime(t.messages) + [r.body])
  {
    var (t1, r) := PostMessage(t, body, newId, now, false);
    AppendLatestSortsLast(t.messages, r.body);
  }

  /** Posting a message keeps the database's invariants. */
  lemma PostMessageKeepsConsistent(t: Tables, body: Body, newId: string, now: Time, storeFails: bool)
    requires Consistent(t)
    ensures Consistent(PostMessage(t, body, newId, now, storeFails).0)
  {
    var (t1, r) := PostMessage(t, body, newId, now, storeFails);
    if r.Code() == 201 {
      forall i, j | 0 <= i < j < |t1.messages| ensures t1.messages[i].id != t1.messages[j].id {
        if j == |t.messages| {
          assert t1.messages[i] in t.messages;
        }
      }
    }
  }
}
