# CodeQuest in Dafny

CodeQuest is a Next.js site where users track the coding problems they have
solved. This project models its server routes, its next-auth callbacks and
its browser-side stores in Dafny, and proves the routes' contracts and the
properties that connect them.

At the centre is the per-user problem-status table, keyed by the pair
(userId, problemId). Each row holds a `status` string and an optional
`solvedAt`. Next to it is each problem's `submissions` counter.

- `/api/submit` upserts a row. It raises the counter only when the status
  moves into `"SOLVED"`, either from no row or from a row that was not
  `"SOLVED"`.
- `/api/delete-submission` removes a row.
- Four read-only queries read the same table:
  - `check-submission` looks for the exact spelling `"Solved"`.
  - `solved` counts rows matching `"SOLVED"` in any case.
  - `user/solved-problems` lists the solved problem ids.
  - `userProblemStatus` splits all problems into solved and unsolved.

Around that table sit:

- the user routes: sign-up, sign-in, the check by email, and the admin's
  insert;
- the problem catalogue and the discussion board;
- the next-auth callbacks `authorize`, `jwt`, `session` and `signIn`;
- the five zustand stores;
- the admin page's "add problem" handler.

Layout:

- `js_values.dfy` holds JSON values and JavaScript truthiness. It also models
  reading a missing key as `undefined` and the shape of an HTTP reply.
- `tables.dfy` holds the database records and the invariants the database
  keeps (`Tables.Consistent`):
  - ids are unique;
  - emails are unique;
  - every problem, and nothing else, has a counter;
  - every status row refers to an existing user and problem;
  - `solvedAt` is set exactly when the status is `"SOLVED"`.
- `submission_routes.dfy`, `catalog_routes.dfy` and `account_routes.dfy`
  state each route as a function from the tables before to the tables after,
  together with the reply. A read-only route is a function from the tables
  to the reply alone. The properties of the routes are proved about these
  functions.
- `persistence.dfy` holds the database as a class. Its fields are the status
  map, the counter map and the sequences of problems, users and messages.
  Each writing route is a method on it that performs the route's steps in
  place. Each method is proved to end in exactly the state and reply of the
  route's function, and to keep `Valid()`.
- `auth_options.dfy` holds the next-auth callbacks. The token and the
  session object are classes whose fields `jwt` and `session` assign.
- `client_stores.dfy` holds the zustand stores as classes whose actions
  replace their fields.
- `problems_admin.dfy` holds the admin form's state and `handleAddProblem`.
- `text.dfy` holds `split`, `trim`, the email prefix and the ASCII
  case-insensitive comparison.

Some things the routes get from outside are parameters of the model:

- the clock (`now`);
- the id the store assigns (`newId`);
- a store failure (`storeFails`);
- the password hash, the hash comparison and the token signer;
- `decodeURIComponent` and `JSON.parse`;
- the outcome of each `fetch` (`FetchOutcome`).

## Model

| member | source | states |
|---|---|---|
| SubmissionRoutes.Submit | app/api/submit/route.ts:4-57 | A falsy `userId`, `problemId` or `status` gives 400 "Missing required fields.", and otherwise non-string ids give 400 "Invalid data type for userId or problemId."; 400 happens exactly in these cases. Past validation, 500 happens exactly when the transaction cannot commit (the store fails, the status is not text, or the user or problem is missing), and then nothing changes; otherwise the reply is 200. On 200 the pair's row holds the submitted status. Its `solvedAt` is the request's current time when that status is exactly `"SOLVED"` (so a repeated solve moves the stamp), and absent otherwise. The problem's counter rises by one iff the status is `"SOLVED"` and the prior row was absent or not `"SOLVED"`; otherwise it is unchanged. Other rows, other counters and the other tables are unchanged. |
| SubmissionRoutes.SubmitIdempotent | app/api/submit/route.ts:19-50 | Repeating the same submission leaves the tables and the reply as one submission does. |
| SubmissionRoutes.SubmitSolvedTwiceCountsOnce | app/api/submit/route.ts:23-49 | Two `"SOLVED"` submissions for a pair without a row add exactly one row and raise the counter by exactly one. |
| SubmissionRoutes.SubmitUnsolvedThenSolvedCountsOnce | app/api/submit/route.ts:23-49 | A non-solved submission leaves the counters alone and stores no `solvedAt`. A following `"SOLVED"` submission raises the counter by one. |
| SubmissionRoutes.OtherSpellingNeverCounts | app/api/submit/route.ts:42 | A status other than exactly `"SOLVED"` (such as `"Solved"`) never changes any counter. |
| SubmissionRoutes.SubmitKeepsConsistent | app/api/submit/route.ts:25-50 | Submit keeps the database invariants: rows refer to existing users and problems, and `solvedAt` is set iff the status is `"SOLVED"`. |
| SubmissionRoutes.DeleteSubmission | app/api/delete-submission/route.ts:6-26 | 400 iff `userId` or `problemId` is falsy, and then nothing changes. 200 exactly when both are strings and the store is up, whether or not the pair had a row. On 200 there is no row for the pair, and every other row is kept unchanged. The counters and the other tables are untouched. |
| SubmissionRoutes.DeleteIdempotent | app/api/delete-submission/route.ts:14-21 | Deleting twice gives the same tables and reply as deleting once. |
| SubmissionRoutes.DeleteKeepsConsistent | app/api/delete-submission/route.ts:14-19 | Deleting keeps the database invariants. |
| SubmissionRoutes.DeleteThenSubmitSolvedAlwaysCounts | app/api/submit/route.ts:23-49 | A delete of the pair followed by a submission spelled exactly `"SOLVED"` always raises the counter by one, even for a pair already solved. |
| SubmissionRoutes.ClientSolveFlowNeverCounts | app/api/submit/route.ts:42 | The problem page's solve flow (delete the pair's row, then submit `"Solved"`) stores the row with no `solvedAt` and never changes any counter. |
| SubmissionRoutes.CheckSubmission | app/api/check-submission/route.ts:4-29 | 400 iff either id is falsy. Otherwise 200 exactly when both ids are strings and the store is up, and 500 in the other cases. `submitted` is true iff the pair's row has status exactly `"Solved"`. |
| SubmissionRoutes.CheckMissesSubmittedSolved | app/api/check-submission/route.ts:16 | A pair just solved through the submit route (status `"SOLVED"`) is reported as `submitted: false`. |
| SubmissionRoutes.SolvedCount | app/api/solved/route.ts:4-25 | 400 iff `userId` is missing or empty; then 500 iff the store fails, and 200 otherwise. The count is the number of the user's rows whose status equals `"SOLVED"` ignoring case, and it never exceeds the number of the user's rows. |
| SubmissionRoutes.SolvedCountIncludesOtherCase | app/api/solved/route.ts:16 | A row spelled `"Solved"` is counted as solved. |
| SubmissionRoutes.SolvedListWithinCount | app/api/solved/route.ts:13-18 | Every row the solved-problems list reports is counted by the solved count, so the list is never longer than the count. |
| SubmissionRoutes.SolvedIds | app/api/user/solved-problems/route.ts:25 | A problem id is listed iff the user's row for it has status exactly `"SOLVED"`. |
| SubmissionRoutes.SolvedProblemIds | app/api/user/solved-problems/route.ts:7-30 | 401 iff there is no session user. 400 iff the session user has no id. Then 500 iff the store fails, and 200 otherwise. On 200 the ids are exactly those of the user's `"SOLVED"` rows, one per row, so there are no duplicates. |
| SubmissionRoutes.SecondComponentsCard | app/api/user/solved-problems/route.ts:20-25 | Rows of one user have distinct problem ids, so the id list is as long as the row list. |
| SubmissionRoutes.Unsolved | app/api/userProblemStatus/route.ts:31-33 | A problem is kept iff its id is not solved. The result is no longer than the list. |
| SubmissionRoutes.UnsolvedAppend | app/api/userProblemStatus/route.ts:31-33 | Filtering distributes over concatenation, so the unsolved problems keep the problem table's order. |
| SubmissionRoutes.UserProblemStatus | app/api/userProblemStatus/route.ts:7-46 | 401 iff there is no session email. Then 500 iff the store fails, 404 iff no user has that email, and 200 otherwise. On 200, `solved` holds exactly the problems whose id has a `"SOLVED"` row of the user. `unsolved` is the problem table filtered to the others, in order. |
| SubmissionRoutes.UserProblemStatusPartitions | app/api/userProblemStatus/route.ts:28-36 | Every problem is in exactly one of `solved` and `unsolved`. Every `"SOLVED"` row of the user has its problem in `solved`. |
| Tables.FindUserByEmail | app/api/signup/route.ts:13-15 | A user found by email is in the table and has that email. No user is found only when no user has the email. |
| Tables.FoundUserIsUnique | lib/authoptions.ts:23-25 | Emails are unique, so the user found by email is the only user with it. |
| CatalogRoutes.GetProblems | app/api/problems/route.ts:4-12 | 500 iff the store fails; otherwise 200 with every problem in table order. |
| CatalogRoutes.PostProblem | app/api/problems/route.ts:14-31 | 400 iff `title`, `difficulty`, `platform` or `url` is falsy. `description` and `tags` are not required. Past that check, 500 iff the create fails (store down, a required field not text, or the id taken), and then nothing changes; otherwise 201. On 201 exactly one problem is appended after the existing ones and returned. It carries the given fields, test cases read from the key `testCases`, and a counter of zero. |
| CatalogRoutes.TestCasesReadFromCamelCaseKey | app/api/problems/route.ts:16 | A body without the key `testCases` stores the test cases as `undefined`. |
| CatalogRoutes.PostProblemKeepsConsistent | app/api/problems/route.ts:22-24 | Posting a problem keeps problem ids unique and keeps exactly one counter per problem. |
| CatalogRoutes.InsertByTime | app/api/discuss/route.ts:7-9 | Inserting a message adds exactly that message to the list (as a multiset). |
| CatalogRoutes.InsertKeepsSorted | app/api/discuss/route.ts:7-9 | Inserting into a list ordered by `createdAt` keeps it ordered. |
| CatalogRoutes.SortByTime | app/api/discuss/route.ts:7-9 | The result is ordered by `createdAt` ascending and is a permutation of the messages. |
| CatalogRoutes.SortSortedIsIdentity | app/api/discuss/route.ts:7-9 | An already ordered list is returned unchanged. |
| CatalogRoutes.AppendLatestSortsLast | app/api/discuss/route.ts:7-9 | A message no earlier than every other is listed last, after the others in their sorted order. |
| CatalogRoutes.GetMessages | app/api/discuss/route.ts:5-15 | 500 iff the store fails; otherwise 200 with every message, ordered by `createdAt` ascending. |
| CatalogRoutes.PostMessage | app/api/discuss/route.ts:18-35 | 400 iff `username` or `text` is falsy. Past that check, 500 iff the create fails (store down, a field not text, or the id taken), and then nothing changes; otherwise 201. On 201 exactly one message is appended with the given `username` and `text` and the current time. The earlier messages and the other tables are kept. |
| CatalogRoutes.PostedMessageListedLast | app/api/discuss/route.ts:26-30 | If the clock does not run backwards, the next GET lists a posted message last. |
| CatalogRoutes.PostMessageKeepsConsistent | app/api/discuss/route.ts:26-28 | Posting a message keeps message ids unique. |
| AccountRoutes.Signup | app/api/signup/route.ts:7-38 | 400 iff the email is already registered, and then nothing changes. 201 exactly for a new string email with a string password, a text or absent username and a free id. On 201 exactly one user is appended with the given `username` and `email`. Its stored password is the hash of the supplied password at cost 10. Existing users and the other tables are unchanged. |
| AccountRoutes.SignupKeepsConsistent | app/api/signup/route.ts:13-31 | Starting from unique emails and ids, sign-up keeps them unique. |
| AccountRoutes.AppendUserKeepsConsistent | app/api/signup/route.ts:25-31 | Appending a user with a new id and a new email keeps the invariants. |
| AccountRoutes.Signin | app/api/signin/route.ts:7-32 | 404 iff no user has the email. 500 iff the store fails, the email is not text, or a user is found and the password is not text. Once the user is found, the comparison against the stored hash (a missing hash compared as `""`) decides: 401 iff it fails, and 200 with the token signed over the user's id and email iff it succeeds. The tables are not written. |
| AccountRoutes.SigninNotFoundBeforeCompare | app/api/signin/route.ts:14-19 | For an unknown email the reply is 404 whatever the password comparison would say. |
| AccountRoutes.CheckUser | app/api/check-user/route.ts:5-28 | 400 iff the `email` parameter is missing or empty. 500 iff decoding it throws or the store fails. Otherwise the lookup uses the URI-decoded email: it answers 404 `exists: false` iff no user has that email, and 200 exactly when it answers `exists: true` with the matching user's id and email only. |
| AccountRoutes.AddUser | app/api/admin/addUser/route.ts:4-22 | Only a failed insert gives 500, and it changes nothing. On 201 exactly one user is appended with `username`, `email`, `image` and `password` as given; the password is not hashed. Existing users are kept. |
| AccountRoutes.AddUserKeepsConsistent | app/api/admin/addUser/route.ts:8-15 | The admin insert keeps ids and emails unique. |
| AuthOptions.DisplayName | lib/authoptions.ts:33 | The name if it is non-empty. Otherwise the email's text before its first `@`, or all of the email when it has no `@`. |
| AuthOptions.Authorize | lib/authoptions.ts:18-36 | Rejects with "Missing email or password" iff either field is missing or empty. Past that, a store failure rejects, "Invalid email or password" iff no user has the email, and the request is authorized iff a user has it. On success returns that user's id and email, with the display name as the name. |
| AuthOptions.AuthorizeIgnoresPassword | lib/authoptions.ts:18-35 | Any two non-empty passwords give the same answer, and for a registered non-empty email that answer is Authorized. |
| AuthOptions.Jwt | lib/authoptions.ts:50-57 | With a user, the token gets the user's id, the display name with the email-prefix fallback, and the email. Without one, the token is unchanged. The same token is returned. |
| AuthOptions.SessionCallback | lib/authoptions.ts:41-48 | With a token, the session's user gets the token's id, name and email. Without one, the session is unchanged. |
| AuthOptions.SignInSession | lib/authoptions.ts:41-57 | After a credentials sign-in, `jwt` and `session` leave the session with the authorized user's id, name and email. |
| AuthOptions.SignIn | lib/authoptions.ts:58-80 | Returns false iff the user has no email, and true otherwise, even when the store fails. It adds a user exactly when the email is given, the store is up, no user has the email and the new id is free. A store failure in the lookup or the insert is caught and changes nothing. The added user has that email and the username `name ?? ""`. |
| AuthOptions.SignInKeepsConsistent | lib/authoptions.ts:63-75 | `signIn` keeps emails and ids unique. |
| AuthOptions.SignInTwiceCreatesOnce | lib/authoptions.ts:63-75 | Signing in twice with the same email creates at most one user. |
| ClientStores.ProblemsStore.constructor | store/useProblemsStore.ts:22 | The problem list starts empty. |
| ClientStores.ProblemsStore.FetchProblems | store/useProblemsStore.ts:24-32 | The list becomes the response body when it is an array, and `[]` otherwise. A throwing request leaves the list as it was. |
| ClientStores.ProblemsStore.AddProblem | store/useProblemsStore.ts:34-46 | The response body is appended after the existing problems. A throwing request leaves the list as it was. |
| ClientStores.AddProblemKeepsErrorBody | store/useProblemsStore.ts:35-42 | An error answer is appended as if it were a problem. |
| ClientStores.FilterOutId | store/useAdminStore.ts:46 | The filter throws iff an element is `null` or `undefined`. Otherwise it keeps exactly the elements whose `id` is not the given one. |
| ClientStores.FilterOutIdAppend | store/useAdminStore.ts:46 | Filtering a concatenation concatenates the filtered parts, so the kept users stay in order. |
| ClientStores.FilterOutAbsentId | store/useAdminStore.ts:46 | With no element carrying the id, the filter changes nothing. |
| ClientStores.FilterOutIdIdempotent | store/useAdminStore.ts:46 | Filtering twice is filtering once. |
| ClientStores.AdminStore.constructor | store/useAdminStore.ts:12 | The user list starts empty. |
| ClientStores.AdminStore.FetchUsers | store/useAdminStore.ts:14-18 | The list becomes the response body as it is. |
| ClientStores.AdminStore.AddUser | store/useAdminStore.ts:20-34 | A non-ok answer leaves the list unchanged. An ok answer appends the returned user after the spread list. |
| ClientStores.AdminStore.DeleteUser | store/useAdminStore.ts:36-47 | A non-ok answer leaves the list unchanged. An ok answer drops every user with the id and keeps the rest in order. |
| ClientStores.DeleteUserTwice | store/useAdminStore.ts:35-46 | Deleting twice, with the same server answer each time, leaves the list as deleting once in every case. An ok delete of an array list filters once. A failed or throwing request, a list that is not an array, and a list holding `null` are kept by both deletes. |
| ClientStores.MergeEmpty | store/useAuthStore.ts:13 | An empty patch changes nothing. |
| ClientStores.MergeIdempotent | store/useAuthStore.ts:13 | Applying a patch twice is applying it once. |
| ClientStores.MergeCompose | store/useAuthStore.ts:13 | Two `setForm` calls in a row equal one call with the second patch laid over the first. |
| ClientStores.AuthStore.constructor | store/useAuthStore.ts:11-12 | The form starts as three empty strings and `loading` as false. |
| ClientStores.AuthStore.SetForm | store/useAuthStore.ts:13 | The form becomes the merge of the old form and the patch. `loading` is unchanged. |
| ClientStores.AuthStore.SetLoading | store/useAuthStore.ts:14 | Sets `loading` and leaves the form unchanged. |
| ClientStores.AuthSigninStore.constructor | store/useAuthSigninStore.ts:13-15 | Starts with no user, `loading` false and an empty error. |
| ClientStores.AuthSigninStore.SetUser | store/useAuthSigninStore.ts:16 | Changes only `user`. |
| ClientStores.AuthSigninStore.SetLoading | store/useAuthSigninStore.ts:17 | Changes only `loading`. |
| ClientStores.AuthSigninStore.SetError | store/useAuthSigninStore.ts:18 | Changes only `error`. |
| ClientStores.NavbarStore.constructor | store/useNavbarStore.ts:10 | The menu starts closed. |
| ClientStores.NavbarStore.ToggleMenu | store/useNavbarStore.ts:11 | Negates `menuOpen`. |
| ClientStores.NavbarStore.CloseMenu | store/useNavbarStore.ts:12 | The menu is closed afterwards, from either state. |
| ClientStores.ToggleTwice | store/useNavbarStore.ts:11 | Two toggles restore the menu's state. |
| ClientStores.CloseTwice | store/useNavbarStore.ts:12 | Closing twice leaves the menu closed. |
| ProblemsAdmin.Tags | app/api/problems-admin/page.tsx:70 | There is one tag more than the text has commas. |
| ProblemsAdmin.TagsAreTrimmedPieces | app/api/problems-admin/page.tsx:70 | Each tag is the comma-separated piece at its position with only leading and trailing whitespace removed. No tag contains a comma. |
| ProblemsAdmin.TagsOfEmptyText | app/api/problems-admin/page.tsx:70 | Empty tag text gives the one empty tag. |
| ProblemsAdmin.PayloadRouteFields | app/api/problems-admin/page.tsx:68-72 | The posted object carries the form's title, difficulty, platform and url as text. |
| ProblemsAdmin.PayloadTestCases | app/api/problems-admin/page.tsx:68-72 | The posted object carries the parsed test cases under `testcases` and has no key `testCases`. Its tag list has one tag more than the text has commas. |
| ProblemsAdmin.Decide | app/api/problems-admin/page.tsx:51-72 | Refuses iff title, difficulty, platform, url or description is empty (tags are not checked). Then refuses iff the test-case text does not parse to a JSON array. Otherwise posts the form's payload. |
| ProblemsAdmin.UneditedTestCasesRejected | app/api/problems-admin/page.tsx:27 | A form whose test-case text was never edited is refused, because parsing `""` throws. |
| ProblemsAdmin.AnyDifficultyAccepted | app/api/problems-admin/page.tsx:52 | Any non-empty difficulty is accepted. |
| ProblemsAdmin.PayloadLosesTestCases | app/api/problems-admin/page.tsx:71 | The form's payload passes the route's required-field check. The route then stores no test cases for it, because it reads `testCases`. |
| ProblemsAdmin.ProblemForm.constructor | app/api/problems-admin/page.tsx:12-32 | The fields start empty (test cases `""` too). `isAdding` starts false and `isLoading` true. |
| ProblemsAdmin.ProblemForm.Edit | app/api/problems-admin/page.tsx:91 | The fields become those typed. The flags are unchanged. |
| ProblemsAdmin.ProblemForm.Load | app/api/problems-admin/page.tsx:42-49 | Fetches the problem list into the store and ends with `isLoading` false. The fields are unchanged. |
| ProblemsAdmin.ProblemForm.HandleAddProblem | app/api/problems-admin/page.tsx:51-76 | The decision is `Decide` on the fields. A refusal changes nothing. An add appends the answer to the store's list, resets every field to `""` except test cases, which become `"[]"`, and ends with `isAdding` false. |
| ProblemsAdmin.AddTwice | app/api/problems-admin/page.tsx:74 | After an add the form is reset, with test-case text `"[]"`. A second add that refills only the other fields, leaving that text as the reset made it, is accepted with an empty test-case array. |
| Text.Split | app/api/problems-admin/page.tsx:70 | There is one piece more than there are separators. No piece contains the separator. The first piece is the text up to the first separator. |
| Text.JoinSplit | app/api/problems-admin/page.tsx:70 | Joining the pieces with the separator gives back the text. |
| Text.TrimDropsOnlyWhitespace | app/api/problems-admin/page.tsx:70 | `trim` removes only ECMAScript whitespace from both ends. The result neither starts nor ends with whitespace. |
| Text.TrimIdempotent | app/api/problems-admin/page.tsx:70 | Trimming twice is trimming once. |
| Text.EmailPrefix | lib/authoptions.ts:33 | `split("@")[0]`: the text before the first `@`, or all of it when there is none. |
| JsValues.NullableText | app/api/admin/addUser/route.ts:8-15 | `undefined` and `null` store NULL and a string stores itself. Any other value is rejected by the store. |
| Persistence.Database.Submit | app/api/submit/route.ts:4-57 | Reads the prior row, then upserts the row and increments the counter in place. It ends in exactly the state and reply of `SubmissionRoutes.Submit`, and keeps the invariants. |
| Persistence.Database.DeleteSubmission | app/api/delete-submission/route.ts:6-26 | Removes the pair's row in place, as `SubmissionRoutes.DeleteSubmission` states, and keeps the invariants. |
| Persistence.Database.PostProblem | app/api/problems/route.ts:14-31 | Appends the problem and starts its counter in place, as `CatalogRoutes.PostProblem` states, and keeps the invariants. |
| Persistence.Database.PostMessage | app/api/discuss/route.ts:18-35 | Appends the message in place, as `CatalogRoutes.PostMessage` states, and keeps the invariants. |
| Persistence.Database.Signup | app/api/signup/route.ts:7-38 | Looks the email up, then inserts the user in place, as `AccountRoutes.Signup` states, and keeps the invariants. |
| Persistence.Database.AddUser | app/api/admin/addUser/route.ts:4-22 | Inserts the user in place, as `AccountRoutes.AddUser` states, and keeps the invariants. |
| Persistence.Database.SignIn | lib/authoptions.ts:58-80 | Finds or creates the user in place, as `AuthOptions.SignIn` states, and keeps the invariants. |

## Left out

- The database schema is not part of this model. The invariants in
  `Tables.Consistent` are what the queries imply:
  - the (userId, problemId) pair and the email are unique keys;
  - status rows refer to existing users and problems;
  - the text columns the routes validate or look up by (ids, statuses,
    emails, usernames, passwords, images, problem titles, difficulties,
    platforms and urls, message usernames and texts) reject non-text
    values;
  - a new problem's counter starts at zero.
  An insert that would break these fails like any other store error. This
  is why a duplicate email at `admin/addUser` answers 500.
- SubmissionRoutes.Submit: the per-problem `submissions` counter is an
  unbounded natural number. The column's integer width is set by the
  database schema, which is not part of this model. So the model answers
  200 and adds one where a counter at its column's maximum would make the
  increment fail, roll the transaction back and answer 500.
- Store errors are one `storeFails` flag. Ids the store would assign are a
  `newId` parameter, and a colliding id is a store error.
- CatalogRoutes.PostProblem: `description`, `tags` and `testCases` are
  stored as whatever JSON value the request carried. The column types for
  them are not part of this model, so a non-text description or a tag list
  that is not a list of strings is not refused.
- Request bodies that are not JSON objects are not modelled. In the submit,
  delete-submission and signup routes, `req.json()` sits outside the `try`.
- JSON numbers are integers, so `NaN`, `-0` and fractions are not
  modelled, including their truthiness.
- JSON objects passed as Prisma filter values are not modelled. A
  non-string id in delete-submission or check-submission is treated as a
  store error.
- Text.EqualsIgnoreCase: folds only ASCII letters. The database's
  case-insensitive mode also folds other letters, which can only matter for
  statuses outside ASCII.
- Concurrency is not modelled. Requests run one at a time. The race between
  the submit route's read of the prior row and its transaction is not
  modelled.
- The database returns rows in no stated order. The solved problem ids and
  the solved problems are therefore sets. Messages with equal `createdAt`
  keep the order in which they were stored.
- Hashing, hash comparison, token signing, `decodeURIComponent`,
  `JSON.parse`, the clock and every `fetch` are parameters. Their own
  behaviour is not modelled.
- Not modelled: the Google provider, next-auth's own session handling, and
  the case of a session object without a `user` in the `session` callback.
- ClientStores.Merge: a patch that explicitly sets a key to `undefined`
  would store `undefined` in that field. A `FormPatch` field is either
  present with text or absent, so this case is not expressible.
- The route behind `fetchUsers` (`/api/admin/users`) and the route behind
  `deleteUser` are not part of this model. Only the stores' handling of
  their answers is modelled.
- Not modelled:
  - the admin page's `isAdmin` redirect and its alerts;
  - the rendering of every page;
  - logging (`console.log` and `console.error`);
  - the trivia component;
  - the metrics route;
  - `getUserSolved`;
  - the fixture in `app/api/problem.ts`.
