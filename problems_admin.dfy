/** The admin page that adds problems: its form state, the checks
    `handleAddProblem` makes before posting, the tag list it derives from the
    comma-separated text, and the reset after an add. `JSON.parse` is a
    parameter. */
module ProblemsAdmin {
  import opened JsValues
  import opened Text
  import opened Tables
  import CatalogRoutes
  import ClientStores

  /** `r` is `s` with its leading and trailing whitespace removed. */
  predicate TrimmedFrom(r: string, s: string)
  {
    var i := LeadingWhitespace(s);
    && i + |r| <= |s|
    && r == s[i..i + |r|]
    && AllWhitespace(s[..i])
    && AllWhitespace(s[i + |r|..])
    && (r == [] || (!IsJsWhitespace(r[0]) && !IsJsWhitespace(r[|r| - 1])))
  }

  /** `text.split(",").map(tag => tag.trim())`: one tag more than there are
      commas in the text. */
  function Tags(text: string): (r: seq<string>)
    ensures |r| == Count(text, ',') + 1
  {
    var pieces := Split(text, ',');
    seq(|pieces|, i requires 0 <= i < |pieces| => Trim(pieces[i]))
  }

  /** Each tag is the comma-separated piece of the text at its position, with
      the surrounding whitespace removed, so it holds no comma. */
  lemma TagsAreTrimmedPieces(text: string)
    ensures var r, pieces := Tags(text), Split(text, ',');
            forall i :: 0 <= i < |r| ==> ',' !in r[i] && TrimmedFrom(r[i], pieces[i])
  {
    var r, pieces := Tags(text), Split(text, ',');
    forall i | 0 <= i < |r| ensures ',' !in r[i] && TrimmedFrom(r[i], pieces[i]) {
      TrimDropsOnlyWhitespace(pieces[i]);
      var j := LeadingWhitespace(pieces[i]);
      assert r[i] == pieces[i][j..j + |r[i]|];
    }
  }

  /** A text without commas gives exactly one tag; the empty text gives the
      one empty tag. */
  lemma TagsOfEmptyText()
    ensures Tags("") == [""]
  {
    assert Split("", ',') == [""];
    assert Trim("") == "";
  }

  /** The seven text inputs of the form. */
  datatype FormFields = FormFields(
    title: string,
    difficulty: string,
    platform: string,
    tags: string,
    url: string,
    description: string,
    testcases: string)

  /** The form as the page first shows it, and as it is left after an add. */
  const InitialFields := FormFields("", "", "", "", "", "", "")
  const ResetFields := FormFields("", "", "", "", "", "", "[]")

  /** What `handleAddProblem` does with the form. */
  datatype Decision =
    | MissingFields     // "Please fill in all fields."
    | InvalidTestCases  // "Invalid Test Cases format. Please enter a valid JSON array."
    | Added(payload: Body)

  predicate FieldsMissing(f: FormFields)
  {
    f.title == "" || f.difficulty == "" || f.platform == "" || f.url == "" || f.description == ""
  }

  /** The object passed to `addProblem`: the form's fields, with the tags as
      a list and the parsed test cases under the key `testcases`. */
  function Payload(f: FormFields, testcases: JsVal): Body
  {
    var tags := Tags(f.tags);
    map["title" := JStr(f.title), "difficulty" := JStr(f.difficulty), "platform" := JStr(f.platform),
        "tags" := JArr(seq(|tags|, i requires 0 <= i < |tags| => JStr(tags[i]))),
        "url" := JStr(f.url), "description" := JStr(f.description), "testcases" := testcases]
  }

  /** The lengths of the payload's key literals, spelled out so that the
      solver can tell the keys apart when it looks one up. */
  lemma KeyLengths()
    ensures |"title"| == 5 && |"difficulty"| == 10 && |"platform"| == 8 && |"tags"| == 4
    ensures |"url"| == 3 && |"description"| == 11 && |"testcases"| == 9 && |"testCases"| == 9
  {
  }

  /** The payload carries the route's four required fields as the form's text. */
  lemma PayloadRouteFields(f: FormFields, testcases: JsVal)
    ensures var b := Payload(f, testcases);
            && Get(b, "title") == JStr(f.title) && Get(b, "difficulty") == JStr(f.difficulty)
            && Get(b, "platform") == JStr(f.platform) && Get(b, "url") == JStr(f.url)
  {
    KeyLengths();
  }

  /** The payload carries the parsed test cases under `testcases`, and no
      key `testCases`; its tag list has one tag more than the text has commas. */
  lemma PayloadTestCases(f: FormFields, testcases: JsVal)
    ensures var b := Payload(f, testcases);
            && Get(b, "testcases") == testcases
            && "testCases" !in b
            && Get(b, "tags").JArr? && |Get(b, "tags").items| == Count(f.tags, ',') + 1
  {
    KeyLengths();
    assert "testCases" != "testcases" by {
      assert "testCases"[4] != "testcases"[4];
    }
  }

  /** The checks of `handleAddProblem`: five fields must be non-empty (tags
      may be empty), and the test-case text must parse to a JSON array.
      `parse` is `JSON.parse`, `None` when it throws. */
  function Decide(f: FormFields, parse: string -> Option<JsVal>): (d: Decision)
    ensures d == MissingFields <==> FieldsMissing(f)
    ensures d == InvalidTestCases <==>
      !FieldsMissing(f) && (parse(f.testcases).None? || !parse(f.testcases).value.JArr?)
    ensures d.Added? ==>
      && parse(f.testcases).Some? && parse(f.testcases).value.JArr?
      && d.payload == Payload(f, parse(f.testcases).value)
  {
    if FieldsMissing(f) then MissingFields
    else
      var parsed := parse(f.testcases);
      if parsed.None? || !parsed.value.JArr? then InvalidTestCases
      else Added(Payload(f, parsed.value))
  }

  /** With every other field filled in, a form whose test-case text was
      never edited is refused, because `JSON.parse("")` throws. */
  lemma UneditedTestCasesRejected(f: FormFields, parse: string -> Option<JsVal>)
    requires parse("") == None
    requires f.testcases == InitialFields.testcases && !FieldsMissing(f)
    ensures Decide(f, parse) == InvalidTestCases
  {
  }

  /** Any non-empty difficulty passes, not only Easy, Medium or Hard. */
  lemma AnyDifficultyAccepted(f: FormFields, parse: string -> Option<JsVal>, difficulty: string)
    requires difficulty != "" && Decide(f, parse).Added?
    ensures Decide(f.(difficulty := difficulty), parse).Added?
  {
  }

  /** A payload with the route's four required fields filled in passes the
      route's required-field check, and the route, reading `testCases`,
      stores no test cases for it. */
  lemma PayloadLosesTestCases(f: FormFields, testcases: JsVal, t: Tables, newId: string, storeFails: bool)
    requires !FieldsMissing(f)
    ensures var out := CatalogRoutes.PostProblem(t, Payload(f, testcases), newId, storeFails);
            && out.1.Code() != 400
            && (out.1.Json? ==> out.1.body.testCases == JUndefined)
  {
    var b := Payload(f, testcases);
    PayloadRouteFields(f, testcases);
    PayloadTestCases(f, testcases);
    assert !CatalogRoutes.ProblemFieldsMissing(b);
    if CatalogRoutes.PostProblem(t, b, newId, storeFails).1.Json? {
      CatalogRoutes.TestCasesReadFromCamelCaseKey(t, b, newId);
    }
  }

  /** The page's state. */
  class ProblemForm {
    var title: string
    var difficulty: string
    var platform: string
    var tags: string
    var url: string
    var description: string
    var testcases: string
    var isAdding: bool
    var isLoading: bool

    function Fields(): FormFields
      reads this
    {
      FormFields(title, difficulty, platform, tags, url, description, testcases)
    }

    constructor ()
      ensures Fields() == InitialFields
      ensures !isAdding && isLoading
    {
      title, difficulty, platform, tags, url, description, testcases := "", "", "", "", "", "", "";
      isAdding, isLoading := false, true;
    }

    /** The inputs' `onChange`: replace the form's fields by those typed. */
    method Edit(f: FormFields)
      modifies this
      ensures Fields() == f
      ensures isAdding == old(isAdding) && isLoading == old(isLoading)
    {
      title, difficulty, platform, tags, url := f.title, f.difficulty, f.platform, f.tags, f.url;
      description, testcases := f.description, f.testcases;
    }

    /** The page's first load: fetch the problem list, then clear the
        loading flag. */
    method Load(store: ClientStores.ProblemsStore, outcome: ClientStores.FetchOutcome)
      modifies this, store
      ensures Fields() == old(Fields()) && isAdding == old(isAdding)
      ensures !isLoading
      ensures outcome.Threw? ==> store.problems == old(store.problems)
      ensures outcome.Responded? ==>
        store.problems == (if outcome.body.JArr? then outcome.body.items else [])
    {
      isLoading := true;
      store.FetchProblems(outcome);
      isLoading := false;
    }

    /** `handleAddProblem`: when the checks pass, post the payload through
        the store and reset the form; otherwise change nothing. `parse` is
        `JSON.parse` and `outcome` the POST's outcome. */
    method HandleAddProblem(store: ClientStores.ProblemsStore, parse: string -> Option<JsVal>,
                            outcome: ClientStores.FetchOutcome) returns (d: Decision)
      modifies this, store
      ensures d == Decide(old(Fields()), parse)
      ensures !d.Added? ==>
        Fields() == old(Fields()) && isAdding == old(isAdding) && store.problems == old(store.problems)
      ensures d.Added? ==>
        && Fields() == ResetFields && !isAdding
        && store.problems == old(store.problems) + (if outcome.Responded? then [outcome.body] else [])
      ensures isLoading == old(isLoading)
    {
      d := Decide(Fields(), parse);
      if d.Added? {
        isAdding := true;
        store.AddProblem(outcome);
        Edit(ResetFields);
        isAdding := false;
      }
    }
  }

  /** Once a problem is added, the form's test-case text is `"[]"`, so a
      second add with the other fields filled in again, and the test-case
      text left as the reset made it, is not refused for its test cases. */
  method AddTwice(form: ProblemForm, store: ClientStores.ProblemsStore, parse: string -> Option<JsVal>,
                  f: FormFields, o1: ClientStores.FetchOutcome, o2: ClientStores.FetchOutcome)
    returns (d1: Decision, d2: Decision)
    requires parse("[]") == Some(JArr([]))
    requires !FieldsMissing(f) && parse(f.testcases).Some? && parse(f.testcases).value.JArr?
    modifies form, store
    ensures d1.Added?
    ensures d2.Added? && Get(d2.payload, "testcases") == JArr([])
    ensures form.Fields() == ResetFields
  {
    form.Edit(f);
    d1 := form.HandleAddProblem(store, parse, o1);
    var second := f.(testcases := form.Fields().testcases);
    form.Edit(second);
    d2 := form.HandleAddProblem(store, parse, o2);
    PayloadTestCases(second, JArr([]));
  }
}
