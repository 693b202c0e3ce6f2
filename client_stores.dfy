/** The browser-side stores. Each store is an object whose fields its actions
    replace; an action that fetches is given the outcome of the request
    (and of reading its JSON body) as a parameter. */
module ClientStores {
  import opened JsValues

  /** What a `fetch` followed by `response.json()` produced: it threw (network
      failure or a body that is not JSON), or it answered with the `ok` flag
      and the parsed body. */
  datatype FetchOutcome = Threw | Responded(ok: bool, body: JsVal)

  // ----- useProblemsStore ----------------------------------------------------

  /** The problem list of the problem pages. */
  class ProblemsStore {
    var problems: seq<JsVal>

    constructor ()
      ensures problems == []
    {
      problems := [];
    }

    /** `fetchProblems`: take the body when it is an array and `[]` otherwise;
        keep the list when the request throws. */
    method FetchProblems(outcome: FetchOutcome)
      modifies this
      ensures outcome.Threw? ==> problems == old(problems)
      ensures outcome.Responded? && outcome.body.JArr? ==> problems == outcome.body.items
      ensures outcome.Responded? && !outcome.body.JArr? ==> problems == []
    {
      if outcome.Responded? {
        problems := if outcome.body.JArr? then outcome.body.items else [];
      }
    }

    /** `addProblem`: append whatever the POST answered, whatever its status;
        keep the list when the request throws. */
    method AddProblem(outcome: FetchOutcome)
      modifies this
      ensures outcome.Threw? ==> problems == old(problems)
      ensures outcome.Responded? ==> problems == old(problems) + [outcome.body]
    {
      if outcome.Responded? {
        problems := problems + [outcome.body];
      }
    }
  }

  /** An error answer of the problem route is appended as if it were a problem. */
  method AddProblemKeepsErrorBody(store: ProblemsStore, message: string)
    modifies store
    ensures store.problems == old(store.problems) + [JObj(map["error" := JStr(message)])]
  {
    store.AddProblem(Responded(false, JObj(map["error" := JStr(message)])));
  }

  // ----- useAdminStore -------------------------------------------------------

  /** `[...v]`: the elements of an array, the one-character strings of a
      string, and a TypeError (`None`) for anything that is not iterable. */
  function Spread(v: JsVal): (r: Option<seq<JsVal>>)
    ensures v.JArr? ==> r == Some(v.items)
    ensures v.JStr? ==> r.Some? && |r.value| == |v.s| &&
                        forall i :: 0 <= i < |v.s| ==> r.value[i] == JStr([v.s[i]])
    ensures r.None? <==> !(v.JArr? || v.JStr?)
  {
    match v
    case JArr(items) => Some(items)
    case JStr(s) => Some(seq(|s|, i requires 0 <= i < |s| => JStr([s[i]])))
    case _ => None
  }

  /** `value.id`: `undefined` when the value has no such property, and a
      TypeError (`None`) when the value is `null` or `undefined`. */
  function PropId(v: JsVal): (r: Option<JsVal>)
    ensures r.None? <==> v.JNull? || v.JUndefined?
    ensures v.JObj? ==> r == Some(Get(v.fields, "id"))
  {
    match v
    case JNull => None
    case JUndefined => None
    case JObj(fields) => Some(Get(fields, "id"))
    case _ => Some(JUndefined)
  }

  /** A user element that the delete filter keeps: its `id` is not the
      string `id`. */
  predicate KeepsUser(v: JsVal, id: string)
    requires !(v.JNull? || v.JUndefined?)
  {
    PropId(v).value != JStr(id)
  }

  /** `users.filter(user => user.id !== id)` on an array: the elements whose
      `id` differs, in their order, or a TypeError (`None`) when an element is
      `null` or `undefined`. */
  function FilterOutId(items: seq<JsVal>, id: string): (r: Option<seq<JsVal>>)
    ensures r.None? <==> exists v :: v in items && (v.JNull? || v.JUndefined?)
    ensures r.Some? ==> forall v :: v in r.value <==> v in items && KeepsUser(v, id)
    ensures r.Some? ==> |r.value| <= |items|
  {
    if items == [] then Some([])
    else
      var head := items[0];
      var rest := FilterOutId(items[1..], id);
      assert items == [head] + items[1..];
      if head.JNull? || head.JUndefined? then None
      else if rest.None? then None
      else if KeepsUser(head, id) then Some([head] + rest.value)
      else rest
  }

  /** The filter works element by element: filtering a concatenation is
      concatenating the filtered parts, so the kept users stay in order. */
  lemma {:induction false} FilterOutIdAppend(a: seq<JsVal>, b: seq<JsVal>, id: string)
    requires FilterOutId(a, id).Some? && FilterOutId(b, id).Some?
    ensures FilterOutId(a + b, id) == Some(FilterOutId(a, id).value + FilterOutId(b, id).value)
  {
    var y := FilterOutId(b, id).value;
    if a == [] {
      assert a + b == b;
      assert FilterOutId(a, id).value + y == y;
    } else {
      var head := a[0];
      assert (a + b)[0] == head;
      assert (a + b)[1..] == a[1..] + b;
      assert !(head.JNull? || head.JUndefined?) && FilterOutId(a[1..], id).Some?;
      FilterOutIdAppend(a[1..], b, id);
      var x := FilterOutId(a[1..], id).value;
      assert FilterOutId(a + b, id) == if KeepsUser(head, id) then Some([head] + (x + y)) else Some(x + y);
      assert FilterOutId(a, id) == if KeepsUser(head, id) then Some([head] + x) else Some(x);
      assert [head] + (x + y) == ([head] + x) + y;
    }
  }

  /** With no element carrying that id, the filter changes nothing. */
  lemma {:induction false} FilterOutAbsentId(items: seq<JsVal>, id: string)
    requires FilterOutId(items, id).Some?
    requires forall v :: v in items ==> KeepsUser(v, id)
    ensures FilterOutId(items, id) == Some(items)
  {
    if items != [] {
      assert items == [items[0]] + items[1..];
      FilterOutAbsentId(items[1..], id);
    }
  }

  /** Filtering twice is filtering once. */
  lemma FilterOutIdIdempotent(items: seq<JsVal>, id: string)
    requires FilterOutId(items, id).Some?
    ensures FilterOutId(FilterOutId(items, id).value, id) == FilterOutId(items, id)
  {
    var r := FilterOutId(items, id).value;
    FilterOutAbsentId(r, id);
  }

  /** The admin's user list; `users` holds whatever the list route answered. */
  class AdminStore {
    var users: JsVal

    constructor ()
      ensures users == JArr([])
    {
      users := JArr([]);
    }

    /** `fetchUsers`: replace the list with the answer as it is, without
        looking at the status; a throwing request leaves it as it was. */
    method FetchUsers(outcome: FetchOutcome)
      modifies this
      ensures outcome.Threw? ==> users == old(users)
      ensures outcome.Responded? ==> users == outcome.body
    {
      if outcome.Responded? {
        users := outcome.body;
      }
    }

    /** `addUser`: on an ok answer append the returned user to the list;
        otherwise, or when the list cannot be spread, keep the list. */
    method AddUser(outcome: FetchOutcome)
      modifies this
      ensures !(outcome.Responded? && outcome.ok) ==> users == old(users)
      ensures outcome.Responded? && outcome.ok && Spread(old(users)).None? ==> users == old(users)
      ensures outcome.Responded? && outcome.ok && Spread(old(users)).Some? ==>
        users == JArr(Spread(old(users)).value + [outcome.body])
    {
      if outcome.Responded? && outcome.ok {
        var spread := Spread(users);
        if spread.Some? {
          users := JArr(spread.value + [outcome.body]);
        }
      }
    }

    /** `deleteUser(id)`: on an ok answer drop every user with that id,
        keeping the others in order; otherwise, or when the list is not an
        array or holds `null`, keep the list. `ok` is `None` when the request
        throws. */
    method DeleteUser(id: string, ok: Option<bool>)
      modifies this
      ensures ok != Some(true) ==> users == old(users)
      ensures ok == Some(true) && old(users).JArr? && FilterOutId(old(users).items, id).Some? ==>
        users == JArr(FilterOutId(old(users).items, id).value)
      ensures ok == Some(true) && !(old(users).JArr? && FilterOutId(old(users).items, id).Some?) ==>
        users == old(users)
    {
      if ok == Some(true) && users.JArr? {
        var kept := FilterOutId(users.items, id);
        if kept.Some? {
          users := JArr(kept.value);
        }
      }
    }
  }

  /** Deleting the same user twice, with the same answer from the server each
      time, leaves the list as deleting once. */
  method DeleteUserTwice(store: AdminStore, id: string, ok: Option<bool>)
    modifies store
    ensures store.users ==
      if ok == Some(true) && old(store.users).JArr? && FilterOutId(old(store.users).items, id).Some?
      then JArr(FilterOutId(old(store.users).items, id).value)
      else old(store.users)
  {
    store.DeleteUser(id, ok);
    store.DeleteUser(id, ok);
    if ok == Some(true) && old(store.users).JArr? && FilterOutId(old(store.users).items, id).Some? {
      FilterOutIdIdempotent(old(store.users).items, id);
    }
  }

  // ----- useAuthStore --------------------------------------------------------

  /** The sign-up form. */
  datatype AuthForm = AuthForm(username: string, email: string, password: string)

  /** A `Partial` of the form: the fields a `setForm` call carries. */
  datatype FormPatch = FormPatch(username: Option<string>, email: Option<string>, password: Option<string>)

  /** `{ ...form, ...patch }`: the fields of the patch over those of the form. */
  function Merge(form: AuthForm, patch: FormPatch): (r: AuthForm)
    ensures r.username == (if patch.username.Some? then patch.username.value else form.username)
    ensures r.email == (if patch.email.Some? then patch.email.value else form.email)
    ensures r.password == (if patch.password.Some? then patch.password.value else form.password)
  {
    AuthForm(
      if patch.username.Some? then patch.username.value else form.username,
      if patch.email.Some? then patch.email.value else form.email,
      if patch.password.Some? then patch.password.value else form.password)
  }

  /** An empty patch changes nothing. */
  lemma MergeEmpty(form: AuthForm)
    ensures Merge(form, FormPatch(None, None, None)) == form
  {
  }

  /** The patch `q` laid over the patch `p`: the fields either carries, `q`
      winning where both do. */
  function Then(p: FormPatch, q: FormPatch): FormPatch
  {
    FormPatch(
      if q.username.Some? then q.username else p.username,
      if q.email.Some? then q.email else p.email,
      if q.password.Some? then q.password else p.password)
  }

  /** Two `setForm` calls in a row are one call with the two patches laid
      over each other. */
  lemma MergeCompose(form: AuthForm, p: FormPatch, q: FormPatch)
    ensures Merge(Merge(form, p), q) == Merge(form, Then(p, q))
  {
  }

  /** Applying the same patch twice is applying it once. */
  lemma MergeIdempotent(form: AuthForm, patch: FormPatch)
    ensures Merge(Merge(form, patch), patch) == Merge(form, patch)
  {
  }

  /** The form state of the sign-up page. */
  class AuthStore {
    var form: AuthForm
    var loading: bool

    constructor ()
      ensures form == AuthForm("", "", "") && !loading
    {
      form, loading := AuthForm("", "", ""), false;
    }

    /** `setForm(patch)`: overwrite the fields the patch carries. */
    method SetForm(patch: FormPatch)
      modifies this
      ensures form == Merge(old(form), patch)
      ensures loading == old(loading)
    {
      form := Merge(form, patch);
    }

    /** `setLoading(b)`. */
    method SetLoading(b: bool)
      modifies this
      ensures loading == b
      ensures form == old(form)
    {
      loading := b;
    }
  }

  // ----- useAuthSigninStore --------------------------------------------------

  /** The signed-in user the sign-in page remembers. */
  datatype SigninUser = SigninUser(id: string, email: string)

  /** The state of the sign-in page. */
  class AuthSigninStore {
    var user: Option<SigninUser>
    var loading: bool
    var error: string

    constructor ()
      ensures user == None && !loading && error == ""
    {
      user, loading, error := None, false, "";
    }

    /** `setUser(u)`. */
    method SetUser(u: Option<SigninUser>)
      modifies this
      ensures user == u
      ensures loading == old(loading) && error == old(error)
    {
      user := u;
    }

    /** `setLoading(b)`. */
    method SetLoading(b: bool)
      modifies this
      ensures loading == b
      ensures user == old(user) && error == old(error)
    {
      loading := b;
    }

    /** `setError(e)`. */
    method SetError(e: string)
      modifies this
      ensures error == e
      ensures user == old(user) && loading == old(loading)
    {
      error := e;
    }
  }

  // ----- useNavbarStore ------------------------------------------------------

  /** Whether the navigation menu is open. */
  class NavbarStore {
    var menuOpen: bool

    constructor ()
      ensures !menuOpen
    {
      menuOpen := false;
    }

    /** `toggleMenu`. */
    method ToggleMenu()
      modifies this
      ensures menuOpen == !old(menuOpen)
    {
      menuOpen := !menuOpen;
    }

    /** `closeMenu`. */
    method CloseMenu()
      modifies this
      ensures !menuOpen
    {
      menuOpen := false;
    }
  }

  /** Two toggles restore the menu's state. */
  method ToggleTwice(nav: NavbarStore)
    modifies nav
    ensures nav.menuOpen == old(nav.menuOpen)
  {
    nav.ToggleMenu();
    nav.ToggleMenu();
  }

  /** Closing twice is closing once, from either state. */
  method CloseTwice(nav: NavbarStore)
    modifies nav
    ensures !nav.menuOpen
  {
    nav.CloseMenu();
    nav.CloseMenu();
  }
}
