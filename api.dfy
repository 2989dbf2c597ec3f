/**
 * The request layer of the two web applications: `api/app.py` (over the relational store)
 * and `app.py` (over the JSON store). Both validate a JSON body, check the caller against
 * an allow-list and answer in a fixed order, and both map GET paths to views whose URL
 * shapes are the ones the stores hand out. Everything here is a function of the request,
 * the configuration and the store's contents; the stores themselves are modelled in
 * `SqlStore` and `JsonStore`.
 */
module Api {
  import opened Common
  import opened Text
  import SqlStore
  import JsonStore
  import Markdown
  import Session

  /** A decoded JSON object body. */
  type Body = map<string, JsonValue>

  // ---------------------------------------------------------------------------
  // validate_json_fields
  // ---------------------------------------------------------------------------

  /** The required fields that are not keys of the body, in required-list order. */
  function Missing(data: Body, required: seq<string>): (r: seq<string>)
    ensures forall f :: f in r <==> f in required && f !in data
    ensures |r| <= |required|
  {
    if required == [] then []
    else if required[0] in data then Missing(data, required[1..])
    else [required[0]] + Missing(data, required[1..])
  }

  /** The missing fields of a concatenated list are those of each half, in order. */
  lemma {:induction false} MissingAppend(data: Body, xs: seq<string>, ys: seq<string>)
    ensures Missing(data, xs + ys) == Missing(data, xs) + Missing(data, ys)
  {
    if xs == [] {
      assert xs + ys == ys;
    } else {
      assert (xs + ys)[1..] == xs[1..] + ys;
      MissingAppend(data, xs[1..], ys);
    }
  }

  /**
   * `validate_json_fields(json_data, required_fields)`: valid exactly when every required
   * field is a key of the body, whatever its value, and then the message is empty.
   */
  function ValidateJsonFields(data: Body, required: seq<string>): (r: (bool, string))
    ensures r.0 <==> forall f :: f in required ==> f in data
    ensures r.0 ==> r.1 == []
    ensures !r.0 ==> StartsWith(r.1, "Missing required fields: ")
  {
    var missing := Missing(data, required);
    assert missing != [] ==> missing[0] in missing;
    if missing != [] then (false, "Missing required fields: " + Join(missing, ", "))
    else (true, [])
  }

  /** With one field missing, the message names exactly that field. */
  lemma ValidateOneMissing(data: Body, xs: seq<string>, f: string, ys: seq<string>)
    requires f !in data
    requires forall g :: g in xs + ys ==> g in data
    ensures ValidateJsonFields(data, xs + [f] + ys) == (false, "Missing required fields: " + f)
  {
    MissingAppend(data, xs + [f], ys);
    MissingAppend(data, xs, [f]);
    MissingNone(data, xs);
    MissingNone(data, ys);
    assert Missing(data, [f]) == [f];
  }

  /** When every field is present nothing is missing. */
  lemma {:induction false} MissingNone(data: Body, required: seq<string>)
    requires forall g :: g in required ==> g in data
    ensures Missing(data, required) == []
  {
    if required != [] {
      assert required[0] in required;
      MissingNone(data, required[1..]);
    }
  }

  /** Two missing fields are listed in the order of the required list, joined by ", ". */
  lemma ValidateTwoMissing(data: Body, f: string, g: string)
    requires f !in data && g !in data
    ensures ValidateJsonFields(data, [f, g]) == (false, "Missing required fields: " + f + ", " + g)
  {
    assert Missing(data, [f, g]) == [f, g] by {
      assert [f, g][1..] == [g];
      assert Missing(data, [g]) == [g];
    }
    assert Join([f, g], ", ") == f + ", " + g by {
      assert [f, g][1..] == [g];
      assert Join([g], ", ") == g;
    }
    assert "Missing required fields: " + (f + ", " + g) == "Missing required fields: " + f + ", " + g;
  }

  // ---------------------------------------------------------------------------
  // ALLOWED_USERS and is_authorized
  // ---------------------------------------------------------------------------

  /** `{user_id.strip() for user_id in ALLOWED_USER_ID.split(",")}`. */
  function AllowedUsers(allowed: string): (r: set<string>)
    ensures forall x :: x in r ==> Stripped(x)
    ensures forall x :: x in Split(allowed, ',') ==> Strip(x) in r
  {
    set x | x in Split(allowed, ',') :: Strip(x)
  }

  /** A comma-joined list of ids is read back as the set of its stripped ids. */
  lemma AllowedUsersOfList(ids: seq<string>)
    requires |ids| >= 1 && forall k :: 0 <= k < |ids| ==> ',' !in ids[k]
    ensures AllowedUsers(Join(ids, ",")) == set x | x in ids :: Strip(x)
  {
    SplitJoin(ids, ',');
  }

  /**
   * `is_authorized(user_id)`, i.e. `user_id in ALLOWED_USERS`. Only a string can be a member;
   * a null, number or boolean is simply not one, while a list or object is unhashable and
   * the membership test raises TypeError.
   */
  function IsAuthorized(userId: JsonValue, users: set<string>): (r: Result<bool>)
    ensures r.Err? <==> userId.JContainer?
    ensures r == Ok(true) <==> userId.JString? && userId.s in users
  {
    match userId
    case JString(s) => Ok(s in users)
    case JContainer => Err(TypeError("unhashable type"))
    case _ => Ok(false)
  }

  /**
   * The web applications strip each allow-list entry, the bot does not: with a space after
   * the comma the same configured list admits user 42 here and refuses them in the bot.
   */
  lemma AppsStripWhereBotDoesNot()
    ensures IsAuthorized(JString("42"), AllowedUsers("7, 42")) == Ok(true)
    ensures !Session.Authorized(42, "7, 42")
  {
    Session.SplitSpacedList();
    assert " 42" in Split("7, 42", ',');
    StripSpaced();
    Session.SpaceAfterCommaExcludes();
  }

  lemma StripSpaced()
    ensures Strip(" 42") == "42"
  {
    StripPadded(" ", "42", []);
    assert " " + "42" + [] == " 42";
  }

  // ---------------------------------------------------------------------------
  // The POST endpoints
  // ---------------------------------------------------------------------------

  /**
   * What distinguishes one POST endpoint from another: its required fields, whether success
   * is 201 with the poem URL (saving) or 200 (deleting), and its 500 message.
   */
  datatype Endpoint = Endpoint(required: seq<string>, creates: bool, failure: string)

  /** `api_upload_poem` in `api/app.py`. */
  const UploadPoem: Endpoint := Endpoint(["user_id", "request_id", "author", "title", "text"], true, "Failed to upload poem")
  /** `api_save_poem` in `app.py`. */
  const SavePoem: Endpoint := Endpoint(["user_id", "request_id", "author", "title", "text"], true, "Failed to save poem")
  /** `api_delete_poem` in both applications. */
  const DeletePoem: Endpoint := Endpoint(["user_id", "author", "title"], false, "Failed to delete poem")
  /** `api_delete_author` in both applications. */
  const DeleteAuthor: Endpoint := Endpoint(["user_id", "author"], false, "Failed to delete author")
  /** `api_delete_all` in both applications. */
  const DeleteAll: Endpoint := Endpoint(["user_id"], false, "Failed to delete poems")

  /**
   * A response: a JSON reply with its status, the `error` text of a failure and the
   * `poem_url` of a save, or the page the 500 handler renders for an uncaught exception.
   */
  datatype ApiResponse =
    | Json(status: int, error: Option<string>, poemUrl: Option<string>)
    | ServerErrorPage

  /** The body passes every check and the store is called. */
  ghost predicate Admitted(e: Endpoint, body: Option<Body>, users: set<string>)
  {
    && body.Some? && body.value != map[]
    && (forall f :: f in e.required ==> f in body.value)
    && "user_id" in body.value
    && body.value["user_id"].JString? && body.value["user_id"].s in users
  }

  /**
   * The checks before the store call, in the handlers' order: no (or an empty) body, then
   * missing fields, then the allow-list. `None` means the store is called.
   */
  function Precheck(e: Endpoint, body: Option<Body>, users: set<string>): (r: Option<ApiResponse>)
    requires "user_id" in e.required
    ensures r.None? <==> Admitted(e, body, users)
    ensures (body.None? || body.value == map[]) ==> r == Some(Json(400, Some("Missing JSON body"), None))
    ensures r.Some? && r.value.Json? ==> r.value.status in {400, 401} && r.value.error.Some? && r.value.poemUrl.None?
    ensures r == Some(ServerErrorPage) <==>
      body.Some? && body.value != map[] && (forall f :: f in e.required ==> f in body.value) &&
      body.value["user_id"].JContainer?
  {
    if body.None? || body.value == map[] then Some(Json(400, Some("Missing JSON body"), None))
    else
      var (valid, message) := ValidateJsonFields(body.value, e.required);
      if !valid then Some(Json(400, Some(message), None))
      else
        match IsAuthorized(body.value["user_id"], users)
        case Err(_) => Some(ServerErrorPage)
        case Ok(false) => Some(Json(401, Some("Unauthorized: Invalid User ID"), None))
        case Ok(true) => None
  }

  /**
   * A POST handler. `stored` is what the store call gives for this body (the poem URL, or
   * the exception it raised); it only matters once the body is admitted.
   */
  function Respond(e: Endpoint, body: Option<Body>, users: set<string>, stored: Result<string>): (r: ApiResponse)
    requires "user_id" in e.required
    ensures !Admitted(e, body, users) ==> r == Precheck(e, body, users).value
    ensures Admitted(e, body, users) && stored.Err? ==> r == Json(500, Some(e.failure), None)
    ensures Admitted(e, body, users) && stored.Ok? ==>
      r == Json(if e.creates then 201 else 200, None, if e.creates then Some(stored.value) else None)
    ensures r.Json? && r.status / 100 == 2 <==> Admitted(e, body, users) && stored.Ok?
  {
    match Precheck(e, body, users)
    case Some(early) => early
    case None =>
      match stored
      case Err(_) => Json(500, Some(e.failure), None)
      case Ok(url) => if e.creates then Json(201, None, Some(url)) else Json(200, None, None)
  }

  /** A caller off the allow-list never reaches the store: the reply does not depend on it. */
  lemma RejectedNeverStores(e: Endpoint, body: Option<Body>, users: set<string>, s1: Result<string>, s2: Result<string>)
    requires "user_id" in e.required
    requires !Admitted(e, body, users)
    ensures Respond(e, body, users, s1) == Respond(e, body, users, s2)
    ensures Respond(e, body, users, s1).Json? ==> Respond(e, body, users, s1).status in {400, 401}
  {
  }

  /** Missing fields are reported before the allow-list is consulted. */
  lemma MissingFieldBeforeAuthorization(e: Endpoint, body: Body, users: set<string>, f: string, stored: Result<string>)
    requires "user_id" in e.required
    requires body != map[] && f in e.required && f !in body
    ensures Respond(e, Some(body), users, stored).Json?
    ensures Respond(e, Some(body), users, stored).status == 400
  {
  }

  /** A complete body from a string user id off the list is refused with 401. */
  lemma UnlistedUserGets401(e: Endpoint, body: Body, users: set<string>, stored: Result<string>)
    requires "user_id" in e.required
    requires forall f :: f in e.required ==> f in body
    requires body["user_id"].JString? && body["user_id"].s !in users
    ensures Respond(e, Some(body), users, stored) == Json(401, Some("Unauthorized: Invalid User ID"), None)
  {
  }

  // ---------------------------------------------------------------------------
  // GET routes
  // ---------------------------------------------------------------------------

  /** The view a GET path selects (`NoRoute` is the 404 handler). */
  datatype Page =
    | Home
    | Ping
    | AuthorPage(author: string)
    | PoemPage(author: string, title: string)
    | UserPage(user: string)
    | AuthorPageOf(user: string, author: string)
    | PoemPageOf(user: string, author: string, title: string)
    | Builtin(path: string)    // a rule the framework registers itself: static files, API docs
    | NoRoute

  /** The path segments of a page's URL. */
  function Segments(p: Page): seq<string>
  {
    match p
    case Home => []
    case Ping => ["ping"]
    case AuthorPage(a) => [a]
    case PoemPage(a, t) => [a, t]
    case UserPage(u) => ["id", u]
    case AuthorPageOf(u, a) => ["id", u, a]
    case PoemPageOf(u, a, t) => ["id", u, a, t]
    case Builtin(path) => Split(path, '/')
    case NoRoute => ["", ""]
  }

  /** The URL path of a page, without its leading slash. */
  function PageUrl(p: Page): string
  {
    Join(Segments(p), "/")
  }

  /** A value a `<name>` part of a rule accepts: at least one character, no slash. */
  predicate Segment(s: string)
  {
    s != [] && '/' !in s
  }

  /**
   * Flask's own `/static/<path:filename>` rule, which every `Flask(__name__)` app has: the
   * `path` converter takes the rest of the path, which must not start with a slash.
   */
  predicate StaticRule(s: seq<string>)
  {
    |s| >= 2 && s[0] == "static" && s[1] != []
  }

  /**
   * The rules `Swagger(app)` adds with its default configuration: the documentation page
   * `/apidocs/` (a request for `/apidocs` is redirected there), the specification
   * `/apispec_1.json` and the page's own files under `/flasgger_static/<path:filename>`.
   */
  predicate DocsRule(s: seq<string>)
  {
    s == ["apidocs"] || s == ["apidocs", ""] || s == ["apispec_1.json"] ||
    (|s| >= 2 && s[0] == "flasgger_static" && s[1] != [])
  }

  /**
   * The rules of `api/app.py` for a GET path (after its leading slash): the static parts
   * `ping` and `id`, and those of the framework's own rules, win over a variable part, and
   * every variable part is one non-empty segment. A path the rules accept is the URL of the
   * page it selects.
   */
  function RouteApi(path: string): (p: Page)
    ensures p != NoRoute ==> PageUrl(p) == path
    ensures path != [] && (StaticRule(Split(path, '/')) || DocsRule(Split(path, '/'))) ==> p == Builtin(path)
  {
    if path == [] then Home
    else
      var s := Split(path, '/');
      JoinSplit(path, '/');
      var p :=
        if StaticRule(s) || DocsRule(s) then Builtin(path)
        else if !NoEmptySegment(s) then NoRoute
        else if |s| == 1 then (if s[0] == "ping" then Ping else AuthorPage(s[0]))
        else if |s| == 2 then (if s[0] == "id" then UserPage(s[1]) else PoemPage(s[0], s[1]))
        else if |s| == 3 && s[0] == "id" then AuthorPageOf(s[1], s[2])
        else if |s| == 4 && s[0] == "id" then PoemPageOf(s[1], s[2], s[3])
        else NoRoute;
      assert p != NoRoute ==> Segments(p) == s;
      p
  }

  /** Every part is non-empty, as each `<name>` part of a rule requires. */
  predicate NoEmptySegment(s: seq<string>)
  {
    forall k :: 0 <= k < |s| ==> s[k] != []
  }

  /** The pages of `api/app.py` that have a URL of their own. */
  predicate ApiPage(p: Page)
  {
    match p
    case Home => true
    case Ping => true
    case AuthorPage(a) => Segment(a) && a != "ping" && a != "apidocs" && a != "apispec_1.json"
    case PoemPage(a, t) => Segment(a) && Segment(t) && RoutableAuthor(a)
    case UserPage(u) => Segment(u)
    case AuthorPageOf(u, a) => Segment(u) && Segment(a)
    case PoemPageOf(u, a, t) => Segment(u) && Segment(a) && Segment(t)
    case Builtin(_) => false
    case NoRoute => false
  }

  /** An author segment that no static part of `api/app.py`'s two-segment rules claims. */
  predicate RoutableAuthor(a: string)
  {
    a != "id" && a != "static" && a != "flasgger_static"
  }

  /** Every page's URL routes back to that page. */
  lemma RouteApiPageUrl(p: Page)
    requires ApiPage(p)
    ensures RouteApi(PageUrl(p)) == p
  {
    var s := Segments(p);
    if p != Home {
      assert |s| >= 1 && NoEmptySegment(s) && forall k :: 0 <= k < |s| ==> '/' !in s[k];
      SplitJoin(s, '/');
      JoinNonEmpty(s);
      NoBuiltinSegments(p);
    }
  }

  /** The segments of a page with a URL of its own match none of the framework's rules. */
  lemma NoBuiltinSegments(p: Page)
    requires ApiPage(p) && p != Home
    ensures !StaticRule(Segments(p)) && !DocsRule(Segments(p))
  {
    match p
    case Ping =>
    case AuthorPage(a) =>
    case PoemPage(a, t) =>
    case UserPage(u) =>
    case AuthorPageOf(u, a) =>
    case PoemPageOf(u, a, t) =>
  }

  /** Joining parts of which the first is non-empty gives a non-empty text. */
  lemma JoinNonEmpty(parts: seq<string>)
    requires |parts| >= 1 && parts[0] != []
    ensures Join(parts, "/") != []
  {
  }

  /**
   * The URL the relational store gives a poem routes to that poem's page, provided the
   * slugs are single segments and the main user's author slug is not one a static part
   * claims (`id`, `static`, `flasgger_static`).
   */
  lemma PoemUrlRoutes(mainUserId: string, user: string, authorSlug: string, titleSlug: string)
    requires Segment(user) && Segment(authorSlug) && Segment(titleSlug)
    requires user == mainUserId ==> RoutableAuthor(authorSlug)
    ensures RouteApi(SqlStore.PoemUrl(mainUserId, user, authorSlug, titleSlug)) ==
      if user == mainUserId then PoemPage(authorSlug, titleSlug) else PoemPageOf(user, authorSlug, titleSlug)
  {
    if user == mainUserId {
      var p := PoemPage(authorSlug, titleSlug);
      assert PageUrl(p) == authorSlug + "/" + titleSlug by {
        assert [authorSlug, titleSlug][1..] == [titleSlug];
      }
      RouteApiPageUrl(p);
    } else {
      var p := PoemPageOf(user, authorSlug, titleSlug);
      assert PageUrl(p) == "id/" + user + "/" + authorSlug + "/" + titleSlug by {
        assert [authorSlug, titleSlug][1..] == [titleSlug];
        assert Join([authorSlug, titleSlug], "/") == authorSlug + "/" + titleSlug;
        assert [user, authorSlug, titleSlug][1..] == [authorSlug, titleSlug];
        assert Join([user, authorSlug, titleSlug], "/") == user + "/" + (authorSlug + "/" + titleSlug);
        assert ["id", user, authorSlug, titleSlug][1..] == [user, authorSlug, titleSlug];
      }
      RouteApiPageUrl(p);
    }
  }

  /** A main-user poem by an author whose slug is `id` is routed to a user's listing instead. */
  lemma IdAuthorIsShadowed(mainUserId: string, titleSlug: string)
    requires Segment(titleSlug)
    ensures RouteApi(SqlStore.PoemUrl(mainUserId, mainUserId, "id", titleSlug)) == UserPage(titleSlug)
  {
    assert PageUrl(UserPage(titleSlug)) == "id" + "/" + titleSlug by {
      assert ["id", titleSlug][1..] == [titleSlug];
      assert Join([titleSlug], "/") == titleSlug;
    }
    assert SqlStore.PoemUrl(mainUserId, mainUserId, "id", titleSlug) == "id" + "/" + titleSlug;
    RouteApiPageUrl(UserPage(titleSlug));
  }

  /**
   * A main-user poem by an author whose slug is `static` is routed to Flask's static files
   * instead, and one whose slug is `flasgger_static` to the documentation's files.
   */
  lemma StaticAuthorIsShadowed(mainUserId: string, authorSlug: string, titleSlug: string)
    requires authorSlug == "static" || authorSlug == "flasgger_static"
    requires Segment(titleSlug)
    ensures RouteApi(SqlStore.PoemUrl(mainUserId, mainUserId, authorSlug, titleSlug)) == Builtin(authorSlug + "/" + titleSlug)
  {
    StaticSplit(authorSlug, titleSlug);
  }

  /** A path of two segments splits into those two. */
  lemma StaticSplit(first: string, rest: string)
    requires Segment(first) && Segment(rest)
    ensures Split(first + "/" + rest, '/') == [first, rest]
  {
    SplitAtSep(first, '/', rest);
    SplitNoSep(rest, '/');
  }

  /**
   * The rules of `app.py`: the root, `ping`, one author segment or an author and a title,
   * besides Flask's static files, whose static part wins over the author segment.
   * A path the rules accept is the URL of the page it selects.
   */
  function RouteApp(path: string): (p: Page)
    ensures p != NoRoute ==> PageUrl(p) == path
    ensures p in {Home, Ping, NoRoute} || p.AuthorPage? || p.PoemPage? || p.Builtin?
    ensures path != [] && StaticRule(Split(path, '/')) ==> p == Builtin(path)
  {
    if path == [] then Home
    else
      var s := Split(path, '/');
      JoinSplit(path, '/');
      var p :=
        if StaticRule(s) then Builtin(path)
        else if !NoEmptySegment(s) then NoRoute
        else if |s| == 1 then (if s[0] == "ping" then Ping else AuthorPage(s[0]))
        else if |s| == 2 then PoemPage(s[0], s[1])
        else NoRoute;
      assert p != NoRoute ==> Segments(p) == s;
      p
  }

  /** The URL the JSON store gives a poem, `author_slug/title_slug`, routes to that poem. */
  lemma SavedUrlRoutes(authorSlug: string, titleSlug: string)
    requires Segment(authorSlug) && Segment(titleSlug) && authorSlug != "static"
    ensures RouteApp(authorSlug + "/" + titleSlug) == PoemPage(authorSlug, titleSlug)
  {
    StaticSplit(authorSlug, titleSlug);
  }

  /** A poem by an author whose slug is `static` is routed to Flask's static files instead. */
  lemma StaticAuthorIsShadowedInApp(titleSlug: string)
    requires Segment(titleSlug)
    ensures RouteApp("static/" + titleSlug) == Builtin("static/" + titleSlug)
  {
    StaticSplit("static", titleSlug);
    assert "static" + "/" + titleSlug == "static/" + titleSlug;
  }

  // ---------------------------------------------------------------------------
  // Views
  // ---------------------------------------------------------------------------

  /** What a GET request renders. `NotFoundPoem` is the "No, no, no" page. */
  datatype View =
    | PoemsList(poems: Authors)
    | AuthorList(slug: string, entry: AuthorEntry)
    | PoemShown(author: string, title: string, html: string)
    | NotFoundPoem
    | Pong
    | Framework(path: string)  // answered by Flask or flasgger, not by a view of the app

  /** `view_poems` (for the main user) and `view_poems_other` in `api/app.py`. */
  function Listing(t: SqlStore.Tables, users: set<string>, user: string): (r: View)
    ensures r.PoemsList? <==> user in users
    ensures r.PoemsList? ==> r.poems == SqlStore.PoemsByUser(t, user)
    ensures !r.PoemsList? ==> r == NotFoundPoem
  {
    if user in users then PoemsList(SqlStore.PoemsByUser(t, user)) else NotFoundPoem
  }

  /** `view_author_poems` (for the main user) and `view_author_poems_others` in `api/app.py`. */
  function AuthorPoems(t: SqlStore.Tables, users: set<string>, user: string, authorSlug: string): (r: View)
    ensures r.AuthorList? <==> user in users && SqlStore.GetPoemsByAuthor(t, user, authorSlug).Some?
    ensures r.AuthorList? ==> r.slug == authorSlug && r.entry == SqlStore.GetPoemsByAuthor(t, user, authorSlug).value[authorSlug]
    ensures !r.AuthorList? ==> r == NotFoundPoem
  {
    if user in users then
      match SqlStore.GetPoemsByAuthor(t, user, authorSlug)
      case Some(data) => AuthorList(authorSlug, data[authorSlug])
      case None => NotFoundPoem
    else NotFoundPoem
  }

  /**
   * `view_poem` (for the main user) and `view_poem_others` as evidently intended: the poem
   * with its text rendered from Markdown, or the not-found page.
   */
  function ShowPoem(t: SqlStore.Tables, users: set<string>, user: string, authorSlug: string, titleSlug: string): (r: View)
    ensures r.PoemShown? <==> user in users && SqlStore.GetPoem(t, user, authorSlug, titleSlug).Some?
    ensures r.PoemShown? ==>
      var v := SqlStore.GetPoem(t, user, authorSlug, titleSlug).value;
      r == PoemShown(v.author, v.info.title, Markdown.MarkdownToHtml(v.info.poem))
    ensures !r.PoemShown? ==> r == NotFoundPoem
  {
    if user in users then
      match SqlStore.GetPoem(t, user, authorSlug, titleSlug)
      case Some(v) => PoemShown(v.author, v.info.title, Markdown.MarkdownToHtml(v.info.poem))
      case None => NotFoundPoem
    else NotFoundPoem
  }

  /**
   * `view_poem_others` as written: its not-found return sits inside the allow-list branch,
   * so for a user off the list the view returns `None`, which Flask answers through the 500
   * handler with the not-found page.
   */
  function PoemViewOthersAsWritten(t: SqlStore.Tables, users: set<string>, user: string, authorSlug: string,
                                   titleSlug: string): (r: Option<View>)
    ensures r.None? <==> user !in users
    ensures r.Some? ==> r.value == ShowPoem(t, users, user, authorSlug, titleSlug)
  {
    if user in users then
      match SqlStore.GetPoem(t, user, authorSlug, titleSlug)
      case Some(v) => Some(PoemShown(v.author, v.info.title, Markdown.MarkdownToHtml(v.info.poem)))
      case None => Some(NotFoundPoem)
    else None
  }

  /**
   * A concrete request whose view returns `None`: user 2 when only user 1 is allowed. Flask
   * then answers through the 500 handler; the intended view gives the not-found page directly.
   */
  lemma UnlistedUserViewReturnsNone(t: SqlStore.Tables)
    ensures PoemViewOthersAsWritten(t, {"1"}, "2", "author", "title") == None
    ensures ShowPoem(t, {"1"}, "2", "author", "title") == NotFoundPoem
  {
  }

  /**
   * The view `api/app.py` renders for a page; `mainUserId` serves the paths without `id/`.
   * The short paths and the `id/<user>` paths render the same views, for the main user and
   * for the named user respectively.
   */
  function ServeApi(t: SqlStore.Tables, mainUserId: string, users: set<string>, p: Page): (r: View)
    ensures r.PoemShown? ==> (p.PoemPage? || p.PoemPageOf?)
    ensures r == Pong <==> p == Ping
    ensures p == Home ==> r == Listing(t, users, mainUserId)
    ensures p.UserPage? ==> r == Listing(t, users, p.user)
    ensures p.AuthorPage? ==> r == AuthorPoems(t, users, mainUserId, p.author)
    ensures p.AuthorPageOf? ==> r == AuthorPoems(t, users, p.user, p.author)
    ensures p.PoemPage? ==> r == ShowPoem(t, users, mainUserId, p.author, p.title)
    ensures p.PoemPageOf? ==> r == ShowPoem(t, users, p.user, p.author, p.title)
    ensures p == NoRoute ==> r == NotFoundPoem
    ensures p.Builtin? ==> r == Framework(p.path)
  {
    match p
    case Home => Listing(t, users, mainUserId)
    case Ping => Pong
    case AuthorPage(a) => AuthorPoems(t, users, mainUserId, a)
    case PoemPage(a, ti) => ShowPoem(t, users, mainUserId, a, ti)
    case UserPage(u) => Listing(t, users, u)
    case AuthorPageOf(u, a) => AuthorPoems(t, users, u, a)
    case PoemPageOf(u, a, ti) => ShowPoem(t, users, u, a, ti)
    case Builtin(path) => Framework(path)
    case NoRoute => NotFoundPoem
  }

  /**
   * End to end: once a listed user's poem is uploaded, a GET of the URL the upload returned
   * renders that poem's author, title and Markdown-rendered text, unless a main-user poem's
   * author slug is one a static part claims (see `IdAuthorIsShadowed` and
   * `StaticAuthorIsShadowed`).
   */
  lemma UploadedPoemIsServed(t: SqlStore.Tables, mainUserId: string, users: set<string>, user: string,
                             author: string, title: string, text: string, requestId: string,
                             slug: string -> string, now: string)
    requires SqlStore.Valid(t)
    requires user in users
    requires Segment(user) && Segment(slug(author)) && Segment(slug(title))
    requires user == mainUserId ==> RoutableAuthor(slug(author))
    ensures var up := SqlStore.Uploaded(t, mainUserId, user, author, title, text, requestId, slug, now);
      ServeApi(up.0, mainUserId, users, RouteApi(up.1)) == PoemShown(author, title, Markdown.MarkdownToHtml(text))
  {
    var up := SqlStore.Uploaded(t, mainUserId, user, author, title, text, requestId, slug, now);
    SqlStore.UploadThenGetPoem(t, mainUserId, user, author, title, text, requestId, slug, now);
    assert up.1 == SqlStore.PoemUrl(mainUserId, user, slug(author), slug(title));
    PoemUrlRoutes(mainUserId, user, slug(author), slug(title));
    ServedPoem(up.0, mainUserId, users, RouteApi(up.1), user, slug(author), slug(title));
  }

  /** The page of a poem, under either URL shape, shows that user's poem. */
  lemma ServedPoem(t: SqlStore.Tables, mainUserId: string, users: set<string>, p: Page,
                   user: string, authorSlug: string, titleSlug: string)
    requires p == if user == mainUserId then PoemPage(authorSlug, titleSlug) else PoemPageOf(user, authorSlug, titleSlug)
    ensures ServeApi(t, mainUserId, users, p) == ShowPoem(t, users, user, authorSlug, titleSlug)
  {
    if user == mainUserId {
      assert p.PoemPage? && p.author == authorSlug && p.title == titleSlug;
    } else {
      assert p.PoemPageOf? && p.user == user && p.author == authorSlug && p.title == titleSlug;
    }
  }

  /** `view_author_poems` in `app.py`, over the poems stored under the allow-list text. */
  function AppAuthorPoems(poems: Authors, authorSlug: string): (r: View)
    ensures r.AuthorList? <==> authorSlug in poems
    ensures r.AuthorList? ==> r == AuthorList(authorSlug, poems[authorSlug])
    ensures !r.AuthorList? ==> r == NotFoundPoem
  {
    if authorSlug in poems then AuthorList(authorSlug, poems[authorSlug]) else NotFoundPoem
  }

  /** `view_poem` in `app.py`: found only when both slugs are keys at their level. */
  function AppPoem(poems: Authors, authorSlug: string, titleSlug: string): (r: View)
    ensures r.PoemShown? <==> authorSlug in poems && titleSlug in poems[authorSlug].poems
    ensures r.PoemShown? ==>
      var info := poems[authorSlug].poems[titleSlug];
      r == PoemShown(poems[authorSlug].author, info.title, Markdown.MarkdownToHtml(info.poem))
    ensures !r.PoemShown? ==> r == NotFoundPoem
  {
    if authorSlug in poems && titleSlug in poems[authorSlug].poems then
      var info := poems[authorSlug].poems[titleSlug];
      PoemShown(poems[authorSlug].author, info.title, Markdown.MarkdownToHtml(info.poem))
    else NotFoundPoem
  }

  /**
   * The view `app.py` renders for a page. Every view reads the poems stored under the
   * whole `ALLOWED_USER_ID` text, not under one of the ids it lists.
   */
  function ServeApp(db: JsonStore.Db, allowed: string, p: Page): (r: View)
    ensures r.PoemShown? ==> p.PoemPage?
    ensures r == Pong <==> p == Ping
    ensures p == Home ==> r == PoemsList(JsonStore.AuthorsOf(db, allowed))
    ensures p.AuthorPage? ==> r == AppAuthorPoems(JsonStore.AuthorsOf(db, allowed), p.author)
    ensures p.PoemPage? ==> r == AppPoem(JsonStore.AuthorsOf(db, allowed), p.author, p.title)
    ensures p.Builtin? ==> r == Framework(p.path)
    ensures !(p.Home? || p.Ping? || p.AuthorPage? || p.PoemPage? || p.Builtin?) ==> r == NotFoundPoem
  {
    var poems := JsonStore.AuthorsOf(db, allowed);
    match p
    case Home => PoemsList(poems)
    case Ping => Pong
    case AuthorPage(a) => AppAuthorPoems(poems, a)
    case PoemPage(a, ti) => AppPoem(poems, a, ti)
    case Builtin(path) => Framework(path)
    case _ => NotFoundPoem
  }

  /**
   * End to end for `app.py`: a poem stored under the allow-list text is served at the
   * `author_slug/title_slug` URL the store returned, unless the author's slug is `static`
   * (see `StaticAuthorIsShadowedInApp`).
   */
  lemma SavedPoemIsServed(db: JsonStore.Db, allowed: string, author: string, authorSlug: string,
                          titleSlug: string, info: PoemInfo)
    requires Segment(authorSlug) && Segment(titleSlug) && authorSlug != "static"
    ensures ServeApp(JsonStore.Upsert(db, allowed, author, authorSlug, titleSlug, info), allowed,
                     RouteApp(authorSlug + "/" + titleSlug)) == PoemShown(author, info.title, Markdown.MarkdownToHtml(info.poem))
  {
    SavedUrlRoutes(authorSlug, titleSlug);
  }

  /**
   * A poem saved under any other user id changes nothing `app.py` shows: with
   * `ALLOWED_USER_ID` set to "111,222", a poem saved by user 111 is never listed or served.
   */
  lemma OtherUsersAreNotShown(db: JsonStore.Db, allowed: string, user: string, author: string, authorSlug: string,
                              titleSlug: string, info: PoemInfo, p: Page)
    requires user != allowed
    ensures ServeApp(JsonStore.Upsert(db, user, author, authorSlug, titleSlug, info), allowed, p) == ServeApp(db, allowed, p)
  {
    assert JsonStore.AuthorsOf(JsonStore.Upsert(db, user, author, authorSlug, titleSlug, info), allowed) ==
           JsonStore.AuthorsOf(db, allowed);
  }
}
