/**
 * The relational poem store of api/utils/db_utils.py: three tables `users`, `authors` and
 * `poems` with SERIAL ids, foreign keys with ON DELETE CASCADE and the constraint
 * UNIQUE (author_id, title_slug). Each `with get_db_cursor()` block is one atomic step
 * on a `Tables` value; `slugify` is the parameter `slug` and the upload time `now`.
 */
module SqlStore {
  import opened Common
  import opened Text

  datatype UserRow = UserRow(id: nat, userId: string)
  datatype AuthorRow = AuthorRow(id: nat, user: nat, author: string, slug: string)
  /** A `poems` row: its id, `author_id`, `title_slug` and the remaining columns. */
  datatype PoemRow = PoemRow(id: nat, author: nat, titleSlug: string, info: PoemInfo)

  /** The three tables and the next value of each SERIAL sequence. */
  datatype Tables = Tables(users: seq<UserRow>, authors: seq<AuthorRow>, poems: seq<PoemRow>,
                           nextUser: nat, nextAuthor: nat, nextPoem: nat)

  /** `init_db()` on an empty database. */
  const Empty: Tables := Tables([], [], [], 1, 1, 1)

  function UserIds(users: seq<UserRow>): set<nat>
  {
    set u | u in users :: u.id
  }

  function AuthorIds(authors: seq<AuthorRow>): set<nat>
  {
    set a | a in authors :: a.id
  }

  // ---------------------------------------------------------------------------
  // The schema as an invariant

  /** Primary key below the sequence, `user_id` UNIQUE. */
  ghost predicate UsersValid(t: Tables)
  {
    && (forall u :: u in t.users ==> u.id < t.nextUser)
    && (forall u, v :: u in t.users && v in t.users && (u.id == v.id || u.userId == v.userId) ==> u == v)
  }

  /**
   * Every author refers to a user. The schema has no constraint on (user_id, author_slug),
   * but `ensure_author` never inserts a second row for a pair it finds, so the pair is
   * unique as well.
   */
  ghost predicate AuthorsValid(t: Tables)
  {
    && (forall a :: a in t.authors ==> a.id < t.nextAuthor && a.user in UserIds(t.users))
    && (forall a, b :: a in t.authors && b in t.authors && (a.id == b.id || (a.user == b.user && a.slug == b.slug)) ==> a == b)
  }

  /** Every poem refers to an author, and UNIQUE (author_id, title_slug). */
  ghost predicate PoemsValid(t: Tables)
  {
    && (forall p :: p in t.poems ==> p.id < t.nextPoem && p.author in AuthorIds(t.authors))
    && (forall p, q :: p in t.poems && q in t.poems && (p.id == q.id || (p.author == q.author && p.titleSlug == q.titleSlug)) ==> p == q)
  }

  ghost predicate Valid(t: Tables)
  {
    UsersValid(t) && AuthorsValid(t) && PoemsValid(t)
  }

  lemma EmptyValid()
    ensures Valid(Empty)
  {
  }

  // ---------------------------------------------------------------------------
  // `SELECT ... WHERE ...` with `fetchone()`: the first matching row

  function FindUser(users: seq<UserRow>, userId: string): (r: Option<UserRow>)
    ensures r.Some? ==> r.value in users && r.value.userId == userId
    ensures r.None? ==> forall u :: u in users ==> u.userId != userId
  {
    if users == [] then None
    else if users[0].userId == userId then Some(users[0])
    else FindUser(users[1..], userId)
  }

  function FindAuthor(authors: seq<AuthorRow>, user: nat, slug: string): (r: Option<AuthorRow>)
    ensures r.Some? ==> r.value in authors && r.value.user == user && r.value.slug == slug
    ensures r.None? ==> forall a :: a in authors ==> !(a.user == user && a.slug == slug)
  {
    if authors == [] then None
    else if authors[0].user == user && authors[0].slug == slug then Some(authors[0])
    else FindAuthor(authors[1..], user, slug)
  }

  function FindAuthorById(authors: seq<AuthorRow>, id: nat): (r: Option<AuthorRow>)
    ensures r.Some? ==> r.value in authors && r.value.id == id
    ensures r.None? ==> id !in AuthorIds(authors)
  {
    if authors == [] then None
    else if authors[0].id == id then Some(authors[0])
    else FindAuthorById(authors[1..], id)
  }

  function FindPoem(poems: seq<PoemRow>, author: nat, titleSlug: string): (r: Option<PoemRow>)
    ensures r.Some? ==> r.value in poems && r.value.author == author && r.value.titleSlug == titleSlug
    ensures r.None? ==> forall p :: p in poems ==> !(p.author == author && p.titleSlug == titleSlug)
  {
    if poems == [] then None
    else if poems[0].author == author && poems[0].titleSlug == titleSlug then Some(poems[0])
    else FindPoem(poems[1..], author, titleSlug)
  }

  lemma {:induction false} FindUserAppend(users: seq<UserRow>, row: UserRow)
    requires FindUser(users, row.userId).None?
    ensures FindUser(users + [row], row.userId) == Some(row)
    decreases |users|
  {
    if users == [] {
    } else {
      assert (users + [row])[1..] == users[1..] + [row];
      FindUserAppend(users[1..], row);
    }
  }

  lemma {:induction false} FindAuthorAppend(authors: seq<AuthorRow>, row: AuthorRow)
    requires FindAuthor(authors, row.user, row.slug).None?
    ensures FindAuthor(authors + [row], row.user, row.slug) == Some(row)
    decreases |authors|
  {
    if authors == [] {
    } else {
      assert (authors + [row])[1..] == authors[1..] + [row];
      FindAuthorAppend(authors[1..], row);
    }
  }

  lemma {:induction false} FindPoemAppend(poems: seq<PoemRow>, row: PoemRow)
    requires FindPoem(poems, row.author, row.titleSlug).None?
    ensures FindPoem(poems + [row], row.author, row.titleSlug) == Some(row)
    decreases |poems|
  {
    if poems == [] {
    } else {
      assert (poems + [row])[1..] == poems[1..] + [row];
      FindPoemAppend(poems[1..], row);
    }
  }

  // ---------------------------------------------------------------------------
  // `ensure_user`, `ensure_author` and the upsert of `upload_to_db`

  /**
   * `ensure_user(user_id)`: the id of the existing row, or of one new row. Afterwards the
   * lookup finds the user under the returned id.
   */
  function WithUser(t: Tables, userId: string): (r: (Tables, nat))
    ensures FindUser(r.0.users, userId) == Some(UserRow(r.1, userId))
    ensures r.0.authors == t.authors && r.0.poems == t.poems
    ensures r.0.nextAuthor == t.nextAuthor && r.0.nextPoem == t.nextPoem
    ensures FindUser(t.users, userId).Some? ==> r.0 == t
    ensures FindUser(t.users, userId).None? ==> r.0.users == t.users + [UserRow(t.nextUser, userId)]
  {
    match FindUser(t.users, userId)
    case Some(u) => (t, u.id)
    case None =>
      var row := UserRow(t.nextUser, userId);
      FindUserAppend(t.users, row);
      (t.(users := t.users + [row], nextUser := t.nextUser + 1), t.nextUser)
  }

  lemma WithUserValid(t: Tables, userId: string)
    requires Valid(t)
    ensures Valid(WithUser(t, userId).0)
  {
    var r := WithUser(t, userId).0;
    assert UserIds(t.users) <= UserIds(r.users);
  }

  /** Repeated calls return the same id and change nothing more. */
  lemma WithUserTwice(t: Tables, userId: string)
    ensures WithUser(WithUser(t, userId).0, userId) == WithUser(t, userId)
  {
  }

  /** The author rows with the display name of row `id` replaced by `name`. */
  function Rename(authors: seq<AuthorRow>, id: nat, name: string): (r: seq<AuthorRow>)
    ensures |r| == |authors|
    ensures forall i :: 0 <= i < |authors| ==> r[i] == if authors[i].id == id then authors[i].(author := name) else authors[i]
  {
    seq(|authors|, i requires 0 <= i < |authors| => if authors[i].id == id then authors[i].(author := name) else authors[i])
  }

  /**
   * `ensure_author(user_db_id, author_name)`: looks the author up by (user, slug); on a hit
   * it overwrites the display name of that row and of no other, on a miss it inserts one row.
   */
  function WithAuthor(t: Tables, user: nat, name: string, slug: string -> string): (r: (Tables, nat))
    ensures r.0.users == t.users && r.0.poems == t.poems
    ensures r.0.nextUser == t.nextUser && r.0.nextPoem == t.nextPoem
    ensures FindAuthor(t.authors, user, slug(name)).Some? ==>
      && r.1 == FindAuthor(t.authors, user, slug(name)).value.id
      && |r.0.authors| == |t.authors|
      && forall i :: 0 <= i < |t.authors| && t.authors[i].id != r.1 ==> r.0.authors[i] == t.authors[i]
    ensures FindAuthor(t.authors, user, slug(name)).None? ==>
      r.0.authors == t.authors + [AuthorRow(t.nextAuthor, user, name, slug(name))] && r.1 == t.nextAuthor
  {
    match FindAuthor(t.authors, user, slug(name))
    case Some(a) => (t.(authors := Rename(t.authors, a.id, name)), a.id)
    case None =>
      (t.(authors := t.authors + [AuthorRow(t.nextAuthor, user, name, slug(name))], nextAuthor := t.nextAuthor + 1),
       t.nextAuthor)
  }

  /** Afterwards the (user, slug) lookup finds the author under the returned id, with the new name. */
  lemma WithAuthorFinds(t: Tables, user: nat, name: string, slug: string -> string)
    requires AuthorsValid(t)
    ensures var r := WithAuthor(t, user, name, slug);
      FindAuthor(r.0.authors, user, slug(name)) == Some(AuthorRow(r.1, user, name, slug(name)))
  {
    var r := WithAuthor(t, user, name, slug);
    match FindAuthor(t.authors, user, slug(name))
    case None =>
      FindAuthorAppend(t.authors, AuthorRow(t.nextAuthor, user, name, slug(name)));
    case Some(a) =>
      var k :| 0 <= k < |t.authors| && t.authors[k] == a;
      var renamed := a.(author := name);
      assert r.0.authors[k] == renamed;
      forall b | b in r.0.authors && b.user == user && b.slug == slug(name)
        ensures b == renamed
      {
        var i :| 0 <= i < |r.0.authors| && r.0.authors[i] == b;
        assert t.authors[i] == a;
      }
  }

  lemma WithAuthorValid(t: Tables, user: nat, name: string, slug: string -> string)
    requires Valid(t) && user in UserIds(t.users)
    ensures Valid(WithAuthor(t, user, name, slug).0)
  {
    match FindAuthor(t.authors, user, slug(name))
    case None =>
      var r := WithAuthor(t, user, name, slug).0;
      assert AuthorIds(t.authors) <= AuthorIds(r.authors);
    case Some(a) =>
      RenameValid(t, a.id, name);
  }

  /** Renaming keeps ids, users and slugs row by row, hence the schema. */
  lemma RenameValid(t: Tables, id: nat, name: string)
    requires Valid(t)
    ensures Valid(t.(authors := Rename(t.authors, id, name)))
  {
    var r := t.(authors := Rename(t.authors, id, name));
    RenameRows(t.authors, id, name);
    RenameIds(t.authors, id, name);
    forall a | a in r.authors
      ensures a.id < r.nextAuthor && a.user in UserIds(r.users)
    {
      var a0 :| a0 in t.authors && a == if a0.id == id then a0.(author := name) else a0;
    }
    forall a, b | a in r.authors && b in r.authors && (a.id == b.id || (a.user == b.user && a.slug == b.slug))
      ensures a == b
    {
      var a0 :| a0 in t.authors && a == if a0.id == id then a0.(author := name) else a0;
      var b0 :| b0 in t.authors && b == if b0.id == id then b0.(author := name) else b0;
      assert a0 == b0;
    }
    assert UsersValid(r) && PoemsValid(r);
  }

  lemma RenameRows(authors: seq<AuthorRow>, id: nat, name: string)
    ensures forall a :: a in Rename(authors, id, name) ==>
      exists b :: b in authors && a == if b.id == id then b.(author := name) else b
  {
    var r := Rename(authors, id, name);
    forall a | a in r
      ensures exists b :: b in authors && a == if b.id == id then b.(author := name) else b
    {
      var i :| 0 <= i < |r| && r[i] == a;
      assert authors[i] in authors;
    }
  }

  lemma RenameIds(authors: seq<AuthorRow>, id: nat, name: string)
    ensures AuthorIds(Rename(authors, id, name)) == AuthorIds(authors)
  {
    var r := Rename(authors, id, name);
    forall x | x in AuthorIds(authors) ensures x in AuthorIds(r)
    {
      var i :| 0 <= i < |authors| && authors[i].id == x;
      assert r[i] in r;
    }
    forall x | x in AuthorIds(r) ensures x in AuthorIds(authors)
    {
      var i :| 0 <= i < |r| && r[i].id == x;
      assert authors[i] in authors;
    }
  }

  /** The poem rows with the updatable columns of row `id` replaced by `info`. */
  function Replace(poems: seq<PoemRow>, id: nat, info: PoemInfo): (r: seq<PoemRow>)
    ensures |r| == |poems|
    ensures forall i :: 0 <= i < |poems| ==> r[i] == if poems[i].id == id then poems[i].(info := info) else poems[i]
  {
    seq(|poems|, i requires 0 <= i < |poems| => if poems[i].id == id then poems[i].(info := info) else poems[i])
  }

  /**
   * `INSERT ... ON CONFLICT (author_id, title_slug) DO UPDATE`: a poem with the same title
   * slug under the same author gets the new title, text, URL, request id and time and no
   * row is added; otherwise one row is inserted.
   */
  function WithPoem(t: Tables, author: nat, titleSlug: string, info: PoemInfo): (r: Tables)
    ensures r.users == t.users && r.authors == t.authors
    ensures r.nextUser == t.nextUser && r.nextAuthor == t.nextAuthor
    ensures FindPoem(t.poems, author, titleSlug).Some? ==>
      && |r.poems| == |t.poems|
      && forall i :: 0 <= i < |t.poems| && t.poems[i].id != FindPoem(t.poems, author, titleSlug).value.id ==> r.poems[i] == t.poems[i]
    ensures FindPoem(t.poems, author, titleSlug).None? ==>
      r.poems == t.poems + [PoemRow(t.nextPoem, author, titleSlug, info)]
  {
    match FindPoem(t.poems, author, titleSlug)
    case Some(p) => t.(poems := Replace(t.poems, p.id, info))
    case None => t.(poems := t.poems + [PoemRow(t.nextPoem, author, titleSlug, info)], nextPoem := t.nextPoem + 1)
  }

  lemma WithPoemFinds(t: Tables, author: nat, titleSlug: string, info: PoemInfo)
    requires PoemsValid(t)
    ensures var p := FindPoem(WithPoem(t, author, titleSlug, info).poems, author, titleSlug);
      p.Some? && p.value.info == info
  {
    var r := WithPoem(t, author, titleSlug, info);
    match FindPoem(t.poems, author, titleSlug)
    case None =>
      FindPoemAppend(t.poems, PoemRow(t.nextPoem, author, titleSlug, info));
    case Some(p) =>
      var k :| 0 <= k < |t.poems| && t.poems[k] == p;
      var updated := p.(info := info);
      assert r.poems[k] == updated;
      forall q | q in r.poems && q.author == author && q.titleSlug == titleSlug
        ensures q == updated
      {
        var i :| 0 <= i < |r.poems| && r.poems[i] == q;
        assert t.poems[i] == p;
      }
  }

  lemma WithPoemValid(t: Tables, author: nat, titleSlug: string, info: PoemInfo)
    requires Valid(t) && author in AuthorIds(t.authors)
    ensures Valid(WithPoem(t, author, titleSlug, info))
  {
    match FindPoem(t.poems, author, titleSlug)
    case None =>
    case Some(p) =>
      ReplaceValid(t, p.id, info);
  }

  /** Replacing the updatable columns keeps ids, authors and title slugs row by row, hence the schema. */
  lemma ReplaceValid(t: Tables, id: nat, info: PoemInfo)
    requires Valid(t)
    ensures Valid(t.(poems := Replace(t.poems, id, info)))
  {
    var r := t.(poems := Replace(t.poems, id, info));
    ReplaceRows(t.poems, id, info);
    forall p | p in r.poems
      ensures p.id < r.nextPoem && p.author in AuthorIds(r.authors)
    {
      var p0 :| p0 in t.poems && p == if p0.id == id then p0.(info := info) else p0;
    }
    forall p, q | p in r.poems && q in r.poems && (p.id == q.id || (p.author == q.author && p.titleSlug == q.titleSlug))
      ensures p == q
    {
      var p0 :| p0 in t.poems && p == if p0.id == id then p0.(info := info) else p0;
      var q0 :| q0 in t.poems && q == if q0.id == id then q0.(info := info) else q0;
      assert p0 == q0;
    }
    assert UsersValid(r) && AuthorsValid(r);
  }

  lemma ReplaceRows(poems: seq<PoemRow>, id: nat, info: PoemInfo)
    ensures forall p :: p in Replace(poems, id, info) ==>
      exists q :: q in poems && p == if q.id == id then q.(info := info) else q
  {
    var r := Replace(poems, id, info);
    forall p | p in r
      ensures exists q :: q in poems && p == if q.id == id then q.(info := info) else q
    {
      var i :| 0 <= i < |r| && r[i] == p;
      assert poems[i] in poems;
    }
  }

  // ---------------------------------------------------------------------------
  // `upload_to_db`

  /** The URL path of a poem: without prefix for the main user, under `id/<user>` otherwise. */
  function PoemUrl(mainUserId: string, user: string, authorSlug: string, titleSlug: string): string
  {
    if user == mainUserId then authorSlug + "/" + titleSlug
    else "id/" + user + "/" + authorSlug + "/" + titleSlug
  }

  /**
   * The three steps of `upload_to_db` once its checks have passed, each one a transaction of
   * its own: `ensure_user`, `ensure_author`, then the upsert. Returns the tables and the URL.
   */
  function Uploaded(t: Tables, mainUserId: string, user: string, author: string, title: string, text: string,
                    requestId: string, slug: string -> string, now: string): (r: (Tables, string))
  {
    var (t1, userDbId) := WithUser(t, user);
    var (t2, authorDbId) := WithAuthor(t1, userDbId, author, slug);
    var url := PoemUrl(mainUserId, user, slug(author), slug(title));
    (WithPoem(t2, authorDbId, slug(title), PoemInfo(title, text, requestId, now, url)), url)
  }

  lemma UploadedValid(t: Tables, mainUserId: string, user: string, author: string, title: string, text: string,
                      requestId: string, slug: string -> string, now: string)
    requires Valid(t)
    ensures Valid(Uploaded(t, mainUserId, user, author, title, text, requestId, slug, now).0)
  {
    var (t1, userDbId) := WithUser(t, user);
    WithUserValid(t, user);
    var (t2, authorDbId) := WithAuthor(t1, userDbId, author, slug);
    WithAuthorValid(t1, userDbId, author, slug);
    WithAuthorFinds(t1, userDbId, author, slug);
    var url := PoemUrl(mainUserId, user, slug(author), slug(title));
    WithPoemValid(t2, authorDbId, slug(title), PoemInfo(title, text, requestId, now, url));
  }

  /** After an upload, `get_poem` with the two slugs finds exactly the record just written. */
  lemma UploadThenGetPoem(t: Tables, mainUserId: string, user: string, author: string, title: string, text: string,
                          requestId: string, slug: string -> string, now: string)
    requires Valid(t)
    ensures var (r, url) := Uploaded(t, mainUserId, user, author, title, text, requestId, slug, now);
      GetPoem(r, user, slug(author), slug(title)) == Some(PoemView(author, PoemInfo(title, text, requestId, now, url)))
  {
    var (t1, userDbId) := WithUser(t, user);
    WithUserValid(t, user);
    var (t2, authorDbId) := WithAuthor(t1, userDbId, author, slug);
    WithAuthorValid(t1, userDbId, author, slug);
    WithAuthorFinds(t1, userDbId, author, slug);
    var url := PoemUrl(mainUserId, user, slug(author), slug(title));
    WithPoemFinds(t2, authorDbId, slug(title), PoemInfo(title, text, requestId, now, url));
  }

  /**
   * Uploading again under the same user, author slug and title slug overwrites: no user,
   * author or poem row is added.
   */
  lemma UploadAgainAddsNothing(t: Tables, mainUserId: string, user: string, author: string, title: string, text: string,
                               requestId: string, author2: string, title2: string, text2: string, requestId2: string,
                               slug: string -> string, now: string, now2: string)
    requires Valid(t) && slug(author2) == slug(author) && slug(title2) == slug(title)
    ensures var r1 := Uploaded(t, mainUserId, user, author, title, text, requestId, slug, now).0;
      var r2 := Uploaded(r1, mainUserId, user, author2, title2, text2, requestId2, slug, now2).0;
      |r2.users| == |r1.users| && |r2.authors| == |r1.authors| && |r2.poems| == |r1.poems|
  {
    var r1 := Uploaded(t, mainUserId, user, author, title, text, requestId, slug, now).0;
    UploadedValid(t, mainUserId, user, author, title, text, requestId, slug, now);
    UploadThenGetPoem(t, mainUserId, user, author, title, text, requestId, slug, now);
    var (t1, userDbId) := WithUser(r1, user);
    assert t1 == r1;
    assert FindAuthor(t1.authors, userDbId, slug(author2)).Some?;
    var (t2, authorDbId) := WithAuthor(t1, userDbId, author2, slug);
    WithAuthorValid(t1, userDbId, author2, slug);
    assert FindPoem(t2.poems, authorDbId, slug(title2)).Some?;
  }

  // ---------------------------------------------------------------------------
  // Queries

  /** The row `get_poem` returns: the author's name and the poem's columns. */
  datatype PoemView = PoemView(author: string, info: PoemInfo)

  /** The join condition of `get_poem`. */
  ghost predicate Joins(u: UserRow, a: AuthorRow, p: PoemRow, userId: string, authorSlug: string, titleSlug: string)
  {
    u.userId == userId && a.user == u.id && a.slug == authorSlug && p.author == a.id && p.titleSlug == titleSlug
  }

  /**
   * `get_poem(user_id, author_slug, title_slug)`: a result is always a joined triple of rows
   * matching all three keys; otherwise None.
   */
  function GetPoem(t: Tables, userId: string, authorSlug: string, titleSlug: string): (r: Option<PoemView>)
    ensures r.Some? ==> (exists u, a, p :: u in t.users && a in t.authors && p in t.poems &&
                                          Joins(u, a, p, userId, authorSlug, titleSlug) && r.value == PoemView(a.author, p.info))
  {
    match FindUser(t.users, userId)
    case None => None
    case Some(u) =>
      match FindAuthor(t.authors, u.id, authorSlug)
      case None => None
      case Some(a) =>
        match FindPoem(t.poems, a.id, titleSlug)
        case None => None
        case Some(p) => Some(PoemView(a.author, p.info))
  }

  /** On valid tables the lookup is exactly the join: it finds a poem iff a matching triple exists. */
  lemma GetPoemIsJoin(t: Tables, userId: string, authorSlug: string, titleSlug: string, u: UserRow, a: AuthorRow, p: PoemRow)
    requires Valid(t)
    requires u in t.users && a in t.authors && p in t.poems && Joins(u, a, p, userId, authorSlug, titleSlug)
    ensures GetPoem(t, userId, authorSlug, titleSlug) == Some(PoemView(a.author, p.info))
  {
  }

  // ---------------------------------------------------------------------------
  // Deletes: `DELETE FROM ... WHERE id = ...` and ON DELETE CASCADE

  /** The rows of `s` that `keep` accepts, in order. */
  function Filter<T(!new)>(s: seq<T>, keep: T -> bool): (r: seq<T>)
    ensures forall x :: x in r <==> x in s && keep(x)
  {
    if s == [] then []
    else if keep(s[0]) then [s[0]] + Filter(s[1..], keep)
    else Filter(s[1..], keep)
  }

  /** A filter that keeps every row deletes nothing. */
  lemma {:induction false} FilterKeepsAll<T(!new)>(s: seq<T>, keep: T -> bool)
    requires forall x :: x in s ==> keep(x)
    ensures Filter(s, keep) == s
    decreases |s|
  {
    if s != [] {
      FilterKeepsAll(s[1..], keep);
    }
  }

  /** Deleting the author row `id`: its poems go with it. */
  function CascadeAuthor(t: Tables, id: nat): Tables
  {
    t.(authors := Filter(t.authors, (a: AuthorRow) => a.id != id),
       poems := Filter(t.poems, (p: PoemRow) => p.author != id))
  }

  /** Deleting the user row `id`: its authors go with it, and their poems with them. */
  function CascadeUser(t: Tables, id: nat): Tables
  {
    var gone := set a | a in t.authors && a.user == id :: a.id;
    t.(users := Filter(t.users, (u: UserRow) => u.id != id),
       authors := Filter(t.authors, (a: AuthorRow) => a.user != id),
       poems := Filter(t.poems, (p: PoemRow) => p.author !in gone))
  }

  /** `delete_user_db(user_id)`: nothing when the user is absent. */
  function WithoutUser(t: Tables, userId: string): (r: Tables)
    ensures FindUser(t.users, userId).None? ==> r == t
  {
    match FindUser(t.users, userId)
    case None => t
    case Some(u) => CascadeUser(t, u.id)
  }

  /** `delete_author_db(user_id, author)` with `authorSlug` for `slugify(author)`. */
  function WithoutAuthor(t: Tables, userId: string, authorSlug: string): (r: Tables)
    ensures FindUser(t.users, userId).None? ==> r == t
    ensures r.users == t.users
  {
    match FindUser(t.users, userId)
    case None => t
    case Some(u) =>
      match FindAuthor(t.authors, u.id, authorSlug)
      case None => t
      case Some(a) => CascadeAuthor(t, a.id)
  }

  /** `delete_poem_db(user_id, author, title)` with the two slugs. */
  function WithoutPoem(t: Tables, userId: string, authorSlug: string, titleSlug: string): (r: Tables)
    ensures r.users == t.users && r.authors == t.authors
  {
    match FindUser(t.users, userId)
    case None => t
    case Some(u) =>
      match FindAuthor(t.authors, u.id, authorSlug)
      case None => t
      case Some(a) => t.(poems := Filter(t.poems, (p: PoemRow) => !(p.author == a.id && p.titleSlug == titleSlug)))
  }

  /** Deleting a missing poem leaves every table as it was. */
  lemma WithoutMissingPoem(t: Tables, userId: string, authorSlug: string, titleSlug: string)
    requires GetPoem(t, userId, authorSlug, titleSlug).None?
    ensures WithoutPoem(t, userId, authorSlug, titleSlug) == t
  {
    match FindUser(t.users, userId)
    case None =>
    case Some(u) =>
      match FindAuthor(t.authors, u.id, authorSlug)
      case None =>
      case Some(a) =>
        FilterKeepsAll(t.poems, (p: PoemRow) => !(p.author == a.id && p.titleSlug == titleSlug));
  }

  /** Deleting a user keeps the schema: no author or poem is left without its parent row. */
  lemma WithoutUserValid(t: Tables, userId: string)
    requires Valid(t)
    ensures Valid(WithoutUser(t, userId))
  {
    var r := WithoutUser(t, userId);
    if u :| u in t.users && u.userId == userId {
      forall a | a in r.authors ensures a.user in UserIds(r.users)
      {
        var v :| v in t.users && v.id == a.user;
        assert v in r.users;
      }
      forall p | p in r.poems ensures p.author in AuthorIds(r.authors)
      {
        var a :| a in t.authors && a.id == p.author;
        assert a in r.authors;
      }
    }
  }

  /** Deleting an author keeps the schema: its poems go with it. */
  lemma WithoutAuthorValid(t: Tables, userId: string, authorSlug: string)
    requires Valid(t)
    ensures Valid(WithoutAuthor(t, userId, authorSlug))
  {
    var r := WithoutAuthor(t, userId, authorSlug);
    forall p | p in r.poems ensures p.author in AuthorIds(r.authors)
    {
      var a :| a in t.authors && a.id == p.author;
      assert a in r.authors;
    }
  }

  lemma WithoutPoemValid(t: Tables, userId: string, authorSlug: string, titleSlug: string)
    requires Valid(t)
    ensures Valid(WithoutPoem(t, userId, authorSlug, titleSlug))
  {
  }

  /**
   * What each delete leaves: the target is gone, and every other poem keeps the result its
   * `get_poem` lookup had.
   */
  lemma WithoutUserEffect(t: Tables, userId: string, other: string, authorSlug: string, titleSlug: string)
    requires Valid(t)
    ensures GetPoem(WithoutUser(t, userId), userId, authorSlug, titleSlug).None?
    ensures other != userId ==>
      GetPoem(WithoutUser(t, userId), other, authorSlug, titleSlug) == GetPoem(t, other, authorSlug, titleSlug)
  {
    var r := WithoutUser(t, userId);
    WithoutUserValid(t, userId);
    if other != userId {
      GetPoemSame(t, r, other, authorSlug, titleSlug);
    }
  }

  lemma WithoutAuthorEffect(t: Tables, userId: string, authorSlug: string, other: string, otherSlug: string, titleSlug: string)
    requires Valid(t)
    ensures GetPoem(WithoutAuthor(t, userId, authorSlug), userId, authorSlug, titleSlug).None?
    ensures GetPoemsByAuthor(WithoutAuthor(t, userId, authorSlug), userId, authorSlug).None?
    ensures (other, otherSlug) != (userId, authorSlug) ==>
      GetPoem(WithoutAuthor(t, userId, authorSlug), other, otherSlug, titleSlug) == GetPoem(t, other, otherSlug, titleSlug)
  {
    var r := WithoutAuthor(t, userId, authorSlug);
    WithoutAuthorValid(t, userId, authorSlug);
    if (other, otherSlug) != (userId, authorSlug) {
      GetPoemSame(t, r, other, otherSlug, titleSlug);
    }
  }

  lemma WithoutPoemEffect(t: Tables, userId: string, authorSlug: string, titleSlug: string,
                          other: string, otherSlug: string, otherTitle: string)
    requires Valid(t)
    ensures GetPoem(WithoutPoem(t, userId, authorSlug, titleSlug), userId, authorSlug, titleSlug).None?
    ensures (other, otherSlug, otherTitle) != (userId, authorSlug, titleSlug) ==>
      GetPoem(WithoutPoem(t, userId, authorSlug, titleSlug), other, otherSlug, otherTitle) == GetPoem(t, other, otherSlug, otherTitle)
  {
    var r := WithoutPoem(t, userId, authorSlug, titleSlug);
    WithoutPoemValid(t, userId, authorSlug, titleSlug);
    if (other, otherSlug, otherTitle) != (userId, authorSlug, titleSlug) {
      GetPoemSame(t, r, other, otherSlug, otherTitle);
    }
  }

  /**
   * Two valid states whose rows joining under these keys are the same (every joined triple of
   * `r` is one of `t`, and the other way round) give the same `get_poem` result.
   */
  lemma GetPoemSame(t: Tables, r: Tables, userId: string, authorSlug: string, titleSlug: string)
    requires Valid(t) && Valid(r)
    requires forall u, a, p :: u in r.users && a in r.authors && p in r.poems && Joins(u, a, p, userId, authorSlug, titleSlug) ==>
      u in t.users && a in t.authors && p in t.poems
    requires forall u, a, p :: u in t.users && a in t.authors && p in t.poems && Joins(u, a, p, userId, authorSlug, titleSlug) ==>
      u in r.users && a in r.authors && p in r.poems
    ensures GetPoem(r, userId, authorSlug, titleSlug) == GetPoem(t, userId, authorSlug, titleSlug)
  {
    var g := GetPoem(t, userId, authorSlug, titleSlug);
    if g.Some? {
      var u, a, p :| u in t.users && a in t.authors && p in t.poems &&
                     Joins(u, a, p, userId, authorSlug, titleSlug) && g.value == PoemView(a.author, p.info);
      GetPoemIsJoin(r, userId, authorSlug, titleSlug, u, a, p);
    } else {
      var h := GetPoem(r, userId, authorSlug, titleSlug);
      if h.Some? {
        var u, a, p :| u in r.users && a in r.authors && p in r.poems &&
                       Joins(u, a, p, userId, authorSlug, titleSlug) && h.value == PoemView(a.author, p.info);
        GetPoemIsJoin(t, userId, authorSlug, titleSlug, u, a, p);
      }
    }
  }

  // ---------------------------------------------------------------------------
  // `get_poems_by_author`

  /** The `{title_slug: {...}}` comprehension over an author's rows: a later row wins. */
  function PoemsOfAuthor(poems: seq<PoemRow>, author: nat): (m: map<string, PoemInfo>)
    ensures forall p :: p in poems && p.author == author ==> p.titleSlug in m
    ensures forall k :: k in m ==> exists p :: p in poems && p.author == author && p.titleSlug == k && m[k] == p.info
    decreases |poems|
  {
    if poems == [] then map[]
    else
      var m := PoemsOfAuthor(poems[..|poems| - 1], author);
      var p := poems[|poems| - 1];
      assert forall q :: q in poems ==> q in poems[..|poems| - 1] || q == p;
      if p.author == author then m[p.titleSlug := p.info] else m
  }

  /**
   * `get_poems_by_author(user_id, author_slug)`: None when the user or the author is
   * missing; otherwise a one-key map holding the author's name and poems, which may be none.
   */
  function GetPoemsByAuthor(t: Tables, userId: string, authorSlug: string): (r: Option<Authors>)
    ensures r.Some? ==> r.value.Keys == {authorSlug}
  {
    match FindUser(t.users, userId)
    case None => None
    case Some(u) =>
      match FindAuthor(t.authors, u.id, authorSlug)
      case None => None
      case Some(a) => Some(map[authorSlug := AuthorEntry(a.author, PoemsOfAuthor(t.poems, a.id))])
  }

  /**
   * On valid tables: a result exists iff the user has an author row with that slug, and it
   * holds that row's name and exactly its poems, each under its title slug.
   */
  lemma GetPoemsByAuthorContents(t: Tables, userId: string, authorSlug: string)
    requires Valid(t)
    ensures GetPoemsByAuthor(t, userId, authorSlug).Some? <==>
      exists u, a :: u in t.users && a in t.authors && u.userId == userId && a.user == u.id && a.slug == authorSlug
    ensures forall u, a :: u in t.users && a in t.authors && u.userId == userId && a.user == u.id && a.slug == authorSlug ==>
      var e := GetPoemsByAuthor(t, userId, authorSlug).value[authorSlug];
      && e.author == a.author
      && (forall p :: p in t.poems && p.author == a.id ==> p.titleSlug in e.poems && e.poems[p.titleSlug] == p.info)
      && (forall k :: k in e.poems ==> exists p :: p in t.poems && p.author == a.id && p.titleSlug == k)
  {
  }

  // ---------------------------------------------------------------------------
  // `get_poems_by_user`

  /** A row of the `authors JOIN poems` query. */
  datatype JoinedRow = JoinedRow(authorSlug: string, author: string, titleSlug: string, info: PoemInfo)

  /** The rows of the query for the user row `user`, one per poem of one of its authors. */
  function UserRows(authors: seq<AuthorRow>, poems: seq<PoemRow>, user: nat): (rows: seq<JoinedRow>)
    ensures forall r :: r in rows ==> exists a, p :: a in authors && p in poems && a.user == user && p.author == a.id &&
                                                   r == JoinedRow(a.slug, a.author, p.titleSlug, p.info)
  {
    if poems == [] then []
    else
      var rest := UserRows(authors, poems[1..], user);
      match FindAuthorById(authors, poems[0].author)
      case Some(a) => if a.user == user then [JoinedRow(a.slug, a.author, poems[0].titleSlug, poems[0].info)] + rest else rest
      case None => rest
  }

  /** With unique author ids, every poem of every author of the user yields a row. */
  lemma {:induction false} UserRowsComplete(authors: seq<AuthorRow>, poems: seq<PoemRow>, user: nat, a: AuthorRow, p: PoemRow)
    requires forall b, c :: b in authors && c in authors && b.id == c.id ==> b == c
    requires a in authors && p in poems && a.user == user && p.author == a.id
    ensures JoinedRow(a.slug, a.author, p.titleSlug, p.info) in UserRows(authors, poems, user)
    decreases |poems|
  {
    if poems[0] != p {
      UserRowsComplete(authors, poems[1..], user, a, p);
    }
  }

  /** The grouping loop: each row goes under its author slug, the first row fixing the name. */
  function GroupRows(rows: seq<JoinedRow>): (m: Authors)
    decreases |rows|
  {
    if rows == [] then map[]
    else
      var m := GroupRows(rows[..|rows| - 1]);
      var r := rows[|rows| - 1];
      var e := if r.authorSlug in m then m[r.authorSlug] else AuthorEntry(r.author, map[]);
      m[r.authorSlug := e.(poems := e.poems[r.titleSlug := r.info])]
  }

  /** Rows agreeing on (author slug, title slug) agree on everything. */
  ghost predicate KeyedRows(rows: seq<JoinedRow>)
  {
    forall x, y :: x in rows && y in rows && x.authorSlug == y.authorSlug ==>
      x.author == y.author && (x.titleSlug == y.titleSlug ==> x == y)
  }

  /** The grouping has one entry per author slug of the rows. */
  lemma {:induction false} GroupRowsKeys(rows: seq<JoinedRow>)
    ensures forall s :: s in GroupRows(rows) <==> exists r :: r in rows && r.authorSlug == s
    decreases |rows|
  {
    if rows != [] {
      var front := rows[..|rows| - 1];
      assert forall r :: r in rows <==> r in front || r == rows[|rows| - 1];
      GroupRowsKeys(front);
    }
  }

  /** Each title slug under an author slug comes from a row with those two slugs. */
  lemma {:induction false} GroupRowsFromRows(rows: seq<JoinedRow>)
    ensures forall s, k :: s in GroupRows(rows) && k in GroupRows(rows)[s].poems ==>
      exists r :: r in rows && r.authorSlug == s && r.titleSlug == k
    decreases |rows|
  {
    if rows != [] {
      var front := rows[..|rows| - 1];
      assert forall r :: r in front ==> r in rows;
      GroupRowsFromRows(front);
    }
  }

  /** With keyed rows, every row's record and author name are found under its two slugs. */
  lemma {:induction false} GroupRowsStores(rows: seq<JoinedRow>)
    requires KeyedRows(rows)
    ensures forall r :: r in rows ==>
      (&& r.authorSlug in GroupRows(rows)
       && var e := GroupRows(rows)[r.authorSlug];
          e.author == r.author && r.titleSlug in e.poems && e.poems[r.titleSlug] == r.info)
    decreases |rows|
  {
    if rows != [] {
      var front := rows[..|rows| - 1];
      var last := rows[|rows| - 1];
      assert forall r :: r in rows <==> r in front || r == last;
      GroupRowsStores(front);
      GroupRowsKeys(front);
    }
  }

  /** `get_poems_by_user(user_id)` as a value: the empty map for an unknown user. */
  function PoemsByUser(t: Tables, userId: string): Authors
  {
    match FindUser(t.users, userId)
    case None => map[]
    case Some(u) => GroupRows(UserRows(t.authors, t.poems, u.id))
  }

  /**
   * On valid tables the result has one entry per author of the user that has at least one
   * poem (an author without poems is left out by the inner join), with that author's name
   * and exactly its poems.
   */
  lemma PoemsByUserContents(t: Tables, userId: string)
    requires Valid(t)
    ensures var m := PoemsByUser(t, userId);
      && (forall s :: s in m <==> exists u, a, p :: u in t.users && a in t.authors && p in t.poems &&
                                   u.userId == userId && a.user == u.id && a.slug == s && p.author == a.id)
      && (forall u, a, p ::
            (u in t.users && a in t.authors && p in t.poems && u.userId == userId && a.user == u.id && p.author == a.id) ==>
              (m[a.slug].author == a.author && p.titleSlug in m[a.slug].poems && m[a.slug].poems[p.titleSlug] == p.info))
      && (forall s, k :: s in m && k in m[s].poems ==>
            (exists u, a, p :: u in t.users && a in t.authors && p in t.poems &&
                               u.userId == userId && a.user == u.id && a.slug == s && p.author == a.id && p.titleSlug == k))
  {
    PoemsByUserStores(t, userId);
    PoemsByUserKeys(t, userId);
    PoemsByUserOrigins(t, userId);
  }

  /** Every poem of every author of the user is found, with the author's name. */
  lemma PoemsByUserStores(t: Tables, userId: string)
    requires Valid(t)
    ensures var m := PoemsByUser(t, userId);
      forall u, a, p ::
        (u in t.users && a in t.authors && p in t.poems && u.userId == userId && a.user == u.id && p.author == a.id) ==>
          (a.slug in m && m[a.slug].author == a.author && p.titleSlug in m[a.slug].poems && m[a.slug].poems[p.titleSlug] == p.info)
  {
    match FindUser(t.users, userId)
    case None =>
    case Some(u) =>
      var rows := UserRows(t.authors, t.poems, u.id);
      assert KeyedRows(rows);
      GroupRowsStores(rows);
      forall a, p | a in t.authors && p in t.poems && a.user == u.id && p.author == a.id
        ensures JoinedRow(a.slug, a.author, p.titleSlug, p.info) in rows
      {
        UserRowsComplete(t.authors, t.poems, u.id, a, p);
      }
  }

  /** The keys of the result are exactly the slugs of the user's authors that have a poem. */
  lemma PoemsByUserKeys(t: Tables, userId: string)
    requires Valid(t)
    ensures var m := PoemsByUser(t, userId);
      forall s :: s in m ==> exists u, a, p :: u in t.users && a in t.authors && p in t.poems &&
                                  u.userId == userId && a.user == u.id && a.slug == s && p.author == a.id
  {
    match FindUser(t.users, userId)
    case None =>
    case Some(u) =>
      var rows := UserRows(t.authors, t.poems, u.id);
      GroupRowsKeys(rows);
      forall s | s in GroupRows(rows)
        ensures exists a, p :: a in t.authors && p in t.poems && a.user == u.id && a.slug == s && p.author == a.id
      {
        var r :| r in rows && r.authorSlug == s;
        var a, p :| a in t.authors && p in t.poems && a.user == u.id && p.author == a.id &&
                    r == JoinedRow(a.slug, a.author, p.titleSlug, p.info);
      }
  }

  /** Every title under an author slug is a poem of that author of the user. */
  lemma PoemsByUserOrigins(t: Tables, userId: string)
    requires Valid(t)
    ensures var m := PoemsByUser(t, userId);
      forall s, k :: s in m && k in m[s].poems ==>
        exists u, a, p :: u in t.users && a in t.authors && p in t.poems &&
                          u.userId == userId && a.user == u.id && a.slug == s && p.author == a.id && p.titleSlug == k
  {
    match FindUser(t.users, userId)
    case None =>
    case Some(u) =>
      var rows := UserRows(t.authors, t.poems, u.id);
      GroupRowsFromRows(rows);
      forall s, k | s in GroupRows(rows) && k in GroupRows(rows)[s].poems
        ensures exists a, p :: a in t.authors && p in t.poems && a.user == u.id && a.slug == s && p.author == a.id && p.titleSlug == k
      {
        var r :| r in rows && r.authorSlug == s && r.titleSlug == k;
        var a, p :| a in t.authors && p in t.poems && a.user == u.id && p.author == a.id &&
                    r == JoinedRow(a.slug, a.author, p.titleSlug, p.info);
      }
  }

  // ---------------------------------------------------------------------------
  // The database as an object: each method is one or more transactions on `tables`

  class Database {
    var tables: Tables

    /** A freshly initialised database. */
    constructor()
      ensures tables == Empty
    {
      tables := Empty;
    }

    /** `ensure_user(user_id)`. */
    method EnsureUser(userId: string) returns (id: nat)
      requires Valid(tables)
      modifies this
      ensures (tables, id) == WithUser(old(tables), userId)
      ensures Valid(tables)
    {
      WithUserValid(tables, userId);
      var found := FindUser(tables.users, userId);
      if found.Some? {
        return found.value.id;
      }
      id := tables.nextUser;
      FindUserAppend(tables.users, UserRow(id, userId));
      tables := tables.(users := tables.users + [UserRow(id, userId)], nextUser := id + 1);
    }

    /** `ensure_author(user_db_id, author_name)`. */
    method EnsureAuthor(user: nat, name: string, slug: string -> string) returns (id: nat)
      requires Valid(tables) && user in UserIds(tables.users)
      modifies this
      ensures (tables, id) == WithAuthor(old(tables), user, name, slug)
      ensures Valid(tables)
    {
      WithAuthorValid(tables, user, name, slug);
      var authorSlug := slug(name);
      var found := FindAuthor(tables.authors, user, authorSlug);
      if found.Some? {
        id := found.value.id;
        tables := tables.(authors := Rename(tables.authors, id, name));
        return;
      }
      id := tables.nextAuthor;
      tables := tables.(authors := tables.authors + [AuthorRow(id, user, name, authorSlug)], nextAuthor := id + 1);
    }

    /**
     * `upload_to_db(poem_dict)`. A missing or empty main user id raises RuntimeError and an
     * empty `str(user_id)` raises ValueError, both before any table is touched; otherwise the
     * stripped fields (author and title default to "Unknown", text and request id to "")
     * go through `ensure_user`, `ensure_author` and the upsert, and the poem's URL is returned.
     */
    method UploadToDb(mainUserId: Option<string>, userId: Option<string>, author: Option<string>, title: Option<string>,
                      text: Option<string>, requestId: Option<string>, slug: string -> string, now: string)
      returns (r: Result<string>)
      requires Valid(tables)
      modifies this
      ensures Valid(tables)
      ensures (mainUserId.None? || mainUserId.value == []) ==>
        r == Err(RuntimeError("MAIN_USER_ID is not set in environment variables.")) && tables == old(tables)
      ensures (mainUserId.Some? && mainUserId.value != [] && UserKey(userId) == []) ==>
        r == Err(ValueError("Missing required field: user_id")) && tables == old(tables)
      ensures (mainUserId.Some? && mainUserId.value != [] && UserKey(userId) != []) ==>
        var up := Uploaded(old(tables), mainUserId.value, UserKey(userId), Strip(GetOr(author, "Unknown")),
                           Strip(GetOr(title, "Unknown")), Strip(GetOr(text, [])), Strip(GetOr(requestId, [])), slug, now);
        tables == up.0 && r == Ok(up.1)
    {
      if mainUserId.None? || mainUserId.value == [] {
        return Err(RuntimeError("MAIN_USER_ID is not set in environment variables."));
      }
      var user := UserKey(userId);
      if user == [] {
        return Err(ValueError("Missing required field: user_id"));
      }
      var authorName := Strip(GetOr(author, "Unknown"));
      var titleText := Strip(GetOr(title, "Unknown"));
      var poemText := Strip(GetOr(text, []));
      var request := Strip(GetOr(requestId, []));
      ghost var t0 := tables;
      var userDbId := EnsureUser(user);
      assert userDbId in UserIds(tables.users);
      var authorDbId := EnsureAuthor(userDbId, authorName, slug);
      WithAuthorFinds(WithUser(t0, user).0, userDbId, authorName, slug);
      var titleSlug := slug(titleText);
      var poemUrl := PoemUrl(mainUserId.value, user, slug(authorName), titleSlug);
      var info := PoemInfo(titleText, poemText, request, now, poemUrl);
      WithPoemValid(tables, authorDbId, titleSlug, info);
      tables := WithPoem(tables, authorDbId, titleSlug, info);
      r := Ok(poemUrl);
    }

    /** `get_poems_by_user(user_id)`: the query's rows grouped by author slug in a loop. */
    method GetPoemsByUser(userId: string) returns (r: Authors)
      ensures r == PoemsByUser(tables, userId)
    {
      var found := FindUser(tables.users, userId);
      if found.None? {
        return map[];
      }
      var rows := UserRows(tables.authors, tables.poems, found.value.id);
      r := map[];
      for i := 0 to |rows|
        invariant r == GroupRows(rows[..i])
      {
        var row := rows[i];
        assert rows[..i + 1][..i] == rows[..i];
        if row.authorSlug !in r {
          r := r[row.authorSlug := AuthorEntry(row.author, map[])];
        }
        var entry := r[row.authorSlug];
        r := r[row.authorSlug := entry.(poems := entry.poems[row.titleSlug := row.info])];
      }
      assert rows[..|rows|] == rows;
    }

    /** `delete_user_db(user_id)`. */
    method DeleteUserDb(userId: string)
      requires Valid(tables)
      modifies this
      ensures tables == WithoutUser(old(tables), userId)
      ensures Valid(tables)
    {
      WithoutUserValid(tables, userId);
      var found := FindUser(tables.users, userId);
      if found.None? {
        return;
      }
      tables := CascadeUser(tables, found.value.id);
    }

    /** `delete_author_db(user_id, author)`. */
    method DeleteAuthorDb(userId: string, author: string, slug: string -> string)
      requires Valid(tables)
      modifies this
      ensures tables == WithoutAuthor(old(tables), userId, slug(author))
      ensures Valid(tables)
    {
      WithoutAuthorValid(tables, userId, slug(author));
      var user := FindUser(tables.users, userId);
      if user.None? {
        return;
      }
      var authorSlug := slug(author);
      var found := FindAuthor(tables.authors, user.value.id, authorSlug);
      if found.None? {
        return;
      }
      tables := CascadeAuthor(tables, found.value.id);
    }

    /** `delete_poem_db(user_id, author, title)`. */
    method DeletePoemDb(userId: string, author: string, title: string, slug: string -> string)
      requires Valid(tables)
      modifies this
      ensures tables == WithoutPoem(old(tables), userId, slug(author), slug(title))
      ensures Valid(tables)
    {
      WithoutPoemValid(tables, userId, slug(author), slug(title));
      var user := FindUser(tables.users, userId);
      if user.None? {
        return;
      }
      var authorSlug := slug(author);
      var titleSlug := slug(title);
      var found := FindAuthor(tables.authors, user.value.id, authorSlug);
      if found.None? {
        return;
      }
      var authorDbId := found.value.id;
      tables := tables.(poems := Filter(tables.poems, (p: PoemRow) => !(p.author == authorDbId && p.titleSlug == titleSlug)));
    }
  }
}
