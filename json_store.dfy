/**
 * The poem store of utils/db_utils.py: a nested dictionary user -> author slug -> entry
 * holding the display name and the poems by title slug, kept in one JSON file that every
 * operation loads and writes back whole.
 */
module JsonStore {
  import opened Common
  import opened Text

  type Db = map<string, Authors>

  /** The database file: absent, unreadable as JSON, or holding a dictionary. */
  datatype FileState = Missing | Invalid | Stored(db: Db)

  /** `load_poems()`: a missing file or invalid JSON loads as the empty dictionary. */
  function Load(f: FileState): (db: Db)
    ensures f.Stored? ==> db == f.db
    ensures !f.Stored? ==> db == map[]
  {
    if f.Stored? then f.db else map[]
  }

  /** The entries of `user` (the empty dictionary when absent). */
  function AuthorsOf(db: Db, user: string): Authors
  {
    if user in db then db[user] else map[]
  }

  /** The poems under (`user`, `authorSlug`) (none when either is absent). */
  function PoemsOf(db: Db, user: string, authorSlug: string): map<string, PoemInfo>
  {
    var authors := AuthorsOf(db, user);
    if authorSlug in authors then authors[authorSlug].poems else map[]
  }

  /**
   * The effect of `upload_to_db` on the dictionary: the record is stored under
   * (`user`, `authorSlug`, `titleSlug`), replacing any earlier record with that title slug,
   * the entry's display name becomes `author`, and nothing else changes.
   */
  function Upsert(db: Db, user: string, author: string, authorSlug: string, titleSlug: string, info: PoemInfo): (r: Db)
    ensures user in r && authorSlug in r[user]
    ensures r[user][authorSlug].author == author
    ensures r[user][authorSlug].poems == PoemsOf(db, user, authorSlug)[titleSlug := info]
    ensures r.Keys == db.Keys + {user}
    ensures r[user].Keys == AuthorsOf(db, user).Keys + {authorSlug}
    ensures forall u :: u in db && u != user ==> r[u] == db[u]
    ensures forall a :: a in AuthorsOf(db, user) && a != authorSlug ==> r[user][a] == db[user][a]
  {
    var authors := AuthorsOf(db, user);
    db[user := authors[authorSlug := AuthorEntry(author, PoemsOf(db, user, authorSlug)[titleSlug := info])]]
  }

  /** An upload that repeats a title slug overwrites: the author's poem count does not grow. */
  lemma UpsertOverwrites(db: Db, user: string, author: string, authorSlug: string, titleSlug: string, info: PoemInfo)
    requires titleSlug in PoemsOf(db, user, authorSlug)
    ensures |Upsert(db, user, author, authorSlug, titleSlug, info)[user][authorSlug].poems| == |PoemsOf(db, user, authorSlug)|
  {
    var before := PoemsOf(db, user, authorSlug);
    assert before[titleSlug := info].Keys == before.Keys;
  }

  /** A new title slug adds exactly one poem. */
  lemma UpsertAddsOne(db: Db, user: string, author: string, authorSlug: string, titleSlug: string, info: PoemInfo)
    requires titleSlug !in PoemsOf(db, user, authorSlug)
    ensures |Upsert(db, user, author, authorSlug, titleSlug, info)[user][authorSlug].poems| == |PoemsOf(db, user, authorSlug)| + 1
  {
    var before := PoemsOf(db, user, authorSlug);
    assert before[titleSlug := info].Keys == before.Keys + {titleSlug};
  }

  /** Uploading the same poem twice leaves the dictionary as one upload does. */
  lemma UpsertIdempotent(db: Db, user: string, author: string, authorSlug: string, titleSlug: string, info: PoemInfo)
    ensures var once := Upsert(db, user, author, authorSlug, titleSlug, info);
            Upsert(once, user, author, authorSlug, titleSlug, info) == once
  {
    var once := Upsert(db, user, author, authorSlug, titleSlug, info);
    var twice := Upsert(once, user, author, authorSlug, titleSlug, info);
    assert twice[user][authorSlug] == once[user][authorSlug];
    assert twice[user] == once[user];
  }

  /** `poems.pop(user_id)`: the user and everything under it go; nothing else changes. */
  function WithoutUser(db: Db, user: string): (r: Db)
    ensures r.Keys == db.Keys - {user}
    ensures forall u :: u in r ==> r[u] == db[u]
  {
    db - {user}
  }

  /** `poems[user_id].pop(author_id)`: only that author entry goes; the user stays, possibly empty. */
  function WithoutAuthor(db: Db, user: string, authorSlug: string): (r: Db)
    requires user in db
    ensures r.Keys == db.Keys
    ensures r[user].Keys == db[user].Keys - {authorSlug}
    ensures forall a :: a in r[user] ==> r[user][a] == db[user][a]
    ensures forall u :: u in db && u != user ==> r[u] == db[u]
  {
    db[user := db[user] - {authorSlug}]
  }

  /** `poems_dict.pop(title_id)`: only that poem goes; the author entry stays even when it empties. */
  function WithoutPoem(db: Db, user: string, authorSlug: string, titleSlug: string): (r: Db)
    requires user in db && authorSlug in db[user]
    ensures r.Keys == db.Keys && r[user].Keys == db[user].Keys
    ensures r[user][authorSlug].author == db[user][authorSlug].author
    ensures r[user][authorSlug].poems.Keys == db[user][authorSlug].poems.Keys - {titleSlug}
    ensures forall t :: t in r[user][authorSlug].poems ==> r[user][authorSlug].poems[t] == db[user][authorSlug].poems[t]
    ensures forall a :: a in db[user] && a != authorSlug ==> r[user][a] == db[user][a]
    ensures forall u :: u in db && u != user ==> r[u] == db[u]
  {
    var entry := db[user][authorSlug];
    db[user := db[user][authorSlug := entry.(poems := entry.poems - {titleSlug})]]
  }

  /** Deleting a poem right after uploading it into a fresh slot restores the author's poems. */
  lemma UploadThenDeletePoem(db: Db, user: string, author: string, authorSlug: string, titleSlug: string, info: PoemInfo)
    requires titleSlug !in PoemsOf(db, user, authorSlug)
    ensures var r := WithoutPoem(Upsert(db, user, author, authorSlug, titleSlug, info), user, authorSlug, titleSlug);
            r[user][authorSlug].poems == PoemsOf(db, user, authorSlug)
  {
    var before := PoemsOf(db, user, authorSlug);
    assert before[titleSlug := info] - {titleSlug} == before;
  }

  /**
   * The two `setdefault` calls, taking `db` to `p1` and `p1` to `p2`, leave under the author
   * slug the poems it already had (none for a new entry), and assigning that entry afterwards
   * amounts to replacing that one entry of `db`.
   */
  lemma SetdefaultThenAssign(db: Db, p1: Db, p2: Db, user: string, authorSlug: string, blank: AuthorEntry, entry: AuthorEntry)
    requires blank.poems == map[]
    requires p1 == if user !in db then db[user := map[]] else db
    requires p2 == if authorSlug !in p1[user] then p1[user := p1[user][authorSlug := blank]] else p1
    ensures user in p2 && authorSlug in p2[user] && p2[user][authorSlug].poems == PoemsOf(db, user, authorSlug)
    ensures p2[user := p2[user][authorSlug := entry]] == db[user := AuthorsOf(db, user)[authorSlug := entry]]
  {
    assert p2[user][authorSlug := entry] == AuthorsOf(db, user)[authorSlug := entry];
  }

  /** The store: the state of its JSON file. */
  class JsonStore {
    var file: FileState

    constructor(f: FileState)
      ensures file == f
    {
      file := f;
    }

    /** The dictionary the next operation would load. */
    function Poems(): Db
      reads this
    {
      Load(file)
    }

    /**
     * `upload_to_db(poem_dict)`. A user id that renders as the empty string raises
     * ValueError before anything is written; otherwise the record built from the stripped
     * fields (author and title default to "Unknown", text and request id to "") is stored
     * by `Upsert`, the whole dictionary is written, and the URL `author_slug/title_slug`
     * (the stored `poem_url`) is returned. `slug` stands for `slugify` and `now` for the
     * upload timestamp.
     */
    method UploadToDb(userId: Option<string>, author: Option<string>, title: Option<string>, text: Option<string>,
                      requestId: Option<string>, slug: string -> string, now: string) returns (r: Result<string>)
      modifies this
      ensures UserKey(userId) == [] ==> r == Err(ValueError("Missing required field: user_id")) && file == old(file)
      ensures UserKey(userId) != [] ==>
        var authorName := Strip(GetOr(author, "Unknown"));
        var titleText := Strip(GetOr(title, "Unknown"));
        var url := slug(authorName) + "/" + slug(titleText);
        && r == Ok(url)
        && file == Stored(Upsert(old(Poems()), UserKey(userId), authorName, slug(authorName), slug(titleText),
                                 PoemInfo(titleText, Strip(GetOr(text, [])), Strip(GetOr(requestId, [])), now, url)))
    {
      var poems := Poems();
      ghost var db := poems;
      var user := UserKey(userId);
      if user == [] {
        return Err(ValueError("Missing required field: user_id"));
      }
      if user !in poems {
        poems := poems[user := map[]];
      }
      ghost var p1 := poems;
      var authorName := Strip(GetOr(author, "Unknown"));
      var authorId := slug(authorName);
      var blank := AuthorEntry(authorName, map[]);
      if authorId !in poems[user] {
        poems := poems[user := poems[user][authorId := blank]];
      }
      ghost var p2 := poems;
      var authorDict := poems[user][authorId];
      if authorName != authorDict.author {
        authorDict := authorDict.(author := authorName);
      }
      var titleText := Strip(GetOr(title, "Unknown"));
      var titleId := slug(titleText);
      var poemUrl := authorId + "/" + titleId;
      var poemInfo := PoemInfo(titleText, Strip(GetOr(text, [])), Strip(GetOr(requestId, [])), now, poemUrl);
      authorDict := authorDict.(poems := authorDict.poems[titleId := poemInfo]);
      SetdefaultThenAssign(db, p1, p2, user, authorId, blank, authorDict);
      assert authorDict == AuthorEntry(authorName, PoemsOf(db, user, authorId)[titleId := poemInfo]);
      poems := poems[user := poems[user][authorId := authorDict]];
      assert poems == Upsert(db, user, authorName, authorId, titleId, poemInfo);
      file := Stored(poems);
      r := Ok(poemUrl);
    }

    /** `get_poems_by_user(user_id)`: the user's entries, or the empty dictionary. */
    function GetPoemsByUser(user: string): (r: Authors)
      reads this
      ensures user in Poems() ==> r == Poems()[user]
      ensures user !in Poems() ==> r == map[]
    {
      AuthorsOf(Poems(), user)
    }

    /** `delete_user_db(user_id)`: the file is written only when the user was present. */
    method DeleteUserDb(user: string)
      modifies this
      ensures user in old(Poems()) ==> file == Stored(WithoutUser(old(Poems()), user))
      ensures user !in old(Poems()) ==> file == old(file)
    {
      var poems := Poems();
      if user in poems {
        poems := poems - {user};
        file := Stored(poems);
      }
    }

    /** `delete_author_db(user_id, author)`: written only when the author slug is present under the user. */
    method DeleteAuthorDb(user: string, author: string, slug: string -> string)
      modifies this
      ensures user in old(Poems()) && slug(author) in old(Poems())[user] ==>
                file == Stored(WithoutAuthor(old(Poems()), user, slug(author)))
      ensures !(user in old(Poems()) && slug(author) in old(Poems())[user]) ==> file == old(file)
    {
      var poems := Poems();
      var authorId := slug(author);
      if user in poems && authorId in poems[user] {
        poems := poems[user := poems[user] - {authorId}];
        file := Stored(poems);
      }
    }

    /** `delete_poem_db(user_id, author, title)`: written only when the poem itself was present. */
    method DeletePoemDb(user: string, author: string, title: string, slug: string -> string)
      modifies this
      ensures user in old(Poems()) && slug(author) in old(Poems())[user] && slug(title) in old(Poems())[user][slug(author)].poems ==>
                file == Stored(WithoutPoem(old(Poems()), user, slug(author), slug(title)))
      ensures !(user in old(Poems()) && slug(author) in old(Poems())[user] && slug(title) in old(Poems())[user][slug(author)].poems) ==>
                file == old(file)
    {
      var poems := Poems();
      var authorId := slug(author);
      var titleId := slug(title);
      if user in poems && authorId in poems[user] {
        var entry: AuthorEntry := poems[user][authorId];
        if titleId in entry.poems {
          entry := entry.(poems := entry.poems - {titleId});
          poems := poems[user := poems[user][authorId := entry]];
          file := Stored(poems);
        }
      }
    }
  }
}
