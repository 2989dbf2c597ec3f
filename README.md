# poem-parser-bot, modelled in Dafny

poem-parser-bot turns photographs of a printed poem into a web page. A Telegram bot collects a
user's images in a per-user session and sends them to a vision model. The model's reply holds a
title and a Markdown text. The bot stores them in the session's draft, which the user can correct
with edit commands. `/upload` (`/save` in the older `main.py`) then posts the draft to a Flask
service, which stores it and serves it as HTML. There are two generations of the service:

- `app.py` with a JSON file store (`utils/db_utils.py`);
- `api/app.py` with a PostgreSQL store (`api/utils/db_utils.py`).

The model covers:

- **Text** (`text.dfy`): the Python string operations the code relies on. These are
  `str.isspace`, `strip`/`lstrip`/`rstrip`, `split` on one character, `join`, ASCII `lower`
  and `endswith`. `split` and `join` are proved inverse in both directions.
- **Escape** (`escape.dfy`): `escape_markdown`, which backslash-escapes the Markdown
  characters and strips the result. Escaping is proved lossless.
- **Markdown** (`markdown.dfy`): `markdown_to_html`. The loop with its two lists is a method
  proved equal to a fold over the lines. Lemmas cover headings, blockquotes, paragraphs, the
  indentation rule and the bold-before-italic order of the inline substitutions.
- **Fences** (`fences.dfy`): `parse_json_from_response` and the part of `call_extractor` that
  shapes the model's reply into `(title, markdown)`.
- **Processing** (`processing.dfy`): `empty_html`, the image-extension check of
  `encode_image_to_base64`, and `process`.
- **JsonStore** (`json_store.dfy`): the JSON file store as a class whose field is the state of
  the file: missing, invalid JSON, or a stored dictionary. Upload and the three deletes are
  methods specified by functions on the dictionary.
- **SqlStore** (`sql_store.dfy`): the relational store as a class over three tables with
  SERIAL counters. Each operation is a method specified by a function on the tables. The
  schema invariant covers primary keys, the UNIQUE constraints, foreign keys and ON DELETE
  CASCADE, and every operation is proved to keep it. Queries are proved to be the joins they
  stand for.
- **Session** (`session.dfy`): the bot's bookkeeping (`user_sessions`, `user_data` and the
  session directories) as a class `Bot`. Each command handler is a method. It is proved against
  functions on the whole state and keeps a consistency invariant: one directory per session, at
  most `MAX_IMAGES` images, named in arrival order.
- **Api** (`api.dfy`): request validation, the allow lists, the decision order of the POST
  endpoints (400, then 401, then the store), the route table of both services and what each
  page renders, including the rules Flask and flasgger add themselves (static files and the API
  documentation). End-to-end lemmas show that an uploaded poem is served at the URL the upload
  returned unless its author slug is one of those rules' static parts (`id`, `static`,
  `flasgger_static`, or `static` in `app.py`), and that such a poem is shadowed.

The two copies of the bot (`bot/main.py` and `main.py`) share their session logic, so one
class models both. Its rows cite both files where the code is the same. The two copies of
`markdown_to_html` and `escape_markdown` are the same text and are modelled once.

Some things are parameters of the model rather than computed by it:

- `slugify` is a function parameter `slug`, and nothing is assumed about it;
- the uuid of a new session is a parameter `rid`, taken to be unused;
- `datetime.now()` is a parameter `now`;
- the sniffed image type (`imghdr.what`) is a parameter;
- the vision model call is the parameter `extract`, and `json.loads` is `decode`;
- the file read is `read`, and the HTTP post of the bot is `post`.

## Model

| member | source | states |
|---|---|---|
| Common.UserKey | api/utils/db_utils.py:148 | `str(poem_dict.get("user_id"))`: a missing id becomes the text "None", which is not empty; a present id is kept as it is |
| Text.LStrip | utils/utils.py:80 | `lstrip` drops exactly the leading whitespace: the result is a suffix that is empty or starts with a non-space |
| Text.RStrip | bot/utils/llm_utils.py:47-48 | `rstrip` drops exactly the trailing whitespace: the result is a prefix that is empty or ends with a non-space |
| Text.Strip | utils/utils.py:49 | `strip` yields a text with no whitespace at either end that is no longer than the input |
| Text.StrippedFixed | utils/utils.py:49 | stripping a stripped text changes nothing (strip is idempotent) |
| Text.StripRemovesOnlySpace | utils/utils.py:49 | everything `strip` removes is whitespace: the result is a contiguous slice flanked by whitespace only |
| Text.StripAllSpace | utils/utils.py:49 | a whitespace-only text strips to the empty text |
| Text.StripPadded | api/utils/db_utils.py:152-155 | any whitespace around a non-empty stripped text is exactly what `strip` removes |
| Text.Lower | process.py:33 | `lower` keeps the length and maps each character on its own |
| Text.LowerAppend | process.py:33 | lower-casing distributes over concatenation |
| Text.Split | api/app.py:43 | `split` on one character gives at least one part and no part holds the separator |
| Text.JoinSplit | api/app.py:43 | joining the parts of a split with the separator restores the text |
| Text.SplitNoSep | bot/main.py:81 | a text without the separator splits into itself alone |
| Text.SplitAtSep | bot/main.py:81 | the first separator ends the first part and splitting continues after it |
| Text.SplitJoin | api/app.py:43 | splitting a join of separator-free parts gives back the parts |
| Escape.EscapeRaw | utils/utils.py:48-49 | the substitution puts a backslash before every special character and grows the text by exactly one character per special character |
| Escape.EscapeMarkdown | bot/utils/utils.py:49-50 | `escape_markdown` returns a stripped text |
| Escape.UnescapeEscape | utils/utils.py:48-49 | escaping loses nothing: removing the inserted backslashes restores the input, backslashes already in it included |
| Escape.EscapeNoSpecial | bot/utils/utils.py:49-50 | text without special characters is only stripped |
| Escape.EscapeRawAppend | utils/utils.py:49 | escaping works character by character: it commutes with concatenation |
| Markdown.Nbsp | utils/utils.py:82 | `'&nbsp;' * n` is six characters per leading space |
| Markdown.HashRun | utils/utils.py:86 | the length of the leading `#` run: all characters before it are `#` and the next is not |
| Markdown.Classify | utils/utils.py:79-101 | every heading has a level between 1 and 6 |
| Markdown.Flush | utils/utils.py:72-77 | after a flush the paragraph buffer is empty |
| Markdown.FindClose | api/utils/utils.py:64-67 | the lazy `.*?` stops at the first occurrence of the closing delimiter before any line break, or there is none |
| Markdown.Convert | api/utils/utils.py:26-69 | the loop over the lines with its output list and paragraph buffer computes exactly the fold-based `MarkdownToHtml` |
| Markdown.EmptyDocument | utils/utils.py:79-103 | the empty document renders as one empty paragraph |
| Markdown.HeadingLine | utils/utils.py:86-91 | one to six `#` and a whitespace character make a heading of that level, with the indentation as `&nbsp;` and the text after the whitespace |
| Markdown.ClassifyHeading | api/utils/utils.py:43-48 | a line whose stripped form is a `#` run of length 1 to 6 followed by whitespace is a heading of that level |
| Markdown.TooManyHashes | utils/utils.py:86 | seven or more `#` are ordinary text, whatever follows |
| Markdown.ClassifyOrdinary | utils/utils.py:100-101 | a line that is neither heading nor quote is kept whole, indentation as `&nbsp;` |
| Markdown.HashWithoutSpace | utils/utils.py:86 | a `#` run directly followed by text is not a heading |
| Markdown.OrdinaryIndentation | api/utils/utils.py:37-40 | each leading whitespace character of an ordinary line becomes one `&nbsp;` |
| Markdown.QuoteLine | utils/utils.py:94-97 | a line starting with `>` after indentation is a blockquote of the stripped remainder, indentation dropped |
| Markdown.FoldAppend | utils/utils.py:79-101 | processing `a + b` is processing `a`, then `b` from the resulting state |
| Markdown.FoldKeepsOutput | utils/utils.py:72-101 | blocks already emitted are never revisited: the loop only appends to its output |
| Markdown.OrdinaryRun | utils/utils.py:99-101 | consecutive ordinary lines, blank ones included, join the buffer in order and emit nothing |
| Markdown.SingleParagraph | utils/utils.py:72-106 | a document of ordinary lines only is one paragraph whose lines are joined by `<br>` |
| Markdown.SpecialLineSplits | utils/utils.py:85-97 | a heading or blockquote line closes the open paragraph: the blocks are those before it, its own block, then those after it |
| Markdown.SpecialStep | utils/utils.py:85-97 | a heading or blockquote line flushes the paragraph before it and leaves nothing buffered |
| Markdown.NoDelimiter | utils/utils.py:107-110 | text without a delimiter's first character passes through that substitution unchanged |
| Markdown.BoldBeforeItalic | utils/utils.py:107-110 | `**x**` becomes `<strong>x</strong>`, not italic, because the bold passes run first |
| Markdown.BoldPair | api/utils/utils.py:64 | the bold substitution wraps the text between two `**` in `<strong>` |
| Markdown.FindCloseAt | api/utils/utils.py:64-67 | the first occurrence of the delimiter, before any line break, is where the lazy group closes |
| Fences.FirstFence | bot/utils/llm_utils.py:47 | the first position of three backticks, and none before it |
| Fences.DropFences | bot/utils/llm_utils.py:51-52 | `cleaned[3:-3]` removes exactly three characters from each end, or gives the empty text when fewer than six remain |
| Fences.ParseJsonFromResponse | utils/llm_utils.py:36-53 | the cleaned reply is always stripped |
| Fences.SubWithoutFence | bot/utils/llm_utils.py:47-48 | a reply where no json fence opens passes the substitution unchanged |
| Fences.SubPlainPrefix | bot/utils/llm_utils.py:47 | text without backticks is copied through and scanning continues after it |
| Fences.BacktickFree | bot/utils/llm_utils.py:35-54 | a reply without backticks is only stripped |
| Fences.SubJsonBlock | bot/utils/llm_utils.py:47-48 | a json-fenced block becomes its inner text, without the whitespace next to either fence, and scanning resumes after the closing fence |
| Fences.FirstFenceAfterPlain | bot/utils/llm_utils.py:47 | the first fence after backtick-free text is found right after it |
| Fences.SingleJsonBlock | bot/utils/llm_utils.py:35-54 | a reply that is one json-fenced block yields the stripped inner text |
| Fences.SeparateBlocks | bot/utils/llm_utils.py:47-48 | the lazy group stops at the first closing fence: two blocks are unwrapped separately and the text between them is kept |
| Fences.PlainFence | bot/utils/llm_utils.py:50-52 | a block fenced without the json tag is unwrapped by the second step and stripped |
| Fences.PlainFenceOpensNothing | bot/utils/llm_utils.py:47 | a fence without the json tag opens no json block |
| Fences.FieldText | bot/utils/llm_utils.py:115-116 | `parsed.get(key, "").strip()`: a missing key is "", a string is stripped, any other value raises |
| Fences.ShapeReply | bot/utils/llm_utils.py:70-125 | a missing `GROQ_API_KEY` raises first, then a missing `MODEL_NAME`; with both set, a reply that is not JSON gives (None, None), a JSON value that is not an object raises, and an object gives the stripped "title" and "markdown" (missing ones as "") exactly when both are strings, raising otherwise; title and markdown are None together |
| Fences.ShapeObject | utils/llm_utils.py:106-111 | a decoded object gives both stripped string values, "" for an absent key |
| Processing.RemoveSpace | process.py:33 | `re.sub(r"\s+", "", s)` leaves no whitespace and never lengthens the text |
| Processing.RemoveSpaceAppend | process.py:33 | whitespace removal commutes with concatenation |
| Processing.RemoveAllSpace | process.py:33 | a whitespace-only text is removed entirely |
| Processing.WhitespaceInsensitive | process.py:22-37 | inserting whitespace anywhere does not change the `empty_html` verdict |
| Processing.LowerRemoveSpaceCase | process.py:33 | texts that differ only in ASCII letter case normalise to the same text |
| Processing.CaseInsensitive | process.py:22-37 | the `empty_html` verdict ignores letter case |
| Processing.ForeignCharacterNotEmpty | process.py:33-37 | any non-space character that the template lacks in every case makes the page non-empty |
| Processing.TemplateIsEmpty | process.py:34-37 | the empty template itself counts as empty |
| Processing.CanonicalParts | process.py:35 | concatenating pieces without whitespace and capitals gives a canonical text |
| Processing.Canonical | process.py:33 | normalisation leaves text without whitespace or capitals unchanged |
| Processing.CanonicalAppend | process.py:33 | canonical texts stay canonical when concatenated |
| Processing.NoSpaceFixed | process.py:33 | whitespace removal leaves whitespace-free text unchanged |
| Processing.ImageExtensionSuffix | bot/utils/utils.py:23 | the check is true iff the last four characters, lower-cased, are `.jpg` or `.png`, or the last five are `.jpeg` |
| Processing.ImageExtensionAccepted | utils/utils.py:10-35 | any name followed by one of the three extensions, in any letter case, passes |
| Processing.EncodeImage | bot/utils/utils.py:9-36 | a bad extension raises ValueError before anything is read; otherwise the result is the read content, or an error when the read fails |
| Processing.EncodeAll | process.py:57 | on success every path, stripped, is encoded in order; on failure some path failed |
| Processing.Process | process.py:40-72 | no paths gives empty title and text without calling anything; otherwise the extractor's answer on the images encoded from the stripped paths, and an error whenever an encoding fails |
| Processing.BadExtensionFails | process.py:55-60 | a path with a bad extension anywhere in the list makes `process` raise |
| Processing.ProcessChecksEveryPath | process.py:55-60 | every path the extractor sees has passed the extension check |
| JsonStore.Load | utils/db_utils.py:95-109 | a missing file or invalid JSON loads as the empty dictionary; a stored dictionary loads as itself |
| JsonStore.Upsert | utils/db_utils.py:47-75 | the record lands under user, author slug and title slug, replacing one with the same title slug; the entry takes the new author name; every other user, author and poem is unchanged |
| JsonStore.UpsertOverwrites | utils/db_utils.py:74-75 | re-uploading a title slug does not grow the author's poems |
| JsonStore.UpsertAddsOne | utils/db_utils.py:74-75 | a new title slug adds exactly one poem |
| JsonStore.UpsertIdempotent | utils/db_utils.py:26-80 | uploading the same poem twice leaves the dictionary as one upload does |
| JsonStore.WithoutUser | utils/db_utils.py:131 | the user and everything under it go; every other user is unchanged |
| JsonStore.WithoutAuthor | utils/db_utils.py:141-142 | only that author entry goes; the user stays even when left empty |
| JsonStore.WithoutPoem | utils/db_utils.py:154-156 | only that poem goes; the author entry stays even when left empty |
| JsonStore.UploadThenDeletePoem | utils/db_utils.py:146-157 | deleting a newly uploaded poem restores the author's poems |
| JsonStore.SetdefaultThenAssign | utils/db_utils.py:48-60 | after the two `setdefault` calls the author slot holds the poems it already had (none when new), and assigning it replaces that one author entry of the loaded dictionary |
| JsonStore.JsonStore.constructor | utils/db_utils.py:95-109 | the store starts from a given file state |
| JsonStore.JsonStore.UploadToDb | utils/db_utils.py:26-80 | an empty `str(user_id)` raises ValueError and writes nothing; otherwise the stripped record with its defaults is upserted, the file is written, and `author_slug/title_slug` is returned |
| JsonStore.JsonStore.GetPoemsByUser | utils/db_utils.py:112-123 | the user's entries, or the empty dictionary |
| JsonStore.JsonStore.DeleteUserDb | utils/db_utils.py:126-133 | the file is rewritten without the user only when the user was present; otherwise it is untouched |
| JsonStore.JsonStore.DeleteAuthorDb | utils/db_utils.py:135-144 | the file is rewritten without the author only when the author slug was present under the user |
| JsonStore.JsonStore.DeletePoemDb | utils/db_utils.py:146-157 | the file is rewritten without the poem only when that poem was present |
| SqlStore.EmptyValid | api/utils/db_utils.py:40-74 | freshly created tables satisfy the schema |
| SqlStore.FindUser | api/utils/db_utils.py:87-88 | `SELECT id FROM users WHERE user_id = %s` finds a row with that id, or none exists |
| SqlStore.FindAuthor | api/utils/db_utils.py:111-115 | the (user, slug) query finds a matching author row, or none exists |
| SqlStore.FindAuthorById | api/utils/db_utils.py:53-58 | the author row with a given primary key, or none has it |
| SqlStore.FindPoem | api/utils/db_utils.py:71 | the poem row for (author, title slug), or none exists |
| SqlStore.FindUserAppend | api/utils/db_utils.py:91-95 | an inserted user is found by the next lookup |
| SqlStore.FindAuthorAppend | api/utils/db_utils.py:123-130 | an inserted author is found by the next lookup |
| SqlStore.FindPoemAppend | api/utils/db_utils.py:169-184 | an inserted poem is found by the next lookup |
| SqlStore.WithUser | api/utils/db_utils.py:76-96 | `ensure_user` returns the existing row's id or inserts exactly one row under the next SERIAL id; afterwards the lookup finds the user under the returned id |
| SqlStore.WithUserValid | api/utils/db_utils.py:76-96 | `ensure_user` keeps the schema, including UNIQUE user_id |
| SqlStore.WithUserTwice | api/utils/db_utils.py:76-96 | a second `ensure_user` returns the same id and changes nothing |
| SqlStore.Rename | api/utils/db_utils.py:118-121 | `UPDATE authors SET author` changes the name of that row and of no other |
| SqlStore.WithAuthor | api/utils/db_utils.py:98-131 | on a hit the found row keeps its id and only it is renamed; on a miss one row is inserted under the next id |
| SqlStore.WithAuthorFinds | api/utils/db_utils.py:98-131 | afterwards the (user, slug) lookup finds the author under the returned id, with the new name |
| SqlStore.WithAuthorValid | api/utils/db_utils.py:98-131 | `ensure_author` keeps the schema: the author refers to an existing user and (user, slug) stays unique |
| SqlStore.Replace | api/utils/db_utils.py:175-180 | the conflict update changes the columns of that poem row only |
| SqlStore.WithPoem | api/utils/db_utils.py:169-184 | `ON CONFLICT (author_id, title_slug) DO UPDATE`: an existing poem is updated in place with no row added; otherwise one row is inserted |
| SqlStore.WithPoemFinds | api/utils/db_utils.py:169-184 | afterwards the poem is found under (author, title slug) with the new record |
| SqlStore.WithPoemValid | api/utils/db_utils.py:169-184 | the upsert keeps the schema, including UNIQUE (author_id, title_slug) |
| SqlStore.UploadedValid | api/utils/db_utils.py:157-184 | the three steps of an upload keep the schema |
| SqlStore.UploadThenGetPoem | api/utils/db_utils.py:133-186 | after an upload, `get_poem` with the two slugs returns exactly the record just written, URL included |
| SqlStore.UploadAgainAddsNothing | api/utils/db_utils.py:157-184 | re-uploading under the same user, author slug and title slug adds no user, author or poem row |
| SqlStore.GetPoem | api/utils/db_utils.py:288-324 | a result is always the author name and record of a joined (user, author, poem) triple matching the three keys |
| SqlStore.GetPoemIsJoin | api/utils/db_utils.py:288-324 | on valid tables every matching joined triple is what the lookup returns |
| SqlStore.Filter | api/utils/db_utils.py:326-407 | the rows a delete keeps are exactly those the predicate accepts |
| SqlStore.FilterKeepsAll | api/utils/db_utils.py:326-407 | a delete that matches no row removes nothing |
| SqlStore.WithoutUser | api/utils/db_utils.py:326-341 | deleting an absent user changes nothing |
| SqlStore.WithoutAuthor | api/utils/db_utils.py:344-372 | deleting an author of an absent user changes nothing; the users table is never touched |
| SqlStore.WithoutPoem | api/utils/db_utils.py:374-407 | deleting a poem touches neither users nor authors |
| SqlStore.WithoutMissingPoem | api/utils/db_utils.py:374-407 | deleting a poem that `get_poem` does not find changes nothing |
| SqlStore.WithoutUserValid | api/utils/db_utils.py:326-341 | deleting a user keeps the schema: ON DELETE CASCADE removes its authors and their poems |
| SqlStore.WithoutAuthorValid | api/utils/db_utils.py:344-372 | deleting an author keeps the schema: its poems go with it |
| SqlStore.WithoutPoemValid | api/utils/db_utils.py:374-407 | deleting a poem keeps the schema |
| SqlStore.WithoutUserEffect | api/utils/db_utils.py:326-341 | after deleting a user none of its poems is found, and every other user's poems are found as before |
| SqlStore.WithoutAuthorEffect | api/utils/db_utils.py:344-372 | after deleting an author neither the author nor its poems are found; every other (user, author) is unaffected |
| SqlStore.WithoutPoemEffect | api/utils/db_utils.py:374-407 | after deleting a poem it is not found; every other poem is found as before |
| SqlStore.GetPoemSame | api/utils/db_utils.py:288-324 | two valid states with the same joined rows for these keys give the same lookup |
| SqlStore.PoemsOfAuthor | api/utils/db_utils.py:236-286 | every poem of the author appears under its title slug, and every entry comes from one of its poems |
| SqlStore.GetPoemsByAuthor | api/utils/db_utils.py:236-286 | a result is a one-key map under the requested slug |
| SqlStore.GetPoemsByAuthorContents | api/utils/db_utils.py:236-286 | there is a result iff the user has an author with that slug; it holds that author's name and exactly its poems, possibly none |
| SqlStore.UserRows | api/utils/db_utils.py:189-234 | every row of the user query is an (author, poem) pair of the user joined on the foreign key |
| SqlStore.UserRowsComplete | api/utils/db_utils.py:189-234 | every poem of every author of the user yields a row |
| SqlStore.GroupRowsKeys | api/utils/db_utils.py:189-234 | the grouping has one entry per author slug among the rows |
| SqlStore.GroupRowsFromRows | api/utils/db_utils.py:189-234 | each grouped title slug comes from a row with those two slugs |
| SqlStore.GroupRowsStores | api/utils/db_utils.py:189-234 | each row's record and author name are found under its two slugs |
| SqlStore.PoemsByUserContents | api/utils/db_utils.py:189-234 | one entry per author of the user that has at least one poem (the inner join drops the others), with that author's name and exactly its poems |
| SqlStore.PoemsByUserStores | api/utils/db_utils.py:189-234 | every poem of every author of the user appears under the author's slug, with the author's name |
| SqlStore.PoemsByUserKeys | api/utils/db_utils.py:189-234 | every key of the result is the slug of one of the user's authors that has a poem |
| SqlStore.PoemsByUserOrigins | api/utils/db_utils.py:189-234 | every title under an author slug is a poem of that author of the user |
| SqlStore.Database.constructor | api/utils/db_utils.py:40-74 | `init_db` on an empty database gives empty tables |
| SqlStore.Database.EnsureUser | api/utils/db_utils.py:76-96 | the tables and the id are those of `WithUser`, and the schema holds |
| SqlStore.Database.EnsureAuthor | api/utils/db_utils.py:98-131 | the tables and the id are those of `WithAuthor`, and the schema holds |
| SqlStore.Database.UploadToDb | api/utils/db_utils.py:133-186 | a missing main user id raises RuntimeError and an empty user id raises ValueError, both before any table changes; otherwise the stripped record goes through the three steps and its URL is returned, without prefix for the main user and under `id/<user>` otherwise |
| SqlStore.Database.GetPoemsByUser | api/utils/db_utils.py:189-234 | the grouping loop over the query rows computes `PoemsByUser` |
| SqlStore.Database.DeleteUserDb | api/utils/db_utils.py:326-341 | the tables become `WithoutUser`, and the schema holds |
| SqlStore.Database.DeleteAuthorDb | api/utils/db_utils.py:344-372 | the tables become `WithoutAuthor` under the author's slug, and the schema holds |
| SqlStore.Database.DeletePoemDb | api/utils/db_utils.py:374-407 | the tables become `WithoutPoem` under both slugs, and the schema holds |
| Session.DigitChar | bot/main.py:708 | each digit is a character between '0' and '9' |
| Session.Decimal | bot/main.py:81 | `str(n)` is a non-empty text of digits |
| Session.DecimalValue | bot/main.py:81 | `str(n)` reads back as n, so distinct users have distinct id texts |
| Session.Pad3Digits | bot/main.py:708 | `f"{n:03d}"` below 1000 is exactly the three digits of n |
| Session.LexLessAsymmetric | bot/main.py:232-236 | the string order used by `sorted` is asymmetric |
| Session.LexLessPrefix | bot/main.py:232-236 | a common directory prefix does not change the order of two paths |
| Session.SortIncreasing | bot/main.py:232-236 | `sorted` leaves increasing names where they are |
| Session.Images | bot/main.py:689-692 | the image filter keeps a sub-list of the directory |
| Session.ImageNameAccepted | bot/main.py:722-725 | every name `handle_image` stores passes the extension filter |
| Session.ImagesInArrivalOrder | bot/main.py:689-692 | in a session directory every file is an image, so the filter keeps them all |
| Session.Admit | bot/main.py:695-728 | a full directory refuses the image; otherwise a JPEG or PNG is stored and anything else is removed; a stored image is named after the next ordinal (count + 1, padded to three digits) with `.jpg` for JPEG and `.png` for PNG and appended; the directory never exceeds the cap |
| Session.AdmitKeepsOrder | main.py:601-631 | admission keeps the directory in arrival order |
| Session.FirstDifference | bot/main.py:232-236 | the first differing character decides the order, whatever follows |
| Session.OrdinalOrder | bot/main.py:703-708 | three-digit ordinals compare like the numbers they stand for |
| Session.JoinRelative | bot/main.py:233 | joining the directory and an image name puts one separator between them |
| Session.PathPairOrder | bot/main.py:232-236 | paths of two images of a session compare as their ordinals |
| Session.SortedIsArrivalOrder | bot/main.py:232-236 | with at most 999 images, sorting the paths gives back the order in which the user sent the pages |
| Session.ThousandthImageSortsFirst | bot/main.py:708 | from the thousandth image on, the ordinals no longer sort in arrival order |
| Session.Find | bot/main.py:532-534 | the first position of a character, or none exists |
| Session.FindAfter | main.py:444 | the first `&` after text without one is found right there |
| Session.ParseTitleAuthor | bot/main.py:532-542 | text without `&` is rejected; an accepted split gives two non-empty stripped parts, the title free of `&` |
| Session.StripInside | bot/main.py:534 | stripping keeps only characters of the input |
| Session.ParseTitleAuthorJoined | main.py:437-446 | `Title & Author`, with any whitespace around either part, parses back into the two parts |
| Session.ParseTitleAuthorEmptyPart | bot/main.py:532-542 | a part that is only whitespace is rejected |
| Session.AfterSpace | bot/main.py:367 | `partition(" ")[2]` is shorter than the message or empty |
| Session.AfterSpaceCommand | main.py:300 | the text of `/editpoem <text>` is everything after the command word, line breaks included |
| Session.OrDefault | bot/main.py:247-250 | `value or default` is the value, or the default exactly when the value is empty, and never empty when the default is not |
| Session.AuthorizedList | bot/main.py:81 | an allow list of comma-joined ids admits exactly the users it names |
| Session.SpaceAfterCommaExcludes | main.py:66 | "7, 42" does not admit user 42: the entries are not stripped |
| Session.Shown | bot/main.py:299-300 | `/getinfo` never shows an empty title or text |
| Session.Fill | bot/main.py:247-250 | the author is kept; a None title is the TypeError that stores nothing; the title is stored before the text can fail; stored fields are non-empty and stripped |
| Session.Escaped | main.py:208-209 | `escape_markdown(value) or default` is non-empty and stripped, the escaped value or the default when it escapes to nothing |
| Session.FillPlain | bot/main.py:247-250 | text without Markdown characters is stored as extracted |
| Session.FillEmpty | bot/main.py:247-250 | an image-less extraction stores the placeholders "Untitled" and "Empty" |
| Session.Dropped | bot/main.py:163-175 | `delete_user_session` removes both map entries of that user and no other |
| Session.DroppedConsistent | main.py:134-145 | deleting keeps the bookkeeping consistent and removes that user's directory only |
| Session.DroppedTwice | bot/main.py:163-175 | deleting a second time changes nothing |
| Session.Created | bot/main.py:118-143 | `create_session` drops the old session, then maps the user to the new id with an empty directory and a fresh draft |
| Session.CreatedConsistent | main.py:90-115 | creating a session keeps the bookkeeping consistent |
| Session.CreatedTwice | bot/main.py:118-143 | starting twice leaves only the second session, nothing kept from the first |
| Session.Ensured | bot/main.py:331-333 | `user_sessions.get(user) or create_session(user)` leaves a session and changes nothing when there was one |
| Session.EnsuredConsistent | main.py:433 | ensuring a session keeps the bookkeeping consistent and leaves a draft |
| Session.WithDraft | bot/main.py:343 | writing a draft field changes that user's draft and nothing else |
| Session.WithDraftTwice | bot/main.py:343 | a second write to the draft replaces the first |
| Session.WithDraftConsistent | main.py:271-277 | writing a non-empty field keeps the bookkeeping consistent |
| Session.GateOpen | bot/main.py:588-597 | with consistent bookkeeping the upload gate waits only for a title and a text |
| Session.NewSessionIncomplete | bot/main.py:118-143 | a new session cannot be uploaded: it has neither title nor text |
| Session.WithImage | bot/main.py:695-728 | an image changes only the user's session directory |
| Session.WithImageConsistent | main.py:578-642 | admitting an image keeps arrival order and the MAX_IMAGES cap |
| Session.DeleteOutcome | bot/main.py:413-453 | a delete command reports success exactly on a 200 answer |
| Session.UrlAsWritten | main.py:359 | the URL as written: the domain, a slash, the path |
| Session.ProductionUrlHasDoubleSlash | main.py:48 | the production domain of `main.py` ends in a slash, so every URL built on it has two |
| Session.Url | main.py:509-513 | the domain and the path with exactly one slash between them |
| Session.UploadLinkCorrected | bot/main.py:614-618 | for a domain that does not end in "/", the link the handler builds as written is the corrected URL: the domain, one slash, then the poem's path |
| Session.UrlTrailingSlash | main.py:48 | a trailing slash on the domain no longer changes the URL |
| Session.UploadOutcome | bot/main.py:614-628 | the link is shown exactly on 201 with a URL, built as written on the API domain; a 201 without `poem_url` aborts the handler |
| Session.DraftInfo | bot/main.py:279-315 | no draft gives the no-session reply; otherwise the author and a non-empty title and text, exactly the draft's once it is complete |
| Session.ProcessedThenInfo | bot/main.py:247-276 | after a successful `/process`, `/getinfo` shows exactly what `/process` showed |
| Session.Bot.constructor | bot/main.py:43-65 | the bot starts with the configuration it is given and no session |
| Session.Bot.InputDir | bot/main.py:146-160 | the input directory is None exactly when the user has no session, and otherwise the joined path of the session id |
| Session.Bot.DeleteUserSession | bot/main.py:163-175 | the state becomes `Dropped` and stays consistent |
| Session.Bot.CreateSession | bot/main.py:118-143 | the state becomes `Created` and stays consistent |
| Session.Bot.EnsureSession | main.py:433 | the state becomes `Ensured` and stays consistent |
| Session.Bot.Start | bot/main.py:180-207 | an unlisted user changes nothing; otherwise always a new session, with the escaped author when it is not empty |
| Session.Bot.Edit | bot/main.py:320-409 | an unlisted user changes nothing; otherwise a session exists afterwards and only the one field changes, when the new value is not empty |
| Session.Bot.EditTitle | bot/main.py:320-347 | the escaped title replaces the draft's title when it is not empty |
| Session.Bot.EditPoem | bot/main.py:351-378 | the escaped text after the command word replaces the draft's text when it is not empty |
| Session.Bot.EditAuthor | bot/main.py:382-409 | the escaped author replaces the draft's author when it is not empty |
| Session.Bot.HandleImage | bot/main.py:670-737 | an unlisted user changes nothing; otherwise a session exists and the image is admitted or refused, and the reply says when the cap is reached |
| Session.Bot.AdmitImage | main.py:595-640 | the image stage on the session directory: the state becomes `WithImage` |
| Session.Bot.Process | bot/main.py:210-276 | without a session or without images nothing changes; otherwise the sorted image paths go to the extractor and its answer, escaped, fills the draft |
| Session.Bot.Apply | main.py:205-224 | the draft takes the escaped title, then the escaped text |
| Session.Bot.SetDraft | bot/main.py:343 | the state becomes `WithDraft` and stays consistent |
| Session.Bot.Upload | bot/main.py:575-632 | nothing is sent for an incomplete draft; otherwise the payload of the draft is posted to `f"{domain}/{path}"` as written, and the session is deleted only on 201 with a URL |
| Session.Bot.DeleteAll | bot/main.py:413-453 | the user's id is posted to `f"{domain}/api/delete_all"` as written, and the session is deleted only on 200 |
| Session.Bot.DeleteAuthor | bot/main.py:456-508 | an empty author sends nothing; otherwise the escaped author is posted to `f"{domain}/api/delete_author"` as written and the session is deleted only on 200 |
| Session.Bot.DeletePoem | bot/main.py:511-572 | empty text or a bad `title & author` sends nothing; otherwise the two stripped parts are posted, unescaped, to `f"{domain}/api/delete_poem"` as written, and the session is deleted only on 200 |
| Session.Bot.Reset | bot/main.py:635-644 | the session is deleted |
| Api.Missing | api/app.py:105 | a field is missing iff it is required and absent |
| Api.MissingAppend | app.py:65 | the missing fields of two lists are those of each, in order |
| Api.ValidateJsonFields | api/app.py:100-108 | valid iff every required field is present, with the empty message; otherwise the message starts with "Missing required fields: " |
| Api.ValidateOneMissing | app.py:60-68 | one absent field is named alone in the message |
| Api.MissingNone | api/app.py:105 | with every field present nothing is missing |
| Api.ValidateTwoMissing | api/app.py:106-107 | two absent fields are named in order, separated by ", " |
| Api.AllowedUsers | api/app.py:43 | the allow list is the stripped entries of the comma-separated text |
| Api.AllowedUsersOfList | app.py:30 | an allow list written as comma-joined ids admits exactly those ids, stripped |
| Api.IsAuthorized | api/app.py:93-97 | a string is authorized iff it is listed; a JSON list or object raises TypeError (unhashable); any other JSON value is not listed |
| Api.AppsStripWhereBotDoesNot | api/app.py:43 | "7, 42" admits user 42 in the service while the bot turns it away |
| Api.Precheck | api/app.py:253-264 | an absent or empty body is 400 "Missing JSON body"; a missing field is 400; an unlisted user is 401; a list or object user id is the 500 page; it lets a request through iff the request is admitted |
| Api.Respond | api/app.py:253-272 | a rejected request gets the precheck's answer; an admitted one gets the endpoint's failure message on a store error and a 2xx answer (201 with the URL for uploads) otherwise; 2xx iff admitted and stored |
| Api.RejectedNeverStores | app.py:136-155 | a rejected request's answer does not depend on the store, and is 400 or 401 |
| Api.MissingFieldBeforeAuthorization | api/app.py:257-264 | a missing field is reported as 400 even for an unlisted user |
| Api.UnlistedUserGets401 | api/app.py:262-264 | a complete request from an unlisted user is 401 |
| Api.RouteApi | api/app.py:51-60 | a route is only matched by the path it stands for: the page's URL is the path; Flask's `static/<path>` and flasgger's `apidocs`, `apidocs/`, `apispec_1.json` and `flasgger_static/<path>` go to the framework whatever the app's rules say |
| Api.RouteApiPageUrl | api/app.py:112-196 | every page of `api/app.py` is matched by its own URL, when no framework rule claims it |
| Api.JoinNonEmpty | api/app.py:168 | joining non-empty segments yields a non-empty path |
| Api.PoemUrlRoutes | api/utils/db_utils.py:162-165 | the URL an upload returns routes to that poem's page, under `id/<user>` for other users |
| Api.IdAuthorIsShadowed | api/app.py:125-126 | a main-user poem of an author whose slug is "id" routes to the listing of user `<title slug>` instead |
| Api.StaticAuthorIsShadowed | api/app.py:51-53 | a main-user poem of an author whose slug is "static" or "flasgger_static" routes to the framework's files instead |
| Api.RouteApp | app.py:33 | `app.py` matches only the home page, ping, author pages, poem pages and Flask's `static/<path>` files, each by its own URL, and `static/<path>` always goes to the static files |
| Api.SavedUrlRoutes | utils/db_utils.py:64 | `author_slug/title_slug` routes to that poem's page when the author slug is not "static" |
| Api.StaticAuthorIsShadowedInApp | app.py:33 | a poem of an author whose slug is "static" routes to Flask's static files instead |
| Api.Listing | api/app.py:112-134 | a listed user gets the list `get_poems_by_user` returns; anyone else the not-found page |
| Api.AuthorPoems | api/app.py:137-165 | a listed user gets the author's poems when the author exists; otherwise the not-found page |
| Api.ShowPoem | api/app.py:168-181 | a listed user gets the stored poem, its text rendered from Markdown, when it exists; otherwise the not-found page |
| Api.PoemViewOthersAsWritten | api/app.py:184-196 | for an unlisted user the view returns None; otherwise it agrees with `ShowPoem` |
| Api.UnlistedUserViewReturnsNone | api/app.py:189-196 | for user "2" with only "1" listed, the view as written returns None, which Flask answers through the 500 handler; the intended view gives the not-found page directly |
| Api.ServeApi | api/app.py:112-196 | the home page and `id/<user>` list the main user's and that user's poems, the author pages show `AuthorPoems` for the main user or the named one, the poem pages show `ShowPoem` likewise, an unmatched path gets the not-found page and a framework path is answered by the framework; only poem pages show a poem, and only `/ping` answers pong |
| Api.UploadedPoemIsServed | api/app.py:168-196 | after an upload by a listed user, a GET of the URL the upload returned shows that poem's author, title and rendered text, unless a main-user poem's author slug is "id", "static" or "flasgger_static" |
| Api.ServedPoem | api/app.py:168-196 | both URL shapes of a poem page show that user's poem |
| Api.AppAuthorPoems | app.py:81-93 | an author page is found iff the author slug is a key |
| Api.AppPoem | app.py:96-109 | a poem is found iff both slugs are keys at their levels, shown with the entry's author name and rendered text |
| Api.ServeApp | app.py:72-109 | every view reads the poems stored under the whole `ALLOWED_USER_ID` text: the home page lists them, an author page shows `AppAuthorPoems`, a poem page shows `AppPoem`, `/ping` answers pong, a static-file path is answered by Flask and any other path gets the not-found page |
| Api.SavedPoemIsServed | app.py:96-109 | a poem stored under the allow-list text is served at the URL the store returned, unless its author slug is "static" |
| Api.OtherUsersAreNotShown | app.py:77 | a poem stored under any other user id changes no page of `app.py` |

## Left out

- Telegram, Flask, HTTP, PostgreSQL connections, the file system and logging are not modelled. Their effects are parameters or state: the files of a session directory, the file state of the JSON store, the three tables.
- Message texts and languages (`get_message`) are not modelled. Replies are a datatype of outcomes.
- Concurrency is not modelled. The bot's handlers are async and the service runs requests in parallel. The model runs one handler at a time, and each relational store step is one transaction. Interleavings, and atomicity across the three steps of an upload, are not captured.
- uuid generation is not modelled. A new request id is a parameter that the `Unused` precondition takes to be new.
- `os.listdir` order is not modelled. The directory is a sequence in creation order, and the model relies on `sorted` only where the lemmas say so.
- The image download is not modelled: the `.tmp` file, `imghdr` sniffing and the removal of a rejected file. It is reduced to the sniffed type as a parameter. A failed download is not modelled.
- `ORDER BY` in the queries is not modelled. Results are maps, so row order matters only where a later row overwrites an earlier one.
- `slugify` is a parameter, so no property of it (injectivity, idempotence, output alphabet) is used or proved.
- The inline substitutions of `markdown_to_html` are modelled as left-to-right scans for a literal delimiter. This is argued equal to the non-greedy `re.sub` patterns but is not a regular-expression semantics.
- Python's `lower()` is modelled on ASCII letters only.
- In the service, a JSON body that is not an object, a field of another type in a delete or upload body (see the two `UploadToDb` lines below), and GET requests to `/api/...` paths are not modelled. Neither are werkzeug's trailing-slash redirects (`strict_slashes=False`).
- The environment checks at import time, the keep-alive scheduler and `/ping`'s JSON body are not modelled. Only the ping route is.
- `app.py` imports `save_to_db`, which `utils/db_utils.py` does not define (it defines `upload_to_db`). The service therefore cannot start. The model gives its endpoints an abstract store outcome and checks them against the JSON store's `upload_to_db`.
- `bot/process.py` and `utils/logging_config.py` are not part of this model.
- Processing.Process: the call to the extractor is the `extract` parameter, so the contract states what it is given and that its answer is returned as it is, not what the vision model answers.
- Session.Edit: the `update` parameter stands for the three field assignments. The contract states the field change only through `update`, and the three wrappers state it per field.
- JsonStore.JsonStore.UploadToDb: a field that is present but JSON null or not a string ("author", "title", "text", "request_id") makes `.strip()` raise AttributeError, which the service answers with a 500. The model's fields are `Option<string>`, absent or a string, so such a body cannot be expressed and the upload always succeeds for a non-empty user id.
- SqlStore.Database.UploadToDb: the same null or non-string fields are not modelled. Neither are the column widths: an author, author slug, title, title slug, user id or request id over 255 characters, or a poem URL over 511, makes an INSERT fail with a 500, possibly after the earlier steps have committed. The model's tables have no width limits, so these uploads succeed in the model.
- Session.Bot: the handlers build their URLs as written, `f"{domain}/{path}"`, so for a domain ending in "/" they use the double slash the source sends. The corrected `Url` is not what the class runs; `Session.UploadLinkCorrected` states that the two agree for any domain without a trailing slash.
- Api.ServeApi and Api.ServeApp: a path one of the framework's rules takes gets the `Framework` view, which stands for whatever Flask or flasgger answers. The static folder's contents, the documentation page and the specification JSON are not modelled. A static file that does not exist is Flask's 404, which the 404 handler answers with the not-found page. Rules flasgger adds beyond `apidocs/`, `apispec_1.json` and `flasgger_static/` are not modelled.
- Api.Respond: the store outcome is a parameter `stored` rather than a call into a store class. The end-to-end lemmas tie it to the stores.
- Api.RejectedNeverStores, Api.MissingFieldBeforeAuthorization, Api.UnlistedUserGets401 and Api.UnlistedUserViewReturnsNone: these follow from the contracts of `Precheck`, `Respond` and `PoemViewOthersAsWritten` and need no proof of their own. They restate the decision order as standalone facts.

## Findings

| source | as written | input that shows it | evidently intended | confidence | as-written member | corrected member |
|---|---|---|---|---|---|---|
| api/app.py:184-196 | the not-found return of `view_poem_others` sits inside the `if is_authorized` branch, so an unlisted user makes the view return None; Flask turns that into a 500, and the 500 handler then renders the not-found page | user "2", allow list {"1"}, any author and title | return the not-found page directly, as every other view does | not executed | Api.PoemViewOthersAsWritten | Api.ShowPoem |
| main.py:48 | the production `POEM_DOMAIN` ends in "/", and the handlers build `f"{POEM_DOMAIN}/api/..."`, so every request URL and poem link has "//" after the host | any path, with the production domain | one slash between domain and path, as with the localhost domain | not executed | Session.UrlAsWritten | Session.Url |
