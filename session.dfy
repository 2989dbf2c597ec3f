/**
 * The capture session of the Telegram bot (bot/main.py; main.py holds the same logic):
 * the two module-level maps `user_sessions` (user to request id) and `user_data` (user to
 * the draft author, title and text), and the session directories under TEMP_DIR holding
 * the images in the order they arrived. Request ids, the sniffed image type, the poem
 * extractor and the HTTP calls to the poem API are parameters.
 */
module Session {
  import opened Common
  import opened Text
  import opened Escape
  import Processing
  import Fences

  // ---------------------------------------------------------------------------
  // Decimal text: `str(user_id)` and `f"{n:03d}"`

  function DigitChar(d: nat): (c: char)
    requires d < 10
    ensures '0' <= c <= '9'
  {
    (48 + d) as char
  }

  /** `str(n)` for a natural number. */
  function Decimal(n: nat): (s: string)
    ensures |s| >= 1
    ensures forall k :: 0 <= k < |s| ==> '0' <= s[k] <= '9'
  {
    if n < 10 then [DigitChar(n)] else Decimal(n / 10) + [DigitChar(n % 10)]
  }

  /** The number a text of decimal digits denotes. */
  function Value(s: string): nat
    requires forall k :: 0 <= k < |s| ==> '0' <= s[k] <= '9'
  {
    if s == [] then 0 else 10 * Value(s[..|s| - 1]) + (s[|s| - 1] as int - 48)
  }

  /** `str` loses nothing: the text reads back as the number. */
  lemma {:induction false} DecimalValue(n: nat)
    ensures Value(Decimal(n)) == n
  {
    if n >= 10 {
      DecimalValue(n / 10);
      var s := Decimal(n);
      assert s[..|s| - 1] == Decimal(n / 10);
    }
  }

  /** `f"{n:03d}"`: the decimal text, zero-padded on the left to at least three digits. */
  function Pad3(n: nat): string
  {
    var d := Decimal(n);
    if |d| >= 3 then d else seq(3 - |d|, _ => '0') + d
  }

  /** Below 1000 the padded text is exactly the three digits. */
  lemma Pad3Digits(n: nat)
    requires n < 1000
    ensures Pad3(n) == [DigitChar(n / 100), DigitChar(n / 10 % 10), DigitChar(n % 10)]
  {
    if n < 10 {
      assert Decimal(n) == [DigitChar(n)];
    } else if n < 100 {
      assert Decimal(n) == [DigitChar(n / 10), DigitChar(n % 10)];
    } else {
      assert n / 10 / 10 == n / 100;
      assert Decimal(n / 10) == [DigitChar(n / 100), DigitChar(n / 10 % 10)];
    }
  }

  // ---------------------------------------------------------------------------
  // `sorted()` on file names

  /** Python's `<` on strings: the first differing character decides, and a proper prefix comes first. */
  predicate LexLess(a: string, b: string)
  {
    if a == [] then b != []
    else b != [] && (a[0] < b[0] || (a[0] == b[0] && LexLess(a[1..], b[1..])))
  }

  lemma {:induction false} LexLessAsymmetric(a: string, b: string)
    requires LexLess(a, b)
    ensures !LexLess(b, a)
  {
    if a != [] && a[0] == b[0] {
      LexLessAsymmetric(a[1..], b[1..]);
    }
  }

  /** A common prefix does not change the comparison. */
  lemma {:induction false} LexLessPrefix(p: string, a: string, b: string)
    ensures LexLess(p + a, p + b) == LexLess(a, b)
  {
    if p != [] {
      assert (p + a)[1..] == p[1..] + a;
      assert (p + b)[1..] == p[1..] + b;
      LexLessPrefix(p[1..], a, b);
    } else {
      assert p + a == a && p + b == b;
    }
  }

  function Insert(x: string, s: seq<string>): seq<string>
  {
    if s == [] then [x]
    else if LexLess(s[0], x) then [s[0]] + Insert(x, s[1..])
    else [x] + s
  }

  /** `sorted(names)`, as an insertion sort. */
  function Sort(s: seq<string>): seq<string>
  {
    if s == [] then [] else Insert(s[0], Sort(s[1..]))
  }

  predicate Increasing(s: seq<string>)
  {
    forall i, j :: 0 <= i < j < |s| ==> LexLess(s[i], s[j])
  }

  /** Names already in increasing order are left where they are. */
  lemma {:induction false} SortIncreasing(s: seq<string>)
    requires Increasing(s)
    ensures Sort(s) == s
  {
    if s != [] {
      SortIncreasing(s[1..]);
      if |s| > 1 {
        LexLessAsymmetric(s[0], s[1]);
        assert s == [s[0]] + s[1..];
      }
    }
  }

  // ---------------------------------------------------------------------------
  // The images of a session directory

  /** The name `handle_image` gives the `n`-th stored image: `.jpg` for JPEG, `.png` for PNG. */
  function ImageName(n: nat, jpeg: bool): string
  {
    Pad3(n) + (if jpeg then ".jpg" else ".png")
  }

  /** The `n`-th name in a directory is the `n`-th image name, for `n` from 1 on. */
  ghost predicate InArrivalOrder(files: seq<string>)
  {
    forall k :: 0 <= k < |files| ==> files[k] == ImageName(k + 1, true) || files[k] == ImageName(k + 1, false)
  }

  /** `[f for f in os.listdir(d) if f.lower().endswith((".jpg", ".jpeg", ".png"))]`. */
  function Images(files: seq<string>): (r: seq<string>)
    ensures |r| <= |files|
  {
    if files == [] then []
    else if Processing.HasImageExtension(files[|files| - 1]) then Images(files[..|files| - 1]) + [files[|files| - 1]]
    else Images(files[..|files| - 1])
  }

  lemma ImageNameAccepted(n: nat, jpeg: bool)
    ensures Processing.HasImageExtension(ImageName(n, jpeg))
  {
    var ext := if jpeg then ".jpg" else ".png";
    assert Lower(ext) == ext;
    Processing.ImageExtensionAccepted(Pad3(n), ext);
  }

  /** Every file of a directory in arrival order is one of its images. */
  lemma {:induction false} ImagesInArrivalOrder(files: seq<string>)
    requires InArrivalOrder(files)
    ensures Images(files) == files
    decreases |files|
  {
    if files != [] {
      var init := files[..|files| - 1];
      ArrivalLast(files);
      ImagesInArrivalOrder(init);
      ImagesSnoc(files);
      InitThenLast(files);
    }
  }

  lemma ArrivalLast(files: seq<string>)
    requires files != [] && InArrivalOrder(files)
    ensures InArrivalOrder(files[..|files| - 1]) && Processing.HasImageExtension(files[|files| - 1])
  {
    var last := |files| - 1;
    ImageNameAccepted(last + 1, files[last] == ImageName(last + 1, true));
  }

  lemma InitThenLast<T>(s: seq<T>)
    requires s != []
    ensures s[..|s| - 1] + [s[|s| - 1]] == s
  {
  }

  lemma ImagesSnoc(files: seq<string>)
    requires files != [] && Processing.HasImageExtension(files[|files| - 1])
    ensures Images(files) == Images(files[..|files| - 1]) + [files[|files| - 1]]
  {
  }

  /** What `handle_image` replies once a session exists. */
  datatype ImageOutcome =
    | Full                   // MAX_IMAGES reached: the image is not stored
    | Unsupported            // neither JPEG nor PNG: the temporary file is removed
    | Stored(name: string)

  /**
   * `handle_image` on the file list of the session directory: no image once the count of
   * image files is at least `maxImages`; otherwise the file is downloaded under the next
   * ordinal, then kept as `.jpg` or `.png` if the sniffed type is JPEG or PNG and removed
   * otherwise.
   */
  function Admit(files: seq<string>, maxImages: int, sniffed: Option<string>): (r: (ImageOutcome, seq<string>))
    ensures r.0.Full? <==> |Images(files)| >= maxImages
    ensures r.0.Stored? <==> |Images(files)| < maxImages && sniffed in {Some("jpeg"), Some("png")}
    ensures !r.0.Stored? ==> r.1 == files
    ensures r.0.Stored? ==> r.1 == files + [r.0.name] && |Images(r.1)| == |Images(files)| + 1 <= maxImages
    ensures r.0.Stored? ==> r.0.name == ImageName(|Images(files)| + 1, sniffed == Some("jpeg"))
  {
    var count := |Images(files)|;
    if count >= maxImages then (Full, files)
    else if sniffed != Some("jpeg") && sniffed != Some("png") then (Unsupported, files)
    else
      var name := ImageName(count + 1, sniffed == Some("jpeg"));
      ImageNameAccepted(count + 1, sniffed == Some("jpeg"));
      assert (files + [name])[..|files|] == files;
      (Stored(name), files + [name])
  }

  /** Admission keeps a directory in arrival order. */
  lemma AdmitKeepsOrder(files: seq<string>, maxImages: int, sniffed: Option<string>)
    requires InArrivalOrder(files)
    ensures InArrivalOrder(Admit(files, maxImages, sniffed).1)
  {
    ImagesInArrivalOrder(files);
    var r := Admit(files, maxImages, sniffed);
    if r.0.Stored? {
      var jpeg := sniffed == Some("jpeg");
      assert r.1 == files + [ImageName(|files| + 1, jpeg)];
      ArrivalSnoc(files, jpeg);
    }
  }

  /** The next ordinal appended to a directory in arrival order keeps it so. */
  lemma ArrivalSnoc(files: seq<string>, jpeg: bool)
    requires InArrivalOrder(files)
    ensures InArrivalOrder(files + [ImageName(|files| + 1, jpeg)])
  {
    var r := files + [ImageName(|files| + 1, jpeg)];
    forall k | 0 <= k < |r| ensures r[k] == ImageName(k + 1, true) || r[k] == ImageName(k + 1, false)
    {
      if k < |files| {
        assert r[k] == files[k];
      }
    }
  }

  /** `os.path.join(a, b)` for two parts. */
  function PathJoin(a: string, b: string): string
  {
    if StartsWith(b, "/") then b
    else if a == [] || EndsWith(a, "/") then a + b
    else a + "/" + b
  }

  /** The image paths `/process` hands on: the image files of `dir`, joined to it and sorted. */
  function ImagePaths(dir: string, files: seq<string>): seq<string>
  {
    var images := Images(files);
    Sort(seq(|images|, i requires 0 <= i < |images| => PathJoin(dir, images[i])))
  }

  /** The first position where two texts differ decides, whatever follows them. */
  lemma {:induction false} FirstDifference(p: string, q: string, k: nat, x: string, y: string)
    requires k < |p| && k < |q| && p[..k] == q[..k] && p[k] < q[k]
    ensures LexLess(p + x, q + y)
    decreases k
  {
    if k > 0 {
      assert p[0] == p[..k][0] == q[..k][0] == q[0];
      assert p[1..][..k - 1] == p[..k][1..] && q[1..][..k - 1] == q[..k][1..];
      FirstDifference(p[1..], q[1..], k - 1, x, y);
      assert (p + x)[1..] == p[1..] + x && (q + y)[1..] == q[1..] + y;
    }
  }

  /** Three-digit ordinals compare like the numbers they stand for. */
  lemma OrdinalOrder(i: nat, j: nat, x: string, y: string)
    requires 1 <= i < j < 1000
    ensures LexLess(Pad3(i) + x, Pad3(j) + y)
  {
    Pad3Digits(i);
    Pad3Digits(j);
    DigitsOrder(i, j);
    var p, q := Pad3(i), Pad3(j);
    if i / 100 < j / 100 {
      FirstDifference(p, q, 0, x, y);
    } else if i / 10 % 10 < j / 10 % 10 {
      assert p[..1] == q[..1];
      FirstDifference(p, q, 1, x, y);
    } else {
      assert p[..2] == q[..2];
      FirstDifference(p, q, 2, x, y);
    }
  }

  /** Below 1000, the order of two numbers is the lexicographic order of their three digits. */
  lemma DigitsOrder(i: nat, j: nat)
    requires i < j < 1000
    ensures || i / 100 < j / 100
            || (i / 100 == j / 100 && i / 10 % 10 < j / 10 % 10)
            || (i / 100 == j / 100 && i / 10 % 10 == j / 10 % 10 && i % 10 < j % 10)
  {
    assert i / 10 / 10 == i / 100 && j / 10 / 10 == j / 100;
    assert i == i / 10 * 10 + i % 10 && j == j / 10 * 10 + j % 10;
    assert i / 10 == i / 100 * 10 + i / 10 % 10 && j / 10 == j / 100 * 10 + j / 10 % 10;
  }

  /** The slash-terminated directory text that `PathJoin` puts in front of a relative name. */
  function DirPrefix(dir: string): string
  {
    if dir == [] || EndsWith(dir, "/") then dir else dir + "/"
  }

  lemma JoinRelative(dir: string, name: string, n: nat, jpeg: bool)
    requires name == ImageName(n, jpeg) && n < 1000
    ensures PathJoin(dir, name) == DirPrefix(dir) + name
  {
    Pad3Digits(n);
    assert name[0] == Pad3(n)[0];
  }

  /** Paths of two images of a directory in arrival order compare as their ordinals. */
  lemma PathPairOrder(dir: string, files: seq<string>, i: nat, j: nat)
    requires InArrivalOrder(files) && i < j < |files| <= 999
    ensures LexLess(PathJoin(dir, files[i]), PathJoin(dir, files[j]))
  {
    var jpegI, jpegJ := files[i] == ImageName(i + 1, true), files[j] == ImageName(j + 1, true);
    assert files[i] == ImageName(i + 1, jpegI);
    assert files[j] == ImageName(j + 1, jpegJ);
    NamePairOrder(dir, i + 1, j + 1, jpegI, jpegJ);
  }

  lemma NamePairOrder(dir: string, n: nat, m: nat, jpegN: bool, jpegM: bool)
    requires 1 <= n < m < 1000
    ensures LexLess(PathJoin(dir, ImageName(n, jpegN)), PathJoin(dir, ImageName(m, jpegM)))
  {
    JoinRelative(dir, ImageName(n, jpegN), n, jpegN);
    JoinRelative(dir, ImageName(m, jpegM), m, jpegM);
    LexLessPrefix(DirPrefix(dir), ImageName(n, jpegN), ImageName(m, jpegM));
    OrdinalOrder(n, m, if jpegN then ".jpg" else ".png", if jpegM then ".jpg" else ".png");
  }

  /**
   * With at most 999 images, sorting the paths gives back the arrival order: the order in
   * which the user sent the pages is the order the extractor reads them.
   */
  lemma SortedIsArrivalOrder(dir: string, files: seq<string>)
    requires InArrivalOrder(files) && |files| <= 999
    ensures ImagePaths(dir, files) == seq(|files|, i requires 0 <= i < |files| => PathJoin(dir, files[i]))
  {
    ImagesInArrivalOrder(files);
    var paths := seq(|files|, i requires 0 <= i < |files| => PathJoin(dir, files[i]));
    forall i, j | 0 <= i < j < |paths|
      ensures LexLess(paths[i], paths[j])
    {
      PathPairOrder(dir, files, i, j);
    }
    SortIncreasing(paths);
  }

  /** From the thousandth image on, the ordinals no longer sort in arrival order. */
  lemma ThousandthImageSortsFirst()
    ensures LexLess(ImageName(1000, true), ImageName(999, true))
  {
    assert Decimal(100) == ['1', '0', '0'];
    assert Decimal(1000) == ['1', '0', '0', '0'];
    Pad3Digits(999);
  }

  // ---------------------------------------------------------------------------
  // Command arguments

  /** The position of the first `c` in `s`, if there is one. */
  function Find(s: string, c: char): (r: Option<nat>)
    ensures r.None? <==> c !in s
    ensures r.Some? ==> r.value < |s| && s[r.value] == c && c !in s[..r.value]
  {
    if s == [] then None
    else if s[0] == c then Some(0)
    else match Find(s[1..], c)
      case None => None
      case Some(i) =>
        assert s[..i + 1] == [s[0]] + s[1..][..i];
        Some(i + 1)
  }

  lemma FindAfter(a: string, c: char, b: string)
    requires c !in a
    ensures Find(a + [c] + b, c) == Some(|a|)
  {
    var s := a + [c] + b;
    assert s[|a|] == c;
    assert s[..|a|] == a;
  }

  /**
   * `title, author = map(str.strip, raw_text.split("&", 1))` followed by the check that
   * neither part is empty; None where the handler catches the ValueError.
   */
  function ParseTitleAuthor(raw: string): (r: Option<(string, string)>)
    ensures '&' !in raw ==> r.None?
    ensures r.Some? ==> r.value.0 != [] && r.value.1 != [] && '&' !in r.value.0
    ensures r.Some? ==> Stripped(r.value.0) && Stripped(r.value.1)
  {
    match Find(raw, '&')
    case None => None
    case Some(i) =>
      var title, author := Strip(raw[..i]), Strip(raw[i + 1..]);
      if title == [] || author == [] then None
      else
        StripInside(raw[..i]);
        Some((title, author))
  }

  lemma StripInside(s: string)
    ensures forall c :: c in Strip(s) ==> c in s
  {
    StripRemovesOnlySpace(s);
  }

  /** `Title & Author`, with any whitespace around either part, gives back the two parts. */
  lemma ParseTitleAuthorJoined(w1: string, title: string, w2: string, w3: string, author: string, w4: string)
    requires AllSpace(w1) && AllSpace(w2) && AllSpace(w3) && AllSpace(w4)
    requires Stripped(title) && title != [] && '&' !in title
    requires Stripped(author) && author != []
    ensures ParseTitleAuthor((w1 + title + w2) + "&" + (w3 + author + w4)) == Some((title, author))
  {
    var before := w1 + title + w2;
    assert '&' !in w1 && '&' !in w2 by {
      assert !IsSpace('&');
    }
    StripPadded(w1, title, w2);
    StripPadded(w3, author, w4);
    ParseAt(before, w3 + author + w4);
  }

  /** The text splits at its first '&' into the stripped parts. */
  lemma ParseAt(before: string, after: string)
    requires '&' !in before
    ensures ParseTitleAuthor(before + "&" + after) ==
      if Strip(before) == [] || Strip(after) == [] then None else Some((Strip(before), Strip(after)))
  {
    var raw := before + "&" + after;
    FindAfter(before, '&', after);
    assert raw[..|before|] == before;
    assert raw[|before| + 1..] == after;
  }

  /** A part that is only whitespace is rejected. */
  lemma ParseTitleAuthorEmptyPart(w: string, rest: string)
    requires AllSpace(w)
    ensures ParseTitleAuthor(w + "&" + rest) == None
    ensures '&' !in rest ==> ParseTitleAuthor(rest + "&" + w) == None
  {
    assert '&' !in w by {
      assert !IsSpace('&');
    }
    StripAllSpace(w);
    ParseAt(w, rest);
    if '&' !in rest {
      ParseAt(rest, w);
    }
  }

  /** `message.text.partition(" ")[2]`: what follows the first space, or nothing. */
  function AfterSpace(msg: string): (r: string)
    ensures |r| < |msg| || r == []
  {
    match Find(msg, ' ')
    case None => []
    case Some(i) => msg[i + 1..]
  }

  /** The text of `/editpoem <text>` is everything after the command word, line breaks included. */
  lemma AfterSpaceCommand(command: string, body: string)
    requires ' ' !in command
    ensures AfterSpace(command + " " + body) == body
  {
    FindAfter(command, ' ', body);
    assert (command + " " + body)[|command| + 1..] == body;
  }

  /** `value or default`. */
  function OrDefault(value: string, default: string): (r: string)
    ensures default != [] ==> r != []
    ensures r == value || (value == [] && r == default)
  {
    if value == [] then default else value
  }

  // ---------------------------------------------------------------------------
  // The allow-list of the bot

  /** `str(user_id) in ALLOWED_USER_ID.split(",")`: the entries are compared as written, untrimmed. */
  predicate Authorized(user: nat, allowed: string)
  {
    Decimal(user) in Split(allowed, ',')
  }

  /** A comma-joined list of ids admits exactly the users it names. */
  lemma AuthorizedList(user: nat, ids: seq<string>)
    requires |ids| >= 1 && forall k :: 0 <= k < |ids| ==> ',' !in ids[k]
    ensures Authorized(user, Join(ids, ",")) <==> Decimal(user) in ids
  {
    SplitJoin(ids, ',');
  }

  /** A space after the comma keeps the next user out. */
  lemma SpaceAfterCommaExcludes()
    ensures !Authorized(42, "7, 42")
  {
    assert Decimal(42) == "42";
    SplitSpacedList();
  }

  /** The list `7, 42` splits at its comma into `7` and ` 42`, space included. */
  lemma SplitSpacedList()
    ensures Split("7, 42", ',') == ["7", " 42"]
  {
    SplitAtSep("7", ',', " 42");
    SplitNoSep(" 42", ',');
    assert "7, 42" == "7" + [','] + " 42";
  }

  // ---------------------------------------------------------------------------
  // The draft and the session state

  /** The `user_data` entry: author, title and text; title and text start as None. */
  datatype Draft = Draft(author: string, title: Option<string>, text: Option<string>)

  const NewDraft := Draft("Unknown", None, None)

  /** `all([data.get("author"), data.get("title"), data.get("text")])`: every field set and non-empty. */
  predicate Complete(d: Draft)
  {
    d.author != [] && d.title.Some? && d.title.value != [] && d.text.Some? && d.text.value != []
  }

  /** `data.get(key) or default`, as `/getinfo` shows a field. */
  function Shown(v: Option<string>, default: string): (r: string)
    ensures default != [] ==> r != []
  {
    if v.None? then default else OrDefault(v.value, default)
  }

  /**
   * What `/process` stores from the extractor's answer, and whether it got through. A None
   * field is the TypeError `escape_markdown(None)` raises: the title, assigned first, is
   * already stored when the text fails.
   */
  function Fill(d: Draft, x: Fences.Extraction): (r: (Draft, bool))
    ensures r.0.author == d.author
    ensures r.1 <==> x.title.Some? && x.markdown.Some?
    ensures x.title.None? ==> r.0 == d
    ensures x.title.Some? ==> r.0.title.Some? && r.0.title.value != [] && Stripped(r.0.title.value)
    ensures r.1 ==> r.0.text.Some? && r.0.text.value != [] && Stripped(r.0.text.value)
    ensures !r.1 ==> r.0.text == d.text
  {
    match x.title
    case None => (d, false)
    case Some(t) =>
      var withTitle := d.(title := Some(Escaped(t, "Untitled")));
      match x.markdown
      case None => (withTitle, false)
      case Some(m) => (withTitle.(text := Some(Escaped(m, "Empty"))), true)
  }

  /** `escape_markdown(value) or default`, for the two defaults `/process` uses. */
  function Escaped(value: string, default: string): (r: string)
    requires default in ["Untitled", "Empty"]
    ensures r != [] && Stripped(r)
    ensures r == EscapeMarkdown(value) || (EscapeMarkdown(value) == [] && r == default)
  {
    assert !IsSpace('U') && !IsSpace('d') && !IsSpace('E') && !IsSpace('y');
    OrDefault(EscapeMarkdown(value), default)
  }

  /** Text without Markdown characters is stored as extracted. */
  lemma FillPlain(d: Draft, title: string, text: string)
    requires NoSpecial(title) && NoSpecial(text) && Stripped(title) && Stripped(text)
    requires title != [] && text != []
    ensures Fill(d, Fences.Extraction(Some(title), Some(text))) == (d.(title := Some(title), text := Some(text)), true)
  {
    EscapeNoSpecial(title);
    EscapeNoSpecial(text);
    StrippedFixed(title);
    StrippedFixed(text);
  }

  /** The empty extraction of an image-less call shows the placeholders. */
  lemma FillEmpty(d: Draft)
    ensures Fill(d, Fences.Extraction(Some([]), Some([]))) == (d.(title := Some("Untitled"), text := Some("Empty")), true)
  {
    assert EscapeRaw([]) == [];
    assert Strip([]) == [];
  }

  /** `user_sessions`, `user_data` and the session directories under TEMP_DIR, by request id. */
  datatype State = State(sessions: map<nat, string>, data: map<nat, Draft>, dirs: map<string, seq<string>>)

  function Cap(maxImages: int): nat
  {
    if maxImages < 0 then 0 else maxImages
  }

  /**
   * The bookkeeping the handlers keep: a draft for exactly the users with a session, one
   * non-empty request id per session and one directory per request id, holding at most
   * MAX_IMAGES images named in arrival order; the author is never empty and a title or
   * text, once set, is never empty either.
   */
  ghost predicate Consistent(s: State, maxImages: int)
  {
    Registered(s) && DirsOk(s.dirs, maxImages) && DraftsOk(s.data)
  }

  /** Sessions, drafts and directories belong together one to one. */
  ghost predicate Registered(s: State)
  {
    && s.sessions.Keys == s.data.Keys
    && (forall u :: u in s.sessions ==> s.sessions[u] != [])
    && Injective(s.sessions)
    && s.dirs.Keys == s.sessions.Values
  }

  ghost predicate DraftsOk(data: map<nat, Draft>)
  {
    forall u :: u in data ==> DraftOk(data[u])
  }

  /** Every directory is in arrival order and holds at most the cap. */
  ghost predicate DirsOk(dirs: map<string, seq<string>>, maxImages: int)
  {
    forall r :: r in dirs ==> InArrivalOrder(dirs[r]) && |dirs[r]| <= Cap(maxImages)
  }

  /** No two keys share a value. */
  ghost predicate Injective(m: map<nat, string>)
  {
    forall a, b :: a in m && b in m && a != b ==> m[a] != m[b]
  }

  predicate DraftOk(d: Draft)
  {
    d.author != [] && (d.title.Some? ==> d.title.value != []) && (d.text.Some? ==> d.text.value != [])
  }

  /** A request id that no live session uses (`uuid4().hex[:16]` is taken to be new). */
  ghost predicate Unused(s: State, rid: string)
  {
    rid != [] && rid !in s.dirs
  }

  /** `delete_user_session(user)`: both map entries and the session directory go. */
  function Dropped(s: State, user: nat): (r: State)
    ensures user !in r.sessions && user !in r.data
    ensures forall u :: u != user ==> (u in r.sessions <==> u in s.sessions) && (u in r.data <==> u in s.data)
    ensures forall u :: u != user && u in s.sessions ==> r.sessions[u] == s.sessions[u]
    ensures forall u :: u != user && u in s.data ==> r.data[u] == s.data[u]
    ensures user !in s.sessions && user !in s.data ==> r == s
  {
    if user in s.sessions then State(s.sessions - {user}, s.data - {user}, s.dirs - {s.sessions[user]})
    else State(s.sessions, s.data - {user}, s.dirs)
  }

  /** Deleting keeps the bookkeeping consistent, and removes the user's directory only. */
  lemma DroppedConsistent(s: State, maxImages: int, user: nat)
    requires Consistent(s, maxImages)
    ensures Consistent(Dropped(s, user), maxImages)
    ensures user in s.sessions ==> Dropped(s, user).dirs == s.dirs - {s.sessions[user]}
  {
    if user in s.sessions {
      var rid := s.sessions[user];
      ClosedRegistered(s, user);
      assert DirsOk(s.dirs - {rid}, maxImages);
      assert DraftsOk(s.data - {user});
    }
  }

  lemma ClosedRegistered(s: State, user: nat)
    requires Registered(s) && user in s.sessions
    ensures Registered(State(s.sessions - {user}, s.data - {user}, s.dirs - {s.sessions[user]}))
  {
    var r := State(s.sessions - {user}, s.data - {user}, s.dirs - {s.sessions[user]});
    var rid := s.sessions[user];
    forall x | x in r.dirs ensures x in r.sessions.Values
    {
      var u :| u in s.sessions && s.sessions[u] == x;
      assert u != user;
      assert r.sessions[u] == x;
    }
    forall x | x in r.sessions.Values ensures x in r.dirs
    {
      var u :| u in r.sessions && r.sessions[u] == x;
      assert s.sessions[u] != rid;
    }
  }

  /** Deleting a second time changes nothing. */
  lemma DroppedTwice(s: State, user: nat)
    ensures Dropped(Dropped(s, user), user) == Dropped(s, user)
  {
  }

  /** `create_session(user)`: the old session goes, then the new id maps to an empty directory and a fresh draft. */
  function Created(s: State, user: nat, rid: string): (r: State)
    ensures r.sessions == Dropped(s, user).sessions[user := rid]
    ensures r.data == Dropped(s, user).data[user := NewDraft]
    ensures rid in r.dirs && r.dirs[rid] == []
    ensures user in s.sessions && s.sessions[user] != rid ==> s.sessions[user] !in r.dirs
  {
    var d := Dropped(s, user);
    State(d.sessions[user := rid], d.data[user := NewDraft], d.dirs[rid := []])
  }

  lemma CreatedConsistent(s: State, maxImages: int, user: nat, rid: string)
    requires Consistent(s, maxImages) && Unused(s, rid)
    ensures Consistent(Created(s, user, rid), maxImages)
  {
    DroppedConsistent(s, maxImages, user);
    var d := Dropped(s, user);
    assert d.dirs.Keys <= s.dirs.Keys;
    OpenedConsistent(d, maxImages, user, rid);
  }

  /** A new session for a user without one, under a request id nobody uses. */
  lemma OpenedConsistent(d: State, maxImages: int, user: nat, rid: string)
    requires Consistent(d, maxImages) && Unused(d, rid) && user !in d.sessions
    ensures Consistent(State(d.sessions[user := rid], d.data[user := NewDraft], d.dirs[rid := []]), maxImages)
  {
    OpenedRegistered(d, user, rid);
    AddedDir(d.dirs, rid, maxImages);
  }

  lemma OpenedRegistered(d: State, user: nat, rid: string)
    requires Registered(d) && Unused(d, rid) && user !in d.sessions
    ensures Registered(State(d.sessions[user := rid], d.data[user := NewDraft], d.dirs[rid := []]))
  {
    AddedValues(d.sessions, user, rid);
    AddedDistinct(d.sessions, user, rid);
    AddedKeys(d.dirs, rid, []);
    AddedKeys(d.sessions, user, rid);
    AddedKeys(d.data, user, NewDraft);
  }

  lemma AddedKeys<K, V>(m: map<K, V>, key: K, v: V)
    ensures m[key := v].Keys == m.Keys + {key}
  {
  }

  /** The directories stay in arrival order and within the cap when an empty one is added. */
  lemma AddedDir(dirs: map<string, seq<string>>, rid: string, maxImages: int)
    requires DirsOk(dirs, maxImages)
    ensures DirsOk(dirs[rid := []], maxImages)
  {
    var r := dirs[rid := []];
    forall x | x in r
      ensures InArrivalOrder(r[x]) && |r[x]| <= Cap(maxImages)
    {
      if x != rid {
        assert r[x] == dirs[x];
      }
    }
  }

  lemma AddedValues(m: map<nat, string>, key: nat, v: string)
    requires key !in m
    ensures m[key := v].Values == m.Values + {v}
  {
    var r := m[key := v];
    forall x | x in r.Values ensures x in m.Values + {v}
    {
      var k :| k in r && r[k] == x;
      if k != key {
        assert m[k] == x;
      }
    }
    forall x | x in m.Values ensures x in r.Values
    {
      var k :| k in m && m[k] == x;
      assert r[k] == x;
    }
    assert r[key] == v;
  }

  lemma AddedDistinct(m: map<nat, string>, key: nat, v: string)
    requires key !in m && v !in m.Values
    requires Injective(m)
    ensures Injective(m[key := v])
  {
    var r := m[key := v];
    forall a, b | a in r && b in r && a != b
      ensures r[a] != r[b]
    {
      if a != key && b != key {
        assert r[a] == m[a] && r[b] == m[b];
      } else if a == key {
        assert m[b] in m.Values;
      } else {
        assert m[a] in m.Values;
      }
    }
  }

  /** Starting a session twice leaves only the second one, with nothing kept from the first. */
  lemma CreatedTwice(s: State, user: nat, rid1: string, rid2: string)
    requires rid1 != rid2 && rid1 !in s.dirs && (user in s.sessions ==> s.sessions[user] != rid1)
    ensures Created(Created(s, user, rid1), user, rid2) == Created(s, user, rid2)
  {
    var d := Dropped(s, user);
    var once := Created(s, user, rid1);
    assert Dropped(once, user).sessions == d.sessions;
    assert Dropped(once, user).data == d.data;
    assert Dropped(once, user).dirs == d.dirs;
  }

  /** `user_sessions.get(user) or create_session(user)`. */
  function Ensured(s: State, user: nat, rid: string): (r: State)
    ensures user in r.sessions
    ensures user in s.sessions ==> r == s
  {
    if user in s.sessions then s else Created(s, user, rid)
  }

  lemma EnsuredConsistent(s: State, maxImages: int, user: nat, rid: string)
    requires Consistent(s, maxImages) && Unused(s, rid)
    ensures Consistent(Ensured(s, user, rid), maxImages) && user in Ensured(s, user, rid).data
  {
    if user !in s.sessions {
      CreatedConsistent(s, maxImages, user, rid);
    }
  }

  /** The draft the handlers read, or a fresh one where there is none. */
  function DraftOf(s: State, user: nat): Draft
  {
    if user in s.data then s.data[user] else NewDraft
  }

  /** `user_data[user] = d`. */
  function WithDraft(s: State, user: nat, d: Draft): (r: State)
    ensures r.sessions == s.sessions && r.dirs == s.dirs
    ensures r.data == s.data[user := d]
  {
    s.(data := s.data[user := d])
  }

  /** A second write to the same draft replaces the first. */
  lemma WithDraftTwice(s: State, user: nat, d1: Draft, d2: Draft)
    ensures WithDraft(WithDraft(s, user, d1), user, d2) == WithDraft(s, user, d2)
  {
    assert s.data[user := d1][user := d2] == s.data[user := d2];
  }

  lemma WithDraftConsistent(s: State, maxImages: int, user: nat, d: Draft)
    requires Consistent(s, maxImages) && user in s.data && DraftOk(d)
    ensures Consistent(WithDraft(s, user, d), maxImages)
  {
  }

  /** With consistent bookkeeping the upload gate waits only for a title and a text. */
  lemma GateOpen(s: State, maxImages: int, user: nat)
    requires Consistent(s, maxImages) && user in s.data
    ensures Complete(s.data[user]) <==> s.data[user].title.Some? && s.data[user].text.Some?
  {
    assert DraftOk(s.data[user]);
  }

  /** A new session's draft is not ready to upload: it has neither title nor text. */
  lemma NewSessionIncomplete(s: State, user: nat, rid: string)
    ensures !Complete(Created(s, user, rid).data[user])
  {
  }

  /** The image stage of `handle_image` once the user has a session: the directory gets the admitted file, if any. */
  function WithImage(s: State, user: nat, maxImages: int, sniffed: Option<string>): (r: (State, ImageOutcome))
    requires user in s.sessions
    ensures r.0.sessions == s.sessions && r.0.data == s.data
    ensures s.sessions[user] in s.dirs ==> r.0.dirs == s.dirs[s.sessions[user] := Admit(s.dirs[s.sessions[user]], maxImages, sniffed).1]
  {
    var id := s.sessions[user];
    var files := if id in s.dirs then s.dirs[id] else [];
    var (o, next) := Admit(files, maxImages, sniffed);
    (s.(dirs := s.dirs[id := next]), o)
  }

  /** Admission keeps the bookkeeping consistent: arrival order and the MAX_IMAGES cap hold. */
  lemma WithImageConsistent(s: State, user: nat, maxImages: int, sniffed: Option<string>)
    requires Consistent(s, maxImages) && user in s.sessions
    ensures Consistent(WithImage(s, user, maxImages, sniffed).0, maxImages)
  {
    var id := s.sessions[user];
    assert id in s.dirs;
    var files := s.dirs[id];
    ImagesInArrivalOrder(files);
    AdmitKeepsOrder(files, maxImages, sniffed);
    ImagesInArrivalOrder(Admit(files, maxImages, sniffed).1);
  }

  // ---------------------------------------------------------------------------
  // The Telegram handlers

  /** What the API answered: a status code and, for an upload, the `poem_url` of the JSON body. */
  datatype Response = Status(code: int, poemUrl: Option<string>) | NetworkError

  /** The reply a handler sends, named after its message key. */
  datatype Reply =
    | NotAuthorized                     // not_authorized
    | Started(author: string)           // start_ok
    | Incomplete                        // the command's argument is missing
    | BadFormat                         // deletepoem_format
    | Edited                            // edittitle_ok, editpoem_ok, editauthor_ok
    | ImageReply(outcome: ImageOutcome, atLimit: bool)
    | NoImages                          // process_noimage: no session
    | NoValidImages                     // process_imageerror
    | ProcessFailed                     // process_error
    | Info(author: string, title: string, text: string)
    | NoSession                         // nosession
    | UploadIncomplete                  // upload_incompleted
    | UploadedAt(link: string)          // upload_ok
    | Deleted                           // deleteall_ok, deleteauthor_ok, deletepoem_ok
    | Failed                            // another status, or a network error
    | Aborted                           // a 201 without `poem_url`: the KeyError escapes the handler
    | SessionReset                      // reset

  /** What an API answer means to a delete command, which expects 200. */
  function DeleteOutcome(resp: Response): (r: Reply)
    ensures r == Deleted <==> resp.Status? && resp.code == 200
    ensures r == Deleted || r == Failed
  {
    if resp.Status? && resp.code == 200 then Deleted else Failed
  }

  /** `f"{domain}/{path}"`, as the handlers build their URLs. */
  function UrlAsWritten(domain: string, path: string): string
  {
    domain + "/" + path
  }

  /** The production domain of main.py ends in a slash, so every URL built on it has two. */
  lemma ProductionUrlHasDoubleSlash(path: string)
    ensures UrlAsWritten("https://poem-parser.onrender.com/", path) == "https://poem-parser.onrender.com//" + path
  {
  }

  /** The domain and the path with exactly one slash between them. */
  function Url(domain: string, path: string): (r: string)
    ensures !EndsWith(domain, "/") ==> r == UrlAsWritten(domain, path)
    ensures EndsWith(domain, "/") ==> r == UrlAsWritten(domain[..|domain| - 1], path)
  {
    if EndsWith(domain, "/") then domain[..|domain| - 1] + "/" + path else domain + "/" + path
  }

  /** A trailing slash on the domain no longer changes the URL. */
  lemma UrlTrailingSlash(domain: string, path: string)
    requires !EndsWith(domain, "/")
    ensures Url(domain + "/", path) == Url(domain, path)
  {
    assert (domain + "/")[..|domain + "/"| - 1] == domain;
  }

  /**
   * The handlers build their URLs as written; with a domain that does not end in a slash
   * (the localhost domain, or a corrected production one) that is the corrected URL, and the
   * poem link of an upload is the poem's path under the domain with one slash.
   */
  lemma UploadLinkCorrected(resp: Response, domain: string)
    requires !EndsWith(domain, "/") && UploadOutcome(resp, domain).UploadedAt?
    ensures UploadOutcome(resp, domain).link == Url(domain, resp.poemUrl.value)
    ensures UploadOutcome(resp, domain).link[..|domain| + 1] == domain + "/"
  {
    var link := UploadOutcome(resp, domain).link;
    assert link == domain + "/" + resp.poemUrl.value;
    assert (domain + "/" + resp.poemUrl.value)[..|domain| + 1] == domain + "/";
  }

  /** What an upload answer means: the link on 201, built on the API's own domain. */
  function UploadOutcome(resp: Response, domain: string): (r: Reply)
    ensures r.UploadedAt? <==> resp.Status? && resp.code == 201 && resp.poemUrl.Some?
    ensures r.UploadedAt? ==> r.link == UrlAsWritten(domain, resp.poemUrl.value)
    ensures resp.Status? && resp.code == 201 && resp.poemUrl.None? <==> r == Aborted
  {
    match resp
    case Status(201, Some(url)) => UploadedAt(UrlAsWritten(domain, url))
    case Status(201, None) => Aborted
    case _ => Failed
  }

  /** `/getinfo`: the draft with "Untitled" and "Empty" in place of a missing title or text. */
  function DraftInfo(s: State, user: nat): (r: Reply)
    ensures user !in s.data <==> r == NoSession
    ensures user in s.data ==> r.Info? && r.author == s.data[user].author && r.title != [] && r.text != []
    ensures user in s.data && Complete(s.data[user]) ==>
      r == Info(s.data[user].author, s.data[user].title.value, s.data[user].text.value)
  {
    if user !in s.data then NoSession
    else
      var d := s.data[user];
      Info(d.author, Shown(d.title, "Untitled"), Shown(d.text, "Empty"))
  }

  /** What `/process` does with the extractor's result: the draft is filled, and shown if both fields came through. */
  function Processed(s: State, user: nat, result: Result<Fences.Extraction>): (State, Reply)
    requires user in s.data
  {
    match result
    case Err(_) => (s, ProcessFailed)
    case Ok(x) =>
      var (d, ok) := Fill(s.data[user], x);
      (WithDraft(s, user, d), if ok then Info(d.author, d.title.value, d.text.value) else ProcessFailed)
  }

  /** After a successful `/process`, `/getinfo` shows exactly what `/process` showed. */
  lemma ProcessedThenInfo(s: State, user: nat, result: Result<Fences.Extraction>)
    requires user in s.data && Processed(s, user, result).1.Info?
    ensures DraftInfo(Processed(s, user, result).0, user) == Processed(s, user, result).1
  {
    var x := result.value;
    var d := Fill(s.data[user], x).0;
    assert Processed(s, user, result).0.data[user] == d;
  }

  /** The JSON body of `/upload`: the user, the request id and the three draft fields. */
  function UploadPayload(user: nat, rid: string, d: Draft): map<string, string>
    requires d.title.Some? && d.text.Some?
  {
    map["user_id" := Decimal(user), "request_id" := rid, "author" := d.author,
        "title" := d.title.value, "text" := d.text.value]
  }

  /**
   * The bot's session bookkeeping (bot/main.py; main.py differs only in the upload path
   * `api/save_poem`, the command name `/done` and the domain).
   */
  class Bot {
    const tempDir: string
    const maxImages: int
    const allowed: string
    const domain: string
    const uploadPath: string
    var userSessions: map<nat, string>
    var userData: map<nat, Draft>
    var dirs: map<string, seq<string>>

    function St(): State
      reads this
    {
      State(userSessions, userData, dirs)
    }

    ghost predicate Valid()
      reads this
    {
      Consistent(St(), maxImages)
    }

    constructor(tempDir: string, maxImages: int, allowed: string, domain: string, uploadPath: string)
      ensures this.tempDir == tempDir && this.maxImages == maxImages && this.allowed == allowed
      ensures this.domain == domain && this.uploadPath == uploadPath
      ensures St() == State(map[], map[], map[]) && Valid()
    {
      this.tempDir := tempDir;
      this.maxImages := maxImages;
      this.allowed := allowed;
      this.domain := domain;
      this.uploadPath := uploadPath;
      userSessions := map[];
      userData := map[];
      dirs := map[];
    }

    /** `get_user_input_dir(user)`: None exactly when the user has no session. */
    function InputDir(user: nat): (r: Option<string>)
      reads this
      ensures Valid() ==> (r.None? <==> user !in userSessions)
      ensures r.Some? ==> user in userSessions && r.value == PathJoin(tempDir, userSessions[user])
    {
      if user !in userSessions || userSessions[user] == [] then None
      else Some(PathJoin(tempDir, userSessions[user]))
    }

    /** `delete_user_session(user)`. */
    method DeleteUserSession(user: nat)
      requires Valid()
      modifies this
      ensures St() == Dropped(old(St()), user) && Valid()
    {
      DroppedConsistent(St(), maxImages, user);
      var rid := if user in userSessions then userSessions[user] else [];
      userSessions := userSessions - {user};
      userData := userData - {user};
      if rid != [] {
        dirs := dirs - {rid};
      }
    }

    /** `create_session(user)`, with `rid` standing for the new uuid. */
    method CreateSession(user: nat, rid: string)
      requires Valid() && Unused(St(), rid)
      modifies this
      ensures St() == Created(old(St()), user, rid) && Valid()
    {
      CreatedConsistent(St(), maxImages, user, rid);
      DeleteUserSession(user);
      dirs := dirs[rid := []];
      userSessions := userSessions[user := rid];
      userData := userData[user := NewDraft];
    }

    /** `user_sessions.get(user) or create_session(user)`. */
    method EnsureSession(user: nat, newId: string)
      requires Valid() && Unused(St(), newId)
      modifies this
      ensures St() == Ensured(old(St()), user, newId) && Valid()
    {
      if user !in userSessions {
        CreateSession(user, newId);
      }
    }

    /** `/start <author>`: always a new session; the author is set when the escaped argument is not empty. */
    method Start(user: nat, newId: string, args: seq<string>) returns (reply: Reply)
      requires Valid() && Unused(St(), newId)
      modifies this
      ensures !Authorized(user, allowed) ==> reply == NotAuthorized && St() == old(St())
      ensures Authorized(user, allowed) ==>
        var author := EscapeMarkdown(Join(args, " "));
        var s := Created(old(St()), user, newId);
        (author == [] ==> St() == s && reply == Incomplete) &&
        (author != [] ==> St() == WithDraft(s, user, NewDraft.(author := author)) && reply == Started(author))
      ensures Valid()
    {
      if !Authorized(user, allowed) {
        return NotAuthorized;
      }
      CreateSession(user, newId);
      var author := EscapeMarkdown(Join(args, " "));
      if author == [] {
        return Incomplete;
      }
      ghost var s := St();
      assert userData[user] == NewDraft;
      WithDraftConsistent(s, maxImages, user, NewDraft.(author := author));
      userData := userData[user := userData[user].(author := author)];
      assert St() == WithDraft(s, user, NewDraft.(author := author));
      reply := Started(author);
    }

    /** The three edit commands: a session is created if needed, then only the one field changes. */
    method Edit(user: nat, newId: string, value: string, update: (Draft, string) -> Draft) returns (reply: Reply)
      requires Valid() && Unused(St(), newId)
      requires forall d: Draft :: DraftOk(d) && value != [] ==> DraftOk(update(d, value))
      modifies this
      ensures !Authorized(user, allowed) ==> reply == NotAuthorized && St() == old(St())
      ensures Authorized(user, allowed) ==>
        var s := Ensured(old(St()), user, newId);
        (value == [] ==> St() == s && reply == Incomplete) &&
        (value != [] ==> St() == WithDraft(s, user, update(DraftOf(s, user), value)) && reply == Edited)
      ensures Valid()
    {
      if !Authorized(user, allowed) {
        return NotAuthorized;
      }
      EnsureSession(user, newId);
      if value == [] {
        return Incomplete;
      }
      userData := userData[user := update(userData[user], value)];
      reply := Edited;
    }

    /** `/edittitle <title>`. */
    method EditTitle(user: nat, newId: string, args: seq<string>) returns (reply: Reply)
      requires Valid() && Unused(St(), newId)
      modifies this
      ensures Authorized(user, allowed) ==>
        var s := Ensured(old(St()), user, newId);
        var title := EscapeMarkdown(Join(args, " "));
        (title == [] ==> St() == s && reply == Incomplete) &&
        (title != [] ==> St() == WithDraft(s, user, DraftOf(s, user).(title := Some(title))) && reply == Edited)
      ensures !Authorized(user, allowed) ==> reply == NotAuthorized && St() == old(St())
      ensures Valid()
    {
      reply := Edit(user, newId, EscapeMarkdown(Join(args, " ")), (d: Draft, v: string) => d.(title := Some(v)));
    }

    /** `/editpoem <text>`: the text is everything after the command word, line breaks kept. */
    method EditPoem(user: nat, newId: string, message: string) returns (reply: Reply)
      requires Valid() && Unused(St(), newId)
      modifies this
      ensures Authorized(user, allowed) ==>
        var s := Ensured(old(St()), user, newId);
        var text := EscapeMarkdown(Strip(AfterSpace(message)));
        (text == [] ==> St() == s && reply == Incomplete) &&
        (text != [] ==> St() == WithDraft(s, user, DraftOf(s, user).(text := Some(text))) && reply == Edited)
      ensures !Authorized(user, allowed) ==> reply == NotAuthorized && St() == old(St())
      ensures Valid()
    {
      reply := Edit(user, newId, EscapeMarkdown(Strip(AfterSpace(message))), (d: Draft, v: string) => d.(text := Some(v)));
    }

    /** `/editauthor <author>`. */
    method EditAuthor(user: nat, newId: string, args: seq<string>) returns (reply: Reply)
      requires Valid() && Unused(St(), newId)
      modifies this
      ensures Authorized(user, allowed) ==>
        var s := Ensured(old(St()), user, newId);
        var author := EscapeMarkdown(Strip(Join(args, " ")));
        (author == [] ==> St() == s && reply == Incomplete) &&
        (author != [] ==> St() == WithDraft(s, user, DraftOf(s, user).(author := author)) && reply == Edited)
      ensures !Authorized(user, allowed) ==> reply == NotAuthorized && St() == old(St())
      ensures Valid()
    {
      reply := Edit(user, newId, EscapeMarkdown(Strip(Join(args, " "))), (d: Draft, v: string) => d.(author := v));
    }

    /** `handle_image`: a session is created if needed, then the image is admitted or refused. */
    method HandleImage(user: nat, newId: string, sniffed: Option<string>) returns (reply: Reply)
      requires Valid() && Unused(St(), newId)
      modifies this
      ensures !Authorized(user, allowed) ==> reply == NotAuthorized && St() == old(St())
      ensures Authorized(user, allowed) ==>
        var (s, o) := WithImage(Ensured(old(St()), user, newId), user, maxImages, sniffed);
        St() == s && reply == ImageReply(o, o.Stored? && |Images(s.dirs[s.sessions[user]])| == maxImages)
      ensures Valid()
    {
      if !Authorized(user, allowed) {
        return NotAuthorized;
      }
      if InputDir(user).None? {
        CreateSession(user, newId);
      }
      reply := AdmitImage(user, sniffed);
    }

    /** The admission step of `handle_image` on the user's session directory. */
    method AdmitImage(user: nat, sniffed: Option<string>) returns (reply: Reply)
      requires Valid() && user in userSessions
      modifies this
      ensures var (s, o) := WithImage(old(St()), user, maxImages, sniffed);
        St() == s && reply == ImageReply(o, o.Stored? && |Images(s.dirs[s.sessions[user]])| == maxImages)
      ensures Valid()
    {
      WithImageConsistent(St(), user, maxImages, sniffed);
      var rid := userSessions[user];
      var files := dirs[rid];
      var count := |Images(files)|;
      if count >= maxImages {
        return ImageReply(Full, false);
      }
      var index := count + 1;
      if sniffed != Some("jpeg") && sniffed != Some("png") {
        return ImageReply(Unsupported, false);
      }
      var name := ImageName(index, sniffed == Some("jpeg"));
      dirs := dirs[rid := files + [name]];
      reply := ImageReply(Stored(name), index == maxImages);
    }

    /**
     * `/process` (`/done` in main.py): the sorted image paths of the session go to the
     * extractor (`read` and `extract` stand for the file read and the model call), and its
     * answer, escaped, becomes the draft's title and text.
     */
    method Process(user: nat, read: string -> Option<string>,
                   extract: seq<string> -> Result<Fences.Extraction>) returns (reply: Reply)
      requires Valid()
      modifies this
      ensures !Authorized(user, allowed) ==> reply == NotAuthorized && St() == old(St())
      ensures Authorized(user, allowed) && user !in old(userSessions) ==> reply == NoImages && St() == old(St())
      ensures Authorized(user, allowed) && user in old(userSessions) ==>
        var rid := old(userSessions[user]);
        var paths := ImagePaths(PathJoin(tempDir, rid), old(dirs[rid]));
        (paths == [] ==> reply == NoValidImages && St() == old(St())) &&
        (paths != [] ==> (St(), reply) == Processed(old(St()), user, Processing.Process(paths, read, extract)))
      ensures Valid()
    {
      if !Authorized(user, allowed) {
        return NotAuthorized;
      }
      if InputDir(user).None? {
        return NoImages;
      }
      var rid := userSessions[user];
      var paths := ImagePaths(PathJoin(tempDir, rid), dirs[rid]);
      if paths == [] {
        return NoValidImages;
      }
      var result := Processing.Process(paths, read, extract);
      reply := Apply(user, result);
    }

    /** The part of `/process` after the extractor: the draft takes the escaped title, then the escaped text. */
    method Apply(user: nat, result: Result<Fences.Extraction>) returns (reply: Reply)
      requires Valid() && user in userData
      modifies this
      ensures St() == Processed(old(St()), user, result).0
      ensures reply == Processed(old(St()), user, result).1
      ensures Valid()
    {
      if result.Err? {
        return ProcessFailed;
      }
      var x := result.value;
      var d := userData[user];
      ghost var s := St();
      if x.title.None? {
        assert WithDraft(s, user, d) == s;
        assert Processed(s, user, result) == (WithDraft(s, user, d), ProcessFailed);
        return ProcessFailed;
      }
      var title := Escaped(x.title.value, "Untitled");
      SetDraft(user, d.(title := Some(title)));
      if x.markdown.None? {
        assert Processed(s, user, result) == (WithDraft(s, user, d.(title := Some(title))), ProcessFailed);
        return ProcessFailed;
      }
      var text := Escaped(x.markdown.value, "Empty");
      SetDraft(user, d.(title := Some(title), text := Some(text)));
      WithDraftTwice(s, user, d.(title := Some(title)), d.(title := Some(title), text := Some(text)));
      reply := Info(d.author, title, text);
      assert Processed(s, user, result) == (WithDraft(s, user, d.(title := Some(title), text := Some(text))), reply);
    }

    /** `user_data[user][field] = value`, written as the whole new draft. */
    method SetDraft(user: nat, d: Draft)
      requires Valid() && user in userData && DraftOk(d)
      modifies this
      ensures St() == WithDraft(old(St()), user, d) && Valid()
    {
      WithDraftConsistent(St(), maxImages, user, d);
      userData := userData[user := d];
    }

    /** `/getinfo`. */
    function GetInfo(user: nat): Reply
      reads this
    {
      DraftInfo(St(), user)
    }

    /**
     * `/upload` (`/save` in main.py): nothing is sent unless the draft is complete; the
     * session is deleted only when the API answers 201 with the poem's URL.
     */
    method Upload(user: nat, post: (string, map<string, string>) -> Response) returns (reply: Reply)
      requires Valid()
      modifies this
      ensures !Authorized(user, allowed) ==> reply == NotAuthorized && St() == old(St())
      ensures Authorized(user, allowed) && (user !in old(userData) || !Complete(old(userData[user]))) ==>
        reply == UploadIncomplete && St() == old(St())
      ensures Authorized(user, allowed) && user in old(userData) && Complete(old(userData[user])) ==>
        var resp := post(UrlAsWritten(domain, uploadPath), UploadPayload(user, old(userSessions[user]), old(userData[user])));
        reply == UploadOutcome(resp, domain) &&
        St() == (if reply.UploadedAt? then Dropped(old(St()), user) else old(St()))
      ensures Valid()
    {
      if !Authorized(user, allowed) {
        return NotAuthorized;
      }
      if user !in userData || user !in userSessions || !Complete(userData[user]) {
        return UploadIncomplete;
      }
      var payload := UploadPayload(user, userSessions[user], userData[user]);
      reply := UploadOutcome(post(UrlAsWritten(domain, uploadPath), payload), domain);
      if reply.UploadedAt? {
        DeleteUserSession(user);
      }
    }

    /** `/deleteall`: a session is created if needed; it is deleted when the API answers 200. */
    method DeleteAll(user: nat, newId: string, post: (string, map<string, string>) -> Response) returns (reply: Reply)
      requires Valid() && Unused(St(), newId)
      modifies this
      ensures !Authorized(user, allowed) ==> reply == NotAuthorized && St() == old(St())
      ensures Authorized(user, allowed) ==>
        var s := Ensured(old(St()), user, newId);
        reply == DeleteOutcome(post(UrlAsWritten(domain, "api/delete_all"), map["user_id" := Decimal(user)])) &&
        St() == (if reply == Deleted then Dropped(s, user) else s)
      ensures Valid()
    {
      if !Authorized(user, allowed) {
        return NotAuthorized;
      }
      EnsureSession(user, newId);
      reply := DeleteOutcome(post(UrlAsWritten(domain, "api/delete_all"), map["user_id" := Decimal(user)]));
      if reply == Deleted {
        DeleteUserSession(user);
      }
    }

    /** `/deleteauthor <author>`: the escaped author name goes to the API. */
    method DeleteAuthor(user: nat, newId: string, args: seq<string>,
                        post: (string, map<string, string>) -> Response) returns (reply: Reply)
      requires Valid() && Unused(St(), newId)
      modifies this
      ensures !Authorized(user, allowed) ==> reply == NotAuthorized && St() == old(St())
      ensures Authorized(user, allowed) ==>
        var s := Ensured(old(St()), user, newId);
        var author := EscapeMarkdown(Strip(Join(args, " ")));
        (author == [] ==> reply == Incomplete && St() == s) &&
        (author != [] ==>
          reply == DeleteOutcome(post(UrlAsWritten(domain, "api/delete_author"), map["user_id" := Decimal(user), "author" := author])) &&
          St() == (if reply == Deleted then Dropped(s, user) else s))
      ensures Valid()
    {
      if !Authorized(user, allowed) {
        return NotAuthorized;
      }
      EnsureSession(user, newId);
      var author := EscapeMarkdown(Strip(Join(args, " ")));
      if author == [] {
        return Incomplete;
      }
      reply := DeleteOutcome(post(UrlAsWritten(domain, "api/delete_author"), map["user_id" := Decimal(user), "author" := author]));
      if reply == Deleted {
        DeleteUserSession(user);
      }
    }

    /** `/deletepoem <title> & <author>`: the two unescaped, stripped parts go to the API. */
    method DeletePoem(user: nat, newId: string, args: seq<string>,
                      post: (string, map<string, string>) -> Response) returns (reply: Reply)
      requires Valid() && Unused(St(), newId)
      modifies this
      ensures !Authorized(user, allowed) ==> reply == NotAuthorized && St() == old(St())
      ensures Authorized(user, allowed) ==>
        var s := Ensured(old(St()), user, newId);
        var raw := Strip(Join(args, " "));
        (raw == [] ==> reply == Incomplete && St() == s) &&
        (raw != [] && ParseTitleAuthor(raw).None? ==> reply == BadFormat && St() == s) &&
        (raw != [] && ParseTitleAuthor(raw).Some? ==>
          var (title, author) := ParseTitleAuthor(raw).value;
          reply == DeleteOutcome(post(UrlAsWritten(domain, "api/delete_poem"),
                                      map["user_id" := Decimal(user), "author" := author, "title" := title])) &&
          St() == (if reply == Deleted then Dropped(s, user) else s))
      ensures Valid()
    {
      if !Authorized(user, allowed) {
        return NotAuthorized;
      }
      EnsureSession(user, newId);
      var raw := Strip(Join(args, " "));
      if raw == [] {
        return Incomplete;
      }
      var parsed := ParseTitleAuthor(raw);
      if parsed.None? {
        return BadFormat;
      }
      var (title, author) := parsed.value;
      reply := DeleteOutcome(post(UrlAsWritten(domain, "api/delete_poem"),
                                  map["user_id" := Decimal(user), "author" := author, "title" := title]));
      if reply == Deleted {
        DeleteUserSession(user);
      }
    }

    /** `/reset`. */
    method Reset(user: nat) returns (reply: Reply)
      requires Valid()
      modifies this
      ensures !Authorized(user, allowed) ==> reply == NotAuthorized && St() == old(St())
      ensures Authorized(user, allowed) ==> reply == SessionReset && St() == Dropped(old(St()), user)
      ensures Valid()
    {
      if !Authorized(user, allowed) {
        return NotAuthorized;
      }
      DeleteUserSession(user);
      reply := SessionReset;
    }
  }
}
