/**
 * The poem processing step of process.py: `empty_html`, the control flow of `process`
 * around the extractor, and the image extension check that `encode_image_to_base64`
 * (utils/utils.py and bot/utils/utils.py) makes before it opens a file.
 */
module Processing {
  import opened Common
  import opened Text
  import Fences

  // ---------------------------------------------------------------------------
  // `empty_html`

  /** `re.sub(r"\s+", "", s)`: every whitespace character removed. */
  function RemoveSpace(s: string): (r: string)
    ensures NoSpace(r)
    ensures |r| <= |s|
  {
    if s == [] then []
    else if IsSpace(s[0]) then RemoveSpace(s[1..])
    else [s[0]] + RemoveSpace(s[1..])
  }

  /** The empty document the renderer produces, with whitespace removed and lower-cased. */
  const EmptyTemplate: string :=
    "<!doctypehtml>" + "<htmllang=\"es\">" + "<head>" + "<metacharset=\"utf-8\">" + "</head>" + "<body>" + "</body>" + "</html>"

  /** `empty_html(raw_html)`. */
  predicate EmptyHtml(raw: string)
  {
    Lower(RemoveSpace(raw)) == EmptyTemplate
  }

  lemma {:induction false} RemoveSpaceAppend(a: string, b: string)
    ensures RemoveSpace(a + b) == RemoveSpace(a) + RemoveSpace(b)
    decreases |a|
  {
    if a == [] {
      assert a + b == b;
    } else {
      assert (a + b)[1..] == a[1..] + b;
      RemoveSpaceAppend(a[1..], b);
    }
  }

  lemma {:induction false} RemoveAllSpace(w: string)
    requires AllSpace(w)
    ensures RemoveSpace(w) == []
    decreases |w|
  {
    if w != [] {
      RemoveAllSpace(w[1..]);
    }
  }

  /** Inserting whitespace anywhere does not change the verdict. */
  lemma WhitespaceInsensitive(a: string, w: string, b: string)
    requires AllSpace(w)
    ensures EmptyHtml(a + w + b) == EmptyHtml(a + b)
  {
    RemoveSpaceAppend(a + w, b);
    RemoveSpaceAppend(a, w);
    RemoveSpaceAppend(a, b);
    RemoveAllSpace(w);
    assert RemoveSpace(a) + [] == RemoveSpace(a);
  }

  /** Two texts that differ only in the case of ASCII letters have the same whitespace-free lower-cased form. */
  lemma {:induction false} LowerRemoveSpaceCase(x: string, y: string)
    requires |x| == |y| && forall i :: 0 <= i < |x| ==> AsciiLowerChar(x[i]) == AsciiLowerChar(y[i])
    ensures Lower(RemoveSpace(x)) == Lower(RemoveSpace(y))
    decreases |x|
  {
    if x != [] {
      LowerRemoveSpaceCase(x[1..], y[1..]);
      assert IsSpace(x[0]) <==> IsSpace(y[0]);
      if !IsSpace(x[0]) {
        assert Lower([x[0]] + RemoveSpace(x[1..])) == [AsciiLowerChar(x[0])] + Lower(RemoveSpace(x[1..]));
        assert Lower([y[0]] + RemoveSpace(y[1..])) == [AsciiLowerChar(y[0])] + Lower(RemoveSpace(y[1..]));
      }
    }
  }

  /** The check ignores letter case. */
  lemma CaseInsensitive(x: string, y: string)
    requires |x| == |y| && forall i :: 0 <= i < |x| ==> AsciiLowerChar(x[i]) == AsciiLowerChar(y[i])
    ensures EmptyHtml(x) == EmptyHtml(y)
  {
    LowerRemoveSpaceCase(x, y);
  }

  /**
   * A document holding any character (other than whitespace) that appears in no case in
   * the template is not empty: text in the body always makes the check fail.
   */
  lemma ForeignCharacterNotEmpty(a: string, c: char, b: string)
    requires !IsSpace(c) && AsciiLowerChar(c) !in EmptyTemplate
    ensures !EmptyHtml(a + [c] + b)
  {
    RemoveSpaceAppend(a + [c], b);
    RemoveSpaceAppend(a, [c]);
    assert RemoveSpace([c]) == [c];
    var n := RemoveSpace(a + [c] + b);
    var k := |RemoveSpace(a)|;
    assert n[k] == c;
    assert Lower(n)[k] == AsciiLowerChar(c);
  }

  /** The template itself counts as empty. */
  lemma TemplateIsEmpty()
    ensures EmptyHtml(EmptyTemplate)
  {
    HeadPartsPlain();
    BodyPartsPlain();
    CanonicalParts("<!doctypehtml>", "<htmllang=\"es\">", "<head>", "<metacharset=\"utf-8\">", "</head>", "<body>", "</body>", "</html>");
  }

  /** The first four pieces of the template hold no whitespace and no capital letter. */
  lemma HeadPartsPlain()
    ensures PlainLower("<!doctypehtml>") && PlainLower("<htmllang=\"es\">")
    ensures PlainLower("<head>") && PlainLower("<metacharset=\"utf-8\">")
  {
  }

  /** The last four pieces of the template hold no whitespace and no capital letter. */
  lemma BodyPartsPlain()
    ensures PlainLower("</head>") && PlainLower("<body>") && PlainLower("</body>") && PlainLower("</html>")
  {
  }

  /** Printable ASCII other than capital letters: neither whitespace nor changed by lower-casing. */
  predicate PlainLower(s: string)
  {
    forall i :: 0 <= i < |s| ==> ('!' <= s[i] <= '@' || '[' <= s[i] <= '~')
  }

  lemma CanonicalParts(p0: string, p1: string, p2: string, p3: string, p4: string, p5: string, p6: string, p7: string)
    requires PlainLower(p0) && PlainLower(p1) && PlainLower(p2) && PlainLower(p3)
    requires PlainLower(p4) && PlainLower(p5) && PlainLower(p6) && PlainLower(p7)
    ensures IsCanonical(p0 + p1 + p2 + p3 + p4 + p5 + p6 + p7)
  {
    Canonical(p0);
    Canonical(p1);
    Canonical(p2);
    Canonical(p3);
    Canonical(p4);
    Canonical(p5);
    Canonical(p6);
    Canonical(p7);
    CanonicalAppend(p0, p1);
    CanonicalAppend(p0 + p1, p2);
    CanonicalAppend(p0 + p1 + p2, p3);
    CanonicalAppend(p0 + p1 + p2 + p3, p4);
    CanonicalAppend(p0 + p1 + p2 + p3 + p4, p5);
    CanonicalAppend(p0 + p1 + p2 + p3 + p4 + p5, p6);
    CanonicalAppend(p0 + p1 + p2 + p3 + p4 + p5 + p6, p7);
  }

  /** `s` has no whitespace and no capital letter, so normalising leaves it as it is. */
  predicate IsCanonical(s: string)
  {
    Lower(RemoveSpace(s)) == s
  }

  lemma Canonical(s: string)
    requires PlainLower(s)
    ensures IsCanonical(s)
  {
    NoSpaceFixed(s);
  }

  lemma CanonicalAppend(a: string, b: string)
    requires IsCanonical(a) && IsCanonical(b)
    ensures IsCanonical(a + b)
  {
    RemoveSpaceAppend(a, b);
    LowerAppend(RemoveSpace(a), RemoveSpace(b));
  }

  lemma {:induction false} NoSpaceFixed(s: string)
    requires NoSpace(s)
    ensures RemoveSpace(s) == s
    decreases |s|
  {
    if s != [] {
      NoSpaceFixed(s[1..]);
    }
  }

  // ---------------------------------------------------------------------------
  // The extension check of `encode_image_to_base64`

  /** `image_path.lower().endswith((".jpg", ".jpeg", ".png"))`. */
  predicate HasImageExtension(path: string)
  {
    var p := Lower(path);
    EndsWith(p, ".jpg") || EndsWith(p, ".jpeg") || EndsWith(p, ".png")
  }

  /** The check looks only at the last four or five characters, in any letter case. */
  lemma ImageExtensionSuffix(path: string)
    ensures HasImageExtension(path) <==>
      (|path| >= 4 && Lower(path[|path| - 4..]) in [".jpg", ".png"]) ||
      (|path| >= 5 && Lower(path[|path| - 5..]) == ".jpeg")
  {
    var p := Lower(path);
    if |path| >= 4 {
      assert p[|p| - 4..] == Lower(path[|path| - 4..]);
    }
    if |path| >= 5 {
      assert p[|p| - 5..] == Lower(path[|path| - 5..]);
    }
  }

  /** Any name followed by one of the three extensions, in any letter case, passes. */
  lemma ImageExtensionAccepted(base: string, ext: string)
    requires Lower(ext) in [".jpg", ".jpeg", ".png"]
    ensures HasImageExtension(base + ext)
  {
    var path := base + ext;
    assert path[|path| - |ext|..] == ext;
    ImageExtensionSuffix(path);
  }

  /** `encode_image_to_base64(path)`: the extension check comes before the file is read (`read` stands for it). */
  function EncodeImage(path: string, read: string -> Option<string>): (r: Result<string>)
    ensures !HasImageExtension(path) ==> r.Err? && r.error.ValueError?
    ensures HasImageExtension(path) ==> (r.Ok? <==> read(path).Some?)
    ensures r.Ok? ==> r.value == read(path).value
  {
    if !HasImageExtension(path) then Err(ValueError("Only .jpg, .jpeg, or .png images are supported."))
    else match read(path)
      case None => Err(RuntimeError("Image file not found: " + path))
      case Some(data) => Ok(data)
  }

  /**
   * The list comprehension of `process` over the already stripped paths: every path is
   * encoded in order, and the first failure is raised.
   */
  function EncodeAll(paths: seq<string>, read: string -> Option<string>): (r: Result<seq<string>>)
    ensures r.Ok? ==> |r.value| == |paths|
    ensures r.Ok? ==> forall i :: 0 <= i < |paths| ==> EncodeImage(paths[i], read) == Ok(r.value[i])
    ensures r.Err? ==> exists i :: 0 <= i < |paths| && EncodeImage(paths[i], read).Err?
  {
    if paths == [] then Ok([])
    else
      var head := EncodeImage(paths[0], read);
      if head.Err? then Err(head.error)
      else
        var tail := EncodeAll(paths[1..], read);
        assert forall i :: 1 <= i < |paths| ==> paths[i] == paths[1..][i - 1];
        if tail.Err? then Err(tail.error)
        else Ok([head.value] + tail.value)
  }

  /** `path.strip()` for every path. */
  function StripAll(paths: seq<string>): (r: seq<string>)
    ensures |r| == |paths| && forall i :: 0 <= i < |paths| ==> r[i] == Strip(paths[i])
  {
    seq(|paths|, i requires 0 <= i < |paths| => Strip(paths[i]))
  }

  /**
   * `process(image_paths, request_id)`: no paths gives empty title and text without calling
   * anything; otherwise every stripped path is encoded and the extractor's answer is
   * returned as it is.
   */
  function Process(paths: seq<string>, read: string -> Option<string>,
                   extract: seq<string> -> Result<Fences.Extraction>): (r: Result<Fences.Extraction>)
    ensures paths == [] ==> r == Ok(Fences.Extraction(Some([]), Some([])))
    ensures paths != [] && EncodeAll(StripAll(paths), read).Ok? ==> r == extract(EncodeAll(StripAll(paths), read).value)
    ensures paths != [] && EncodeAll(StripAll(paths), read).Err? ==> r.Err?
  {
    if paths == [] then Ok(Fences.Extraction(Some([]), Some([])))
    else
      match EncodeAll(StripAll(paths), read)
      case Err(e) => Err(e)
      case Ok(images) => extract(images)
  }

  /** Every path the extractor sees has passed the extension check. */
  lemma ProcessChecksEveryPath(paths: seq<string>, read: string -> Option<string>,
                               extract: seq<string> -> Result<Fences.Extraction>, i: nat)
    requires i < |paths| && Process(paths, read, extract).Ok? && paths != []
    ensures HasImageExtension(Strip(paths[i]))
  {
    var stripped := StripAll(paths);
    var r := EncodeAll(stripped, read);
    assert r.Ok?;
    assert EncodeImage(stripped[i], read) == Ok(r.value[i]);
  }

  /** A path with a bad extension anywhere in the list makes `process` raise. */
  lemma BadExtensionFails(paths: seq<string>, read: string -> Option<string>,
                          extract: seq<string> -> Result<Fences.Extraction>, i: nat)
    requires i < |paths| && !HasImageExtension(Strip(paths[i]))
    ensures Process(paths, read, extract).Err?
  {
    var stripped := StripAll(paths);
    assert EncodeImage(stripped[i], read).Err?;
  }
}
