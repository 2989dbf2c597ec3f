/**
 * `parse_json_from_response` (utils/llm_utils.py and bot/utils/llm_utils.py hold the same
 * expression) and the way `call_extractor` shapes a decoded reply into a title and a text.
 */
module Fences {
  import opened Common
  import opened Text

  /** The characters the case-insensitive pattern letter matches: `s` also matches the long s. */
  predicate IsJsonTag(t: string)
  {
    |t| == 4 && t[0] in "jJ" && t[1] in "sS\U{017F}" && t[2] in "oO" && t[3] in "nN"
  }

  /** `s` starts with three backticks and the word `json` in any letter case. */
  predicate OpensJsonFence(s: string)
  {
    |s| >= 7 && FenceAt(s, 0) && IsJsonTag(s[3..7])
  }

  /** Three backticks start at position `k` of `t`. */
  predicate FenceAt(t: string, k: int)
  {
    0 <= k && k + 3 <= |t| && t[k] == '`' && t[k + 1] == '`' && t[k + 2] == '`'
  }

  /** The first position of three backticks in `t`. */
  function FirstFence(t: string): (j: Option<nat>)
    ensures j.Some? ==> FenceAt(t, j.value)
    ensures j.Some? ==> forall k :: 0 <= k < j.value ==> !FenceAt(t, k)
    ensures j.None? ==> forall k :: !FenceAt(t, k)
  {
    if |t| < 3 then None
    else if FenceAt(t, 0) then Some(0)
    else
      assert forall k :: 1 <= k ==> (FenceAt(t, k) <==> FenceAt(t[1..], k - 1));
      match FirstFence(t[1..])
      case Some(j) => Some(j + 1)
      case None => None
  }

  /**
   * The substitution of ```` ```json\s*([\s\S]*?)\s*``` ```` by its group, scanned left to
   * right. After the opening fence the greedy `\s*` takes all whitespace; the lazy group
   * then ends where the first closing fence is preceded only by whitespace, so the group is
   * the text up to the first fence with its trailing whitespace removed.
   */
  function SubJsonFences(s: string): string
    decreases |s|
  {
    if s == [] then []
    else if OpensJsonFence(s) then
      var u := LStrip(s[7..]);
      match FirstFence(u)
      case Some(j) => RStrip(u[..j]) + SubJsonFences(u[j + 3..])
      case None => [s[0]] + SubJsonFences(s[1..])
    else [s[0]] + SubJsonFences(s[1..])
  }

  /** Python's `cleaned[3:-3]`, which is empty when fewer than six characters remain. */
  function DropFences(c: string): (r: string)
    ensures |c| >= 6 ==> c == c[..3] + r + c[|c| - 3..]
    ensures |c| < 6 ==> r == []
  {
    if |c| < 6 then [] else c[3..|c| - 3]
  }

  /** `parse_json_from_response(content)`. */
  function ParseJsonFromResponse(content: string): (r: string)
    ensures Stripped(r)
  {
    var cleaned := Strip(SubJsonFences(content));
    if StartsWith(cleaned, "```") && EndsWith(cleaned, "```") then Strip(DropFences(cleaned))
    else cleaned
  }

  /** No position of `s` opens a json fence. */
  predicate NoJsonFence(s: string)
  {
    forall i :: 0 <= i < |s| ==> !OpensJsonFence(s[i..])
  }

  /** Text where no json fence opens passes through the substitution unchanged. */
  lemma {:induction false} SubWithoutFence(s: string)
    requires NoJsonFence(s)
    ensures SubJsonFences(s) == s
    decreases |s|
  {
    if s != [] {
      assert !OpensJsonFence(s[0..]);
      assert s[0..] == s;
      assert forall i :: 0 <= i < |s[1..]| ==> s[1..][i..] == s[i + 1..];
      SubWithoutFence(s[1..]);
    }
  }

  /** A character that is not a backtick can be consumed one step at a time. */
  lemma {:induction false} SubPlainPrefix(plain: string, rest: string)
    requires '`' !in plain
    ensures SubJsonFences(plain + rest) == plain + SubJsonFences(rest)
    decreases |plain|
  {
    if plain == [] {
      assert plain + rest == rest;
    } else {
      var s := plain + rest;
      assert s[0] == plain[0] && s[1..] == plain[1..] + rest;
      SubStep(s);
      SubPlainPrefix(plain[1..], rest);
      Text.ConcatAssoc([plain[0]], plain[1..], SubJsonFences(rest));
      assert [plain[0]] + plain[1..] == plain;
    }
  }

  /** A first character other than a backtick is copied and scanning moves on. */
  lemma SubStep(s: string)
    requires s != [] && s[0] != '`'
    ensures SubJsonFences(s) == [s[0]] + SubJsonFences(s[1..])
  {
    assert !OpensJsonFence(s);
  }

  /** Input without backticks is only stripped. */
  lemma BacktickFree(content: string)
    requires '`' !in content
    ensures ParseJsonFromResponse(content) == Strip(content)
  {
    assert SubJsonFences(content) == content by {
      SubPlainPrefix(content, []);
      AppendNothing(content);
      AppendNothing(SubJsonFences(content));
    }
    StrippedNoFence(content);
  }

  /** Stripping text without backticks cannot produce an opening fence. */
  lemma StrippedNoFence(content: string)
    requires '`' !in content
    ensures !StartsWith(Strip(content), "```")
  {
    var c := Strip(content);
    StripRemovesOnlySpace(content);
    var i, j :| 0 <= i <= j <= |content| && c == content[i..j];
    if c != [] {
      assert c[0] == content[i];
    }
  }

  /** A fenced block: the opening fence and its tag, whitespace, the body, the closing fence. */
  function JsonBlock(tag: string, w: string, body: string): string
  {
    "```" + tag + w + body + "```"
  }

  /**
   * One fenced json block followed by anything: the block becomes its inner text with the
   * whitespace next to both fences removed, and scanning resumes after the closing fence.
   */
  lemma {:induction false} SubJsonBlock(tag: string, w: string, body: string, rest: string)
    requires IsJsonTag(tag) && AllSpace(w)
    requires '`' !in body && (body == [] || !IsSpace(body[0]))
    ensures SubJsonFences(JsonBlock(tag, w, body) + rest) == RStrip(body) + SubJsonFences(rest)
  {
    var s := JsonBlock(tag, w, body) + rest;
    BlockShape(tag, w, body, rest);
    FirstFenceAfterPlain(body, "```" + rest);
    SubAtFence(s, |body|);
  }

  /** Where the pieces of a fenced block followed by `rest` sit once the fence is opened. */
  lemma BlockShape(tag: string, w: string, body: string, rest: string)
    requires IsJsonTag(tag) && AllSpace(w)
    requires body == [] || !IsSpace(body[0])
    ensures OpensJsonFence(JsonBlock(tag, w, body) + rest)
    ensures LStrip((JsonBlock(tag, w, body) + rest)[7..]) == body + ("```" + rest)
    ensures (body + ("```" + rest))[..|body|] == body
    ensures (body + ("```" + rest))[|body| + 3..] == rest
  {
    var s := JsonBlock(tag, w, body) + rest;
    assert FenceAt(s, 0) && s[3..7] == tag;
    var u := body + ("```" + rest);
    assert s[7..] == w + u;
    LStripOfPadded(w, u);
  }

  /** The substitution at an opening fence whose closing fence is at `j` of the rest. */
  lemma SubAtFence(s: string, j: nat)
    requires OpensJsonFence(s) && FirstFence(LStrip(s[7..])) == Some(j)
    ensures SubJsonFences(s) == RStrip(LStrip(s[7..])[..j]) + SubJsonFences(LStrip(s[7..])[j + 3..])
  {
  }

  lemma {:induction false} FirstFenceAfterPlain(plain: string, t: string)
    requires '`' !in plain && FenceAt(t, 0)
    ensures FirstFence(plain + t) == Some(|plain|)
    decreases |plain|
  {
    if plain == [] {
      assert plain + t == t;
    } else {
      var s := plain + t;
      assert s[0] == plain[0];
      assert s[1..] == plain[1..] + t;
      FirstFenceAfterPlain(plain[1..], t);
    }
  }

  /** A whole reply that is one fenced json block yields the block's stripped inner text. */
  lemma SingleJsonBlock(tag: string, w: string, body: string)
    requires IsJsonTag(tag) && AllSpace(w)
    requires '`' !in body && (body == [] || !IsSpace(body[0]))
    ensures ParseJsonFromResponse(JsonBlock(tag, w, body)) == Strip(body)
  {
    var s := JsonBlock(tag, w, body);
    var r := RStrip(body);
    AppendNothing(s);
    AppendNothing(r);
    SubJsonBlock(tag, w, body, []);
    assert SubJsonFences(s) == r;
    InnerText(body);
  }

  /** The inner text of a block: already stripped, and not itself fenced. */
  lemma InnerText(body: string)
    requires '`' !in body && (body == [] || !IsSpace(body[0]))
    ensures Strip(RStrip(body)) == RStrip(body) == Strip(body)
    ensures !StartsWith(RStrip(body), "```")
  {
    var r := RStrip(body);
    assert LStrip(body) == body;
    StrippedFixed(r);
    if |r| > 0 {
      assert r[0] == body[0];
    }
  }

  lemma AppendNothing<T>(s: seq<T>)
    ensures s + [] == s
  {
  }

  /**
   * The lazy group stops at the first closing fence, so two blocks separated by plain text
   * are unwrapped separately and the text between them is kept.
   */
  lemma SeparateBlocks(tag1: string, w1: string, body1: string, mid: string, tag2: string, w2: string, body2: string)
    requires IsJsonTag(tag1) && AllSpace(w1) && '`' !in body1 && (body1 == [] || !IsSpace(body1[0]))
    requires IsJsonTag(tag2) && AllSpace(w2) && '`' !in body2 && (body2 == [] || !IsSpace(body2[0]))
    requires '`' !in mid
    ensures SubJsonFences(JsonBlock(tag1, w1, body1) + (mid + JsonBlock(tag2, w2, body2))) == RStrip(body1) + (mid + RStrip(body2))
  {
    SubJsonBlock(tag1, w1, body1, mid + JsonBlock(tag2, w2, body2));
    TextThenBlock(mid, tag2, w2, body2);
  }

  /** Plain text followed by a block that ends the reply. */
  lemma TextThenBlock(mid: string, tag: string, w: string, body: string)
    requires IsJsonTag(tag) && AllSpace(w) && '`' !in body && (body == [] || !IsSpace(body[0]))
    requires '`' !in mid
    ensures SubJsonFences(mid + JsonBlock(tag, w, body)) == mid + RStrip(body)
  {
    var block := JsonBlock(tag, w, body);
    SubPlainPrefix(mid, block);
    SubJsonBlock(tag, w, body, []);
    AppendNothing(block);
    AppendNothing(RStrip(body));
  }

  /**
   * A block fenced without the json tag is unwrapped by the second step: exactly three
   * backticks go from each end and the rest is stripped.
   */
  lemma PlainFence(body: string)
    requires '`' !in body && (body == [] || (body[0] != 'j' && body[0] != 'J'))
    ensures ParseJsonFromResponse("```" + body + "```") == Strip(body)
  {
    var s := "```" + body + "```";
    PlainFenceOpensNothing(body);
    SubWithoutFence(s);
    assert s[0] == '`' && s[|s| - 1] == '`';
    StrippedFixed(s);
    assert StartsWith(s, "```") && EndsWith(s, "```");
    assert s[3..|s| - 3] == body;
  }

  lemma PlainFenceOpensNothing(body: string)
    requires '`' !in body && (body == [] || (body[0] != 'j' && body[0] != 'J'))
    ensures NoJsonFence("```" + body + "```")
  {
    var s := "```" + body + "```";
    forall i | 0 <= i < |s| ensures !OpensJsonFence(s[i..]) {
      if i == 0 {
        if body != [] {
          assert s[i..][3] == body[0];
        }
      } else if i + 7 <= |s| {
        var p := if i >= 3 then i else 3;
        assert s[p] == body[p - 3];
        assert s[i..][p - i] == s[p];
      }
    }
  }

  // ---------------------------------------------------------------------------
  // The shaping of the extractor's reply in `call_extractor`

  /** What `json.loads` gives for the cleaned reply. */
  datatype Decoded =
    | NotJson                                // JSONDecodeError
    | Object(fields: map<string, JsonValue>)
    | NonObject                              // a list, number, string or literal: it has no `.get`

  /** The outcome `(title, markdown)`; both are None when the reply was not JSON. */
  datatype Extraction = Extraction(title: Option<string>, markdown: Option<string>)

  /** `parsed.get(key, "").strip()`: a missing key is "", a string is stripped, anything else raises. */
  function FieldText(fields: map<string, JsonValue>, key: string): (r: Result<string>)
    ensures key !in fields ==> r == Ok([])
    ensures key in fields && fields[key].JString? ==> r == Ok(Strip(fields[key].s))
    ensures key in fields && !fields[key].JString? ==> r.Err? && r.error.RuntimeError?
  {
    if key !in fields then Ok([])
    else match fields[key]
      case JString(s) => Ok(Strip(s))
      case _ => Err(RuntimeError("Poem extraction failed"))
  }

  /** Both `GROQ_API_KEY` and `MODEL_NAME` are set and non-empty. */
  predicate KeysSet(apiKey: Option<string>, modelName: Option<string>) {
    apiKey.Some? && apiKey.value != [] && modelName.Some? && modelName.value != []
  }

  /**
   * `call_extractor` after the network call: missing credentials raise first; the reply is
   * stripped, cleaned and decoded by `decode` (which stands for `json.loads`); a decode
   * failure is `(None, None)`; any other failure becomes a RuntimeError.
   */
  function ShapeReply(apiKey: Option<string>, modelName: Option<string>, reply: string, decode: string -> Decoded): (r: Result<Extraction>)
    ensures (apiKey.None? || apiKey.value == []) ==> r == Err(RuntimeError("GROQ_API_KEY not set."))
    ensures r.Ok? && r.value.title.Some? ==> Stripped(r.value.title.value)
    ensures r.Ok? && r.value.markdown.Some? ==> Stripped(r.value.markdown.value)
    ensures r.Ok? ==> (r.value.title.None? <==> r.value.markdown.None?)
    ensures apiKey.Some? && apiKey.value != [] && (modelName.None? || modelName.value == []) ==>
              r == Err(RuntimeError("MODEL_NAME not set."))
    ensures KeysSet(apiKey, modelName) && decode(ParseJsonFromResponse(Strip(reply))).NonObject? ==>
              r == Err(RuntimeError("Poem extraction failed"))
    ensures KeysSet(apiKey, modelName) && decode(ParseJsonFromResponse(Strip(reply))).Object? ==>
              var f := decode(ParseJsonFromResponse(Strip(reply))).fields;
              (r.Ok? <==> FieldText(f, "title").Ok? && FieldText(f, "markdown").Ok?) &&
              (r.Ok? ==> r.value == Extraction(Some(FieldText(f, "title").value), Some(FieldText(f, "markdown").value)))
    ensures (r.Ok? && r.value.title.None?) <==>
              (apiKey.Some? && apiKey.value != [] && modelName.Some? && modelName.value != [] &&
               decode(ParseJsonFromResponse(Strip(reply))).NotJson?)
  {
    if apiKey.None? || apiKey.value == [] then Err(RuntimeError("GROQ_API_KEY not set."))
    else if modelName.None? || modelName.value == [] then Err(RuntimeError("MODEL_NAME not set."))
    else
      match decode(ParseJsonFromResponse(Strip(reply)))
      case NotJson => Ok(Extraction(None, None))
      case NonObject => Err(RuntimeError("Poem extraction failed"))
      case Object(fields) =>
        match (FieldText(fields, "title"), FieldText(fields, "markdown"))
        case (Ok(t), Ok(m)) => Ok(Extraction(Some(t), Some(m)))
        case (Err(e), _) => Err(e)
        case (_, Err(e)) => Err(e)
  }

  /** A decoded object with both keys holding strings gives both stripped values; absent keys give "". */
  lemma ShapeObject(apiKey: string, modelName: string, reply: string, decode: string -> Decoded, fields: map<string, JsonValue>)
    requires apiKey != [] && modelName != []
    requires decode(ParseJsonFromResponse(Strip(reply))) == Object(fields)
    requires "title" in fields ==> fields["title"].JString?
    requires "markdown" in fields ==> fields["markdown"].JString?
    ensures ShapeReply(Some(apiKey), Some(modelName), reply, decode)
         == Ok(Extraction(Some(if "title" in fields then Strip(fields["title"].s) else []),
                          Some(if "markdown" in fields then Strip(fields["markdown"].s) else [])))
  {
  }
}
