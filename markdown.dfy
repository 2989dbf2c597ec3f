/**
 * `markdown_to_html` (utils/utils.py and api/utils/utils.py hold the same code): a
 * line-by-line block converter with a paragraph buffer, followed by four regular
 * expression passes for bold and italic text.
 */
module Markdown {
  import opened Text
  import Common

  /** `'&nbsp;' * n`. */
  function Nbsp(n: nat): (r: string)
    ensures |r| == 6 * n
  {
    if n == 0 then [] else "&nbsp;" + Nbsp(n - 1)
  }

  /** The number of '#' characters that `s` starts with. */
  function HashRun(s: string): (n: nat)
    ensures n <= |s|
    ensures forall i :: 0 <= i < n ==> s[i] == '#'
    ensures n < |s| ==> s[n] != '#'
  {
    if s == [] || s[0] != '#' then 0 else 1 + HashRun(s[1..])
  }

  /** `re.match(r'^(#{1,6})\s+(.*)', stripped)` succeeds. */
  predicate IsHeading(stripped: string)
  {
    var h := HashRun(stripped);
    1 <= h <= 6 && h < |stripped| && IsSpace(stripped[h])
  }

  /** Group 2 of the heading match: what follows the '#' run and the whitespace after it. */
  function HeadingText(stripped: string): string
    requires IsHeading(stripped)
  {
    LStrip(stripped[HashRun(stripped)..])
  }

  function HeadingHtml(level: nat, content: string): string
    requires 1 <= level <= 6
  {
    var d := ['0' + level as char];
    "<h" + d + ">" + content + "</h" + d + ">"
  }

  function QuoteHtml(content: string): string
  {
    "<blockquote>" + content + "</blockquote>"
  }

  function ParagraphHtml(buffer: seq<string>): string
  {
    "<p>" + Join(buffer, "<br>") + "</p>"
  }

  /** How one input line is treated. */
  datatype Block = Heading(level: nat, content: string) | Quote(content: string) | Ordinary(content: string)

  function Classify(line: string): (b: Block)
    ensures b.Heading? ==> 1 <= b.level <= 6
  {
    var stripped := LStrip(line);
    var pad := Nbsp(|line| - |stripped|);
    if IsHeading(stripped) then Heading(HashRun(stripped), pad + HeadingText(stripped))
    else if stripped != [] && stripped[0] == '>' then Quote(Strip(stripped[1..]))
    else Ordinary(pad + stripped)
  }

  /** The output lines built so far and the open paragraph. */
  datatype State = State(html: seq<string>, buffer: seq<string>)

  /** `flush_buffer()`: an open paragraph becomes one `<p>` block and the buffer empties. */
  function Flush(st: State): (r: State)
    ensures r.buffer == []
  {
    if st.buffer == [] then st else State(st.html + [ParagraphHtml(st.buffer)], [])
  }

  /** One iteration of the loop over the lines. */
  function Step(st: State, line: string): State
  {
    match Classify(line)
    case Heading(level, content) => State(Flush(st).html + [HeadingHtml(level, content)], [])
    case Quote(content) => State(Flush(st).html + [QuoteHtml(content)], [])
    case Ordinary(content) => State(st.html, st.buffer + [content])
  }

  function Fold(st: State, lines: seq<string>): State
  {
    if lines == [] then st else Step(Fold(st, lines[..|lines| - 1]), lines[|lines| - 1])
  }

  /** The blocks emitted for `lines`, in order, after the final flush. */
  function Blocks(lines: seq<string>): seq<string>
  {
    Flush(Fold(State([], []), lines)).html
  }

  /** The smallest `j` with `t[j..]` starting with `d` and no line break before it (a lazy `.*?`). */
  function FindClose(t: string, d: string): (j: Common.Option<nat>)
    requires d != []
    ensures j.Some? ==> j.value + |d| <= |t| && t[j.value..j.value + |d|] == d && '\n' !in t[..j.value]
    ensures j.None? ==> forall k :: 0 <= k <= |t| - |d| && '\n' !in t[..k] ==> t[k..k + |d|] != d
  {
    if StartsWith(t, d) then Common.Some(0)
    else if t == [] || t[0] == '\n' then Common.None
    else
      match FindClose(t[1..], d)
      case Some(j) =>
        CloseInTail(t, d, j);
        Common.Some(j + 1)
      case None =>
        NoCloseInTail(t, d);
        Common.None
  }

  lemma CloseInTail(t: string, d: string, j: nat)
    requires t != [] && t[0] != '\n'
    requires j + |d| <= |t[1..]| && t[1..][j..j + |d|] == d && '\n' !in t[1..][..j]
    ensures j + 1 + |d| <= |t| && t[j + 1..j + 1 + |d|] == d && '\n' !in t[..j + 1]
  {
    assert t[1..][j..j + |d|] == t[j + 1..j + 1 + |d|];
    assert t[..j + 1] == [t[0]] + t[1..][..j];
  }

  /** No closing delimiter in `t[1..]` and none at 0 means none in `t`. */
  lemma NoCloseInTail(t: string, d: string)
    requires d != [] && t != [] && t[0] != '\n' && !StartsWith(t, d)
    requires forall k :: 0 <= k <= |t[1..]| - |d| && '\n' !in t[1..][..k] ==> t[1..][k..k + |d|] != d
    ensures forall k :: 0 <= k <= |t| - |d| && '\n' !in t[..k] ==> t[k..k + |d|] != d
  {
    forall k | 0 <= k <= |t| - |d| && '\n' !in t[..k]
      ensures t[k..k + |d|] != d
    {
      if k > 0 {
        assert t[1..][k - 1..k - 1 + |d|] == t[k..k + |d|];
        assert t[1..][..k - 1] == t[1..k];
        assert '\n' !in t[1..][..k - 1];
      }
    }
  }

  /** `re.sub(d + '(.*?)' + d, '<tag>\1</tag>', s)` with `d` a literal delimiter, scanned left to right. */
  function SubPairs(s: string, d: string, tag: string): string
    requires d != []
    decreases |s|
  {
    if s == [] then []
    else if StartsWith(s, d) then
      var t := s[|d|..];
      match FindClose(t, d)
      case Some(j) => "<" + tag + ">" + t[..j] + "</" + tag + ">" + SubPairs(t[j + |d|..], d, tag)
      case None => [s[0]] + SubPairs(s[1..], d, tag)
    else [s[0]] + SubPairs(s[1..], d, tag)
  }

  /** The four passes, bold (`**`, `__`) before italic (`*`, `_`). */
  function Inline(html: string): string
  {
    var b1 := SubPairs(html, "**", "strong");
    var b2 := SubPairs(b1, "__", "strong");
    var i1 := SubPairs(b2, "*", "em");
    SubPairs(i1, "_", "em")
  }

  /** `markdown_to_html(md_text)`, as a function of the text. */
  function MarkdownToHtml(md: string): string
  {
    Inline(Join(Blocks(Split(md, '\n')), "\n"))
  }

  /** `markdown_to_html`, written as the loop of the source with its two lists. */
  method Convert(md: string) returns (html: string)
    ensures html == MarkdownToHtml(md)
  {
    var lines := Split(md, '\n');
    var htmlLines: seq<string> := [];
    var buffer: seq<string> := [];
    var i := 0;
    while i < |lines|
      invariant 0 <= i <= |lines|
      invariant State(htmlLines, buffer) == Fold(State([], []), lines[..i])
    {
      assert lines[..i + 1][..i] == lines[..i];
      assert Fold(State([], []), lines[..i + 1]) == Step(Fold(State([], []), lines[..i]), lines[i]);
      ghost var before := State(htmlLines, buffer);
      var line := lines[i];
      var stripped := LStrip(line);
      var leadingSpaces := |line| - |stripped|;
      var spacesHtml := Nbsp(leadingSpaces);
      var content := spacesHtml + stripped;
      if IsHeading(stripped) {
        if buffer != [] {
          htmlLines := htmlLines + [ParagraphHtml(buffer)];
          buffer := [];
        }
        var level := HashRun(stripped);
        content := spacesHtml + HeadingText(stripped);
        htmlLines := htmlLines + [HeadingHtml(level, content)];
      } else if stripped != [] && stripped[0] == '>' {
        if buffer != [] {
          htmlLines := htmlLines + [ParagraphHtml(buffer)];
          buffer := [];
        }
        htmlLines := htmlLines + [QuoteHtml(Strip(stripped[1..]))];
      } else {
        buffer := buffer + [content];
      }
      assert State(htmlLines, buffer) == Step(before, line);
      i := i + 1;
    }
    assert lines[..i] == lines;
    if buffer != [] {
      htmlLines := htmlLines + [ParagraphHtml(buffer)];
      buffer := [];
    }
    html := Inline(Join(htmlLines, "\n"));
  }

  // ---------------------------------------------------------------------------
  // Properties of the block structure

  /** The empty document is one empty paragraph. */
  lemma {:induction false} EmptyDocument()
    ensures Blocks(Split("", '\n')) == ["<p></p>"]
    ensures MarkdownToHtml("") == "<p></p>"
  {
    EmptyLineBlocks();
    assert Join(["<p></p>"], "\n") == "<p></p>";
    InlinePlain("<p></p>");
  }

  lemma EmptyLineBlocks()
    ensures Blocks(Split("", '\n')) == ["<p></p>"]
  {
    assert Split("", '\n') == [[]];
    assert Classify([]) == Ordinary([]);
    assert Fold(State([], []), [[]]) == State([], [[]]);
    assert Join([[]], "<br>") == [];
    assert ParagraphHtml([[]]) == "<p></p>";
    assert Blocks([[]]) == ["<p></p>"];
  }

  /** Text with neither '*' nor '_' passes through all four inline passes unchanged. */
  lemma InlinePlain(s: string)
    requires '*' !in s && '_' !in s
    ensures Inline(s) == s
  {
    NoDelimiter(s, "**", "strong");
    NoDelimiter(s, "__", "strong");
    NoDelimiter(s, "*", "em");
    NoDelimiter(s, "_", "em");
  }

  /** One to six '#' followed by whitespace make a heading of that level; its text is what follows the whitespace. */
  lemma {:induction false} HeadingLine(pad: string, hashes: string, ws: char, rest: string)
    requires AllSpace(pad) && IsSpace(ws)
    requires 1 <= |hashes| <= 6 && forall i :: 0 <= i < |hashes| ==> hashes[i] == '#'
    ensures Classify(pad + hashes + [ws] + rest) == Heading(|hashes|, Nbsp(|pad|) + LStrip([ws] + rest))
  {
    var stripped := hashes + ([ws] + rest);
    assert pad + hashes + [ws] + rest == pad + stripped;
    assert stripped[0] == '#';
    LStripPadded(pad, stripped);
    HashRunOfRun(hashes, [ws] + rest);
    assert stripped[|hashes|..] == [ws] + rest;
    ClassifyHeading(pad + stripped, stripped, |hashes|, ws, rest);
  }

  lemma {:induction false} HashRunOfRun(hashes: string, rest: string)
    requires forall i :: 0 <= i < |hashes| ==> hashes[i] == '#'
    requires rest == [] || rest[0] != '#'
    ensures HashRun(hashes + rest) == |hashes|
  {
    HashRunExact(hashes + rest, |hashes|);
  }

  lemma {:induction false} ClassifyHeading(line: string, stripped: string, h: nat, ws: char, rest: string)
    requires LStrip(line) == stripped
    requires HashRun(stripped) == h && 1 <= h <= 6 && |stripped| > h && stripped[h..] == [ws] + rest && IsSpace(ws)
    ensures Classify(line) == Heading(h, Nbsp(|line| - |stripped|) + LStrip([ws] + rest))
  {
  }

  /** Seven or more '#' are ordinary text, whatever follows. */
  lemma {:induction false} TooManyHashes(pad: string, hashes: string, rest: string)
    requires AllSpace(pad)
    requires |hashes| > 6 && forall i :: 0 <= i < |hashes| ==> hashes[i] == '#'
    requires rest == [] || rest[0] != '#'
    ensures Classify(pad + (hashes + rest)) == Ordinary(Nbsp(|pad|) + (hashes + rest))
  {
    var stripped := hashes + rest;
    LStripPadded(pad, stripped);
    HashRunOfRun(hashes, rest);
    assert stripped[0] == '#';
    ClassifyOrdinary(pad + stripped, stripped);
  }

  lemma {:induction false} ClassifyOrdinary(line: string, stripped: string)
    requires LStrip(line) == stripped && !IsHeading(stripped) && (stripped == [] || stripped[0] != '>')
    ensures Classify(line) == Ordinary(Nbsp(|line| - |stripped|) + stripped)
  {
  }

  lemma {:induction false} HashRunExact(s: string, n: nat)
    requires n <= |s| && (forall i :: 0 <= i < n ==> s[i] == '#') && (n < |s| ==> s[n] != '#')
    ensures HashRun(s) == n
  {
    if n > 0 {
      HashRunExact(s[1..], n - 1);
    }
  }

  /** A '#' run directly followed by text (no whitespace) is ordinary text. */
  lemma {:induction false} HashWithoutSpace(n: nat, c: char, rest: string)
    requires 1 <= n && c != '#' && !IsSpace(c)
    ensures Classify(seq(n, _ => '#') + [c] + rest) == Ordinary(seq(n, _ => '#') + [c] + rest)
  {
    var s := seq(n, _ => '#') + [c] + rest;
    assert s[0] == '#' && s[n] == c;
    HashRunExact(s, n);
    assert LStrip(s) == s;
    ClassifyOrdinary(s, s);
    assert Nbsp(0) + s == s;
  }

  lemma {:induction false} LStripPadded(pad: string, s: string)
    requires AllSpace(pad) && (s == [] || !IsSpace(s[0]))
    ensures LStrip(pad + s) == s
    ensures LeadingSpaces(pad + s) == |pad|
  {
    if pad != [] {
      assert (pad + s)[1..] == pad[1..] + s;
      LStripPadded(pad[1..], s);
    } else {
      assert pad + s == s;
    }
  }

  /** Each leading whitespace character of an ordinary line becomes one `&nbsp;`. */
  lemma {:induction false} OrdinaryIndentation(pad: string, text: string)
    requires AllSpace(pad) && text != [] && !IsSpace(text[0])
    requires Classify(pad + text).Ordinary?
    ensures Classify(pad + text).content == Nbsp(|pad|) + text
  {
    LStripPadded(pad, text);
  }

  /** A line starting with '>' after leading whitespace is a blockquote of the stripped remainder. */
  lemma {:induction false} QuoteLine(pad: string, rest: string)
    requires AllSpace(pad)
    ensures Classify(pad + ">" + rest) == Quote(Strip(rest))
  {
    LStripPadded(pad, ">" + rest);
    assert pad + ">" + rest == pad + (">" + rest);
    HashRunExact(">" + rest, 0);
  }

  lemma {:induction false} FoldAppend(st: State, a: seq<string>, b: seq<string>)
    ensures Fold(st, a + b) == Fold(Fold(st, a), b)
    decreases |b|
  {
    if b == [] {
      assert a + b == a;
    } else {
      assert (a + b)[..|a + b| - 1] == a + b[..|b| - 1];
      FoldAppend(st, a, b[..|b| - 1]);
    }
  }

  /** Blocks already emitted are never revisited: the fold only appends to them. */
  lemma {:induction false} FoldKeepsOutput(h: seq<string>, buffer: seq<string>, lines: seq<string>)
    ensures Fold(State(h, buffer), lines).html == h + Fold(State([], buffer), lines).html
    ensures Fold(State(h, buffer), lines).buffer == Fold(State([], buffer), lines).buffer
    decreases |lines|
  {
    if lines != [] {
      var init := lines[..|lines| - 1];
      FoldKeepsOutput(h, buffer, init);
      var b := Fold(State([], buffer), init);
      assert Fold(State(h, buffer), init) == State(h + b.html, b.buffer);
      StepKeepsOutput(h, b, lines[|lines| - 1]);
    }
  }

  /** One step appends to the emitted blocks whatever precedes them. */
  lemma StepKeepsOutput(h: seq<string>, st: State, line: string)
    ensures Step(State(h + st.html, st.buffer), line) == State(h + Step(st, line).html, Step(st, line).buffer)
  {
    match Classify(line)
    case Heading(level, content) =>
      var x := Flush(st).html;
      FlushKeepsOutput(h, st);
      assert (h + x) + [HeadingHtml(level, content)] == h + (x + [HeadingHtml(level, content)]);
    case Quote(content) =>
      var x := Flush(st).html;
      FlushKeepsOutput(h, st);
      assert (h + x) + [QuoteHtml(content)] == h + (x + [QuoteHtml(content)]);
    case Ordinary(_) =>
  }

  lemma FlushKeepsOutput(h: seq<string>, st: State)
    ensures Flush(State(h + st.html, st.buffer)).html == h + Flush(st).html
  {
    if st.buffer != [] {
      assert (h + st.html) + [ParagraphHtml(st.buffer)] == h + (st.html + [ParagraphHtml(st.buffer)]);
    }
  }

  /**
   * Consecutive ordinary lines, blank ones included, accumulate in the buffer in order
   * and nothing is emitted while they last.
   */
  lemma {:induction false} OrdinaryRun(st: State, lines: seq<string>)
    requires forall k :: 0 <= k < |lines| ==> Classify(lines[k]).Ordinary?
    ensures Fold(st, lines) == State(st.html, st.buffer + seq(|lines|, k requires 0 <= k < |lines| => Classify(lines[k]).content))
    decreases |lines|
  {
    if lines != [] {
      var n := |lines|;
      var init := lines[..n - 1];
      OrdinaryRun(st, init);
      var before := seq(n - 1, k requires 0 <= k < n - 1 => Classify(init[k]).content);
      var c := Classify(lines[n - 1]).content;
      ContentsSnoc(lines);
      assert Fold(st, lines) == Step(State(st.html, st.buffer + before), lines[n - 1]);
      assert (st.buffer + before) + [c] == st.buffer + (before + [c]);
    }
  }

  lemma ContentsSnoc(lines: seq<string>)
    requires lines != []
    ensures seq(|lines|, k requires 0 <= k < |lines| => Classify(lines[k]).content)
      == seq(|lines| - 1, k requires 0 <= k < |lines| - 1 => Classify(lines[..|lines| - 1][k]).content) + [Classify(lines[|lines| - 1]).content]
  {
    var n := |lines|;
    var a := seq(n, k requires 0 <= k < n => Classify(lines[k]).content);
    var b := seq(n - 1, k requires 0 <= k < n - 1 => Classify(lines[..n - 1][k]).content) + [Classify(lines[n - 1]).content];
    forall i | 0 <= i < n
      ensures a[i] == b[i]
    {
      if i < n - 1 {
        assert lines[..n - 1][i] == lines[i];
      }
    }
  }

  /** A document of ordinary lines only is a single paragraph whose lines are joined by `<br>`. */
  lemma {:induction false} SingleParagraph(lines: seq<string>)
    requires lines != []
    requires forall k :: 0 <= k < |lines| ==> Classify(lines[k]).Ordinary?
    ensures Blocks(lines) == [ParagraphHtml(seq(|lines|, k requires 0 <= k < |lines| => Classify(lines[k]).content))]
  {
    var contents := seq(|lines|, k requires 0 <= k < |lines| => Classify(lines[k]).content);
    OrdinaryRun(State([], []), lines);
    assert [] + contents == contents;
    assert Fold(State([], []), lines) == State([], contents);
  }

  /**
   * A heading or a blockquote closes the open paragraph and emits its own block: the blocks of
   * `before + [line] + after` are those of `before`, then that line's block, then those of `after`.
   */
  lemma {:induction false} SpecialLineSplits(before: seq<string>, line: string, after: seq<string>)
    requires !Classify(line).Ordinary?
    ensures Blocks(before + [line] + after) ==
      Blocks(before) + [match Classify(line) case Heading(l, c) => HeadingHtml(l, c) case Quote(c) => QuoteHtml(c) case Ordinary(c) => c] + Blocks(after)
  {
    var st0 := State([], []);
    SpecialStep(before, line);
    var mid := Fold(st0, before + [line]);
    FoldAppend(st0, before + [line], after);
    FoldKeepsOutput(mid.html, [], after);
    FlushKeepsOutput(mid.html, Fold(st0, after));
  }

  /** The special line flushes the paragraph of `before` and leaves the buffer empty. */
  lemma SpecialStep(before: seq<string>, line: string)
    requires !Classify(line).Ordinary?
    ensures Fold(State([], []), before + [line]) ==
      State(Blocks(before) + [match Classify(line) case Heading(l, c) => HeadingHtml(l, c) case Quote(c) => QuoteHtml(c) case Ordinary(c) => c], [])
  {
    assert (before + [line])[..|before + [line]| - 1] == before;
  }

  // ---------------------------------------------------------------------------
  // Properties of the inline passes

  /** Text without the delimiter's first character passes through a substitution unchanged. */
  lemma {:induction false} NoDelimiter(s: string, d: string, tag: string)
    requires d != [] && d[0] !in s
    ensures SubPairs(s, d, tag) == s
    decreases |s|
  {
    if s != [] {
      assert !StartsWith(s, d) by { assert s[0] != d[0]; }
      NoDelimiter(s[1..], d, tag);
    }
  }

  /**
   * Bold runs before italic: `**x**` becomes `<strong>x</strong>`, not two empty `<em>` pairs
   * around `x`, when `x` holds no '*', '_' or line break.
   */
  lemma {:induction false} BoldBeforeItalic(x: string)
    requires '*' !in x && '_' !in x && '\n' !in x
    ensures Inline("**" + x + "**") == "<strong>" + x + "</strong>"
  {
    var b := "<strong>" + x + "</strong>";
    BoldPair(x);
    StrongHasNoMarks(x);
    NoDelimiter(b, "__", "strong");
    NoDelimiter(b, "*", "em");
    NoDelimiter(b, "_", "em");
  }

  lemma StrongHasNoMarks(x: string)
    requires '*' !in x && '_' !in x
    ensures '*' !in "<strong>" + x + "</strong>" && '_' !in "<strong>" + x + "</strong>"
  {
    var b := "<strong>" + x + "</strong>";
    forall i | 0 <= i < |b| ensures b[i] != '*' && b[i] != '_' {
      if i < 8 {
        assert b[i] == "<strong>"[i];
      } else if i < 8 + |x| {
        assert b[i] == x[i - 8];
      } else {
        assert b[i] == "</strong>"[i - 8 - |x|];
      }
    }
  }

  lemma {:induction false} BoldPair(x: string)
    requires '*' !in x && '\n' !in x
    ensures SubPairs("**" + x + "**", "**", "strong") == "<strong>" + x + "</strong>"
  {
    var s := "**" + x + "**";
    BoldShape(x);
    StrongWrap(x);
    SubPairsAt(s, "**", "strong", |x|);
    assert SubPairs([], "**", "strong") == [];
  }

  /** Where the pieces of `**x**` sit for the bold pass. */
  lemma BoldShape(x: string)
    requires '*' !in x && '\n' !in x
    ensures StartsWith("**" + x + "**", "**")
    ensures FindClose(("**" + x + "**")[2..], "**") == Common.Some(|x|)
    ensures ("**" + x + "**")[2..][..|x|] == x && ("**" + x + "**")[2..][|x| + 2..] == []
  {
    var s := "**" + x + "**";
    var t := x + "**";
    assert s[2..] == t;
    assert t[..|x|] == x;
    assert t[|x|..|x| + 2] == "**";
    FindCloseAt(t, "**", |x|);
  }

  lemma StrongWrap(x: string)
    ensures "<" + "strong" + ">" + x + "</" + "strong" + ">" + [] == "<strong>" + x + "</strong>"
  {
    WrapTag("strong", x);
    assert "<" + "strong" + ">" == "<strong>";
    assert "</" + "strong" + ">" == "</strong>";
  }

  /** The replacement text of a pair, regrouped as opening tag, content, closing tag. */
  lemma WrapTag(tag: string, x: string)
    ensures "<" + tag + ">" + x + "</" + tag + ">" + [] == ("<" + tag + ">") + x + ("</" + tag + ">")
  {
  }

  /** A pair opening at the start of `s` and closing at `j` of the rest is replaced, and scanning resumes after it. */
  lemma SubPairsAt(s: string, d: string, tag: string, j: nat)
    requires d != [] && StartsWith(s, d) && FindClose(s[|d|..], d) == Common.Some(j)
    ensures SubPairs(s, d, tag) == "<" + tag + ">" + s[|d|..][..j] + "</" + tag + ">" + SubPairs(s[|d|..][j + |d|..], d, tag)
  {
  }

  lemma {:induction false} FindCloseAt(t: string, d: string, j: nat)
    requires d != [] && j + |d| <= |t| && t[j..j + |d|] == d && '\n' !in t[..j]
    requires forall k :: 0 <= k < j ==> t[k] != d[0]
    ensures FindClose(t, d) == Common.Some(j)
    decreases j
  {
    if j > 0 {
      assert !StartsWith(t, d) by { assert t[0] != d[0]; }
      assert t[0] in t[..j];
      assert t[1..][j - 1..j - 1 + |d|] == t[j..j + |d|];
      assert t[1..][..j - 1] == t[1..j];
      FindCloseAt(t[1..], d, j - 1);
    }
  }
}
