/**
 * `escape_markdown`: a backslash goes before every Markdown control character, then the
 * result is stripped. The same function is defined in utils/utils.py and bot/utils/utils.py.
 */
module Escape {
  import opened Text

  /** The characters of the class ``_*[]()~`>#+-=|{}!`` that the substitution escapes. */
  predicate IsMarkdownSpecial(c: char)
  {
    c in "_*[]()~`>#+-=|{}!"
  }

  predicate NoSpecial(s: string)
  {
    forall i :: 0 <= i < |s| ==> !IsMarkdownSpecial(s[i])
  }

  function CountSpecial(s: string): nat
  {
    if s == [] then 0 else (if IsMarkdownSpecial(s[0]) then 1 else 0) + CountSpecial(s[1..])
  }

  /**
   * The `re.sub` step: every special character is preceded by a backslash in the output,
   * and the output grows by exactly one character per special character.
   */
  function EscapeRaw(s: string): (r: string)
    ensures |r| == |s| + CountSpecial(s)
    ensures Backslashed(r)
    ensures r == [] || !IsMarkdownSpecial(r[0])
  {
    if s == [] then []
    else
      var rest := EscapeRaw(s[1..]);
      var head := if IsMarkdownSpecial(s[0]) then ['\\', s[0]] else [s[0]];
      BackslashedConcat(head, rest);
      head + rest
  }

  /** Every special character of `t` directly follows a backslash. */
  predicate Backslashed(t: string)
  {
    forall i :: 0 <= i < |t| && IsMarkdownSpecial(t[i]) ==> i > 0 && t[i - 1] == '\\'
  }

  /** An escaped piece followed by an escaped piece that does not start with a special character. */
  lemma BackslashedConcat(head: string, rest: string)
    requires Backslashed(head) && Backslashed(rest) && (rest == [] || !IsMarkdownSpecial(rest[0]))
    ensures Backslashed(head + rest)
  {
    var t := head + rest;
    forall i | 0 <= i < |t| && IsMarkdownSpecial(t[i]) ensures i > 0 && t[i - 1] == '\\'
    {
      if i < |head| {
        assert t[i] == head[i];
        assert t[i - 1] == head[i - 1];
      } else if i > |head| {
        assert t[i] == rest[i - |head|];
        assert t[i - 1] == rest[i - |head| - 1];
      }
    }
  }

  /** `escape_markdown(content)`. */
  function EscapeMarkdown(s: string): (r: string)
    ensures Stripped(r)
  {
    Strip(EscapeRaw(s))
  }

  /** Drops the backslash in front of each special character: the inverse of `EscapeRaw`. */
  function Unescape(s: string): string
  {
    if |s| >= 2 && s[0] == '\\' && IsMarkdownSpecial(s[1]) then [s[1]] + Unescape(s[2..])
    else if s == [] then []
    else [s[0]] + Unescape(s[1..])
  }

  /** Escaping loses nothing: existing backslashes are left alone, so unescaping restores the input. */
  lemma {:induction false} UnescapeEscape(s: string)
    ensures Unescape(EscapeRaw(s)) == s
  {
    if s != [] {
      var rest := EscapeRaw(s[1..]);
      UnescapeEscape(s[1..]);
      if IsMarkdownSpecial(s[0]) {
        assert EscapeRaw(s) == ['\\', s[0]] + rest;
        assert (['\\', s[0]] + rest)[2..] == rest;
      } else {
        assert EscapeRaw(s) == [s[0]] + rest;
        assert ([s[0]] + rest)[1..] == rest;
      }
    }
  }

  /** Text with no special character is only stripped. */
  lemma {:induction false} EscapeNoSpecial(s: string)
    requires NoSpecial(s)
    ensures EscapeRaw(s) == s
    ensures EscapeMarkdown(s) == Strip(s)
    decreases |s|
  {
    if s != [] {
      assert NoSpecial(s[1..]) by {
        forall i | 0 <= i < |s[1..]| ensures !IsMarkdownSpecial(s[1..][i])
        {
          assert s[1..][i] == s[i + 1];
        }
      }
      EscapeNoSpecial(s[1..]);
      assert !IsMarkdownSpecial(s[0]);
      assert EscapeRaw(s) == [s[0]] + s[1..];
      assert [s[0]] + s[1..] == s;
    }
  }

  /** Escaping commutes with concatenation, so it works character by character. */
  lemma {:induction false} EscapeRawAppend(a: string, b: string)
    ensures EscapeRaw(a + b) == EscapeRaw(a) + EscapeRaw(b)
  {
    if a != [] {
      assert (a + b)[0] == a[0] && (a + b)[1..] == a[1..] + b;
      EscapeRawAppend(a[1..], b);
      var head := if IsMarkdownSpecial(a[0]) then ['\\', a[0]] else [a[0]];
      assert EscapeRaw(a + b) == head + EscapeRaw(a[1..] + b);
      assert EscapeRaw(a) == head + EscapeRaw(a[1..]);
      ConcatAssoc(head, EscapeRaw(a[1..]), EscapeRaw(b));
    } else {
      assert a + b == b;
    }
  }
}
