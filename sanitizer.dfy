/** `sanitizeAndProcessHtml`: four global, case-insensitive replacements
    that delete `script`, `iframe`, `object` and `embed` elements from a
    chapter's body markup. */
module Sanitizer {
  import opened Wrappers
  import opened Strings

  /** The characters of `\w` (no `u` flag). */
  predicate IsWordChar(c: char) {
    ('a' <= c <= 'z') || ('A' <= c <= 'Z') || ('0' <= c <= '9') || c == '_'
  }

  /** `w` is `pat` up to ASCII case (`pat` has no upper-case letter), as
      the `i` flag compares the letters of these patterns. */
  predicate SameIgnoringCase(w: string, pat: string)
    decreases |w|
  {
    if w == [] then pat == []
    else pat != [] && LowerChar(w[0]) == pat[0] && SameIgnoringCase(w[1..], pat[1..])
  }

  lemma {:induction false} SameIgnoringCaseLength(w: string, pat: string)
    requires SameIgnoringCase(w, pat)
    ensures |w| == |pat|
    decreases |w|
  {
    if w != [] {
      SameIgnoringCaseLength(w[1..], pat[1..]);
    }
  }

  /** A lower-case pattern matches itself. */
  lemma {:induction false} SameIgnoringCaseSelf(pat: string)
    requires forall i :: 0 <= i < |pat| ==> !('A' <= pat[i] <= 'Z')
    ensures SameIgnoringCase(pat, pat)
    decreases |pat|
  {
    if pat != [] {
      SameIgnoringCaseSelf(pat[1..]);
    }
  }

  /** `<tag\b` matches at the start of `s`, ignoring ASCII case (`tag` is
      lower-case). */
  predicate Opens(s: string, tag: string) {
    && 1 + |tag| <= |s|
    && s[0] == '<'
    && SameIgnoringCase(s[1..1 + |tag|], tag)
    && (1 + |tag| == |s| || !IsWordChar(s[1 + |tag|]))
  }

  /** `<\/tag>` matches at `j`, ignoring ASCII case. */
  predicate ClosesAt(s: string, j: nat, tag: string) {
    j + |tag| + 3 <= |s| && SameIgnoringCase(s[j..j + |tag| + 3], "</" + tag + ">")
  }

  /** The first closing tag at or after `j`. */
  function FindClose(s: string, tag: string, j: nat): (r: Option<nat>)
    ensures r.Some? ==> j <= r.value && ClosesAt(s, r.value, tag)
    ensures r.Some? ==> forall k: nat :: j <= k < r.value ==> !ClosesAt(s, k, tag)
    ensures r.None? ==> forall k: nat :: j <= k ==> !ClosesAt(s, k, tag)
    decreases |s| - j
  {
    if j + |tag| + 3 > |s| then None
    else if ClosesAt(s, j, tag) then Some(j)
    else FindClose(s, tag, j + 1)
  }

  /** The global replacement of
      `<tag\b[^<]*(?:(?!<\/tag>)<[^<]*)*<\/tag>` by nothing. At each
      position the pattern matches from an opening `<tag` to the first
      closing tag after it, and the scan resumes after that closing tag;
      where no closing tag follows, nothing matches and the scan moves one
      character on. */
  function Strip(s: string, tag: string): (r: string)
    ensures |r| <= |s|
    decreases |s|
  {
    if s == [] then []
    else if Opens(s, tag) && FindClose(s, tag, 1 + |tag|).Some? then
      Strip(s[FindClose(s, tag, 1 + |tag|).value + |tag| + 3..], tag)
    else [s[0]] + Strip(s[1..], tag)
  }

  /** `sanitizeAndProcessHtml`. */
  function Sanitize(html: string): (r: string)
    ensures |r| <= |html|
  {
    Strip(Strip(Strip(Strip(html, "script"), "iframe"), "object"), "embed")
  }

  // ---------------------------------------------------------------------
  // what a replacement keeps and what it deletes
  // ---------------------------------------------------------------------

  lemma ClosesAtTail(s: string, k: nat, tag: string)
    requires s != []
    ensures ClosesAt(s[1..], k, tag) == ClosesAt(s, k + 1, tag)
  {
    if k + |tag| + 3 <= |s| - 1 {
      assert s[1..][k..k + |tag| + 3] == s[k + 1..k + 1 + |tag| + 3];
    }
  }

  /** A replacement changes nothing in markup with no closing tag of its
      element (a lone `<script src=...>` is kept). */
  lemma {:induction false} StripUnclosed(s: string, tag: string)
    requires forall k: nat :: !ClosesAt(s, k, tag)
    ensures Strip(s, tag) == s
    decreases |s|
  {
    if s != [] {
      forall k: nat ensures !ClosesAt(s[1..], k, tag) {
        ClosesAtTail(s, k, tag);
      }
      StripUnclosed(s[1..], tag);
      assert [s[0]] + s[1..] == s;
    }
  }

  lemma NoAngleUnclosed(s: string, tag: string)
    requires '<' !in s
    ensures forall k: nat :: !ClosesAt(s, k, tag)
  {
    forall k: nat | k + |tag| + 3 <= |s| ensures !ClosesAt(s, k, tag) {
      assert s[k..k + |tag| + 3][0] == s[k];
    }
  }

  /** Markup without '<' is never changed by the sanitizer. */
  lemma SanitizePlain(s: string)
    requires '<' !in s
    ensures Sanitize(s) == s
  {
    NoAngleUnclosed(s, "script");
    StripUnclosed(s, "script");
    SanitizeRestPlain(s);
  }

  lemma SanitizeRestPlain(s: string)
    requires '<' !in s
    ensures Strip(Strip(Strip(s, "iframe"), "object"), "embed") == s
  {
    NoAngleUnclosed(s, "iframe");
    StripUnclosed(s, "iframe");
    NoAngleUnclosed(s, "object");
    StripUnclosed(s, "object");
    NoAngleUnclosed(s, "embed");
    StripUnclosed(s, "embed");
  }

  /** Text before the first '<' is kept, and the rest is replaced as if
      on its own. */
  lemma {:induction false} StripPlainPrefix(p: string, x: string, tag: string)
    requires '<' !in p
    ensures Strip(p + x, tag) == p + Strip(x, tag)
    decreases |p|
  {
    if p != [] {
      var s := p + x;
      assert s[0] == p[0];
      assert s[1..] == p[1..] + x;
      StripPlainPrefix(p[1..], x, tag);
      assert [p[0]] + p[1..] == p;
    } else {
      assert p + x == x;
    }
  }

  // ---------------------------------------------------------------------
  // deleting one element
  // ---------------------------------------------------------------------

  /** No closing tag of `tag` starts inside `inner`, even one that the
      closing tag `close` after it would complete. */
  predicate NoCloserIn(inner: string, close: string, tag: string) {
    forall k: nat :: k < |inner| ==> !ClosesAt(inner + close, k, tag)
  }

  /** An element `<name inner close` with `name` equal to the tag in any
      ASCII case, `inner` not continuing the name and holding no closing
      tag, and `close` the closing tag in any case, is deleted whole, and
      what follows is replaced on its own. `inner` may hold any other
      markup, '<' included. */
  lemma StripElement(tag: string, name: string, inner: string, close: string, rest: string)
    requires SameIgnoringCase(name, tag)
    requires inner != [] ==> !IsWordChar(inner[0])
    requires NoCloserIn(inner, close, tag)
    requires SameIgnoringCase(close, "</" + tag + ">")
    ensures Strip("<" + name + inner + close + rest, tag) == Strip(rest, tag)
  {
    SameIgnoringCaseLength(name, tag);
    SameIgnoringCaseLength(close, "</" + tag + ">");
    var s := "<" + name + inner + close + rest;
    var n := |tag|;
    var c := 1 + n + |inner|;
    ElementOpens(tag, name, inner, close, rest);
    ElementCloses(tag, name, inner, close, rest);
    assert s[c + n + 3..] == rest;
  }

  lemma ElementOpens(tag: string, name: string, inner: string, close: string, rest: string)
    requires SameIgnoringCase(name, tag) && |name| == |tag|
    requires inner != [] ==> !IsWordChar(inner[0])
    requires SameIgnoringCase(close, "</" + tag + ">") && |close| == |tag| + 3
    ensures Opens("<" + name + inner + close + rest, tag)
  {
    var s := "<" + name + inner + close + rest;
    var n := |tag|;
    assert s[0] == '<';
    assert s[1..1 + n] == name;
    if inner == [] {
      assert s[1 + n] == close[0];
      assert ("</" + tag + ">")[0] == '<';
      assert LowerChar(close[0]) == '<';
      assert !IsWordChar(close[0]);
    } else {
      assert s[1 + n] == inner[0];
    }
  }

  lemma ElementCloses(tag: string, name: string, inner: string, close: string, rest: string)
    requires |name| == |tag|
    requires NoCloserIn(inner, close, tag)
    requires SameIgnoringCase(close, "</" + tag + ">") && |close| == |tag| + 3
    ensures FindClose("<" + name + inner + close + rest, tag, 1 + |tag|) == Some(1 + |tag| + |inner|)
  {
    var s := "<" + name + inner + close + rest;
    var n := |tag|;
    var c := 1 + n + |inner|;
    var ic := inner + close;
    assert s[1 + n..c + n + 3] == ic;
    assert s[c..c + n + 3] == close;
    assert ClosesAt(s, c, tag);
    forall k: nat | 1 + n <= k < c ensures !ClosesAt(s, k, tag) {
      var i := k - 1 - n;
      assert s[k..k + n + 3] == ic[i..i + n + 3];
      assert !ClosesAt(ic, i, tag);
    }
    FindCloseFirst(s, tag, 1 + n, c);
  }

  /** Content in which no '<' is directly followed by '/' holds no
      closing tag. */
  lemma NoSlashNoCloser(inner: string, close: string, tag: string)
    requires forall k :: 0 <= k < |inner| - 1 ==> !(inner[k] == '<' && inner[k + 1] == '/')
    requires SameIgnoringCase(close, "</" + tag + ">")
    ensures NoCloserIn(inner, close, tag)
  {
    var ic := inner + close;
    forall k: nat | k < |inner| ensures !ClosesAt(ic, k, tag) {
      if k + |tag| + 3 <= |ic| {
        var w := ic[k..k + |tag| + 3];
        CloserStart(w, tag);
        if k + 1 < |inner| {
          assert w[0] == inner[k] && w[1] == inner[k + 1];
        } else {
          CloserStart(close, tag);
          assert w[1] == close[0];
        }
      }
    }
  }

  /** The first closing tag is found. */
  lemma {:induction false} FindCloseFirst(s: string, tag: string, j: nat, c: nat)
    requires j <= c && ClosesAt(s, c, tag)
    requires forall k: nat :: j <= k < c ==> !ClosesAt(s, k, tag)
    ensures FindClose(s, tag, j) == Some(c)
    decreases c - j
  {
    if j < c {
      FindCloseFirst(s, tag, j + 1, c);
    }
  }

  /** A leading script element, in any case, is deleted and the rest of
      the markup is sanitized as if on its own: `<script>alert(1)</script>`
      followed by `<p>ok</p>` sanitizes to what `<p>ok</p>` alone does. */
  lemma SanitizeDropsScript(name: string, inner: string, close: string, rest: string)
    requires SameIgnoringCase(name, "script")
    requires inner != [] ==> !IsWordChar(inner[0])
    requires NoCloserIn(inner, close, "script")
    requires SameIgnoringCase(close, "</script>")
    ensures Sanitize("<" + name + inner + close + rest) == Sanitize(rest)
  {
    assert "</" + "script" + ">" == "</script>";
    StripElement("script", name, inner, close, rest);
  }

  /** Plain text around a deleted element is kept, whatever markup the
      script holds short of its closing tag. */
  lemma SanitizeScriptInText(text: string, body: string, after: string)
    requires '<' !in text && '<' !in after
    requires NoCloserIn(body, "</script>", "script")
    requires body != [] ==> !IsWordChar(body[0])
    ensures Sanitize(text + ("<script" + body + "</script>" + after)) == text + after
  {
    StripScriptInText(text, body, after);
    assert '<' !in text + after;
    SanitizeRestPlain(text + after);
  }

  lemma StripScriptInText(text: string, body: string, after: string)
    requires '<' !in text && '<' !in after
    requires NoCloserIn(body, "</script>", "script")
    requires body != [] ==> !IsWordChar(body[0])
    ensures Strip(text + ("<script" + body + "</script>" + after), "script") == text + after
  {
    SameIgnoringCaseSelf("script");
    SameIgnoringCaseSelf("</script>");
    assert "</" + "script" + ">" == "</script>";
    var x := "<script" + body + "</script>" + after;
    assert "<" + "script" == "<script";
    assert x == "<" + "script" + body + "</script>" + after;
    calc {
      Strip(text + x, "script");
      { StripPlainPrefix(text, x, "script"); }
      text + Strip(x, "script");
      { StripElement("script", "script", body, "</script>", after); }
      text + Strip(after, "script");
      { NoAngleUnclosed(after, "script"); StripUnclosed(after, "script"); }
      text + after;
    }
  }

  /** A closing tag starts with "</" in every case. */
  lemma CloserStart(w: string, tag: string)
    requires |w| >= 2
    ensures SameIgnoringCase(w, "</" + tag + ">") ==> w[0] == '<' && w[1] == '/'
  {
    var pat := "</" + tag + ">";
    if SameIgnoringCase(w, pat) {
      assert LowerChar(w[0]) == pat[0] == '<';
      assert SameIgnoringCase(w[1..], pat[1..]);
      assert LowerChar(w[1..][0]) == pat[1..][0] == '/';
    }
  }

  /** No closing tag can match where no "</" starts early enough. */
  lemma NoCloseStart(s: string, tag: string)
    requires forall k :: 0 <= k && k + |tag| + 3 <= |s| ==> !(s[k] == '<' && s[k + 1] == '/')
    ensures forall k: nat :: !ClosesAt(s, k, tag)
  {
    forall k: nat | k + |tag| + 3 <= |s| ensures !ClosesAt(s, k, tag) {
      var w := s[k..k + |tag| + 3];
      CloserStart(w, tag);
      assert w[0] == s[k] && w[1] == s[k + 1];
    }
  }

  /** Markup in which no "</" is followed by enough characters for a
      closing `script`, `iframe`, `object` or `embed` tag is kept whole. */
  lemma SanitizeNoCloser(s: string)
    requires forall k :: 0 <= k && k + 8 <= |s| ==> !(s[k] == '<' && s[k + 1] == '/')
    ensures Sanitize(s) == s
  {
    NoCloseStart(s, "script");
    StripUnclosed(s, "script");
    NoCloseStart(s, "iframe");
    StripUnclosed(s, "iframe");
    NoCloseStart(s, "object");
    StripUnclosed(s, "object");
    NoCloseStart(s, "embed");
    StripUnclosed(s, "embed");
  }

  /** `<script>alert(1)</script><p>ok</p>` sanitizes to `<p>ok</p>`. */
  lemma SanitizeExample(name: string, inner: string, close: string, kept: string)
    requires name == "script" && inner == ">alert(1)" && close == "</script>" && kept == "<p>ok</p>"
    ensures Sanitize("<" + name + inner + close + kept) == kept
  {
    SameIgnoringCaseSelf(name);
    SameIgnoringCaseSelf(close);
    assert inner[0] == '>';
    assert "</" + name + ">" == close;
    NoSlashNoCloser(inner, close, name);
    SanitizeDropsScript(name, inner, close, kept);
    ParagraphKept(kept);
  }

  lemma ParagraphKept(kept: string)
    requires kept == "<p>ok</p>"
    ensures Sanitize(kept) == kept
  {
    assert kept[1] == 'p' && kept[2] == '>';
    SanitizeNoCloser(kept);
  }

  /** A script whose code compares with '<' is still deleted whole:
      `<script>` + `code` + `</script>` disappears when `code` is `a<b`
      with `b` not starting with '/'. */
  lemma SanitizeScriptWithLess(a: string, b: string, rest: string)
    requires '<' !in a && '<' !in b
    requires a != [] ==> !IsWordChar(a[0])
    requires b != [] ==> b[0] != '/'
    ensures Sanitize("<script" + (a + "<" + b) + "</script>" + rest) == Sanitize(rest)
  {
    var body := a + "<" + b;
    forall k | 0 <= k < |body| - 1 ensures !(body[k] == '<' && body[k + 1] == '/') {
      if k < |a| {
        assert body[k] == a[k];
      } else if k == |a| {
        assert body[k + 1] == b[0];
      } else {
        assert body[k] == b[k - |a| - 1];
      }
    }
    SameIgnoringCaseSelf("script");
    SameIgnoringCaseSelf("</script>");
    assert "</" + "script" + ">" == "</script>";
    NoSlashNoCloser(body, "</script>", "script");
    assert body != [] ==> !IsWordChar(body[0]) by {
      if a == [] { assert body[0] == '<'; } else { assert body[0] == a[0]; }
    }
    assert "<" + "script" == "<script";
    SanitizeDropsScript("script", body, "</script>", rest);
  }

  /** `<script>if(a<b)f()</script><p>ok</p>` sanitizes to `<p>ok</p>`. */
  lemma SanitizeComparisonExample(a: string, b: string, kept: string)
    requires a == ">if(a" && b == "b)f()" && kept == "<p>ok</p>"
    ensures Sanitize("<script" + (a + "<" + b) + "</script>" + kept) == kept
  {
    assert a[0] == '>' && b[0] == 'b';
    SanitizeScriptWithLess(a, b, kept);
    ParagraphKept(kept);
  }
}
