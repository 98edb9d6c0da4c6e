/** HTML output of the two formatters: the escaping of angle brackets they start with,
    and what "every angle bracket in the output belongs to a tag the formatter wrote"
    means for a string. */
module Html {
  import opened JsText
  import opened Regex

  /** The sanitising step: every `<` becomes `&lt;`, then every `>` becomes `&gt;`. */
  function Escape(s: string): (r: string)
    ensures '<' !in r && '>' !in r
  {
    var lt := ReplaceChar(s, '<', "&lt;");
    ReplaceCharKeeps(lt, '>', "&gt;", '<');
    ReplaceChar(lt, '>', "&gt;")
  }

  /** Reading the two entities back as the characters they stand for. */
  function Unescape(s: string): string
    decreases |s|
  {
    if s == [] then []
    else if "&lt;" <= s then "<" + Unescape(s[4..])
    else if "&gt;" <= s then ">" + Unescape(s[4..])
    else [s[0]] + Unescape(s[1..])
  }

  /** Escaping brings in no character other than those of the two entities. */
  lemma EscapeKeeps(s: string, e: char)
    requires e !in s && e !in "&lt;&gt;"
    ensures e !in Escape(s)
  {
    ReplaceCharKeeps(s, '<', "&lt;", e);
    ReplaceCharKeeps(ReplaceChar(s, '<', "&lt;"), '>', "&gt;", e);
  }

  /** Escaping works character by character. */
  lemma EscapeCons(c: char, s: string)
    ensures Escape([c] + s) == (if c == '<' then "&lt;" else if c == '>' then "&gt;" else [c]) + Escape(s)
  {
    ReplaceCharAppend([c], s, '<', "&lt;");
    var lt := ReplaceChar([c], '<', "&lt;");
    ReplaceCharAppend(lt, ReplaceChar(s, '<', "&lt;"), '>', "&gt;");
    assert ReplaceChar([c], '<', "&lt;") == if c == '<' then "&lt;" else [c];
  }

  /** Reading back one escaped character other than `&`. */
  lemma UnescapeCons(c: char, t: string)
    requires c != '&'
    ensures Unescape((if c == '<' then "&lt;" else if c == '>' then "&gt;" else [c]) + t) == [c] + Unescape(t)
  {
    var e := (if c == '<' then "&lt;" else if c == '>' then "&gt;" else [c]) + t;
    if c == '<' {
      assert "&lt;" <= e && e[4..] == t;
    } else if c == '>' {
      assert e == "&gt;" + t;
      assert e[..4] == "&gt;" && e[4..] == t;
      assert e[1] == 'g';
    } else {
      assert e[0] == c && e[1..] == t;
    }
  }

  /** Escaping loses nothing on text without `&`: it is undone by reading the entities back. */
  lemma {:induction false} EscapeRoundTrip(s: string)
    requires '&' !in s
    ensures Unescape(Escape(s)) == s
    decreases |s|
  {
    if s != [] {
      EscapeCons(s[0], s[1..]);
      assert s == [s[0]] + s[1..];
      assert '&' !in s[1..];
      EscapeRoundTrip(s[1..]);
      UnescapeCons(s[0], Escape(s[1..]));
    }
  }

  /** `&` is left alone, so a literal `&lt;` in the text and a `<` come out the same. */
  lemma AmpersandNotEscaped()
    ensures Escape("<") == Escape("&lt;") == "&lt;"
  {
    EscapeCons('<', "");
    assert ReplaceChar("&lt;", '<', "&lt;") == "&lt;";
    assert ReplaceChar("&lt;", '>', "&gt;") == "&lt;";
  }

  // ---------------------------------------------------------------------------
  // Markup safety

  /** A tag as the formatters write them: `<`, then no `>` until the closing `>`. */
  predicate IsTag(t: string) {
    |t| >= 2 && t[0] == '<' && t[|t| - 1] == '>' && forall k :: 0 <= k < |t| - 1 ==> t[k] != '>'
  }

  predicate AllTags(tags: seq<string>) {
    forall i :: 0 <= i < |tags| ==> IsTag(tags[i])
  }

  /** No tag uses any of the `marks`. */
  predicate TagsAvoid(tags: seq<string>, marks: set<char>) {
    forall i :: 0 <= i < |tags| ==> Avoids(tags[i], marks)
  }

  /** The first of the tags (from index `i` on) that `s` starts with. */
  function TagAt(s: string, tags: seq<string>, i: nat): (r: Option<nat>)
    ensures r.Some? ==> i <= r.value < |tags| && tags[r.value] != [] && tags[r.value] <= s
    decreases |tags| - i
  {
    if i >= |tags| then None
    else if tags[i] != [] && tags[i] <= s then Some(i)
    else TagAt(s, tags, i + 1)
  }

  /** `s` reads, left to right, as a sequence of the given tags and of characters other
      than `<` and `>`: every angle bracket in `s` belongs to one of the tags. */
  predicate MarkupSafe(s: string, tags: seq<string>)
    decreases |s|
  {
    if s == [] then true
    else if s[0] == '>' then false
    else if s[0] == '<' then
      match TagAt(s, tags, 0)
      case Some(j) => MarkupSafe(s[|tags[j]|..], tags)
      case None => false
    else MarkupSafe(s[1..], tags)
  }

  /** Without any tags, markup-safe text is exactly text with no angle bracket. */
  lemma {:induction false} NoTagsSafe(s: string)
    ensures MarkupSafe(s, []) <==> '<' !in s && '>' !in s
    decreases |s|
  {
    if s != [] {
      NoTagsSafe(s[1..]);
      assert s == [s[0]] + s[1..];
    }
  }

  /** Text with no angle bracket is markup-safe whatever the tags. */
  lemma {:induction false} NoAnglesSafe(s: string, tags: seq<string>)
    requires '<' !in s && '>' !in s
    ensures MarkupSafe(s, tags)
    decreases |s|
  {
    if s != [] {
      assert s[0] in s;
      assert forall c :: c in s[1..] ==> c in s;
      NoAnglesSafe(s[1..], tags);
    }
  }

  /** Escaped text is markup-safe whatever the tags. */
  lemma EscapeSafe(s: string, tags: seq<string>)
    ensures MarkupSafe(Escape(s), tags)
  {
    NoAnglesSafe(Escape(s), tags);
  }

  /** Tags are prefix-free: one tag can begin another only by being equal to it. */
  lemma TagPrefix(t: string, u: string)
    requires IsTag(t) && IsTag(u) && t <= u
    ensures t == u
  {
  }

  lemma {:induction false} TagAtExtend(a: string, b: string, tags: seq<string>, i: nat)
    requires AllTags(tags)
    requires TagAt(a, tags, i).Some?
    ensures TagAt(a + b, tags, i) == TagAt(a, tags, i)
    decreases |tags| - i
  {
    var j := TagAt(a, tags, i).value;
    assert tags[j] <= a + b by { assert (a + b)[..|a|] == a; }
    if i < j {
      var t := tags[i];
      TagAtExtend(a, b, tags, i + 1);
    }
  }

  lemma {:induction false} TagAtShrink(u: string, v: string, tags: seq<string>, i: nat)
    requires TagAt(u + v, tags, i).Some? && tags[TagAt(u + v, tags, i).value] <= u
    ensures TagAt(u, tags, i) == TagAt(u + v, tags, i)
    decreases |tags| - i
  {
    var t := tags[i];
    if t != [] && t <= u {
      assert t <= u + v by { assert (u + v)[..|u|] == u; }
    } else if !(t != [] && t <= u + v) {
      TagAtShrink(u, v, tags, i + 1);
    }
  }

  /** Markup-safe pieces concatenate to markup-safe text. */
  lemma {:induction false} SafeConcat(a: string, b: string, tags: seq<string>)
    requires AllTags(tags)
    requires MarkupSafe(a, tags) && MarkupSafe(b, tags)
    ensures MarkupSafe(a + b, tags)
    decreases |a|
  {
    if a == [] {
      assert a + b == b;
    } else if a[0] == '<' {
      TagAtExtend(a, b, tags, 0);
      var n := |tags[TagAt(a, tags, 0).value]|;
      assert (a + b)[n..] == a[n..] + b;
      SafeConcat(a[n..], b, tags);
    } else {
      assert (a + b)[1..] == a[1..] + b;
      SafeConcat(a[1..], b, tags);
    }
  }

  /** `TagAt` finds a tag whenever one of the tags it tries starts the text. */
  lemma {:induction false} TagAtFinds(s: string, tags: seq<string>, i: nat, j: nat)
    requires i <= j < |tags| && tags[j] != [] && tags[j] <= s
    ensures TagAt(s, tags, i).Some?
    decreases |tags| - i
  {
    if i < j {
      TagAtFinds(s, tags, i + 1, j);
    }
  }

  /** Each tag on its own is markup-safe. */
  lemma TagSafe(t: string, tags: seq<string>)
    requires AllTags(tags) && t in tags
    ensures MarkupSafe(t, tags)
  {
    var k :| 0 <= k < |tags| && tags[k] == t;
    TagAtFinds(t, tags, 0, k);
    var j := TagAt(t, tags, 0);
    TagPrefix(tags[j.value], t);
    assert t[|t|..] == [];
  }

  /** A prefix without angle brackets can be dropped. */
  lemma {:induction false} SafeDropPrefix(u: string, v: string, tags: seq<string>)
    requires '<' !in u && '>' !in u
    requires MarkupSafe(u + v, tags)
    ensures MarkupSafe(v, tags)
    decreases |u|
  {
    if u == [] {
      assert u + v == v;
    } else {
      assert (u + v)[0] == u[0] && u[0] in u;
      assert (u + v)[1..] == u[1..] + v;
      assert forall c :: c in u[1..] ==> c in u;
      SafeDropPrefix(u[1..], v, tags);
    }
  }

  /** A tag that avoids `marks` and runs past the end of `u` in `u + v` holds `v[0]`, which
      therefore is not a mark. */
  lemma TagBeyond(t: string, u: string, v: string, marks: set<char>)
    requires Avoids(t, marks) && t <= u + v
    requires v != [] && |t| > |u|
    ensures v[0] !in marks
  {
    assert t[|u|] == v[0];
  }

  /** Markup-safe text splits into markup-safe parts wherever the second part starts with
      a character no tag uses. */
  lemma {:induction false} SafeSplit(u: string, v: string, tags: seq<string>, marks: set<char>)
    requires TagsAvoid(tags, marks)
    requires v != [] && v[0] in marks
    requires MarkupSafe(u + v, tags)
    ensures MarkupSafe(u, tags) && MarkupSafe(v, tags)
    decreases |u|
  {
    if u == [] {
      assert u + v == v;
    } else if u[0] == '<' {
      var s := u + v;
      var j := TagAt(s, tags, 0).value;
      var n := |tags[j]|;
      if n > |u| {
        TagBeyond(tags[j], u, v, marks);
      }
      assert tags[j] <= u by { assert u[..n] == s[..n]; }
      TagAtShrink(u, v, tags, 0);
      assert s[n..] == u[n..] + v;
      SafeSplit(u[n..], v, tags, marks);
    } else {
      assert (u + v)[1..] == u[1..] + v;
      SafeSplit(u[1..], v, tags, marks);
    }
  }

  // ---------------------------------------------------------------------------
  // A replacement pass keeps text markup-safe

  lemma NoAnglesInDelimiter(d: string, marks: set<char>)
    requires '<' !in marks && '>' !in marks
    requires forall k :: 0 <= k < |d| ==> d[k] in marks
    ensures '<' !in d && '>' !in d
  {
    assert forall c :: c in d ==> exists k :: 0 <= k < |d| && d[k] == c;
  }

  /** A span taken apart: its content and what follows it are markup-safe. */
  lemma SpanPartsSafe(d: string, c: string, r: string, tags: seq<string>, marks: set<char>)
    requires TagsAvoid(tags, marks) && '<' !in marks && '>' !in marks
    requires d != [] && forall k :: 0 <= k < |d| ==> d[k] in marks
    requires MarkupSafe(d + (c + (d + r)), tags)
    ensures MarkupSafe(c, tags) && MarkupSafe(r, tags)
  {
    NoAnglesInDelimiter(d, marks);
    SafeDropPrefix(d, c + (d + r), tags);
    SafeSplit(c, d + r, tags, marks);
    SafeDropPrefix(d, r, tags);
  }

  /** `open + content + close + rest` is markup-safe when its four parts are. */
  lemma WrapSafe(open: string, c: string, close: string, w: string, tags: seq<string>)
    requires AllTags(tags)
    requires MarkupSafe(open, tags) && MarkupSafe(c, tags) && MarkupSafe(close, tags) && MarkupSafe(w, tags)
    ensures MarkupSafe(open + (c + close) + w, tags)
  {
    SafeConcat(c, close, tags);
    SafeConcat(open, c + close, tags);
    SafeConcat(open + (c + close), w, tags);
  }

  /** A span token of markup-safe text: its content and the text after it are markup-safe. */
  lemma SpanTokenParts(ts: seq<Token>, tags: seq<string>, marks: set<char>)
    requires TagsAvoid(tags, marks) && '<' !in marks && '>' !in marks
    requires SpansIn(ts, marks) && ts != [] && ts[0].Span? && MarkupSafe(Source(ts), tags)
    ensures MarkupSafe(ts[0].content, tags) && MarkupSafe(Source(ts[1..]), tags)
  {
    var d, c, r := ts[0].delim, ts[0].content, Source(ts[1..]);
    assert Source(ts) == d + (c + (d + r));
    SpanPartsSafe(d, c, r, tags, marks);
  }

  lemma SpanTokenRender(ts: seq<Token>, open: string, close: string, tags: seq<string>)
    requires AllTags(tags) && ts != [] && ts[0].Span?
    requires MarkupSafe(open, tags) && MarkupSafe(close, tags) && MarkupSafe(ts[0].content, tags)
    requires MarkupSafe(Render(ts[1..], open, close), tags)
    ensures MarkupSafe(Render(ts, open, close), tags)
  {
    var c, w := ts[0].content, Render(ts[1..], open, close);
    assert Render(ts, open, close) == open + (c + close) + w;
    WrapSafe(open, c, close, w, tags);
  }

  /** A tag at the front of markup-safe text is read as `n` copied characters: the text
      after them is markup-safe, and so is the output if the output for the rest is. */
  lemma TagTokens(ts: seq<Token>, open: string, close: string, tags: seq<string>, marks: set<char>) returns (n: nat)
    requires AllTags(tags) && TagsAvoid(tags, marks)
    requires SpansIn(ts, marks) && ts != [] && ts[0] == Chr('<') && MarkupSafe(Source(ts), tags)
    ensures 0 < n <= |ts| && MarkupSafe(Source(ts[n..]), tags)
    ensures MarkupSafe(Render(ts[n..], open, close), tags) ==> MarkupSafe(Render(ts, open, close), tags)
  {
    var src := Source(ts);
    assert src == SourceOf(ts[0]) + Source(ts[1..]);
    var tag := tags[TagAt(src, tags, 0).value];
    var x := src[|tag|..];
    assert src == tag + x;
    ChrRunSource(ts, tag, x, marks);
    ChrRunRender(ts, tag, open, close);
    TagSafe(tag, tags);
    n := |tag|;
    if MarkupSafe(Render(ts[n..], open, close), tags) {
      SafeConcat(tag, Render(ts[n..], open, close), tags);
    }
  }

  /** A pass's output is markup-safe when the text it read was, when its replacement
      text is, and when no tag uses a delimiter character: tags in the text are copied
      whole, and each span's content lies between tags. */
  lemma {:induction false} RenderSafe(ts: seq<Token>, open: string, close: string, tags: seq<string>, marks: set<char>)
    requires AllTags(tags) && TagsAvoid(tags, marks) && '<' !in marks && '>' !in marks
    requires SpansIn(ts, marks)
    requires MarkupSafe(open, tags) && MarkupSafe(close, tags) && MarkupSafe(Source(ts), tags)
    ensures MarkupSafe(Render(ts, open, close), tags)
    decreases |ts|
  {
    if ts == [] {
    } else if ts[0].Span? {
      SpanTokenParts(ts, tags, marks);
      RenderSafe(ts[1..], open, close, tags, marks);
      SpanTokenRender(ts, open, close, tags);
    } else if ts[0].c == '<' {
      var n := TagTokens(ts, open, close, tags, marks);
      RenderSafe(ts[n..], open, close, tags, marks);
    } else {
      var src, ch := Source(ts), ts[0].c;
      assert src == [ch] + Source(ts[1..]);
      RenderSafe(ts[1..], open, close, tags, marks);
      var w := Render(ts[1..], open, close);
      assert Render(ts, open, close) == [ch] + w;
      assert ([ch] + w)[1..] == w;
    }
  }

  /** A replacement pass (`Substitute`) keeps text markup-safe, when its replacement text
      is markup-safe and no tag uses a delimiter character. */
  lemma SubstituteSafe(s: string, alts: seq<string>, spanLines: bool, open: string, close: string,
                       tags: seq<string>, marks: set<char>)
    requires AllTags(tags) && TagsAvoid(tags, marks) && DelimitersIn(alts, marks)
    requires '<' !in marks && '>' !in marks
    requires MarkupSafe(open, tags) && MarkupSafe(close, tags)
    requires MarkupSafe(s, tags)
    ensures MarkupSafe(Substitute(s, alts, spanLines, open, close), tags)
  {
    TokenizeSpans(s, alts, spanLines, marks);
    TokenizeSource(s, alts, spanLines);
    RenderSafe(Tokenize(s, alts, spanLines), open, close, tags, marks);
  }
}
