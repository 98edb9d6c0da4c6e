/** The chat window's message formatter, `parseMarkdown`: escape `<` and `>`, then turn
    `**…**` into `<strong>`, `*…*` into `<em>`, fenced `` ```…``` `` (across lines) into a
    preformatted code block, `` `…` `` into inline code, and every line break into
    `<br />`. The result is handed to React as `{ __html: … }`. */
module Chat {
  import opened JsText
  import opened Regex
  import opened Html
  import opened Inline

  /** The object React receives as `dangerouslySetInnerHTML`; its one field is `__html`. */
  datatype InnerHtml = InnerHtml(html: string)

  /** `<pre class="bg-gray-100 p-2 rounded-md text-sm">` and `<code class="bg-gray-200 px-1
      rounded">`, put together from the pieces below. */
  const PreOpen: string := PreClass + PreStyle + ">"
  const PreClose: string := "</pre>"
  const CodeOpen: string := "<code>"
  const CodeClose: string := "</code>"
  const InlineCodeOpen: string := CodeClass + CodeStyle + ">"
  const BreakTag: string := "<br />"

  /** What a fenced block is wrapped in. */
  const BlockOpen: string := PreOpen + CodeOpen
  const BlockClose: string := CodeClose + PreClose

  /** The one alternative of each of the four span passes, in the order they run. */
  const BoldFence: seq<string> := ["**"]
  const ItalicFence: seq<string> := ["*"]
  const BlockFence: seq<string> := ["```"]
  const CodeFence: seq<string> := ["`"]

  /** The characters the span delimiters are made of. */
  const ChatMarks: set<char> := {'*', '`'}

  /** The only tags the chat formatter writes. */
  const ChatTags: seq<string> :=
    [StrongOpen, StrongClose, EmOpen, EmClose, PreOpen, CodeOpen, CodeClose, PreClose, InlineCodeOpen, BreakTag]

  // ---------------------------------------------------------------------------
  // Line breaks

  /** `/(?:\r\n|\r|\n)/g` replaced by `<br />`: a CR LF pair is one break, a lone CR or
      LF is one break; the other line terminators are kept. */
  function Breaks(s: string): (r: string)
    ensures '\r' !in r && '\n' !in r
    decreases |s|
  {
    if s == [] then []
    else if "\r\n" <= s then BreakTag + Breaks(s[2..])
    else if s[0] == '\r' || s[0] == '\n' then BreakTag + Breaks(s[1..])
    else [s[0]] + Breaks(s[1..])
  }

  /** Reading each `<br />` back as a line feed. */
  function Unbreak(s: string): string
    decreases |s|
  {
    if s == [] then []
    else if BreakTag <= s then "\n" + Unbreak(s[|BreakTag|..])
    else [s[0]] + Unbreak(s[1..])
  }

  /** Text without CR and LF has no break to replace. */
  lemma {:induction false} BreaksKeeps(s: string)
    requires '\r' !in s && '\n' !in s
    ensures Breaks(s) == s
    decreases |s|
  {
    if s != [] {
      assert s[0] in s;
      assert '\r' !in s[1..] && '\n' !in s[1..] by {
        assert forall k :: 1 <= k < |s| ==> s[k] in s;
      }
      BreaksKeeps(s[1..]);
      assert s == [s[0]] + s[1..];
    }
  }

  /** Breaks are found piece by piece, unless the cut falls inside a CR LF pair. */
  lemma {:induction false} BreaksAppend(a: string, b: string)
    requires a == [] || b == [] || a[|a| - 1] != '\r' || b[0] != '\n'
    ensures Breaks(a + b) == Breaks(a) + Breaks(b)
    decreases |a|
  {
    if a == [] {
      assert a + b == b;
    } else {
      var n := if "\r\n" <= a then 2 else 1;
      var head := if a[0] == '\r' || a[0] == '\n' then BreakTag else [a[0]];
      BreaksStep(a, b, n, head);
      LastOfSuffix(a, n);
      BreaksAppend(a[n..], b);
      ConcatAssoc(head, Breaks(a[n..]), Breaks(b));
    }
  }

  lemma LastOfSuffix(a: string, n: nat)
    requires n <= |a|
    ensures a[n..] == [] || a[n..][|a[n..]| - 1] == a[|a| - 1]
  {
  }

  /** The first break or character of `a + b` is that of `a`. */
  lemma BreaksStep(a: string, b: string, n: nat, head: string)
    requires a != [] && (a[|a| - 1] != '\r' || b == [] || b[0] != '\n')
    requires n == (if "\r\n" <= a then 2 else 1)
    requires head == (if a[0] == '\r' || a[0] == '\n' then BreakTag else [a[0]])
    ensures n <= |a| && (a + b)[n..] == a[n..] + b
    ensures Breaks(a) == head + Breaks(a[n..])
    ensures Breaks(a + b) == head + Breaks((a + b)[n..])
  {
    var s := a + b;
    assert s[0] == a[0];
    if |a| >= 2 {
      assert s[1] == a[1];
      assert ("\r\n" <= s) == ("\r\n" <= a);
    } else if b != [] {
      assert s[1] == b[0];
      assert !("\r\n" <= s);
    }
  }

  /** On text with no CR and no `<` (escaped text), the only `<br />` are the breaks, and
      reading them back gives the text again. */
  lemma {:induction false} BreaksRoundTrip(s: string)
    requires '\r' !in s && '<' !in s
    ensures Unbreak(Breaks(s)) == s
    decreases |s|
  {
    if s != [] {
      assert s[0] in s;
      assert '\r' !in s[1..] && '<' !in s[1..] by {
        assert forall k :: 1 <= k < |s| ==> s[k] in s;
      }
      BreaksRoundTrip(s[1..]);
      var r := Breaks(s[1..]);
      if s[0] == '\n' {
        var b := BreakTag + r;
        assert BreakTag <= b && b[|BreakTag|..] == r;
      } else {
        var b := [s[0]] + r;
        assert b[0] != '<' && b[1..] == r;
      }
      assert s == [s[0]] + s[1..];
    }
  }

  /** A string that cannot start with a tag: its first character is not `<`. */
  lemma SafeCons(c: char, t: string, tags: seq<string>)
    requires c != '<' && c != '>' && MarkupSafe(t, tags)
    ensures MarkupSafe([c] + t, tags)
  {
    assert ([c] + t)[1..] == t;
  }

  /** Replacing breaks by `<br />` keeps markup safety, when `<br />` is one of the tags
      and no tag holds a CR or LF. */
  lemma {:induction false} BreaksSafe(s: string, tags: seq<string>)
    requires AllTags(tags) && TagsAvoid(tags, {'\r', '\n'}) && BreakTag in tags
    requires MarkupSafe(s, tags)
    ensures MarkupSafe(Breaks(s), tags)
    decreases |s|
  {
    if s != [] {
      TagSafe(BreakTag, tags);
      if s[0] == '<' {
        var j := TagAt(s, tags, 0).value;
        var t := tags[j];
        var x := s[|t|..];
        assert s == t + x;
        assert MarkupSafe(x, tags);
        BreaksSafe(x, tags);
        assert IsTag(t) && Avoids(t, {'\r', '\n'});
        assert '\r' !in t && '\n' !in t by {
          assert forall k :: 0 <= k < |t| ==> t[k] !in {'\r', '\n'};
        }
        BreaksKeeps(t);
        assert t[|t| - 1] == '>';
        BreaksAppend(t, x);
        TagSafe(t, tags);
        SafeConcat(t, Breaks(x), tags);
      } else if "\r\n" <= s {
        assert MarkupSafe(s[1..], tags);
        assert s[1..][0] == '\n' && s[1..][1..] == s[2..];
        BreaksSafe(s[2..], tags);
        SafeConcat(BreakTag, Breaks(s[2..]), tags);
      } else {
        BreaksSafe(s[1..], tags);
        if s[0] == '\r' || s[0] == '\n' {
          SafeConcat(BreakTag, Breaks(s[1..]), tags);
        } else {
          SafeCons(s[0], Breaks(s[1..]), tags);
        }
      }
    }
  }

  // ---------------------------------------------------------------------------
  // The formatter

  /** The chat tags are well formed and use neither delimiter characters nor line breaks. */
  lemma ChatTagsShape()
    ensures AllTags(ChatTags) && TagsAvoid(ChatTags, ChatMarks) && TagsAvoid(ChatTags, {'\r', '\n'})
  {
    forall i | 0 <= i < |ChatTags|
      ensures ChatTag(ChatTags[i])
    {
      if i == 4 {
        PreOpenShape();
      } else if i == 8 {
        InlineCodeOpenShape();
      }
    }
  }

  /** A tag of the chat formatter: well formed, and no delimiter character or line break. */
  predicate ChatTag(t: string) {
    IsTag(t) && forall k :: 0 <= k < |t| ==> t[k] !in {'*', '`', '\r', '\n'}
  }

  /** No delimiter character, line break or `>`. */
  predicate Clean(t: string) {
    forall k :: 0 <= k < |t| ==> t[k] !in {'*', '`', '\r', '\n', '>'}
  }

  lemma CleanConcat(a: string, b: string)
    requires Clean(a) && Clean(b)
    ensures Clean(a + b)
  {
  }

  /** A clean text that starts with `<`, closed by `>`, is a chat tag. */
  lemma CleanTag(a: string, b: string)
    requires a != [] && a[0] == '<' && Clean(a) && Clean(b)
    ensures ChatTag(a + b + ">")
  {
    CleanConcat(a, b);
    assert (a + b)[0] == '<';
  }

  /** The pieces of the two long tags. */
  const PreClass: string := "<pre class=\""
  const PreStyle: string := "bg-gray-100 p-2 rounded-md text-sm\""
  const CodeClass: string := "<code class=\""
  const CodeStyle: string := "bg-gray-200 px-1 rounded\""

  lemma PreClassClean()
    ensures Clean(PreClass)
  {
  }

  lemma PreStyleClean()
    ensures Clean(PreStyle)
  {
    var a, b := "bg-gray-100 p-2 ", "rounded-md text-sm\"";
    assert Clean(a);
    assert Clean(b);
    assert PreStyle == a + b;
    CleanConcat(a, b);
  }

  lemma CodeClassClean()
    ensures Clean(CodeClass)
  {
  }

  lemma CodeStyleClean()
    ensures Clean(CodeStyle)
  {
  }

  lemma PreOpenShape()
    ensures ChatTag(PreOpen)
  {
    PreClassClean();
    PreStyleClean();
    CleanTag(PreClass, PreStyle);
  }

  lemma InlineCodeOpenShape()
    ensures ChatTag(InlineCodeOpen)
  {
    CodeClassClean();
    CodeStyleClean();
    CleanTag(CodeClass, CodeStyle);
  }

  /** What the four span passes rely on. */
  lemma ChatSetup()
    ensures AllTags(ChatTags) && TagsAvoid(ChatTags, ChatMarks) && TagsAvoid(ChatTags, {'\r', '\n'})
    ensures DelimitersIn(BoldFence, ChatMarks) && DelimitersIn(ItalicFence, ChatMarks)
    ensures DelimitersIn(BlockFence, ChatMarks) && DelimitersIn(CodeFence, ChatMarks)
    ensures '<' !in ChatMarks && '>' !in ChatMarks
  {
    ChatTagsShape();
  }

  /** Each opening and closing string of the four span passes is markup-safe. */
  lemma ChatWrappersSafe()
    ensures MarkupSafe(StrongOpen, ChatTags) && MarkupSafe(StrongClose, ChatTags)
    ensures MarkupSafe(EmOpen, ChatTags) && MarkupSafe(EmClose, ChatTags)
    ensures MarkupSafe(BlockOpen, ChatTags) && MarkupSafe(BlockClose, ChatTags)
    ensures MarkupSafe(InlineCodeOpen, ChatTags) && MarkupSafe(CodeClose, ChatTags)
  {
    ChatTagsShape();
    TagSafe(StrongOpen, ChatTags);
    TagSafe(StrongClose, ChatTags);
    TagSafe(EmOpen, ChatTags);
    TagSafe(EmClose, ChatTags);
    TagSafe(PreOpen, ChatTags);
    TagSafe(CodeOpen, ChatTags);
    TagSafe(CodeClose, ChatTags);
    TagSafe(PreClose, ChatTags);
    TagSafe(InlineCodeOpen, ChatTags);
    SafeConcat(PreOpen, CodeOpen, ChatTags);
    SafeConcat(CodeClose, PreClose, ChatTags);
  }

  /** The four span passes, in order, over the escaped text. */
  function ChatSpans(text: string): (r: string)
    ensures MarkupSafe(r, ChatTags)
  {
    var sanitized := Escape(text);
    var bold := Substitute(sanitized, BoldFence, false, StrongOpen, StrongClose);
    var italic := Substitute(bold, ItalicFence, false, EmOpen, EmClose);
    var blocks := Substitute(italic, BlockFence, true, BlockOpen, BlockClose);
    ChatSetup();
    ChatWrappersSafe();
    EscapeSafe(text, ChatTags);
    SubstituteSafe(sanitized, BoldFence, false, StrongOpen, StrongClose, ChatTags, ChatMarks);
    SubstituteSafe(bold, ItalicFence, false, EmOpen, EmClose, ChatTags, ChatMarks);
    SubstituteSafe(italic, BlockFence, true, BlockOpen, BlockClose, ChatTags, ChatMarks);
    SubstituteSafe(blocks, CodeFence, false, InlineCodeOpen, CodeClose, ChatTags, ChatMarks);
    Substitute(blocks, CodeFence, false, InlineCodeOpen, CodeClose)
  }

  /** The whole formatter: every angle bracket of the result belongs to a tag it wrote,
      and no CR or LF is left. */
  function ParseMarkdown(text: string): (r: InnerHtml)
    ensures MarkupSafe(r.html, ChatTags)
    ensures '\r' !in r.html && '\n' !in r.html
  {
    var spans := ChatSpans(text);
    ChatSetup();
    assert BreakTag == ChatTags[9];
    BreaksSafe(spans, ChatTags);
    InnerHtml(Breaks(spans))
  }

  // ---------------------------------------------------------------------------
  // What the formatter does to particular messages

  /** Text without `*` and backtick is only escaped and broken into lines; underscores in
      particular are never emphasis. */
  lemma ChatPlainText(text: string)
    requires '*' !in text && '`' !in text
    ensures ParseMarkdown(text).html == Breaks(Escape(text))
  {
    var sanitized := Escape(text);
    EscapeKeeps(text, '*');
    EscapeKeeps(text, '`');
    assert Avoids(sanitized, ChatMarks) by {
      assert forall k :: 0 <= k < |sanitized| ==> sanitized[k] in sanitized;
    }
    ChatSetup();
    SubstitutePlain(sanitized, BoldFence, false, StrongOpen, StrongClose, ChatMarks);
    SubstitutePlain(sanitized, ItalicFence, false, EmOpen, EmClose, ChatMarks);
    SubstitutePlain(sanitized, BlockFence, true, BlockOpen, BlockClose, ChatMarks);
    SubstitutePlain(sanitized, CodeFence, false, InlineCodeOpen, CodeClose, ChatMarks);
  }

  /** Code text: no delimiter character and no angle bracket (line breaks allowed). */
  predicate CodeText(c: string) {
    forall k :: 0 <= k < |c| ==> c[k] !in {'*', '`', '<', '>'}
  }

  /** Text passes a span pass untouched when it holds no character of its delimiters. */
  lemma PassUntouched(s: string, alts: seq<string>, spanLines: bool, open: string, close: string, x: char)
    requires DelimitersIn(alts, {x}) && x !in s
    ensures Substitute(s, alts, spanLines, open, close) == s
  {
    assert Avoids(s, {x}) by {
      assert forall k :: 0 <= k < |s| ==> s[k] in s;
    }
    SubstitutePlain(s, alts, spanLines, open, close, {x});
  }

  /** The characters of `d + c + d` for code text `c` and a delimiter made of `x`. */
  lemma FencedChars(d: string, c: string, x: char)
    requires CodeText(c) && x in ChatMarks && forall k :: 0 <= k < |d| ==> d[k] == x
    ensures '<' !in d + c + d && '>' !in d + c + d
    ensures x == '`' ==> '*' !in d + c + d
    ensures x == '*' ==> '`' !in d + c + d
    ensures x !in c
  {
    assert forall k :: 0 <= k < |c| ==> c[k] != x;
  }

  /** No delimiter character and no CR or LF. */
  predicate Unmarked(t: string) {
    '*' !in t && '`' !in t && '\r' !in t && '\n' !in t
  }

  lemma ChatTagUnmarked(t: string)
    requires ChatTag(t)
    ensures Unmarked(t) && t[0] == '<' && t[|t| - 1] == '>'
  {
    assert forall k :: 0 <= k < |t| ==> t[k] in t;
  }

  /** The opening and closing strings of the four span passes hold no delimiter character
      and no line break, and each starts with `<` and ends with `>`. */
  lemma WrappersUnmarked()
    ensures Unmarked(StrongOpen) && Unmarked(StrongClose) && Unmarked(InlineCodeOpen) && Unmarked(CodeClose)
    ensures Unmarked(BlockOpen) && Unmarked(BlockClose)
    ensures BlockOpen[|BlockOpen| - 1] == '>' && BlockClose[0] == '<'
  {
    InlineCodeOpenShape();
    ChatTagUnmarked(InlineCodeOpen);
    BlockWrappersUnmarked();
  }

  lemma BlockWrappersUnmarked()
    ensures Unmarked(BlockOpen) && Unmarked(BlockClose)
    ensures BlockOpen[|BlockOpen| - 1] == '>' && BlockClose[0] == '<'
  {
    PreOpenShape();
    ChatTagUnmarked(PreOpen);
    assert Unmarked(CodeOpen) && Unmarked(CodeClose) && Unmarked(PreClose);
    UnmarkedConcat(PreOpen, CodeOpen);
    UnmarkedConcat(CodeClose, PreClose);
  }

  lemma UnmarkedConcat(a: string, b: string)
    requires Unmarked(a) && Unmarked(b)
    ensures Unmarked(a + b)
  {
  }

  /** The wrapped result holds no delimiter character. */
  lemma WrappedUnmarked(open: string, c: string, close: string)
    requires CodeText(c) && Unmarked(open) && Unmarked(close)
    ensures '*' !in open + (c + close) && '`' !in open + (c + close)
  {
    assert forall k :: 0 <= k < |c| ==> c[k] != '*' && c[k] != '`';
  }

  /** Breaks inside a wrapper that starts and ends with a tag. */
  lemma BreaksWrapped(open: string, c: string, close: string)
    requires Unmarked(open) && Unmarked(close)
    requires open != [] && open[|open| - 1] == '>' && close != [] && close[0] == '<'
    ensures Breaks(open + (c + close)) == open + (Breaks(c) + close)
  {
    BreaksAppend(c, close);
    BreaksAppend(open, c + close);
    BreaksKeeps(open);
    BreaksKeeps(close);
  }

  /** A wrapper around one line of text has no break to replace. */
  lemma UnbrokenWrapped(open: string, c: string, close: string)
    requires Unmarked(open) && Unmarked(close) && InlineText(c)
    ensures Breaks(open + (c + close)) == open + (c + close)
  {
    assert forall k :: 0 <= k < |c| ==> c[k] != '\r' && c[k] != '\n';
    BreaksKeeps(open + (c + close));
  }

  /** The four span passes, given the result of each. */
  lemma SpansOf(text: string, bold: string, italic: string, blocks: string, code: string)
    requires bold == Substitute(Escape(text), BoldFence, false, StrongOpen, StrongClose)
    requires italic == Substitute(bold, ItalicFence, false, EmOpen, EmClose)
    requires blocks == Substitute(italic, BlockFence, true, BlockOpen, BlockClose)
    requires code == Substitute(blocks, CodeFence, false, InlineCodeOpen, CodeClose)
    ensures ChatSpans(text) == code
  {
  }

  /** A fenced block becomes one preformatted code block even across lines: the
      triple-backtick pass runs before the single one. */
  lemma CodeBlockSpans(c: string)
    requires CodeText(c)
    ensures ChatSpans("```" + c + "```") == BlockOpen + (c + BlockClose)
  {
    var s := "```" + c + "```";
    var w := BlockOpen + (c + BlockClose);
    FencedChars("```", c, '`');
    EscapeNoAngles(s);
    ChatSetup();
    PassUntouched(s, BoldFence, false, StrongOpen, StrongClose, '*');
    PassUntouched(s, ItalicFence, false, EmOpen, EmClose, '*');
    SubstituteWrapped("```", c, BlockFence, 0, true, BlockOpen, BlockClose);
    WrappersUnmarked();
    WrappedUnmarked(BlockOpen, c, BlockClose);
    PassUntouched(w, CodeFence, false, InlineCodeOpen, CodeClose, '`');
    SpansOf(s, s, s, w, w);
  }

  /** ... and its line breaks become `<br />`. */
  lemma ChatCodeBlock(c: string)
    requires CodeText(c)
    ensures ParseMarkdown("```" + c + "```").html == BlockOpen + Breaks(c) + BlockClose
  {
    CodeBlockSpans(c);
    WrappersUnmarked();
    BreaksWrapped(BlockOpen, c, BlockClose);
    assert BlockOpen + (Breaks(c) + BlockClose) == BlockOpen + Breaks(c) + BlockClose;
  }

  /** Code text on one line: no line terminator either. */
  predicate InlineText(c: string) {
    CodeText(c) && forall k :: 0 <= k < |c| ==> !IsLineTerminator(c[k])
  }

  /** One backtick on each side is not a fence. */
  lemma NoFenceIn(c: string)
    requires CodeText(c)
    ensures forall k :: 0 <= k <= |"`" + c + "`"| ==> !("```" <= ("`" + c + "`")[k..])
  {
    var s := "`" + c + "`";
    forall k | 0 <= k <= |s|
      ensures !("```" <= s[k..])
    {
      if k == 0 && |s| >= 3 {
        assert s[1] == c[0];
      } else if 0 < k < |s| - 2 {
        assert s[k] == c[k - 1];
      }
    }
  }

  /** `` `code` `` on one line becomes inline code. */
  lemma InlineCodeSpans(c: string)
    requires InlineText(c)
    ensures ChatSpans("`" + c + "`") == InlineCodeOpen + (c + CodeClose)
  {
    var s := "`" + c + "`";
    FencedChars("`", c, '`');
    EscapeNoAngles(s);
    ChatSetup();
    PassUntouched(s, BoldFence, false, StrongOpen, StrongClose, '*');
    PassUntouched(s, ItalicFence, false, EmOpen, EmClose, '*');
    NoFenceIn(c);
    SubstituteNoMatch(s, BlockFence, true, BlockOpen, BlockClose);
    SubstituteWrapped("`", c, CodeFence, 0, false, InlineCodeOpen, CodeClose);
    SpansOf(s, s, s, s, InlineCodeOpen + (c + CodeClose));
  }

  lemma ChatInlineCode(c: string)
    requires InlineText(c)
    ensures ParseMarkdown("`" + c + "`").html == InlineCodeOpen + c + CodeClose
  {
    InlineCodeSpans(c);
    WrappersUnmarked();
    UnbrokenWrapped(InlineCodeOpen, c, CodeClose);
    assert InlineCodeOpen + (c + CodeClose) == InlineCodeOpen + c + CodeClose;
  }

  /** `**words**` on one line becomes bold; the later passes leave it alone. */
  lemma BoldSpans(c: string)
    requires InlineText(c)
    ensures ChatSpans("**" + c + "**") == StrongOpen + (c + StrongClose)
  {
    var s := "**" + c + "**";
    var w := StrongOpen + (c + StrongClose);
    BoldPass(c);
    WrappersUnmarked();
    WrappedUnmarked(StrongOpen, c, StrongClose);
    PassUntouched(w, ItalicFence, false, EmOpen, EmClose, '*');
    PassUntouched(w, BlockFence, true, BlockOpen, BlockClose, '`');
    PassUntouched(w, CodeFence, false, InlineCodeOpen, CodeClose, '`');
    SpansOf(s, w, w, w, w);
  }

  /** The bold pass alone on `**words**`. */
  lemma BoldPass(c: string)
    requires InlineText(c)
    ensures Substitute(Escape("**" + c + "**"), BoldFence, false, StrongOpen, StrongClose)
            == StrongOpen + (c + StrongClose)
  {
    FencedChars("**", c, '*');
    EscapeNoAngles("**" + c + "**");
    ChatSetup();
    SubstituteWrapped("**", c, BoldFence, 0, false, StrongOpen, StrongClose);
  }

  lemma ChatBold(c: string)
    requires InlineText(c)
    ensures ParseMarkdown("**" + c + "**").html == StrongOpen + c + StrongClose
  {
    BoldSpans(c);
    WrappersUnmarked();
    UnbrokenWrapped(StrongOpen, c, StrongClose);
    assert StrongOpen + (c + StrongClose) == StrongOpen + c + StrongClose;
  }
}
