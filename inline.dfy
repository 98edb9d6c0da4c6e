/** The inline formatter of the résumé parser, `applyInlineMarkdown`: escape `<` and `>`,
    then turn `**…**` and `__…__` into `<strong>`, then `*…*` and `_…_` into `<em>`. Each
    step is one global `replace`, modelled by `Substitute`. */
module Inline {
  import opened JsText
  import opened Regex
  import opened Html

  const StrongOpen: string := "<strong>"
  const StrongClose: string := "</strong>"
  const EmOpen: string := "<em>"
  const EmClose: string := "</em>"

  /** The alternatives of `/\*\*(.*?)\*\*|__(.*?)__/g`, in order. */
  const BoldDelimiters: seq<string> := ["**", "__"]

  /** The alternatives of `/\*(.*?)\*|_(.*?)_/g`, in order. */
  const ItalicDelimiters: seq<string> := ["*", "_"]

  /** The characters the emphasis delimiters are made of. */
  const EmphasisMarks: set<char> := {'*', '_'}

  /** The only tags the inline formatter writes. */
  const InlineTags: seq<string> := [StrongOpen, StrongClose, EmOpen, EmClose]

  /** The four tags are well formed and use no delimiter character. */
  lemma InlineTagsShape()
    ensures AllTags(InlineTags) && TagsAvoid(InlineTags, EmphasisMarks)
  {
  }

  /** What the two emphasis passes rely on: their tags are well formed, avoid the delimiter
      characters, and are markup-safe on their own. */
  lemma InlineSetup()
    ensures AllTags(InlineTags) && TagsAvoid(InlineTags, EmphasisMarks)
    ensures DelimitersIn(BoldDelimiters, EmphasisMarks) && DelimitersIn(ItalicDelimiters, EmphasisMarks)
    ensures '<' !in EmphasisMarks && '>' !in EmphasisMarks
    ensures MarkupSafe(StrongOpen, InlineTags) && MarkupSafe(StrongClose, InlineTags)
    ensures MarkupSafe(EmOpen, InlineTags) && MarkupSafe(EmClose, InlineTags)
  {
    InlineTagsShape();
    TagSafe(StrongOpen, InlineTags);
    TagSafe(StrongClose, InlineTags);
    TagSafe(EmOpen, InlineTags);
    TagSafe(EmClose, InlineTags);
  }

  /** Escape first, then bold, then italic. */
  function ApplyInlineMarkdown(text: string): string {
    var bold := Substitute(Escape(text), BoldDelimiters, false, StrongOpen, StrongClose);
    Substitute(bold, ItalicDelimiters, false, EmOpen, EmClose)
  }

  /** Every angle bracket of the formatted text belongs to one of the four emphasis tags:
      no markup of the input survives. */
  lemma InlineSafe(text: string)
    ensures MarkupSafe(ApplyInlineMarkdown(text), InlineTags)
  {
    var sanitized := Escape(text);
    var bold := Substitute(sanitized, BoldDelimiters, false, StrongOpen, StrongClose);
    InlineSetup();
    EscapeSafe(text, InlineTags);
    SubstituteSafe(sanitized, BoldDelimiters, false, StrongOpen, StrongClose, InlineTags, EmphasisMarks);
    SubstituteSafe(bold, ItalicDelimiters, false, EmOpen, EmClose, InlineTags, EmphasisMarks);
  }

  /** Text without `*` and `_` is only escaped. */
  lemma InlinePlainText(text: string)
    requires '*' !in text && '_' !in text
    ensures ApplyInlineMarkdown(text) == Escape(text)
  {
    var sanitized := Escape(text);
    EscapeKeeps(text, '*');
    EscapeKeeps(text, '_');
    assert Avoids(sanitized, EmphasisMarks) by {
      assert forall k :: 0 <= k < |sanitized| ==> sanitized[k] in sanitized;
    }
    InlineSetup();
    SubstitutePlain(sanitized, BoldDelimiters, false, StrongOpen, StrongClose, EmphasisMarks);
    SubstitutePlain(sanitized, ItalicDelimiters, false, EmOpen, EmClose, EmphasisMarks);
  }

  /** Plain words: no delimiter character, no angle bracket, no line terminator. */
  predicate PlainWords(c: string) {
    forall k :: 0 <= k < |c| ==> c[k] !in {'*', '_', '<', '>'} && !IsLineTerminator(c[k])
  }

  /** Plain words hold neither delimiter character nor a line terminator. */
  lemma PlainWordsLack(c: string, x: char)
    requires PlainWords(c) && x in {'*', '_'}
    ensures x !in c && forall k :: 0 <= k < |c| ==> !IsLineTerminator(c[k])
  {
    assert forall k :: 0 <= k < |c| ==> c[k] != x;
  }

  /** Escaping leaves text without angle brackets alone. */
  lemma EscapeNoAngles(s: string)
    requires '<' !in s && '>' !in s
    ensures Escape(s) == s
  {
  }

  /** Plain words wrapped in one-character delimiters hold no doubled delimiter. */
  lemma NoDoubleMark(d: string, c: string, t: string)
    requires |d| == 1 && |t| == 2 && t[0] in EmphasisMarks && t[1] in EmphasisMarks
    requires PlainWords(c) && c != []
    ensures forall k :: 0 <= k <= |d + c + d| ==> !(t <= (d + c + d)[k..])
  {
    var s := d + c + d;
    forall k | 0 <= k <= |s|
      ensures !(t <= s[k..])
    {
      if k == 0 {
        assert s[1] == c[0];
      } else if k < |s| - 1 {
        assert s[k] == c[k - 1];
      }
    }
  }

  /** The characters of wrapped plain words. */
  lemma WrappedChars(d: string, c: string)
    requires PlainWords(c) && forall k :: 0 <= k < |d| ==> d[k] in EmphasisMarks
    ensures '<' !in d + c + d && '>' !in d + c + d
    ensures forall x :: x in d + c + d ==> x in d || x in c
  {
  }

  /** The bold pass over `**words**` or `__words__`. */
  lemma BoldPassWrapped(d: string, c: string)
    requires d == "**" || d == "__"
    requires PlainWords(c)
    ensures Substitute(d + c + d, BoldDelimiters, false, StrongOpen, StrongClose) == StrongOpen + (c + StrongClose)
  {
    if d == "__" {
      WrappedChars(d, c);
      AbsentNowhere(d + c + d, BoldDelimiters[0]);
    }
    PlainWordsLack(c, d[0]);
    SubstituteWrapped(d, c, BoldDelimiters, if d == "**" then 0 else 1, false, StrongOpen, StrongClose);
  }

  /** The italic pass leaves a bold span of plain words alone. */
  lemma ItalicPassBold(c: string)
    requires PlainWords(c)
    ensures Substitute(StrongOpen + (c + StrongClose), ItalicDelimiters, false, EmOpen, EmClose) == StrongOpen + (c + StrongClose)
  {
    InlineSetup();
    assert Avoids(StrongOpen, EmphasisMarks) && Avoids(StrongClose, EmphasisMarks) by {
      assert StrongOpen == InlineTags[0] && StrongClose == InlineTags[1];
    }
    AvoidsConcat(c, StrongClose, EmphasisMarks);
    AvoidsConcat(StrongOpen, c + StrongClose, EmphasisMarks);
    SubstitutePlain(StrongOpen + (c + StrongClose), ItalicDelimiters, false, EmOpen, EmClose, EmphasisMarks);
  }

  /** `**words**` and `__words__` become bold, whole: the bold pass runs before the
      italic one. */
  lemma InlineBold(d: string, c: string)
    requires d == "**" || d == "__"
    requires PlainWords(c)
    ensures ApplyInlineMarkdown(d + c + d) == StrongOpen + c + StrongClose
  {
    WrappedChars(d, c);
    EscapeNoAngles(d + c + d);
    BoldPassWrapped(d, c);
    ItalicPassBold(c);
    assert StrongOpen + (c + StrongClose) == StrongOpen + c + StrongClose;
  }

  /** The bold pass finds nothing in `*words*` or `_words_`. */
  lemma BoldPassSingle(d: string, c: string)
    requires d == "*" || d == "_"
    requires PlainWords(c) && c != []
    ensures Substitute(d + c + d, BoldDelimiters, false, StrongOpen, StrongClose) == d + c + d
  {
    NoDoubleMark(d, c, BoldDelimiters[0]);
    NoDoubleMark(d, c, BoldDelimiters[1]);
    SubstituteNoMatch(d + c + d, BoldDelimiters, false, StrongOpen, StrongClose);
  }

  /** The italic pass over `*words*` or `_words_`. */
  lemma ItalicPassWrapped(d: string, c: string)
    requires d == "*" || d == "_"
    requires PlainWords(c)
    ensures Substitute(d + c + d, ItalicDelimiters, false, EmOpen, EmClose) == EmOpen + (c + EmClose)
  {
    if d == "_" {
      WrappedChars(d, c);
      AbsentNowhere(d + c + d, ItalicDelimiters[0]);
    }
    PlainWordsLack(c, d[0]);
    SubstituteWrapped(d, c, ItalicDelimiters, if d == "*" then 0 else 1, false, EmOpen, EmClose);
  }

  /** `*words*` and `_words_` (non-empty) become italic: the bold pass finds nothing in them. */
  lemma InlineItalic(d: string, c: string)
    requires d == "*" || d == "_"
    requires PlainWords(c) && c != []
    ensures ApplyInlineMarkdown(d + c + d) == EmOpen + c + EmClose
  {
    WrappedChars(d, c);
    EscapeNoAngles(d + c + d);
    BoldPassSingle(d, c);
    ItalicPassWrapped(d, c);
    assert EmOpen + (c + EmClose) == EmOpen + c + EmClose;
  }
}
