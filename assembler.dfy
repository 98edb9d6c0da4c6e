/** The résumé page. `renderResumeToHtml` splits the text into header and sections, and
    puts inside one container: a `<header>` with the name and the contact line, one
    `<section>` per heading, and, for a text with neither, the whole text as one content
    block. `getStyledResumeHtml` wraps the same page, without the preview class, in a
    printable document. */
module Assembler {
  import opened JsText
  import opened Inline
  import opened Blocks
  import opened Segmenter

  // ---------------------------------------------------------------------------
  // Header lines: `header.split('\n').filter(line => line.trim() !== '')`

  /** The lines that are not blank, in order. */
  function NonBlank(lines: seq<string>): seq<string>
    decreases |lines|
  {
    if lines == [] then []
    else (if Trim(lines[0]) == [] then [] else [lines[0]]) + NonBlank(lines[1..])
  }

  /** Every line is blank. */
  predicate AllBlank(lines: seq<string>) {
    forall k :: 0 <= k < |lines| ==> Trim(lines[k]) == []
  }

  /** The filter keeps a line exactly when it is one of the lines and is not blank. */
  lemma {:induction false} NonBlankKeeps(lines: seq<string>)
    ensures forall x :: x in NonBlank(lines) <==> x in lines && Trim(x) != []
    decreases |lines|
  {
    if lines != [] {
      NonBlankKeeps(lines[1..]);
      assert lines == [lines[0]] + lines[1..];
    }
  }

  /** The filter comes out empty exactly when every line is blank; otherwise its first
      element is the first line that is not blank. */
  lemma {:induction false} NonBlankFirst(lines: seq<string>)
    ensures NonBlank(lines) == [] <==> AllBlank(lines)
    ensures NonBlank(lines) != [] ==>
      exists k :: 0 <= k < |lines| && NonBlank(lines)[0] == lines[k] && Trim(lines[k]) != []
                  && forall j :: 0 <= j < k ==> Trim(lines[j]) == []
    decreases |lines|
  {
    if lines != [] {
      NonBlankFirst(lines[1..]);
      assert forall k :: 1 <= k < |lines| ==> lines[k] == lines[1..][k - 1];
      if Trim(lines[0]) == [] && NonBlank(lines) != [] {
        var k :| 0 <= k < |lines[1..]| && NonBlank(lines[1..])[0] == lines[1..][k] && Trim(lines[1..][k]) != []
                 && forall j :: 0 <= j < k ==> Trim(lines[1..][j]) == [];
        assert NonBlank(lines)[0] == lines[k + 1];
      }
    }
  }

  /** The non-blank header lines: the first is the name, the others the contact details. */
  function HeaderParts(header: string): seq<string> {
    NonBlank(Lines(header))
  }

  /** `headerParts[0] || ''`. */
  function HeaderName(parts: seq<string>): string {
    if parts == [] then [] else parts[0]
  }

  /** `headerParts.slice(1).map(applyInlineMarkdown)`. */
  function Contact(parts: seq<string>): seq<string> {
    if parts == [] then []
    else seq(|parts| - 1, k requires 0 <= k < |parts| - 1 => ApplyInlineMarkdown(parts[k + 1]))
  }

  /** The name is blank only when there are no header lines to take it from. */
  lemma NameNonEmpty(lines: seq<string>)
    ensures HeaderName(NonBlank(lines)) == [] <==> NonBlank(lines) == []
  {
    NonBlankKeeps(lines);
    if NonBlank(lines) != [] {
      assert NonBlank(lines)[0] in NonBlank(lines);
    }
  }

  /** The header of `parseResumeText`, cut at newlines again, gives back the lines before
      the first heading; so the name and the contact details are the non-blank ones of
      those lines. */
  lemma HeaderFromLines(markdown: string)
    ensures var lines := Lines(markdown);
            var n := |Split(lines, ParseHeading).0|;
            n <= |lines| && HeaderParts(ParseText(markdown).header) == NonBlank(lines[..n])
  {
    var lines := Lines(markdown);
    HeaderBeforeFirstHeading(lines, ParseHeading);
    var header := Split(lines, ParseHeading).0;
    if header == [] {
      assert Lines([]) == [[]];
      assert Trim([]) == [];
      assert NonBlank([[]]) == [] + NonBlank([]);
    } else {
      assert forall k :: 0 <= k < |header| ==> header[k] == lines[k];
      LinesOfJoin(header);
    }
  }

  /** Of any lines: the name is blank exactly when they all are, and is otherwise the
      first line that is not blank. */
  lemma NameOfLines(lines: seq<string>)
    ensures var name := HeaderName(NonBlank(lines));
            (name == [] <==> AllBlank(lines))
            && (name != [] ==>
                  exists k :: 0 <= k < |lines| && name == lines[k] && Trim(lines[k]) != []
                              && forall j :: 0 <= j < k ==> Trim(lines[j]) == [])
  {
    NonBlankFirst(lines);
    NameNonEmpty(lines);
  }

  /** The name is the first non-blank line of the header, which holds the lines before the
      first heading; there is none exactly when all those lines are blank. */
  lemma NameIsFirstNonBlankLine(markdown: string)
    ensures var lines := Lines(markdown);
            var header := Split(lines, ParseHeading).0;
            var name := HeaderName(HeaderParts(ParseText(markdown).header));
            |header| <= |lines| && header == lines[..|header|]
            && (name == [] <==> AllBlank(header))
            && (name != [] ==>
                  exists k :: 0 <= k < |header| && name == header[k] && Trim(header[k]) != []
                              && forall j :: 0 <= j < k ==> Trim(header[j]) == [])
  {
    var lines := Lines(markdown);
    HeaderFromLines(markdown);
    HeaderBeforeFirstHeading(lines, ParseHeading);
    NameOfLines(Split(lines, ParseHeading).0);
  }

  // ---------------------------------------------------------------------------
  // The page

  /** The `<header>` block: the name as the page heading, then the contact details joined
      with ` | ` when there are any. Nothing at all without a name. */
  function HeaderHtml(name: string, contact: seq<string>): (r: string)
    ensures r == [] <==> name == []
  {
    if name == [] then []
    else
      "\n        <header>\n            <h1>" + ApplyInlineMarkdown(name) + "</h1>\n            "
      + (if contact == [] then [] else "<p>" + Join(contact, " | ") + "</p>")
      + "\n        </header>\n    "
  }

  /** One section: its title as a second-level heading, its body as a content block. */
  function SectionHtml(s: Section): string {
    "\n        <section>\n            <h2>" + ApplyInlineMarkdown(s.title)
    + "</h2>\n            <div class=\"content\">" + ContentHtml(s.content) + "</div>\n        </section>\n    "
  }

  /** `sections.map(...).join('')`. */
  function SectionsHtml(sections: seq<Section>): string
    decreases |sections|
  {
    if sections == [] then [] else SectionHtml(sections[0]) + SectionsHtml(sections[1..])
  }

  const FallbackOpen := "<div class=\"content\">"
  const FallbackClose := "</div>"

  /** The whole text as one content block, only when there is neither a section nor a name. */
  function FallbackHtml(markdown: string, sections: seq<Section>, name: string): string {
    if sections == [] && name == [] then FallbackOpen + ContentHtml(markdown) + FallbackClose else []
  }

  const PlainClass := "resume-container"
  const PreviewSuffix := " preview-mode"

  function ContainerClass(isPreviewMode: bool): string {
    if isPreviewMode then PlainClass + PreviewSuffix else PlainClass
  }

  const ContainerOpen := "\n        <div class=\""

  /** Everything of the container after its class name. */
  function ContainerRest(headerHtml: string, sectionsHtml: string, fallbackHtml: string): string {
    "\">\n            " + headerHtml + "\n            <div class=\"sections-wrapper\">\n                "
    + sectionsHtml + "\n            </div>\n            " + fallbackHtml + "\n        </div>\n    "
  }

  /** The container: its class name, then the rest. */
  function Container(cls: string, rest: string): string {
    ContainerOpen + cls + rest
  }

  /** What follows the class name: header, sections and fallback of the parsed text. */
  function PageContent(markdown: string): string {
    var parsed := ParseText(markdown);
    var parts := HeaderParts(parsed.header);
    var name := HeaderName(parts);
    ContainerRest(HeaderHtml(name, Contact(parts)), SectionsHtml(parsed.sections),
                  FallbackHtml(markdown, parsed.sections, name))
  }

  /** `renderResumeToHtml`: the empty text gives the empty page, anything else one container. */
  function RenderResumeToHtml(markdown: string, isPreviewMode: bool): (r: string)
    ensures r == [] <==> markdown == []
  {
    if markdown == [] then [] else Container(ContainerClass(isPreviewMode), PageContent(markdown))
  }

  /** Whatever follows the class, the preview class is the plain one with the suffix inserted. */
  lemma ClassOnly(rest: string)
    ensures var plain := Container(PlainClass, rest);
            var k := |ContainerOpen + PlainClass|;
            k <= |plain| && plain[..k] == ContainerOpen + PlainClass
            && Container(PlainClass + PreviewSuffix, rest) == plain[..k] + PreviewSuffix + plain[k..]
  {
    var a := ContainerOpen + PlainClass;
    Seam(a, rest);
    assert Container(PlainClass, rest) == a + rest;
    assert Container(PlainClass + PreviewSuffix, rest) == a + PreviewSuffix + rest;
  }

  /** The preview flag changes the class name and nothing else: the preview page is the
      plain one with ` preview-mode` after `resume-container`. */
  lemma PreviewOnlyClass(markdown: string)
    requires markdown != []
    ensures var plain := RenderResumeToHtml(markdown, false);
            var k := |ContainerOpen + PlainClass|;
            k <= |plain| && plain[..k] == ContainerOpen + PlainClass
            && RenderResumeToHtml(markdown, true) == plain[..k] + PreviewSuffix + plain[k..]
  {
    ClassOnly(PageContent(markdown));
  }

  /** The text is the lines joined back with newlines, and is blank exactly when they all are. */
  lemma BlankLines(markdown: string)
    ensures AllSpace(markdown) <==> AllBlank(Lines(markdown))
  {
    var lines := Lines(markdown);
    JoinLines(markdown);
    BlankLinesJoin(lines);
    forall k | 0 <= k < |lines|
      ensures Trim(lines[k]) == [] <==> AllSpace(lines[k])
    {
      TrimBlank(lines[k]);
    }
  }

  /** A blank text has no heading, and its header is the whole text. */
  lemma BlankParse(markdown: string)
    requires AllSpace(markdown)
    ensures ParseText(markdown) == ParsedResume(markdown, [])
  {
    var lines := Lines(markdown);
    BlankLines(markdown);
    forall k | 0 <= k < |lines|
      ensures ParseHeading(lines[k]).None?
    {
      TrimBlank(lines[k]);
      BlankNotHeading(lines[k]);
    }
    NoHeadingsAll(lines, ParseHeading);
    NoHeadingsSplit(lines, ParseHeading);
    JoinLines(markdown);
    assert Sections([]) == [];
  }

  /** Without a section, the header is the whole text. */
  lemma NoSectionHeader(markdown: string)
    requires ParseText(markdown).sections == []
    ensures ParseText(markdown).header == markdown
  {
    var lines := Lines(markdown);
    var (header, parts) := Split(lines, ParseHeading);
    assert Sections(parts) == [];
    assert parts == [];
    SplitRebuilds(lines, ParseHeading);
    assert header + Unsplit([]) == lines;
    assert header == lines;
    assert ParseText(markdown).header == Join(header, "\n");
    JoinLines(markdown);
  }

  /** The fallback block appears exactly for a non-empty text of white space only, which has
      neither a heading nor a name; it is then an empty content block. */
  lemma FallbackOnlyForBlank(markdown: string)
    requires markdown != []
    ensures var parsed := ParseText(markdown);
            var fallback := FallbackHtml(markdown, parsed.sections, HeaderName(HeaderParts(parsed.header)));
            (fallback != [] <==> AllSpace(markdown))
            && (AllSpace(markdown) ==> fallback == FallbackOpen + FallbackClose)
  {
    var lines := Lines(markdown);
    var parsed := ParseText(markdown);
    BlankLines(markdown);
    var name := HeaderName(HeaderParts(parsed.header));
    if AllSpace(markdown) {
      BlankParse(markdown);
      NameOfLines(lines);
      assert name == [];
      BlankContent(markdown);
      assert FallbackHtml(markdown, parsed.sections, name) == FallbackOpen + [] + FallbackClose;
    } else if parsed.sections == [] {
      NoSectionHeader(markdown);
      NameOfLines(lines);
      assert name != [];
    }
  }

  // ---------------------------------------------------------------------------
  // The printable document

  /** The text of a document around its style sheet and its page: the head up to the
      styles, the part from the end of the head to the page (the print banner), and the
      closing tags. */
  datatype PageFrame = PageFrame(head: string, banner: string, tail: string)

  /** The document text of `getStyledResumeHtml` around the styles and the page. */
  const StyledPage := PageFrame(
    "\n    <!DOCTYPE html>\n    <html lang=\"en\">\n    <head>\n      <meta charset=\"UTF-8\">\n      <meta name=\"viewport\" content=\"width=device-width, initial-scale=1.0\">\n      <title>Resume</title>\n      <link rel=\"preconnect\" href=\"https://fonts.googleapis.com\">\n      <link rel=\"preconnect\" href=\"https://fonts.gstatic.com\" crossorigin>\n      <link href=\"https://fonts.googleapis.com/css2?family=Inter:wght@400;500;600;700;800&display=swap\" rel=\"stylesheet\">\n      ",
    "\n    </head>\n    <body>\n      <div class=\"print-hide\" style=\"position: sticky; top: 0; background: white; padding: 1rem; border-bottom: 1px solid #e2e8f0; text-align: center; z-index: 10; box-shadow: 0 2px 4px rgba(0,0,0,0.1);\">\n        <p style=\"margin: 0 0 0.75rem 0; font-size: 0.9rem; color: #4a5568;\">Use your browser's print function (Ctrl/Cmd + P) to save as a PDF.</p>\n        <button onclick=\"window.print()\" style=\"padding: 0.5rem 1.5rem; background-color: #4f46e5; color: white; border: none; border-radius: 0.5rem; cursor: pointer; font-weight: bold; font-size: 1rem; transition: background-color 0.2s;\">\n          Print / Save as PDF\n        </button>\n      </div>\n      ",
    "\n    </body>\n    </html>\n  ")

  /** The document around a page: head with the styles, print banner, page, closing tags. */
  function Document(frame: PageFrame, styles: string, page: string): string {
    frame.head + styles + frame.banner + page + frame.tail
  }

  /** `getStyledResumeHtml`, given the style sheet `getResumeStyles` returns: the page is
      rendered without the preview class. */
  function GetStyledResumeHtml(markdown: string, styles: string): string {
    Document(StyledPage, styles, RenderResumeToHtml(markdown, false))
  }

  /** Cutting a concatenation at the seam gives back its two halves. */
  lemma Seam(a: string, b: string)
    ensures (a + b)[..|a|] == a && (a + b)[|a|..] == b
  {
  }

  /** The page can be cut back out of the document: it sits between the banner and the
      closing tags; and the document starts with the head and ends with the tail. */
  lemma DocumentPage(frame: PageFrame, styles: string, page: string)
    ensures var doc := Document(frame, styles, page);
            var a := |frame.head| + |styles| + |frame.banner|;
            a + |frame.tail| <= |doc|
            && doc[a..|doc| - |frame.tail|] == page
            && doc[..|frame.head|] == frame.head && doc[|doc| - |frame.tail|..] == frame.tail
  {
    var front := frame.head + styles + frame.banner;
    Seam(front + page, frame.tail);
    Seam(front, page);
    Seam(frame.head, styles + frame.banner + page + frame.tail);
    assert front + page + frame.tail == frame.head + (styles + frame.banner + page + frame.tail);
  }
}
