# Résumé renderer and chat formatter, modelled in Dafny

This project models the text-processing core of an AI résumé builder. The résumé
renderer turns a Markdown-like résumé into an HTML page:

- a splitter (`parseResumeText`) cuts the text into a header and sections at lines
  that start with `#`, `##` or `###`;
- a block classifier (`parseResumeContent`) turns each section body into list items,
  two-line entries (employer, then role and dates), subheadings and paragraphs;
- an inline formatter (`applyInlineMarkdown`) escapes `<` and `>` and turns `**…**`,
  `__…__`, `*…*` and `_…_` into `<strong>` and `<em>`;
- an assembler (`renderResumeToHtml`, `getStyledResumeHtml`) puts the name, the
  contact line and the sections into one container, and wraps that in a printable
  document.

The chat window's message formatter (`parseMarkdown`) is modelled beside it.

Modules, one per file:

| module | file | what it holds |
|---|---|---|
| `JsText` | jstext.dfy | `trim`, `split('\n')`, `join`, and the `\s` and line-terminator character classes of JavaScript |
| `Regex` | regex.dfy | global `replace` with patterns `d1(.*?)d1\|d2(.*?)d2`, as a left-to-right scanner (`Tokenize`, `Substitute`), with lemmas that it finds the leftmost, first-alternative, shortest match |
| `Html` | html.dfy | the escaping of `<` and `>`, and `MarkupSafe`: every `<` and `>` of a text belongs to a listed tag |
| `Inline` | inline.dfy | `applyInlineMarkdown` |
| `Chat` | chat.dfy | `parseMarkdown` |
| `Blocks` | blocks.dfy | `parseResumeContent`, as a loop (`ParseResumeContent`) proved against a specification (`Classify` from lines to blocks, then `Emit` from blocks to HTML lines) |
| `Segmenter` | segmenter.dfy | `parseResumeText`, as a loop (`ParseResumeText`) proved against a specification (`Split`) |
| `Assembler` | assembler.dfy | `renderResumeToHtml` and `getStyledResumeHtml` |

Both loops are methods whose `ensures` equates the result with the specification
function. The properties are lemmas about those functions.

Strings are `seq<char>`. `Split` and `Emit` take the heading test and the inline
formatter as function parameters. This lets the structural lemmas hold for any test
and any formatter. The code always passes `ParseHeading` and `ApplyInlineMarkdown`.

A title line, a role line and a bullet (`Tech Co.`, `*Senior Engineer | 2021-Present*`,
`- Led team`) do not form an entry. The code at components/resumeUtils.ts:50-53 refuses an
entry whose second line is followed by a list line. So the three lines become a paragraph,
a subheading and a list item, and `Blocks.TitleRoleBullet` proves exactly that.

## Model

| member | source | states |
|---|---|---|
| JsText.TrimSlice | components/resumeUtils.ts:19 | `trim` removes exactly the leading and trailing white space: the result is a slice whose cut-off ends are white space and whose own ends are not |
| JsText.TrimBlank | components/resumeUtils.ts:21 | a line trims to the empty string exactly when it is all white space |
| JsText.Lines | components/resumeUtils.ts:101 | `split('\n')` gives at least one line, and no line holds a newline |
| JsText.JoinLines | components/resumeUtils.ts:101 | joining the lines of a text with newlines gives back the text |
| JsText.LinesOfJoin | components/resumeUtils.ts:302 | splitting newline-free lines joined with newlines gives back the lines |
| JsText.BlankLinesJoin | components/resumeUtils.ts:302 | a text is all white space exactly when each of its lines is |
| Regex.ReplaceChar | components/resumeUtils.ts:5 | replacing every `c` with a text that lacks `c` leaves no `c`; a text without `c` is unchanged |
| Regex.ReplaceCharAppend | components/resumeUtils.ts:5 | replacing one character distributes over concatenation |
| Regex.FindCloseNearest | components/resumeUtils.ts:7 | the closing delimiter found is the nearest one, so `(.*?)` takes the shortest content |
| Regex.FindCloseNone | components/resumeUtils.ts:7 | when no closing delimiter is found, none exists |
| Regex.MatchAtShortest | components/resumeUtils.ts:7 | a match found at a position has the shortest content for its alternative |
| Regex.MatchAtFirst | components/resumeUtils.ts:7 | the alternative matched is the first one that can match there |
| Regex.MatchAtNone | components/resumeUtils.ts:7 | when no alternative is found at a position, none can match there |
| Regex.MatchAtIs | components/resumeUtils.ts:7-8 | conversely, the first alternative that can match with its shortest content is the match found |
| Regex.TokenizeSpan | components/resumeUtils.ts:7 | where the pattern matches, the scan emits one span with that content and resumes after the closing delimiter |
| Regex.TokenizeCopy | components/resumeUtils.ts:7 | where nothing matches, the scan copies one character and moves on |
| Regex.TokenizeSource | components/resumeUtils.ts:7-8 | the scan loses and invents nothing: its tokens spell out the input |
| Regex.TokenizeSpans | components/resumeUtils.ts:7-8 | every span token's delimiter is non-empty and made only of delimiter characters |
| Regex.SubstitutePlain | components/resumeUtils.ts:7-8 | a text with no delimiter character passes a replacement unchanged |
| Regex.SubstituteNoMatch | components/resumeUtils.ts:7-8 | a text in which no alternative occurs passes a replacement unchanged |
| Regex.SubstituteWrapped | components/resumeUtils.ts:7-8 | `d + c + d` for plain content `c` becomes `open + c + close` |
| Html.Escape | components/resumeUtils.ts:5 | escaping leaves no `<` and no `>` |
| Html.EscapeKeeps | components/resumeUtils.ts:5 | escaping brings in no character other than those of `&lt;` and `&gt;` |
| Html.EscapeRoundTrip | components/resumeUtils.ts:5 | for a text without `&`, unescaping the escaped text gives it back |
| Html.AmpersandNotEscaped | components/resumeUtils.ts:5 | `&` is not escaped: the text `<` and the text `&lt;` escape to the same output |
| Html.NoTagsSafe | components/resumeUtils.ts:5 | with no tags allowed, a text is safe exactly when it holds no `<` or `>` |
| Html.EscapeSafe | components/resumeUtils.ts:5 | an escaped text is safe for any tag list |
| Html.SafeConcat | components/resumeUtils.ts:7-8 | two safe texts concatenate to a safe text |
| Html.RenderSafe | components/resumeUtils.ts:7-8 | wrapping the spans of a safe text's tokens in safe tags keeps it safe |
| Html.SubstituteSafe | components/resumeUtils.ts:7-8 | a replacement pass with tag wrappers keeps a safe text safe |
| Inline.InlineSafe | components/resumeUtils.ts:3-9 | every `<` and `>` in the output belongs to a `<strong>`, `</strong>`, `<em>` or `</em>` tag the formatter wrote |
| Inline.InlinePlainText | components/resumeUtils.ts:3-9 | a text without `*` or `_` comes back only escaped |
| Inline.BoldPassWrapped | components/resumeUtils.ts:7 | the bold pass turns `**c**` and `__c__` into `<strong>c</strong>` |
| Inline.BoldPassSingle | components/resumeUtils.ts:7 | the bold pass leaves `*c*` and `_c_` alone |
| Inline.ItalicPassBold | components/resumeUtils.ts:8 | the italic pass leaves the bold pass's output alone |
| Inline.ItalicPassWrapped | components/resumeUtils.ts:8 | the italic pass turns `*c*` and `_c_` into `<em>c</em>` |
| Inline.InlineBold | components/resumeUtils.ts:3-9 | `**c**` and `__c__` come out as `<strong>c</strong>`: bold runs before italic |
| Inline.InlineItalic | components/resumeUtils.ts:3-9 | `*c*` and `_c_` come out as `<em>c</em>` |
| Chat.Breaks | components/ChatInterface.tsx:25 | after the line-break pass no CR and no LF is left |
| Chat.BreaksKeeps | components/ChatInterface.tsx:25 | a text without CR or LF is unchanged by the line-break pass |
| Chat.BreaksRoundTrip | components/ChatInterface.tsx:25 | for a text without CR or `<`, turning each `<br />` back into a newline gives the text back |
| Chat.BreaksSafe | components/ChatInterface.tsx:25 | the line-break pass keeps a safe text safe |
| Chat.ChatTagsShape | components/ChatInterface.tsx:21-25 | the tags the formatter writes are well formed and hold no `*`, backtick, CR or LF |
| Chat.ChatSpans | components/ChatInterface.tsx:20-24 | after escaping and the four span passes, every `<` and `>` belongs to a tag the formatter wrote |
| Chat.ParseMarkdown | components/ChatInterface.tsx:19-27 | the `__html` string is safe in that sense and holds no CR or LF |
| Chat.ChatPlainText | components/ChatInterface.tsx:19-27 | a message without `*` or backtick is only escaped and has its line breaks turned into `<br />` |
| Chat.ChatBold | components/ChatInterface.tsx:21-22 | `**c**` becomes `<strong>c</strong>`, not an `<em>` around stars |
| Chat.BoldPass | components/ChatInterface.tsx:20-21 | the bold pass alone wraps `**c**` |
| Chat.BoldSpans | components/ChatInterface.tsx:21-24 | the later passes leave the bold output alone |
| Chat.CodeBlockSpans | components/ChatInterface.tsx:23-24 | a fenced block becomes one preformatted code block before single backticks are looked at |
| Chat.ChatCodeBlock | components/ChatInterface.tsx:23-25 | ```` ```c``` ```` becomes `<pre …><code>c</code></pre>`, even across lines, with its line breaks as `<br />` |
| Chat.NoFenceIn | components/ChatInterface.tsx:23 | single backticks around code text hold no triple-backtick fence |
| Chat.InlineCodeSpans | components/ChatInterface.tsx:24 | the inline-code pass alone wraps `` `c` `` |
| Chat.ChatInlineCode | components/ChatInterface.tsx:24 | `` `c` `` on one line becomes `<code class="…">c</code>` |
| Blocks.NextContent | components/resumeUtils.ts:65-71 | the index found is the first non-blank line at or after the start; when none is found, all those lines are blank |
| Blocks.IsEntryStart | components/resumeUtils.ts:42-53 | the look at the next two lines answers exactly whether the entry rule applies |
| Blocks.IsSubheading | components/resumeUtils.ts:64-71 | the inner scan answers exactly whether the first later non-blank line is a list line |
| Blocks.BlankLine | components/resumeUtils.ts:19-27 | a blank line pushes `</ul>` if a list is open and nothing otherwise, and leaves no list open; what is pushed and what is still to come make up what was still to come |
| Blocks.ListLine | components/resumeUtils.ts:29-34 | a list line pushes `<ul>` if no list is open, then `<li>` holding the formatted line[2..], and leaves a list open |
| Blocks.TextLine | components/resumeUtils.ts:41-78 | with no list open, any other line pushes the four lines of an entry and moves on two lines when the entry rule holds, and otherwise pushes a subheading (a list follows) or a paragraph and moves on one line |
| Blocks.Step | components/resumeUtils.ts:18-80 | one pass of the loop, by the kind of the trimmed line: blank, list line, or other text (any open list closed first); it states the new index, the new list flag and exactly the lines pushed |
| Blocks.ParseResumeContent | components/resumeUtils.ts:11-87 | the loop returns exactly the classified and emitted lines of the trimmed body, joined with newlines, and `''` for an empty body |
| Blocks.KeepGap | components/resumeUtils.ts:21-26 | a blank line: the emitted lines are `</ul>` (if a list was open) and then the rest |
| Blocks.KeepItem | components/resumeUtils.ts:29-34 | a list line: the `<ul>` if none was open, then `<li>` holding line[2..], formatted |
| Blocks.KeepClose | components/resumeUtils.ts:36-39 | a non-list line closes an open list first |
| Blocks.KeepEntry | components/resumeUtils.ts:53-59 | an entry writes four lines and the rest of the output starts two lines later |
| Blocks.KeepLine | components/resumeUtils.ts:63-78 | any other line writes a subheading or a paragraph |
| Blocks.ClassifyEntry | components/resumeUtils.ts:42-59 | a line starts an entry exactly when it is a non-blank non-list line, the next line is a non-blank non-list role line, and the line after that is not a list line; the entry takes lines i and i+1 and classification resumes at i+2 |
| Blocks.LeadsListIff | components/resumeUtils.ts:64-71 | the lookahead is true exactly when the first later non-blank line exists and is a list line |
| Blocks.ClassifySubheading | components/resumeUtils.ts:63-78 | a non-entry text line is a subheading exactly when the first later non-blank line is a list line, and a paragraph exactly when it is not |
| Blocks.ClassifyListLine | components/resumeUtils.ts:19-34 | a line is a gap exactly when blank and an item exactly when it starts with `* ` or `- `; the item's text is line[2..] |
| Blocks.TitleRoleBullet | components/resumeUtils.ts:46-53 | title, role line, bullet gives paragraph, subheading, item: the entry rule yields to a following list |
| Blocks.ClassifyKeepsLines | components/resumeUtils.ts:18-80 | the blocks hold exactly the non-blank trimmed lines, in order: no line is lost, repeated or reordered |
| Blocks.ClassifyWellClassified | components/resumeUtils.ts:29-60 | every block is of its kind: items are list lines; entry, subheading and paragraph lines are non-blank non-list lines; an entry's second line is a role line |
| Blocks.ClassifyItems | components/resumeUtils.ts:29-34 | the items are exactly the list lines' texts, in order |
| Blocks.EmitNested | components/resumeUtils.ts:22-39 | the output opens a list only when none is open, puts `<li>` only inside one and everything else outside, and leaves none open at the end |
| Blocks.EmitItems | components/resumeUtils.ts:34 | the `<li>` lines of the output are exactly the items' texts, formatted, in order |
| Blocks.ContentLists | components/resumeUtils.ts:11-87 | for any body: lists are balanced and never nested, and the `<li>` lines are exactly the list lines' text after `* `/`- `, formatted, in order |
| Blocks.BlankContent | components/resumeUtils.ts:12-14 | a body of white space only gives `''` |
| Segmenter.Hashes | components/resumeUtils.ts:112 | the count of leading `#` characters |
| Segmenter.HeadingLevelMatch | components/resumeUtils.ts:112 | `/^(#{1,3})\s+/` matches the trimmed line with n hashes exactly when the level found is n: 1 to 3 hashes, then white space |
| Segmenter.UpToTerminator | components/resumeUtils.ts:112 | `(.*)` takes the longest prefix without a line terminator |
| Segmenter.HeadingShape | components/resumeUtils.ts:112-120 | a heading has a level from 1 to 3 and a non-empty title, so the `if (currentSectionTitle)` tests are true after a heading |
| Segmenter.BlankNotHeading | components/resumeUtils.ts:111-112 | a blank line is never a heading |
| Segmenter.SplitRebuilds | components/resumeUtils.ts:110-129 | header lines, then each heading line with its body lines, give back the input lines verbatim and in order; header and bodies hold no heading |
| Segmenter.SplitUnique | components/resumeUtils.ts:110-129 | those two properties determine the split completely |
| Segmenter.SplitSnoc | components/resumeUtils.ts:114-128 | one more line: a heading opens a new section with an empty body; another line goes to the header before the first heading, and to the last body after it |
| Segmenter.HeaderBeforeFirstHeading | components/resumeUtils.ts:123-124 | the header is exactly the lines before the first heading, untrimmed |
| Segmenter.OnePartPerHeading | components/resumeUtils.ts:114-121 | there is one section per heading line, even when its body is empty |
| Segmenter.NoHeadingsSplit | components/resumeUtils.ts:122-128 | without a heading everything is header and there is no section |
| Segmenter.SectionsShape | components/resumeUtils.ts:117 | each section carries its heading's title and level and its body lines joined with newlines |
| Segmenter.ParseTextSections | components/resumeUtils.ts:100-140 | the number of sections is the number of heading lines; each has a level from 1 to 3 and a title |
| Segmenter.Step | components/resumeUtils.ts:110-129 | one pass of the loop keeps its variables equal to the split of the lines read so far |
| Segmenter.Finish | components/resumeUtils.ts:131-139 | after the last line the open section is pushed, and the result is the header joined with newlines and the sections |
| Segmenter.ParseResumeText | components/resumeUtils.ts:100-140 | the loop returns exactly the specified header and sections |
| Assembler.NonBlankKeeps | components/resumeUtils.ts:302 | the filter keeps exactly the lines that are non-blank |
| Assembler.NonBlankFirst | components/resumeUtils.ts:302-303 | the filter is empty exactly when every line is blank; otherwise its first element is the first non-blank line |
| Assembler.NameNonEmpty | components/resumeUtils.ts:303 | the name is `''` exactly when no non-blank header line is left |
| Assembler.HeaderFromLines | components/resumeUtils.ts:301-302 | splitting the joined header again gives back the lines before the first heading |
| Assembler.NameOfLines | components/resumeUtils.ts:302-303 | the name is empty exactly when all lines are blank, and otherwise is the first non-blank line |
| Assembler.NameIsFirstNonBlankLine | components/resumeUtils.ts:300-303 | the name is the first non-blank line before the first heading, and there is none exactly when all those lines are blank |
| Assembler.HeaderHtml | components/resumeUtils.ts:306-311 | no `<header>` is written without a name, and one is written whenever there is a name |
| Assembler.RenderResumeToHtml | components/resumeUtils.ts:299-333 | the page is `''` exactly for the empty text |
| Assembler.ClassOnly | components/resumeUtils.ts:322-325 | for any content, the preview container is the plain one with ` preview-mode` inserted after `resume-container` |
| Assembler.PreviewOnlyClass | components/resumeUtils.ts:322-333 | the preview flag changes the class name and nothing else |
| Assembler.BlankLines | components/resumeUtils.ts:301-302 | a text is all white space exactly when all its lines are blank |
| Assembler.BlankParse | components/resumeUtils.ts:300-301 | a blank text has no section and is its own header |
| Assembler.NoSectionHeader | components/resumeUtils.ts:135-139 | without a section, the header is the whole text |
| Assembler.FallbackOnlyForBlank | components/resumeUtils.ts:320 | the fallback block appears exactly for a non-empty text of white space only, and is then an empty content block |
| Assembler.DocumentPage | components/resumeUtils.ts:336-362 | the page can be cut back out of the printable document, between the print banner and the closing tags; the document starts with its head and ends with its closing tags |

## Left out

- `getResumeStyles` (components/resumeUtils.ts:142-297): its CSS text is constant configuration. `GetStyledResumeHtml` takes the style sheet as a parameter. The document frame around it is reproduced exactly in `StyledPage`.
- The default value `isPreviewMode = true` of `renderResumeToHtml`: Dafny functions have no default arguments, so the flag is always passed.
- JavaScript strings are UTF-16 code units; the model's are sequences of Unicode scalar values. They differ only for characters outside the Basic Multilingual Plane. None of those is a delimiter, white space or a line terminator. `substring(2)` is only taken after the two ASCII characters `* ` or `- `.
- The branch `if (sections.length === 0 && headerLines.length > 0)` (components/resumeUtils.ts:135-137) returns the same value as the final `return`. It is modelled as written in `Segmenter.Finish`, with no property of its own.
- The `level` of a section is computed and stored but never rendered: every section title is an `<h2>`.
- The React component around `parseMarkdown` (state, scrolling, sending), the PDF export, and the other components: these are UI, DOM and browser code.
- Inline.InlineSafe and Chat.ParseMarkdown: "safe" means that every `<` and `>` belongs to a tag the formatter wrote. Because `&` is not escaped, an input `&lt;b&gt;` still reaches the page as entity text. The model shows this behaviour (`Html.AmpersandNotEscaped`) rather than ruling it out.
- Inline.InlineBold, Inline.InlineItalic, Chat.ChatBold, Chat.ChatCodeBlock and Chat.ChatInlineCode are stated for one delimited run of plain content. The general behaviour on any text is given by the scanner lemmas of `Regex`, not as a closed formula.
- Assembler.RenderResumeToHtml: the safety of the whole page (names, contact lines and titles are formatted; section bodies are built from formatted lines) is not proved as one statement.
