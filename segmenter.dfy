/** The section splitter of the résumé renderer, `parseResumeText`: the text is cut at
    newlines; a line whose trimmed form is one to three `#` followed by white space
    starts a section; the lines before the first such line are the header, and the lines
    after each heading, up to the next one, are that section's body. `Split` describes the
    result; `ParseResumeText` is the loop. */
module Segmenter {
  import opened JsText

  /** One section: its title, its body (lines joined with newlines) and its level. */
  datatype Section = Section(title: string, content: string, level: nat)

  /** The header text and the sections, in order. */
  datatype ParsedResume = ParsedResume(header: string, sections: seq<Section>)

  // ---------------------------------------------------------------------------
  // Headings: `/^(#{1,3})\s+(.*)/` on the trimmed line

  /** How many `#` the text starts with. */
  function Hashes(t: string): (n: nat)
    ensures n <= |t|
    ensures forall k :: 0 <= k < n ==> t[k] == '#'
    ensures n < |t| ==> t[n] != '#'
    decreases |t|
  {
    if t != [] && t[0] == '#' then 1 + Hashes(t[1..]) else 0
  }

  /** The start of the pattern matches with `n` hashes: one to three `#`, then white space. */
  predicate HeadingMatch(t: string, n: nat) {
    1 <= n <= 3 && n < |t| && (forall k :: 0 <= k < n ==> t[k] == '#') && IsSpace(t[n])
  }

  /** The number of hashes of a heading, if the trimmed line is one. */
  function HeadingLevel(t: string): Option<nat> {
    var n := Hashes(t);
    if 1 <= n <= 3 && n < |t| && IsSpace(t[n]) then Some(n) else None
  }

  lemma {:induction false} HashesExact(t: string, n: nat)
    requires n < |t| && t[n] != '#'
    requires forall k :: 0 <= k < n ==> t[k] == '#'
    ensures Hashes(t) == n
    decreases n
  {
    if n > 0 {
      HashesExact(t[1..], n - 1);
    }
  }

  /** Backtracking cannot help the pattern: it matches with `n` hashes exactly when the
      level found is `n`, so it matches with at most one count. */
  lemma HeadingLevelMatch(t: string)
    ensures forall n: nat :: HeadingMatch(t, n) <==> HeadingLevel(t) == Some(n)
  {
    forall n: nat | HeadingMatch(t, n)
      ensures HeadingLevel(t) == Some(n)
    {
      assert !IsSpace('#');
      HashesExact(t, n);
    }
  }

  /** What `.*` takes: the text up to the first line terminator. */
  function UpToTerminator(s: string): (r: string)
    ensures r <= s
    ensures forall k :: 0 <= k < |r| ==> !IsLineTerminator(r[k])
    ensures |r| < |s| ==> IsLineTerminator(s[|r|])
    decreases |s|
  {
    if s == [] || IsLineTerminator(s[0]) then [] else [s[0]] + UpToTerminator(s[1..])
  }

  /** A heading: its level and its title. */
  datatype Heading = Heading(level: nat, title: string)

  /** The heading a line is, if it is one: after the hashes, `\s+` takes all the white
      space and `(.*)` the rest up to a line terminator. */
  function ParseHeading(line: string): Option<Heading> {
    var t := Trim(line);
    match HeadingLevel(t)
    case None => None
    case Some(n) => Some(Heading(n, UpToTerminator(TrimStart(t[n..]))))
  }

  lemma {:induction false} TrimStartKeeps(s: string)
    requires s != [] && !IsSpace(s[|s| - 1])
    ensures TrimStart(s) != [] && !IsSpace(TrimStart(s)[0])
    decreases |s|
  {
    if IsSpace(s[0]) {
      TrimStartKeeps(s[1..]);
    }
  }

  /** A heading has a level from one to three and a non-empty title: the trimmed line
      ends in a character that is not white space, so something follows the white space
      after the hashes. */
  lemma HeadingShape(line: string)
    requires ParseHeading(line).Some?
    ensures 1 <= ParseHeading(line).value.level <= 3 && ParseHeading(line).value.title != []
  {
    var t := Trim(line);
    var n := HeadingLevel(t).value;
    var a, b := TrimSlice(line);
    assert t[|t| - 1] == line[b - 1];
    TrimStartKeeps(t[n..]);
  }

  // ---------------------------------------------------------------------------
  // What the splitter computes

  /** A heading line and the lines of its body. */
  datatype Part = Part(line: string, heading: Heading, body: seq<string>)

  /** The header lines (those before the first heading) and the parts, given the heading
      test `parse`. The test is a parameter so that the shape of the split can be reasoned
      about apart from it; the splitter uses `ParseHeading`. */
  function Split(lines: seq<string>, parse: string -> Option<Heading>): (seq<string>, seq<Part>)
    decreases |lines|
  {
    if lines == [] then ([], [])
    else
      var (header, parts) := Split(lines[1..], parse);
      match parse(lines[0])
      case Some(h) => ([], [Part(lines[0], h, header)] + parts)
      case None => ([lines[0]] + header, parts)
  }

  function SectionOf(p: Part): Section {
    Section(p.heading.title, Join(p.body, "\n"), p.heading.level)
  }

  function Sections(parts: seq<Part>): seq<Section>
    decreases |parts|
  {
    if parts == [] then [] else [SectionOf(parts[0])] + Sections(parts[1..])
  }

  /** What `parseResumeText` returns. */
  function ParseText(markdown: string): ParsedResume {
    var (header, parts) := Split(Lines(markdown), ParseHeading);
    ParsedResume(Join(header, "\n"), Sections(parts))
  }

  // ---------------------------------------------------------------------------
  // What the split is

  /** The lines of the parts, in order: each heading line followed by its body. */
  function Unsplit(parts: seq<Part>): seq<string>
    decreases |parts|
  {
    if parts == [] then [] else [parts[0].line] + parts[0].body + Unsplit(parts[1..])
  }

  /** None of the lines is a heading. */
  predicate NoHeadings(lines: seq<string>, parse: string -> Option<Heading>)
    decreases |lines|
  {
    lines == [] || (parse(lines[0]).None? && NoHeadings(lines[1..], parse))
  }

  /** Each part's line is its heading, and its body holds no heading line. */
  predicate WellParts(parts: seq<Part>, parse: string -> Option<Heading>)
    decreases |parts|
  {
    parts == []
    || (parse(parts[0].line) == Some(parts[0].heading) && NoHeadings(parts[0].body, parse)
        && WellParts(parts[1..], parse))
  }

  /** Header and bodies hold no heading line, and each part's line is its heading. */
  predicate WellSplit(header: seq<string>, parts: seq<Part>, parse: string -> Option<Heading>) {
    NoHeadings(header, parse) && WellParts(parts, parse)
  }

  lemma {:induction false} NoHeadingsAppend(a: seq<string>, b: seq<string>, parse: string -> Option<Heading>)
    ensures NoHeadings(a + b, parse) <==> NoHeadings(a, parse) && NoHeadings(b, parse)
    decreases |a|
  {
    if a != [] {
      NoHeadingsAppend(a[1..], b, parse);
      assert (a + b)[1..] == a[1..] + b;
    } else {
      assert a + b == b;
    }
  }

  lemma {:induction false} WellPartsAppend(a: seq<Part>, b: seq<Part>, parse: string -> Option<Heading>)
    ensures WellParts(a + b, parse) <==> WellParts(a, parse) && WellParts(b, parse)
    decreases |a|
  {
    if a != [] {
      WellPartsAppend(a[1..], b, parse);
      assert (a + b)[1..] == a[1..] + b;
    } else {
      assert a + b == b;
    }
  }

  /** Nothing is lost or reordered: the header, then each heading line and its body,
      verbatim, give back the lines; and the split is well formed. */
  lemma {:induction false} SplitRebuilds(lines: seq<string>, parse: string -> Option<Heading>)
    ensures Split(lines, parse).0 + Unsplit(Split(lines, parse).1) == lines
    ensures WellSplit(Split(lines, parse).0, Split(lines, parse).1, parse)
    decreases |lines|
  {
    if lines != [] {
      SplitRebuilds(lines[1..], parse);
      var (header, parts) := Split(lines[1..], parse);
      if parse(lines[0]).Some? {
        var p := Part(lines[0], parse(lines[0]).value, header);
        UnsplitCons(p, parts);
        assert ([p] + parts)[1..] == parts;
      } else {
        assert ([lines[0]] + header)[1..] == header;
      }
    }
  }

  lemma UnsplitCons(p: Part, parts: seq<Part>)
    ensures Unsplit([p] + parts) == [p.line] + p.body + Unsplit(parts)
  {
    assert ([p] + parts)[1..] == parts;
  }

  /** Those two properties determine the split: any well-formed header and parts that
      rebuild the lines are the ones `Split` finds. */
  lemma {:induction false} SplitUnique(lines: seq<string>, header: seq<string>, parts: seq<Part>,
                                       parse: string -> Option<Heading>)
    requires WellSplit(header, parts, parse) && header + Unsplit(parts) == lines
    ensures Split(lines, parse) == (header, parts)
    decreases |lines|
  {
    if header != [] {
      assert lines[1..] == header[1..] + Unsplit(parts);
      SplitUnique(lines[1..], header[1..], parts, parse);
      assert [header[0]] + header[1..] == header;
    } else if parts != [] {
      var p := parts[0];
      UnsplitCons(p, parts[1..]);
      assert parts == [p] + parts[1..];
      assert lines == [p.line] + (p.body + Unsplit(parts[1..]));
      SplitUnique(lines[1..], p.body, parts[1..], parse);
    } else {
      assert lines == [];
    }
  }

  /** Adding a line at the end: a heading starts a new part with an empty body; any other
      line goes to the header while there is no part, and to the last part's body after. */
  lemma SplitSnoc(lines: seq<string>, x: string, parse: string -> Option<Heading>)
    ensures Split(lines + [x], parse) ==
      var (header, parts) := Split(lines, parse);
      match parse(x)
      case Some(h) => (header, parts + [Part(x, h, [])])
      case None =>
        if parts == [] then (header + [x], [])
        else
          var last := parts[|parts| - 1];
          (header, parts[..|parts| - 1] + [Part(last.line, last.heading, last.body + [x])])
  {
    SplitRebuilds(lines, parse);
    var (header, parts) := Split(lines, parse);
    match parse(x)
    case Some(h) =>
      var p := Part(x, h, []);
      UnsplitNewPart(parts, p);
      WellPartsAppend(parts, [p], parse);
      assert [p][1..] == [];
      SplitUnique(lines + [x], header, parts + [p], parse);
    case None =>
      assert NoHeadings([x], parse) by { assert [x][1..] == []; }
      if parts == [] {
        NoHeadingsAppend(header, [x], parse);
        SplitUnique(lines + [x], header + [x], [], parse);
      } else {
        var init, last := parts[..|parts| - 1], parts[|parts| - 1];
        var last' := Part(last.line, last.heading, last.body + [x]);
        assert parts == init + [last];
        UnsplitLonger(init, last, x);
        WellPartsAppend(init, [last], parse);
        WellPartsAppend(init, [last'], parse);
        NoHeadingsAppend(last.body, [x], parse);
        assert [last][1..] == [] && [last'][1..] == [];
        SplitUnique(lines + [x], header, init + [last'], parse);
      }
  }

  /** A new part adds its line. */
  lemma UnsplitNewPart(parts: seq<Part>, p: Part)
    requires p.body == []
    ensures Unsplit(parts + [p]) == Unsplit(parts) + [p.line]
  {
    UnsplitAppend(parts, [p]);
    UnsplitCons(p, []);
  }

  /** A longer last body adds its line. */
  lemma UnsplitLonger(init: seq<Part>, last: Part, x: string)
    ensures Unsplit(init + [Part(last.line, last.heading, last.body + [x])]) == Unsplit(init + [last]) + [x]
  {
    var last' := Part(last.line, last.heading, last.body + [x]);
    UnsplitAppend(init, [last']);
    UnsplitAppend(init, [last]);
    UnsplitCons(last', []);
    UnsplitCons(last, []);
  }

  lemma {:induction false} UnsplitAppend(a: seq<Part>, b: seq<Part>)
    ensures Unsplit(a + b) == Unsplit(a) + Unsplit(b)
    decreases |a|
  {
    if a != [] {
      UnsplitAppend(a[1..], b);
      assert (a + b)[1..] == a[1..] + b;
    } else {
      assert a + b == b;
    }
  }

  /** The header is the lines before the first heading, verbatim. */
  lemma HeaderBeforeFirstHeading(lines: seq<string>, parse: string -> Option<Heading>)
    ensures |Split(lines, parse).0| <= |lines| && Split(lines, parse).0 == lines[..|Split(lines, parse).0|]
    ensures NoHeadings(Split(lines, parse).0, parse)
    ensures |Split(lines, parse).0| < |lines| ==> parse(lines[|Split(lines, parse).0|]).Some?
  {
    SplitRebuilds(lines, parse);
    var (header, parts) := Split(lines, parse);
    assert lines[..|header|] == header;
    if |header| < |lines| {
      UnsplitCons(parts[0], parts[1..]);
      assert parts == [parts[0]] + parts[1..];
      assert lines[|header|] == parts[0].line;
    }
  }

  /** How many lines are headings. */
  function CountHeadings(lines: seq<string>, parse: string -> Option<Heading>): nat
    decreases |lines|
  {
    if lines == [] then 0
    else (if parse(lines[0]).Some? then 1 else 0) + CountHeadings(lines[1..], parse)
  }

  /** One section per heading line, even when its body is empty. */
  lemma {:induction false} OnePartPerHeading(lines: seq<string>, parse: string -> Option<Heading>)
    ensures |Split(lines, parse).1| == CountHeadings(lines, parse)
    decreases |lines|
  {
    if lines != [] {
      OnePartPerHeading(lines[1..], parse);
    }
  }

  lemma SectionsSnoc(parts: seq<Part>, p: Part)
    ensures Sections(parts + [p]) == Sections(parts) + [SectionOf(p)]
    decreases |parts|
  {
    if parts != [] {
      SectionsSnoc(parts[1..], p);
      assert (parts + [p])[1..] == parts[1..] + [p];
    } else {
      assert Sections([p]) == [SectionOf(p)] + Sections([]);
    }
  }

  /** A list of lines has no heading exactly when no line is one. */
  lemma {:induction false} NoHeadingsAll(lines: seq<string>, parse: string -> Option<Heading>)
    ensures NoHeadings(lines, parse) <==> forall k :: 0 <= k < |lines| ==> parse(lines[k]).None?
    decreases |lines|
  {
    if lines != [] {
      NoHeadingsAll(lines[1..], parse);
      assert forall k :: 1 <= k < |lines| ==> lines[k] == lines[1..][k - 1];
    }
  }

  /** Without a heading everything is header and there is no section. */
  lemma NoHeadingsSplit(lines: seq<string>, parse: string -> Option<Heading>)
    requires NoHeadings(lines, parse)
    ensures Split(lines, parse) == (lines, [])
  {
    assert lines + Unsplit([]) == lines;
    SplitUnique(lines, lines, [], parse);
  }

  /** A blank line is never a heading. */
  lemma BlankNotHeading(line: string)
    requires AllSpace(line)
    ensures ParseHeading(line).None?
  {
    TrimBlank(line);
    assert Hashes(Trim(line)) == 0;
  }

  /** Each section comes from its part, and so has a level from one to three and a title. */
  lemma {:induction false} SectionsShape(parts: seq<Part>)
    requires WellParts(parts, ParseHeading)
    ensures |Sections(parts)| == |parts|
    ensures forall k :: 0 <= k < |parts| ==> Sections(parts)[k] == SectionOf(parts[k])
    ensures forall s :: s in Sections(parts) ==> 1 <= s.level <= 3 && s.title != []
    decreases |parts|
  {
    if parts != [] {
      SectionsShape(parts[1..]);
      HeadingShape(parts[0].line);
      assert forall k :: 1 <= k < |parts| ==> parts[k] == parts[1..][k - 1];
    }
  }

  /** `parseResumeText` gives one section per heading line, each with a level from one to
      three and a non-empty title. */
  lemma ParseTextSections(markdown: string)
    ensures |ParseText(markdown).sections| == CountHeadings(Lines(markdown), ParseHeading)
    ensures forall s :: s in ParseText(markdown).sections ==> 1 <= s.level <= 3 && s.title != []
  {
    var lines := Lines(markdown);
    SplitRebuilds(lines, ParseHeading);
    OnePartPerHeading(lines, ParseHeading);
    SectionsShape(Split(lines, ParseHeading).1);
  }

  // ---------------------------------------------------------------------------
  // The loop

  /** The loop's variables after the lines whose split is `split`. Before the first
      heading the title is empty; after it, the finished sections are all but the last
      part, and the current title, level and body are the last part's. */
  predicate Tracks(split: (seq<string>, seq<Part>), headerLines: seq<string>, sections: seq<Section>,
                   content: seq<string>, title: string, level: nat, headerParsed: bool)
  {
    var (header, parts) := split;
    headerLines == header && headerParsed == (parts != [])
    && if parts == [] then sections == [] && title == []
       else
         var last := parts[|parts| - 1];
         sections == Sections(parts[..|parts| - 1]) && title == last.heading.title && title != []
         && level == last.heading.level && content == last.body
  }

  /** One line of the loop: a heading pushes the section it ends (if any) and opens its
      own; another line goes to the header before the first heading, to the current
      body after it. */
  method Step(ghost done: seq<string>, line: string, heading: Option<Heading>,
              ghost parse: string -> Option<Heading>,
              headerLines: seq<string>, sections: seq<Section>, content: seq<string>,
              title: string, level: nat, headerParsed: bool)
    returns (headerLines': seq<string>, sections': seq<Section>, content': seq<string>,
             title': string, level': nat, headerParsed': bool)
    requires heading == parse(line) && (heading.Some? ==> heading.value.title != [])
    requires Tracks(Split(done, parse), headerLines, sections, content, title, level, headerParsed)
    ensures Tracks(Split(done + [line], parse), headerLines', sections', content', title', level', headerParsed')
  {
    headerLines', sections', content', title', level', headerParsed' :=
      headerLines, sections, content, title, level, headerParsed;
    ghost var before := Split(done, parse).1;
    if heading.Some? {
      headerParsed' := true;
      if title != [] {
        sections' := sections + [Section(title, Join(content, "\n"), level)];
      }
      level' := heading.value.level;
      title' := heading.value.title;
      content' := [];
      if before != [] {
        SectionsSnoc(before[..|before| - 1], before[|before| - 1]);
        assert before[..|before| - 1] + [before[|before| - 1]] == before;
      }
    } else if !headerParsed {
      headerLines' := headerLines + [line];
    } else {
      content' := content + [line];
    }
    SplitSnoc(done, line, parse);
  }

  /** After the last line: the open section is pushed, and the header lines are joined. */
  method Finish(ghost lines: seq<string>, ghost parse: string -> Option<Heading>,
                headerLines: seq<string>, sections: seq<Section>, content: seq<string>,
                title: string, level: nat, headerParsed: bool)
    returns (parsed: ParsedResume)
    requires Tracks(Split(lines, parse), headerLines, sections, content, title, level, headerParsed)
    ensures parsed == ParsedResume(Join(Split(lines, parse).0, "\n"), Sections(Split(lines, parse).1))
  {
    var sections' := sections;
    ghost var parts := Split(lines, parse).1;
    if title != [] {
      sections' := sections + [Section(title, Join(content, "\n"), level)];
      SectionsSnoc(parts[..|parts| - 1], parts[|parts| - 1]);
      assert parts[..|parts| - 1] + [parts[|parts| - 1]] == parts;
    }
    if |sections'| == 0 && |headerLines| > 0 {
      return ParsedResume(Join(headerLines, "\n"), []);
    }
    return ParsedResume(Join(headerLines, "\n"), sections');
  }

  /** `parseResumeText` as written: one pass over the lines, pushing a section whenever a
      heading ends the previous one, and once more after the last line. */
  method ParseResumeText(markdown: string) returns (parsed: ParsedResume)
    ensures parsed == ParseText(markdown)
  {
    var lines := Lines(markdown);
    var headerLines: seq<string> := [];
    var sections: seq<Section> := [];
    var currentSectionContent: seq<string> := [];
    var currentSectionTitle: string := [];
    var currentLevel := 0;
    var headerParsed := false;
    var i := 0;
    while i < |lines|
      invariant 0 <= i <= |lines|
      invariant Tracks(Split(lines[..i], ParseHeading), headerLines, sections, currentSectionContent,
                       currentSectionTitle, currentLevel, headerParsed)
      decreases |lines| - i
    {
      var line := lines[i];
      var heading := ParseHeading(line);
      if heading.Some? {
        HeadingShape(line);
      }
      headerLines, sections, currentSectionContent, currentSectionTitle, currentLevel, headerParsed :=
        Step(lines[..i], line, heading, ParseHeading, headerLines, sections, currentSectionContent,
             currentSectionTitle, currentLevel, headerParsed);
      assert lines[..i + 1] == lines[..i] + [line];
      i := i + 1;
    }
    assert lines[..i] == lines;
    parsed := Finish(lines, ParseHeading, headerLines, sections, currentSectionContent,
                     currentSectionTitle, currentLevel, headerParsed);
  }
}
