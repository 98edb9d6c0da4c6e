/** The block classifier of the résumé renderer, `parseResumeContent`: the body of a
    section is trimmed and cut into lines, and each trimmed line becomes a list item, the
    first line of a two-line entry, a subheading or a paragraph. One flag says whether a
    `<ul>` is open. The loop is `ParseResumeContent`; what it computes is described by
    `Classify` (lines to blocks) followed by `Emit` (blocks to HTML lines). */
module Blocks {
  import opened JsText
  import opened Inline

  // ---------------------------------------------------------------------------
  // Lines and their kinds

  /** A trimmed line that is a list item: it starts with `* ` or `- `. */
  predicate IsListLine(t: string) {
    StartsWith(t, "* ") || StartsWith(t, "- ")
  }

  /** The second line of an entry: it holds `|`, or is wrapped in `*` or in `_`. */
  predicate IsRoleLine(n: string) {
    '|' in n || (StartsWith(n, "*") && EndsWith(n, "*")) || (StartsWith(n, "_") && EndsWith(n, "_"))
  }

  /** Line `k` exists and is a list line once trimmed. */
  predicate ListLineAt(lines: seq<string>, k: nat) {
    k < |lines| && IsListLine(Trim(lines[k]))
  }

  /** Line `i` opens an entry: the next line is non-blank, not a list line and a role
      line, and the line after it is not a list line. */
  predicate EntryAt(lines: seq<string>, i: nat) {
    i + 1 < |lines| &&
    var n := Trim(lines[i + 1]);
    n != [] && !IsListLine(n) && IsRoleLine(n) && !ListLineAt(lines, i + 2)
  }

  /** The first line from `j` on that is not blank once trimmed. */
  function NextContent(lines: seq<string>, j: nat): (r: Option<nat>)
    ensures r.Some? ==> j <= r.value < |lines| && Trim(lines[r.value]) != []
    ensures r.Some? ==> forall k :: j <= k < r.value ==> Trim(lines[k]) == []
    ensures r.None? ==> forall k :: j <= k < |lines| ==> Trim(lines[k]) == []
    decreases |lines| - j
  {
    if j >= |lines| then None
    else if Trim(lines[j]) != [] then Some(j)
    else NextContent(lines, j + 1)
  }

  /** The first non-blank line after line `i` is a list line. */
  predicate LeadsList(lines: seq<string>, i: nat) {
    match NextContent(lines, i + 1)
    case Some(j) => IsListLine(Trim(lines[j]))
    case None => false
  }

  // ---------------------------------------------------------------------------
  // Blocks

  /** What a trimmed line (or, for an entry, two lines) becomes. A list item keeps its
      bullet (`*` or `-`) apart from the text after `* ` or `- `. */
  datatype Block =
    | Gap
    | Item(bullet: char, text: string)
    | Entry(primary: string, secondary: string)
    | Subheading(text: string)
    | Paragraph(text: string)

  /** The classification of the lines from `i` on, as the loop makes it. */
  function Classify(lines: seq<string>, i: nat): seq<Block>
    requires i <= |lines|
    decreases |lines| - i
  {
    if i == |lines| then []
    else
      var t := Trim(lines[i]);
      if t == [] then [Gap] + Classify(lines, i + 1)
      else if IsListLine(t) then [Item(t[0], t[2..])] + Classify(lines, i + 1)
      else if EntryAt(lines, i) then [Entry(t, Trim(lines[i + 1]))] + Classify(lines, i + 2)
      else if LeadsList(lines, i) then [Subheading(t)] + Classify(lines, i + 1)
      else [Paragraph(t)] + Classify(lines, i + 1)
  }

  /** The trimmed lines a block was made from. */
  function BlockLines(b: Block): seq<string> {
    match b
    case Gap => []
    case Item(c, x) => [[c, ' '] + x]
    case Entry(p, s) => [p, s]
    case Subheading(t) => [t]
    case Paragraph(t) => [t]
  }

  function Flatten(blocks: seq<Block>): seq<string>
    decreases |blocks|
  {
    if blocks == [] then [] else BlockLines(blocks[0]) + Flatten(blocks[1..])
  }

  /** The non-blank trimmed lines from `i` on. */
  function Contentful(lines: seq<string>, i: nat): seq<string>
    requires i <= |lines|
    decreases |lines| - i
  {
    if i == |lines| then []
    else if Trim(lines[i]) == [] then Contentful(lines, i + 1)
    else [Trim(lines[i])] + Contentful(lines, i + 1)
  }

  /** Each block is of the kind its lines call for: an item comes from a list line, the
      other blocks from non-list lines, and an entry's second line is a role line. */
  predicate WellClassified(b: Block) {
    match b
    case Gap => true
    case Item(c, x) => IsListLine([c, ' '] + x)
    case Entry(p, s) => p != [] && s != [] && !IsListLine(p) && !IsListLine(s) && IsRoleLine(s)
    case Subheading(t) => t != [] && !IsListLine(t)
    case Paragraph(t) => t != [] && !IsListLine(t)
  }

  // ---------------------------------------------------------------------------
  // Emitting HTML lines

  const ListOpen: string := "<ul class=\"content-list\">"
  const ListClose: string := "</ul>"
  const EntryOpen: string := "<div class=\"entry\">"
  const EntryClose: string := "</div>"

  function ItemHtml(h: string): string {
    "<li>" + h + "</li>"
  }

  function PrimaryHtml(h: string): string {
    "<p class=\"entry-primary\">" + h + "</p>"
  }

  function SecondaryHtml(h: string): string {
    "<p class=\"entry-secondary\">" + h + "</p>"
  }

  function SubheadingHtml(h: string): string {
    "<p class=\"subheading\">" + h + "</p>"
  }

  function ParagraphHtml(h: string): string {
    "<p>" + h + "</p>"
  }

  /** `</ul>` when a list is open. */
  function Close(inList: bool): seq<string> {
    if inList then [ListClose] else []
  }

  /** `<ul>` unless a list is open. */
  function Opening(inList: bool): seq<string> {
    if inList then [] else [ListOpen]
  }

  /** The lines of a block other than an item, written after any `</ul>`. */
  function BlockOut(b: Block, format: string -> string): seq<string>
    requires !b.Item?
  {
    match b
    case Gap => []
    case Entry(p, s) => [EntryOpen, PrimaryHtml(format(p)), SecondaryHtml(format(s)), EntryClose]
    case Subheading(t) => [SubheadingHtml(format(t))]
    case Paragraph(t) => [ParagraphHtml(format(t))]
  }

  /** The HTML lines of the blocks, given whether a list is open before them, each text
      passed through `format`: an item opens a list unless one is open; any other block
      closes an open list first. The formatter is a parameter so that the line structure
      can be reasoned about apart from it; a body is emitted with `ApplyInlineMarkdown`. */
  function Emit(blocks: seq<Block>, inList: bool, format: string -> string): seq<string>
    decreases |blocks|
  {
    if blocks == [] then Close(inList)
    else if blocks[0].Item? then
      Opening(inList) + ([ItemHtml(format(blocks[0].text))] + Emit(blocks[1..], true, format))
    else
      Close(inList) + (BlockOut(blocks[0], format) + Emit(blocks[1..], false, format))
  }

  /** What `parseResumeContent` returns: `''` for the empty string, otherwise the emitted
      lines of the trimmed text joined with newlines. */
  function ContentHtml(content: string): string {
    if content == [] then []
    else Join(Emit(Classify(Lines(Trim(content)), 0), false, ApplyInlineMarkdown), "\n")
  }

  /** The lines a non-blank, non-list line `i` writes once any open list is closed: the
      four lines of an entry (with line `i + 1`), a subheading or a paragraph. */
  function TextOut(lines: seq<string>, i: nat): seq<string>
    requires i < |lines|
  {
    var t := Trim(lines[i]);
    if EntryAt(lines, i) then
      [EntryOpen, PrimaryHtml(ApplyInlineMarkdown(t)), SecondaryHtml(ApplyInlineMarkdown(Trim(lines[i + 1]))), EntryClose]
    else if LeadsList(lines, i) then [SubheadingHtml(ApplyInlineMarkdown(t))]
    else [ParagraphHtml(ApplyInlineMarkdown(t))]
  }

  // ---------------------------------------------------------------------------
  // The loop

  /** `parseResumeContent`, step by step as written: one pass over the lines with the
      "in list" flag, a look at the next two lines for an entry (whose second line is then
      skipped), and an inner scan for the next non-blank line. */
  method ParseResumeContent(content: string) returns (html: string)
    ensures html == ContentHtml(content)
  {
    if content == [] {
      return [];
    }
    var lines := Lines(Trim(content));
    ghost var target := Emit(Classify(lines, 0), false, ApplyInlineMarkdown);
    var processed: seq<string> := [];
    var inList := false;
    var i := 0;
    while i < |lines|
      invariant 0 <= i <= |lines|
      invariant processed + Emit(Classify(lines, i), inList, ApplyInlineMarkdown) == target
      decreases |lines| - i
    {
      processed, i, inList := Step(lines, i, inList, processed);
    }
    assert Emit(Classify(lines, i), inList, ApplyInlineMarkdown) == Close(inList);
    if inList {
      processed := processed + [ListClose];
    }
    assert processed == target;
    return Join(processed, "\n");
  }

  /** One turn of the loop of `parseResumeContent` at line `i`: what it pushes, where it
      goes on, and whether a list is then open. What is pushed and what is still to come
      make up what was still to come. */
  method Step(lines: seq<string>, i: nat, inList: bool, processed: seq<string>)
    returns (processed': seq<string>, i': nat, inList': bool)
    requires i < |lines|
    ensures i < i' <= |lines|
    ensures var t := Trim(lines[i]);
      if t == [] then
        i' == i + 1 && !inList' && processed' == processed + Close(inList)
      else if IsListLine(t) then
        i' == i + 1 && inList' && processed' == processed + Opening(inList) + [ItemHtml(ApplyInlineMarkdown(t[2..]))]
      else
        i' == (if EntryAt(lines, i) then i + 2 else i + 1) && !inList'
        && processed' == processed + Close(inList) + TextOut(lines, i)
    ensures processed' + Emit(Classify(lines, i'), inList', ApplyInlineMarkdown)
            == processed + Emit(Classify(lines, i), inList, ApplyInlineMarkdown)
  {
    var t := Trim(lines[i]);
    if t == [] {
      processed', inList' := BlankLine(lines, i, inList, processed);
      i' := i + 1;
    } else if IsListLine(t) {
      processed', inList' := ListLine(lines, i, inList, processed);
      i' := i + 1;
    } else {
      processed' := processed;
      if inList {
        processed' := processed' + [ListClose];
      }
      assert processed' == processed + Close(inList);
      KeepClose(lines, i, processed, inList, processed + Emit(Classify(lines, i), inList, ApplyInlineMarkdown),
                ApplyInlineMarkdown);
      processed', i' := TextLine(lines, i, processed');
      inList' := false;
    }
  }

  /** A turn on a blank line: close an open list. */
  method BlankLine(lines: seq<string>, i: nat, inList: bool, processed: seq<string>)
    returns (processed': seq<string>, inList': bool)
    requires i < |lines| && Trim(lines[i]) == []
    ensures processed' == processed + Close(inList) && !inList'
    ensures processed' + Emit(Classify(lines, i + 1), inList', ApplyInlineMarkdown)
            == processed + Emit(Classify(lines, i), inList, ApplyInlineMarkdown)
  {
    processed', inList' := processed, inList;
    if inList' {
      processed' := processed' + [ListClose];
      inList' := false;
    }
    assert processed' == processed + Close(inList);
    KeepGap(lines, i, processed, inList, processed + Emit(Classify(lines, i), inList, ApplyInlineMarkdown),
            ApplyInlineMarkdown);
  }

  /** A turn on a list line: open a list unless one is open, and write the item. */
  method ListLine(lines: seq<string>, i: nat, inList: bool, processed: seq<string>)
    returns (processed': seq<string>, inList': bool)
    requires i < |lines| && IsListLine(Trim(lines[i]))
    ensures inList' && processed' == processed + Opening(inList) + [ItemHtml(ApplyInlineMarkdown(Trim(lines[i])[2..]))]
    ensures processed' + Emit(Classify(lines, i + 1), inList', ApplyInlineMarkdown)
            == processed + Emit(Classify(lines, i), inList, ApplyInlineMarkdown)
  {
    var t := Trim(lines[i]);
    processed', inList' := processed, inList;
    if !inList' {
      processed' := processed' + [ListOpen];
      inList' := true;
    }
    processed' := processed' + [ItemHtml(ApplyInlineMarkdown(t[2..]))];
    assert processed' == processed + Opening(inList) + [ItemHtml(ApplyInlineMarkdown(t[2..]))];
    KeepItem(lines, i, processed, inList, processed + Emit(Classify(lines, i), inList, ApplyInlineMarkdown),
             ApplyInlineMarkdown);
  }

  /** The rest of a turn on a non-blank, non-list line, once any open list is closed: an
      entry (skipping the next line), a subheading or a paragraph. */
  method TextLine(lines: seq<string>, i: nat, processed: seq<string>) returns (processed': seq<string>, i': nat)
    requires i < |lines| && var t := Trim(lines[i]); t != [] && !IsListLine(t)
    ensures i' == (if EntryAt(lines, i) then i + 2 else i + 1) && i' <= |lines|
    ensures processed' == processed + TextOut(lines, i)
    ensures processed' + Emit(Classify(lines, i'), false, ApplyInlineMarkdown)
            == processed + Emit(Classify(lines, i), false, ApplyInlineMarkdown)
  {
    ghost var target := processed + Emit(Classify(lines, i), false, ApplyInlineMarkdown);
    var t := Trim(lines[i]);
    var isEntry := IsEntryStart(lines, i);
    if isEntry {
      var next := Trim(lines[i + 1]);
      processed' := processed + [EntryOpen, PrimaryHtml(ApplyInlineMarkdown(t)),
                                 SecondaryHtml(ApplyInlineMarkdown(next)), EntryClose];
      KeepEntry(lines, i, processed, target, ApplyInlineMarkdown);
      i' := i + 2;
    } else {
      var isSubheading := IsSubheading(lines, i);
      var lineHtml := ApplyInlineMarkdown(t);
      if isSubheading {
        processed' := processed + ["<p class=\"subheading\">" + lineHtml + "</p>"];
      } else {
        processed' := processed + ["<p>" + lineHtml + "</p>"];
      }
      KeepLine(lines, i, processed, target, ApplyInlineMarkdown);
      i' := i + 1;
    }
  }

  /** The entry test of the loop: the next line is non-blank, not a list line and a role
      line, and the line after it is not a list line. */
  method IsEntryStart(lines: seq<string>, i: nat) returns (isEntry: bool)
    requires i < |lines|
    ensures isEntry == EntryAt(lines, i)
  {
    isEntry := false;
    if i + 1 < |lines| {
      var nextLine := Trim(lines[i + 1]);
      if nextLine != [] && !IsListLine(nextLine) {
        var isRoleLine := IsRoleLine(nextLine);
        var isFollowedByList := i + 2 < |lines| && IsListLine(Trim(lines[i + 2]));
        isEntry := isRoleLine && !isFollowedByList;
      }
    }
  }

  /** The lookahead of the loop: scan forward to the first non-blank line and report
      whether it is a list line. */
  method IsSubheading(lines: seq<string>, i: nat) returns (isSubheading: bool)
    requires i < |lines|
    ensures isSubheading == LeadsList(lines, i)
  {
    isSubheading := false;
    var j := i + 1;
    while j < |lines|
      invariant i + 1 <= j <= |lines|
      invariant NextContent(lines, i + 1) == NextContent(lines, j)
      invariant !isSubheading
      decreases |lines| - j
    {
      var futureLineTrimmed := Trim(lines[j]);
      if futureLineTrimmed != [] {
        isSubheading := IsListLine(futureLineTrimmed);
        break;
      }
      NextContentSkip(lines, j);
      j := j + 1;
    }
  }

  /** What follows a block that is not an item: any open list closed, then its lines. */
  lemma KeepOther(bs: seq<Block>, before: seq<string>, inList: bool, target: seq<string>, format: string -> string)
    requires bs != [] && !bs[0].Item?
    requires before + Emit(bs, inList, format) == target
    ensures (before + Close(inList) + BlockOut(bs[0], format)) + Emit(bs[1..], false, format) == target
  {
    var rest := Emit(bs[1..], false, format);
    ConcatAssoc(before, Close(inList), BlockOut(bs[0], format) + rest);
    ConcatAssoc(before + Close(inList), BlockOut(bs[0], format), rest);
  }

  /** One step of the loop on a blank line: close an open list. */
  lemma KeepGap(lines: seq<string>, i: nat, before: seq<string>, inList: bool, target: seq<string>,
                format: string -> string)
    requires i < |lines| && Trim(lines[i]) == []
    requires before + Emit(Classify(lines, i), inList, format) == target
    ensures (before + Close(inList)) + Emit(Classify(lines, i + 1), false, format) == target
  {
    var bs := Classify(lines, i);
    assert bs[0] == Gap && bs[1..] == Classify(lines, i + 1);
    KeepOther(bs, before, inList, target, format);
    assert before + Close(inList) + BlockOut(bs[0], format) == before + Close(inList);
  }

  /** On a non-blank, non-list line the loop first closes an open list. */
  lemma KeepClose(lines: seq<string>, i: nat, before: seq<string>, inList: bool, target: seq<string>,
                  format: string -> string)
    requires i < |lines| && var t := Trim(lines[i]); t != [] && !IsListLine(t)
    requires before + Emit(Classify(lines, i), inList, format) == target
    ensures (before + Close(inList)) + Emit(Classify(lines, i), false, format) == target
  {
    var bs := Classify(lines, i);
    assert !bs[0].Item?;
    var rest := BlockOut(bs[0], format) + Emit(bs[1..], false, format);
    ConcatAssoc(before, Close(inList), rest);
    assert Close(false) + rest == rest;
  }

  /** One step of the loop on a list line: open a list unless one is open, then one item
      holding the line without its first two characters. */
  lemma KeepItem(lines: seq<string>, i: nat, before: seq<string>, inList: bool, target: seq<string>,
                 format: string -> string)
    requires i < |lines| && IsListLine(Trim(lines[i]))
    requires before + Emit(Classify(lines, i), inList, format) == target
    ensures (before + Opening(inList) + [ItemHtml(format(Trim(lines[i])[2..]))]) + Emit(Classify(lines, i + 1), true, format)
            == target
  {
    var t := Trim(lines[i]);
    var bs := Classify(lines, i);
    assert bs[0] == Item(t[0], t[2..]) && bs[1..] == Classify(lines, i + 1);
    var rest := Emit(Classify(lines, i + 1), true, format);
    ConcatAssoc(before, Opening(inList), [ItemHtml(format(t[2..]))] + rest);
    ConcatAssoc(before + Opening(inList), [ItemHtml(format(t[2..]))], rest);
  }

  /** One step of the loop on the first line of an entry, with no list open: write the
      entry and skip its second line. */
  lemma KeepEntry(lines: seq<string>, i: nat, before: seq<string>, target: seq<string>, format: string -> string)
    requires i < |lines| && var t := Trim(lines[i]); t != [] && !IsListLine(t)
    requires EntryAt(lines, i)
    requires before + Emit(Classify(lines, i), false, format) == target
    ensures (before + [EntryOpen, PrimaryHtml(format(Trim(lines[i]))), SecondaryHtml(format(Trim(lines[i + 1]))), EntryClose])
            + Emit(Classify(lines, i + 2), false, format) == target
  {
    var bs := Classify(lines, i);
    assert bs[0] == Entry(Trim(lines[i]), Trim(lines[i + 1])) && bs[1..] == Classify(lines, i + 2);
    KeepOther(bs, before, false, target, format);
    assert before + Close(false) == before;
  }

  /** One step of the loop on a line that is neither a list line nor an entry, with no
      list open: write a subheading or a paragraph. */
  lemma KeepLine(lines: seq<string>, i: nat, before: seq<string>, target: seq<string>, format: string -> string)
    requires i < |lines| && var t := Trim(lines[i]); t != [] && !IsListLine(t)
    requires !EntryAt(lines, i)
    requires before + Emit(Classify(lines, i), false, format) == target
    ensures (before + [if LeadsList(lines, i) then SubheadingHtml(format(Trim(lines[i])))
                       else ParagraphHtml(format(Trim(lines[i])))])
            + Emit(Classify(lines, i + 1), false, format) == target
  {
    var t := Trim(lines[i]);
    var bs := Classify(lines, i);
    assert bs[0] == (if LeadsList(lines, i) then Subheading(t) else Paragraph(t)) && bs[1..] == Classify(lines, i + 1);
    KeepOther(bs, before, false, target, format);
    assert before + Close(false) == before;
  }

  lemma NextContentSkip(lines: seq<string>, j: nat)
    requires j < |lines| && Trim(lines[j]) == []
    ensures NextContent(lines, j) == NextContent(lines, j + 1)
  {
  }

  // ---------------------------------------------------------------------------
  // The classification rules

  /** A line becomes an entry, and the line after it is consumed with it, exactly when it
      is a non-blank, non-list line whose next line is non-blank, not a list line and a
      role line, and the line after that is not a list line. */
  lemma ClassifyEntry(lines: seq<string>, i: nat)
    requires i < |lines|
    ensures var t, bs := Trim(lines[i]), Classify(lines, i);
      bs[0].Entry? <==>
        t != [] && !IsListLine(t) && i + 1 < |lines|
        && Trim(lines[i + 1]) != [] && !IsListLine(Trim(lines[i + 1])) && IsRoleLine(Trim(lines[i + 1]))
        && !(i + 2 < |lines| && IsListLine(Trim(lines[i + 2])))
    ensures var bs := Classify(lines, i);
      bs[0].Entry? ==> bs == [Entry(Trim(lines[i]), Trim(lines[i + 1]))] + Classify(lines, i + 2)
  {
  }

  /** The first non-blank line after line `i` exists and is a list line. */
  predicate FirstLaterIsList(lines: seq<string>, i: nat) {
    exists j :: i < j < |lines| && Trim(lines[j]) != [] && IsListLine(Trim(lines[j]))
      && forall k :: i < k < j ==> Trim(lines[k]) == []
  }

  lemma LeadsListIff(lines: seq<string>, i: nat)
    ensures LeadsList(lines, i) <==> FirstLaterIsList(lines, i)
  {
    match NextContent(lines, i + 1)
    case Some(j) =>
      if FirstLaterIsList(lines, i) {
        var j' :| i < j' < |lines| && Trim(lines[j']) != [] && IsListLine(Trim(lines[j']))
          && forall k :: i < k < j' ==> Trim(lines[k]) == [];
        assert j' == j;
      }
    case None =>
  }

  /** A non-blank, non-list line that is not an entry becomes a subheading exactly when the
      first non-blank line after it is a list line, and a paragraph otherwise. */
  lemma ClassifySubheading(lines: seq<string>, i: nat)
    requires i < |lines|
    requires var t := Trim(lines[i]); t != [] && !IsListLine(t)
    requires !Classify(lines, i)[0].Entry?
    ensures Classify(lines, i)[0] == Subheading(Trim(lines[i])) <==> FirstLaterIsList(lines, i)
    ensures Classify(lines, i)[0] == Paragraph(Trim(lines[i])) <==> !FirstLaterIsList(lines, i)
  {
    LeadsListIff(lines, i);
  }

  /** A blank line is a gap and a list line an item holding the text after its first two
      characters. */
  lemma ClassifyListLine(lines: seq<string>, i: nat)
    requires i < |lines|
    ensures Trim(lines[i]) == [] <==> Classify(lines, i)[0] == Gap
    ensures IsListLine(Trim(lines[i])) <==> Classify(lines, i)[0].Item?
    ensures IsListLine(Trim(lines[i])) ==> Classify(lines, i)[0].text == Trim(lines[i])[2..]
  {
  }

  /** A title line, a role line and a bullet: the role line is followed by a list, so the
      title is not an entry; it is a paragraph, and the role line is a subheading. */
  lemma TitleRoleBullet(title: string, role: string, bullet: string)
    requires Trim(title) == title && title != [] && !IsListLine(title)
    requires Trim(role) == role && role != [] && !IsListLine(role) && IsRoleLine(role)
    requires Trim(bullet) == bullet && IsListLine(bullet)
    ensures Classify([title, role, bullet], 0) == [Paragraph(title), Subheading(role), Item(bullet[0], bullet[2..])]
  {
    var lines := [title, role, bullet];
    assert lines[0] == title && lines[1] == role && lines[2] == bullet;
    assert Classify(lines, 3) == [];
    assert Classify(lines, 2) == [Item(bullet[0], bullet[2..])];
    assert !EntryAt(lines, 1) && NextContent(lines, 2) == Some(2);
    assert Classify(lines, 1) == [Subheading(role)] + Classify(lines, 2);
    assert !EntryAt(lines, 0) && NextContent(lines, 1) == Some(1);
  }

  // ---------------------------------------------------------------------------
  // Nothing lost, nothing out of order

  /** The blocks hold the non-blank trimmed lines, each once, in order. */
  lemma {:induction false} ClassifyKeepsLines(lines: seq<string>, i: nat)
    requires i <= |lines|
    ensures Flatten(Classify(lines, i)) == Contentful(lines, i)
    decreases |lines| - i
  {
    if i < |lines| {
      var next := ClassifyNext(lines, i);
      ClassifyKeepsLines(lines, next);
      HeadLines(lines, i);
    }
  }

  /** Where the blocks after the first one start. */
  lemma ClassifyNext(lines: seq<string>, i: nat) returns (next: nat)
    requires i < |lines|
    ensures next == (if Classify(lines, i)[0].Entry? then i + 2 else i + 1) && next <= |lines|
    ensures Classify(lines, i) == [Classify(lines, i)[0]] + Classify(lines, next)
  {
    next := if Classify(lines, i)[0].Entry? then i + 2 else i + 1;
  }

  /** The lines of the first block are the non-blank trimmed lines it covers. */
  lemma HeadLines(lines: seq<string>, i: nat)
    requires i < |lines|
    ensures var next := if Classify(lines, i)[0].Entry? then i + 2 else i + 1;
      next <= |lines| && Contentful(lines, i) == BlockLines(Classify(lines, i)[0]) + Contentful(lines, next)
  {
    var t := Trim(lines[i]);
    if t != [] && IsListLine(t) {
      assert [t[0], ' '] + t[2..] == t;
    } else if t != [] && EntryAt(lines, i) {
      assert Contentful(lines, i + 1) == [Trim(lines[i + 1])] + Contentful(lines, i + 2);
    }
  }

  /** Every block is of the kind its lines call for. */
  lemma {:induction false} ClassifyWellClassified(lines: seq<string>, i: nat)
    requires i <= |lines|
    ensures forall k :: 0 <= k < |Classify(lines, i)| ==> WellClassified(Classify(lines, i)[k])
    decreases |lines| - i
  {
    if i < |lines| {
      var t := Trim(lines[i]);
      var bs := Classify(lines, i);
      var next := if !IsListLine(t) && t != [] && EntryAt(lines, i) then i + 2 else i + 1;
      ClassifyWellClassified(lines, next);
      assert bs[1..] == Classify(lines, next);
      if t != [] && IsListLine(t) {
        assert [t[0], ' '] + t[2..] == t;
      }
      assert WellClassified(bs[0]);
      assert forall k :: 1 <= k < |bs| ==> bs[k] == bs[1..][k - 1];
    }
  }

  /** The texts of the items, in order. */
  function ItemTexts(bs: seq<Block>): seq<string>
    decreases |bs|
  {
    if bs == [] then []
    else (if bs[0].Item? then [bs[0].text] else []) + ItemTexts(bs[1..])
  }

  /** What follows `* ` or `- ` on each list line from `i` on, in order. */
  function ListTexts(lines: seq<string>, i: nat): seq<string>
    requires i <= |lines|
    decreases |lines| - i
  {
    if i == |lines| then []
    else (if IsListLine(Trim(lines[i])) then [Trim(lines[i])[2..]] else []) + ListTexts(lines, i + 1)
  }

  /** Every list line yields exactly one item, in order, holding the line minus its first
      two characters: the line an entry consumes is never a list line. */
  lemma {:induction false} ClassifyItems(lines: seq<string>, i: nat)
    requires i <= |lines|
    ensures ItemTexts(Classify(lines, i)) == ListTexts(lines, i)
    decreases |lines| - i
  {
    if i < |lines| {
      var t := Trim(lines[i]);
      var bs := Classify(lines, i);
      if t != [] && !IsListLine(t) && EntryAt(lines, i) {
        ClassifyItems(lines, i + 2);
        assert bs[1..] == Classify(lines, i + 2);
        assert ListTexts(lines, i + 1) == ListTexts(lines, i + 2);
      } else {
        ClassifyItems(lines, i + 1);
        assert bs[1..] == Classify(lines, i + 1);
      }
    }
  }

  // ---------------------------------------------------------------------------
  // Lists in the output

  predicate IsItemLine(line: string) {
    StartsWith(line, "<li>")
  }

  /** Read left to right, the lines open a list only when none is open, close one only
      when one is open, put items only inside a list and everything else only outside
      one, and leave no list open at the end. */
  predicate WellNested(out: seq<string>, open: bool)
    decreases |out|
  {
    if out == [] then !open
    else if out[0] == ListOpen then !open && WellNested(out[1..], true)
    else if out[0] == ListClose then open && WellNested(out[1..], false)
    else if IsItemLine(out[0]) then open && WellNested(out[1..], true)
    else !open && WellNested(out[1..], false)
  }

  /** A line outside any list: neither a list tag nor an item. */
  predicate OutsideLine(line: string) {
    line != ListOpen && line != ListClose && !IsItemLine(line)
  }

  /** Every one of the lines is outside any list. */
  predicate AllOutside(out: seq<string>)
    decreases |out|
  {
    out == [] || (OutsideLine(out[0]) && AllOutside(out[1..]))
  }

  /** The lines of entries, subheadings and paragraphs are outside any list. */
  lemma OutsideLines(h: string)
    ensures OutsideLine(EntryOpen) && OutsideLine(EntryClose)
    ensures OutsideLine(PrimaryHtml(h)) && OutsideLine(SecondaryHtml(h))
    ensures OutsideLine(SubheadingHtml(h)) && OutsideLine(ParagraphHtml(h))
  {
    ParagraphLine("<p class=\"entry-primary\">", h);
    ParagraphLine("<p class=\"entry-secondary\">", h);
    ParagraphLine("<p class=\"subheading\">", h);
    ParagraphLine("<p>", h);
    assert EntryOpen[1] == 'd' && EntryClose[2] == 'd';
  }

  /** A line that opens a `<p` element is outside any list. */
  lemma ParagraphLine(open: string, h: string)
    requires |open| >= 2 && open[..2] == "<p"
    ensures OutsideLine(open + h + "</p>")
  {
    assert (open + h + "</p>")[1] == 'p';
  }

  /** An item line is one, and is not a list tag. */
  lemma ItemLineShape(h: string)
    ensures IsItemLine(ItemHtml(h)) && ItemHtml(h) != ListOpen && ItemHtml(h) != ListClose
  {
    assert ItemHtml(h)[1] == 'l';
  }

  lemma OutsideCons(x: string, rest: seq<string>)
    requires OutsideLine(x) && AllOutside(rest)
    ensures AllOutside([x] + rest)
  {
    assert ([x] + rest)[1..] == rest;
  }

  /** The lines of a block other than an item are all outside any list. */
  lemma BlockOutOutside(b: Block, format: string -> string)
    requires !b.Item?
    ensures AllOutside(BlockOut(b, format))
  {
    match b
    case Gap =>
    case Entry(p, s) =>
      OutsideLines(format(p));
      OutsideLines(format(s));
      OutsideCons(EntryClose, []);
      OutsideCons(SecondaryHtml(format(s)), [EntryClose]);
      OutsideCons(PrimaryHtml(format(p)), [SecondaryHtml(format(s)), EntryClose]);
      OutsideCons(EntryOpen, [PrimaryHtml(format(p)), SecondaryHtml(format(s)), EntryClose]);
      assert [EntryClose] == [EntryClose] + [];
    case Subheading(t) =>
      OutsideLines(format(t));
      OutsideCons(SubheadingHtml(format(t)), []);
    case Paragraph(t) =>
      OutsideLines(format(t));
      OutsideCons(ParagraphHtml(format(t)), []);
  }

  lemma NestedOutside(outside: seq<string>, rest: seq<string>)
    requires AllOutside(outside)
    requires WellNested(rest, false)
    ensures WellNested(outside + rest, false)
    decreases |outside|
  {
    if outside != [] {
      NestedOutside(outside[1..], rest);
      assert (outside + rest)[1..] == outside[1..] + rest;
    } else {
      assert outside + rest == rest;
    }
  }

  lemma NestedClose(inList: bool, rest: seq<string>)
    requires WellNested(rest, false)
    ensures WellNested(Close(inList) + rest, inList)
  {
    if inList {
      assert (Close(inList) + rest)[1..] == rest;
    } else {
      assert Close(inList) + rest == rest;
    }
  }

  /** Emitting keeps lists well nested, whatever the blocks. */
  lemma {:induction false} EmitNested(bs: seq<Block>, inList: bool, format: string -> string)
    ensures WellNested(Emit(bs, inList, format), inList)
    decreases |bs|
  {
    if bs != [] {
      var rest := bs[1..];
      if bs[0].Item? {
        var h := ItemHtml(format(bs[0].text));
        EmitNested(rest, true, format);
        ItemLineShape(format(bs[0].text));
        var e := Emit(rest, true, format);
        assert ([h] + e)[1..] == e;
        if !inList {
          assert ([ListOpen] + ([h] + e))[1..] == [h] + e;
        } else {
          assert Opening(inList) + ([h] + e) == [h] + e;
        }
      } else {
        EmitNested(rest, false, format);
        BlockOutOutside(bs[0], format);
        NestedOutside(BlockOut(bs[0], format), Emit(rest, false, format));
        NestedClose(inList, BlockOut(bs[0], format) + Emit(rest, false, format));
      }
    }
  }

  /** The item lines of the output, in order. */
  function ItemLines(out: seq<string>): seq<string>
    decreases |out|
  {
    if out == [] then []
    else (if IsItemLine(out[0]) then [out[0]] else []) + ItemLines(out[1..])
  }

  /** The item lines that texts become. */
  function ItemsHtml(texts: seq<string>, format: string -> string): seq<string>
    decreases |texts|
  {
    if texts == [] then [] else [ItemHtml(format(texts[0]))] + ItemsHtml(texts[1..], format)
  }

  lemma ItemLinesAppend(a: seq<string>, b: seq<string>)
    ensures ItemLines(a + b) == ItemLines(a) + ItemLines(b)
    decreases |a|
  {
    if a != [] {
      ItemLinesAppend(a[1..], b);
      assert (a + b)[1..] == a[1..] + b;
    } else {
      assert a + b == b;
    }
  }

  /** Neither list tag is an item line. */
  lemma ListTagsNoItems(inList: bool)
    ensures ItemLines(Close(inList)) == [] && ItemLines(Opening(inList)) == []
  {
    assert ListOpen[1] == 'u' && ListClose[1] == '/';
    assert !IsItemLine(ListOpen) && !IsItemLine(ListClose);
    assert [ListOpen][1..] == [] && [ListClose][1..] == [];
  }

  lemma ItemLinesOutside(outside: seq<string>)
    requires AllOutside(outside)
    ensures ItemLines(outside) == []
    decreases |outside|
  {
    if outside != [] {
      ItemLinesOutside(outside[1..]);
    }
  }

  /** Each item becomes exactly one `<li>` line, in order, and no other line is one. */
  lemma {:induction false} EmitItems(bs: seq<Block>, inList: bool, format: string -> string)
    ensures ItemLines(Emit(bs, inList, format)) == ItemsHtml(ItemTexts(bs), format)
    decreases |bs|
  {
    ListTagsNoItems(inList);
    if bs != [] {
      var rest := bs[1..];
      EmitItems(rest, bs[0].Item?, format);
      var e := Emit(rest, bs[0].Item?, format);
      if bs[0].Item? {
        var x := bs[0].text;
        ItemLineShape(format(x));
        ItemLinesAppend(Opening(inList), [ItemHtml(format(x))] + e);
        ItemLinesAppend([ItemHtml(format(x))], e);
        assert ItemTexts(bs) == [x] + ItemTexts(rest);
      } else {
        BlockOutOutside(bs[0], format);
        ItemLinesOutside(BlockOut(bs[0], format));
        ItemLinesAppend(Close(inList), BlockOut(bs[0], format) + e);
        ItemLinesAppend(BlockOut(bs[0], format), e);
        assert ItemTexts(bs) == ItemTexts(rest);
      }
    }
  }

  // ---------------------------------------------------------------------------
  // The whole body

  /** The output lines of a body. */
  function ContentLines(content: string): seq<string> {
    Emit(Classify(Lines(Trim(content)), 0), false, ApplyInlineMarkdown)
  }

  /** In the lines of any body, lists are well nested, and the `<li>` lines are exactly
      the list lines' texts, formatted, in order. */
  lemma ContentLists(content: string)
    ensures WellNested(ContentLines(content), false)
    ensures ItemLines(ContentLines(content)) == ItemsHtml(ListTexts(Lines(Trim(content)), 0), ApplyInlineMarkdown)
  {
    var lines := Lines(Trim(content));
    EmitNested(Classify(lines, 0), false, ApplyInlineMarkdown);
    EmitItems(Classify(lines, 0), false, ApplyInlineMarkdown);
    ClassifyItems(lines, 0);
  }

  /** A body of white space alone renders as nothing. */
  lemma BlankContent(content: string)
    requires AllSpace(content)
    ensures ContentHtml(content) == []
  {
    TrimBlank(content);
    if content != [] {
      var lines := Lines(Trim(content));
      assert lines == [[]];
      assert Classify(lines, 1) == [];
      assert Classify(lines, 0) == [Gap];
      assert Emit([Gap], false, ApplyInlineMarkdown) == [];
    }
  }
}
