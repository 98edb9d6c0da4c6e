/** Global regular-expression replacement as the renderer uses it, modelled as explicit
    left-to-right scanners over strings.

    A global `replace` with a pattern `d1(.*?)d1|d2(.*?)d2|…` is modelled by `Substitute`:
    at each position it tries the alternatives in order, takes the shortest content that
    the closing delimiter ends, and otherwise copies one character and moves on. */
module Regex {
  import opened JsText

  /** `s.replace(/c/g, rep)` for a single character `c`. */
  function ReplaceChar(s: string, c: char, rep: string): (r: string)
    ensures c !in rep ==> c !in r
    ensures c !in s ==> r == s
    decreases |s|
  {
    if s == [] then []
    else
      var rest := ReplaceChar(s[1..], c, rep);
      assert c !in s ==> c !in s[1..] && s == [s[0]] + s[1..];
      (if s[0] == c then rep else [s[0]]) + rest
  }

  /** Replacing brings in no character that is neither in the text nor in the replacement. */
  lemma {:induction false} ReplaceCharKeeps(s: string, c: char, rep: string, e: char)
    requires e !in s && e !in rep
    ensures e !in ReplaceChar(s, c, rep)
    decreases |s|
  {
    if s != [] {
      assert s[0] in s && forall x :: x in s[1..] ==> x in s;
      ReplaceCharKeeps(s[1..], c, rep, e);
    }
  }

  lemma {:induction false} ReplaceCharAppend(a: string, b: string, c: char, rep: string)
    ensures ReplaceChar(a + b, c, rep) == ReplaceChar(a, c, rep) + ReplaceChar(b, c, rep)
    decreases |a|
  {
    if a == [] {
      assert a + b == b;
    } else {
      assert (a + b)[0] == a[0];
      assert (a + b)[1..] == a[1..] + b;
      ReplaceCharAppend(a[1..], b, c, rep);
    }
  }

  /** After an opening delimiter `d` at the start of `s`, the closing `d` sits at `q`, and
      the group `(.*?)` may take `s[|d|..q]`: no line terminator in it unless `spanLines`
      (the `[\s\S]*?` form). */
  predicate Closes(s: string, d: string, spanLines: bool, q: nat) {
    |d| <= q && q + |d| <= |s| && s[q..q + |d|] == d
    && (spanLines || forall j :: |d| <= j < q ==> !IsLineTerminator(s[j]))
  }

  /** The lazy quantifier: searching from `q` on, the first position where `d` closes the
      span, if the span can be closed at all. */
  function FindClose(s: string, d: string, spanLines: bool, q: nat): (r: Option<nat>)
    requires d != []
    ensures r.Some? ==> q <= r.value && r.value + |d| <= |s|
    decreases |s| - q
  {
    if q + |d| <= |s| && s[q..q + |d|] == d then Some(q)
    else if q >= |s| || (!spanLines && IsLineTerminator(s[q])) then None
    else FindClose(s, d, spanLines, q + 1)
  }

  /** What `FindClose` finds, started where the content begins, closes the span. */
  lemma {:induction false} FindCloseCloses(s: string, d: string, spanLines: bool, q: nat)
    requires d != [] && |d| <= q
    requires spanLines || forall j :: |d| <= j < q && j < |s| ==> !IsLineTerminator(s[j])
    ensures var r := FindClose(s, d, spanLines, q); r.Some? ==> Closes(s, d, spanLines, r.value)
    decreases |s| - q
  {
    if !(q + |d| <= |s| && s[q..q + |d|] == d) && q < |s| && (spanLines || !IsLineTerminator(s[q])) {
      FindCloseCloses(s, d, spanLines, q + 1);
    }
  }

  /** `FindClose` finds the nearest close. */
  lemma {:induction false} FindCloseNearest(s: string, d: string, spanLines: bool, q: nat)
    requires d != []
    ensures var r := FindClose(s, d, spanLines, q);
      r.Some? ==> forall c: nat :: q <= c < r.value ==> !Closes(s, d, spanLines, c)
    decreases |s| - q
  {
    if !(q + |d| <= |s| && s[q..q + |d|] == d) && q < |s| && (spanLines || !IsLineTerminator(s[q])) {
      assert !Closes(s, d, spanLines, q);
      FindCloseNearest(s, d, spanLines, q + 1);
    }
  }

  /** `FindClose` gives up only when the span cannot be closed from `q` on. */
  lemma {:induction false} FindCloseNone(s: string, d: string, spanLines: bool, q: nat)
    requires d != [] && |d| <= q
    ensures FindClose(s, d, spanLines, q).None? ==> forall c: nat :: q <= c ==> !Closes(s, d, spanLines, c)
    decreases |s| - q
  {
    if !(q + |d| <= |s| && s[q..q + |d|] == d) && q < |s| && (spanLines || !IsLineTerminator(s[q])) {
      FindCloseNone(s, d, spanLines, q + 1);
    }
  }

  /** A span opened by `d` at the start of `s` and closed at `q`. */
  predicate OpensAt(s: string, d: string, spanLines: bool, q: nat) {
    d <= s && Closes(s, d, spanLines, q)
  }

  predicate NonEmptyAll(alts: seq<string>) {
    forall i :: 0 <= i < |alts| ==> alts[i] != []
  }

  /** Every delimiter is non-empty and made of `marks`. */
  predicate DelimitersIn(alts: seq<string>, marks: set<char>) {
    forall i :: 0 <= i < |alts| ==> alts[i] != [] && forall k :: 0 <= k < |alts[i]| ==> alts[i][k] in marks
  }

  /** Regular-expression alternation at the start of `s`: the first alternative (from `a`
      on) that has any match, and where its shortest match closes. */
  function MatchAt(s: string, alts: seq<string>, spanLines: bool, a: nat): (r: Option<(nat, nat)>)
    requires NonEmptyAll(alts)
    ensures r.Some? ==> a <= r.value.0 < |alts|
    ensures r.Some? ==> |alts[r.value.0]| <= r.value.1 && r.value.1 + |alts[r.value.0]| <= |s|
    decreases |alts| - a
  {
    if a >= |alts| then None
    else
      var d := alts[a];
      var close := if |d| <= |s| && s[..|d|] == d then FindClose(s, d, spanLines, |d|) else None;
      if close.Some? then Some((a, close.value))
      else MatchAt(s, alts, spanLines, a + 1)
  }

  /** The alternative `MatchAt` picks opens a span that closes where it says. */
  lemma {:induction false} MatchAtOpens(s: string, alts: seq<string>, spanLines: bool, a: nat, i: nat, q: nat)
    requires NonEmptyAll(alts)
    requires MatchAt(s, alts, spanLines, a) == Some((i, q))
    ensures OpensAt(s, alts[i], spanLines, q)
    decreases |alts| - a
  {
    var d := alts[a];
    if |d| <= |s| && s[..|d|] == d && FindClose(s, d, spanLines, |d|).Some? {
      FindCloseCloses(s, d, spanLines, |d|);
    } else {
      MatchAtOpens(s, alts, spanLines, a + 1, i, q);
    }
  }

  /** The match `MatchAt` picks is the shortest one for its alternative, as with the lazy
      `(.*?)`. */
  lemma {:induction false} MatchAtShortest(s: string, alts: seq<string>, spanLines: bool, a: nat, i: nat, q: nat)
    requires NonEmptyAll(alts)
    requires MatchAt(s, alts, spanLines, a) == Some((i, q))
    ensures forall c: nat :: c < q ==> !OpensAt(s, alts[i], spanLines, c)
    decreases |alts| - a
  {
    var d := alts[a];
    if |d| <= |s| && s[..|d|] == d && FindClose(s, d, spanLines, |d|).Some? {
      FindCloseNearest(s, d, spanLines, |d|);
    } else {
      MatchAtShortest(s, alts, spanLines, a + 1, i, q);
    }
  }

  /** The alternative at `a` matches nowhere when its opening delimiter is missing or its
      span cannot be closed. */
  lemma AlternativeFails(s: string, d: string, spanLines: bool)
    requires d != []
    requires !(|d| <= |s| && s[..|d|] == d) || FindClose(s, d, spanLines, |d|).None?
    ensures forall c: nat :: !OpensAt(s, d, spanLines, c)
  {
    if |d| <= |s| && s[..|d|] == d {
      FindCloseNone(s, d, spanLines, |d|);
    }
  }

  /** No alternative before the one `MatchAt` picks matches at all: the alternation is
      tried in order. */
  lemma {:induction false} MatchAtFirst(s: string, alts: seq<string>, spanLines: bool, a: nat, i: nat, q: nat)
    requires NonEmptyAll(alts)
    requires MatchAt(s, alts, spanLines, a) == Some((i, q))
    ensures forall j, c: nat :: a <= j < i ==> !OpensAt(s, alts[j], spanLines, c)
    decreases |alts| - a
  {
    var d := alts[a];
    if !(|d| <= |s| && s[..|d|] == d && FindClose(s, d, spanLines, |d|).Some?) {
      AlternativeFails(s, d, spanLines);
      MatchAtFirst(s, alts, spanLines, a + 1, i, q);
    }
  }

  /** When `MatchAt` picks nothing, no alternative matches. */
  lemma {:induction false} MatchAtNone(s: string, alts: seq<string>, spanLines: bool, a: nat)
    requires NonEmptyAll(alts)
    ensures MatchAt(s, alts, spanLines, a).None? ==> forall i, c: nat :: a <= i < |alts| ==> !OpensAt(s, alts[i], spanLines, c)
    decreases |alts| - a
  {
    if a < |alts| {
      var d := alts[a];
      if !(|d| <= |s| && s[..|d|] == d) || FindClose(s, d, spanLines, |d|).None? {
        AlternativeFails(s, d, spanLines);
        MatchAtNone(s, alts, spanLines, a + 1);
      }
    }
  }

  // ---------------------------------------------------------------------------
  // A global replacement: the matches, then the text written for them

  /** What a global `replace` sees in the text: single characters it copies, and spans
      `delim + content + delim` that it replaces. */
  datatype Token = Chr(c: char) | Span(delim: string, content: string)

  /** The text a token stands for in the input. */
  function SourceOf(t: Token): string {
    match t
    case Chr(c) => [c]
    case Span(d, content) => d + content + d
  }

  /** The input text a token sequence was read from. */
  function Source(ts: seq<Token>): string
    decreases |ts|
  {
    if ts == [] then [] else SourceOf(ts[0]) + Source(ts[1..])
  }

  /** The text written for a token: a span becomes `open + content + close`. */
  function RenderOf(t: Token, open: string, close: string): string {
    match t
    case Chr(c) => [c]
    case Span(_, content) => open + (content + close)
  }

  function Render(ts: seq<Token>, open: string, close: string): string
    decreases |ts|
  {
    if ts == [] then [] else RenderOf(ts[0], open, close) + Render(ts[1..], open, close)
  }

  /** `t` uses none of the `marks`. */
  predicate Avoids(t: string, marks: set<char>) {
    forall k :: 0 <= k < |t| ==> t[k] !in marks
  }

  lemma AvoidsConcat(a: string, b: string, marks: set<char>)
    requires Avoids(a, marks) && Avoids(b, marks)
    ensures Avoids(a + b, marks)
  {
    assert forall k :: |a| <= k < |a + b| ==> (a + b)[k] == b[k - |a|];
  }

  /** Every span's delimiter is non-empty and made of `marks`. */
  predicate SpansIn(ts: seq<Token>, marks: set<char>) {
    forall i :: 0 <= i < |ts| && ts[i].Span? ==>
      ts[i].delim != [] && forall k :: 0 <= k < |ts[i].delim| ==> ts[i].delim[k] in marks
  }

  lemma SourceCons(t: Token, ts: seq<Token>)
    ensures Source([t] + ts) == SourceOf(t) + Source(ts)
  {
    assert ([t] + ts)[1..] == ts;
  }

  lemma RenderCons(t: Token, ts: seq<Token>, open: string, close: string)
    ensures Render([t] + ts, open, close) == RenderOf(t, open, close) + Render(ts, open, close)
  {
    assert ([t] + ts)[1..] == ts;
  }

  /** A text that starts with `d` and holds `d` again after `k` more characters is the
      delimiter, the content, the delimiter, and the rest. */
  lemma SpanSplit(s: string, d: string, q: nat)
    requires |d| <= q && q + |d| <= |s| && s[..|d|] == d && s[q..q + |d|] == d
    ensures s == d + s[|d|..q] + d + s[q + |d|..]
  {
    var n := |d|;
    assert s[..q + n] == d + s[n..q] + d;
    assert s == s[..q + n] + s[q + n..];
  }

  /** The regular-expression engine's left-to-right scan: at each position the
      leftmost-shortest match of `MatchAt`, or else one character. */
  function Tokenize(s: string, alts: seq<string>, spanLines: bool): seq<Token>
    requires NonEmptyAll(alts)
    decreases |s|
  {
    if s == [] then []
    else
      match MatchAt(s, alts, spanLines, 0)
      case Some((i, q)) =>
        var n := |alts[i]|;
        [Span(alts[i], s[n..q])] + Tokenize(s[q + n..], alts, spanLines)
      case None =>
        [Chr(s[0])] + Tokenize(s[1..], alts, spanLines)
  }

  /** The scan loses nothing: reading its tokens back gives the text. */
  lemma {:induction false} TokenizeSource(s: string, alts: seq<string>, spanLines: bool)
    requires NonEmptyAll(alts)
    ensures Source(Tokenize(s, alts, spanLines)) == s
    decreases |s|
  {
    if s != [] {
      match MatchAt(s, alts, spanLines, 0)
      case Some((i, q)) =>
        var d := alts[i];
        var n := |d|;
        var rest := Tokenize(s[q + n..], alts, spanLines);
        TokenizeSource(s[q + n..], alts, spanLines);
        MatchAtOpens(s, alts, spanLines, 0, i, q);
        SpanSplit(s, d, q);
        SourceCons(Span(d, s[n..q]), rest);
      case None =>
        var rest := Tokenize(s[1..], alts, spanLines);
        TokenizeSource(s[1..], alts, spanLines);
        assert s == [s[0]] + s[1..];
        SourceCons(Chr(s[0]), rest);
    }
  }

  /** `s.replace(/d1(.*?)d1|d2(.*?)d2|…/g, open + '$1$2…' + close)`. */
  function Substitute(s: string, alts: seq<string>, spanLines: bool, open: string, close: string): string
    requires NonEmptyAll(alts)
  {
    Render(Tokenize(s, alts, spanLines), open, close)
  }

  /** Every span the scan finds is delimited by one of the alternatives. */
  lemma {:induction false} TokenizeSpans(s: string, alts: seq<string>, spanLines: bool, marks: set<char>)
    requires DelimitersIn(alts, marks)
    ensures SpansIn(Tokenize(s, alts, spanLines), marks)
    decreases |s|
  {
    if s != [] {
      match MatchAt(s, alts, spanLines, 0)
      case Some((i, q)) => TokenizeSpans(s[q + |alts[i]|..], alts, spanLines, marks);
      case None => TokenizeSpans(s[1..], alts, spanLines, marks);
    }
  }

  /** A token sequence whose text starts with a character that no delimiter uses starts
      with a copied character. */
  lemma HeadIsChr(ts: seq<Token>, marks: set<char>)
    requires SpansIn(ts, marks) && ts != [] && Source(ts) != [] && Source(ts)[0] !in marks
    ensures ts[0] == Chr(Source(ts)[0])
  {
    var t := ts[0];
    assert Source(ts) == SourceOf(t) + Source(ts[1..]);
    assert SourceOf(t)[0] == Source(ts)[0];
  }

  /** Where no delimiter occurs anywhere in the text, nothing matches, and a pass leaves
      the text as it is. */
  lemma {:induction false} SubstituteNoMatch(s: string, alts: seq<string>, spanLines: bool, open: string, close: string)
    requires NonEmptyAll(alts)
    requires forall i, k :: 0 <= i < |alts| && 0 <= k <= |s| ==> !(alts[i] <= s[k..])
    ensures Substitute(s, alts, spanLines, open, close) == s
    decreases |s|
  {
    if s != [] {
      assert forall i :: 0 <= i < |alts| ==> !(alts[i] <= s[0..]);
      assert s[0..] == s;
      TokenizeCopy(s, alts, spanLines);
      assert forall k :: 0 <= k <= |s| - 1 ==> s[1..][k..] == s[k + 1..];
      SubstituteNoMatch(s[1..], alts, spanLines, open, close);
      RenderCons(Chr(s[0]), Tokenize(s[1..], alts, spanLines), open, close);
      assert s == [s[0]] + s[1..];
    }
  }

  /** A string that starts with a character absent from `s` occurs nowhere in `s`. */
  lemma AbsentNowhere(s: string, t: string)
    requires t != [] && t[0] !in s
    ensures forall k :: 0 <= k <= |s| ==> !(t <= s[k..])
  {
    assert forall k :: 0 <= k < |s| ==> s[k] in s;
  }

  /** Text between two copies of the delimiter of alternative `i` is one span, replaced
      whole, when the content does not hold the delimiter's first character, may be taken
      by the group, and no earlier alternative occurs in the text. */
  lemma SubstituteWrapped(d: string, c: string, alts: seq<string>, i: nat, spanLines: bool, open: string, close: string)
    requires NonEmptyAll(alts) && i < |alts| && alts[i] == d
    requires d[0] !in c
    requires spanLines || forall k :: 0 <= k < |c| ==> !IsLineTerminator(c[k])
    requires forall j, k :: 0 <= j < i && 0 <= k <= |d + c + d| ==> !(alts[j] <= (d + c + d)[k..])
    ensures Substitute(d + c + d, alts, spanLines, open, close) == open + (c + close)
  {
    var s := d + c + d;
    var n, q := |d|, |d| + |c|;
    assert s[..n] == d && s[n..q] == c && s[q..q + n] == d && s[q + n..] == [];
    assert forall j :: n <= j < q ==> s[j] == c[j - n];
    assert Closes(s, d, spanLines, q);
    forall p: nat | p < q
      ensures !OpensAt(s, d, spanLines, p)
    {
      if n <= p {
        assert s[p] == c[p - n] && c[p - n] in c;
      }
    }
    forall j: nat, p: nat | j < i
      ensures !OpensAt(s, alts[j], spanLines, p)
    {
      assert s[0..] == s;
    }
    TokenizeSpan(s, alts, spanLines, i, q);
    assert Tokenize(s[q + n..], alts, spanLines) == [];
    RenderCons(Span(d, c), [], open, close);
  }

  /** Tokens of text without any delimiter character are written back unchanged. */
  lemma {:induction false} RenderPlain(ts: seq<Token>, open: string, close: string, marks: set<char>)
    requires SpansIn(ts, marks) && Avoids(Source(ts), marks)
    ensures Render(ts, open, close) == Source(ts)
    decreases |ts|
  {
    if ts != [] {
      var t := ts[0];
      assert Source(ts) == SourceOf(t) + Source(ts[1..]);
      HeadIsChr(ts, marks);
      assert Source(ts[1..]) == Source(ts)[1..];
      RenderPlain(ts[1..], open, close, marks);
    }
  }

  /** A replacement pass leaves text without any delimiter character as it is. */
  lemma SubstitutePlain(s: string, alts: seq<string>, spanLines: bool, open: string, close: string, marks: set<char>)
    requires DelimitersIn(alts, marks) && Avoids(s, marks)
    ensures Substitute(s, alts, spanLines, open, close) == s
  {
    TokenizeSpans(s, alts, spanLines, marks);
    TokenizeSource(s, alts, spanLines);
    RenderPlain(Tokenize(s, alts, spanLines), open, close, marks);
  }

  /** A stretch `u` of the text without any delimiter character is read as `|u|` copied
      characters. */
  lemma {:induction false} ChrRunSource(ts: seq<Token>, u: string, x: string, marks: set<char>)
    requires SpansIn(ts, marks) && Source(ts) == u + x && Avoids(u, marks)
    ensures |u| <= |ts| && Source(ts[|u|..]) == x
    ensures forall k :: 0 <= k < |u| ==> ts[k] == Chr(u[k])
    decreases |u|
  {
    if u == [] {
      assert ts[0..] == ts;
    } else {
      assert Source(ts) == SourceOf(ts[0]) + Source(ts[1..]);
      HeadIsChr(ts, marks);
      assert Source(ts[1..]) == Source(ts)[1..];
      assert (u + x)[1..] == u[1..] + x;
      ChrRunSource(ts[1..], u[1..], x, marks);
      assert ts[1..][|u| - 1..] == ts[|u|..];
    }
  }

  /** Copied characters are written back as they are. */
  lemma {:induction false} ChrRunRender(ts: seq<Token>, u: string, open: string, close: string)
    requires |u| <= |ts| && forall k :: 0 <= k < |u| ==> ts[k] == Chr(u[k])
    ensures Render(ts, open, close) == u + Render(ts[|u|..], open, close)
    decreases |u|
  {
    if u == [] {
      assert ts[0..] == ts;
    } else {
      var rest := Render(ts[|u|..], open, close);
      assert ts[1..][|u| - 1..] == ts[|u|..];
      assert forall k :: 0 <= k < |u| - 1 ==> ts[1..][k] == Chr(u[1..][k]);
      ChrRunRender(ts[1..], u[1..], open, close);
      assert RenderOf(ts[0], open, close) == [u[0]];
      calc {
        Render(ts, open, close);
        [u[0]] + Render(ts[1..], open, close);
        [u[0]] + (u[1..] + rest);
        { assert u == [u[0]] + u[1..]; }
        u + rest;
      }
    }
  }

  /** The match the scan picks, told by the regular-expression semantics alone: the first
      alternative that has a match at the start of the text, closed at its shortest. */
  lemma MatchAtIs(s: string, alts: seq<string>, spanLines: bool, i: nat, k: nat)
    requires NonEmptyAll(alts) && i < |alts|
    requires OpensAt(s, alts[i], spanLines, k)
    requires forall c: nat :: c < k ==> !OpensAt(s, alts[i], spanLines, c)
    requires forall j: nat, c: nat :: j < i ==> !OpensAt(s, alts[j], spanLines, c)
    ensures MatchAt(s, alts, spanLines, 0) == Some((i, k))
  {
    MatchAtNone(s, alts, spanLines, 0);
    var m := MatchAt(s, alts, spanLines, 0).value;
    MatchAtOpens(s, alts, spanLines, 0, m.0, m.1);
    MatchAtFirst(s, alts, spanLines, 0, m.0, m.1);
    assert m.0 == i;
    MatchAtShortest(s, alts, spanLines, 0, m.0, m.1);
  }

  /** One step of the scan where an alternative matches. */
  lemma TokenizeMatchStep(s: string, alts: seq<string>, spanLines: bool, i: nat, k: nat)
    requires NonEmptyAll(alts) && MatchAt(s, alts, spanLines, 0) == Some((i, k))
    ensures Tokenize(s, alts, spanLines) == [Span(alts[i], s[|alts[i]|..k])] + Tokenize(s[k + |alts[i]|..], alts, spanLines)
  {
  }

  /** One step of the scan where no alternative matches. */
  lemma TokenizeCopyStep(s: string, alts: seq<string>, spanLines: bool)
    requires NonEmptyAll(alts) && s != [] && MatchAt(s, alts, spanLines, 0).None?
    ensures Tokenize(s, alts, spanLines) == [Chr(s[0])] + Tokenize(s[1..], alts, spanLines)
  {
  }

  /** At the start of the text, the scan reads a span of the first alternative that has
      a match there, with its shortest content, and goes on after the closing delimiter. */
  lemma TokenizeSpan(s: string, alts: seq<string>, spanLines: bool, i: nat, k: nat)
    requires NonEmptyAll(alts) && i < |alts|
    requires OpensAt(s, alts[i], spanLines, k)
    requires forall c: nat :: c < k ==> !OpensAt(s, alts[i], spanLines, c)
    requires forall j: nat, c: nat :: j < i ==> !OpensAt(s, alts[j], spanLines, c)
    ensures |alts[i]| <= k && k + |alts[i]| <= |s|
    ensures Tokenize(s, alts, spanLines) == [Span(alts[i], s[|alts[i]|..k])] + Tokenize(s[k + |alts[i]|..], alts, spanLines)
  {
    MatchAtIs(s, alts, spanLines, i, k);
    TokenizeMatchStep(s, alts, spanLines, i, k);
  }

  /** Where no alternative has a match, the scan copies the character and goes on. */
  lemma TokenizeCopy(s: string, alts: seq<string>, spanLines: bool)
    requires NonEmptyAll(alts) && s != []
    requires forall i: nat, c: nat :: i < |alts| ==> !OpensAt(s, alts[i], spanLines, c)
    ensures Tokenize(s, alts, spanLines) == [Chr(s[0])] + Tokenize(s[1..], alts, spanLines)
  {
    var m := MatchAt(s, alts, spanLines, 0);
    if m.Some? {
      MatchAtOpens(s, alts, spanLines, 0, m.value.0, m.value.1);
    }
    TokenizeCopyStep(s, alts, spanLines);
  }
}
