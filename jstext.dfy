/** The JavaScript string primitives the renderer relies on: `trim`, `split('\n')`,
    `join`, `startsWith`, `endsWith`, and the character classes of regular
    expressions (`\s` and the line terminators that `.` does not match). */
module JsText {

  datatype Option<T> = None | Some(value: T)

  /** ECMAScript LineTerminator: the characters `.` in a regular expression refuses. */
  predicate IsLineTerminator(c: char) {
    c == '\n' || c == '\r' || c == '\U{2028}' || c == '\U{2029}'
  }

  /** ECMAScript WhiteSpace or LineTerminator: what `trim` removes and `\s` matches. */
  predicate IsSpace(c: char) {
    IsLineTerminator(c) || c == '\t' || c == '\U{000B}' || c == '\U{000C}' || c == ' '
    || c == '\U{00A0}' || c == '\U{1680}' || ('\U{2000}' <= c <= '\U{200A}')
    || c == '\U{202F}' || c == '\U{205F}' || c == '\U{3000}' || c == '\U{FEFF}'
  }

  predicate AllSpace(s: string) {
    forall i :: 0 <= i < |s| ==> IsSpace(s[i])
  }

  predicate StartsWith(s: string, prefix: string) {
    prefix <= s
  }

  predicate EndsWith(s: string, suffix: string) {
    |suffix| <= |s| && s[|s| - |suffix|..] == suffix
  }

  /** `s` without its leading white space. */
  function TrimStart(s: string): (r: string)
    ensures |r| <= |s|
    decreases |s|
  {
    if s != [] && IsSpace(s[0]) then TrimStart(s[1..]) else s
  }

  /** `s` without its trailing white space. */
  function TrimEnd(s: string): (r: string)
    ensures |r| <= |s|
    decreases |s|
  {
    if s != [] && IsSpace(s[|s| - 1]) then TrimEnd(s[..|s| - 1]) else s
  }

  /** `String.prototype.trim`: white space removed from both ends. */
  function Trim(s: string): (r: string)
    ensures |r| <= |s|
  {
    TrimEnd(TrimStart(s))
  }

  lemma {:induction false} TrimStartSlice(s: string) returns (a: nat)
    ensures a <= |s| && TrimStart(s) == s[a..] && AllSpace(s[..a])
    ensures a < |s| ==> !IsSpace(s[a])
    decreases |s|
  {
    if s != [] && IsSpace(s[0]) {
      var a' := TrimStartSlice(s[1..]);
      a := a' + 1;
      assert s[1..][a'..] == s[a..];
      assert forall k :: 0 <= k < a ==> s[..a][k] == if k == 0 then s[0] else s[1..][..a'][k - 1];
    } else {
      a := 0;
    }
  }

  lemma {:induction false} TrimEndSlice(s: string) returns (b: nat)
    ensures b <= |s| && TrimEnd(s) == s[..b] && AllSpace(s[b..])
    ensures b > 0 ==> !IsSpace(s[b - 1])
    decreases |s|
  {
    if s != [] && IsSpace(s[|s| - 1]) {
      var init := s[..|s| - 1];
      b := TrimEndSlice(init);
      assert init[..b] == s[..b];
      assert forall k :: 0 <= k < |s| - b ==> s[b..][k] == if k < |init| - b then init[b..][k] else s[|s| - 1];
    } else {
      b := |s|;
    }
  }

  /** What trim keeps is the middle of `s`: only white space is cut from either side, and
      what is kept neither starts nor ends with white space. */
  lemma TrimSlice(s: string) returns (a: nat, b: nat)
    ensures a <= b <= |s| && Trim(s) == s[a..b]
    ensures AllSpace(s[..a]) && AllSpace(s[b..])
    ensures a < b ==> !IsSpace(s[a]) && !IsSpace(s[b - 1])
  {
    a := TrimStartSlice(s);
    var rest := s[a..];
    var c := TrimEndSlice(rest);
    b := a + c;
    assert rest[..c] == s[a..b];
    assert rest[c..] == s[b..];
  }

  /** Trimming leaves nothing exactly when the text is all white space. */
  lemma TrimBlank(s: string)
    ensures Trim(s) == [] <==> AllSpace(s)
  {
    var a, b := TrimSlice(s);
    if a == b {
      assert forall k :: 0 <= k < |s| ==> s[k] == if k < a then s[..a][k] else s[b..][k - b];
    } else {
      assert !IsSpace(s[a]);
    }
  }

  /** `s.split('\n')`: the pieces between newline characters, at least one. */
  function Lines(s: string): (r: seq<string>)
    ensures |r| >= 1
    ensures forall i :: 0 <= i < |r| ==> '\n' !in r[i]
    decreases |s|
  {
    if s == [] then [[]]
    else
      var rest := Lines(s[1..]);
      if s[0] == '\n' then [[]] + rest
      else [[s[0]] + rest[0]] + rest[1..]
  }

  /** `parts.join(sep)`. */
  function Join(parts: seq<string>, sep: string): string
    decreases |parts|
  {
    if parts == [] then []
    else if |parts| == 1 then parts[0]
    else parts[0] + sep + Join(parts[1..], sep)
  }

  /** Splitting at newlines and joining with newlines gives back the text. */
  lemma {:induction false} JoinLines(s: string)
    ensures Join(Lines(s), "\n") == s
    decreases |s|
  {
    if s != [] {
      JoinLines(s[1..]);
      var rest := Lines(s[1..]);
      if s[0] == '\n' {
        assert s == "\n" + s[1..];
      } else if |rest| == 1 {
        assert s == [s[0]] + s[1..];
      } else {
        assert Join(rest, "\n") == rest[0] + "\n" + Join(rest[1..], "\n");
        assert s == [s[0]] + s[1..];
      }
    }
  }

  /** Joining newline-free lines with newlines and splitting again gives back the lines. */
  lemma {:induction false} LinesOfJoin(parts: seq<string>)
    requires |parts| >= 1
    requires forall i :: 0 <= i < |parts| ==> '\n' !in parts[i]
    ensures Lines(Join(parts, "\n")) == parts
    decreases |parts|, |parts[0]|
  {
    var p := parts[0];
    if |parts| == 1 {
      LinesOfLine(p);
    } else if p == [] {
      var tail := Join(parts[1..], "\n");
      assert Join(parts, "\n") == "\n" + tail;
      LinesOfJoin(parts[1..]);
      assert ("\n" + tail)[1..] == tail;
    } else {
      var shorter := [p[1..]] + parts[1..];
      assert shorter[1..] == parts[1..];
      LinesOfJoin(shorter);
      var j := Join(parts, "\n");
      assert j == [p[0]] + Join(shorter, "\n") by {
        assert p == [p[0]] + p[1..];
      }
      assert j[1..] == Join(shorter, "\n");
      assert p[0] != '\n' by { assert p[0] in parts[0]; }
    }
  }

  lemma {:induction false} LinesOfLine(p: string)
    requires '\n' !in p
    ensures Lines(p) == [p]
    decreases |p|
  {
    if p != [] {
      assert p[0] in p;
      assert forall c :: c in p[1..] ==> c in p;
      LinesOfLine(p[1..]);
      assert p == [p[0]] + p[1..];
    }
  }

  lemma AllSpaceAppend(a: string, b: string)
    ensures AllSpace(a + b) <==> AllSpace(a) && AllSpace(b)
  {
    assert forall i :: 0 <= i < |a| ==> (a + b)[i] == a[i];
    assert forall i :: 0 <= i < |b| ==> (a + b)[|a| + i] == b[i];
  }

  /** A text is blank exactly when all its lines are, since the newline is white space. */
  lemma {:induction false} BlankLinesJoin(parts: seq<string>)
    ensures AllSpace(Join(parts, "\n")) <==> forall i :: 0 <= i < |parts| ==> AllSpace(parts[i])
    decreases |parts|
  {
    if |parts| > 1 {
      BlankLinesJoin(parts[1..]);
      AllSpaceAppend(parts[0], "\n");
      AllSpaceAppend(parts[0] + "\n", Join(parts[1..], "\n"));
      assert Join(parts, "\n") == parts[0] + "\n" + Join(parts[1..], "\n");
      assert forall i :: 1 <= i < |parts| ==> parts[i] == parts[1..][i - 1];
    }
  }

  /** Concatenation regroups freely. */
  lemma ConcatAssoc<T>(a: seq<T>, b: seq<T>, c: seq<T>)
    ensures (a + b) + c == a + (b + c)
  {
  }
}
