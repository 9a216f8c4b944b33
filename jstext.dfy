/** Character classes and string helpers with the meaning JavaScript gives them:
    the regular-expression classes `\d` and `\w` (no `u` flag), the line
    terminators that `.`, `^` and `$` respect, and `String.prototype.trim`. */
module JsText {

  /** Line terminators of ECMAScript: `.` never matches one, and with the `m`
      flag `^` and `$` match next to one. */
  predicate IsLineTerminator(c: char) {
    c == '\n' || c == '\r' || c == '\U{2028}' || c == '\U{2029}'
  }

  /** `\d` without the `u` flag: ASCII digits only. */
  predicate IsDigit(c: char) {
    '0' <= c <= '9'
  }

  /** `\w` without the `u` flag: `[A-Za-z0-9_]`. */
  predicate IsWordChar(c: char) {
    IsDigit(c) || 'a' <= c <= 'z' || 'A' <= c <= 'Z' || c == '_'
  }

  /** What `trim` removes: ECMAScript WhiteSpace (tab, vertical tab, form feed,
      space, no-break space, byte order mark and the other space separators)
      and LineTerminator. */
  predicate IsJsWhitespace(c: char) {
    c == '\t' || c == '\U{000B}' || c == '\U{000C}' || c == ' ' || c == '\U{00A0}'
    || c == '\U{FEFF}' || c == '\U{1680}' || ('\U{2000}' <= c <= '\U{200A}')
    || c == '\U{202F}' || c == '\U{205F}' || c == '\U{3000}'
    || IsLineTerminator(c)
  }

  predicate NoLineTerminator(s: string) {
    forall i :: 0 <= i < |s| ==> !IsLineTerminator(s[i])
  }

  predicate AllWhitespace(s: string) {
    forall i :: 0 <= i < |s| ==> IsJsWhitespace(s[i])
  }

  /** `w` occurs in `s` starting at index `i`. */
  predicate OccursAt(s: string, i: nat, w: string) {
    i + |w| <= |s| && s[i..i + |w|] == w
  }

  ghost predicate Contains(s: string, w: string) {
    exists i: nat :: OccursAt(s, i, w)
  }

  /** Regrouping a concatenation of three strings. */
  lemma AppendAssoc(a: string, b: string, c: string)
    ensures a + (b + c) == (a + b) + c
  {
  }

  /** A sequence is what comes before index `i`, the element at `i`, and
      what comes after. */
  lemma SplitAround<T>(s: seq<T>, i: nat)
    requires i < |s|
    ensures s == s[..i] + [s[i]] + s[i + 1..]
  {
  }

  /** A string occurs in any concatenation it is the middle of. */
  lemma OccursInMiddle(a: string, w: string, b: string)
    ensures OccursAt(a + w + b, |a|, w) && Contains(a + w + b, w)
  {
    var s := a + w + b;
    assert s[|a|..|a| + |w|] == w;
    assert OccursAt(s, |a|, w);
  }

  /** `d` is exactly `\d{4}-\d{2}-\d{2}`. */
  predicate IsDate(d: string) {
    |d| == 10
    && IsDigit(d[0]) && IsDigit(d[1]) && IsDigit(d[2]) && IsDigit(d[3])
    && d[4] == '-' && IsDigit(d[5]) && IsDigit(d[6])
    && d[7] == '-' && IsDigit(d[8]) && IsDigit(d[9])
  }

  /** A date holds neither a line terminator nor whitespace. */
  lemma DateIsPlain(d: string)
    requires IsDate(d)
    ensures NoLineTerminator(d)
    ensures forall i :: 0 <= i < |d| ==> !IsJsWhitespace(d[i])
  {
  }

  /** Length of the first line of `s`: the index of its first line terminator,
      or `|s|` when it has none. */
  function LineEnd(s: string): (n: nat)
    ensures n <= |s|
    ensures NoLineTerminator(s[..n])
    ensures n < |s| ==> IsLineTerminator(s[n])
  {
    if s == [] || IsLineTerminator(s[0]) then 0 else 1 + LineEnd(s[1..])
  }

  /** Length of the longest prefix of `s` made of `\w` characters. */
  function WordRunLength(s: string): (n: nat)
    ensures n <= |s|
    ensures forall i :: 0 <= i < n ==> IsWordChar(s[i])
    ensures n < |s| ==> !IsWordChar(s[n])
  {
    if s == [] || !IsWordChar(s[0]) then 0 else 1 + WordRunLength(s[1..])
  }

  /** The first line of `s`, without its terminator. */
  function FirstLine(s: string): (line: string)
    ensures NoLineTerminator(line)
  {
    s[..LineEnd(s)]
  }

  /** The terminator that ends the first line, or nothing on the last line. */
  function LineBreak(s: string): (t: string)
    ensures |t| <= 1 && (t != [] ==> IsLineTerminator(t[0]))
  {
    if LineEnd(s) < |s| then [s[LineEnd(s)]] else []
  }

  /** Everything after the first line and its terminator. */
  function LinesAfter(s: string): (rest: string)
    ensures |rest| < |s| || (s == [] && rest == [])
  {
    if LineEnd(s) < |s| then s[LineEnd(s) + 1..] else []
  }

  /** The lines of `s`, split at every line terminator; an empty last line
      (after a final terminator) is not listed. */
  function Lines(s: string): (ls: seq<string>)
    ensures s != [] ==> |ls| > 0 && ls[0] == FirstLine(s)
    decreases |s|
  {
    if s == [] then [] else [FirstLine(s)] + Lines(LinesAfter(s))
  }

  lemma NoLineTerminatorConcat(a: string, b: string)
    requires NoLineTerminator(a) && NoLineTerminator(b)
    ensures NoLineTerminator(a + b)
  {
  }

  /** A terminator-free prefix lengthens the first line by its length. */
  lemma {:induction false} LineEndConcat(a: string, b: string)
    requires NoLineTerminator(a)
    ensures LineEnd(a + b) == |a| + LineEnd(b)
    decreases |a|
  {
    if a == [] {
      assert a + b == b;
    } else {
      assert (a + b)[0] == a[0];
      assert (a + b)[1..] == a[1..] + b;
      LineEndConcat(a[1..], b);
    }
  }

  /** A string is its first line, the terminator after it and the rest. */
  lemma SplitAtFirstLine(s: string)
    ensures s == FirstLine(s) + LineBreak(s) + LinesAfter(s)
  {
  }

  /** The first line ends exactly where a line terminator (or the end) follows
      a terminator-free prefix. */
  lemma {:induction false} LineEndUnique(s: string, n: nat)
    requires n <= |s| && NoLineTerminator(s[..n])
    requires n == |s| || IsLineTerminator(s[n])
    ensures LineEnd(s) == n
    decreases n
  {
    if n > 0 {
      var t := s[1..];
      assert t[..n - 1] == s[1..n];
      assert n - 1 == |t| || t[n - 1] == s[n];
      LineEndUnique(t, n - 1);
    }
  }

  /** Removing leading whitespace, as `trimStart` does. */
  function TrimStart(s: string): (r: string)
    ensures |r| <= |s| && r == s[|s| - |r|..]
    ensures AllWhitespace(s[..|s| - |r|])
    ensures r == [] || !IsJsWhitespace(r[0])
  {
    if s == [] || !IsJsWhitespace(s[0]) then s
    else
      var r := TrimStart(s[1..]);
      assert s[..|s| - |r|] == [s[0]] + s[1..][..|s| - 1 - |r|];
      r
  }

  /** Removing trailing whitespace, as `trimEnd` does. */
  function TrimEnd(s: string): (r: string)
    ensures |r| <= |s| && r == s[..|r|]
    ensures AllWhitespace(s[|r|..])
    ensures r == [] || !IsJsWhitespace(r[|r| - 1])
  {
    if s == [] || !IsJsWhitespace(s[|s| - 1]) then s
    else
      var r := TrimEnd(s[..|s| - 1]);
      assert s[|r|..] == s[..|s| - 1][|r|..] + [s[|s| - 1]];
      r
  }

  /** `String.prototype.trim`: the string with leading and trailing
      whitespace removed. */
  function Trim(s: string): (r: string)
    ensures exists i: nat, j: nat :: i <= j <= |s| && r == s[i..j]
                                     && AllWhitespace(s[..i]) && AllWhitespace(s[j..])
    ensures r == [] || (!IsJsWhitespace(r[0]) && !IsJsWhitespace(r[|r| - 1]))
  {
    var t := TrimStart(s);
    var r := TrimEnd(t);
    TrimBounds(s, t, r);
    r
  }

  /** Removing whitespace from the front and then the back leaves a slice
      with only whitespace outside it. */
  lemma TrimBounds(s: string, t: string, r: string)
    requires |t| <= |s| && t == s[|s| - |t|..] && AllWhitespace(s[..|s| - |t|])
    requires |r| <= |t| && r == t[..|r|] && AllWhitespace(t[|r|..])
    ensures exists i: nat, j: nat :: i <= j <= |s| && r == s[i..j]
                                     && AllWhitespace(s[..i]) && AllWhitespace(s[j..])
  {
    var i: nat := |s| - |t|;
    var j: nat := i + |r|;
    assert s[i..j] == r;
    assert s[j..] == t[|r|..];
  }

  /** The trimmed string is empty exactly when the whole string is blank:
      the test `!title.trim()` is a blank test. */
  lemma TrimEmptyIffBlank(s: string)
    ensures Trim(s) == [] <==> AllWhitespace(s)
  {
  }

  /** A string that neither starts nor ends with whitespace is its own trim. */
  lemma TrimUnpadded(s: string)
    requires s != [] ==> !IsJsWhitespace(s[0]) && !IsJsWhitespace(s[|s| - 1])
    ensures Trim(s) == s
  {
  }
}
