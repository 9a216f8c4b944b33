/** The body rewriter of helpers.js (`parseHTML`): two global substitutions on
    the raw document body, internal links first and timestamp lines second,
    followed by the markdown renderer, which the model treats as an
    uninterpreted function passed in by the caller. */
module Rewriter {
  import opened Wrappers
  import opened JsText

  // ---------------------------------------------------------------------------
  // Internal links:  /\[\[\.\/(?<filename>(?<date>\d{4}-\d{2}-\d{2})(?<title>.*).md)\]\]/gm
  // ---------------------------------------------------------------------------

  /** `[[./` at the start of `s`. */
  predicate LinkOpenAt(s: string) {
    |s| >= 4 && s[0] == '[' && s[1] == '[' && s[2] == '.' && s[3] == '/'
  }

  /** `md]]` at index `j` of `s`: the end of a link. The `.` before it is
      unescaped and so matches any character but a line terminator. */
  predicate CloseAt(s: string, j: nat) {
    j + 4 <= |s| && s[j] == 'm' && s[j + 1] == 'd' && s[j + 2] == ']' && s[j + 3] == ']'
  }

  /** The groups of one match of the link pattern, and the length it spans. */
  datatype LinkMatch = LinkMatch(length: nat, filename: string, date: string, title: string)

  /** The greatest `q` with `md]]` at `q + 1` and ending by `hi`: where the
      greedy `.*` of the link pattern gives back just enough for `.md]]` to
      match. */
  function LastClose(t: string, hi: nat): (r: Option<nat>)
    requires hi <= |t|
    ensures r.Some? ==> r.value + 5 <= hi && CloseAt(t, r.value + 1)
    ensures r.Some? ==> forall j: nat :: r.value + 1 < j && j + 4 <= hi ==> !CloseAt(t, j)
    ensures r.None? ==> forall j: nat :: 1 <= j && j + 4 <= hi ==> !CloseAt(t, j)
    decreases hi
  {
    if hi < 5 then None
    else if CloseAt(t, hi - 4) then Some(hi - 5)
    else LastClose(t, hi - 1)
  }

  /** The match of the link pattern at the start of `s`, if there is one.
      The pattern looks neither behind nor at line starts, so whether it
      matches at an index depends only on the text from there on. After
      `[[./` and the date, `rest` holds the title, the any-character, `md]]`
      and whatever follows. */
  function LinkPrefix(s: string): (r: Option<LinkMatch>)
    ensures r.Some? ==> 0 < r.value.length <= |s|
  {
    if |s| >= 14 && LinkOpenAt(s) && IsDate(s[4..14]) then
      var rest := s[14..];
      match LastClose(rest, LineEnd(rest))
      case None => None
      case Some(q) => Some(LinkMatch(14 + q + 5, s[4..14] + rest[..q + 3], s[4..14], rest[..q]))
    else None
  }

  /** The replacement the callback returns: an anchor to `/<filename>` whose
      text is the trimmed title, or the date when the title is blank. */
  function Anchor(m: LinkMatch): string {
    AnchorTag(m.filename, AnchorText(m.date, m.title))
  }

  function AnchorTag(filename: string, text: string): string {
    "<a href=\"/" + filename + "\">" + text + "</a>"
  }

  function AnchorText(date: string, title: string): string {
    if Trim(title) == [] then date else Trim(title)
  }

  /** The first `replace`: scan from the left, replace each match and resume
      after it, copy every other character. */
  function RewriteLinks(s: string): string
    decreases |s|
  {
    if s == [] then []
    else match LinkPrefix(s)
      case Some(m) => Anchor(m) + RewriteLinks(s[m.length..])
      case None => [s[0]] + RewriteLinks(s[1..])
  }

  /** One step of the scan where no link starts: the character is copied. */
  lemma CopiedWhenNoLink(s: string)
    requires s != [] && LinkPrefix(s).None?
    ensures RewriteLinks(s) == [s[0]] + RewriteLinks(s[1..])
  {
  }

  /** One step of the scan where a link starts: it is replaced by its anchor. */
  lemma ReplacedWhenLink(s: string, m: LinkMatch)
    requires LinkPrefix(s) == Some(m)
    ensures RewriteLinks(s) == Anchor(m) + RewriteLinks(s[m.length..])
  {
  }

  /** No match of the link pattern begins anywhere in `s`. */
  predicate NoLinkIn(s: string) {
    forall i :: 0 <= i < |s| ==> LinkPrefix(s[i..]).None?
  }

  /** Text in which the link pattern matches nowhere is left untouched. */
  lemma {:induction false} RewriteLinksWithoutLinks(s: string)
    requires NoLinkIn(s)
    ensures RewriteLinks(s) == s
    decreases |s|
  {
    if s != [] {
      assert s[0..] == s;
      CopiedWhenNoLink(s);
      assert NoLinkIn(s[1..]) by {
        forall i | 0 <= i < |s[1..]| ensures LinkPrefix(s[1..][i..]).None? {
          assert s[1..][i..] == s[i + 1..];
        }
      }
      RewriteLinksWithoutLinks(s[1..]);
    }
  }

  /** Text before the first `[` passes through unchanged, and rewriting
      carries on behind it as if it were not there. */
  lemma {:induction false} RewriteLinksPlainPrefix(pre: string, t: string)
    requires '[' !in pre
    ensures RewriteLinks(pre + t) == pre + RewriteLinks(t)
    decreases |pre|
  {
    if pre == [] {
      assert pre + t == t;
    } else {
      var s := pre + t;
      var c, pre' := pre[0], pre[1..];
      assert s[0] == c && s[1..] == pre' + t;
      PlainCharCopied(s);
      RewriteLinksPlainPrefix(pre', t);
      var r := RewriteLinks(t);
      assert RewriteLinks(s) == [c] + (pre' + r);
      assert [c] + pre' == pre;
      AppendAssoc([c], pre', r);
    }
  }

  /** A character other than `[` cannot start a link and is copied. */
  lemma PlainCharCopied(s: string)
    requires s != [] && s[0] != '['
    ensures RewriteLinks(s) == [s[0]] + RewriteLinks(s[1..])
  {
    assert !LinkOpenAt(s);
    CopiedWhenNoLink(s);
  }

  /** What follows `[[./<date>` in a link: `<title><c>md]]`. */
  function LinkTail(title: string, c: char): string {
    title + [c] + "md]]"
  }

  /** The text of a link `[[./<date><title><c>md]]`. */
  function LinkText(date: string, title: string, c: char): string {
    "[[./" + date + LinkTail(title, c)
  }

  /** An internal link followed by text with no further `md]]` on its line
      becomes one anchor: the href is `/` and the captured filename with its
      `md` kept, the visible text the trimmed title or, if that is blank, the
      date; rewriting then resumes after the link. */
  lemma LinkRewritten(date: string, title: string, c: char, post: string)
    requires IsDate(date)
    requires NoLineTerminator(title) && !IsLineTerminator(c)
    requires forall j: nat :: j + 4 <= LineEnd(post) ==> !CloseAt(post, j)
    ensures RewriteLinks(LinkText(date, title, c) + post)
            == AnchorTag(date + title + [c] + "md", if AllWhitespace(title) then date else Trim(title))
               + RewriteLinks(post)
  {
    var s := LinkText(date, title, c) + post;
    var m := LinkMatched(date, title, c, post);
    ReplacedWhenLink(s, m);
    TrimEmptyIffBlank(title);
  }

  /** The link pattern matches a link followed by text with no further
      `md]]` on its line, and its groups are the link's parts. */
  lemma LinkMatched(date: string, title: string, c: char, post: string) returns (m: LinkMatch)
    requires IsDate(date)
    requires NoLineTerminator(title) && !IsLineTerminator(c)
    requires forall j: nat :: j + 4 <= LineEnd(post) ==> !CloseAt(post, j)
    ensures m == LinkMatch(|LinkText(date, title, c)|, date + title + [c] + "md", date, title)
    ensures LinkPrefix(LinkText(date, title, c) + post) == Some(m)
    ensures (LinkText(date, title, c) + post)[m.length..] == post
  {
    var s := LinkText(date, title, c) + post;
    var rest := LinkTail(title, c) + post;
    LinkTextLayout(date, title, c, post);
    var q := LastCloseOfLink(title, c, post);
    LinkTailLayout(title, c, post);
    m := LinkMatch(14 + q + 5, s[4..14] + rest[..q + 3], s[4..14], rest[..q]);
  }

  /** Where the parts of `[[./<date><tail><post>` sit. */
  lemma LinkTextLayout(date: string, title: string, c: char, post: string)
    requires IsDate(date)
    ensures var s := LinkText(date, title, c) + post;
            |s| >= 14 && LinkOpenAt(s) && s[4..14] == date && s[14..] == LinkTail(title, c) + post
            && |LinkText(date, title, c)| == 14 + |title| + 5
  {
    var s := LinkText(date, title, c) + post;
    var rest := LinkTail(title, c) + post;
    assert s == "[[./" + date + rest;
    assert s[4..14] == date;
    assert s[14..] == rest;
  }

  /** Where the parts of `<title><c>md]]<post>` sit. */
  lemma LinkTailLayout(title: string, c: char, post: string)
    ensures var rest := LinkTail(title, c) + post;
            var q := |title|;
            |rest| >= q + 5 && rest[..q + 3] == title + [c] + "md" && rest[..q] == title
            && rest[q + 5..] == post
  {
    var rest := LinkTail(title, c) + post;
    var q := |title|;
    assert rest == title + ([c] + "md") + ("]]" + post);
    assert rest[..q + 3] == title + ([c] + "md");
  }

  /** Within `<title><c>md]]<post>`, the greedy title stops at the link's own
      `md]]` when no other one follows on the line. */
  lemma LastCloseOfLink(title: string, c: char, post: string) returns (q: nat)
    requires NoLineTerminator(title) && !IsLineTerminator(c)
    requires forall j: nat :: j + 4 <= LineEnd(post) ==> !CloseAt(post, j)
    ensures q == |title|
    ensures var rest := LinkTail(title, c) + post;
            LineEnd(rest) <= |rest| && LastClose(rest, LineEnd(rest)) == Some(q)
  {
    var tail := LinkTail(title, c);
    var rest := tail + post;
    q := |title|;
    assert |tail| == q + 5;
    assert NoLineTerminator(tail) by {
      NoLineTerminatorConcat(title, [c]);
      NoLineTerminatorConcat(title + [c], "md]]");
    }
    LineEndConcat(tail, post);
    var hi := LineEnd(rest);
    assert CloseAt(rest, q + 1) by {
      assert rest[q + 1] == 'm' && rest[q + 2] == 'd' && rest[q + 3] == ']' && rest[q + 4] == ']';
    }
    forall j: nat | q + 1 < j && j + 4 <= hi
      ensures !CloseAt(rest, j)
    {
      if j < q + 5 {
        assert rest[j] == tail[j];
      } else {
        ClosesAfterTail(tail, post, j);
      }
    }
    LastCloseIsGreatest(rest, hi, q);
  }

  lemma ClosesAfterTail(tail: string, post: string, j: nat)
    requires |tail| <= j
    requires forall j: nat :: j + 4 <= LineEnd(post) ==> !CloseAt(post, j)
    requires j + 4 <= |tail| + LineEnd(post)
    ensures !CloseAt(tail + post, j)
  {
    var k: nat := j - |tail|;
    var s := tail + post;
    assert !CloseAt(post, k);
    assert s[j] == post[k] && s[j + 1] == post[k + 1] && s[j + 2] == post[k + 2] && s[j + 3] == post[k + 3];
  }

  /** `LastClose` finds the greatest closing position. */
  lemma {:induction false} LastCloseIsGreatest(t: string, hi: nat, q: nat)
    requires hi <= |t| && q + 5 <= hi && CloseAt(t, q + 1)
    requires forall j: nat :: q + 1 < j && j + 4 <= hi ==> !CloseAt(t, j)
    ensures LastClose(t, hi) == Some(q)
    decreases hi
  {
    if !CloseAt(t, hi - 4) {
      LastCloseIsGreatest(t, hi - 1, q);
    }
  }

  /** Every match of the link pattern is an internal link: `[[./`, a date, a
      title without line terminators, one more character that is not a line
      terminator, and `md]]`, with no further `md]]` on the rest of its
      line. The groups are those parts, and the match spans the link. */
  lemma MatchIsLink(s: string, m: LinkMatch) returns (c: char, post: string)
    requires LinkPrefix(s) == Some(m)
    ensures IsDate(m.date) && NoLineTerminator(m.title) && !IsLineTerminator(c)
    ensures s == LinkText(m.date, m.title, c) + post
    ensures m.length == |LinkText(m.date, m.title, c)|
    ensures m.filename == m.date + m.title + [c] + "md"
    ensures forall j: nat :: j + 4 <= LineEnd(post) ==> !CloseAt(post, j)
  {
    var rest := s[14..];
    var q := LastClose(rest, LineEnd(rest)).value;
    var date, title := s[4..14], rest[..q];
    c := rest[q];
    post := rest[q + 5..];
    ClosedTail(rest, q);
    OpenLayout(s, title, c, post);
    NoCloseAfter(rest, q, post);
  }

  /** `[[./<date><rest>` put back together from its parts. */
  lemma OpenLayout(s: string, title: string, c: char, post: string)
    requires |s| >= 14 && LinkOpenAt(s) && s[14..] == LinkTail(title, c) + post
    ensures s == LinkText(s[4..14], title, c) + post
  {
    assert s[..4] == "[[./";
    assert s == s[..4] + s[4..14] + (LinkTail(title, c) + post);
  }

  /** After the last closing position on a line, the line holds no `md]]`. */
  lemma NoCloseAfter(rest: string, q: nat, post: string)
    requires LastClose(rest, LineEnd(rest)) == Some(q)
    requires q + 5 <= |rest| && post == rest[q + 5..]
    requires LineEnd(rest) == q + 5 + LineEnd(post)
    ensures forall j: nat :: j + 4 <= LineEnd(post) ==> !CloseAt(post, j)
  {
    forall j: nat | j + 4 <= LineEnd(post)
      ensures !CloseAt(post, j)
    {
      NoCloseAt(rest, q, post, j);
    }
  }

  lemma NoCloseAt(rest: string, q: nat, post: string, j: nat)
    requires LastClose(rest, LineEnd(rest)) == Some(q)
    requires q + 5 <= |rest| && post == rest[q + 5..]
    requires LineEnd(rest) == q + 5 + LineEnd(post) && j + 4 <= LineEnd(post)
    ensures !CloseAt(post, j)
  {
    var k := q + 5 + j;
    assert q + 1 < k && k + 4 <= LineEnd(rest);
    assert !CloseAt(rest, k);
    assert rest[k] == post[j] && rest[k + 1] == post[j + 1] && rest[k + 2] == post[j + 2]
           && rest[k + 3] == post[j + 3];
  }

  /** Text whose first line holds `md]]` at `q + 1` is a title, one
      character and `md]]`, followed by the rest. */
  lemma ClosedTail(rest: string, q: nat)
    requires q + 5 <= LineEnd(rest) && CloseAt(rest, q + 1)
    ensures NoLineTerminator(rest[..q]) && !IsLineTerminator(rest[q])
    ensures rest == LinkTail(rest[..q], rest[q]) + rest[q + 5..]
    ensures rest[..q + 3] == rest[..q] + [rest[q]] + "md"
    ensures LineEnd(rest) == q + 5 + LineEnd(rest[q + 5..])
  {
    PlainBeforeLineEnd(rest, q);
    PlainCharBeforeLineEnd(rest, q);
    CloseLayout(rest, q);
    LineEndAfterTail(rest, q + 5);
  }

  /** The first line continues past a terminator-free start `s[..n]`. */
  lemma LineEndAfterTail(s: string, n: nat)
    requires n <= LineEnd(s)
    ensures s == s[..n] + s[n..]
    ensures LineEnd(s) == n + LineEnd(s[n..])
  {
    PlainBeforeLineEnd(s, n);
    assert s == s[..n] + s[n..];
    LineEndConcat(s[..n], s[n..]);
  }

  lemma PlainCharBeforeLineEnd(s: string, i: nat)
    requires i < LineEnd(s)
    ensures !IsLineTerminator(s[i])
  {
    assert s[i] == s[..LineEnd(s)][i];
  }

  /** Before the end of the first line there is no line terminator. */
  lemma PlainBeforeLineEnd(s: string, n: nat)
    requires n <= LineEnd(s)
    ensures NoLineTerminator(s[..n])
  {
    assert forall i :: 0 <= i < n ==> s[..n][i] == s[..LineEnd(s)][i];
  }

  /** `<title><c>md]]<post>` cut at a closing position `q + 1`. */
  lemma CloseLayout(rest: string, q: nat)
    requires CloseAt(rest, q + 1)
    ensures rest[..q + 5] == LinkTail(rest[..q], rest[q])
    ensures rest[..q + 3] == rest[..q] + [rest[q]] + "md"
  {
    var close := rest[q + 1..q + 5];
    assert close == "md]]";
    assert close[..2] == "md";
    assert rest[..q + 5] == rest[..q] + [rest[q]] + close;
    assert rest[..q + 3] == rest[..q] + [rest[q]] + close[..2];
  }

  /** Every internal link is matched where it starts, and the greedy title
      takes it at least up to its own `md]]`. So where the pattern finds no
      match, no link starts. */
  lemma LinkIsMatched(date: string, title: string, c: char, post: string)
    requires IsDate(date) && NoLineTerminator(title) && !IsLineTerminator(c)
    ensures LinkPrefix(LinkText(date, title, c) + post).Some?
    ensures LinkPrefix(LinkText(date, title, c) + post).value.length >= |LinkText(date, title, c)|
  {
    LinkTextLayout(date, title, c, post);
    var tail := LinkTail(title, c);
    var rest := tail + post;
    var q := |title|;
    assert NoLineTerminator(tail) by {
      NoLineTerminatorConcat(title, [c]);
      NoLineTerminatorConcat(title + [c], "md]]");
    }
    LineEndConcat(tail, post);
    assert CloseAt(rest, q + 1) by {
      assert rest[q + 1] == 'm' && rest[q + 2] == 'd' && rest[q + 3] == ']' && rest[q + 4] == ']';
    }
  }

  /** The title group is greedy: two links on one line,
      `[[./<date><title><c>md]]<gap>[[./<date'><title'><c'>md]]`, become a
      single anchor that runs from the first `[[./` to the last `md]]`, with
      everything between the dates as its title. */
  lemma TwoLinksOnOneLineMerge(date: string, title: string, c: char, gap: string,
                               date': string, title': string, c': char)
    requires IsDate(date) && IsDate(date')
    requires NoLineTerminator(title) && NoLineTerminator(gap) && NoLineTerminator(title')
    requires !IsLineTerminator(c) && !IsLineTerminator(c')
    ensures var merged := LinkTail(title, c) + gap + "[[./" + date' + title';
            RewriteLinks(LinkText(date, merged, c'))
            == AnchorTag(date + merged + [c'] + "md", Trim(merged))
  {
    var merged := LinkTail(title, c) + gap + "[[./" + date' + title';
    assert NoLineTerminator(merged) by {
      NoLineTerminatorConcat(title, [c]);
      NoLineTerminatorConcat(title + [c], "md]]");
      NoLineTerminatorConcat(LinkTail(title, c), gap);
      NoLineTerminatorConcat(LinkTail(title, c) + gap, "[[./");
      DateIsPlain(date');
      NoLineTerminatorConcat(LinkTail(title, c) + gap + "[[./", date');
      NoLineTerminatorConcat(LinkTail(title, c) + gap + "[[./" + date', title');
    }
    assert !AllWhitespace(merged) by {
      assert merged[|title| + 1] == 'm';
    }
    assert LinkText(date, merged, c') + "" == LinkText(date, merged, c');
    LinkRewritten(date, merged, c', "");
  }

  // ---------------------------------------------------------------------------
  // Timestamp lines:  /^(\d{4}-\d{2}-\d{2} \d{2}:\d{2} \w+)$/gm
  // ---------------------------------------------------------------------------

  /** `\d{4}-\d{2}-\d{2} \d{2}:\d{2} ` at the start of `s`. */
  predicate StampHead(s: string) {
    |s| >= 17 && IsDate(s[..10]) && s[10] == ' '
    && IsDigit(s[11]) && IsDigit(s[12]) && s[13] == ':'
    && IsDigit(s[14]) && IsDigit(s[15]) && s[16] == ' '
  }

  /** A whole line of the shape `YYYY-MM-DD HH:MM <word>`. */
  predicate IsTimestampLine(line: string) {
    |line| >= 18 && StampHead(line)
    && forall i :: 17 <= i < |line| ==> IsWordChar(line[i])
  }

  function Wrap(line: string): string {
    "<h2 class=\"timestamp\">" + line + "</h2>"
  }

  /** The match length of the timestamp pattern at the start of `s`, given
      that `s` begins a line. `\w+` is greedy and cannot match a line
      terminator, so `$` can only succeed after the whole run of word
      characters. */
  function StampPrefix(s: string): (r: Option<nat>)
    ensures r.Some? ==> 17 < r.value <= |s|
  {
    if StampHead(s) then
      var e := 17 + WordRunLength(s[17..]);
      if e > 17 && (e == |s| || IsLineTerminator(s[e])) then Some(e) else None
    else None
  }

  /** The second `replace`, as a left-to-right scan. `atLineStart` is whether
      `^` holds at the current index (start of input or after a terminator). */
  function ReplaceStamps(s: string, atLineStart: bool): string
    decreases |s|
  {
    if s == [] then []
    else if atLineStart && StampPrefix(s).Some? then
      var e := StampPrefix(s).value;
      Wrap(s[..e]) + ReplaceStamps(s[e..], false)
    else [s[0]] + ReplaceStamps(s[1..], IsLineTerminator(s[0]))
  }

  function ReplaceTimestamps(s: string): string {
    ReplaceStamps(s, true)
  }

  /** Reference definition, line by line: every line that is exactly a
      timestamp is wrapped, every other line and every terminator is kept. */
  function PromoteLines(s: string): string
    decreases |s|
  {
    if s == [] then [] else Promote(FirstLine(s)) + LineBreak(s) + PromoteLines(LinesAfter(s))
  }

  function Promote(line: string): string {
    if IsTimestampLine(line) then Wrap(line) else line
  }

  /** The pattern matches at a line start exactly when the whole line is a
      timestamp, and the match is that line. */
  lemma StampPrefixIsWholeLine(s: string)
    ensures StampPrefix(s) == if IsTimestampLine(FirstLine(s)) then Some(LineEnd(s)) else None
  {
    if StampPrefix(s).Some? {
      StampMatchIsLine(s);
    } else if IsTimestampLine(FirstLine(s)) {
      TimestampLineMatches(s);
    }
  }

  lemma StampMatchIsLine(s: string)
    requires StampPrefix(s).Some?
    ensures LineEnd(s) == StampPrefix(s).value && IsTimestampLine(FirstLine(s))
  {
    var e := StampPrefix(s).value;
    assert forall i :: 17 <= i < e ==> IsWordChar(s[i]) by {
      forall i | 17 <= i < e ensures IsWordChar(s[i]) {
        assert s[17..][i - 17] == s[i];
      }
    }
    assert NoLineTerminator(s[..e]);
    LineEndUnique(s, e);
  }

  lemma TimestampLineMatches(s: string)
    requires IsTimestampLine(FirstLine(s))
    ensures StampPrefix(s) == Some(LineEnd(s))
  {
    var n := LineEnd(s);
    var line := FirstLine(s);
    assert line[..10] == s[..10];
    var t := s[17..];
    forall i | 0 <= i < n - 17 ensures IsWordChar(t[i]) {
      assert t[i] == line[17 + i];
    }
  }

  /** One step of the scan at a line start where the pattern matches. */
  lemma StampReplaced(s: string)
    requires StampPrefix(s).Some?
    ensures ReplaceStamps(s, true)
            == Wrap(s[..StampPrefix(s).value]) + ReplaceStamps(s[StampPrefix(s).value..], false)
  {
  }

  /** One step of the scan where the pattern does not match. */
  lemma StampCopied(s: string, atLineStart: bool)
    requires s != [] && !(atLineStart && StampPrefix(s).Some?)
    ensures ReplaceStamps(s, atLineStart) == [s[0]] + ReplaceStamps(s[1..], IsLineTerminator(s[0]))
  {
  }

  /** One step of the reference definition; on the empty string both sides
      are empty. */
  lemma PromoteLinesStep(s: string)
    ensures PromoteLines(s) == Promote(FirstLine(s)) + LineBreak(s) + PromoteLines(LinesAfter(s))
  {
    if s == [] {
      assert !IsTimestampLine([]);
    }
  }

  /** Inside a line, away from its start, characters are copied until the
      line ends; from there the next line is processed from its start. */
  lemma {:induction false} CopyRestOfLine(s: string)
    ensures ReplaceStamps(s, false) == FirstLine(s) + LineBreak(s) + ReplaceStamps(LinesAfter(s), true)
    decreases |s|
  {
    if s == [] {
    } else if IsLineTerminator(s[0]) {
      TerminatorCopied(s, false);
    } else {
      CopyRestOfLine(s[1..]);
      InnerCharCopied(s);
    }
  }

  /** A terminator at the front is copied and the next line starts. */
  lemma TerminatorCopied(s: string, atLineStart: bool)
    requires s != [] && IsLineTerminator(s[0])
    ensures ReplaceStamps(s, atLineStart) == FirstLine(s) + LineBreak(s) + ReplaceStamps(LinesAfter(s), true)
  {
    assert !StampHead(s);
    StampCopied(s, atLineStart);
    assert FirstLine(s) == [] && LineBreak(s) == [s[0]] && LinesAfter(s) == s[1..];
  }

  lemma InnerCharCopied(s: string)
    requires s != [] && !IsLineTerminator(s[0])
    requires ReplaceStamps(s[1..], false)
             == FirstLine(s[1..]) + LineBreak(s[1..]) + ReplaceStamps(LinesAfter(s[1..]), true)
    ensures ReplaceStamps(s, false) == FirstLine(s) + LineBreak(s) + ReplaceStamps(LinesAfter(s), true)
  {
    StampCopied(s, false);
    LinesOfTail(s);
  }

  /** Dropping a first character that is not a terminator shortens the first
      line by that character and leaves the rest alone. */
  lemma LinesOfTail(s: string)
    requires s != [] && !IsLineTerminator(s[0])
    ensures FirstLine(s) == [s[0]] + FirstLine(s[1..])
    ensures LineBreak(s[1..]) == LineBreak(s) && LinesAfter(s[1..]) == LinesAfter(s)
  {
    if LineEnd(s) < |s| {
      assert s[1..][LineEnd(s[1..]) + 1..] == s[LineEnd(s) + 1..];
    }
  }

  /** The scan handles the first line of its input as a whole: it is wrapped
      exactly when it is a timestamp line. */
  lemma FirstLineReplaced(s: string)
    ensures ReplaceStamps(s, true) == Promote(FirstLine(s)) + LineBreak(s) + ReplaceStamps(LinesAfter(s), true)
  {
    StampPrefixIsWholeLine(s);
    if s == [] {
    } else if StampPrefix(s).Some? {
      StampLineReplaced(s);
    } else if IsLineTerminator(s[0]) {
      TerminatorCopied(s, true);
    } else {
      PlainLineCopied(s);
    }
  }

  lemma StampLineReplaced(s: string)
    requires IsTimestampLine(FirstLine(s)) && StampPrefix(s) == Some(LineEnd(s))
    ensures ReplaceStamps(s, true) == Promote(FirstLine(s)) + LineBreak(s) + ReplaceStamps(LinesAfter(s), true)
  {
    var n := LineEnd(s);
    var t := s[n..];
    var w := Promote(FirstLine(s));
    var b, r := LineBreak(s), ReplaceStamps(LinesAfter(s), true);
    assert w == Wrap(s[..n]);
    StampReplaced(s);
    assert ReplaceStamps(s, true) == w + ReplaceStamps(t, false);
    AfterFirstLine(s);
    CopyRestOfLine(t);
    assert ReplaceStamps(t, false) == [] + b + r;
    assert [] + b + r == b + r;
    AppendAssoc(w, b, r);
  }

  /** What is left once the first line is consumed. */
  lemma AfterFirstLine(s: string)
    ensures FirstLine(s[LineEnd(s)..]) == []
    ensures LineBreak(s[LineEnd(s)..]) == LineBreak(s)
    ensures LinesAfter(s[LineEnd(s)..]) == LinesAfter(s)
  {
    var n := LineEnd(s);
    var t := s[n..];
    LineEndUnique(t, 0);
    if n < |s| {
      assert t[0] == s[n];
      assert t[1..] == s[n + 1..];
    }
  }

  lemma PlainLineCopied(s: string)
    requires s != [] && !IsLineTerminator(s[0]) && StampPrefix(s).None?
    requires !IsTimestampLine(FirstLine(s))
    ensures ReplaceStamps(s, true) == Promote(FirstLine(s)) + LineBreak(s) + ReplaceStamps(LinesAfter(s), true)
  {
    var c, t := s[0], s[1..];
    var f, b, r := FirstLine(t), LineBreak(t), ReplaceStamps(LinesAfter(t), true);
    StampCopied(s, true);
    assert ReplaceStamps(s, true) == [c] + ReplaceStamps(t, false);
    CopyRestOfLine(t);
    assert ReplaceStamps(t, false) == f + b + r;
    LinesOfTail(s);
    assert Promote(FirstLine(s)) == [c] + f;
    AppendAssoc([c], f + b, r);
    AppendAssoc([c], f, b);
  }

  /** The scan the regular expression performs and the line-by-line
      reference definition agree on every input. */
  lemma {:induction false} ReplaceTimestampsIsLineWise(s: string)
    ensures ReplaceTimestamps(s) == PromoteLines(s)
    decreases |s|
  {
    FirstLineReplaced(s);
    PromoteLinesStep(s);
    if s != [] {
      ReplaceTimestampsIsLineWise(LinesAfter(s));
    }
  }

  /** A line with no terminator in it is wrapped in the timestamp heading
      exactly when it is `YYYY-MM-DD HH:MM <word>` and nothing else, and the
      rest of the body is processed line by line after it. */
  lemma TimestampLine(line: string, t: char, rest: string)
    requires NoLineTerminator(line) && IsLineTerminator(t)
    ensures ReplaceTimestamps(line + [t] + rest)
            == (if IsTimestampLine(line) then Wrap(line) else line) + [t] + ReplaceTimestamps(rest)
    ensures ReplaceTimestamps(line) == if IsTimestampLine(line) then Wrap(line) else line
  {
    ReplaceTimestampsIsLineWise(line + [t] + rest);
    ReplaceTimestampsIsLineWise(rest);
    ReplaceTimestampsIsLineWise(line);
    PromoteLinesCons(line, t, rest);
    PromoteSingleLine(line);
  }

  lemma PromoteLinesCons(line: string, t: char, rest: string)
    requires NoLineTerminator(line) && IsLineTerminator(t)
    ensures PromoteLines(line + [t] + rest) == Promote(line) + [t] + PromoteLines(rest)
  {
    var s := line + [t] + rest;
    LineEndUnique(s, |line|);
    assert FirstLine(s) == line;
    assert LineBreak(s) == [t];
    assert LinesAfter(s) == rest;
    PromoteLinesStep(s);
  }

  lemma PromoteSingleLine(line: string)
    requires NoLineTerminator(line)
    ensures PromoteLines(line) == Promote(line)
  {
    LineEndUnique(line, |line|);
    assert FirstLine(line) == line;
    PromoteLinesStep(line);
    assert LinesAfter(line) == [];
  }

  /** Text after the word of a timestamp line, starting with a space,
      makes the line no timestamp line: `\w+` must run to the line end. */
  lemma ExtraTextIsNoTimestamp(line: string, extra: string)
    requires IsTimestampLine(line) && extra != [] && extra[0] == ' '
    ensures !IsTimestampLine(line + extra)
  {
    assert (line + extra)[|line|] == ' ';
  }

  /** With no timestamp line, the reference definition is the identity. */
  lemma {:induction false} PromoteLinesWithoutStamps(s: string)
    requires forall i :: 0 <= i < |Lines(s)| ==> !IsTimestampLine(Lines(s)[i])
    ensures PromoteLines(s) == s
    decreases |s|
  {
    if s != [] {
      var rest := LinesAfter(s);
      assert !IsTimestampLine(Lines(s)[0]);
      forall i | 0 <= i < |Lines(rest)| ensures !IsTimestampLine(Lines(rest)[i]) {
        assert Lines(rest)[i] == Lines(s)[i + 1];
      }
      PromoteLinesWithoutStamps(rest);
      SplitAtFirstLine(s);
    }
  }

  // ---------------------------------------------------------------------------
  // parseHTML
  // ---------------------------------------------------------------------------

  /** The body as handed to the markdown renderer. */
  function RewriteBody(content: string): string {
    ReplaceTimestamps(RewriteLinks(content))
  }

  /** `parseHTML(content)`: both rewrites, then the renderer. */
  function ParseHtml(render: string -> string, content: string): string {
    render(RewriteBody(content))
  }

  /** A body with no internal link and no timestamp line reaches the renderer
      unchanged. */
  lemma PlainBodyUnchanged(content: string)
    requires NoLinkIn(content)
    requires forall i :: 0 <= i < |Lines(content)| ==> !IsTimestampLine(Lines(content)[i])
    ensures RewriteBody(content) == content
  {
    RewriteLinksWithoutLinks(content);
    ReplaceTimestampsIsLineWise(content);
    PromoteLinesWithoutStamps(content);
  }
}
