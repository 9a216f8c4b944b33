/** The decision `parseFile` makes for one note: a draft, an error because
    the filename does not parse, or a published record. Reading the file and
    splitting off its frontmatter happen outside; their results are the
    `data` map and the `content` string given here. */
module Documents {
  import opened Wrappers
  import opened JsText
  import opened Rewriter

  /** A frontmatter value as JavaScript sees it. */
  datatype JsValue = Undefined | Null | Bool(b: bool) | Number(x: real) | NaN | Str(s: string) | Object

  /** JavaScript truthiness: `false`, `0`, `NaN`, `""`, `null` and
      `undefined` are falsy, everything else is truthy. */
  predicate Truthy(v: JsValue)
    ensures Truthy(v) <==> v !in {Undefined, Null, Bool(false), Number(0.0), NaN, Str("")}
  {
    match v
    case Undefined => false
    case Null => false
    case Bool(b) => b
    case Number(x) => x != 0.0
    case NaN => false
    case Str(s) => s != ""
    case Object => true
  }

  /** `data[key]`: a missing key reads as `undefined`. */
  function Lookup(data: map<string, JsValue>, key: string): JsValue {
    if key in data then data[key] else Undefined
  }

  /** A directory entry name: `readdir` never yields one with a `/`. */
  type EntryName = s: string | '/' !in s

  /** The named groups of a filename match. */
  datatype FileMatch = FileMatch(date: string, title: string)

  /** One line is matched whole by `(?<d>\d{4}-\d{2}-\d{2})(?<t>.*).md`
      between `^` and `$`: a date, then anything, then any character and
      `md` at the very end. */
  predicate LineMatches(line: string) {
    |line| >= 13 && IsDate(line[..10]) && line[|line| - 2] == 'm' && line[|line| - 1] == 'd'
  }

  /** The groups of a matching line. `.*` cannot cross a line terminator and
      `$` must follow, so the title is everything between the date and the
      last three characters. */
  function LineGroups(line: string): (m: FileMatch)
    requires LineMatches(line)
    ensures IsDate(m.date) && line == m.date + m.title + line[|line| - 3..]
  {
    FileMatch(line[..10], line[10..|line| - 3])
  }

  /** `exec` with the `m` flag: the first line of the name that matches, or
      no match. */
  function MatchFilename(s: string): (r: Option<FileMatch>)
    ensures r.Some? ==> IsDate(r.value.date) && |s| >= 10 + |r.value.title| + 3
    decreases |s|
  {
    if LineMatches(FirstLine(s)) then Some(LineGroups(FirstLine(s)))
    else if LineEnd(s) == |s| then None
    else MatchFilename(LinesAfter(s))
  }

  /** Every space replaced by `_`. */
  function ReplaceSpaces(s: string): (r: string)
    ensures |r| == |s|
    ensures forall i :: 0 <= i < |s| ==> r[i] == if s[i] == ' ' then '_' else s[i]
  {
    if s == [] then [] else [if s[0] == ' ' then '_' else s[0]] + ReplaceSpaces(s[1..])
  }

  /** `s` ends in `.md`. */
  predicate EndsWithMd(s: string) {
    |s| >= 3 && s[|s| - 3] == '.' && s[|s| - 2] == 'm' && s[|s| - 1] == 'd'
  }

  /** `path.basename(s, ".md")` for a name with no `/`: a trailing `.md` is
      removed (all of `.md` itself gives the empty string). */
  function StripMd(s: string): string {
    if EndsWithMd(s) then s[..|s| - 3] else s
  }

  /** The output file name of a published note. */
  function PageLink(filename: EntryName): string {
    StripMd(ReplaceSpaces(filename)) + ".html"
  }

  datatype ParsedDoc =
    | Draft
    | Published(html: string, link: string, date: string, title: Option<string>, list: bool, rc: bool)

  /** An exception thrown while a note is parsed. When the filename does not
      match, `exec` returns `null` and reading its `groups` throws a
      `TypeError` before the explicit "Filename did not parse" check is
      reached; both are `FilenameDidNotParse`, whose `filename` the model
      adds for the reader (the `TypeError` does not name the file). `Thrown`
      stands for any other exception: a failed read, malformed frontmatter
      or a renderer error, none of which `ParseFile` models. */
  datatype ParseError = FilenameDidNotParse(filename: string) | Thrown(message: string)

  /** `parseFile`, once the note has been read and split: `render` is the
      markdown renderer. */
  function ParseFile(filename: EntryName, data: map<string, JsValue>, content: string,
                     render: string -> string): (r: Result<ParsedDoc, ParseError>)
    ensures !Truthy(Lookup(data, "publish")) ==> r == Ok(Draft)
    ensures r.Err? <==> Truthy(Lookup(data, "publish")) && MatchFilename(filename).None?
    ensures r.Err? ==> r.error == FilenameDidNotParse(filename)
    ensures Truthy(Lookup(data, "publish")) && MatchFilename(filename).Some? ==>
              var m := MatchFilename(filename).value;
              r.Ok? && r.value.Published? && r.value.date == m.date
              && r.value.title == (if m.title == [] then None else Some(Trim(m.title)))
    ensures r.Ok? && r.value.Published? ==>
              r.value.link == PageLink(filename) && r.value.html == render(RewriteBody(content))
              && r.value.list == !Truthy(Lookup(data, "unlisted")) && r.value.rc == Truthy(Lookup(data, "rc"))
  {
    if !Truthy(Lookup(data, "publish")) then Ok(Draft)
    else match MatchFilename(filename)
      case None => Err(FilenameDidNotParse(filename))
      case Some(m) =>
        DateIsPlain(m.date);
        TrimUnpadded(m.date);
        Ok(Published(
             html := ParseHtml(render, content),
             link := PageLink(filename),
             date := Trim(m.date),
             title := if m.title == [] then None else Some(Trim(m.title)),
             list := !Truthy(Lookup(data, "unlisted")),
             rc := Truthy(Lookup(data, "rc"))))
  }

  /** A name with no line terminator matches exactly when it is a date,
      anything, and any character followed by `md`; the groups are the date
      and what lies between it and those last three characters. */
  lemma SingleLineFilename(filename: string)
    requires NoLineTerminator(filename)
    ensures MatchFilename(filename).Some? <==> LineMatches(filename)
    ensures LineMatches(filename) ==>
              MatchFilename(filename) == Some(FileMatch(filename[..10], filename[10..|filename| - 3]))
  {
    LineEndUnique(filename, |filename|);
    assert FirstLine(filename) == filename;
  }

  /** Where `exec` finds its match: the first line of the name that matches
      on its own, and no match when no line does. */
  lemma {:induction false} MatchFilenameFirstLine(s: string)
    ensures MatchFilename(s).None? <==> forall k :: 0 <= k < |Lines(s)| ==> !LineMatches(Lines(s)[k])
    ensures MatchFilename(s).Some? ==>
              exists k :: 0 <= k < |Lines(s)| && LineMatches(Lines(s)[k])
                          && MatchFilename(s).value == LineGroups(Lines(s)[k])
                          && forall j :: 0 <= j < k ==> !LineMatches(Lines(s)[j])
    decreases |s|
  {
    if s == [] {
      assert !LineMatches(FirstLine(s));
    } else if LineMatches(FirstLine(s)) {
      LinesTail(s);
      assert LineMatches(Lines(s)[0]);
    } else if LineEnd(s) == |s| {
      assert Lines(s) == [FirstLine(s)];
    } else {
      var rest := LinesAfter(s);
      MatchFilenameFirstLine(rest);
      LinesTail(s);
      if MatchFilename(rest).Some? {
        var k :| 0 <= k < |Lines(rest)| && LineMatches(Lines(rest)[k])
                 && MatchFilename(rest).value == LineGroups(Lines(rest)[k])
                 && forall j :: 0 <= j < k ==> !LineMatches(Lines(rest)[j]);
        NoEarlierMatch(s, k + 1);
        assert LineMatches(Lines(s)[k + 1]);
      } else {
        NoEarlierMatch(s, |Lines(s)|);
      }
    }
  }

  /** The lines after the first are the lines of what follows the first
      terminator. */
  lemma LinesTail(s: string)
    requires s != []
    ensures |Lines(s)| == 1 + |Lines(LinesAfter(s))|
    ensures Lines(s)[0] == FirstLine(s)
    ensures forall k :: 0 <= k < |Lines(LinesAfter(s))| ==> Lines(s)[k + 1] == Lines(LinesAfter(s))[k]
  {
  }

  lemma NoEarlierMatch(s: string, k: nat)
    requires s != [] && 0 < k <= |Lines(s)|
    requires !LineMatches(FirstLine(s))
    requires forall j :: 0 <= j < k - 1 ==> !LineMatches(Lines(LinesAfter(s))[j])
    ensures forall j :: 0 <= j < k ==> !LineMatches(Lines(s)[j])
  {
    LinesTail(s);
    forall j | 0 <= j < k ensures !LineMatches(Lines(s)[j]) {
      if j > 0 {
        assert Lines(s)[j] == Lines(LinesAfter(s))[j - 1];
      }
    }
  }

  /** A published note on one line: its date is the name's first ten
      characters, its title is absent when nothing lies between the date and
      the final `.md` and is the trimmed remainder otherwise, and its flags
      follow the frontmatter. */
  lemma PublishedNote(filename: EntryName, data: map<string, JsValue>, content: string,
                      render: string -> string)
    requires NoLineTerminator(filename) && LineMatches(filename)
    requires Truthy(Lookup(data, "publish"))
    ensures ParseFile(filename, data, content, render)
            == Ok(Published(
                    html := render(RewriteBody(content)),
                    link := PageLink(filename),
                    date := filename[..10],
                    title := if |filename| == 13 then None else Some(Trim(filename[10..|filename| - 3])),
                    list := !Truthy(Lookup(data, "unlisted")),
                    rc := Truthy(Lookup(data, "rc"))))
  {
    SingleLineFilename(filename);
    DateIsPlain(filename[..10]);
    TrimUnpadded(filename[..10]);
  }

  /** The page name of a note is a name with no spaces followed by `.html`;
      that name is the note's name with spaces replaced and a final `.md`
      removed, or kept whole when it has none. */
  lemma PageLinkShape(filename: EntryName) returns (base: string)
    ensures PageLink(filename) == base + ".html"
    ensures ' ' !in PageLink(filename)
    ensures EndsWithMd(filename) ==> base == ReplaceSpaces(filename)[..|filename| - 3]
    ensures !EndsWithMd(filename) ==> base == ReplaceSpaces(filename)
  {
    var f, r := filename, ReplaceSpaces(filename);
    base := StripMd(r);
    EndingKept(f);
    assert ' ' !in r;
    assert ' ' !in base;
    assert ' ' !in ".html";
    NoSpaceConcat(base, ".html");
  }

  /** Replacing spaces keeps or loses the `.md` ending with the name. */
  lemma EndingKept(f: string)
    ensures EndsWithMd(ReplaceSpaces(f)) <==> EndsWithMd(f)
  {
    var r := ReplaceSpaces(f);
    if |f| >= 3 {
      assert r[|r| - 3] == f[|f| - 3] || f[|f| - 3] == ' ';
      assert r[|r| - 2] == f[|f| - 2] || f[|f| - 2] == ' ';
      assert r[|r| - 1] == f[|f| - 1] || f[|f| - 1] == ' ';
    }
  }

  lemma NoSpaceConcat(a: string, b: string)
    requires ' ' !in a && ' ' !in b
    ensures ' ' !in a + b
  {
  }

  /** No published page can overwrite the index: its name is longer. */
  lemma PublishedPageIsNotIndex(filename: EntryName, data: map<string, JsValue>, content: string,
                                render: string -> string)
    requires ParseFile(filename, data, content, render).Ok?
    requires ParseFile(filename, data, content, render).value.Published?
    ensures ParseFile(filename, data, content, render).value.link != "index.html"
  {
    assert |PageLink(filename)| >= |filename| - 3 + 5;
  }
}
