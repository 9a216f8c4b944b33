# A verified model of the notes site generator

The generator turns a directory of markdown notes into a static site. It
writes one HTML page per published note and one index page listing the
published, listed notes, newest first. This project models the part that
decides what gets written, in Dafny:

- **`Rewriter`** (`rewriter.dfy`) models `parseHTML`. It makes two global
  substitutions on a note's body, in this order:
  1. Internal links `[[./YYYY-MM-DD<title>.md]]` become anchors.
  2. Lines that are exactly `YYYY-MM-DD HH:MM <word>` become
     `<h2 class="timestamp">` headings.

  The markdown renderer is a function parameter, `render`. Both regular
  expressions are written out as matchers over strings, with JavaScript's
  meaning for `\d`, `\w`, `.`, `^` and `$` (see `JsText`).
- **`Documents`** (`documents.dfy`) models `parseFile`. A note is a draft, or
  an error because its name does not parse, or a published record with a
  link, date, title, `list` flag and `rc` flag. The frontmatter is a map
  from keys to JavaScript values, read with JavaScript truthiness.
- **`Templates`** (`templates.dfy`) holds `PAGE_TEMPLATE` and
  `INDEX_TEMPLATE`, copied character for character.
- **`Build`** (`build.dfy`) models the loop of `script.js`. `Build` is a
  method with a `while` loop, proved against fold functions. The output
  directory is a `map` from file names to contents, and a later write to
  the same name replaces an earlier one.
- **`JsText`** (`jstext.dfy`) holds the JavaScript character classes, line
  splitting and `trim`. **`Wrappers`** (`wrappers.dfy`) holds `Option` and
  `Result`.

## How the model reads the code

- After `[[./` and the date, the link pattern's `(?<title>.*)` is greedy and
  cannot cross a line terminator. The `.` before `md` is unescaped, so it
  matches any character except a line terminator. The match therefore ends
  at the last `md]]` on the line. Two links on one line become a single
  anchor (`TwoLinksOnOneLineMerge`).
- The anchor text is `title.trim()`. The title group starts right after
  the date, so for `[[./2024-01-01-hello.md]]` the text is `-hello`, with
  the hyphen kept.
- When `exec` finds no match in a published note's name, it returns `null`.
  Reading `groups` from `null` then throws a `TypeError`, so the explicit
  "Filename did not parse" throw is never reached. Both cases are the one
  error `FilenameDidNotParse`.
- The filename pattern has the `m` flag, so a name containing a line
  terminator matches at the first line that matches on its own.
- When the title group is empty, the title falls back to `this.date`. The
  evident intent is the date, but that expression is `undefined` at module
  scope, so the model uses `None`, and the templates print `undefined` for
  it, as the code does.
- `path.basename(x, ".md")` is modelled only for names without `/`, which
  is all that `readdir` returns (`EntryName`). For such names it strips a
  final `.md` and nothing else.
- `index.reverse()` works in place in the code. The model applies a
  `Reverse` function with the same result.

## Model

| member | source | states |
|---|---|---|
| JsText.Trim | helpers.js:93-96 | the result is a slice of the input with only JS whitespace (WhiteSpace and LineTerminator) outside it, and it neither starts nor ends with whitespace |
| JsText.TrimEmptyIffBlank | helpers.js:93 | `trim()` gives the empty string exactly when the whole string is whitespace, so `!title.trim()` is a blank test |
| JsText.TrimUnpadded | helpers.js:127 | a string with no whitespace at either end is its own trim |
| JsText.LineEndUnique | helpers.js:89 | the first line ends at the first line terminator, or at the end of the string if there is none |
| JsText.LineEndConcat | helpers.js:89 | a prefix with no line terminator lengthens the first line by its own length |
| Rewriter.LastClose | helpers.js:89 | the greedy title gives back just enough for `.md]]` to match: the greatest closing position on the line, or none |
| Rewriter.LinkPrefix | helpers.js:89 | the link pattern's match at one position, with its groups; what it matches is stated by `MatchIsLink` and `LinkIsMatched` |
| Rewriter.MatchIsLink | helpers.js:89 | every match is a link `[[./<date><title><c>md]]`: the date is `\d{4}-\d{2}-\d{2}`, the title and `c` hold no line terminator, no further `md]]` follows on the line, the groups are filename = date + title + `c` + `md`, date and title, and the match spans exactly the link |
| Rewriter.LinkIsMatched | helpers.js:89 | conversely every such link is matched where it starts, at least up to its own `md]]`; so a position where nothing matches starts no link |
| Rewriter.RewriteLinks | helpers.js:88-99 | the first `replace`: a left-to-right scan that replaces each match by its anchor and resumes after it; stated by `RewriteLinksWithoutLinks`, `RewriteLinksPlainPrefix`, `LinkRewritten` and `TwoLinksOnOneLineMerge` |
| Rewriter.LastCloseIsGreatest | helpers.js:89 | `LastClose` returns exactly the greatest position followed by `md]]` that ends by the line end |
| Rewriter.RewriteLinksWithoutLinks | helpers.js:87-99 | text where the link pattern matches nowhere passes through the first replace unchanged |
| Rewriter.RewriteLinksPlainPrefix | helpers.js:87-99 | text before the first `[` is copied, and rewriting continues after it as if it were not there |
| Rewriter.LinkRewritten | helpers.js:89-97 | a link with no further `md]]` on its line becomes `<a href="/<date><title><c>md">`; the text is the trimmed title, or the date when the title is blank; rewriting resumes after the link |
| Rewriter.LinkMatched | helpers.js:89 | the groups of such a link are filename = date + title + any character + `md`, date = the ten date characters, and title = the text between |
| Rewriter.TwoLinksOnOneLineMerge | helpers.js:89 | two links on one line become one anchor that runs from the first `[[./` to the last `md]]` |
| Rewriter.ReplaceStamps | helpers.js:101-104 | the second `replace` as a scan that tracks whether it stands at a line start; stated by `StampPrefixIsWholeLine`, `FirstLineReplaced` and `CopyRestOfLine` |
| Rewriter.ReplaceTimestamps | helpers.js:101-104 | the second `replace`, started at a line start; `ReplaceTimestampsIsLineWise` equates it with the line-by-line `PromoteLines` |
| Rewriter.StampPrefixIsWholeLine | helpers.js:102 | at a line start the timestamp pattern matches exactly when the whole line is `YYYY-MM-DD HH:MM <word>`, and the match is that line |
| Rewriter.FirstLineReplaced | helpers.js:101-104 | the scan wraps the first line exactly when it is a timestamp line, keeps its terminator, and goes on with the next line at a line start |
| Rewriter.CopyRestOfLine | helpers.js:102 | away from a line start nothing matches until the next line begins |
| Rewriter.ReplaceTimestampsIsLineWise | helpers.js:101-104 | the left-to-right regex scan equals the line-by-line definition `PromoteLines` on every input |
| Rewriter.TimestampLine | helpers.js:101-104 | a line is wrapped in `<h2 class="timestamp">…</h2>` exactly when it is a timestamp line; otherwise it and its terminator are kept, and the rest is rewritten line by line |
| Rewriter.ExtraTextIsNoTimestamp | helpers.js:102 | a timestamp line followed by a space and more text is not a timestamp line |
| Rewriter.PromoteLinesWithoutStamps | helpers.js:101-104 | a body with no timestamp line is left unchanged by the line-by-line definition |
| Rewriter.ParseHtml | helpers.js:84-106 | `parseHTML`: the link rewrite, then the timestamp rewrite, then the renderer; stated by `PlainBodyUnchanged` and the lemmas on the two rewrites |
| Rewriter.PlainBodyUnchanged | helpers.js:84-106 | a body with no internal link and no timestamp line reaches the markdown renderer unchanged |
| Templates.PageTemplate | helpers.js:8-43 | `PAGE_TEMPLATE`, copied character for character; stated by `PageEmbedsVerbatim`, `RcPageHasBadge` and `RcAddsBadgeAndLoader` |
| Templates.PageEmbedsVerbatim | helpers.js:8-43 | a page starts with the shared document head and contains the title (or `undefined`), the date and the content exactly as given |
| Templates.RcPageHasBadge | helpers.js:28-36 | with `rc` set, the page contains the `rc-scout` badge div and the loader script |
| Templates.RcAddsBadgeAndLoader | helpers.js:28-36 | the page with `rc` set is the page without it with exactly two insertions, the badge in the footer and the loader after it |
| Templates.PostAnchor | helpers.js:64-66 | the anchor the index's `map` callback builds for one entry; stated by `PostAnchorShowsEntry` |
| Templates.Posts | helpers.js:62-68 | `entries.map(...).join("")`; stated by `PostsAppend` and `PostsInOrder` |
| Templates.IndexTemplate | helpers.js:45-82 | `INDEX_TEMPLATE`, copied character for character; stated by `IndexShowsEntries`, `IndexHasBadge` and `IndexOfConcat` |
| Templates.PostsAppend | helpers.js:62-68 | `map(...).join("")` has no separator: the posts of a concatenated list are the two lists' posts side by side |
| Templates.PostsInOrder | helpers.js:62-68 | entry `i`'s anchor comes right after the anchors of entries `0..i-1` and before the rest |
| Templates.PostAnchorShowsEntry | helpers.js:64-66 | each post anchor opens with `<a href="` and the link, and shows the date and the title (or `undefined`) |
| Templates.IndexShowsEntries | helpers.js:45-82 | the index page contains every entry's anchor |
| Templates.IndexHasBadge | helpers.js:45-82 | the index page starts with the shared document head and always contains the badge, whatever the entries |
| Templates.IndexOfConcat | helpers.js:45-82 | the index page of a concatenation shows the first list's posts directly followed by the second's |
| Documents.Truthy | helpers.js:114 | JavaScript truthiness: a value is falsy exactly when it is `undefined`, `null`, `false`, `0`, `NaN` or `""` |
| Documents.MatchFilename | helpers.js:118 | `exec` of the filename pattern: a match has a date as its first group and comes from a name long enough to hold the date, the title and `.md`; where it matches is stated by `MatchFilenameFirstLine` and `SingleLineFilename` |
| Documents.PageLink | helpers.js:126 | the output name of a published note; stated by `PageLinkShape` and `PublishedPageIsNotIndex` |
| Documents.ReplaceSpaces | helpers.js:126 | same length as the input, with every space replaced by `_` and every other character kept |
| Documents.ParseFile | helpers.js:108-133 | three outcomes: a falsy `publish` gives a draft whatever the name is; a truthy `publish` with a name that does not match gives `FilenameDidNotParse` (the file name in it is the model's addition); a truthy `publish` with a match gives a published record whose date is the date group and whose title is the trimmed title group, or absent when that group is empty. A published record has the page link, the rendered body, and `list = !unlisted` and `rc = !!rc` from the frontmatter |
| Documents.SingleLineFilename | helpers.js:118 | a name with no line terminator matches exactly when it is a date, anything, then any character and `md`; the groups are the first ten characters and the text up to the last three |
| Documents.MatchFilenameFirstLine | helpers.js:118 | with the `m` flag, `exec` matches at the first line of the name that matches on its own, and there is no match when no line does |
| Documents.PublishedNote | helpers.js:124-132 | for a published one-line name: the date is its first ten characters; the title is absent (`this.date` is undefined) when nothing lies between the date and the last three characters, and otherwise is that text trimmed; the flags follow the frontmatter |
| Documents.PageLinkShape | helpers.js:126 | the link is a name with no spaces followed by `.html`; that name is the file name with spaces replaced by `_`, minus a final `.md` when there is one |
| Documents.PublishedPageIsNotIndex | helpers.js:118-126 | a published note's link is never `index.html`, because a matching name has at least thirteen characters |
| Build.WritePages | script.js:38-41 | the output directory after the pages are written in order; stated by `Build`, `FoldStep`, `WrittenFiles`, `OtherFilesKept` and `LastWriteWins` |
| Build.IndexOf | script.js:38-39 | the index as pushed, in enumeration order; stated by `FoldStep`, `IndexOfAppend`, `IndexMembership` and `IndexBound` |
| Build.PublishedCount | script.js:38-42 | the `written` counter; stated by `FoldStep`, `IndexBound` and `Build` |
| Build.FirstFailure | script.js:26-36 | every note before the returned position parses, and the note at it, when there is one, throws |
| Build.Parsed | script.js:34-36 | the results of notes that all parse, one per note, in order |
| Build.Reverse | script.js:46 | `reverse()`: same length, and element `i` is element `n-1-i` of the input |
| Build.Build | script.js:20-48 | the loop writes the page of every published note before the first failure, in order. If a parse throws, it stops there, leaves `index.html` unwritten and reports the error. Otherwise it writes `index.html` from the reversed index and reports `written` = number of published notes and `index.length` = number of published, listed notes |
| Build.ProcessNote | script.js:38-43 | one loop iteration moves the written pages, the index and the counter one note further along their folds |
| Build.FoldStep | script.js:38-43 | a published note writes `PAGE_TEMPLATE(title, date, html, rc)` at its link and adds one to the count; it is pushed onto the index exactly when listed; a draft changes nothing |
| Build.LaterFilesIgnored | script.js:26-36 | once a note throws, notes enumerated after it make no difference |
| Build.IndexBound | script.js:39-42 | the index never has more entries than pages written |
| Build.IndexOfAppend | script.js:39 | the index keeps enumeration order: the entries of two batches are the first's followed by the second's |
| Build.IndexMembership | script.js:38-39 | an entry is in the index exactly when some published, listed note produced it |
| Build.NewestFirst | script.js:46 | after reversal, entries of later notes come before entries of earlier ones |
| Build.WrittenFiles | script.js:41 | the files in the output are the ones there before plus the links of the published notes |
| Build.OtherFilesKept | script.js:41 | a file no published note links to keeps its old content |
| Build.LastWriteWins | script.js:41 | a link holds the page of the last published note with that link |
| Build.BadlyNamedNoteStopsBuild | script.js:34-36 | with `parseFile` as the parser, a published note whose name does not parse is where the build stops, with `FilenameDidNotParse` |
| Build.PagesLeaveIndexAlone | script.js:41-46 | pages never write `index.html`, so a build that stops leaves the old `index.html`, or its absence, as it was |

## Left out

- `markdown.parse` (markdown-wasm) is an uninterpreted `render` parameter. `gray-matter` is not modelled: the frontmatter map and the body are given as inputs.
- `fs.readFile`, `writeFile` and `emptyDir` are not modelled, and neither are their failures or the concurrent unlinks of `emptyDir`. A write is an update to the output map. In `Build`, `parse` is a function parameter that may return any `ParseError`. Its `Thrown` constructor stands for the exceptions of reading, frontmatter parsing or rendering, which `ParseFile` does not produce. `Build.ParseNotes` plugs in `ParseFile`.
- The shell `rm`/`cp` of the output directory and static assets are left out. The caller passes in whatever the directory holds as `dist`.
- The environment variables `NOTES_DIR` and `DIST_PATH` are left out; paths are bare file names.
- The progress display (`console.draft` and the padded counter) is console output. Only the two counts in the last progress line are modelled, as `Report.Completed`.
- The deploy script is left out; it only runs external programs.
- `path.basename` handling of directory separators is left out. Names never contain `/` (`EntryName`).
- General JavaScript regular-expression semantics are left out. Only the three patterns used are modelled, by hand.
- JavaScript strings are UTF-16 code units; Dafny strings are sequences of Unicode scalar values, so a character outside the Basic Multilingual Plane is one character here and two code units there. The unescaped `.` before `md` in both the link pattern and the filename pattern matches one code unit in JavaScript. When such a character stands right before `md`, the model gives a different answer. For the name `2024-01-01😀md`, JavaScript's `.` takes the low surrogate and leaves the lone high surrogate as the title, which is truthy and becomes the title. The model's `.` takes the whole character, so its title group is empty and the title is absent (`undefined`). Likewise `[[./2024-01-01😀md]]` shows a lone surrogate in JavaScript and the date in the model. Titles ending in such a character before `md` are not modelled.
- The draft record's `null` fields are left out (`Draft` carries no data), because the loop never reads them.
- Rewriter.LinkRewritten: stated for a link with no further `md]]` after it on its line. The general case, where the greedy title runs on to a later `md]]`, is covered by `TwoLinksOnOneLineMerge` and by `LastClose`, not by one closed formula.
- Documents.PublishedNote: stated for names without line terminators. The contract of `ParseFile` and `MatchFilenameFirstLine` cover multi-line names.
- Templates.RcAddsBadgeAndLoader: says the badge and the loader are the only difference the `rc` flag makes to the page. It does not claim that a page without `rc` never contains the badge text, because a title, date or body could contain that text verbatim.
