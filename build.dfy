/** The build loop: every enumerated note is parsed in order, each published
    note's page is written under its link, published and listed notes are
    collected for the index, and finally the index is written, newest note
    first. The output directory is a map from file names to contents. */
module Build {
  import opened Wrappers
  import opened Templates
  import opened Documents

  /** What the run ends with: the final progress line's two counts, or the
      exception that the surrounding `catch` logs. */
  datatype Report = Completed(written: nat, indexed: nat) | Aborted(error: ParseError)

  /** The position of the first note whose parse throws, or the number of
      notes when none does. */
  function FirstFailure(files: seq<EntryName>, parse: EntryName -> Result<ParsedDoc, ParseError>): (n: nat)
    ensures n <= |files|
    ensures forall i :: 0 <= i < n ==> parse(files[i]).Ok?
    ensures n < |files| ==> parse(files[n]).Err?
    decreases |files|
  {
    if files == [] || parse(files[0]).Err? then 0 else 1 + FirstFailure(files[1..], parse)
  }

  /** The parse results of notes that all parse. */
  function Parsed(files: seq<EntryName>, parse: EntryName -> Result<ParsedDoc, ParseError>): (docs: seq<ParsedDoc>)
    requires forall i :: 0 <= i < |files| ==> parse(files[i]).Ok?
    ensures |docs| == |files|
    ensures forall i :: 0 <= i < |files| ==> docs[i] == parse(files[i]).value
    decreases |files|
  {
    if files == [] then [] else Parsed(files[..|files| - 1], parse) + [parse(files[|files| - 1]).value]
  }

  /** The page written for a published note. */
  function Page(d: ParsedDoc): string
    requires d.Published?
  {
    PageTemplate(d.title, d.date, d.html, d.rc)
  }

  /** The record pushed onto the index for a listed note. */
  function EntryOf(d: ParsedDoc): IndexEntry
    requires d.Published?
  {
    IndexEntry(d.link, d.title, d.date)
  }

  /** The output directory after the pages of `docs` are written in order. */
  function WritePages(dist: map<string, string>, docs: seq<ParsedDoc>): map<string, string>
    decreases |docs|
  {
    if docs == [] then dist
    else
      var d := docs[|docs| - 1];
      var before := WritePages(dist, docs[..|docs| - 1]);
      if d.Published? then before[d.link := Page(d)] else before
  }

  /** The index as accumulated, in enumeration order. */
  function IndexOf(docs: seq<ParsedDoc>): seq<IndexEntry>
    decreases |docs|
  {
    if docs == [] then []
    else
      var d := docs[|docs| - 1];
      IndexOf(docs[..|docs| - 1]) + if d.Published? && d.list then [EntryOf(d)] else []
  }

  /** The number of published notes. */
  function PublishedCount(docs: seq<ParsedDoc>): nat
    decreases |docs|
  {
    if docs == [] then 0
    else PublishedCount(docs[..|docs| - 1]) + if docs[|docs| - 1].Published? then 1 else 0
  }

  /** The links of the published notes. */
  ghost function Links(docs: seq<ParsedDoc>): set<string> {
    set i | 0 <= i < |docs| && docs[i].Published? :: docs[i].link
  }

  /** `Array.prototype.reverse`. */
  function Reverse<T>(s: seq<T>): (r: seq<T>)
    ensures |r| == |s|
    ensures forall i :: 0 <= i < |s| ==> r[i] == s[|s| - 1 - i]
    decreases |s|
  {
    if s == [] then [] else [s[|s| - 1]] + Reverse(s[..|s| - 1])
  }

  /** The loop of the build script over the enumerated notes. */
  method Build(files: seq<EntryName>, parse: EntryName -> Result<ParsedDoc, ParseError>,
               dist: map<string, string>)
    returns (out: map<string, string>, report: Report)
    ensures var n := FirstFailure(files, parse);
            var docs := Parsed(files[..n], parse);
            if n < |files| then
              out == WritePages(dist, docs) && report == Aborted(parse(files[n]).error)
            else
              out == WritePages(dist, docs)["index.html" := IndexTemplate(Reverse(IndexOf(docs)))]
              && report == Completed(PublishedCount(docs), |IndexOf(docs)|)
  {
    var index: seq<IndexEntry> := [];
    var written := 0;
    out := dist;
    var i := 0;
    ghost var docs: seq<ParsedDoc> := [];
    while i < |files|
      invariant i <= FirstFailure(files, parse)
      invariant docs == Parsed(files[..i], parse)
      invariant out == WritePages(dist, docs)
      invariant index == IndexOf(docs)
      invariant written == PublishedCount(docs)
    {
      var r := parse(files[i]);
      if r.Err? {
        FailureAt(files, parse, i);
        report := Aborted(r.error);
        return;
      }
      var d := r.value;
      ParsedStep(files, parse, i);
      out, index, written := ProcessNote(dist, docs, out, index, written, d);
      docs := docs + [d];
      i := i + 1;
    }
    assert files[..i] == files;
    index := Reverse(index);
    out := out["index.html" := IndexTemplate(index)];
    report := Completed(written, |index|);
  }

  /** The body of the loop for a note that parsed: a published note's page
      is written and counted, and the note is pushed onto the index when it
      is listed; a draft changes nothing. */
  method ProcessNote(ghost dist: map<string, string>, ghost docs: seq<ParsedDoc>,
                     out: map<string, string>, index: seq<IndexEntry>, written: nat, d: ParsedDoc)
    returns (out': map<string, string>, index': seq<IndexEntry>, written': nat)
    requires out == WritePages(dist, docs) && index == IndexOf(docs) && written == PublishedCount(docs)
    ensures out' == WritePages(dist, docs + [d])
    ensures index' == IndexOf(docs + [d])
    ensures written' == PublishedCount(docs + [d])
  {
    FoldStep(dist, docs, d);
    out', index', written' := out, index, written;
    if d.Published? {
      if d.list {
        index' := index' + [EntryOf(d)];
      }
      out' := out'[d.link := Page(d)];
      written' := written' + 1;
    }
  }

  /** A note that throws while every note before it parsed is the first
      failure. */
  lemma FailureAt(files: seq<EntryName>, parse: EntryName -> Result<ParsedDoc, ParseError>, i: nat)
    requires i < |files| && i <= FirstFailure(files, parse) && parse(files[i]).Err?
    ensures FirstFailure(files, parse) == i
  {
  }

  /** Processing one more note: a published one writes its page and counts,
      and is indexed when listed; a draft changes nothing. */
  lemma FoldStep(dist: map<string, string>, docs: seq<ParsedDoc>, d: ParsedDoc)
    ensures WritePages(dist, docs + [d])
            == if d.Published? then WritePages(dist, docs)[d.link := Page(d)] else WritePages(dist, docs)
    ensures IndexOf(docs + [d]) == IndexOf(docs) + if d.Published? && d.list then [EntryOf(d)] else []
    ensures PublishedCount(docs + [d]) == PublishedCount(docs) + if d.Published? then 1 else 0
  {
    assert (docs + [d])[..|docs|] == docs;
  }

  /** One more note parsed extends the results by its result. */
  lemma ParsedStep(files: seq<EntryName>, parse: EntryName -> Result<ParsedDoc, ParseError>, i: nat)
    requires i < |files| && i <= FirstFailure(files, parse) && parse(files[i]).Ok?
    ensures i < FirstFailure(files, parse)
    ensures Parsed(files[..i + 1], parse) == Parsed(files[..i], parse) + [parse(files[i]).value]
  {
    assert files[..i + 1][..i] == files[..i];
  }

  /** Once a note throws, the notes enumerated after it make no difference:
      they are never parsed. */
  lemma {:induction false} LaterFilesIgnored(files: seq<EntryName>, more: seq<EntryName>,
                                             parse: EntryName -> Result<ParsedDoc, ParseError>)
    requires FirstFailure(files, parse) < |files|
    ensures FirstFailure(files + more, parse) == FirstFailure(files, parse)
    decreases |files|
  {
    assert (files + more)[0] == files[0];
    if parse(files[0]).Ok? {
      assert (files + more)[1..] == files[1..] + more;
      LaterFilesIgnored(files[1..], more, parse);
    }
  }

  /** The index never lists more notes than there are pages. */
  lemma {:induction false} IndexBound(docs: seq<ParsedDoc>)
    ensures |IndexOf(docs)| <= PublishedCount(docs)
    decreases |docs|
  {
    if docs != [] {
      IndexBound(docs[..|docs| - 1]);
    }
  }

  /** The index of notes enumerated one batch after another is the first
      batch's entries followed by the second's. */
  lemma {:induction false} IndexOfAppend(a: seq<ParsedDoc>, b: seq<ParsedDoc>)
    ensures IndexOf(a + b) == IndexOf(a) + IndexOf(b)
    decreases |b|
  {
    if b == [] {
      assert a + b == a;
    } else {
      var b' := b[..|b| - 1];
      assert (a + b)[..|a + b| - 1] == a + b';
      IndexOfAppend(a, b');
    }
  }

  /** An entry is in the index exactly when some published, listed note
      produced it. */
  lemma {:induction false} IndexMembership(docs: seq<ParsedDoc>, e: IndexEntry)
    ensures e in IndexOf(docs) <==>
              exists i :: 0 <= i < |docs| && docs[i].Published? && docs[i].list && EntryOf(docs[i]) == e
    decreases |docs|
  {
    if docs != [] {
      var front := docs[..|docs| - 1];
      IndexMembership(front, e);
      forall i | 0 <= i < |front| ensures front[i] == docs[i] {}
      if e in IndexOf(front) {
        var i :| 0 <= i < |front| && front[i].Published? && front[i].list && EntryOf(front[i]) == e;
        assert docs[i] == front[i];
      }
    }
  }

  /** The index page lists later notes first: reversing the accumulated
      index puts the second batch's entries, newest first, before the
      first batch's. */
  lemma NewestFirst(a: seq<ParsedDoc>, b: seq<ParsedDoc>)
    ensures Reverse(IndexOf(a + b)) == Reverse(IndexOf(b)) + Reverse(IndexOf(a))
  {
    IndexOfAppend(a, b);
    ReverseAppend(IndexOf(a), IndexOf(b));
  }

  lemma ReverseAppend<T>(a: seq<T>, b: seq<T>)
    ensures Reverse(a + b) == Reverse(b) + Reverse(a)
  {
    var r, l := Reverse(a + b), Reverse(b) + Reverse(a);
    assert |r| == |l|;
    forall i | 0 <= i < |r| ensures r[i] == l[i] {
      if i < |b| {
        assert l[i] == Reverse(b)[i];
      } else {
        assert l[i] == Reverse(a)[i - |b|];
      }
    }
  }

  /** The files in the output directory are the ones it held before and the
      links of the published notes. */
  lemma {:induction false} WrittenFiles(dist: map<string, string>, docs: seq<ParsedDoc>)
    ensures WritePages(dist, docs).Keys == dist.Keys + Links(docs)
    decreases |docs|
  {
    if docs != [] {
      var front := docs[..|docs| - 1];
      WrittenFiles(dist, front);
      LinksStep(front, docs[|docs| - 1]);
      assert docs == front + [docs[|docs| - 1]];
    }
  }

  lemma LinksStep(docs: seq<ParsedDoc>, d: ParsedDoc)
    ensures Links(docs + [d]) == Links(docs) + if d.Published? then {d.link} else {}
  {
    var all := docs + [d];
    forall x | x in Links(all) ensures x in Links(docs) + if d.Published? then {d.link} else {} {
      var i :| 0 <= i < |all| && all[i].Published? && all[i].link == x;
      if i < |docs| {
        assert docs[i] == all[i];
      }
    }
    forall x | x in Links(docs) ensures x in Links(all) {
      var i :| 0 <= i < |docs| && docs[i].Published? && docs[i].link == x;
      assert all[i] == docs[i];
    }
    if d.Published? {
      assert all[|docs|] == d;
    }
  }

  /** A file that no published note links to keeps its old content. */
  lemma {:induction false} OtherFilesKept(dist: map<string, string>, docs: seq<ParsedDoc>, name: string)
    requires forall i :: 0 <= i < |docs| && docs[i].Published? ==> docs[i].link != name
    ensures (name in WritePages(dist, docs)) == (name in dist)
    ensures name in dist ==> WritePages(dist, docs)[name] == dist[name]
    decreases |docs|
  {
    if docs != [] {
      var front := docs[..|docs| - 1];
      assert forall i :: 0 <= i < |front| ==> front[i] == docs[i];
      OtherFilesKept(dist, front, name);
    }
  }

  /** Last write wins: a page holds the note of the latest published note
      with that link. */
  lemma {:induction false} LastWriteWins(dist: map<string, string>, docs: seq<ParsedDoc>, i: nat)
    requires i < |docs| && docs[i].Published?
    requires forall j :: i < j < |docs| && docs[j].Published? ==> docs[j].link != docs[i].link
    ensures docs[i].link in WritePages(dist, docs)
    ensures WritePages(dist, docs)[docs[i].link] == Page(docs[i])
    decreases |docs|
  {
    var front := docs[..|docs| - 1];
    if i < |docs| - 1 {
      assert forall j :: 0 <= j < |front| ==> front[j] == docs[j];
      LastWriteWins(dist, front, i);
    }
  }

  /** A note as it sits in the notes directory: its frontmatter and body. */
  datatype Note = Note(data: map<string, JsValue>, content: string)

  /** `parseFile` over a directory of notes, with `render` the markdown
      renderer. */
  function ParseNotes(notes: EntryName -> Note, render: string -> string): EntryName -> Result<ParsedDoc, ParseError> {
    (f: EntryName) => ParseFile(f, notes(f).data, notes(f).content, render)
  }

  /** A published note whose name does not parse ends the build there, with
      that error, once every note before it has parsed. */
  lemma BadlyNamedNoteStopsBuild(files: seq<EntryName>, notes: EntryName -> Note, render: string -> string,
                                 k: nat)
    requires k < |files|
    requires forall j :: 0 <= j < k ==> ParseNotes(notes, render)(files[j]).Ok?
    requires Truthy(Lookup(notes(files[k]).data, "publish")) && MatchFilename(files[k]).None?
    ensures FirstFailure(files, ParseNotes(notes, render)) == k
    ensures ParseNotes(notes, render)(files[k]) == Err(FilenameDidNotParse(files[k]))
  {
    var parse := ParseNotes(notes, render);
    assert parse(files[k]).Err?;
  }

  /** Pages never write `index.html`, so a build that stops leaves whatever
      index the directory held, and a finished build's index is the one it
      writes last. */
  lemma PagesLeaveIndexAlone(dist: map<string, string>, files: seq<EntryName>, notes: EntryName -> Note,
                             render: string -> string, n: nat)
    requires n <= FirstFailure(files, ParseNotes(notes, render))
    ensures var out := WritePages(dist, Parsed(files[..n], ParseNotes(notes, render)));
            ("index.html" in out <==> "index.html" in dist)
            && ("index.html" in dist ==> out["index.html"] == dist["index.html"])
  {
    var parse := ParseNotes(notes, render);
    var docs := Parsed(files[..n], parse);
    forall i | 0 <= i < |docs| && docs[i].Published? ensures docs[i].link != "index.html" {
      var f := files[i];
      assert parse(f) == Ok(docs[i]);
      PublishedPageIsNotIndex(f, notes(f).data, notes(f).content, render);
    }
    OtherFilesKept(dist, docs, "index.html");
  }
}
