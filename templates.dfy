/** The two HTML templates: a page for one document and the index of all
    listed documents. Both are plain string builders; every value is
    interpolated verbatim, with no HTML escaping. */
module Templates {
  import opened Wrappers
  import opened JsText

  /** How a template literal prints a title: an absent title (the
      `undefined` fallback of `parseFile`) prints as `undefined`. */
  function ShowTitle(title: Option<string>): string {
    match title
    case None => "undefined"
    case Some(t) => t
  }

  /** The Recurse Center badge and its loader script. */
  const RcBadge: string := "<div class=\"rc-scout\"></div>"
  const RcLoader: string :=
    "<script async defer src=\"https://www.recurse-scout.com/loader.js?t=86d76fd73a1916306be7e1b86b9685fa\"></script>"

  function Badge(rc: bool): string {
    if rc then RcBadge else ""
  }

  function Loader(rc: bool): string {
    if rc then RcLoader else ""
  }

  /** The opening both templates share: the doctype, the `html` element
      and the first three elements of `head` (charset, viewport, stylesheet). */
  const DocumentHead: string :=
    "<!DOCTYPE html>\n<html lang=\"en\">\n  <head>\n    <meta charset=\"UTF-8\" />\n"
    + "    <meta name=\"viewport\" content=\"width=device-width, initial-scale=1.0\" />\n"
    + "    <link rel=\"stylesheet\" href=\"static/css/style.css\" />\n"

  // The fixed text of the page template, between its interpolations.
  const PageHead: string :=
    "    <link rel=\"stylesheet\" href=\"https://cdnjs.cloudflare.com/ajax/libs/highlight.js/10.7.2/styles/default.min.css\">\n"
    + "    <title>"
  const PageAfterTitle: string :=
    "</title>\n  </head>\n  <body>\n    <div class=\"container\">\n      <div class=\"nav\">\n"
    + "        <a href=\"./\" class=\"back\">&lt;-- Back to Index</a>\n      </div>\n\n"
    + "      <div class=\"date\">"
  const PageAfterDate: string := "</div>\n\n      <div class=\"content\">"
  const PageAfterContent: string := "</div>\n    </div>\n    <footer>\n      "
  const PageAfterBadge: string :=
    "\n      <div>&copy; <a href=\"https://angad.dev/\">Angad Singh</a> 2021-</div>\n    </footer>\n\n    "
  const PageTail: string :=
    "\n    <script src=\"https://cdnjs.cloudflare.com/ajax/libs/highlight.js/10.7.2/highlight.min.js\"></script>\n"
    + "    <script>\n      hljs.highlightAll();\n    </script>\n  </body>\n</html>\n"

  /** `PAGE_TEMPLATE(title, date, content, rc)`. */
  function PageTemplate(title: Option<string>, date: string, content: string, rc: bool): string {
    DocumentHead + PageHead + ShowTitle(title) + PageAfterTitle + date + PageAfterDate + content
    + PageAfterContent + Badge(rc) + PageAfterBadge + Loader(rc) + PageTail
  }

  /** Where the pieces of a twelve-part concatenation sit: the first is a
      prefix and every second one from the third on occurs in it. */
  lemma TwelveParts(s0: string, s1: string, s2: string, s3: string, s4: string, s5: string,
                    s6: string, s7: string, s8: string, s9: string, s10: string, s11: string)
    ensures var s := s0 + s1 + s2 + s3 + s4 + s5 + s6 + s7 + s8 + s9 + s10 + s11;
            OccursAt(s, 0, s0) && Contains(s, s2) && Contains(s, s4) && Contains(s, s6)
            && Contains(s, s8) && Contains(s, s10)
  {
    OccursAtEnd([], s0);
    assert [] + s0 == s0;
    OccursExtends(s0, s1, 0, s0);
    OccursExtends(s0 + s1, s2, 0, s0);
    OccursExtends(s0 + s1 + s2, s3, 0, s0);
    OccursExtends(s0 + s1 + s2 + s3, s4, 0, s0);
    OccursExtends(s0 + s1 + s2 + s3 + s4, s5, 0, s0);
    OccursExtends(s0 + s1 + s2 + s3 + s4 + s5, s6, 0, s0);
    OccursExtends(s0 + s1 + s2 + s3 + s4 + s5 + s6, s7, 0, s0);
    OccursExtends(s0 + s1 + s2 + s3 + s4 + s5 + s6 + s7, s8, 0, s0);
    OccursExtends(s0 + s1 + s2 + s3 + s4 + s5 + s6 + s7 + s8, s9, 0, s0);
    OccursExtends(s0 + s1 + s2 + s3 + s4 + s5 + s6 + s7 + s8 + s9, s10, 0, s0);
    OccursExtends(s0 + s1 + s2 + s3 + s4 + s5 + s6 + s7 + s8 + s9 + s10, s11, 0, s0);
    OccursAtEnd(s0 + s1, s2);
    OccursExtends(s0 + s1 + s2, s3, |s0 + s1|, s2);
    OccursExtends(s0 + s1 + s2 + s3, s4, |s0 + s1|, s2);
    OccursExtends(s0 + s1 + s2 + s3 + s4, s5, |s0 + s1|, s2);
    OccursExtends(s0 + s1 + s2 + s3 + s4 + s5, s6, |s0 + s1|, s2);
    OccursExtends(s0 + s1 + s2 + s3 + s4 + s5 + s6, s7, |s0 + s1|, s2);
    OccursExtends(s0 + s1 + s2 + s3 + s4 + s5 + s6 + s7, s8, |s0 + s1|, s2);
    OccursExtends(s0 + s1 + s2 + s3 + s4 + s5 + s6 + s7 + s8, s9, |s0 + s1|, s2);
    OccursExtends(s0 + s1 + s2 + s3 + s4 + s5 + s6 + s7 + s8 + s9, s10, |s0 + s1|, s2);
    OccursExtends(s0 + s1 + s2 + s3 + s4 + s5 + s6 + s7 + s8 + s9 + s10, s11, |s0 + s1|, s2);
    OccursAtEnd(s0 + s1 + s2 + s3, s4);
    OccursExtends(s0 + s1 + s2 + s3 + s4, s5, |s0 + s1 + s2 + s3|, s4);
    OccursExtends(s0 + s1 + s2 + s3 + s4 + s5, s6, |s0 + s1 + s2 + s3|, s4);
    OccursExtends(s0 + s1 + s2 + s3 + s4 + s5 + s6, s7, |s0 + s1 + s2 + s3|, s4);
    OccursExtends(s0 + s1 + s2 + s3 + s4 + s5 + s6 + s7, s8, |s0 + s1 + s2 + s3|, s4);
    OccursExtends(s0 + s1 + s2 + s3 + s4 + s5 + s6 + s7 + s8, s9, |s0 + s1 + s2 + s3|, s4);
    OccursExtends(s0 + s1 + s2 + s3 + s4 + s5 + s6 + s7 + s8 + s9, s10, |s0 + s1 + s2 + s3|, s4);
    OccursExtends(s0 + s1 + s2 + s3 + s4 + s5 + s6 + s7 + s8 + s9 + s10, s11, |s0 + s1 + s2 + s3|, s4);
    OccursAtEnd(s0 + s1 + s2 + s3 + s4 + s5, s6);
    OccursExtends(s0 + s1 + s2 + s3 + s4 + s5 + s6, s7, |s0 + s1 + s2 + s3 + s4 + s5|, s6);
    OccursExtends(s0 + s1 + s2 + s3 + s4 + s5 + s6 + s7, s8, |s0 + s1 + s2 + s3 + s4 + s5|, s6);
    OccursExtends(s0 + s1 + s2 + s3 + s4 + s5 + s6 + s7 + s8, s9, |s0 + s1 + s2 + s3 + s4 + s5|, s6);
    OccursExtends(s0 + s1 + s2 + s3 + s4 + s5 + s6 + s7 + s8 + s9, s10, |s0 + s1 + s2 + s3 + s4 + s5|, s6);
    OccursExtends(s0 + s1 + s2 + s3 + s4 + s5 + s6 + s7 + s8 + s9 + s10, s11, |s0 + s1 + s2 + s3 + s4 + s5|, s6);
    OccursAtEnd(s0 + s1 + s2 + s3 + s4 + s5 + s6 + s7, s8);
    OccursExtends(s0 + s1 + s2 + s3 + s4 + s5 + s6 + s7 + s8, s9, |s0 + s1 + s2 + s3 + s4 + s5 + s6 + s7|, s8);
    OccursExtends(s0 + s1 + s2 + s3 + s4 + s5 + s6 + s7 + s8 + s9, s10, |s0 + s1 + s2 + s3 + s4 + s5 + s6 + s7|, s8);
    OccursExtends(s0 + s1 + s2 + s3 + s4 + s5 + s6 + s7 + s8 + s9 + s10, s11, |s0 + s1 + s2 + s3 + s4 + s5 + s6 + s7|, s8);
    OccursAtEnd(s0 + s1 + s2 + s3 + s4 + s5 + s6 + s7 + s8 + s9, s10);
    OccursExtends(s0 + s1 + s2 + s3 + s4 + s5 + s6 + s7 + s8 + s9 + s10, s11, |s0 + s1 + s2 + s3 + s4 + s5 + s6 + s7 + s8 + s9|, s10);
  }

  /** A string occurs, unmoved, in any extension of a string it occurs in. */
  lemma OccursExtends(a: string, b: string, i: nat, w: string)
    requires OccursAt(a, i, w)
    ensures OccursAt(a + b, i, w)
  {
    assert (a + b)[i..i + |w|] == a[i..i + |w|];
  }

  lemma OccursAtEnd(a: string, w: string)
    ensures OccursAt(a + w, |a|, w)
  {
    assert (a + w)[|a|..|a| + |w|] == w;
  }

  /** Every page opens with the document head the index shares, and the
      title (or `undefined`), the date and the rendered content appear in it
      exactly as given. */
  lemma PageEmbedsVerbatim(title: Option<string>, date: string, content: string, rc: bool)
    ensures OccursAt(PageTemplate(title, date, content, rc), 0, DocumentHead)
    ensures Contains(PageTemplate(title, date, content, rc), ShowTitle(title))
    ensures Contains(PageTemplate(title, date, content, rc), date)
    ensures Contains(PageTemplate(title, date, content, rc), content)
  {
    TwelveParts(DocumentHead, PageHead, ShowTitle(title), PageAfterTitle, date, PageAfterDate, content,
                PageAfterContent, Badge(rc), PageAfterBadge, Loader(rc), PageTail);
  }

  /** With `rc` set the page carries the badge and its loader. */
  lemma RcPageHasBadge(title: Option<string>, date: string, content: string)
    ensures Contains(PageTemplate(title, date, content, true), RcBadge)
    ensures Contains(PageTemplate(title, date, content, true), RcLoader)
  {
    TwelveParts(DocumentHead, PageHead, ShowTitle(title), PageAfterTitle, date, PageAfterDate, content,
                PageAfterContent, RcBadge, PageAfterBadge, RcLoader, PageTail);
  }

  /** A page with `rc` set is the same page without it, with the badge
      inserted into the footer and the loader script inserted after it;
      nothing else differs. */
  lemma RcAddsBadgeAndLoader(title: Option<string>, date: string, content: string)
    returns (x: string, y: string, z: string)
    ensures PageTemplate(title, date, content, false) == x + y + z
    ensures PageTemplate(title, date, content, true) == x + RcBadge + y + RcLoader + z
  {
    x := DocumentHead + PageHead + ShowTitle(title) + PageAfterTitle + date + PageAfterDate + content
         + PageAfterContent;
    y, z := PageAfterBadge, PageTail;
    assert x + "" == x;
    assert x + y + "" == x + y;
  }

  /** One entry of the index: the `{link, title, date}` record the build
      loop pushes. */
  datatype IndexEntry = IndexEntry(link: string, title: Option<string>, date: string)

  /** The anchor the index's `map` callback produces for one entry. */
  function PostAnchor(e: IndexEntry): string {
    PostOpen + e.link + PostAfterLink + e.date + PostAfterDate + ShowTitle(e.title) + PostClose
  }

  const PostOpen: string := "<a href=\""
  const PostAfterLink: string := "\" class=\"post\">\n          <span class=\"date\">"
  const PostAfterDate: string := "</span> "
  const PostClose: string := "\n        </a>"

  /** `index.map(PostAnchor).join("")`. */
  function Posts(entries: seq<IndexEntry>): string
    decreases |entries|
  {
    if entries == [] then "" else PostAnchor(entries[0]) + Posts(entries[1..])
  }

  const IndexHead: string :=
    "    <title>Angad's Notes</title>\n  </head>\n  <body>\n    <div class=\"container\">\n"
    + "      <h1>Angad's Notes</h1>\n      <p>\n"
    + "        Miscellaneous thoughts and lessons learned while programming (usually\n"
    + "        the hard way).\n      </p>\n\n      <div class=\"posts\">\n      "
  const IndexAfterPosts: string := "\n      </div>\n    </div>\n    <footer>\n      "
  const IndexTail: string :=
    "\n      <div>&copy; <a href=\"https://angad.dev/\">Angad Singh</a> 2021-</div>\n    </footer>\n\n"
    + "    <script\n      async\n      defer\n"
    + "      src=\"https://www.recurse-scout.com/loader.js?t=86d76fd73a1916306be7e1b86b9685fa\"\n"
    + "    ></script>\n  </body>\n</html>"

  /** `INDEX_TEMPLATE(index)`. */
  function IndexTemplate(entries: seq<IndexEntry>): string {
    DocumentHead + IndexHead + Posts(entries) + IndexAfterPosts + RcBadge + IndexTail
  }

  /** Joining with no separator: the posts of two lists side by side are the
      posts of the concatenated list. */
  lemma {:induction false} PostsAppend(a: seq<IndexEntry>, b: seq<IndexEntry>)
    ensures Posts(a + b) == Posts(a) + Posts(b)
    decreases |a|
  {
    if a == [] {
      assert a + b == b;
    } else {
      assert (a + b)[1..] == a[1..] + b;
      PostsAppend(a[1..], b);
    }
  }

  lemma PostsSingle(e: IndexEntry)
    ensures Posts([e]) == PostAnchor(e)
  {
    assert [e][1..] == [];
  }

  /** The posts of a list are its entries' anchors in order: entry `i`'s
      anchor sits right after the anchors of the entries before it. */
  lemma PostsInOrder(entries: seq<IndexEntry>, i: nat)
    requires i < |entries|
    ensures Posts(entries) == Posts(entries[..i]) + PostAnchor(entries[i]) + Posts(entries[i + 1..])
  {
    var pre, e, post := entries[..i], entries[i], entries[i + 1..];
    SplitAround(entries, i);
    PostsAppend(pre + [e], post);
    PostsAppend(pre, [e]);
    PostsSingle(e);
  }

  /** Where the pieces of a seven-part concatenation sit. */
  lemma SevenParts(s0: string, s1: string, s2: string, s3: string, s4: string, s5: string, s6: string)
    ensures var s := s0 + s1 + s2 + s3 + s4 + s5 + s6;
            OccursAt(s, 0, s0 + s1) && Contains(s, s3) && Contains(s, s5)
  {
    var s := s0 + s1 + s2 + s3 + s4 + s5 + s6;
    assert s == [] + (s0 + s1) + (s2 + s3 + s4 + s5 + s6);
    OccursInMiddle([], s0 + s1, s2 + s3 + s4 + s5 + s6);
    assert s == (s0 + s1 + s2) + s3 + (s4 + s5 + s6);
    OccursInMiddle(s0 + s1 + s2, s3, s4 + s5 + s6);
    assert s == (s0 + s1 + s2 + s3 + s4) + s5 + s6;
    OccursInMiddle(s0 + s1 + s2 + s3 + s4, s5, s6);
  }

  /** Each entry's anchor opens with a link to its page and shows its date
      and its title (or `undefined`). */
  lemma PostAnchorShowsEntry(e: IndexEntry)
    ensures OccursAt(PostAnchor(e), 0, PostOpen + e.link)
    ensures Contains(PostAnchor(e), e.date) && Contains(PostAnchor(e), ShowTitle(e.title))
  {
    SevenParts(PostOpen, e.link, PostAfterLink, e.date, PostAfterDate, ShowTitle(e.title), PostClose);
  }

  /** Where the pieces of a six-part concatenation sit. */
  lemma SixParts(s0: string, s1: string, s2: string, s3: string, s4: string, s5: string)
    ensures var s := s0 + s1 + s2 + s3 + s4 + s5;
            OccursAt(s, 0, s0) && Contains(s, s4)
  {
    var s := s0 + s1 + s2 + s3 + s4 + s5;
    assert s == [] + s0 + (s1 + s2 + s3 + s4 + s5);
    OccursInMiddle([], s0, s1 + s2 + s3 + s4 + s5);
    OccursInMiddle(s0 + s1 + s2 + s3, s4, s5);
  }

  /** The index opens with the shared document head and always carries the
      badge, whatever the entries are. */
  lemma IndexHasBadge(entries: seq<IndexEntry>)
    ensures OccursAt(IndexTemplate(entries), 0, DocumentHead)
    ensures Contains(IndexTemplate(entries), RcBadge)
  {
    SixParts(DocumentHead, IndexHead, Posts(entries), IndexAfterPosts, RcBadge, IndexTail);
  }

  /** The index shows every entry's anchor, in the given order. */
  lemma IndexShowsEntries(entries: seq<IndexEntry>, i: nat)
    requires i < |entries|
    ensures Contains(IndexTemplate(entries), PostAnchor(entries[i]))
  {
    PostsInOrder(entries, i);
    InThirdPart(DocumentHead, IndexHead, Posts(entries), IndexAfterPosts, RcBadge, IndexTail,
                Posts(entries[..i]), PostAnchor(entries[i]), Posts(entries[i + 1..]));
  }

  /** A string inside the third of six concatenated parts occurs in the whole. */
  lemma InThirdPart(s0: string, s1: string, s2: string, s3: string, s4: string, s5: string,
                    a: string, w: string, b: string)
    requires s2 == a + w + b
    ensures Contains(s0 + s1 + s2 + s3 + s4 + s5, w)
  {
    OccursAtEnd(s0 + s1 + a, w);
    OccursExtends(s0 + s1 + a + w, b, |s0 + s1 + a|, w);
    assert s0 + s1 + a + w + b == s0 + s1 + s2;
    OccursExtends(s0 + s1 + s2, s3, |s0 + s1 + a|, w);
    OccursExtends(s0 + s1 + s2 + s3, s4, |s0 + s1 + a|, w);
    OccursExtends(s0 + s1 + s2 + s3 + s4, s5, |s0 + s1 + a|, w);
  }

  /** The index of a concatenation lists the first part's posts, then the
      second's, with nothing between them. */
  lemma IndexOfConcat(a: seq<IndexEntry>, b: seq<IndexEntry>)
    ensures IndexTemplate(a + b)
            == DocumentHead + IndexHead + (Posts(a) + Posts(b)) + IndexAfterPosts + RcBadge + IndexTail
  {
    PostsAppend(a, b);
  }
}
