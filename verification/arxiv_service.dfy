/**
  The arXiv client of the service layer: the query strings and parameters it
  sends, the reading of feed entries into papers, the cache file name of a
  paper's PDF, and the validated download with its retry schedule. The HTTP
  exchange is an oracle, and the XML feed arrives as abstracted entries.
*/
module ArxivService {
  import opened Wrappers
  import opened Text
  import opened Xml

  // ---------------------------------------------------------------- PDF header

  newtype Byte = b: int | 0 <= b < 256

  /** `b"%PDF-"`: the header a PDF file starts with (ISO 32000-1 section 7.5.2). */
  const PdfMagic: seq<Byte> := [0x25, 0x50, 0x44, 0x46, 0x2D]

  /** `_is_pdf_bytes`: the first five bytes are `%PDF-`. */
  function IsPdfBytes(data: seq<Byte>): (b: bool)
    ensures b <==> |data| >= 5 && data[..5] == PdfMagic
  {
    StartsWith(Take(data, 5), PdfMagic)
  }

  // ---------------------------------------------------------------- settings

  /** The settings the client reads; `None` stands for an unset value. */
  datatype Settings = Settings(
    searchCategory: seq<String>, maxResults: Option<int>,
    downloadMaxRetries: Option<int>, downloadRetryDelayBase: Option<real>)

  /** `int(x or default)`: an unset or zero setting takes the default. */
  function IntOr(x: Option<int>, default: int): int {
    if x.Some? && x.value != 0 then x.value else default
  }

  /** `float(x or default)`. */
  function RealOr(x: Option<real>, default: real): real {
    if x.Some? && x.value != 0.0 then x.value else default
  }

  /** Python truthiness of an optional string argument. */
  predicate Given(s: Option<String>) {
    s.Some? && s.value != []
  }

  // ---------------------------------------------------------------- the search query

  /** `[f"cat:{cat}" for cat in categories]`. */
  function CategoryTerms(cats: seq<String>): (ts: seq<String>)
    ensures |ts| == |cats| && forall i :: 0 <= i < |cats| ==> ts[i] == "cat:" + cats[i]
  {
    seq(|cats|, i requires 0 <= i < |cats| => "cat:" + cats[i])
  }

  /** The category part of the query: one `cat:` term, or all of them OR-ed in parentheses. */
  function CategoryQuery(cats: seq<String>): String {
    if |cats| == 1 then "cat:" + cats[0] else "(" + Join(" OR ", CategoryTerms(cats)) + ")"
  }

  /** The submission-date restriction: empty unless a bound is given; a missing bound is `*`. */
  function DateClause(fromDate: Option<String>, toDate: Option<String>): (r: String)
    ensures r == [] <==> !Given(fromDate) && !Given(toDate)
  {
    if Given(fromDate) || Given(toDate) then
      var lo := if Given(fromDate) then fromDate.value + "2000" else "*";
      var hi := if Given(toDate) then toDate.value + "2359" else "*";
      " AND submittedDate:[" + lo + "+TO+" + hi + "]"
    else []
  }

  /** The query `fetch_papers` builds from the configured categories and the date bounds. */
  method BuildSearchQuery(cats: seq<String>, fromDate: Option<String>, toDate: Option<String>) returns (searchQuery: String)
    ensures searchQuery == CategoryQuery(cats) + DateClause(fromDate, toDate)
  {
    if |cats| == 1 {
      searchQuery := "cat:" + cats[0];
    } else {
      var terms := [];
      for i := 0 to |cats|
        invariant terms == CategoryTerms(cats[..i])
      {
        terms := terms + ["cat:" + cats[i]];
      }
      assert cats[..|cats|] == cats;
      searchQuery := "(" + Join(" OR ", terms) + ")";
    }
    if Given(fromDate) || Given(toDate) {
      var dateFrom := if Given(fromDate) then fromDate.value + "2000" else "*";
      var dateTo := if Given(toDate) then toDate.value + "2359" else "*";
      var clause := " AND submittedDate:[" + dateFrom + "+TO+" + dateTo + "]";
      assert clause == DateClause(fromDate, toDate);
      searchQuery := searchQuery + clause;
    }
  }

  /** The terms interleaved with `OR`: `[t0, "OR", t1, "OR", t2]`. */
  function WithOr(ts: seq<String>): (r: seq<String>)
    requires ts != []
    ensures |r| == 2 * |ts| - 1
    ensures forall k :: 0 <= k < |r| ==> r[k] == if k % 2 == 0 then ts[k / 2] else "OR"
  {
    if |ts| == 1 then ts else [ts[0], "OR"] + WithOr(ts[1..])
  }

  /** Joining with `" OR "` is joining the `OR`-interleaved terms with single spaces. */
  lemma {:induction false} JoinOr(ts: seq<String>)
    requires ts != []
    ensures Join(" OR ", ts) == Join(" ", WithOr(ts))
  {
    if |ts| > 1 {
      JoinOr(ts[1..]);
      var w := WithOr(ts[1..]);
      assert ([ts[0], "OR"] + w)[1..] == ["OR"] + w;
      assert (["OR"] + w)[1..] == w;
    }
  }

  /**
    With several categories none of which holds a space, the query's inner text
    splits at spaces into the `cat:` terms, in list order, separated by `OR`:
    the categories can be read back from the query.
  */
  lemma CategoriesReadBack(cats: seq<String>)
    requires |cats| >= 2 && forall c :: c in cats ==> ' ' !in c
    ensures var q := CategoryQuery(cats);
            && |q| >= 2 && q[0] == '(' && q[|q| - 1] == ')'
            && var parts := SplitOn(q[1..|q| - 1], ' ');
               && |parts| == 2 * |cats| - 1
               && forall k :: 0 <= k < |parts| ==> parts[k] == if k % 2 == 0 then "cat:" + cats[k / 2] else "OR"
  {
    var ts := CategoryTerms(cats);
    var inner := Join(" OR ", ts);
    var q := CategoryQuery(cats);
    assert q == "(" + inner + ")";
    assert q[1..|q| - 1] == inner;
    var w := WithOr(ts);
    assert SplitOn(inner, ' ') == w by {
      JoinOr(ts);
      WithOrNoSpace(cats);
      SplitOnJoin(w, ' ');
    }
  }

  /** No `OR`-interleaved term holds a space when no category does. */
  lemma WithOrNoSpace(cats: seq<String>)
    requires |cats| >= 2 && forall c :: c in cats ==> ' ' !in c
    ensures forall p :: p in WithOr(CategoryTerms(cats)) ==> ' ' !in p
  {
    var w := WithOr(CategoryTerms(cats));
    forall p | p in w
      ensures ' ' !in p
    {
      var k :| 0 <= k < |w| && w[k] == p;
      if k % 2 == 0 {
        assert cats[k / 2] in cats;
      }
    }
  }

  /** A present bound appears with its time of day, a missing one as `*`. */
  lemma DateClauseBounds(fromDate: Option<String>, toDate: Option<String>)
    requires Given(fromDate) || Given(toDate)
    ensures var r := DateClause(fromDate, toDate);
            && StartsWith(r, " AND submittedDate:[" + (if Given(fromDate) then fromDate.value + "2000" else "*") + "+TO+")
            && EndsWith(r, "+TO+" + (if Given(toDate) then toDate.value + "2359" else "*") + "]")
  {
    var lo := if Given(fromDate) then fromDate.value + "2000" else "*";
    var hi := if Given(toDate) then toDate.value + "2359" else "*";
    var head := " AND submittedDate:[" + lo + "+TO+";
    var tail := "+TO+" + hi + "]";
    var r := DateClause(fromDate, toDate);
    assert r == head + (hi + "]");
    assert r == (" AND submittedDate:[" + lo) + tail;
  }

  // ---------------------------------------------------------------- request parameters

  /** The query parameters of a search request. */
  datatype SearchParams = SearchParams(searchQuery: String, start: int, maxResults: int, sortBy: String, sortOrder: String)

  /** A request: a search, or a lookup of one id. */
  datatype Request = Search(params: SearchParams) | ById(idList: String, maxResults: int)

  /** `min(max_results, 2000)`, with an unset argument taking `int(settings.max_results or 100)`. */
  function CappedMaxResults(settings: Settings, requested: Option<int>): (m: int)
    ensures m <= 2000
    ensures requested.Some? ==> (m == requested.value || m == 2000) && (requested.value <= 2000 ==> m == requested.value)
    ensures requested.None? ==> var d := IntOr(settings.maxResults, 100); (d <= 2000 ==> m == d) && (d > 2000 ==> m == 2000)
  {
    var n := if requested.None? then IntOr(settings.maxResults, 100) else requested.value;
    if n < 2000 then n else 2000
  }

  /** The request `fetch_papers` sends. */
  function FetchPapersRequest(settings: Settings, maxResults: Option<int>, start: int, sortBy: String, sortOrder: String,
                              fromDate: Option<String>, toDate: Option<String>): Request {
    Search(SearchParams(CategoryQuery(settings.searchCategory) + DateClause(fromDate, toDate), start,
                        CappedMaxResults(settings, maxResults), sortBy, sortOrder))
  }

  /** The request `fetch_papers_with_query` sends: the caller's query as is. */
  function FetchWithQueryRequest(settings: Settings, searchQuery: String, maxResults: Option<int>, start: int,
                                 sortBy: String, sortOrder: String): Request {
    Search(SearchParams(searchQuery, start, CappedMaxResults(settings, maxResults), sortBy, sortOrder))
  }

  // ---------------------------------------------------------------- identifiers and file names

  /**
    The id cleaning of `fetch_paper_by_id` as written: everything before the first
    `v`, so the cut lands on the first `v` of the id wherever it stands.
  */
  function CleanIdAsWritten(arxivId: String): (r: String)
    ensures 'v' !in r && StartsWith(arxivId, r)
    ensures 'v' in arxivId ==> |r| < |arxivId| && arxivId[|r|] == 'v'
    ensures 'v' !in arxivId ==> r == arxivId
  {
    BeforeFirst(arxivId, 'v')
  }

  /** The old-style id `solv-int/9901001v1` is cut to `sol` by the cleaning as written. */
  lemma CleanIdAsWrittenCutsArchive()
    ensures CleanIdAsWritten("solv-int/9901001v1") == "sol"
  {
    var s := "solv-int/9901001v1";
    assert s[0] == 's' && s[1] == 'o' && s[2] == 'l' && s[3] == 'v';
    assert IndexOf(s, 'v') == 3;
  }

  /** A trailing version suffix: `v` followed by one or more digits. */
  predicate VersionSuffix(arxivId: String) {
    'v' in arxivId && AllDigits(AfterLast(arxivId, 'v'))
  }

  /** The id without its version suffix, if it has one. */
  function CleanId(arxivId: String): (r: String)
    ensures StartsWith(arxivId, r)
    ensures !VersionSuffix(arxivId) ==> r == arxivId
  {
    if VersionSuffix(arxivId) then
      var version := AfterLast(arxivId, 'v');
      AfterLastSeparated(arxivId, 'v');
      arxivId[..|arxivId| - |version| - 1]
    else arxivId
  }

  /** Removing the version gives back the id it was appended to, whatever letters the id holds. */
  lemma CleanIdDropsVersion(base: String, version: String)
    requires AllDigits(version)
    ensures CleanId(base + "v" + version) == base
  {
    var s := base + "v" + version;
    assert s == base + ("v" + version);
    assert s[|base|] == 'v';
    assert forall k :: 0 <= k < |version| ==> version[k] != 'v';
    assert s == (base + ['v']) + version;
    var parts := SplitOn(s, 'v');
    var after := AfterLast(s, 'v');
    AfterLastSeparated(s, 'v');
    assert EndsWith(s, after);
    assert after == version;
  }

  /**
    An old-style id, archive then `/` then digits, has no version suffix even
    when its archive holds a `v` (as `solv-int` does), so it is left alone.
  */
  lemma CleanIdKeepsOldStyle(archive: String, number: String)
    requires AllDigits(number)
    ensures CleanId(archive + "/" + number) == archive + "/" + number
  {
    var s := archive + "/" + number;
    if 'v' in s {
      var after := AfterLast(s, 'v');
      AfterLastSeparated(s, 'v');
      assert s[|archive|] == '/';
      assert forall k :: |archive| <= k < |s| ==> s[k] != 'v';
      assert |s| - |after| - 1 < |archive|;
      assert after[|after| - |number| - 1] == s[|archive|];
      assert !IsDigit(after[|after| - |number| - 1]);
    }
  }

  /** `_get_arxiv_id`: the text after the last `/` of the entry's `atom:id`, or `None` without one. */
  function ArxivIdOf(idElem: Option<Element>): (r: Option<String>)
    ensures r.None? <==> idElem.None? || idElem.value.text.None?
    ensures r.Some? ==> LastSegment(idElem.value.text.value, '/', r.value)
  {
    if idElem.None? || idElem.value.text.None? then None
    else
      AfterLastShape(idElem.value.text.value, '/');
      Some(AfterLast(idElem.value.text.value, '/'))
  }

  /** The cache file name of `_get_pdf_path`: every `/` of the id becomes `_`, then `.pdf`. */
  function PdfFileName(arxivId: String): String {
    ReplaceAll(arxivId, "/", "_") + ".pdf"
  }

  /**
    The file name keeps the id character for character, with `_` for `/`, so it
    never names a sub-directory of the cache, and it ends in `.pdf`.
  */
  lemma PdfFileNameShape(arxivId: String)
    ensures var f := PdfFileName(arxivId);
            && |f| == |arxivId| + 4 && EndsWith(f, ".pdf") && '/' !in f
            && forall i :: 0 <= i < |arxivId| ==> f[i] == if arxivId[i] == '/' then '_' else arxivId[i]
  {
    ReplaceChar(arxivId, '/', '_');
    var f := PdfFileName(arxivId);
    var g := ReplaceAll(arxivId, "/", "_");
    forall i | 0 <= i < |f|
      ensures f[i] != '/'
    {
      if i < |g| {
        assert f[i] == g[i];
      }
    }
  }

  // ---------------------------------------------------------------- reading feed entries

  /** An `atom:author` element, with its first `atom:name` child. */
  datatype Author = Author(name: Option<Element>)

  /**
    An `atom:entry` as the client reads it: the first `atom:id`, `atom:title`,
    `atom:summary` and `atom:published` children, and all `atom:author`,
    `atom:category` and `atom:link` children in document order.
  */
  datatype FeedEntry = FeedEntry(
    id: Option<Element>, title: Option<Element>, summary: Option<Element>, published: Option<Element>,
    authors: seq<Author>, categories: seq<Element>, links: seq<Element>)

  /** The paper a feed entry becomes. */
  datatype ArxivPaper = ArxivPaper(
    arxivId: String, title: String, authors: seq<String>, paperAbstract: String,
    publishedDate: String, categories: seq<String>, pdfUrl: String)

  /**
    `_get_text`: "" for a missing element or text; otherwise the stripped text,
    with its line breaks turned into spaces when `cleanNewlines` is set.
  */
  function GetText(elem: Option<Element>, cleanNewlines: bool): (r: String)
    ensures elem.None? || elem.value.text.None? ==> r == []
  {
    if elem.None? || elem.value.text.None? then []
    else
      var text := Strip(elem.value.text.value);
      if cleanNewlines then ReplaceAll(text, "\n", " ") else text
  }

  /**
    The text keeps the stripped text character for character, a line break
    becoming a space only when `cleanNewlines` is set; it has no whitespace at
    either end either way, and no line break at all when cleaned.
  */
  lemma GetTextShape(elem: Option<Element>, cleanNewlines: bool)
    requires elem.Some? && elem.value.text.Some?
    ensures var t, r := Strip(elem.value.text.value), GetText(elem, cleanNewlines);
            && |r| == |t|
            && (forall i :: 0 <= i < |t| ==> r[i] == if cleanNewlines && t[i] == '\n' then ' ' else t[i])
            && (r != [] ==> !IsSpace(r[0]) && !IsSpace(r[|r| - 1]))
            && (cleanNewlines ==> '\n' !in r)
  {
    var t := Strip(elem.value.text.value);
    var r := GetText(elem, cleanNewlines);
    if cleanNewlines {
      ReplaceChar(t, '\n', ' ');
      assert r == ReplaceAll(t, ['\n'], [' ']);
      if r != [] {
        assert IsSpace('\n');
        assert r[0] == t[0] && r[|r| - 1] == t[|t| - 1];
      }
      assert forall i :: 0 <= i < |r| ==> r[i] != '\n';
    } else {
      assert r == t;
    }
  }

  /** The non-empty strings of `xs`, in order. */
  function NonEmpty(xs: seq<String>): seq<String> {
    if xs == [] then []
    else NonEmpty(xs[..|xs| - 1]) + (if xs[|xs| - 1] == [] then [] else [xs[|xs| - 1]])
  }

  /** Only non-empty strings of `xs` are kept. */
  lemma {:induction false} NonEmptyMembers(xs: seq<String>)
    ensures [] !in NonEmpty(xs)
    ensures forall x :: x in NonEmpty(xs) ==> x in xs
  {
    if xs != [] {
      NonEmptyMembers(xs[..|xs| - 1]);
    }
  }

  lemma NonEmptySnoc(xs: seq<String>, x: String)
    ensures NonEmpty(xs + [x]) == NonEmpty(xs) + (if x == [] then [] else [x])
  {
    assert (xs + [x])[..|xs|] == xs;
  }

  /** Filtering works piece by piece, so it keeps the order. */
  lemma {:induction false} NonEmptyConcat(xs: seq<String>, ys: seq<String>)
    ensures NonEmpty(xs + ys) == NonEmpty(xs) + NonEmpty(ys)
    decreases |ys|
  {
    if ys == [] {
      assert xs + ys == xs;
    } else {
      var init := ys[..|ys| - 1];
      assert (xs + ys)[..|xs + ys| - 1] == xs + init;
      NonEmptyConcat(xs, init);
    }
  }

  /** The concatenation of all strings: dropping the empty ones loses no character. */
  function Concat(xs: seq<String>): String {
    if xs == [] then [] else Concat(xs[..|xs| - 1]) + xs[|xs| - 1]
  }

  lemma {:induction false} NonEmptyKeepsText(xs: seq<String>)
    ensures Concat(NonEmpty(xs)) == Concat(xs)
  {
    if xs != [] {
      var init, last := xs[..|xs| - 1], xs[|xs| - 1];
      NonEmptyKeepsText(init);
      var kept := NonEmpty(init);
      if last != [] {
        assert (kept + [last])[..|kept|] == kept;
      } else {
        assert NonEmpty(xs) == kept + [];
        assert kept + [] == kept;
        assert Concat(xs) == Concat(init) + [];
        assert Concat(init) + [] == Concat(init);
      }
    }
  }

  /** `f` applied to every element of `xs`. */
  function Mapped<A>(xs: seq<A>, f: A -> String): (r: seq<String>)
    ensures |r| == |xs| && forall i :: 0 <= i < |xs| ==> r[i] == f(xs[i])
  {
    seq(|xs|, i requires 0 <= i < |xs| => f(xs[i]))
  }

  /** The non-empty `f(x)`, element by element, as the client's loops collect them. */
  function KeptOf<A>(xs: seq<A>, f: A -> String): seq<String> {
    if xs == [] then []
    else
      var s := f(xs[|xs| - 1]);
      KeptOf(xs[..|xs| - 1], f) + (if s == [] then [] else [s])
  }

  /** Collecting element by element is filtering the mapped sequence. */
  lemma {:induction false} KeptOfIsNonEmpty<A>(xs: seq<A>, f: A -> String)
    ensures KeptOf(xs, f) == NonEmpty(Mapped(xs, f))
  {
    if xs != [] {
      var init := xs[..|xs| - 1];
      KeptOfIsNonEmpty(init, f);
      assert Mapped(xs, f) == Mapped(init, f) + [f(xs[|xs| - 1])];
      NonEmptySnoc(Mapped(init, f), f(xs[|xs| - 1]));
    }
  }

  /** `author_name` of an author, "" when missing. */
  function AuthorName(a: Author): String {
    GetText(a.name, false)
  }

  /** `category.get("term")`, "" when missing. */
  function CategoryTerm(c: Element): String {
    if "term" in c.attrib then c.attrib["term"] else []
  }

  /** `_get_authors`: the non-empty author names, in document order. */
  method GetAuthors(authors: seq<Author>) returns (names: seq<String>)
    ensures names == NonEmpty(Mapped(authors, AuthorName))
  {
    names := [];
    for i := 0 to |authors|
      invariant names == KeptOf(authors[..i], AuthorName)
    {
      assert authors[..i + 1][..i] == authors[..i];
      var name := GetText(authors[i].name, false);
      if name != [] {
        names := names + [name];
      }
    }
    assert authors[..|authors|] == authors;
    KeptOfIsNonEmpty(authors, AuthorName);
  }

  /** `_get_categories`: the non-empty `term` attributes, in document order. */
  method GetCategories(categories: seq<Element>) returns (terms: seq<String>)
    ensures terms == NonEmpty(Mapped(categories, CategoryTerm))
  {
    terms := [];
    for i := 0 to |categories|
      invariant terms == KeptOf(categories[..i], CategoryTerm)
    {
      assert categories[..i + 1][..i] == categories[..i];
      var category := categories[i];
      var term := if "term" in category.attrib then category.attrib["term"] else [];
      if term != [] {
        terms := terms + [term];
      }
    }
    assert categories[..|categories|] == categories;
    KeptOfIsNonEmpty(categories, CategoryTerm);
  }

  // ---------------------------------------------------------------- the PDF URL

  const HttpArxiv: String := "http://arxiv.org/"
  const HttpsArxiv: String := "https://arxiv.org/"

  /** A link announcing a PDF. */
  predicate PdfTyped(link: Element) {
    AttribIs(link, "type", "application/pdf")
  }

  /** The position of the first PDF link, or the number of links. */
  function FirstPdfLink(links: seq<Element>): (i: nat)
    ensures i <= |links|
    ensures i < |links| ==> PdfTyped(links[i])
    ensures forall j :: 0 <= j < i ==> !PdfTyped(links[j])
  {
    if links == [] then 0
    else if PdfTyped(links[0]) then 0
    else 1 + FirstPdfLink(links[1..])
  }

  /** A plain-HTTP arXiv URL moved to HTTPS; every occurrence of the prefix is replaced. */
  function Secured(url: String): String {
    if StartsWith(url, HttpArxiv) then ReplaceAll(url, HttpArxiv, HttpsArxiv) else url
  }

  /** `f"https://arxiv.org/pdf/{arxiv_id}.pdf"`. */
  function BuiltPdfUrl(arxivId: String): String {
    "https://arxiv.org/pdf/" + arxivId + ".pdf"
  }

  /** `_get_pdf_url` as a value: the first PDF link, else a URL built from the id, else "". */
  function PdfUrlOf(e: FeedEntry): String {
    var i := FirstPdfLink(e.links);
    if i < |e.links| then
      Secured(if "href" in e.links[i].attrib then e.links[i].attrib["href"] else [])
    else
      var id := ArxivIdOf(e.id);
      if id.Some? && id.value != [] then BuiltPdfUrl(id.value) else []
  }

  /** `_get_pdf_url`: the loop returns at the first PDF link. */
  method GetPdfUrl(e: FeedEntry) returns (url: String)
    ensures url == PdfUrlOf(e)
  {
    for k := 0 to |e.links|
      invariant forall j :: 0 <= j < k ==> !PdfTyped(e.links[j])
    {
      var link := e.links[k];
      if "type" in link.attrib && link.attrib["type"] == "application/pdf" {
        url := if "href" in link.attrib then link.attrib["href"] else [];
        if StartsWith(url, HttpArxiv) {
          url := ReplaceAll(url, HttpArxiv, HttpsArxiv);
        }
        assert FirstPdfLink(e.links) == k;
        return;
      }
    }
    assert FirstPdfLink(e.links) == |e.links|;
    var arxivId := ArxivIdOf(e.id);
    if arxivId.Some? && arxivId.value != [] {
      return "https://arxiv.org/pdf/" + arxivId.value + ".pdf";
    }
    return [];
  }

  /** Securing swaps the scheme of an `http://arxiv.org/` URL and keeps any other URL. */
  lemma SecuredShape(url: String)
    ensures !StartsWith(url, HttpArxiv) ==> Secured(url) == url
    ensures StartsWith(url, HttpArxiv) ==>
              Secured(url) == HttpsArxiv + ReplaceAll(url[|HttpArxiv|..], HttpArxiv, HttpsArxiv)
  {
  }

  /**
    The first PDF link decides the URL, and a plain-HTTP arXiv address comes
    out as HTTPS; without a PDF link the URL is built from a non-empty id, and
    is "" otherwise.
  */
  lemma PdfUrlChoice(e: FeedEntry)
    ensures var url := PdfUrlOf(e);
            && (forall j :: 0 <= j < |e.links| && PdfTyped(e.links[j]) && (forall m :: 0 <= m < j ==> !PdfTyped(e.links[m])) ==>
                  var href := if "href" in e.links[j].attrib then e.links[j].attrib["href"] else [];
                  && (StartsWith(href, HttpArxiv) ==> StartsWith(url, HttpsArxiv))
                  && (!StartsWith(href, HttpArxiv) ==> url == href))
            && ((forall j :: 0 <= j < |e.links| ==> !PdfTyped(e.links[j])) ==>
                  url == (if ArxivIdOf(e.id).Some? && ArxivIdOf(e.id).value != [] then BuiltPdfUrl(ArxivIdOf(e.id).value) else []))
  {
    var i := FirstPdfLink(e.links);
    if i < |e.links| {
      var href := if "href" in e.links[i].attrib then e.links[i].attrib["href"] else [];
      if StartsWith(href, HttpArxiv) {
        ReplaceAtStart(href, HttpArxiv, HttpsArxiv);
      }
    }
  }

  // ---------------------------------------------------------------- entries and responses

  /** The `ArxivPaper` schema's validation, an oracle: a refusal raises, and the entry parser swallows it. */
  type Schema = ArxivPaper -> bool

  /** The fields `_parse_single_entry` passes to `ArxivPaper` for an entry whose id is `id`. */
  function PaperFields(e: FeedEntry, id: String): ArxivPaper {
    ArxivPaper(id, GetText(e.title, true), NonEmpty(Mapped(e.authors, AuthorName)), GetText(e.summary, true),
               GetText(e.published, false), NonEmpty(Mapped(e.categories, CategoryTerm)), PdfUrlOf(e))
  }

  /** `_parse_single_entry` as a value: `None` without a non-empty id or when validation refuses. */
  function EntryPaper(e: FeedEntry, schema: Schema): Option<ArxivPaper> {
    var id := ArxivIdOf(e.id);
    if id.None? || id.value == [] then None
    else if schema(PaperFields(e, id.value)) then Some(PaperFields(e, id.value))
    else None
  }

  /** `_parse_single_entry`: read the fields one by one, then validate. */
  method ParseSingleEntry(e: FeedEntry, schema: Schema) returns (paper: Option<ArxivPaper>)
    ensures paper == Parsed(schema)(e)
  {
    var arxivId := ArxivIdOf(e.id);
    if arxivId.None? || arxivId.value == [] {
      return None;
    }
    var title := GetText(e.title, true);
    var authors := GetAuthors(e.authors);
    var summary := GetText(e.summary, true);
    var published := GetText(e.published, false);
    var categories := GetCategories(e.categories);
    var pdfUrl := GetPdfUrl(e);
    var fields := ArxivPaper(arxivId.value, title, authors, summary, published, categories, pdfUrl);
    assert fields == PaperFields(e, arxivId.value);
    if !schema(fields) {
      return None;
    }
    paper := Some(fields);
  }

  /**
    A parsed entry has a non-empty id without `/`, ending its `atom:id` text;
    title and abstract are single lines without surrounding whitespace; the
    authors and categories are non-empty values of the entry, in its order, and
    the PDF URL is the one `_get_pdf_url` picks.
  */
  lemma EntryPaperShape(e: FeedEntry, schema: Schema)
    ensures var r := EntryPaper(e, schema);
            && (r.Some? <==> e.id.Some? && e.id.value.text.Some? && AfterLast(e.id.value.text.value, '/') != []
                             && schema(PaperFields(e, AfterLast(e.id.value.text.value, '/'))))
            && (r.Some? ==>
                  var p := r.value;
                  && p.arxivId != [] && LastSegment(e.id.value.text.value, '/', p.arxivId)
                  && OneLine(p.title) && OneLine(p.paperAbstract)
                  && TakenFrom(p.authors, e.authors, AuthorName)
                  && TakenFrom(p.categories, e.categories, CategoryTerm)
                  && p.pdfUrl == PdfUrlOf(e))
  {
    if e.id.Some? && e.id.value.text.Some? {
      AfterLastShape(e.id.value.text.value, '/');
    }
    CleanedTextOneLine(e.title);
    CleanedTextOneLine(e.summary);
    NonEmptyTakenFrom(e.authors, AuthorName);
    NonEmptyTakenFrom(e.categories, CategoryTerm);
  }

  /** `s` holds no line break and no whitespace at either end. */
  predicate OneLine(s: String) {
    '\n' !in s && (s != [] ==> !IsSpace(s[0]) && !IsSpace(s[|s| - 1]))
  }

  /** Every string of `xs` is non-empty and is `f` of some element of `src`. */
  predicate TakenFrom<A>(xs: seq<String>, src: seq<A>, f: A -> String) {
    [] !in xs && forall x :: x in xs ==> exists i :: 0 <= i < |src| && f(src[i]) == x
  }

  /** A text read with line breaks cleaned is on one line and trimmed. */
  lemma CleanedTextOneLine(elem: Option<Element>)
    ensures OneLine(GetText(elem, true))
  {
    if elem.Some? && elem.value.text.Some? {
      GetTextShape(elem, true);
    }
  }

  /** The non-empty values of `f` over `src` are taken from `src`. */
  lemma NonEmptyTakenFrom<A>(src: seq<A>, f: A -> String)
    ensures TakenFrom(NonEmpty(Mapped(src, f)), src, f)
  {
    var xs := Mapped(src, f);
    NonEmptyMembers(xs);
    forall x | x in NonEmpty(xs)
      ensures exists i :: 0 <= i < |src| && f(src[i]) == x
    {
      var i :| 0 <= i < |xs| && xs[i] == x;
    }
  }

  /** The present values `f` gives, element by element in order. */
  function SomesOf<A, T>(xs: seq<A>, f: A -> Option<T>): seq<T> {
    if xs == [] then []
    else
      var o := f(xs[|xs| - 1]);
      SomesOf(xs[..|xs| - 1], f) + (if o.Some? then [o.value] else [])
  }

  /** Collecting works piece by piece, so it keeps the order of the elements. */
  lemma {:induction false} SomesOfConcat<A, T>(xs: seq<A>, ys: seq<A>, f: A -> Option<T>)
    ensures SomesOf(xs + ys, f) == SomesOf(xs, f) + SomesOf(ys, f)
    decreases |ys|
  {
    if ys == [] {
      assert xs + ys == xs;
    } else {
      var init := ys[..|ys| - 1];
      assert (xs + ys)[..|xs + ys| - 1] == xs + init;
      SomesOfConcat(xs, init, f);
    }
  }

  /** A value is collected exactly when some element gives it. */
  lemma {:induction false} SomesOfMember<A, T>(xs: seq<A>, f: A -> Option<T>, v: T)
    ensures v in SomesOf(xs, f) <==> exists i :: 0 <= i < |xs| && f(xs[i]) == Some(v)
  {
    if xs != [] {
      var init, last := xs[..|xs| - 1], xs[|xs| - 1];
      SomesOfMember(init, f, v);
      assert SomesOf(xs, f) == SomesOf(init, f) + (if f(last).Some? then [f(last).value] else []);
      if exists i :: 0 <= i < |xs| && f(xs[i]) == Some(v) {
        var i :| 0 <= i < |xs| && f(xs[i]) == Some(v);
        if i < |init| {
          assert init[i] == xs[i];
        }
      }
      if v in SomesOf(init, f) {
        var i :| 0 <= i < |init| && f(init[i]) == Some(v);
        assert xs[i] == init[i];
      }
    }
  }

  /** No more values than elements. */
  lemma {:induction false} SomesOfLength<A, T>(xs: seq<A>, f: A -> Option<T>)
    ensures |SomesOf(xs, f)| <= |xs|
  {
    if xs != [] {
      SomesOfLength(xs[..|xs| - 1], f);
    }
  }

  /** When every element gives a value, all of them are collected, in order. */
  lemma {:induction false} SomesOfAll<A, T>(xs: seq<A>, f: A -> Option<T>)
    requires forall i :: 0 <= i < |xs| ==> f(xs[i]).Some?
    ensures |SomesOf(xs, f)| == |xs|
    ensures forall i :: 0 <= i < |xs| ==> SomesOf(xs, f)[i] == f(xs[i]).value
  {
    if xs != [] {
      var init := xs[..|xs| - 1];
      SomesOfAll(init, f);
    }
  }

  /** The entry parser as a function value. */
  function Parsed(schema: Schema): FeedEntry -> Option<ArxivPaper> {
    e => EntryPaper(e, schema)
  }

  /** The papers of a well-formed feed: those of the entries that parse, in feed order. */
  function Papers(entries: seq<FeedEntry>, schema: Schema): seq<ArxivPaper> {
    SomesOf(entries, Parsed(schema))
  }

  /** `_parse_response`: `None` stands for XML that does not parse, which raises `ArxivParseError`. */
  method ParseResponse(feed: Option<seq<FeedEntry>>, schema: Schema) returns (r: Result<seq<ArxivPaper>, String>)
    ensures feed.None? ==> r == Failure("ArxivParseError")
    ensures feed.Some? ==> r == Success(Papers(feed.value, schema))
  {
    if feed.None? {
      return Failure("ArxivParseError");
    }
    var entries := feed.value;
    var papers := [];
    for i := 0 to |entries|
      invariant papers == SomesOf(entries[..i], Parsed(schema))
    {
      assert entries[..i + 1][..i] == entries[..i];
      var p := ParseSingleEntry(entries[i], schema);
      if p.Some? {
        papers := papers + [p.value];
      }
    }
    assert entries[..|entries|] == entries;
    r := Success(papers);
  }

  /**
    The papers of a feed are those its entries parse to, and nothing else; a
    feed split in two gives the papers of each part in turn, so feed order is
    kept; when every entry parses there is one paper per entry, in order.
  */
  lemma PapersOfFeed(entries: seq<FeedEntry>, more: seq<FeedEntry>, schema: Schema)
    ensures |Papers(entries, schema)| <= |entries|
    ensures forall p :: p in Papers(entries, schema) <==> exists i :: 0 <= i < |entries| && EntryPaper(entries[i], schema) == Some(p)
    ensures Papers(entries + more, schema) == Papers(entries, schema) + Papers(more, schema)
    ensures (forall i :: 0 <= i < |entries| ==> EntryPaper(entries[i], schema).Some?) ==>
              |Papers(entries, schema)| == |entries| &&
              forall i :: 0 <= i < |entries| ==> Some(Papers(entries, schema)[i]) == EntryPaper(entries[i], schema)
  {
    SomesOfLength(entries, Parsed(schema));
    forall p
      ensures p in Papers(entries, schema) <==> exists i :: 0 <= i < |entries| && EntryPaper(entries[i], schema) == Some(p)
    {
      SomesOfMember(entries, Parsed(schema), p);
    }
    SomesOfConcat(entries, more, Parsed(schema));
    if forall i :: 0 <= i < |entries| ==> EntryPaper(entries[i], schema).Some? {
      assert forall i :: 0 <= i < |entries| ==> Parsed(schema)(entries[i]).Some?;
      SomesOfAll(entries, Parsed(schema));
    }
  }

  // ---------------------------------------------------------------- the metadata requests

  /** What the HTTP exchange of a metadata request gives: a timeout, an error status, another failure, or the body. */
  datatype Reply = ApiTimeout | ApiStatusError | ApiFailure | ApiBody(text: String)

  /** The HTTP exchange, an oracle. */
  type Transport = Request -> Reply

  /** The XML parser: `None` for malformed XML, else the feed's `atom:entry` elements. */
  type FeedReader = String -> Option<seq<FeedEntry>>

  /**
    The outcome of a metadata request: a timeout raises `ArxivAPITimeoutError`;
    an error status, any other failure, and the `ArxivParseError` of a malformed
    body raise `ArxivAPIException`; otherwise the parsed papers.
  */
  function Answer(reply: Reply, read: FeedReader, schema: Schema): Result<seq<ArxivPaper>, String> {
    match reply
    case ApiTimeout => Failure("ArxivAPITimeoutError")
    case ApiStatusError => Failure("ArxivAPIException")
    case ApiFailure => Failure("ArxivAPIException")
    case ApiBody(text) =>
      if read(text).None? then Failure("ArxivAPIException") else Success(Papers(read(text).value, schema))
  }

  /** The shared `try`/`except` of the three fetches. */
  method Exchange(request: Request, transport: Transport, read: FeedReader, schema: Schema)
    returns (r: Result<seq<ArxivPaper>, String>)
    ensures r == Answer(transport(request), read, schema)
  {
    var reply := transport(request);
    match reply
    case ApiTimeout => r := Failure("ArxivAPITimeoutError");
    case ApiStatusError => r := Failure("ArxivAPIException");
    case ApiFailure => r := Failure("ArxivAPIException");
    case ApiBody(text) =>
      var parsed := ParseResponse(read(text), schema);
      r := if parsed.Failure? then Failure("ArxivAPIException") else parsed;
  }

  /**
    Only two errors leave a fetch: `ArxivAPITimeoutError` exactly for a timeout,
    `ArxivAPIException` for everything else that goes wrong; a fetch succeeds
    exactly when a body arrives and parses as XML.
  */
  lemma AnswerErrors(reply: Reply, read: FeedReader, schema: Schema)
    ensures var r := Answer(reply, read, schema);
            && (r.Success? <==> reply.ApiBody? && read(reply.text).Some?)
            && (r.Success? ==> r.value == Papers(read(reply.text).value, schema))
            && (r.Failure? ==> (r.error == "ArxivAPITimeoutError" <==> reply.ApiTimeout?))
            && (r.Failure? ==> r.error == "ArxivAPITimeoutError" || r.error == "ArxivAPIException")
  {
  }

  /** `fetch_papers`: the configured categories, the date bounds and the capped page size. */
  method FetchPapers(settings: Settings, maxResults: Option<int>, start: int, sortBy: String, sortOrder: String,
                     fromDate: Option<String>, toDate: Option<String>,
                     transport: Transport, read: FeedReader, schema: Schema)
    returns (r: Result<seq<ArxivPaper>, String>)
    ensures r == Answer(transport(FetchPapersRequest(settings, maxResults, start, sortBy, sortOrder, fromDate, toDate)), read, schema)
  {
    var requested := if maxResults.None? then IntOr(settings.maxResults, 100) else maxResults.value;
    var searchQuery := BuildSearchQuery(settings.searchCategory, fromDate, toDate);
    var params := SearchParams(searchQuery, start, if requested < 2000 then requested else 2000, sortBy, sortOrder);
    r := Exchange(Search(params), transport, read, schema);
  }

  /** `fetch_papers_with_query`: the caller's query with the capped page size. */
  method FetchPapersWithQuery(settings: Settings, searchQuery: String, maxResults: Option<int>, start: int,
                              sortBy: String, sortOrder: String, transport: Transport, read: FeedReader, schema: Schema)
    returns (r: Result<seq<ArxivPaper>, String>)
    ensures r == Answer(transport(FetchWithQueryRequest(settings, searchQuery, maxResults, start, sortBy, sortOrder)), read, schema)
  {
    var requested := if maxResults.None? then IntOr(settings.maxResults, 100) else maxResults.value;
    var params := SearchParams(searchQuery, start, if requested < 2000 then requested else 2000, sortBy, sortOrder);
    r := Exchange(Search(params), transport, read, schema);
  }

  /** One result asked for under an already cleaned id: the first paper of the answer, or `None` when there is none. */
  method FirstById(cleanId: String, transport: Transport, read: FeedReader, schema: Schema)
    returns (r: Result<Option<ArxivPaper>, String>)
    ensures var a := Answer(transport(ById(cleanId, 1)), read, schema);
            && (a.Failure? ==> r == Failure(a.error))
            && (a.Success? ==> r.Success? && (r.value.None? <==> a.value == []))
            && (a.Success? && a.value != [] ==> r.value == Some(a.value[0]))
  {
    var papers := Exchange(ById(cleanId, 1), transport, read, schema);
    if papers.Failure? {
      return Failure(papers.error);
    }
    r := Success(if papers.value != [] then Some(papers.value[0]) else None);
  }

  /**
    `fetch_paper_by_id` as written: the id is cut before its first `v` (see
    `CleanIdAsWritten`), and one result is asked for under what is left.
  */
  method FetchPaperById(arxivId: String, transport: Transport, read: FeedReader, schema: Schema)
    returns (r: Result<Option<ArxivPaper>, String>)
    ensures var a := Answer(transport(ById(CleanIdAsWritten(arxivId), 1)), read, schema);
            && (a.Failure? ==> r == Failure(a.error))
            && (a.Success? ==> r.Success? && (r.value.None? <==> a.value == []))
            && (a.Success? && a.value != [] ==> r.value == Some(a.value[0]))
  {
    r := FirstById(CleanIdAsWritten(arxivId), transport, read, schema);
  }

  /**
    `fetch_paper_by_id` as evidently intended: only a trailing version suffix is
    dropped (see `CleanId`), so an old-style id keeps its archive.
  */
  method FetchPaperByIdCorrected(arxivId: String, transport: Transport, read: FeedReader, schema: Schema)
    returns (r: Result<Option<ArxivPaper>, String>)
    ensures var a := Answer(transport(ById(CleanId(arxivId), 1)), read, schema);
            && (a.Failure? ==> r == Failure(a.error))
            && (a.Success? ==> r.Success? && (r.value.None? <==> a.value == []))
            && (a.Success? && a.value != [] ==> r.value == Some(a.value[0]))
  {
    r := FirstById(CleanId(arxivId), transport, read, schema);
  }

  // ---------------------------------------------------------------- the validated download

  /** What one download attempt meets: a timeout, an HTTP error, another failure, or a response. */
  datatype Fetch = FetchTimeout | FetchHttpError | FetchCrash | Response(contentType: String, data: seq<Byte>)

  /** How `_attempt_once` ends. */
  datatype Attempt = Saved(data: seq<Byte>) | NotPdf | TimeoutRaised | HttpRaised | OtherRaised

  /** `_attempt_once`: a response is kept only when its content type mentions `pdf` and it starts like a PDF. */
  function AttemptOnce(f: Fetch): Attempt {
    match f
    case FetchTimeout => TimeoutRaised
    case FetchHttpError => HttpRaised
    case FetchCrash => OtherRaised
    case Response(contentType, data) =>
      if !Contains(Lower(contentType), "pdf") then NotPdf
      else if !IsPdfBytes(data) then NotPdf
      else Saved(data)
  }

  /**
    An attempt saves exactly a response whose content type mentions `pdf` and
    whose data starts like a PDF, and saves that data; any other response is
    refused as not a PDF; a failed exchange raises.
  */
  lemma AttemptOnceSaves(f: Fetch)
    ensures var a := AttemptOnce(f);
            && (a.Saved? <==> f.Response? && Contains(Lower(f.contentType), "pdf") && IsPdfBytes(f.data))
            && (a.Saved? ==> a.data == f.data)
            && (a.NotPdf? <==> f.Response? && !a.Saved?)
            && (!f.Response? ==> Transient(a))
  {
  }

  /** An attempt after which the loop tries again, unless it was the last one. */
  predicate Transient(a: Attempt) {
    a.TimeoutRaised? || a.HttpRaised? || a.OtherRaised?
  }

  /** How the download ends: the file written, `False` returned, or an exception raised. */
  datatype Ending = Downloaded(data: seq<Byte>) | GaveUp | Raised(error: String)

  /** The ending, the attempts made, and the waits slept before them. */
  datatype Run = Run(ending: Ending, attempts: nat, waits: seq<real>)

  function Pow2(k: nat): (p: real)
    ensures p >= 1.0
  {
    if k == 0 then 1.0 else 2.0 * Pow2(k - 1)
  }

  /** `base_delay * (2 ** k)`, the sleep before attempt `k + 2`, as `k` doublings of the base. */
  function Delay(base: real, k: nat): real {
    if k == 0 then base else 2.0 * Delay(base, k - 1)
  }

  /** The doublings are the power of two the client multiplies by. */
  lemma {:induction false} DelayIsPower(base: real, k: nat)
    ensures Delay(base, k) == base * Pow2(k)
    ensures base >= 0.0 ==> Delay(base, k) >= base
  {
    if k > 0 {
      DelayIsPower(base, k - 1);
      assert base * Pow2(k) == 2.0 * (base * Pow2(k - 1));
    }
  }

  /** The sleep before attempt number `attempt`: none before the first one. */
  function Pause(base: real, attempt: nat): seq<real> {
    if attempt > 1 then [Delay(base, attempt - 2)] else []
  }

  /**
    The retry loop from the point where `n` attempts are made: attempt `n + 1`
    first waits `Delay(base, n - 1)` unless it is the first, and a transient
    failure of the last allowed attempt raises.
  */
  function Retry(outcome: nat -> Attempt, maxRetries: int, base: real, n: nat): Run
    decreases maxRetries - n
  {
    if n >= maxRetries then Run(GaveUp, n, [])
    else
      var waits := Pause(base, n + 1);
      var a := outcome(n);
      if a.Saved? then Run(Downloaded(a.data), n + 1, waits)
      else if a.NotPdf? then Run(GaveUp, n + 1, waits)
      else if n + 1 >= maxRetries then
        Run(Raised(if a.TimeoutRaised? then "PDFDownloadTimeoutError" else "PDFDownloadException"), n + 1, waits)
      else
        var rest := Retry(outcome, maxRetries, base, n + 1);
        Run(rest.ending, rest.attempts, waits + rest.waits)
  }

  /** The value `_download_with_retry_validated` returns, or the exception it raises. */
  function Returned(e: Ending): Result<bool, String> {
    match e
    case Downloaded(_) => Success(true)
    case GaveUp => Success(false)
    case Raised(error) => Failure(error)
  }

  /** The file at the path afterwards: written on success, removed when giving up, untouched when raising. */
  function Stored(before: Option<seq<Byte>>, e: Ending): Option<seq<Byte>> {
    match e
    case Downloaded(data) => Some(data)
    case GaveUp => None
    case Raised(_) => before
  }

  /** What each attempt of a download from `fetch` ends in. */
  function Attempts(fetch: nat -> Fetch): nat -> Attempt {
    (k: nat) => AttemptOnce(fetch(k))
  }

  /** The retry count and base delay the download uses. */
  function MaxRetries(settings: Settings): int {
    IntOr(settings.downloadMaxRetries, 3)
  }

  function BaseDelay(settings: Settings): real {
    RealOr(settings.downloadRetryDelayBase, 2.0)
  }

  /**
    `_download_with_retry_validated`: `fetch(k)` is what attempt `k + 1` meets,
    `file` the content at the path, `waits` the sleeps between attempts.
  */
  method DownloadWithRetry(settings: Settings, fetch: nat -> Fetch, before: Option<seq<Byte>>)
    returns (r: Result<bool, String>, file: Option<seq<Byte>>, waits: seq<real>)
    ensures var run := Retry(Attempts(fetch), MaxRetries(settings), BaseDelay(settings), 0);
            && r == Returned(run.ending) && file == Stored(before, run.ending) && waits == run.waits
  {
    var maxRetries := IntOr(settings.downloadMaxRetries, 3);
    var baseDelay := RealOr(settings.downloadRetryDelayBase, 2.0);
    ghost var outcomes := Attempts(fetch);
    ghost var run := Retry(outcomes, maxRetries, baseDelay, 0);
    file := before;
    waits := [];
    var attempt := 0;
    while attempt < maxRetries
      invariant 0 <= attempt
      invariant var rest := Retry(outcomes, maxRetries, baseDelay, attempt);
                run == Run(rest.ending, rest.attempts, waits + rest.waits)
      decreases maxRetries - attempt
    {
      ghost var rest := Retry(outcomes, maxRetries, baseDelay, attempt);
      ghost var waits0 := waits;
      ghost var made := attempt;
      attempt := attempt + 1;
      // the back-off sleep before every attempt but the first
      var step := Pause(baseDelay, attempt);
      waits := waits + step;
      var outcome := AttemptOnce(fetch(attempt - 1));
      assert outcome == outcomes(made);
      RetryStep(outcomes, maxRetries, baseDelay, made);
      if outcome.Saved? {
        file := Some(outcome.data);
        return Success(true), file, waits;
      }
      if outcome.NotPdf? {
        // a validation failure is not retried
        break;
      }
      if attempt >= maxRetries {
        var error := if outcome.TimeoutRaised? then "PDFDownloadTimeoutError" else "PDFDownloadException";
        return Failure(error), file, waits;
      }
      ghost var next := Retry(outcomes, maxRetries, baseDelay, attempt);
      assert waits0 + (step + next.waits) == waits + next.waits;
    }
    file := None;
    r := Success(false);
  }

  /** One turn of the loop: attempt `n + 1` decides, raises, or hands over to the next one. */
  lemma RetryStep(outcome: nat -> Attempt, maxRetries: int, base: real, n: nat)
    requires n < maxRetries
    ensures var run, a, p := Retry(outcome, maxRetries, base, n), outcome(n), Pause(base, n + 1);
            && (a.Saved? ==> run == Run(Downloaded(a.data), n + 1, p))
            && (a.NotPdf? ==> run == Run(GaveUp, n + 1, p))
            && (Transient(a) && n + 1 >= maxRetries ==>
                  run == Run(Raised(if a.TimeoutRaised? then "PDFDownloadTimeoutError" else "PDFDownloadException"), n + 1, p))
            && (Transient(a) && n + 1 < maxRetries ==>
                  var rest := Retry(outcome, maxRetries, base, n + 1);
                  run == Run(rest.ending, rest.attempts, p + rest.waits))
  {
  }

  /** How the attempt that ends the loop decides the run. */
  predicate Decides(run: Run, a: Attempt, maxRetries: int) {
    match a
    case Saved(data) => run.ending == Downloaded(data)
    case NotPdf => run.ending == GaveUp
    case TimeoutRaised => run.attempts == maxRetries && run.ending == Raised("PDFDownloadTimeoutError")
    case HttpRaised => run.attempts == maxRetries && run.ending == Raised("PDFDownloadException")
    case OtherRaised => run.attempts == maxRetries && run.ending == Raised("PDFDownloadException")
  }

  /** The sleeps before the attempts that follow `n` attempts, up to attempt `m`. */
  function Waits(base: real, n: nat, m: int): seq<real>
    decreases m - n
  {
    if n >= m then [] else Pause(base, n + 1) + Waits(base, n + 1, m)
  }

  /** From the second attempt on, the sleep before attempt `n + 1 + j` is `base * 2^(n - 1 + j)`. */
  lemma {:induction false} WaitsDouble(base: real, n: nat, m: int)
    requires n >= 1
    ensures |Waits(base, n, m)| == if n >= m then 0 else m - n
    ensures forall j :: 0 <= j < |Waits(base, n, m)| ==> Waits(base, n, m)[j] == Delay(base, n - 1 + j)
    decreases m - n
  {
    if n < m {
      WaitsDouble(base, n + 1, m);
      var w := Waits(base, n, m);
      var p := Pause(base, n + 1);
      assert |p| == 1 && p[0] == Delay(base, n - 1);
      assert w == p + Waits(base, n + 1, m);
      forall j | 0 <= j < |w|
        ensures w[j] == Delay(base, n - 1 + j)
      {
        if j > 0 {
          assert w[j] == Waits(base, n + 1, m)[j - 1];
        }
      }
    }
  }

  /**
    From `n` attempts made on: no attempt at all once `n` reaches the limit;
    otherwise one to the limit more, every one but the last failing transiently,
    the last deciding the run, with the sleeps before each of them.
  */
  lemma {:induction false} RetryFrom(outcome: nat -> Attempt, maxRetries: int, base: real, n: nat)
    ensures var run := Retry(outcome, maxRetries, base, n);
            && (n >= maxRetries ==> run == Run(GaveUp, n, []))
            && (n < maxRetries ==>
                  && n < run.attempts <= maxRetries
                  && (forall k :: n <= k < run.attempts - 1 ==> Transient(outcome(k)))
                  && Decides(run, outcome(run.attempts - 1), maxRetries))
            && run.waits == Waits(base, n, run.attempts)
    decreases maxRetries - n
  {
    var run := Retry(outcome, maxRetries, base, n);
    if n < maxRetries {
      var a := outcome(n);
      if Transient(a) && n + 1 < maxRetries {
        RetryFrom(outcome, maxRetries, base, n + 1);
      } else {
        assert Waits(base, n + 1, n + 1) == [];
        assert Pause(base, n + 1) + [] == Pause(base, n + 1);
      }
    }
  }

  /**
    The whole loop: with a positive retry count, between one attempt and that
    count, all but the last failing transiently and the last deciding;
    otherwise no attempt and `False`.
  */
  lemma RetryAttempts(outcome: nat -> Attempt, maxRetries: int, base: real)
    ensures var run := Retry(outcome, maxRetries, base, 0);
            && (maxRetries <= 0 ==> run == Run(GaveUp, 0, []))
            && (maxRetries > 0 ==>
                  && 1 <= run.attempts <= maxRetries
                  && (forall k :: 0 <= k < run.attempts - 1 ==> Transient(outcome(k)))
                  && Decides(run, outcome(run.attempts - 1), maxRetries))
  {
    RetryFrom(outcome, maxRetries, base, 0);
  }

  /** One sleep before each attempt after the first: `Delay(base, j)`, that is `base * 2^j`, before attempt `j + 2`. */
  lemma RetryWaits(outcome: nat -> Attempt, maxRetries: int, base: real)
    ensures var run := Retry(outcome, maxRetries, base, 0);
            && |run.waits| == (if run.attempts == 0 then 0 else run.attempts - 1)
            && (forall j :: 0 <= j < |run.waits| ==> run.waits[j] == Delay(base, j))
  {
    var run := Retry(outcome, maxRetries, base, 0);
    RetryFrom(outcome, maxRetries, base, 0);
    if run.attempts > 0 {
      WaitsFromFirst(base, run.attempts);
      WaitsDouble(base, 1, run.attempts);
    }
  }

  /** No sleep comes before the first attempt. */
  lemma WaitsFromFirst(base: real, m: nat)
    requires m > 0
    ensures Waits(base, 0, m) == Waits(base, 1, m)
  {
    assert Pause(base, 1) == [];
    assert [] + Waits(base, 1, m) == Waits(base, 1, m);
  }

  /** An unset or zero retry count means three attempts, an unset or zero delay a base of two seconds. */
  lemma DownloadDefaults(settings: Settings)
    ensures settings.downloadMaxRetries.None? || settings.downloadMaxRetries == Some(0) ==> MaxRetries(settings) == 3
    ensures settings.downloadRetryDelayBase.None? || settings.downloadRetryDelayBase == Some(0.0) ==> BaseDelay(settings) == 2.0
    ensures settings.downloadMaxRetries.Some? && settings.downloadMaxRetries.value != 0 ==>
              MaxRetries(settings) == settings.downloadMaxRetries.value
  {
  }

  /**
    The first attempt that does not fail transiently, within the limit, ends
    the loop: a validation failure gives up at once, without a retry.
  */
  lemma FirstDecisiveAttempt(outcome: nat -> Attempt, maxRetries: int, base: real, k: nat)
    requires k < maxRetries
    requires forall j :: 0 <= j < k ==> Transient(outcome(j))
    requires !Transient(outcome(k))
    ensures var run := Retry(outcome, maxRetries, base, 0);
            && run.attempts == k + 1
            && (outcome(k).NotPdf? ==> run.ending == GaveUp)
            && (outcome(k).Saved? ==> run.ending == Downloaded(outcome(k).data))
  {
    RetryFrom(outcome, maxRetries, base, 0);
  }

  /** When every allowed attempt fails transiently, the last one's failure is raised. */
  lemma AllAttemptsFail(outcome: nat -> Attempt, maxRetries: int, base: real)
    requires maxRetries > 0
    requires forall j :: 0 <= j < maxRetries ==> Transient(outcome(j))
    ensures var run := Retry(outcome, maxRetries, base, 0);
            && run.attempts == maxRetries
            && run.ending == Raised(if outcome(maxRetries - 1).TimeoutRaised? then "PDFDownloadTimeoutError" else "PDFDownloadException")
  {
    RetryFrom(outcome, maxRetries, base, 0);
  }

  /** A downloaded file holds the data of some attempt's response, and that data starts like a PDF. */
  lemma DownloadedIsPdf(fetch: nat -> Fetch, maxRetries: int, base: real)
    ensures var run := Retry(Attempts(fetch), maxRetries, base, 0);
            run.ending.Downloaded? ==>
              && IsPdfBytes(run.ending.data)
              && exists k :: 0 <= k < run.attempts && fetch(k).Response? && fetch(k).data == run.ending.data
  {
    RetryFrom(Attempts(fetch), maxRetries, base, 0);
    var run := Retry(Attempts(fetch), maxRetries, base, 0);
    if run.ending.Downloaded? {
      var k := run.attempts - 1;
      assert Attempts(fetch)(k) == AttemptOnce(fetch(k));
      AttemptOnceSaves(fetch(k));
    }
  }

  /**
    `download_pdf`: no URL gives `None`; a cached file is reused unless a
    download is forced; otherwise the validated download decides, giving the
    cache file name when it wrote the file. `cached` is the file at the path
    beforehand, `file` afterwards.
  */
  method DownloadPdf(settings: Settings, paper: ArxivPaper, forceDownload: bool, fetch: nat -> Fetch,
                     cached: Option<seq<Byte>>)
    returns (r: Result<Option<String>, String>, file: Option<seq<Byte>>)
    ensures paper.pdfUrl == [] ==> r == Success(None) && file == cached
    ensures paper.pdfUrl != [] && cached.Some? && !forceDownload ==>
              r == Success(Some(PdfFileName(paper.arxivId))) && file == cached
    ensures paper.pdfUrl != [] && (cached.None? || forceDownload) ==>
              var run := Retry(Attempts(fetch), MaxRetries(settings), BaseDelay(settings), 0);
              && file == Stored(cached, run.ending)
              && (run.ending.Downloaded? ==> r == Success(Some(PdfFileName(paper.arxivId))))
              && (run.ending.GaveUp? ==> r == Success(None))
              && (run.ending.Raised? ==> r == Failure(run.ending.error))
    ensures r.Success? && r.value.Some? ==> file.Some? && (file != cached ==> IsPdfBytes(file.value))
    ensures r == Success(None) && paper.pdfUrl != [] ==> file.None?
  {
    if paper.pdfUrl == [] {
      return Success(None), cached;
    }
    var path := PdfFileName(paper.arxivId);
    if cached.Some? && !forceDownload {
      return Success(Some(path)), cached;
    }
    var success, waits;
    success, file, waits := DownloadWithRetry(settings, fetch, cached);
    DownloadedIsPdf(fetch, MaxRetries(settings), BaseDelay(settings));
    if success.Failure? {
      return Failure(success.error), file;
    }
    r := Success(if success.value then Some(path) else None);
  }
}
