/**
  `ArxivClient.parse_metadata` of the ingestion pipeline: one record per Atom
  entry of an arXiv query feed. The XML tree is abstracted: an entry carries
  its first `atom:id`, `atom:title` and `atom:published` child (if any) and all
  of its `atom:link` children, each element with its text (absent for an empty
  element) and its attributes.
*/
module ArxivFeed {
  import opened Wrappers
  import opened Text
  import opened Xml

  /**
    An `atom:entry`: the first `atom:id` (RFC 4287 section 4.2.6), `atom:title`
    and `atom:published` children as `find` returns them, and every `atom:link`
    child (RFC 4287 section 4.2.7) in document order.
  */
  datatype Entry = Entry(id: Option<Element>, title: Option<Element>, published: Option<Element>, links: seq<Element>)

  /** The dict appended for one entry. */
  datatype PaperRecord = PaperRecord(arxivId: String, title: String, pdfUrl: String, publishedYear: int)

  /** `f"https://arxiv.org/pdf/{paper_id}.pdf"`. */
  function DefaultPdfUrl(paperId: String): String {
    "https://arxiv.org/pdf/" + paperId + ".pdf"
  }

  /** A link whose `title` attribute is `"pdf"`. */
  predicate PdfTitled(link: Element) {
    AttribIs(link, "title", "pdf")
  }

  /** A link that replaces the current PDF URL: titled `"pdf"` and carrying an `href`. */
  predicate Overrides(link: Element) {
    PdfTitled(link) && "href" in link.attrib
  }

  /**
    The PDF URL after the link loop has run over `links`, starting from `url`:
    the `href` of the last overriding link, or `url` when there is none.
  */
  function PdfUrlAfter(links: seq<Element>, url: String): String {
    if links == [] then url
    else
      var before := PdfUrlAfter(links[..|links| - 1], url);
      var last := links[|links| - 1];
      if PdfTitled(last) then (if "href" in last.attrib then last.attrib["href"] else before) else before
  }

  /** The link loop keeps `url` unless some link overrides it, and then the last such link wins. */
  lemma {:induction false} PdfUrlAfterLast(links: seq<Element>, url: String)
    ensures (forall k :: 0 <= k < |links| ==> !Overrides(links[k])) ==> PdfUrlAfter(links, url) == url
    ensures forall k :: 0 <= k < |links| && Overrides(links[k]) && (forall j :: k < j < |links| ==> !Overrides(links[j])) ==>
              PdfUrlAfter(links, url) == links[k].attrib["href"]
  {
    if links != [] {
      var init := links[..|links| - 1];
      PdfUrlAfterLast(init, url);
      assert forall k :: 0 <= k < |init| ==> init[k] == links[k];
    }
  }

  /**
    The record for one entry, or the exception `parse_metadata` raises on it:
    a missing element or a missing id or title text is an `AttributeError`, a
    missing published text a `TypeError`, and a published text whose first
    four characters are no integer a `ValueError`.
  */
  function EntryRecord(e: Entry): Result<PaperRecord, String> {
    if e.id.None? || e.id.value.text.None? then Failure("AttributeError")
    else
      var paperId := AfterLast(e.id.value.text.value, '/');
      if e.title.None? || e.title.value.text.None? then Failure("AttributeError")
      else
        var title := Strip(e.title.value.text.value);
        if e.published.None? then Failure("AttributeError")
        else if e.published.value.text.None? then Failure("TypeError")
        else
          match ParseInt(Take(e.published.value.text.value, 4))
          case None => Failure("ValueError")
          case Some(year) => Success(PaperRecord(paperId, title, PdfUrlAfter(e.links, DefaultPdfUrl(paperId)), year))
  }

  /** The outcome of each entry, in feed order. */
  function Outcomes(entries: seq<Entry>): (rs: seq<Result<PaperRecord, String>>)
    ensures |rs| == |entries| && forall i :: 0 <= i < |entries| ==> rs[i] == EntryRecord(entries[i])
  {
    seq(|entries|, i requires 0 <= i < |entries| => EntryRecord(entries[i]))
  }

  /** The values of a run of outcomes, or the first failure among them. */
  function Collect<T>(rs: seq<Result<T, String>>): Result<seq<T>, String> {
    if rs == [] then Success([])
    else
      match Collect(rs[..|rs| - 1])
      case Failure(err) => Failure(err)
      case Success(init) =>
        match rs[|rs| - 1]
        case Failure(err) => Failure(err)
        case Success(v) => Success(init + [v])
  }

  /** The records of a feed, in order; the first entry that raises ends the parse with its exception. */
  function Records(entries: seq<Entry>): Result<seq<PaperRecord>, String> {
    Collect(Outcomes(entries))
  }

  /** The link loop: each `"pdf"`-titled link sets the URL to its `href`, defaulting to the current URL. */
  method PickPdfUrl(links: seq<Element>, default: String) returns (pdfUrl: String)
    ensures pdfUrl == PdfUrlAfter(links, default)
  {
    pdfUrl := default;
    for k := 0 to |links|
      invariant pdfUrl == PdfUrlAfter(links[..k], default)
    {
      assert links[..k + 1][..k] == links[..k];
      var link := links[k];
      if "title" in link.attrib && link.attrib["title"] == "pdf" {
        pdfUrl := if "href" in link.attrib then link.attrib["href"] else pdfUrl;
      }
    }
    assert links[..|links|] == links;
  }

  /** The body of the entry loop: the record for one entry, or the exception it raises. */
  method EntryOutcome(entry: Entry) returns (r: Result<PaperRecord, String>)
    ensures r == EntryRecord(entry)
  {
    if entry.id.None? || entry.id.value.text.None? {
      return Failure("AttributeError");
    }
    var paperId := AfterLast(entry.id.value.text.value, '/');
    if entry.title.None? || entry.title.value.text.None? {
      return Failure("AttributeError");
    }
    var title := Strip(entry.title.value.text.value);
    if entry.published.None? {
      return Failure("AttributeError");
    }
    if entry.published.value.text.None? {
      return Failure("TypeError");
    }
    var published := entry.published.value.text.value;
    var year := ParseInt(Take(published, 4));
    if year.None? {
      return Failure("ValueError");
    }
    var pdfUrl := PickPdfUrl(entry.links, "https://arxiv.org/pdf/" + paperId + ".pdf");
    r := Success(PaperRecord(paperId, title, pdfUrl, year.value));
  }

  /** `parse_metadata` over the entries of the parsed feed. */
  method ParseMetadata(entries: seq<Entry>) returns (r: Result<seq<PaperRecord>, String>)
    ensures r == Records(entries)
  {
    ghost var outcomes := Outcomes(entries);
    var papers: seq<PaperRecord> := [];
    for n := 0 to |entries|
      invariant Collect(outcomes[..n]) == Success(papers)
    {
      var outcome := EntryOutcome(entries[n]);
      CollectStep(outcomes, n);
      if outcome.Failure? {
        CollectFailureSticks(outcomes, n + 1);
        return Failure(outcome.error);
      }
      papers := papers + [outcome.value];
    }
    assert outcomes[..|outcomes|] == outcomes;
    r := Success(papers);
  }

  /** A run that has collected so far takes the next outcome's value, or stops at its failure. */
  lemma CollectStep<T>(rs: seq<Result<T, String>>, n: nat)
    requires n < |rs| && Collect(rs[..n]).Success?
    ensures Collect(rs[..n + 1]) == if rs[n].Failure? then Failure(rs[n].error) else Success(Collect(rs[..n]).value + [rs[n].value])
  {
    assert rs[..n + 1][..n] == rs[..n];
  }

  /** Once a prefix of the outcomes fails, the whole run fails the same way. */
  lemma {:induction false} CollectFailureSticks<T>(rs: seq<Result<T, String>>, n: nat)
    requires n <= |rs|
    requires Collect(rs[..n]).Failure?
    ensures Collect(rs) == Collect(rs[..n])
    decreases |rs| - n
  {
    if n < |rs| {
      var longer := rs[..n + 1];
      assert longer[..n] == rs[..n];
      CollectFailureSticks(rs, n + 1);
    } else {
      assert rs[..n] == rs;
    }
  }

  // ---------------------------------------------------------------- what the parse promises

  /**
    A run of outcomes collects exactly when every outcome is a success, into
    their values in order; otherwise into the first failure.
  */
  lemma {:induction false} CollectPerItem<T>(rs: seq<Result<T, String>>)
    ensures Collect(rs).Success? <==> forall i :: 0 <= i < |rs| ==> rs[i].Success?
    ensures Collect(rs).Success? ==> |Collect(rs).value| == |rs| && forall i :: 0 <= i < |rs| ==> Collect(rs).value[i] == rs[i].value
    ensures Collect(rs).Failure? ==>
              exists i :: 0 <= i < |rs| && rs[i].Failure? && Collect(rs).error == rs[i].error
                          && forall j :: 0 <= j < i ==> rs[j].Success?
  {
    if rs != [] {
      var init := rs[..|rs| - 1];
      CollectPerItem(init);
      assert forall i :: 0 <= i < |init| ==> init[i] == rs[i];
    }
  }

  /**
    A feed parses exactly when every entry does, and then there is one record
    per entry, in feed order; otherwise the exception is that of the first
    entry that raises.
  */
  lemma RecordsPerEntry(entries: seq<Entry>)
    ensures Records(entries).Success? <==> forall i :: 0 <= i < |entries| ==> EntryRecord(entries[i]).Success?
    ensures Records(entries).Success? ==>
              |Records(entries).value| == |entries| &&
              forall i :: 0 <= i < |entries| ==> Records(entries).value[i] == EntryRecord(entries[i]).value
    ensures Records(entries).Failure? ==>
              exists i :: 0 <= i < |entries| && EntryRecord(entries[i]).Failure?
                          && Records(entries).error == EntryRecord(entries[i]).error
                          && forall j :: 0 <= j < i ==> EntryRecord(entries[j]).Success?
  {
    CollectPerItem(Outcomes(entries));
  }

  /**
    The record's `arxiv_id` is the last `/`-separated segment of the `atom:id`
    text: a suffix of it with no `/`, directly after a `/` when the text has one.
  */
  lemma ArxivIdIsLastSegment(e: Entry)
    requires EntryRecord(e).Success?
    ensures LastSegment(e.id.value.text.value, '/', EntryRecord(e).value.arxivId)
  {
    RecordId(e);
    AfterLastShape(e.id.value.text.value, '/');
  }

  /** The record's `arxiv_id` is what follows the last `/` of the `atom:id` text. */
  lemma RecordId(e: Entry)
    requires EntryRecord(e).Success?
    ensures EntryRecord(e).value.arxivId == AfterLast(e.id.value.text.value, '/')
  {
    RecordFields(e);
  }

  /** The fields of a parsed entry, each from its own element. */
  lemma RecordFields(e: Entry)
    requires EntryRecord(e).Success?
    ensures var idText, published := e.id.value.text.value, e.published.value.text.value;
            EntryRecord(e).value == PaperRecord(AfterLast(idText, '/'), Strip(e.title.value.text.value),
                                                 PdfUrlAfter(e.links, DefaultPdfUrl(AfterLast(idText, '/'))),
                                                 ParseInt(Take(published, 4)).value)
  {
    var id := AfterLast(e.id.value.text.value, '/');
    var title := Strip(e.title.value.text.value);
    var year := ParseInt(Take(e.published.value.text.value, 4));
    assert EntryRecord(e) == Success(PaperRecord(id, title, PdfUrlAfter(e.links, DefaultPdfUrl(id)), year.value));
  }

  /** The record's title is the title text without surrounding whitespace. */
  lemma TitleIsStripped(e: Entry)
    requires EntryRecord(e).Success?
    ensures var t := EntryRecord(e).value.title;
            && t == Strip(e.title.value.text.value)
            && (t != [] ==> !IsSpace(t[0]) && !IsSpace(t[|t| - 1]))
  {
  }

  /**
    An entry with all three texts parses exactly when the first four characters
    of its published text are an integer, and the record's year is that integer.
  */
  lemma PublishedYearOfEntry(e: Entry)
    requires e.id.Some? && e.id.value.text.Some? && e.title.Some? && e.title.value.text.Some?
    requires e.published.Some? && e.published.value.text.Some?
    ensures var year := ParseInt(Take(e.published.value.text.value, 4));
            && (EntryRecord(e).Success? <==> year.Some?)
            && (year.Some? ==> EntryRecord(e).value.publishedYear == year.value)
            && (year.None? ==> EntryRecord(e) == Failure("ValueError"))
  {
  }

  /** A four-digit year has four characters. */
  lemma FourDigits(y: nat)
    requires 1000 <= y <= 9999
    ensures |IntToString(y)| == 4
  {
    assert |NatToString(y / 10 / 10 / 10)| == 1;
    assert |NatToString(y / 10 / 10)| == 2;
    assert |NatToString(y / 10)| == 3;
  }

  /** An RFC 3339 timestamp of a four-digit year, such as `2024-05-01T00:00:00Z`, yields that year. */
  lemma YearOfTimestamp(y: nat, rest: String)
    requires 1000 <= y <= 9999
    ensures ParseInt(Take(IntToString(y) + rest, 4)) == Some(y)
  {
    FourDigits(y);
    assert Take(IntToString(y) + rest, 4) == IntToString(y);
    ParseIntOfString(y);
  }

  /**
    Without an overriding link the PDF URL is built from the id; otherwise it is
    the `href` of the last link titled `"pdf"` that has one.
  */
  lemma PdfUrlOfEntry(e: Entry)
    requires EntryRecord(e).Success?
    ensures var rec := EntryRecord(e).value;
            && ((forall k :: 0 <= k < |e.links| ==> !Overrides(e.links[k])) ==> rec.pdfUrl == DefaultPdfUrl(rec.arxivId))
            && (forall k :: 0 <= k < |e.links| && Overrides(e.links[k]) && (forall j :: k < j < |e.links| ==> !Overrides(e.links[j])) ==>
                  rec.pdfUrl == e.links[k].attrib["href"])
  {
    RecordFields(e);
    PdfUrlAfterLast(e.links, DefaultPdfUrl(EntryRecord(e).value.arxivId));
  }

  /** A `"pdf"`-titled link without `href`, and any link with another title, leave the URL as it was. */
  lemma {:induction false} NonOverridingLinksIgnored(links: seq<Element>, link: Element, url: String)
    requires !Overrides(link)
    ensures PdfUrlAfter(links + [link], url) == PdfUrlAfter(links, url)
  {
    assert (links + [link])[..|links|] == links;
  }
}
