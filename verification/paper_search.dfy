/**
  BM25 search over the paper-metadata index: the bool query with its optional
  multi_match, category term and publication-year range, and the extraction of
  each hit's `_source`.
*/
module PaperSearch {
  import opened Wrappers
  import opened Text
  import opened Values

  const PapersIndex: String := "papers"
  const PaperFields: seq<String> := ["title^3", "abstract", "authors"]

  /** One clause of the bool query. A range bound is `None` when the key is absent. */
  datatype Clause =
    | MultiMatch(query: String, fields: seq<String>)
    | Term(field: String, value: String)
    | Range(field: String, gte: Option<String>, lte: Option<String>)

  /** `{"size": size, "query": {"bool": {"must": must, "filter": filter}}}`. */
  datatype SearchBody = SearchBody(size: int, must: seq<Clause>, filter: seq<Clause>)

  /** A hit of the engine response; `source` is `None` when `_source` is absent. */
  datatype PaperHit = PaperHit(source: Option<Dict>)

  /** `client.search(index=..., body=...)["hits"]["hits"]`; a missing key counts as a failure of the call. */
  type PaperEngine = (String, SearchBody) -> Result<seq<PaperHit>, String>

  /** Python truthiness of an optional string argument. */
  predicate Given(s: Option<String>) {
    s.Some? && s.value != []
  }

  /** Python truthiness of an optional year: `None` and `0` are falsy. */
  predicate YearGiven(y: Option<int>) {
    y.Some? && y.value != 0
  }

  function LowerBound(year: int): String {
    IntToString(year) + "-01-01"
  }

  function UpperBound(year: int): String {
    IntToString(year) + "-12-31"
  }

  /** The body `search_papers` sends for its arguments. */
  function SearchBodyFor(queryText: Option<String>, category: Option<String>, yearFrom: Option<int>, yearTo: Option<int>, size: int): SearchBody
  {
    var must := if Given(queryText) then [MultiMatch(queryText.value, PaperFields)] else [];
    var categoryFilter := if Given(category) then [Term("categories", category.value)] else [];
    var rangeFilter :=
      if YearGiven(yearFrom) || YearGiven(yearTo) then
        [Range("published_at",
               if YearGiven(yearFrom) then Some(LowerBound(yearFrom.value)) else None,
               if YearGiven(yearTo) then Some(UpperBound(yearTo.value)) else None)]
      else [];
    SearchBody(size, must, categoryFilter + rangeFilter)
  }

  /**
    The body carries the size; a `multi_match` over title, abstract and authors
    exactly when a query text is given; then the category term when a category is
    given, and last a `published_at` range when either year is given, each bound
    present exactly when its year is.
  */
  lemma SearchBodyShape(queryText: Option<String>, category: Option<String>, yearFrom: Option<int>, yearTo: Option<int>, size: int)
    ensures var body := SearchBodyFor(queryText, category, yearFrom, yearTo, size);
            && body.size == size
            && (body.must == [] <==> !Given(queryText))
            && (Given(queryText) ==> body.must == [MultiMatch(queryText.value, PaperFields)])
            && |body.filter| == (if Given(category) then 1 else 0) + (if YearGiven(yearFrom) || YearGiven(yearTo) then 1 else 0)
            && (Given(category) ==> body.filter[0] == Term("categories", category.value))
            && (forall i :: 0 <= i < |body.filter| ==> (body.filter[i].Term? <==> Given(category) && i == 0))
            && (forall i :: 0 <= i < |body.filter| ==> (body.filter[i].Range? <==> i == |body.filter| - 1 && (YearGiven(yearFrom) || YearGiven(yearTo))))
            && (forall i :: 0 <= i < |body.filter| && body.filter[i].Range? ==>
                  && body.filter[i].field == "published_at"
                  && (body.filter[i].gte.Some? <==> YearGiven(yearFrom))
                  && (body.filter[i].lte.Some? <==> YearGiven(yearTo))
                  && (YearGiven(yearFrom) ==> body.filter[i].gte.value == LowerBound(yearFrom.value))
                  && (YearGiven(yearTo) ==> body.filter[i].lte.value == UpperBound(yearTo.value)))
  {
  }

  /** `[hit["_source"] for hit in hits]`: a `KeyError` when some hit has no `_source`. */
  function SourcesOf(hits: seq<PaperHit>): (r: Result<seq<Dict>, String>)
    ensures r.Success? <==> forall i :: 0 <= i < |hits| ==> hits[i].source.Some?
    ensures r.Failure? ==> r.error == "KeyError"
    ensures r.Success? ==> |r.value| == |hits| && forall i :: 0 <= i < |hits| ==> r.value[i] == hits[i].source.value
  {
    if hits == [] then Success([])
    else
      match SourcesOf(hits[..|hits| - 1])
      case Failure(e) => Failure(e)
      case Success(init) =>
        if hits[|hits| - 1].source.None? then Failure("KeyError")
        else Success(init + [hits[|hits| - 1].source.value])
  }

  /**
    `search_papers`: builds the clause lists by appending, sends the body to the
    papers index and returns each hit's `_source` in index order. Engine errors
    propagate.
  */
  method SearchPapers(queryText: Option<String>, category: Option<String>, yearFrom: Option<int>, yearTo: Option<int>, size: int, engine: PaperEngine)
    returns (r: Result<seq<Dict>, String>)
    ensures var res := engine(PapersIndex, SearchBodyFor(queryText, category, yearFrom, yearTo, size));
            && (res.Failure? ==> r == Failure(res.error))
            && (res.Success? ==> r == SourcesOf(res.value))
  {
    var mustClauses: seq<Clause> := [];
    var filterClauses: seq<Clause> := [];
    if Given(queryText) {
      mustClauses := mustClauses + [MultiMatch(queryText.value, PaperFields)];
    }
    if Given(category) {
      filterClauses := filterClauses + [Term("categories", category.value)];
    }
    if YearGiven(yearFrom) || YearGiven(yearTo) {
      var gte: Option<String> := None;
      var lte: Option<String> := None;
      if YearGiven(yearFrom) {
        gte := Some(IntToString(yearFrom.value) + "-01-01");
      }
      if YearGiven(yearTo) {
        lte := Some(IntToString(yearTo.value) + "-12-31");
      }
      filterClauses := filterClauses + [Range("published_at", gte, lte)];
    }
    var body := SearchBody(size, mustClauses, filterClauses);
    assert body == SearchBodyFor(queryText, category, yearFrom, yearTo, size);
    var response := engine(PapersIndex, body);
    if response.Failure? {
      return Failure(response.error);
    }
    r := SourcesOf(response.value);
  }

  // ---------------------------------------------------------------- what the body promises

  /** Reading the year back: each date bound is the year's decimal digits followed by a fixed month and day. */
  lemma YearBoundsRecoverable(year: int)
    ensures var g := LowerBound(year); |g| >= 6 && g[|g| - 6..] == "-01-01" && ParseInt(g[..|g| - 6]) == Some(year)
    ensures var l := UpperBound(year); |l| >= 6 && l[|l| - 6..] == "-12-31" && ParseInt(l[..|l| - 6]) == Some(year)
  {
    var s := IntToString(year);
    ParseIntOfString(year);
    assert (s + "-01-01")[..|s|] == s;
    assert (s + "-12-31")[..|s|] == s;
  }
}
