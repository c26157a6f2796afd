/**
  The `/search` endpoint of the API: request validation, the hit-normalisation
  loop over the engine's raw hits, and the fail-safe empty response that replaces
  every error.
*/
module SearchApi {
  import opened Wrappers
  import opened Text
  import opened Values

  /** A validated `SearchRequest`. */
  datatype SearchRequest = SearchRequest(
    query: String, mode: String, categories: Option<seq<String>>,
    yearFrom: Option<int>, yearTo: Option<int>, latestPapers: bool, size: int, from: int)

  /**
    Field validation of `SearchRequest`: absent fields take their defaults, and
    `size` must lie in [1, 100].
  */
  function MakeSearchRequest(
    query: String, mode: Option<String>, categories: Option<seq<String>>,
    yearFrom: Option<int>, yearTo: Option<int>, latestPapers: Option<bool>,
    size: Option<int>, from: Option<int>): (r: Result<SearchRequest, String>)
    ensures r.Success? <==> 1 <= size.GetOr(10) <= 100
    ensures r.Success? ==>
              && r.value.size == size.GetOr(10) && r.value.mode == mode.GetOr("hybrid")
              && r.value.from == from.GetOr(0) && r.value.latestPapers == latestPapers.GetOr(false)
              && r.value.query == query && r.value.categories == categories
              && r.value.yearFrom == yearFrom && r.value.yearTo == yearTo
  {
    var n := size.GetOr(10);
    if 1 <= n <= 100 then
      Success(SearchRequest(query, mode.GetOr("hybrid"), categories, yearFrom, yearTo,
                            latestPapers.GetOr(false), n, from.GetOr(0)))
    else
      Failure("ValidationError: size")
  }

  /** What the endpoint asks the engine for; `latest_papers` and `from` are not forwarded. */
  datatype EngineQuery = EngineQuery(
    query: String, mode: String, categories: Option<seq<String>>,
    yearFrom: Option<int>, yearTo: Option<int>, size: int)

  function EngineQueryOf(request: SearchRequest): EngineQuery {
    EngineQuery(request.query, request.mode, request.categories, request.yearFrom, request.yearTo, request.size)
  }

  /** A raw engine hit: its `_source` (empty when absent), `_score` and `original_score`. */
  datatype RawHit = RawHit(source: Dict, score: Option<real>, originalScore: Option<real>)

  /** The engine's answer: `hits.hits`, `hits.total.value`, `search_mode` and `took`, the last three possibly absent. */
  datatype EngineResult = EngineResult(hits: seq<RawHit>, total: Option<int>, searchMode: Option<String>, took: Option<real>)

  datatype SearchHit = SearchHit(
    arxivId: String, title: String, authors: String, paperAbstract: String,
    score: real, originalScore: Option<real>, searchMode: String, section: Option<String>)

  datatype SearchResponse = SearchResponse(query: String, total: int, hits: seq<SearchHit>, searchMode: String, took: real)

  /** A string field of a response model: anything but a string fails validation. */
  function AsStr(v: Value): (r: Result<String, String>)
    ensures r.Success? <==> v.Str?
    ensures r.Success? ==> v == Str(r.value)
  {
    if v.Str? then Success(v.s) else Failure("ValidationError")
  }

  /**
    `source.get(key) or source.get('chunk_text', '')[:n] + "..."`: a truthy value is
    kept; otherwise the first `n` characters of the chunk text, with "..." added.
    Slicing a non-string chunk text raises `TypeError`.
  */
  function OrChunkPrefix(source: Dict, key: String, n: nat): (r: Result<Value, String>)
    ensures Truthy(Get(source, key, Null)) ==> r == Success(source[key])
    ensures !Truthy(Get(source, key, Null)) ==>
              (r.Success? <==> Get(source, "chunk_text", Str("")).Str?)
              && (r.Success? ==> r.value == Str(Take(Get(source, "chunk_text", Str("")).s, n) + "..."))
  {
    var v := Get(source, key, Null);
    if Truthy(v) then Success(v)
    else
      match Get(source, "chunk_text", Str(""))
      case Str(c) => Success(Str(Take(c, n) + "..."))
      case _ => Failure("TypeError")
  }

  /** `section=source.get('section')`: absent or null gives `None`; any other non-string fails validation. */
  function OptionalStr(v: Value): (r: Result<Option<String>, String>)
    ensures r.Success? <==> v.Null? || v.Str?
    ensures r == Success(None) <==> v.Null?
    ensures r.Success? && v.Str? ==> r.value == Some(v.s)
  {
    match v
    case Null => Success(None)
    case Str(s) => Success(Some(s))
    case _ => Failure("ValidationError")
  }

  /**
    The value a title or abstract field takes is a string: the stored value when it
    is truthy, otherwise the chunk text its fallback is cut from.
  */
  predicate StrAfterFallback(source: Dict, key: String) {
    if Truthy(Get(source, key, Null)) then Get(source, key, Null).Str? else Get(source, "chunk_text", Str("")).Str?
  }

  /** One turn of the loop body of `search_papers`: a raw hit becomes a `SearchHit`, or the call raises. */
  function NormalizeHit(hit: RawHit, mode: String): (r: Result<SearchHit, String>)
    ensures r.Success? <==>
              && Get(hit.source, "arxiv_id", Str("")).Str? && Get(hit.source, "authors", Str("N/A")).Str?
              && StrAfterFallback(hit.source, "title") && StrAfterFallback(hit.source, "abstract")
              && (Get(hit.source, "section", Null).Null? || Get(hit.source, "section", Null).Str?)
    ensures r.Success? ==>
              && Str(r.value.arxivId) == Get(hit.source, "arxiv_id", Str(""))
              && Str(r.value.authors) == Get(hit.source, "authors", Str("N/A"))
              && r.value.section == (if Get(hit.source, "section", Null).Str? then Some(Get(hit.source, "section", Null).s) else None)
              && r.value.score == hit.score.GetOr(0.0)
              && r.value.searchMode == mode
  {
    var source := hit.source;
    match OrChunkPrefix(source, "title", 100)
    case Failure(e) => Failure(e)
    case Success(titleValue) =>
      match OrChunkPrefix(source, "abstract", 200)
      case Failure(e) => Failure(e)
      case Success(abstractValue) =>
        match (AsStr(Get(source, "arxiv_id", Str(""))), AsStr(titleValue), AsStr(Get(source, "authors", Str("N/A"))),
               AsStr(abstractValue), OptionalStr(Get(source, "section", Null)))
        case (Success(arxivId), Success(title), Success(authors), Success(paperAbstract), Success(section)) =>
          var original := if hit.originalScore.Some? && hit.originalScore.value != 0.0 then hit.originalScore else None;
          Success(SearchHit(arxivId, title, authors, paperAbstract, hit.score.GetOr(0.0), original, mode, section))
        case _ => Failure("ValidationError")
  }

  /** The hits of the loop, or the first failure. */
  function NormalizeAll(hits: seq<RawHit>, mode: String): (r: Result<seq<SearchHit>, String>)
    ensures r.Success? ==> |r.value| == |hits|
  {
    if hits == [] then Success([])
    else
      match NormalizeAll(hits[..|hits| - 1], mode)
      case Failure(e) => Failure(e)
      case Success(done) =>
        match NormalizeHit(hits[|hits| - 1], mode)
        case Failure(e) => Failure(e)
        case Success(h) => Success(done + [h])
  }

  /** The response that replaces any exception. */
  function FailSafe(request: SearchRequest): SearchResponse {
    SearchResponse(request.query, 0, [], request.mode, 0.0)
  }

  /** What `search_papers` answers given what the engine returned. */
  function Respond(request: SearchRequest, res: Result<EngineResult, String>): SearchResponse {
    if res.Failure? then FailSafe(request)
    else
      match NormalizeAll(res.value.hits, request.mode)
      case Failure(_) => FailSafe(request)
      case Success(hits) =>
        match res.value.total
        case None => FailSafe(request)
        case Some(total) =>
          SearchResponse(request.query, total, hits, res.value.searchMode.GetOr(request.mode),
                         res.value.took.GetOr(0.0) * 1000.0)
  }

  /**
    `search_papers`: the loop appends one normalised hit per raw hit; any exception,
    from the engine or from the loop, yields the fail-safe response.
  */
  method SearchPapers(request: SearchRequest, engine: EngineQuery -> Result<EngineResult, String>)
    returns (response: SearchResponse)
    ensures response == Respond(request, engine(EngineQueryOf(request)))
  {
    var results := engine(EngineQueryOf(request));
    if results.Failure? {
      return FailSafe(request);
    }
    var raw := results.value.hits;
    var hits: seq<SearchHit> := [];
    var i := 0;
    while i < |raw|
      invariant 0 <= i <= |raw|
      invariant NormalizeAll(raw[..i], request.mode) == Success(hits)
    {
      var hit := NormalizeHit(raw[i], request.mode);
      if hit.Failure? {
        NormalizeAllStops(raw, i, request.mode);
        return FailSafe(request);
      }
      NormalizeAllSnoc(raw, i, request.mode);
      hits := hits + [hit.value];
      i := i + 1;
    }
    assert raw[..|raw|] == raw;
    if results.value.total.None? {
      return FailSafe(request);
    }
    response := SearchResponse(request.query, results.value.total.value, hits,
                               results.value.searchMode.GetOr(request.mode),
                               results.value.took.GetOr(0.0) * 1000.0);
  }

  /** One more hit that normalises extends the normalised prefix by it. */
  lemma NormalizeAllSnoc(hits: seq<RawHit>, i: nat, mode: String)
    requires i < |hits| && NormalizeAll(hits[..i], mode).Success? && NormalizeHit(hits[i], mode).Success?
    ensures NormalizeAll(hits[..i + 1], mode) == Success(NormalizeAll(hits[..i], mode).value + [NormalizeHit(hits[i], mode).value])
  {
    assert hits[..i + 1][..i] == hits[..i];
  }

  /** A hit that fails to normalise makes the whole list fail. */
  lemma {:induction false} NormalizeAllStops(hits: seq<RawHit>, i: nat, mode: String)
    requires i < |hits| && NormalizeHit(hits[i], mode).Failure?
    ensures NormalizeAll(hits, mode).Failure?
  {
    var n := |hits|;
    if i < n - 1 {
      assert hits[..n - 1][i] == hits[i];
      NormalizeAllStops(hits[..n - 1], i, mode);
    }
  }

  // ---------------------------------------------------------------- what the endpoint promises

  /** Success gives one hit per raw hit, in order, each normalised from its raw hit. */
  lemma {:induction false} NormalizeAllPointwise(hits: seq<RawHit>, mode: String)
    requires NormalizeAll(hits, mode).Success?
    ensures forall i :: 0 <= i < |hits| ==>
              NormalizeHit(hits[i], mode).Success? && NormalizeAll(hits, mode).value[i] == NormalizeHit(hits[i], mode).value
  {
    if hits != [] {
      var n := |hits|;
      NormalizeAllPointwise(hits[..n - 1], mode);
      forall i | 0 <= i < n - 1 ensures hits[..n - 1][i] == hits[i] { }
    }
  }

  /** Every hit normalises exactly when the whole list does. */
  lemma {:induction false} NormalizeAllSucceeds(hits: seq<RawHit>, mode: String)
    requires forall i :: 0 <= i < |hits| ==> NormalizeHit(hits[i], mode).Success?
    ensures NormalizeAll(hits, mode).Success?
  {
    if hits != [] {
      var n := |hits|;
      var init := hits[..n - 1];
      forall i | 0 <= i < |init| ensures NormalizeHit(init[i], mode).Success? {
        assert init[i] == hits[i];
      }
      NormalizeAllSucceeds(init, mode);
    }
  }

  /**
    The response is either the fail-safe one, or a response carrying the engine's
    total, one hit per raw hit, the engine's mode (else the requested one) and the
    took time in milliseconds.
  */
  lemma RespondShape(request: SearchRequest, res: Result<EngineResult, String>)
    ensures var r := Respond(request, res);
            r == FailSafe(request)
            || (&& res.Success? && res.value.total == Some(r.total)
                && |r.hits| == |res.value.hits|
                && (forall i :: 0 <= i < |r.hits| ==> Success(r.hits[i]) == NormalizeHit(res.value.hits[i], request.mode))
                && r.searchMode == res.value.searchMode.GetOr(request.mode)
                && r.took == res.value.took.GetOr(0.0) * 1000.0
                && r.query == request.query)
  {
    if res.Success? && NormalizeAll(res.value.hits, request.mode).Success? {
      NormalizeAllPointwise(res.value.hits, request.mode);
    }
  }

  /**
    The response fails safe when the engine raised, a hit failed to normalise, or the
    total is missing; otherwise it is the full response built from the engine's answer.
  */
  lemma RespondFailSafeWhen(request: SearchRequest, res: Result<EngineResult, String>)
    ensures res.Failure? || res.value.total.None?
            || (exists i :: 0 <= i < |res.value.hits| && NormalizeHit(res.value.hits[i], request.mode).Failure?)
            ==> Respond(request, res) == FailSafe(request)
    ensures res.Success? && res.value.total.Some?
            && (forall i :: 0 <= i < |res.value.hits| ==> NormalizeHit(res.value.hits[i], request.mode).Success?)
            ==> && NormalizeAll(res.value.hits, request.mode).Success?
                && Respond(request, res)
                   == SearchResponse(request.query, res.value.total.value, NormalizeAll(res.value.hits, request.mode).value,
                                     res.value.searchMode.GetOr(request.mode), res.value.took.GetOr(0.0) * 1000.0)
  {
    if res.Success? {
      if exists i :: 0 <= i < |res.value.hits| && NormalizeHit(res.value.hits[i], request.mode).Failure? {
        var i :| 0 <= i < |res.value.hits| && NormalizeHit(res.value.hits[i], request.mode).Failure?;
        NormalizeAllStops(res.value.hits, i, request.mode);
      } else {
        NormalizeAllSucceeds(res.value.hits, request.mode);
      }
    }
  }

  /**
    A normalised hit has a non-empty title and abstract: the stored value when truthy,
    otherwise a prefix of the chunk text (at most 100 or 200 characters) followed by "...".
  */
  lemma NormalizedText(hit: RawHit, mode: String)
    requires NormalizeHit(hit, mode).Success?
    ensures var h, src := NormalizeHit(hit, mode).value, hit.source;
            && h.title != [] && h.paperAbstract != []
            && (Truthy(Get(src, "title", Null)) ==> Str(h.title) == src["title"])
            && (!Truthy(Get(src, "title", Null)) ==> EndsWith(h.title, "...") && |h.title| <= 103)
            && (Truthy(Get(src, "abstract", Null)) ==> Str(h.paperAbstract) == src["abstract"])
            && (!Truthy(Get(src, "abstract", Null)) ==> EndsWith(h.paperAbstract, "...") && |h.paperAbstract| <= 203)
  {
  }

  /** `original_score` is echoed when present and non-zero, and is `None` otherwise. */
  lemma NormalizedOriginalScore(hit: RawHit, mode: String)
    requires NormalizeHit(hit, mode).Success?
    ensures var h := NormalizeHit(hit, mode).value;
            (h.originalScore == None <==> hit.originalScore == None || hit.originalScore == Some(0.0))
            && (h.originalScore.Some? ==> h.originalScore == hit.originalScore)
  {
  }
}
