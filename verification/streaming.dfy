/**
  Retrieval for the question-answering endpoints: the choice between hybrid and
  BM25 search, the mapping of hits to the chunks handed to the language model,
  and the de-duplicated PDF source links.
*/
module Streaming {
  import opened Wrappers
  import opened Text

  datatype AskRequest = AskRequest(query: String, topK: int, useHybrid: bool, model: String, categories: Option<seq<String>>)

  /** The arguments of `search_unified`. */
  datatype UnifiedQuery = UnifiedQuery(
    query: String, queryEmbedding: Option<seq<real>>, size: int, from: int,
    categories: Option<seq<String>>, useHybrid: bool, minScore: real)

  /** A hit of `search_unified`; each field is `None` when its key is absent. */
  datatype UnifiedHit = UnifiedHit(arxivId: Option<String>, chunkText: Option<String>, paperAbstract: Option<String>)

  /** The result of `search_unified`; `hits` is `None` when the key is absent. */
  datatype UnifiedResult = UnifiedResult(hits: Option<seq<UnifiedHit>>)

  /** The minimal chunk passed to the language model. */
  datatype LlmChunk = LlmChunk(arxivId: String, chunkText: String)

  datatype Prepared = Prepared(chunks: seq<LlmChunk>, sources: set<String>, searchMode: String)

  type Embed = String -> Result<seq<real>, String>
  type UnifiedSearch = UnifiedQuery -> Result<UnifiedResult, String>

  /** The query embedding: only requested for hybrid search, and dropped when the call raises. */
  function EmbeddingFor(request: AskRequest, embed: Embed): (e: Option<seq<real>>)
    ensures e.Some? <==> request.useHybrid && embed(request.query).Success?
  {
    if request.useHybrid && embed(request.query).Success? then Some(embed(request.query).value) else None
  }

  /** The search `_prepare_chunks_and_sources` runs for a request and its embedding. */
  function UnifiedQueryFor(request: AskRequest, embedding: Option<seq<real>>): (q: UnifiedQuery)
    ensures q.useHybrid ==> q.queryEmbedding.Some?
    ensures q.useHybrid <==> request.useHybrid && embedding.Some?
    ensures q.size == request.topK && q.from == 0 && q.minScore == 0.0
    ensures q.query == request.query && q.queryEmbedding == embedding && q.categories == request.categories
  {
    UnifiedQuery(request.query, embedding, request.topK, 0, request.categories,
                 request.useHybrid && embedding.Some?, 0.0)
  }

  /** `hit.get("chunk_text", hit.get("abstract", ""))` with the hit's `arxiv_id` (default ""). */
  function ChunkOf(hit: UnifiedHit): (c: LlmChunk)
    ensures hit.arxivId.Some? ==> c.arxivId == hit.arxivId.value
    ensures hit.arxivId.None? ==> c.arxivId == ""
    ensures hit.chunkText.Some? ==> c.chunkText == hit.chunkText.value
    ensures hit.chunkText.None? && hit.paperAbstract.Some? ==> c.chunkText == hit.paperAbstract.value
    ensures hit.chunkText.None? && hit.paperAbstract.None? ==> c.chunkText == ""
  {
    LlmChunk(hit.arxivId.GetOr(""), hit.chunkText.GetOr(hit.paperAbstract.GetOr("")))
  }

  /** The PDF link of an arXiv id, with everything from the first "v" on dropped. */
  function SourceUrl(arxivId: String): (url: String)
    ensures url == "https://arxiv.org/pdf/" + arxivId[..IndexOf(arxivId, 'v')] + ".pdf"
  {
    "https://arxiv.org/pdf/" + BeforeFirst(arxivId, 'v') + ".pdf"
  }

  predicate HasId(hit: UnifiedHit) {
    hit.arxivId.Some? && hit.arxivId.value != []
  }

  /** The set of PDF links of the hits with a non-empty id. */
  function SourcesOf(hits: seq<UnifiedHit>): set<String> {
    set h | h in hits && HasId(h) :: SourceUrl(h.arxivId.value)
  }

  /**
    `_prepare_chunks_and_sources`: the mode is "hybrid" exactly when hybrid search
    was asked for and the embedding succeeded; one chunk per hit, in order; the
    sources are the de-duplicated PDF links. A failing search propagates.
  */
  method PrepareChunksAndSources(request: AskRequest, embed: Embed, searchUnified: UnifiedSearch)
    returns (r: Result<Prepared, String>)
    ensures var res := searchUnified(UnifiedQueryFor(request, EmbeddingFor(request, embed)));
            && (res.Failure? ==> r == Failure(res.error))
            && (res.Success? ==>
                  var hits := res.value.hits.GetOr([]);
                  && r.Success?
                  && (r.value.searchMode == "hybrid" <==> request.useHybrid && embed(request.query).Success?)
                  && (r.value.searchMode == "bm25" <==> !(request.useHybrid && embed(request.query).Success?))
                  && |r.value.chunks| == |hits|
                  && (forall i :: 0 <= i < |hits| ==> r.value.chunks[i] == ChunkOf(hits[i]))
                  && r.value.sources == SourcesOf(hits))
  {
    var queryEmbedding: Option<seq<real>> := None;
    var searchMode := "bm25";
    if request.useHybrid {
      var e := embed(request.query);
      if e.Success? {
        queryEmbedding := Some(e.value);
        searchMode := "hybrid";
      } else {
        queryEmbedding := None;
        searchMode := "bm25";
      }
    }
    var searchResults := searchUnified(UnifiedQueryFor(request, queryEmbedding));
    if searchResults.Failure? {
      return Failure(searchResults.error);
    }
    var hits := searchResults.value.hits.GetOr([]);
    var chunks: seq<LlmChunk> := [];
    var sourcesSet: set<String> := {};
    var i := 0;
    while i < |hits|
      invariant 0 <= i <= |hits|
      invariant |chunks| == i && forall j :: 0 <= j < i ==> chunks[j] == ChunkOf(hits[j])
      invariant sourcesSet == SourcesOf(hits[..i])
    {
      var hit := hits[i];
      var arxivId := hit.arxivId.GetOr("");
      chunks := chunks + [LlmChunk(arxivId, hit.chunkText.GetOr(hit.paperAbstract.GetOr("")))];
      SourcesOfSnoc(hits[..i], hit);
      assert hits[..i + 1] == hits[..i] + [hit];
      if arxivId != [] {
        var arxivIdClean := if 'v' in arxivId then SplitOn(arxivId, 'v')[0] else arxivId;
        sourcesSet := sourcesSet + {"https://arxiv.org/pdf/" + arxivIdClean + ".pdf"};
      }
      i := i + 1;
    }
    assert hits[..|hits|] == hits;
    r := Success(Prepared(chunks, sourcesSet, searchMode));
  }

  /** One more hit adds its link, if it has an id. */
  lemma SourcesOfSnoc(hits: seq<UnifiedHit>, h: UnifiedHit)
    ensures SourcesOf(hits + [h]) == SourcesOf(hits) + (if HasId(h) then {SourceUrl(h.arxivId.value)} else {})
  {
    var lhs, rhs := SourcesOf(hits + [h]), SourcesOf(hits) + (if HasId(h) then {SourceUrl(h.arxivId.value)} else {});
    forall u | u in lhs ensures u in rhs {
      var g :| g in hits + [h] && HasId(g) && SourceUrl(g.arxivId.value) == u;
      if g != h {
        assert g in hits;
      }
    }
    forall u | u in rhs ensures u in lhs {
      if u in SourcesOf(hits) {
        var g :| g in hits && HasId(g) && SourceUrl(g.arxivId.value) == u;
        assert g in hits + [h];
      } else {
        assert h in hits + [h];
      }
    }
  }

  // ---------------------------------------------------------------- what the preparation promises

  /** De-duplication: there are never more sources than hits. */
  lemma {:induction false} SourcesAtMostHits(hits: seq<UnifiedHit>)
    ensures |SourcesOf(hits)| <= |hits|
  {
    if hits != [] {
      var init, h := hits[..|hits| - 1], hits[|hits| - 1];
      assert hits == init + [h];
      SourcesOfSnoc(init, h);
      SourcesAtMostHits(init);
    }
  }

  /** A link is a source exactly when some hit with a non-empty id produces it. */
  lemma SourcesMembership(hits: seq<UnifiedHit>, url: String)
    ensures url in SourcesOf(hits) <==> exists i :: 0 <= i < |hits| && HasId(hits[i]) && SourceUrl(hits[i].arxivId.value) == url
  {
    if url in SourcesOf(hits) {
      var g :| g in hits && HasId(g) && SourceUrl(g.arxivId.value) == url;
      var i :| 0 <= i < |hits| && hits[i] == g;
    }
  }

  /** Two versions of the same paper share one PDF link. */
  lemma VersionsShareSource(base: String, v1: String, v2: String)
    requires 'v' !in base
    ensures SourceUrl(base + "v" + v1) == SourceUrl(base + "v" + v2) == SourceUrl(base)
  {
    IndexOfPrefixFree(base, "v" + v1);
    IndexOfPrefixFree(base, "v" + v2);
    IndexOfPrefixFree(base, []);
    assert base + "v" + v1 == base + ("v" + v1);
    assert base + "v" + v2 == base + ("v" + v2);
    assert base + [] == base;
  }

  /** The first 'v' of `a + b` lies in `b` when `a` has none. */
  lemma {:induction false} IndexOfPrefixFree(a: String, b: String)
    requires 'v' !in a
    ensures IndexOf(a + b, 'v') == |a| + IndexOf(b, 'v')
    ensures (a + b)[..|a| + IndexOf(b, 'v')] == a + b[..IndexOf(b, 'v')]
  {
    if a != [] {
      assert (a + b)[0] == a[0] != 'v';
      assert (a + b)[1..] == a[1..] + b;
      IndexOfPrefixFree(a[1..], b);
      assert IndexOf(a + b, 'v') == 1 + IndexOf(a[1..] + b, 'v');
    } else {
      assert a + b == b;
    }
  }
}
