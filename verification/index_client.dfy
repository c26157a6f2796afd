/**
  The write side of the search indices: the alternating action/document body of
  a bulk request for a paper's chunks, and the metadata document of a paper.
*/
module IndexClient {
  import opened Wrappers
  import opened Text
  import opened Values

  const ChunksIndex: String := "paper_chunks"

  /** One line of a bulk body: `{"index": {"_index": ..., "_id": ...}}` or a document. */
  datatype BulkLine = IndexAction(index: String, id: String) | Document(doc: Dict)

  /** What `index_chunks_bulk` logs; it never raises. */
  datatype BulkOutcome = Indexed(count: nat) | BulkErrors(response: Dict) | Failed(error: String)

  /** `client.bulk(body=...)`, answering with the response dict or raising. */
  type BulkCall = seq<BulkLine> -> Result<Dict, String>

  /** `client.index(index=..., id=..., body=...)`. */
  datatype IndexRequest = IndexRequest(index: String, id: Value, body: Dict)
  type IndexCall = IndexRequest -> Result<(), String>

  predicate Keyed(doc: Dict) {
    "arxiv_id" in doc && "chunk_idx" in doc
  }

  /** `f"{doc['arxiv_id']}_{doc['chunk_idx']}"`. */
  function ChunkId(doc: Dict): String
    requires Keyed(doc)
  {
    Display(doc["arxiv_id"]) + "_" + Display(doc["chunk_idx"])
  }

  /** The comprehension building `actions`: a `KeyError` when a chunk lacks either key. */
  function ActionsOf(chunks: seq<Dict>): (r: Result<seq<BulkLine>, String>)
    ensures r.Success? <==> forall i :: 0 <= i < |chunks| ==> Keyed(chunks[i])
    ensures r.Failure? ==> r.error == "KeyError"
    ensures r.Success? ==> |r.value| == |chunks| && forall i :: 0 <= i < |chunks| ==> r.value[i] == IndexAction(ChunksIndex, ChunkId(chunks[i]))
  {
    if chunks == [] then Success([])
    else
      match ActionsOf(chunks[..|chunks| - 1])
      case Failure(e) => Failure(e)
      case Success(init) =>
        var last := chunks[|chunks| - 1];
        if !Keyed(last) then Failure("KeyError")
        else Success(init + [IndexAction(ChunksIndex, ChunkId(last))])
  }

  /** `zip(actions, docs)` flattened: action, document, action, document, ... */
  function Interleave(actions: seq<BulkLine>, docs: seq<Dict>): (body: seq<BulkLine>)
    requires |actions| == |docs|
    ensures |body| == 2 * |actions|
    ensures forall i :: 0 <= i < |actions| ==> body[2 * i] == actions[i] && body[2 * i + 1] == Document(docs[i])
  {
    if actions == [] then []
    else Interleave(actions[..|actions| - 1], docs[..|docs| - 1]) + [actions[|actions| - 1], Document(docs[|docs| - 1])]
  }

  /** How the response of the bulk call is logged. */
  function OutcomeOf(response: Result<Dict, String>, count: nat): BulkOutcome {
    if response.Failure? then Failed(response.error)
    else if Truthy(Get(response.value, "errors", Null)) then BulkErrors(response.value)
    else Indexed(count)
  }

  /**
    `index_chunks_bulk`: one index action per chunk, keyed by arXiv id and chunk
    index, each followed by a copy of the chunk; every error ends up logged.
  */
  method IndexChunksBulk(chunks: seq<Dict>, bulk: BulkCall) returns (outcome: BulkOutcome)
    ensures var acts := ActionsOf(chunks);
            && (acts.Failure? ==> outcome == Failed(acts.error))
            && (acts.Success? ==> outcome == OutcomeOf(bulk(Interleave(acts.value, chunks)), |chunks|))
  {
    var acts := ActionsOf(chunks);
    if acts.Failure? {
      return Failed(acts.error);
    }
    var actions := acts.value;
    var docs: seq<Dict> := [];
    for i := 0 to |chunks|
      invariant docs == chunks[..i]
    {
      docs := docs + [chunks[i]];
    }
    assert docs == chunks;
    var body: seq<BulkLine> := [];
    for i := 0 to |actions|
      invariant body == Interleave(actions[..i], docs[..i])
    {
      InterleaveSnoc(actions, docs, i);
      body := body + [actions[i]];
      body := body + [Document(docs[i])];
    }
    assert actions[..|actions|] == actions && docs[..|docs|] == docs;
    var resp := bulk(body);
    if resp.Failure? {
      return Failed(resp.error);
    }
    if Truthy(Get(resp.value, "errors", Null)) {
      return BulkErrors(resp.value);
    }
    return Indexed(|chunks|);
  }

  /** One more pair extends the interleaved body by an action and its document. */
  lemma InterleaveSnoc(actions: seq<BulkLine>, docs: seq<Dict>, i: nat)
    requires |actions| == |docs| && i < |actions|
    ensures Interleave(actions[..i + 1], docs[..i + 1]) == Interleave(actions[..i], docs[..i]) + [actions[i]] + [Document(docs[i])]
  {
    assert actions[..i + 1][..i] == actions[..i];
    assert docs[..i + 1][..i] == docs[..i];
  }

  // ---------------------------------------------------------------- chunk ids

  /** `str` of an integer never contains an underscore. */
  lemma NoUnderscoreInInt(i: int)
    ensures '_' !in IntToString(i)
  {
    var s := IntToString(i);
    if i < 0 {
      assert s == "-" + NatToString(-i);
      assert forall k :: 0 <= k < |s| ==> s[k] == '-' || IsDigit(s[k]);
    } else {
      assert forall k :: 0 <= k < |s| ==> IsDigit(s[k]);
    }
  }

  /** Splitting at the last `c`: a suffix free of `c` is determined by the whole. */
  lemma SplitAtLast(a1: String, d1: String, a2: String, d2: String, c: char)
    requires c !in d1 && c !in d2
    requires a1 + [c] + d1 == a2 + [c] + d2
    ensures a1 == a2 && d1 == d2
  {
    var x := a1 + [c] + d1;
    assert forall k :: |a1| < k < |x| ==> x[k] == d1[k - |a1| - 1] != c;
    assert forall k :: |a2| < k < |x| ==> x[k] == d2[k - |a2| - 1] != c;
    assert x[|a1|] == c && x[|a2|] == c;
    assert |a1| == |a2|;
    assert d1 == x[|x| - |d1|..] == d2;
    assert a1 == x[..|a1|] == a2;
  }

  /**
    Chunks with a string arXiv id and an integer index get distinct bulk ids
    unless both parts agree, so one bulk body never overwrites a chunk with another.
  */
  lemma ChunkIdInjective(c1: Dict, c2: Dict)
    requires Keyed(c1) && Keyed(c2)
    requires c1["arxiv_id"].Str? && c1["chunk_idx"].Int? && c2["arxiv_id"].Str? && c2["chunk_idx"].Int?
    ensures ChunkId(c1) == ChunkId(c2) <==> c1["arxiv_id"] == c2["arxiv_id"] && c1["chunk_idx"] == c2["chunk_idx"]
  {
    if ChunkId(c1) == ChunkId(c2) {
      var i1, i2 := c1["chunk_idx"].i, c2["chunk_idx"].i;
      NoUnderscoreInInt(i1);
      NoUnderscoreInInt(i2);
      SplitAtLast(c1["arxiv_id"].s, IntToString(i1), c2["arxiv_id"].s, IntToString(i2), '_');
      ParseIntOfString(i1);
      ParseIntOfString(i2);
    }
  }

  // ---------------------------------------------------------------- paper metadata

  /** The document `index_paper_meta` builds: a `KeyError` without arXiv id, title or abstract. */
  function PaperDoc(meta: Dict): (r: Result<Dict, String>)
    ensures r.Success? <==> "arxiv_id" in meta && "title" in meta && "abstract" in meta
    ensures r.Failure? ==> r.error == "KeyError"
    ensures r.Success? ==> r.value.Keys == {"arxiv_id", "title", "abstract", "authors", "categories", "published_at"}
    ensures r.Success? ==> r.value["arxiv_id"] == meta["arxiv_id"] && r.value["title"] == meta["title"] && r.value["abstract"] == meta["abstract"]
    ensures r.Success? ==> r.value["authors"] == (if "authors" in meta then meta["authors"] else List([]))
    ensures r.Success? ==> r.value["categories"] == (if "categories" in meta then meta["categories"] else List([]))
    ensures r.Success? ==> r.value["published_at"] == (if "published_date" in meta then meta["published_date"] else Null)
  {
    if "arxiv_id" in meta && "title" in meta && "abstract" in meta then
      Success(map[
        "arxiv_id" := meta["arxiv_id"],
        "title" := meta["title"],
        "abstract" := meta["abstract"],
        "authors" := Get(meta, "authors", List([])),
        "categories" := Get(meta, "categories", List([])),
        "published_at" := Get(meta, "published_date", Null)])
    else Failure("KeyError")
  }

  /** `index_paper_meta`: index the document under the paper's arXiv id; errors propagate. */
  function IndexPaperMeta(meta: Dict, index: IndexCall): (r: Result<(), String>)
    ensures PaperDoc(meta).Failure? ==> r == Failure("KeyError")
    ensures PaperDoc(meta).Success? ==> r == index(IndexRequest("papers", meta["arxiv_id"], PaperDoc(meta).value))
  {
    var doc := PaperDoc(meta);
    if doc.Failure? then Failure(doc.error)
    else index(IndexRequest("papers", meta["arxiv_id"], doc.value))
  }

  /** Keys other than the six the document reads never influence it. */
  lemma PaperDocIgnoresOtherKeys(meta: Dict, key: String, v: Value)
    requires key !in {"arxiv_id", "title", "abstract", "authors", "categories", "published_date"}
    ensures PaperDoc(meta[key := v]) == PaperDoc(meta)
  {
  }
}
