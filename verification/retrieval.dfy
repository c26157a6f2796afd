/**
  Chunk retrieval over the `paper_chunks` index: BM25 over chunk text, k-NN over
  chunk embeddings, and their hybrid, which fuses both by Reciprocal Rank Fusion
  keyed by `arxiv_id` with ranks counted from 0 and `k = 60`.
*/
module Retrieval {
  import opened Wrappers
  import opened Text
  import opened Values
  import opened Fusion
  import QueryBuilder

  const ChunksIndex: String := "paper_chunks"
  const RrfK: int := 60

  /** The `_source` of a chunk hit; `arxivId` is `None` when the key is missing. */
  datatype ChunkSource = ChunkSource(arxivId: Option<String>, rest: Dict)

  /** The body of `search_bm25_chunks`: a `multi_match` over chunk text and section. */
  datatype ChunkMatchBody = ChunkMatchBody(size: int, query: String, fields: seq<String>)

  /** An index search, standing for `client.search` followed by collecting each hit's `_source`. */
  type KnnSearch = QueryBuilder.KnnBody -> Result<seq<ChunkSource>, String>
  type MatchSearch = ChunkMatchBody -> Result<seq<ChunkSource>, String>
  /** `embed_texts([q])[0]`, failing for whatever that raises. */
  type Embed = String -> Result<seq<real>, String>

  /** `search_vector`: a failed embedding gives no hits; a failed search propagates. */
  function SearchVector(query: String, topK: int, embed: Embed, knn: KnnSearch): (r: Result<seq<ChunkSource>, String>)
    ensures embed(query).Failure? ==> r == Success([])
    ensures embed(query).Success? ==>
              var body := QueryBuilder.BuildKnn(embed(query).value, topK);
              r == knn(body) && body.k == topK && body.size == topK
  {
    match embed(query)
    case Failure(_) => Success([])
    case Success(v) => knn(QueryBuilder.BuildKnn(v, topK))
  }

  /** `search_bm25_chunks`. */
  function SearchBm25Chunks(query: String, topK: int, lex: MatchSearch): (r: Result<seq<ChunkSource>, String>)
    ensures r == lex(ChunkMatchBody(topK, query, ["text^2", "section"]))
  {
    lex(ChunkMatchBody(topK, query, ["text^2", "section"]))
  }

  // ---------------------------------------------------------------- the fused answer

  predicate AllKeyed(docs: seq<ChunkSource>) {
    forall i :: 0 <= i < |docs| ==> docs[i].arxivId.Some?
  }

  /** `doc["arxiv_id"]` of every doc, in order. */
  function Keys(docs: seq<ChunkSource>): (ids: seq<String>)
    requires AllKeyed(docs)
    ensures |ids| == |docs| && forall i :: 0 <= i < |docs| ==> ids[i] == docs[i].arxivId.value
  {
    seq(|docs|, i requires 0 <= i < |docs| => docs[i].arxivId.value)
  }

  /** `{d["arxiv_id"]: d for d in docs}`: a later doc replaces an earlier one with the same id. */
  function IdToDoc(docs: seq<ChunkSource>): map<String, ChunkSource>
    requires AllKeyed(docs)
  {
    if docs == [] then map[]
    else
      var last := docs[|docs| - 1];
      IdToDoc(docs[..|docs| - 1])[last.arxivId.value := last]
  }

  /** The ranked `(id, score)` pairs kept: the `top_k` best by fused score, ties in first-seen order. */
  function HybridRanked(bm25: seq<ChunkSource>, vec: seq<ChunkSource>, topK: int): seq<Scored>
    requires AllKeyed(bm25) && AllKeyed(vec)
  {
    PySlice(SortDesc(RrfScores(Keys(bm25), Keys(vec), RrfK, 0), ScoreOf), 0, topK)
  }

  /** The docs `search_hybrid` returns once both searches produced hits. */
  function HybridFused(bm25: seq<ChunkSource>, vec: seq<ChunkSource>, topK: int): seq<ChunkSource>
    requires AllKeyed(bm25) && AllKeyed(vec)
  {
    var ranked := HybridRanked(bm25, vec, topK);
    var byId := IdToDoc(bm25 + vec);
    HybridRankedKnown(bm25, vec, topK);
    seq(|ranked|, i requires 0 <= i < |ranked| => byId[ranked[i].id])
  }

  /**
    `search_hybrid`: both searches ask for `2 * top_k` hits. A failing BM25 search
    propagates; a failing or empty vector search falls back to the first `top_k`
    BM25 hits; otherwise the fused ranking is returned, and a hit without
    `arxiv_id` raises `KeyError`.
  */
  method SearchHybrid(query: String, topK: int, embed: Embed, knn: KnnSearch, lex: MatchSearch)
    returns (r: Result<seq<ChunkSource>, String>)
    ensures var bm25Res := SearchBm25Chunks(query, topK * 2, lex);
            var vectorRes := SearchVector(query, topK * 2, embed, knn);
            if bm25Res.Failure? then r == Failure(bm25Res.error)
            else if vectorRes.Failure? || vectorRes.value == [] then r == Success(PySlice(bm25Res.value, 0, topK))
            else if !(AllKeyed(bm25Res.value) && AllKeyed(vectorRes.value)) then r == Failure("KeyError")
            else r == Success(HybridFused(bm25Res.value, vectorRes.value, topK))
  {
    var bm25Res := SearchBm25Chunks(query, topK * 2, lex);
    if bm25Res.Failure? {
      return Failure(bm25Res.error);
    }
    var vectorRes := SearchVector(query, topK * 2, embed, knn);
    if vectorRes.Failure? {
      return Success(PySlice(bm25Res.value, 0, topK));
    }
    if vectorRes.value == [] {
      return Success(PySlice(bm25Res.value, 0, topK));
    }
    var bm25, vec := bm25Res.value, vectorRes.value;
    var ok, afterBm25 := AccumulateDocs(Tallied(map[], []), bm25);
    if !ok {
      return Failure("KeyError");
    }
    var scores;
    ok, scores := AccumulateDocs(afterBm25, vec);
    if !ok {
      return Failure("KeyError");
    }
    AddAllBoth(Keys(bm25), Keys(vec), RrfK, 0);
    TallyItems(scores, Keys(bm25), Keys(vec), RrfK, 0);
    var rankedIds := PySlice(SortDesc(Items(scores), ScoreOf), 0, topK);
    assert rankedIds == HybridRanked(bm25, vec, topK);
    HybridRankedKnown(bm25, vec, topK);
    var idToDoc := IdToDoc(bm25 + vec);
    r := Success(seq(|rankedIds|, i requires 0 <= i < |rankedIds| => idToDoc[rankedIds[i].id]));
  }

  /**
    One of the two loops of `search_hybrid`: add `1 / (60 + rank)` (rank counted
    from 0) to the score of each doc's `arxiv_id`. It stops with `false` at the
    first doc without one, where the source raises `KeyError`.
  */
  method AccumulateDocs(init: Tallied, docs: seq<ChunkSource>) returns (ok: bool, scores: Tallied)
    ensures ok <==> AllKeyed(docs)
    ensures ok ==> scores == AddAll(init, Keys(docs), RrfK, 0)
  {
    scores := init;
    var rank := 0;
    while rank < |docs|
      invariant 0 <= rank <= |docs|
      invariant AllKeyed(docs[..rank])
      invariant scores == AddAll(init, Keys(docs[..rank]), RrfK, 0)
    {
      var id := docs[rank].arxivId;
      if id.None? {
        assert docs[rank].arxivId.None?;
        return false, scores;
      }
      KeysStep(docs, rank);
      scores := AddScore(scores, id.value, 1.0 / ((RrfK + rank) as real));
      rank := rank + 1;
    }
    assert docs[..|docs|] == docs;
    ok := true;
  }

  // ---------------------------------------------------------------- helpers

  lemma AllKeyedAppend(a: seq<ChunkSource>, b: seq<ChunkSource>)
    ensures AllKeyed(a + b) <==> AllKeyed(a) && AllKeyed(b)
    ensures AllKeyed(a + b) ==> Keys(a + b) == Keys(a) + Keys(b)
  {
    if !AllKeyed(a) {
      var i :| 0 <= i < |a| && a[i].arxivId.None?;
      assert (a + b)[i] == a[i];
    } else if !AllKeyed(b) {
      var i :| 0 <= i < |b| && b[i].arxivId.None?;
      assert (a + b)[|a| + i] == b[i];
    }
  }

  lemma KeysStep(docs: seq<ChunkSource>, n: nat)
    requires n < |docs| && AllKeyed(docs[..n]) && docs[n].arxivId.Some?
    ensures AllKeyed(docs[..n + 1])
    ensures Keys(docs[..n + 1]) == Keys(docs[..n]) + [docs[n].arxivId.value]
    ensures Keys(docs[..n + 1])[..n] == Keys(docs[..n])
  {
    assert docs[..n + 1] == docs[..n] + [docs[n]];
  }

  /** Every kept id has a doc in the dict built from both hit lists. */
  lemma HybridRankedKnown(bm25: seq<ChunkSource>, vec: seq<ChunkSource>, topK: int)
    requires AllKeyed(bm25) && AllKeyed(vec)
    ensures AllKeyed(bm25 + vec)
    ensures var ranked := HybridRanked(bm25, vec, topK);
            forall i :: 0 <= i < |ranked| ==> ranked[i].id in IdToDoc(bm25 + vec)
  {
    AllKeyedAppend(bm25, vec);
    var a, b := Keys(bm25), Keys(vec);
    var s := RrfScores(a, b, RrfK, 0);
    var sorted := SortDesc(s, ScoreOf);
    SortDescProps(s, ScoreOf);
    var ranked := HybridRanked(bm25, vec, topK);
    forall i | 0 <= i < |ranked| ensures ranked[i].id in IdToDoc(bm25 + vec) {
      assert ranked[i] == sorted[i];
      SortedEntry(a, b, i);
      IdToDocKeys(bm25 + vec, ranked[i].id);
    }
  }

  /** The dict's keys are exactly the ids of the docs. */
  lemma {:induction false} IdToDocKeys(docs: seq<ChunkSource>, x: String)
    requires AllKeyed(docs)
    ensures x in IdToDoc(docs) <==> x in Keys(docs)
  {
    if docs != [] {
      var init := docs[..|docs| - 1];
      assert docs == init + [docs[|docs| - 1]];
      AllKeyedAppend(init, [docs[|docs| - 1]]);
      IdToDocKeys(init, x);
    }
  }

  /** The position of the last occurrence of `x` in `ids`. */
  function LastIndexOf(ids: seq<String>, x: String): (p: nat)
    requires x in ids
    ensures p < |ids| && ids[p] == x
    ensures forall q :: p < q < |ids| ==> ids[q] != x
  {
    if ids[|ids| - 1] == x then |ids| - 1
    else
      assert x in ids[..|ids| - 1] by {
        var i :| 0 <= i < |ids| && ids[i] == x;
        assert ids[..|ids| - 1][i] == x;
      }
      LastIndexOf(ids[..|ids| - 1], x)
  }

  /** The dict keeps, for each id, the last doc carrying it. */
  lemma {:induction false} IdToDocLast(docs: seq<ChunkSource>, x: String)
    requires AllKeyed(docs) && x in Keys(docs)
    ensures x in IdToDoc(docs) && IdToDoc(docs)[x] == docs[LastIndexOf(Keys(docs), x)]
  {
    var n := |docs|;
    var init, last := docs[..n - 1], docs[n - 1];
    assert docs == init + [last];
    AllKeyedAppend(init, [last]);
    if last.arxivId.value != x {
      assert Keys(docs)[..n - 1] == Keys(init);
      assert x in Keys(init) by {
        var i :| 0 <= i < n && Keys(docs)[i] == x;
        assert Keys(init)[i] == x;
      }
      IdToDocLast(init, x);
    }
  }

  lemma IdToDocSnoc(docs: seq<ChunkSource>, d: ChunkSource)
    requires AllKeyed(docs) && d.arxivId.Some?
    ensures AllKeyed(docs + [d]) && IdToDoc(docs + [d]) == IdToDoc(docs)[d.arxivId.value := d]
  {
    KeyedConcat(docs, [d]);
    assert (docs + [d])[..|docs|] == docs;
  }

  lemma KeyedConcat(a: seq<ChunkSource>, b: seq<ChunkSource>)
    requires AllKeyed(a) && AllKeyed(b)
    ensures AllKeyed(a + b)
  {
    forall i | 0 <= i < |a + b| ensures (a + b)[i].arxivId.Some? {
      if i >= |a| {
        assert (a + b)[i] == b[i - |a|];
      }
    }
  }

  /** Building the dict from `a + b` lets the docs of `b` override those of `a`. */
  lemma {:induction false} IdToDocConcat(a: seq<ChunkSource>, b: seq<ChunkSource>)
    requires AllKeyed(a) && AllKeyed(b)
    ensures AllKeyed(a + b) && IdToDoc(a + b) == IdToDoc(a) + IdToDoc(b)
  {
    KeyedConcat(a, b);
    if b == [] {
      assert a + b == a;
    } else {
      var init, last := b[..|b| - 1], b[|b| - 1];
      assert b == init + [last];
      IdToDocConcat(a, init);
      var m1, m2, x := IdToDoc(a), IdToDoc(init), last.arxivId.value;
      assert IdToDoc(a + b) == (m1 + m2)[x := last] by {
        assert a + b == (a + init) + [last];
        IdToDocSnoc(a + init, last);
      }
      assert IdToDoc(b) == m2[x := last] by {
        IdToDocSnoc(init, last);
      }
      UpdateUnion(m1, m2, x, last);
    }
  }

  /** Updating a union at a key is updating its right-hand side there. */
  lemma UpdateUnion<K, V>(m1: map<K, V>, m2: map<K, V>, x: K, v: V)
    ensures (m1 + m2)[x := v] == m1 + m2[x := v]
  {
  }

  // ---------------------------------------------------------------- what the hybrid search promises

  /**
    The kept ranking: the first `top_k` of the distinct ids (all but the last
    `-top_k` for a negative `top_k`, as Python slices), distinct ids, best first,
    each with its fused score.
  */
  lemma HybridRankedProps(bm25: seq<ChunkSource>, vec: seq<ChunkSource>, topK: int)
    requires AllKeyed(bm25) && AllKeyed(vec)
    ensures var ranked := HybridRanked(bm25, vec, topK);
            && var n := |FirstSeen(Keys(bm25) + Keys(vec))|;
            && (topK >= 0 ==> |ranked| == if topK < n then topK else n)
            && (topK < 0 ==> |ranked| == if n + topK < 0 then 0 else n + topK)
            && (forall i, j :: 0 <= i < j < |ranked| ==> ranked[i].id != ranked[j].id)
            && (forall i, j :: 0 <= i < j < |ranked| ==> ranked[i].score >= ranked[j].score)
            && (forall i :: 0 <= i < |ranked| ==>
                  ranked[i].id in Keys(bm25) + Keys(vec)
                  && ranked[i].score == RrfScore(Keys(bm25), Keys(vec), ranked[i].id, RrfK, 0))
  {
    var a, b := Keys(bm25), Keys(vec);
    var s := RrfScores(a, b, RrfK, 0);
    var sorted := SortDesc(s, ScoreOf);
    SortDescProps(s, ScoreOf);
    SortDescDistinct(s, ScoreOf, IdOf);
    var ranked := HybridRanked(bm25, vec, topK);
    assert ranked == sorted[..|ranked|];
    forall i | 0 <= i < |ranked|
      ensures ranked[i].id in a + b && ranked[i].score == RrfScore(a, b, ranked[i].id, RrfK, 0)
    {
      SortedEntry(a, b, i);
    }
  }

  /** Every entry of the sorted fused scores is some id's fused score. */
  lemma SortedEntry(a: seq<String>, b: seq<String>, i: nat)
    requires i < |SortDesc(RrfScores(a, b, RrfK, 0), ScoreOf)|
    ensures var e := SortDesc(RrfScores(a, b, RrfK, 0), ScoreOf)[i];
            e.id in a + b && e.score == RrfScore(a, b, e.id, RrfK, 0)
  {
    var s := RrfScores(a, b, RrfK, 0);
    var sorted := SortDesc(s, ScoreOf);
    SortDescProps(s, ScoreOf);
    assert sorted[i] in multiset(s);
    var p :| 0 <= p < |s| && s[p] == sorted[i];
  }

  /** Nothing left out of the top `top_k` scores more than anything kept. */
  lemma HybridKeepsBest(bm25: seq<ChunkSource>, vec: seq<ChunkSource>, topK: int, kept: nat, y: String)
    requires AllKeyed(bm25) && AllKeyed(vec)
    requires kept < |HybridRanked(bm25, vec, topK)|
    requires y in Keys(bm25) + Keys(vec)
    requires forall i :: 0 <= i < |HybridRanked(bm25, vec, topK)| ==> HybridRanked(bm25, vec, topK)[i].id != y
    ensures HybridRanked(bm25, vec, topK)[kept].score >= RrfScore(Keys(bm25), Keys(vec), y, RrfK, 0)
  {
    var a, b := Keys(bm25), Keys(vec);
    var s := RrfScores(a, b, RrfK, 0);
    var sorted := SortDesc(s, ScoreOf);
    SortDescProps(s, ScoreOf);
    var ranked := HybridRanked(bm25, vec, topK);
    assert ranked == sorted[..|ranked|];
    var j := SortedPosition(a, b, y);
    assert kept < j by {
      if j < |ranked| {
        assert ranked[j] == sorted[j];
      }
    }
  }

  /** Every id of either list has an entry in the sorted fused scores. */
  lemma SortedPosition(a: seq<String>, b: seq<String>, y: String) returns (j: nat)
    requires y in a + b
    ensures var sorted := SortDesc(RrfScores(a, b, RrfK, 0), ScoreOf);
            j < |sorted| && sorted[j].id == y && sorted[j].score == RrfScore(a, b, y, RrfK, 0)
  {
    var s := RrfScores(a, b, RrfK, 0);
    var sorted := SortDesc(s, ScoreOf);
    SortDescProps(s, ScoreOf);
    var p :| 0 <= p < |FirstSeen(a + b)| && FirstSeen(a + b)[p] == y;
    assert s[p] in multiset(sorted);
    j :| 0 <= j < |sorted| && sorted[j] == s[p];
  }

  /** Ties among the kept entries keep first-seen order: BM25 ids before ids only the vector search found. */
  lemma HybridTiesFirstSeen(bm25: seq<ChunkSource>, vec: seq<ChunkSource>, topK: int, v: real)
    requires AllKeyed(bm25) && AllKeyed(vec)
    ensures StartsWith(WithKey(RrfScores(Keys(bm25), Keys(vec), RrfK, 0), ScoreOf, v),
                       WithKey(HybridRanked(bm25, vec, topK), ScoreOf, v))
  {
    var s := RrfScores(Keys(bm25), Keys(vec), RrfK, 0);
    var sorted := SortDesc(s, ScoreOf);
    var ranked := HybridRanked(bm25, vec, topK);
    assert sorted == ranked + sorted[|ranked|..];
    WithKeyConcat(ranked, sorted[|ranked|..], ScoreOf, v);
    SortDescStable(s, ScoreOf, v);
  }

  /**
    Each returned doc carries the kept id, in ranking order, and is the last hit with
    that id, taken from the vector hits whenever the vector search returned that id.
  */
  lemma HybridPayloads(bm25: seq<ChunkSource>, vec: seq<ChunkSource>, topK: int)
    requires AllKeyed(bm25) && AllKeyed(vec)
    ensures var r, ranked := HybridFused(bm25, vec, topK), HybridRanked(bm25, vec, topK);
            && |r| == |ranked|
            && forall i :: 0 <= i < |r| ==>
                 && r[i].arxivId == Some(ranked[i].id)
                 && ranked[i].id in Keys(bm25) + Keys(vec)
                 && (ranked[i].id in Keys(vec) ==> r[i] == vec[LastIndexOf(Keys(vec), ranked[i].id)])
                 && (ranked[i].id !in Keys(vec) ==> r[i] == bm25[LastIndexOf(Keys(bm25), ranked[i].id)])
  {
    var r, ranked := HybridFused(bm25, vec, topK), HybridRanked(bm25, vec, topK);
    HybridRankedProps(bm25, vec, topK);
    IdToDocConcat(bm25, vec);
    AllKeyedAppend(bm25, vec);
    forall i | 0 <= i < |r|
      ensures r[i].arxivId == Some(ranked[i].id)
      ensures ranked[i].id in Keys(bm25) + Keys(vec)
      ensures ranked[i].id in Keys(vec) ==> r[i] == vec[LastIndexOf(Keys(vec), ranked[i].id)]
      ensures ranked[i].id !in Keys(vec) ==> r[i] == bm25[LastIndexOf(Keys(bm25), ranked[i].id)]
    {
      var x := ranked[i].id;
      HybridRankedKnown(bm25, vec, topK);
      assert r[i] == IdToDoc(bm25 + vec)[x];
      IdToDocKeys(vec, x);
      if x in Keys(vec) {
        IdToDocLast(vec, x);
      } else {
        assert x in Keys(bm25);
        IdToDocLast(bm25, x);
      }
    }
  }

  /** With the vector search empty or failing, the answer is the BM25 head. */
  lemma HybridFallbackIsBm25Head(bm25: seq<ChunkSource>, topK: int)
    requires topK >= 0
    ensures var r := PySlice(bm25, 0, topK);
            |r| == (if topK <= |bm25| then topK else |bm25|) && StartsWith(bm25, r)
  {
  }

  /** A doc found once by BM25 at 0-based rank `p` and once by the vector search at rank `q` scores `1/(60+p) + 1/(60+q)`. */
  lemma HybridAgreementAdds(bm25: seq<ChunkSource>, vec: seq<ChunkSource>, p: nat, q: nat)
    requires AllKeyed(bm25) && AllKeyed(vec)
    requires p < |bm25| && q < |vec| && bm25[p].arxivId == vec[q].arxivId
    requires forall j :: 0 <= j < |bm25| && j != p ==> bm25[j].arxivId != bm25[p].arxivId
    requires forall j :: 0 <= j < |vec| && j != q ==> vec[j].arxivId != vec[q].arxivId
    ensures RrfScore(Keys(bm25), Keys(vec), bm25[p].arxivId.value, RrfK, 0)
            == 1.0 / ((60 + p) as real) + 1.0 / ((60 + q) as real)
  {
    RankSumOnce(Keys(bm25), p, RrfK, 0);
    RankSumOnce(Keys(vec), q, RrfK, 0);
  }
}
