/**
  The API's query builder: the BM25 and k-NN request bodies and the
  Reciprocal Rank Fusion of two hit lists keyed by the engine's `_id`, with
  ranks counted from 1.
*/
module QueryBuilder {
  import opened Wrappers
  import opened Text
  import opened Values
  import opened Fusion

  // ---------------------------------------------------------------- BM25 body

  /** A `multi_match` clause. */
  datatype MultiMatch = MultiMatch(query: String, fields: seq<String>, matchType: String, operator: String, fuzziness: String)

  /** The `query` part of a BM25 body: the bare match, or the match under an id filter. */
  datatype Bm25Query =
    | Plain(multiMatch: MultiMatch)
    | IdFiltered(must: seq<MultiMatch>, termsField: String, ids: seq<String>)

  datatype Bm25Body = Bm25Body(query: Bm25Query, size: int, sourceFields: seq<String>)

  const Bm25Fields: seq<String> := ["title^3", "abstract^2", "authors^1"]
  const Bm25SourceFields: seq<String> := ["arxiv_id", "title", "authors", "abstract", "categories", "published_date"]

  function BaseMatch(query: String): MultiMatch {
    MultiMatch(query, Bm25Fields, "best_fields", "or", "AUTO")
  }

  /**
    `build_bm25`: an empty or absent id list leaves the bare match; otherwise the
    same match becomes the only `must` clause under a `terms` filter on `arxiv_id`.
  */
  function BuildBm25(query: String, arxivIds: Option<seq<String>>, size: int): (r: Bm25Body)
    ensures r.size == size && r.sourceFields == Bm25SourceFields
    ensures r.query.Plain? <==> arxivIds == None || arxivIds == Some([])
    ensures r.query.Plain? ==> r.query.multiMatch == BaseMatch(query)
    ensures r.query.IdFiltered? ==>
              r.query.must == [BaseMatch(query)] && r.query.termsField == "arxiv_id"
              && arxivIds == Some(r.query.ids)
  {
    var base := Bm25Body(Plain(BaseMatch(query)), size, Bm25SourceFields);
    if arxivIds.Some? && arxivIds.value != [] then
      base.(query := IdFiltered([base.query.multiMatch], "arxiv_id", arxivIds.value))
    else
      base
  }

  /** Filtering by ids wraps exactly the unfiltered query and keeps everything else. */
  lemma Bm25FilterWrapsPlain(query: String, ids: seq<String>, size: int)
    requires ids != []
    ensures var f, p := BuildBm25(query, Some(ids), size), BuildBm25(query, None, size);
            f.query.must == [p.query.multiMatch] && f.size == p.size && f.sourceFields == p.sourceFields
  {
  }

  // ---------------------------------------------------------------- k-NN body

  /** A k-NN body: `{"query": {"knn": {field: {"vector": v, "k": k}}}, "size": size}`. */
  datatype KnnBody = KnnBody(field: String, vector: seq<real>, k: int, size: int)

  /** `build_knn`: the neighbour count equals the result size. */
  function BuildKnn(queryEmb: seq<real>, size: int): (r: KnnBody)
    ensures r.k == size && r.size == size
    ensures r.vector == queryEmb && r.field == "embedding"
  {
    KnnBody("embedding", queryEmb, size, size)
  }

  // ---------------------------------------------------------------- rank fusion

  /** An engine hit; fusion reads only its `_id`. */
  datatype Hit = Hit(id: String, score: real, source: Dict)

  datatype FusedHit = FusedHit(id: String, score: real, source: Dict)

  function FusedScore(f: FusedHit): real { f.score }

  function FusedId(f: FusedHit): String { f.id }

  function HitIds(hits: seq<Hit>): (ids: seq<String>)
    ensures |ids| == |hits| && forall i :: 0 <= i < |hits| ==> ids[i] == hits[i].id
  {
    seq(|hits|, i requires 0 <= i < |hits| => hits[i].id)
  }

  /** `_get_source`: a placeholder that returns an empty payload for every id. */
  function GetSource(docId: String): Dict {
    map[]
  }

  /** The fused entries before sorting: one per distinct `_id`, in first-seen order. */
  function FusedEntries(bm25: seq<Hit>, knn: seq<Hit>, k: int): (r: seq<FusedHit>)
    requires NonZeroRanks(|bm25|, k, 1) && NonZeroRanks(|knn|, k, 1)
    ensures var ids := FirstSeen(HitIds(bm25) + HitIds(knn));
            |r| == |ids| && forall i :: 0 <= i < |r| ==> r[i].id == ids[i]
  {
    var a, b := HitIds(bm25), HitIds(knn);
    var ids := FirstSeen(a + b);
    seq(|ids|, i requires 0 <= i < |ids| => FusedHit(ids[i], RrfScore(a, b, ids[i], k, 1), GetSource(ids[i])))
  }

  /** What `rrf_fuse` returns: the fused entries stably sorted by descending score. */
  function RrfFused(bm25: seq<Hit>, knn: seq<Hit>, k: int): seq<FusedHit>
    requires NonZeroRanks(|bm25|, k, 1) && NonZeroRanks(|knn|, k, 1)
  {
    SortDesc(FusedEntries(bm25, knn, k), FusedScore)
  }

  /** The comprehension building `fused` from the dict's keys, in insertion order. */
  function Entries(t: Tallied): seq<FusedHit>
    requires forall x :: x in t.order ==> x in t.scores
  {
    seq(|t.order|, i requires 0 <= i < |t.order| => FusedHit(t.order[i], t.scores[t.order[i]], GetSource(t.order[i])))
  }

  lemma EntriesFused(bm25: seq<Hit>, knn: seq<Hit>, k: int)
    requires NonZeroRanks(|bm25|, k, 1) && NonZeroRanks(|knn|, k, 1)
    ensures var t := AddAll(AddAll(Tallied(map[], []), HitIds(bm25), k, 1), HitIds(knn), k, 1);
            (forall x :: x in t.order ==> x in t.scores) && Entries(t) == FusedEntries(bm25, knn, k)
  {
    AddAllBoth(HitIds(bm25), HitIds(knn), k, 1);
    TallyEntries(AddAll(AddAll(Tallied(map[], []), HitIds(bm25), k, 1), HitIds(knn), k, 1), bm25, knn, k);
  }

  lemma TallyEntries(t: Tallied, bm25: seq<Hit>, knn: seq<Hit>, k: int)
    requires NonZeroRanks(|bm25|, k, 1) && NonZeroRanks(|knn|, k, 1)
    requires Tally(t, HitIds(bm25), HitIds(knn), k, 1)
    ensures (forall x :: x in t.order ==> x in t.scores) && Entries(t) == FusedEntries(bm25, knn, k)
  {
    var e, f := Entries(t), FusedEntries(bm25, knn, k);
    assert |e| == |f|;
    forall i | 0 <= i < |e| ensures e[i] == f[i] {
    }
  }

  /**
    One of the two loops of `rrf_fuse`: add `1 / (k + rank)` (rank counted from 1)
    to the score of each hit's `_id`. It stops with `false` where `k + rank` is
    zero, the point at which the source raises `ZeroDivisionError`.
  */
  method AccumulateRanks(init: Tallied, hits: seq<Hit>, k: int) returns (ok: bool, rrfScores: Tallied)
    ensures ok <==> NonZeroRanks(|hits|, k, 1)
    ensures ok ==> rrfScores == AddAll(init, HitIds(hits), k, 1)
  {
    var ids := HitIds(hits);
    rrfScores := init;
    var i := 0;
    while i < |hits|
      invariant 0 <= i <= |hits|
      invariant NonZeroRanks(i, k, 1)
      invariant rrfScores == AddAll(init, ids[..i], k, 1)
    {
      var rank := i + 1;
      if k + rank == 0 {
        return false, rrfScores;
      }
      AddAllSnoc(init, ids, i, k, 1);
      rrfScores := AddScore(rrfScores, hits[i].id, 1.0 / ((k + rank) as real));
      i := i + 1;
    }
    assert ids[..|hits|] == ids;
    ok := true;
  }

  /**
    `rrf_fuse`: the BM25 hits and then the k-NN hits are accumulated into one
    dict, whose entries are sorted by descending score; a rank that makes
    `k + rank` zero raises `ZeroDivisionError`.
  */
  method RrfFuse(bm25Hits: seq<Hit>, knnHits: seq<Hit>, k: int) returns (r: Result<seq<FusedHit>, String>)
    ensures r.Success? <==> NonZeroRanks(|bm25Hits|, k, 1) && NonZeroRanks(|knnHits|, k, 1)
    ensures r.Success? ==> r.value == RrfFused(bm25Hits, knnHits, k)
  {
    var ok, afterBm25 := AccumulateRanks(Tallied(map[], []), bm25Hits, k);
    if !ok {
      return Failure("ZeroDivisionError");
    }
    var rrfScores;
    ok, rrfScores := AccumulateRanks(afterBm25, knnHits, k);
    if !ok {
      return Failure("ZeroDivisionError");
    }
    EntriesFused(bm25Hits, knnHits, k);
    var fused := Entries(rrfScores);
    r := Success(SortDesc(fused, FusedScore));
  }

  // ---------------------------------------------------------------- what the fusion promises

  /** Exactly one fused entry per distinct `_id` of the two inputs; nothing is cut off. */
  lemma RrfOneEntryPerId(bm25: seq<Hit>, knn: seq<Hit>, k: int)
    requires NonZeroRanks(|bm25|, k, 1) && NonZeroRanks(|knn|, k, 1)
    ensures var r := RrfFused(bm25, knn, k);
            && |r| == |FirstSeen(HitIds(bm25) + HitIds(knn))|
            && (forall i, j :: 0 <= i < j < |r| ==> r[i].id != r[j].id)
            && (forall x :: (exists i :: 0 <= i < |r| && r[i].id == x) <==> x in HitIds(bm25) + HitIds(knn))
  {
    var e := FusedEntries(bm25, knn, k);
    SortDescProps(e, FusedScore);
    SortDescDistinct(e, FusedScore, FusedId);
    forall x ensures var r := RrfFused(bm25, knn, k); (exists i :: 0 <= i < |r| && r[i].id == x) <==> x in HitIds(bm25) + HitIds(knn) {
      RrfHasId(bm25, knn, k, x);
    }
  }

  lemma RrfHasId(bm25: seq<Hit>, knn: seq<Hit>, k: int, x: String)
    requires NonZeroRanks(|bm25|, k, 1) && NonZeroRanks(|knn|, k, 1)
    ensures var r := RrfFused(bm25, knn, k);
            (exists i :: 0 <= i < |r| && r[i].id == x) <==> x in HitIds(bm25) + HitIds(knn)
  {
    var e := FusedEntries(bm25, knn, k);
    var r := SortDesc(e, FusedScore);
    var ids := FirstSeen(HitIds(bm25) + HitIds(knn));
    SortDescProps(e, FusedScore);
    if x in ids {
      var p :| 0 <= p < |ids| && ids[p] == x;
      assert e[p] in multiset(r);
      var i :| 0 <= i < |r| && r[i] == e[p];
      assert r[i].id == x;
    }
    if exists i :: 0 <= i < |r| && r[i].id == x {
      var i :| 0 <= i < |r| && r[i].id == x;
      assert r[i] in multiset(e);
      var p :| 0 <= p < |e| && e[p] == r[i];
      assert ids[p] == x;
    }
    assert r == RrfFused(bm25, knn, k);
    assert x in ids <==> x in HitIds(bm25) + HitIds(knn);
  }

  /**
    Every fused score is the sum of `1 / (k + rank)` over the positions of its `_id`
    in both lists, and every fused payload is empty.
  */
  lemma RrfScoresAndSources(bm25: seq<Hit>, knn: seq<Hit>, k: int)
    requires NonZeroRanks(|bm25|, k, 1) && NonZeroRanks(|knn|, k, 1)
    ensures var r := RrfFused(bm25, knn, k);
            forall i :: 0 <= i < |r| ==>
              r[i].score == RankSum(HitIds(bm25), r[i].id, k, 1) + RankSum(HitIds(knn), r[i].id, k, 1)
              && r[i].source == map[]
  {
    var e := FusedEntries(bm25, knn, k);
    var r := RrfFused(bm25, knn, k);
    SortDescProps(e, FusedScore);
    forall i | 0 <= i < |r|
      ensures r[i].score == RankSum(HitIds(bm25), r[i].id, k, 1) + RankSum(HitIds(knn), r[i].id, k, 1)
      ensures r[i].source == map[]
    {
      assert r[i] in multiset(e);
      var p :| 0 <= p < |e| && e[p] == r[i];
    }
  }

  /** An `_id` found once in each list, at 1-based ranks `p + 1` and `q + 1`, scores both contributions. */
  lemma RrfAgreementAdds(bm25: seq<Hit>, knn: seq<Hit>, k: int, p: nat, q: nat)
    requires k > 0
    requires p < |bm25| && q < |knn| && bm25[p].id == knn[q].id
    requires forall j :: 0 <= j < |bm25| && j != p ==> bm25[j].id != bm25[p].id
    requires forall j :: 0 <= j < |knn| && j != q ==> knn[j].id != knn[q].id
    ensures RrfScore(HitIds(bm25), HitIds(knn), bm25[p].id, k, 1)
            == 1.0 / ((k + p + 1) as real) + 1.0 / ((k + q + 1) as real)
  {
    RankSumOnce(HitIds(bm25), p, k, 1);
    RankSumOnce(HitIds(knn), q, k, 1);
  }

  /** The result is in non-increasing score order. */
  lemma RrfSorted(bm25: seq<Hit>, knn: seq<Hit>, k: int)
    requires NonZeroRanks(|bm25|, k, 1) && NonZeroRanks(|knn|, k, 1)
    ensures var r := RrfFused(bm25, knn, k);
            forall i, j :: 0 <= i < j < |r| ==> r[i].score >= r[j].score
  {
    SortDescProps(FusedEntries(bm25, knn, k), FusedScore);
  }

  /**
    Ties keep first-seen order (BM25 ids before ids only the k-NN list has):
    the entries sharing a score appear as they did before sorting.
  */
  lemma RrfTiesFirstSeen(bm25: seq<Hit>, knn: seq<Hit>, k: int, v: real)
    requires NonZeroRanks(|bm25|, k, 1) && NonZeroRanks(|knn|, k, 1)
    ensures WithKey(RrfFused(bm25, knn, k), FusedScore, v) == WithKey(FusedEntries(bm25, knn, k), FusedScore, v)
  {
    SortDescStable(FusedEntries(bm25, knn, k), FusedScore, v);
  }

  /** Fusing two empty lists yields nothing. */
  lemma RrfEmpty(k: int)
    ensures RrfFused([], [], k) == []
  {
    assert HitIds([]) + HitIds([]) == [];
  }

  /** Two ids ranked 1st/2nd and 2nd/1st tie; the one BM25 ranked first stays first. */
  lemma RrfTieExample(x: Hit, y: Hit)
    requires x.id != y.id
    ensures var r := RrfFused([x, y], [y, x], 60);
            |r| == 2 && r[0].id == x.id && r[1].id == y.id && r[0].score == r[1].score
  {
    var a, b := HitIds([x, y]), HitIds([y, x]);
    assert a + b == [x.id, y.id, y.id, x.id];
    FirstSeenCrossed(x.id, y.id);
    RrfAgreementAdds([x, y], [y, x], 60, 0, 1);
    RrfAgreementAdds([x, y], [y, x], 60, 1, 0);
    var e := FusedEntries([x, y], [y, x], 60);
    assert e == [e[0], e[1]];
    SortPairTie(e[0], e[1], FusedScore);
  }

  /** Two ids listed in one order and then the other are first seen in the first order. */
  lemma FirstSeenCrossed(u: String, v: String)
    requires u != v
    ensures FirstSeen([u, v, v, u]) == [u, v]
  {
    assert [u, v, v, u][..3] == [u, v, v];
    assert [u, v, v][..2] == [u, v];
    assert [u, v][..1] == [u];
    assert FirstSeen([u]) == [u];
    assert FirstSeen([u, v]) == [u, v];
  }

  /** Sorting two entries of equal score keeps them in place. */
  lemma SortPairTie<T>(p: T, q: T, key: T -> real)
    requires key(p) == key(q)
    ensures SortDesc([p, q], key) == [p, q]
  {
    assert [p, q][..1] == [p];
    assert SortDesc([p], key) == [p];
    assert InsertDesc([p], q, key) == [p] + InsertDesc([], q, key);
  }
}
